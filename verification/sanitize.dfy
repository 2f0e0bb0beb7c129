/**
  The two `sanitizeHTML` functions of the site.

  `js/utils.js`: drop `<script …>…</script>` blocks,
  escape the six HTML-special characters as entities, then rewrite every
  `javascript:` and `data:` (in any letter case) to `unsafe-protocol:`.

  The regular expressions carry the `i` flag without `u`, under which a
  character matches an ASCII letter of the pattern exactly when its ASCII
  lower-case form equals that letter; non-ASCII characters never fold onto
  ASCII ones. `.` does not match line terminators.

  `controllers/utils.js`: set the text of a fresh element and read its
  markup back, which escapes only what the HTML serialisation of a text
  node escapes.
 */
module Sanitize {

  import opened Common
  import Text

  /** ASCII lower-casing, the case folding the `i` flag applies to these patterns. */
  function LowerAscii(c: char): char
  {
    if 'A' <= c <= 'Z' then (c as int + 32) as char else c
  }

  /** `p` (written in lower case) matches `s` at `i`, ignoring ASCII letter case. */
  predicate MatchAt(s: string, p: string, i: int)
  {
    0 <= i && i + |p| <= |s| && forall k :: 0 <= k < |p| ==> LowerAscii(s[i + k]) == p[k]
  }

  lemma ConsMatch(c: char, x: string, q: string)
    requires q != []
    ensures MatchAt([c] + x, q, 0) <==> LowerAscii(c) == q[0] && MatchAt(x, q[1..], 0)
  {
    var s := [c] + x;
    if LowerAscii(c) == q[0] && MatchAt(x, q[1..], 0) {
      forall k | 0 <= k < |q| ensures LowerAscii(s[k]) == q[k] {
        if k > 0 {
          assert s[k] == x[k - 1] && q[k] == q[1..][k - 1];
        }
      }
    }
    if MatchAt(s, q, 0) {
      forall k | 0 <= k < |q| - 1 ensures LowerAscii(x[k]) == q[1..][k] {
        assert s[k + 1] == x[k];
      }
    }
  }

  lemma ShiftMatch(a: string, b: string, p: string, i: int)
    requires i >= 0
    ensures MatchAt(a + b, p, |a| + i) <==> MatchAt(b, p, i)
  {
    var s := a + b;
    if MatchAt(b, p, i) {
      forall k | 0 <= k < |p| ensures LowerAscii(s[|a| + i + k]) == p[k] {
        assert s[|a| + i + k] == b[i + k];
      }
    }
    if MatchAt(s, p, |a| + i) {
      forall k | 0 <= k < |p| ensures LowerAscii(b[i + k]) == p[k] {
        assert s[|a| + i + k] == b[i + k];
      }
    }
  }

  // ---------------------------------------------------------------------
  // Step 1: script blocks, /<script[^>]*>.*?<\/script>/gi
  // ---------------------------------------------------------------------

  const ScriptOpen: string := "<script"
  const ScriptClose: string := "</script>"

  /**
    Where the lazy `.*?` of the script pattern stops when its body starts at
    `k`: the first closing tag from `k` on, provided no line terminator
    comes before it.
   */
  function CloseFrom(s: string, k: nat): (r: Option<nat>)
    ensures r.Some? ==> k <= r.value && MatchAt(s, ScriptClose, r.value)
    ensures r.Some? ==> forall j :: k <= j < r.value ==> !Text.IsLineTerminator(s[j]) && !MatchAt(s, ScriptClose, j)
    decreases |s| - k
  {
    if k + |ScriptClose| > |s| then None
    else if MatchAt(s, ScriptClose, k) then Some(k)
    else if Text.IsLineTerminator(s[k]) then None
    else CloseFrom(s, k + 1)
  }

  /** The end of a script block starting at `i`, if the pattern matches there. */
  function ScriptEnd(s: string, i: nat): (r: Option<nat>)
    requires i <= |s|
    ensures r.Some? ==> i < r.value <= |s| && MatchAt(s, ScriptOpen, i)
  {
    if !MatchAt(s, ScriptOpen, i) then None
    else match Text.IndexOf(s[i + |ScriptOpen|..], '>')
      case None => None
      case Some(g) =>
        match CloseFrom(s, i + |ScriptOpen| + g + 1)
        case None => None
        case Some(k) => Some(k + |ScriptClose|)
  }

  /** The global replace of script blocks by "", scanning from `i`. */
  function StripFrom(s: string, i: nat): (r: string)
    requires i <= |s|
    ensures |r| <= |s| - i
    decreases |s| - i
  {
    if i == |s| then []
    else match ScriptEnd(s, i)
      case Some(e) => StripFrom(s, e)
      case None => [s[i]] + StripFrom(s, i + 1)
  }

  function StripScripts(s: string): (r: string)
    ensures |r| <= |s|
  {
    StripFrom(s, 0)
  }

  /** Text without a '<' has no script block and passes through unchanged. */
  lemma {:induction false} StripFromPlain(s: string, i: nat)
    requires i <= |s|
    requires forall k :: 0 <= k < |s| ==> s[k] != '<'
    ensures StripFrom(s, i) == s[i..]
    decreases |s| - i
  {
    if i < |s| {
      assert !MatchAt(s, ScriptOpen, i) by {
        if i + |ScriptOpen| <= |s| {
          assert LowerAscii(s[i + 0]) != ScriptOpen[0];
        }
      }
      StripFromPlain(s, i + 1);
      assert s[i..] == [s[i]] + s[i + 1..];
    }
  }

  lemma StripScriptsPlain(s: string)
    requires forall k :: 0 <= k < |s| ==> s[k] != '<'
    ensures StripScripts(s) == s
  {
    StripFromPlain(s, 0);
  }

  // ---------------------------------------------------------------------
  // Step 2: the escape map /[&<>'"`]/g
  // ---------------------------------------------------------------------

  predicate IsSpecial(c: char)
  {
    c == '&' || c == '<' || c == '>' || c == '\'' || c == '"' || c == '`'
  }

  function EscapeChar(c: char): string
  {
    match c
    case '&' => "&amp;"
    case '<' => "&lt;"
    case '>' => "&gt;"
    case '\'' => "&#39;"
    case '"' => "&quot;"
    case '`' => "&#x60;"
    case _ => [c]
  }

  function Escape(s: string): (r: string)
    ensures |r| >= |s|
  {
    if s == [] then [] else EscapeChar(s[0]) + Escape(s[1..])
  }

  /** After escaping no `<`, `>`, quote or backtick is left. */
  predicate Inert(t: string)
  {
    forall k :: 0 <= k < |t| ==> !IsSpecial(t[k]) || t[k] == '&'
  }

  lemma {:induction false} EscapeAppend(a: string, b: string)
    ensures Escape(a + b) == Escape(a) + Escape(b)
    decreases |a|
  {
    if a != [] {
      assert (a + b)[1..] == a[1..] + b;
      EscapeAppend(a[1..], b);
    } else {
      assert a + b == b;
    }
  }

  lemma {:induction false} EscapePlain(x: string)
    requires forall k :: 0 <= k < |x| ==> !IsSpecial(x[k])
    ensures Escape(x) == x
    decreases |x|
  {
    if x != [] {
      EscapePlain(x[1..]);
      assert x == [x[0]] + x[1..];
    }
  }

  lemma {:induction false} EscapeInert(s: string)
    ensures Inert(Escape(s))
    decreases |s|
  {
    if s != [] {
      EscapeInert(s[1..]);
      var e := EscapeChar(s[0]);
      var r := Escape(s);
      forall k | 0 <= k < |r| ensures !IsSpecial(r[k]) || r[k] == '&' {
        if k >= |e| {
          assert r[k] == Escape(s[1..])[k - |e|];
        }
      }
    }
  }

  /** The special character whose entity `t` starts with, if any. */
  function EntityAt(t: string): (r: Option<char>)
    ensures r.Some? ==> IsSpecial(r.value) && Text.StartsWith(t, EscapeChar(r.value))
  {
    if Text.StartsWith(t, "&amp;") then Some('&')
    else if Text.StartsWith(t, "&lt;") then Some('<')
    else if Text.StartsWith(t, "&gt;") then Some('>')
    else if Text.StartsWith(t, "&#39;") then Some('\'')
    else if Text.StartsWith(t, "&quot;") then Some('"')
    else if Text.StartsWith(t, "&#x60;") then Some('`')
    else None
  }

  /** Decoding the six entities; `None` for text the escape step cannot produce. */
  function Unescape(t: string): (r: Option<string>)
    decreases |t|
  {
    if t == [] then Some([])
    else if t[0] == '&' then
      match EntityAt(t)
      case None => None
      case Some(c) =>
        match Unescape(t[|EscapeChar(c)|..])
        case None => None
        case Some(u) => Some([c] + u)
    else if IsSpecial(t[0]) then None
    else
      match Unescape(t[1..])
      case None => None
      case Some(u) => Some([t[0]] + u)
  }

  lemma EntityOfEscape(c: char, rest: string)
    requires IsSpecial(c)
    ensures EntityAt(EscapeChar(c) + rest) == Some(c)
  {
    var t := EscapeChar(c) + rest;
    assert t[..|EscapeChar(c)|] == EscapeChar(c);
    assert t[0] == '&' && t[1] == EscapeChar(c)[1];
    if |EscapeChar(c)| >= 3 {
      assert t[2] == EscapeChar(c)[2];
    }
  }

  /** Decoding the escaped text gives back the text. */
  lemma {:induction false} UnescapeEscape(s: string)
    ensures Unescape(Escape(s)) == Some(s)
    decreases |s|
  {
    if s != [] {
      var e := EscapeChar(s[0]);
      var t := Escape(s);
      UnescapeEscape(s[1..]);
      assert t == e + Escape(s[1..]);
      if IsSpecial(s[0]) {
        EntityOfEscape(s[0], Escape(s[1..]));
        assert t[|e|..] == Escape(s[1..]);
      } else {
        assert t[1..] == Escape(s[1..]);
      }
      assert s == [s[0]] + s[1..];
    }
  }

  /** Whatever decodes was produced by escaping what it decodes to. */
  lemma {:induction false} EscapeUnescape(t: string, s: string)
    requires Unescape(t) == Some(s)
    ensures Escape(s) == t
    decreases |t|
  {
    if t != [] {
      if t[0] == '&' {
        UnescapeEntityCase(t, s);
        var e := EscapeChar(s[0]);
        EscapeUnescape(t[|e|..], s[1..]);
        assert t == t[..|e|] + t[|e|..];
      } else {
        UnescapePlainCase(t, s);
        EscapeUnescape(t[1..], s[1..]);
        assert t == [t[0]] + t[1..];
      }
    }
  }

  lemma UnescapeEntityCase(t: string, s: string)
    requires t != [] && t[0] == '&' && Unescape(t) == Some(s)
    ensures s != [] && IsSpecial(s[0]) && Text.StartsWith(t, EscapeChar(s[0]))
    ensures Unescape(t[|EscapeChar(s[0])|..]) == Some(s[1..])
  {
    var c := EntityAt(t).value;
    var u := Unescape(t[|EscapeChar(c)|..]).value;
    assert s == [c] + u;
    assert s[1..] == u;
  }

  lemma UnescapePlainCase(t: string, s: string)
    requires t != [] && t[0] != '&' && Unescape(t) == Some(s)
    ensures s != [] && s[0] == t[0] && !IsSpecial(t[0])
    ensures Unescape(t[1..]) == Some(s[1..])
  {
    var u := Unescape(t[1..]).value;
    assert s == [t[0]] + u;
    assert s[1..] == u;
  }

  // ---------------------------------------------------------------------
  // Step 3: /(javascript:|data:)/gi -> "unsafe-protocol:"
  // ---------------------------------------------------------------------

  const JsScheme: string := "javascript:"
  const DataScheme: string := "data:"
  const Replacement: string := "unsafe-protocol:"

  function Rewrite(s: string): (r: string)
    decreases |s|
  {
    if s == [] then []
    else if MatchAt(s, JsScheme, 0) then Replacement + Rewrite(s[|JsScheme|..])
    else if MatchAt(s, DataScheme, 0) then Replacement + Rewrite(s[|DataScheme|..])
    else [s[0]] + Rewrite(s[1..])
  }

  /** The character facts about the three constants the proofs below rely on. */
  lemma SchemeChars()
    ensures forall k :: 0 <= k < |JsScheme| ==> !IsSpecial(JsScheme[k]) && JsScheme[k] != 'u'
    ensures forall k :: 0 <= k < |DataScheme| ==> !IsSpecial(DataScheme[k]) && DataScheme[k] != 'u'
    ensures forall k :: 0 <= k < |Replacement| ==> !IsSpecial(Replacement[k])
    ensures NoSchemeStart(Replacement)
    ensures JsScheme[0] == 'j' && DataScheme[0] == 'd'
  {
  }

  lemma EscapeReplacement()
    ensures Escape(Replacement) == Replacement
  {
    SchemeChars();
    EscapePlain(Replacement);
  }

  /** No scheme the rewrite targets occurs anywhere, in any letter case. */
  predicate NoDanger(t: string)
  {
    forall i :: 0 <= i <= |t| ==> !MatchAt(t, JsScheme, i) && !MatchAt(t, DataScheme, i)
  }

  /** A pattern without 'u' that matches the rewritten text matches the original text there. */
  lemma {:induction false} RewriteMatchBack(t: string, q: string)
    requires forall k :: 0 <= k < |q| ==> q[k] != 'u'
    ensures MatchAt(Rewrite(t), q, 0) ==> MatchAt(t, q, 0)
    decreases |t|
  {
    if t != [] && q != [] {
      if MatchAt(t, JsScheme, 0) || MatchAt(t, DataScheme, 0) {
        assert Rewrite(t)[0] == 'u';
        assert LowerAscii(Rewrite(t)[0]) != q[0];
      } else {
        ConsMatch(t[0], Rewrite(t[1..]), q);
        RewriteMatchBack(t[1..], q[1..]);
        ConsMatch(t[0], t[1..], q);
        assert t == [t[0]] + t[1..];
      }
    }
  }

  lemma NoDangerPrefixed(a: string, b: string)
    requires NoDanger(b)
    requires forall k :: 0 <= k < |a| ==> LowerAscii(a[k]) != 'j' && LowerAscii(a[k]) != 'd'
    ensures forall i :: 0 <= i < |a| ==> !MatchAt(a + b, JsScheme, i) && !MatchAt(a + b, DataScheme, i)
    ensures NoDanger(a + b) <==> forall i :: 0 <= i < |a| ==> !MatchAt(a + b, JsScheme, i) && !MatchAt(a + b, DataScheme, i)
  {
    forall i | |a| <= i <= |a + b| ensures !MatchAt(a + b, JsScheme, i) && !MatchAt(a + b, DataScheme, i) {
      ShiftMatch(a, b, JsScheme, i - |a|);
      ShiftMatch(a, b, DataScheme, i - |a|);
    }
    forall i | 0 <= i < |a| ensures !MatchAt(a + b, JsScheme, i) && !MatchAt(a + b, DataScheme, i) {
      assert (a + b)[i + 0] == a[i];
      assert LowerAscii((a + b)[i + 0]) != JsScheme[0];
      assert LowerAscii((a + b)[i + 0]) != DataScheme[0];
    }
  }

  /** A pattern that does not match `[c] + orig`, and whose tail matches `x` only where it matches `orig`, does not match `[c] + x`. */
  lemma ConsNoMatch(c: char, x: string, orig: string, p: string)
    requires p != []
    requires !MatchAt([c] + orig, p, 0)
    requires MatchAt(x, p[1..], 0) ==> MatchAt(orig, p[1..], 0)
    ensures !MatchAt([c] + x, p, 0)
  {
    ConsMatch(c, x, p);
    ConsMatch(c, orig, p);
  }

  lemma NoDangerCons(c: char, x: string)
    requires NoDanger(x)
    requires !MatchAt([c] + x, JsScheme, 0) && !MatchAt([c] + x, DataScheme, 0)
    ensures NoDanger([c] + x)
  {
    forall i | 1 <= i <= |[c] + x| ensures !MatchAt([c] + x, JsScheme, i) && !MatchAt([c] + x, DataScheme, i) {
      ShiftMatch([c], x, JsScheme, i - 1);
      ShiftMatch([c], x, DataScheme, i - 1);
    }
  }

  /** Every `javascript:` and `data:` is gone after the rewrite, and the replacement creates none. */
  lemma {:induction false} RewriteNoDanger(s: string)
    ensures NoDanger(Rewrite(s))
    decreases |s|
  {
    if s != [] {
      var r := Rewrite(s);
      if MatchAt(s, JsScheme, 0) {
        RewriteNoDanger(s[|JsScheme|..]);
        NoDangerPrefixed(Replacement, Rewrite(s[|JsScheme|..]));
      } else if MatchAt(s, DataScheme, 0) {
        RewriteNoDanger(s[|DataScheme|..]);
        NoDangerPrefixed(Replacement, Rewrite(s[|DataScheme|..]));
      } else {
        var rest := Rewrite(s[1..]);
        RewriteNoDanger(s[1..]);
        RewriteCopies(s);
        SchemeChars();
        RewriteMatchBack(s[1..], JsScheme[1..]);
        RewriteMatchBack(s[1..], DataScheme[1..]);
        assert s == [s[0]] + s[1..];
        ConsNoMatch(s[0], rest, s[1..], JsScheme);
        ConsNoMatch(s[0], rest, s[1..], DataScheme);
        NoDangerCons(s[0], rest);
      }
    }
  }

  /** Text with nothing to rewrite is left alone, so rewriting is idempotent. */
  lemma {:induction false} RewriteIdentity(s: string)
    requires NoDanger(s)
    ensures Rewrite(s) == s
    decreases |s|
  {
    if s != [] {
      forall i | 0 <= i <= |s[1..]| ensures !MatchAt(s[1..], JsScheme, i) && !MatchAt(s[1..], DataScheme, i) {
        ShiftMatch([s[0]], s[1..], JsScheme, i);
        ShiftMatch([s[0]], s[1..], DataScheme, i);
        assert [s[0]] + s[1..] == s;
      }
      RewriteIdentity(s[1..]);
      assert s == [s[0]] + s[1..];
    }
  }

  lemma RewriteIdempotent(s: string)
    ensures Rewrite(Rewrite(s)) == Rewrite(s)
  {
    RewriteNoDanger(s);
    RewriteIdentity(Rewrite(s));
  }

  // ---------------------------------------------------------------------
  // Steps 2 and 3 commute
  // ---------------------------------------------------------------------

  predicate NoSchemeStart(x: string)
  {
    forall k :: 0 <= k < |x| ==> LowerAscii(x[k]) != 'j' && LowerAscii(x[k]) != 'd'
  }

  /** Text in which no scheme can start is copied through the rewrite. */
  lemma {:induction false} RewriteSkips(x: string, y: string)
    requires NoSchemeStart(x)
    ensures Rewrite(x + y) == x + Rewrite(y)
    decreases |x|
  {
    if x != [] {
      assert (x + y)[0] == x[0];
      assert LowerAscii((x + y)[0]) != JsScheme[0] && LowerAscii((x + y)[0]) != DataScheme[0];
      assert (x + y)[1..] == x[1..] + y;
      RewriteSkips(x[1..], y);
    } else {
      assert x + y == y;
    }
  }

  /** A pattern without '&' that matches escaped text matches the text itself. */
  lemma {:induction false} EscapeMatchBack(t: string, q: string)
    requires forall k :: 0 <= k < |q| ==> q[k] != '&'
    ensures MatchAt(Escape(t), q, 0) ==> MatchAt(t, q, 0)
    decreases |t|
  {
    if t != [] && q != [] {
      if IsSpecial(t[0]) {
        assert Escape(t)[0] == '&';
        assert LowerAscii(Escape(t)[0]) != q[0];
      } else {
        assert Escape(t) == [t[0]] + Escape(t[1..]);
        ConsMatch(t[0], Escape(t[1..]), q);
        EscapeMatchBack(t[1..], q[1..]);
        ConsMatch(t[0], t[1..], q);
        assert t == [t[0]] + t[1..];
      }
    }
  }

  /** A matched scheme contains no special character, so escaping keeps it in place. */
  lemma EscapeKeepsScheme(s: string, p: string)
    requires MatchAt(s, p, 0)
    requires forall k :: 0 <= k < |p| ==> !IsSpecial(p[k])
    ensures Escape(s) == s[..|p|] + Escape(s[|p|..])
    ensures MatchAt(Escape(s), p, 0)
  {
    var head := s[..|p|];
    forall k | 0 <= k < |head| ensures !IsSpecial(head[k]) {
      assert LowerAscii(s[k]) == p[k];
    }
    EscapePlain(head);
    EscapeAppend(head, s[|p|..]);
    assert s == head + s[|p|..];
    var e := Escape(s);
    forall k | 0 <= k < |p| ensures LowerAscii(e[k]) == p[k] {
      assert e[k] == s[k];
    }
  }

  lemma RewriteAtScheme(t: string, p: string)
    requires p == JsScheme || p == DataScheme
    requires MatchAt(t, p, 0)
    requires p == DataScheme ==> !MatchAt(t, JsScheme, 0)
    ensures Rewrite(t) == Replacement + Rewrite(t[|p|..])
  {
  }

  lemma RewriteCopies(t: string)
    requires t != []
    requires !MatchAt(t, JsScheme, 0) && !MatchAt(t, DataScheme, 0)
    ensures Rewrite(t) == [t[0]] + Rewrite(t[1..])
  {
  }

  lemma CommuteAtScheme(s: string, p: string)
    requires p == JsScheme || p == DataScheme
    requires MatchAt(s, p, 0)
    requires p == DataScheme ==> !MatchAt(s, JsScheme, 0)
    requires Rewrite(Escape(s[|p|..])) == Escape(Rewrite(s[|p|..]))
    ensures Rewrite(Escape(s)) == Escape(Rewrite(s))
  {
    var n := |p|;
    var e := Escape(s);
    SchemeChars();
    EscapeKeepsScheme(s, p);
    assert e[n..] == Escape(s[n..]);
    if p == DataScheme {
      assert e[0] == s[0];
      assert !MatchAt(e, JsScheme, 0) by {
        assert LowerAscii(e[0 + 0]) != JsScheme[0];
      }
    }
    RewriteAtScheme(e, p);
    RewriteAtScheme(s, p);
    EscapeReplacement();
    EscapeAppend(Replacement, Rewrite(s[n..]));
  }

  lemma EntityNoScheme(c: char)
    requires IsSpecial(c)
    ensures NoSchemeStart(EscapeChar(c))
  {
  }

  lemma CommuteAtSpecial(s: string)
    requires s != [] && IsSpecial(s[0])
    requires Rewrite(Escape(s[1..])) == Escape(Rewrite(s[1..]))
    ensures Rewrite(Escape(s)) == Escape(Rewrite(s))
  {
    assert !MatchAt(s, JsScheme, 0) && !MatchAt(s, DataScheme, 0) by {
      assert LowerAscii(s[0 + 0]) != JsScheme[0] && LowerAscii(s[0 + 0]) != DataScheme[0];
    }
    RewriteCopies(s);
    EntityNoScheme(s[0]);
    assert Escape(s) == EscapeChar(s[0]) + Escape(s[1..]);
    RewriteSkips(EscapeChar(s[0]), Escape(s[1..]));
    EscapeAppend([s[0]], Rewrite(s[1..]));
    assert Escape([s[0]]) == EscapeChar(s[0]);
  }

  /** Escaping a text that starts with a plain character and no scheme starts no scheme either. */
  lemma EscapedNoScheme(s: string)
    requires s != [] && !IsSpecial(s[0])
    requires !MatchAt(s, JsScheme, 0) && !MatchAt(s, DataScheme, 0)
    ensures Escape(s) == [s[0]] + Escape(s[1..])
    ensures !MatchAt(Escape(s), JsScheme, 0) && !MatchAt(Escape(s), DataScheme, 0)
  {
    var tail := Escape(s[1..]);
    EscapePlainCons(s);
    SchemeTailsNoAmp();
    EscapeMatchBack(s[1..], JsScheme[1..]);
    EscapeMatchBack(s[1..], DataScheme[1..]);
    assert s == [s[0]] + s[1..];
    ConsNoMatch(s[0], tail, s[1..], JsScheme);
    ConsNoMatch(s[0], tail, s[1..], DataScheme);
  }

  lemma EscapePlainCons(s: string)
    requires s != [] && !IsSpecial(s[0])
    ensures Escape(s) == [s[0]] + Escape(s[1..])
  {
    assert EscapeChar(s[0]) == [s[0]];
  }

  lemma SchemeTailsNoAmp()
    ensures forall k :: 0 <= k < |JsScheme[1..]| ==> JsScheme[1..][k] != '&'
    ensures forall k :: 0 <= k < |DataScheme[1..]| ==> DataScheme[1..][k] != '&'
  {
  }

  lemma CommuteAtPlain(s: string)
    requires s != [] && !IsSpecial(s[0])
    requires !MatchAt(s, JsScheme, 0) && !MatchAt(s, DataScheme, 0)
    requires Rewrite(Escape(s[1..])) == Escape(Rewrite(s[1..]))
    ensures Rewrite(Escape(s)) == Escape(Rewrite(s))
  {
    var e := Escape(s);
    EscapedNoScheme(s);
    assert e[1..] == Escape(s[1..]);
    RewriteCopies(e);
    RewriteCopies(s);
    EscapeAppend([s[0]], Rewrite(s[1..]));
    assert Escape([s[0]]) == [s[0]];
  }

  /** Escaping and the scheme rewrite commute. */
  lemma {:induction false} RewriteEscapeCommute(s: string)
    ensures Rewrite(Escape(s)) == Escape(Rewrite(s))
    decreases |s|
  {
    if s != [] {
      if MatchAt(s, JsScheme, 0) {
        RewriteEscapeCommute(s[|JsScheme|..]);
        CommuteAtScheme(s, JsScheme);
      } else if MatchAt(s, DataScheme, 0) {
        RewriteEscapeCommute(s[|DataScheme|..]);
        CommuteAtScheme(s, DataScheme);
      } else if IsSpecial(s[0]) {
        RewriteEscapeCommute(s[1..]);
        CommuteAtSpecial(s);
      } else {
        RewriteEscapeCommute(s[1..]);
        CommuteAtPlain(s);
      }
    }
  }

  // ---------------------------------------------------------------------
  // The whole sanitiser
  // ---------------------------------------------------------------------

  /** `sanitizeHTML(input)`; `None` and "" are the falsy inputs. */
  function SanitizeHtml(input: Option<string>): (r: string)
    ensures input.None? || input.value == "" ==> r == ""
  {
    match input
    case None => ""
    case Some(s) => if s == "" then "" else Rewrite(Escape(StripScripts(s)))
  }

  /**
    The sanitised text is inert (no `<`, `>`, quote or backtick, and every
    `&` begins an entity), carries no dangerous scheme, and decodes to the
    script-free input with its schemes rewritten.
   */
  lemma SanitizeHtmlSafe(s: string)
    requires s != ""
    ensures var r := SanitizeHtml(Some(s));
      Inert(r) && NoDanger(r) && Unescape(r) == Some(Rewrite(StripScripts(s)))
  {
    var x := StripScripts(s);
    RewriteEscapeCommute(x);
    EscapeInert(Rewrite(x));
    RewriteNoDanger(Escape(x));
    UnescapeEscape(Rewrite(x));
  }

  /** Plain text without markup, entities or schemes comes out verbatim. */
  lemma SanitizeHtmlPlain(s: string)
    requires s != ""
    requires forall k :: 0 <= k < |s| ==> !IsSpecial(s[k])
    requires NoDanger(s)
    ensures SanitizeHtml(Some(s)) == s
  {
    StripScriptsPlain(s);
    EscapePlain(s);
    RewriteIdentity(s);
  }

  // ---------------------------------------------------------------------
  // `sanitizeHTML` of `controllers/utils.js`
  // ---------------------------------------------------------------------

  /** What the HTML serialisation of a text node escapes: `&`, the no-break space, `<` and `>`. */
  predicate IsTextSpecial(c: char)
  {
    c == '&' || c == '\U{A0}' || c == '<' || c == '>'
  }

  function TextEscapeChar(c: char): string
  {
    match c
    case '&' => "&amp;"
    case '\U{A0}' => "&nbsp;"
    case '<' => "&lt;"
    case '>' => "&gt;"
    case _ => [c]
  }

  function TextEscape(s: string): (r: string)
    ensures |r| >= |s|
  {
    if s == [] then [] else TextEscapeChar(s[0]) + TextEscape(s[1..])
  }

  /**
    `sanitizeHTML(input)` of `controllers/utils.js`: the `innerHTML` of an
    element whose `textContent` was set to `input`. `null` and `undefined`
    (`None`) set no text at all.
   */
  function EscapeText(input: Option<string>): (r: string)
    ensures r == "" <==> input.None? || input.value == ""
  {
    match input
    case None => ""
    case Some(s) => TextEscape(s)
  }

  /** No `<`, `>` or no-break space is left; quotes and schemes are not touched. */
  predicate TextInert(t: string)
  {
    forall k :: 0 <= k < |t| ==> !IsTextSpecial(t[k]) || t[k] == '&'
  }

  lemma {:induction false} TextEscapeInert(s: string)
    ensures TextInert(TextEscape(s))
    decreases |s|
  {
    if s != [] {
      TextEscapeInert(s[1..]);
      var e := TextEscapeChar(s[0]);
      var r := TextEscape(s);
      forall k | 0 <= k < |r| ensures !IsTextSpecial(r[k]) || r[k] == '&' {
        if k >= |e| {
          assert r[k] == TextEscape(s[1..])[k - |e|];
        }
      }
    }
  }

  lemma {:induction false} TextEscapePlain(x: string)
    requires forall k :: 0 <= k < |x| ==> !IsTextSpecial(x[k])
    ensures TextEscape(x) == x
    decreases |x|
  {
    if x != [] {
      TextEscapePlain(x[1..]);
      assert x == [x[0]] + x[1..];
    }
  }

  /** The text-special character whose entity `t` starts with, if any. */
  function TextEntityAt(t: string): (r: Option<char>)
    ensures r.Some? ==> IsTextSpecial(r.value) && Text.StartsWith(t, TextEscapeChar(r.value))
  {
    if Text.StartsWith(t, "&amp;") then Some('&')
    else if Text.StartsWith(t, "&nbsp;") then Some('\U{A0}')
    else if Text.StartsWith(t, "&lt;") then Some('<')
    else if Text.StartsWith(t, "&gt;") then Some('>')
    else None
  }

  /** How a browser reads the markup back into text; `None` for markup the serialisation cannot produce. */
  function TextUnescape(t: string): (r: Option<string>)
    decreases |t|
  {
    if t == [] then Some([])
    else if t[0] == '&' then
      match TextEntityAt(t)
      case None => None
      case Some(c) =>
        match TextUnescape(t[|TextEscapeChar(c)|..])
        case None => None
        case Some(u) => Some([c] + u)
    else if IsTextSpecial(t[0]) then None
    else
      match TextUnescape(t[1..])
      case None => None
      case Some(u) => Some([t[0]] + u)
  }

  lemma TextEntityOfEscape(c: char, rest: string)
    requires IsTextSpecial(c)
    ensures TextEntityAt(TextEscapeChar(c) + rest) == Some(c)
  {
    var t := TextEscapeChar(c) + rest;
    assert t[..|TextEscapeChar(c)|] == TextEscapeChar(c);
    assert t[0] == '&' && t[1] == TextEscapeChar(c)[1];
  }

  /** Reading the escaped markup back gives the text that was set. */
  lemma {:induction false} TextUnescapeEscape(s: string)
    ensures TextUnescape(TextEscape(s)) == Some(s)
    decreases |s|
  {
    if s != [] {
      var e := TextEscapeChar(s[0]);
      var t := TextEscape(s);
      TextUnescapeEscape(s[1..]);
      assert t == e + TextEscape(s[1..]);
      if IsTextSpecial(s[0]) {
        TextEntityOfEscape(s[0], TextEscape(s[1..]));
        assert t[|e|..] == TextEscape(s[1..]);
      } else {
        assert t[1..] == TextEscape(s[1..]);
      }
      assert s == [s[0]] + s[1..];
    }
  }

  /** Whatever reads back was produced by escaping what it reads back to. */
  lemma {:induction false} TextEscapeUnescape(t: string, s: string)
    requires TextUnescape(t) == Some(s)
    ensures TextEscape(s) == t
    decreases |t|
  {
    if t != [] {
      if t[0] == '&' {
        TextUnescapeEntityCase(t, s);
        var e := TextEscapeChar(s[0]);
        TextEscapeUnescape(t[|e|..], s[1..]);
        assert t == t[..|e|] + t[|e|..];
      } else {
        TextUnescapePlainCase(t, s);
        TextEscapeUnescape(t[1..], s[1..]);
        assert t == [t[0]] + t[1..];
      }
    }
  }

  lemma TextUnescapeEntityCase(t: string, s: string)
    requires t != [] && t[0] == '&' && TextUnescape(t) == Some(s)
    ensures s != [] && IsTextSpecial(s[0]) && Text.StartsWith(t, TextEscapeChar(s[0]))
    ensures TextUnescape(t[|TextEscapeChar(s[0])|..]) == Some(s[1..])
  {
    var c := TextEntityAt(t).value;
    var u := TextUnescape(t[|TextEscapeChar(c)|..]).value;
    assert s == [c] + u;
    assert s[1..] == u;
  }

  lemma TextUnescapePlainCase(t: string, s: string)
    requires t != [] && t[0] != '&' && TextUnescape(t) == Some(s)
    ensures s != [] && s[0] == t[0] && !IsTextSpecial(t[0])
    ensures TextUnescape(t[1..]) == Some(s[1..])
  {
    var u := TextUnescape(t[1..]).value;
    assert s == [t[0]] + u;
    assert s[1..] == u;
  }

  /**
    The escaped text is inert and reads back to the input. Unlike the
    `js/utils.js` sanitiser it keeps script blocks (as escaped text) and
    `javascript:` schemes.
   */
  lemma EscapeTextSafe(s: string)
    ensures TextInert(EscapeText(Some(s))) && TextUnescape(EscapeText(Some(s))) == Some(s)
  {
    TextEscapeInert(s);
    TextUnescapeEscape(s);
  }

  /** The two sanitisers disagree on a quote: the text-node one leaves it as it is. */
  lemma SanitizersDiffer()
    ensures EscapeText(Some("\"")) == "\""
    ensures SanitizeHtml(Some("\"")) == "&quot;"
  {
    TextEscapePlain("\"");
    StripScriptsPlain("\"");
    assert Escape("\"") == "&quot;";
    RewriteSkips("&quot;", "");
    assert "&quot;" + "" == "&quot;";
  }
}
