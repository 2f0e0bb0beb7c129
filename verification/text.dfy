/**
  String primitives with the semantics of the JavaScript built-ins the pages
  call: `trim`, `includes`, `endsWith`, `startsWith`, `split`, `repeat`, and
  the regular-expression class `\s`.
 */
module Text {

  import opened Common

  /** ECMAScript LineTerminator code points (the ones `.` does not match). */
  predicate IsLineTerminator(c: char)
  {
    c == '\n' || c == '\r' || c == '\U{2028}' || c == '\U{2029}'
  }

  /** ECMAScript WhiteSpace or LineTerminator: the class `\s`, and what `trim` removes. */
  predicate IsSpace(c: char)
  {
    || c == '\t' || c == '\U{000B}' || c == '\U{000C}' || c == ' '
    || c == '\U{00A0}' || c == '\U{1680}' || ('\U{2000}' <= c <= '\U{200A}')
    || c == '\U{202F}' || c == '\U{205F}' || c == '\U{3000}' || c == '\U{FEFF}'
    || IsLineTerminator(c)
  }

  predicate AllSpace(s: string)
  {
    forall i :: 0 <= i < |s| ==> IsSpace(s[i])
  }

  /** `trimStart`: drops the leading white space, keeps the rest verbatim. */
  function TrimStart(s: string): (r: string)
    ensures |r| <= |s| && r == s[|s| - |r|..]
    ensures AllSpace(s[..|s| - |r|])
    ensures r != [] ==> !IsSpace(r[0])
  {
    if s == [] || !IsSpace(s[0]) then s else TrimStart(s[1..])
  }

  /** White space in front of text that starts with none is exactly what `trimStart` drops. */
  lemma {:induction false} TrimStartAfterSpace(ws: string, t: string)
    requires AllSpace(ws)
    requires t == [] || !IsSpace(t[0])
    ensures TrimStart(ws + t) == t
    decreases |ws|
  {
    if ws == [] {
      assert ws + t == t;
    } else {
      assert (ws + t)[0] == ws[0];
      assert (ws + t)[1..] == ws[1..] + t;
      TrimStartAfterSpace(ws[1..], t);
    }
  }

  /** `trimEnd`: drops the trailing white space, keeps the rest verbatim. */
  function TrimEnd(s: string): (r: string)
    ensures |r| <= |s| && r == s[..|r|]
    ensures AllSpace(s[|r|..])
    ensures r != [] ==> !IsSpace(r[|r| - 1])
  {
    if s == [] || !IsSpace(s[|s| - 1]) then s else TrimEnd(s[..|s| - 1])
  }

  function Trim(s: string): string
  {
    TrimEnd(TrimStart(s))
  }

  lemma {:induction false} TrimStartAllSpace(s: string)
    requires AllSpace(s)
    ensures TrimStart(s) == ""
    decreases |s|
  {
    if s != [] {
      TrimStartAllSpace(s[1..]);
    }
  }

  /** A string trims to "" exactly when it consists of white space only. */
  lemma TrimEmptyIffAllSpace(s: string)
    ensures Trim(s) == "" <==> AllSpace(s)
  {
    if AllSpace(s) {
      TrimStartAllSpace(s);
    }
    if Trim(s) == "" {
      var a := TrimStart(s);
      assert AllSpace(a[0..]);
      assert s == s[..|s| - |a|] + a;
    }
  }

  /** Trimming keeps an inner character sequence untouched and is idempotent. */
  lemma TrimIdempotent(s: string)
    ensures Trim(Trim(s)) == Trim(s)
  {
    var t := Trim(s);
    if t != [] {
      var a := TrimStart(s);
      assert t == a[..|t|];
      assert t[0] == a[0];
    }
  }

  predicate StartsWith(s: string, p: string)
  {
    |p| <= |s| && s[..|p|] == p
  }

  predicate EndsWith(s: string, p: string)
  {
    |p| <= |s| && s[|s| - |p|..] == p
  }

  predicate OccursAt(s: string, p: string, i: int)
  {
    0 <= i && i + |p| <= |s| && s[i..i + |p|] == p
  }

  /** `s.includes(p)`. */
  predicate Contains(s: string, p: string)
  {
    exists i :: 0 <= i <= |s| - |p| && OccursAt(s, p, i)
  }

  lemma ContainsSuffix(s: string, p: string)
    ensures Contains(s + p, p)
  {
    assert OccursAt(s + p, p, |s|);
  }

  /**
    Appending a tail can only create an occurrence of `p` that lies in the
    tail or straddles the seam, so when the tail is shorter than `p` and its
    first character never occurs in `p`, no new occurrence appears.
   */
  lemma NoNewOccurrence(s: string, t: string, p: string)
    requires !Contains(s, p)
    requires |t| < |p| && t != []
    requires forall k :: 0 <= k < |p| ==> p[k] != t[0]
    ensures !Contains(s + t, p)
  {
    forall i | 0 <= i <= |s + t| - |p|
      ensures !OccursAt(s + t, p, i)
    {
      if i + |p| <= |s| {
        assert (s + t)[i..i + |p|] == s[i..i + |p|];
        assert !OccursAt(s, p, i);
      } else {
        assert (s + t)[i..i + |p|][|s| - i] == t[0];
      }
    }
  }

  function Repeat(c: char, n: nat): (r: string)
    ensures |r| == n
    ensures forall i :: 0 <= i < n ==> r[i] == c
  {
    if n == 0 then [] else [c] + Repeat(c, n - 1)
  }

  function CountChar(s: string, c: char): nat
  {
    if s == [] then 0 else (if s[0] == c then 1 else 0) + CountChar(s[1..], c)
  }

  lemma {:induction false} CountCharAppend(s: string, t: string, c: char)
    ensures CountChar(s + t, c) == CountChar(s, c) + CountChar(t, c)
    decreases |s|
  {
    if s == [] {
      assert s + t == t;
    } else {
      assert (s + t)[1..] == s[1..] + t;
      CountCharAppend(s[1..], t, c);
    }
  }

  lemma {:induction false} CountRepeat(c: char, d: char, n: nat)
    ensures CountChar(Repeat(c, n), d) == if c == d then n else 0
    decreases n
  {
    if n > 0 {
      assert Repeat(c, n)[1..] == Repeat(c, n - 1);
      CountRepeat(c, d, n - 1);
    }
  }

  /** Index of the first `c` in `s`, if any. */
  function IndexOf(s: string, c: char): (r: Option<nat>)
    ensures r.Some? ==> r.value < |s| && s[r.value] == c
    ensures r.Some? ==> forall k :: 0 <= k < r.value ==> s[k] != c
    ensures r.None? ==> forall k :: 0 <= k < |s| ==> s[k] != c
  {
    if s == [] then None
    else if s[0] == c then Some(0)
    else match IndexOf(s[1..], c)
      case None => None
      case Some(k) => Some(k + 1)
  }

  /** `s.split(c)` for a one-character separator. */
  function Split(s: string, c: char): (parts: seq<string>)
    ensures |parts| >= 1
    ensures forall i, k :: 0 <= i < |parts| && 0 <= k < |parts[i]| ==> parts[i][k] != c
    decreases |s|
  {
    match IndexOf(s, c)
    case None => [s]
    case Some(k) => [s[..k]] + Split(s[k + 1..], c)
  }

  /** `parts.join(c)`: the inverse of `Split`. */
  function Join(parts: seq<string>, c: char): string
    requires |parts| >= 1
  {
    if |parts| == 1 then parts[0] else parts[0] + [c] + Join(parts[1..], c)
  }

  lemma {:induction false} JoinSplit(s: string, c: char)
    ensures Join(Split(s, c), c) == s
    decreases |s|
  {
    match IndexOf(s, c)
    case None =>
    case Some(k) =>
      var rest := Split(s[k + 1..], c);
      SplitSome(s, c, k);
      JoinSplit(s[k + 1..], c);
      JoinCons(s[..k], rest, c);
      assert s == s[..k] + [c] + s[k + 1..];
  }

  lemma SplitSome(s: string, c: char, k: nat)
    requires IndexOf(s, c) == Some(k)
    ensures k < |s| && Split(s, c) == [s[..k]] + Split(s[k + 1..], c)
  {
  }

  lemma JoinCons(p: string, rest: seq<string>, c: char)
    requires |rest| >= 1
    ensures Join([p] + rest, c) == p + [c] + Join(rest, c)
  {
    assert ([p] + rest)[1..] == rest;
  }

  lemma IndexOfAfter(a: string, c: char, b: string)
    requires forall k :: 0 <= k < |a| ==> a[k] != c
    ensures IndexOf(a + [c] + b, c) == Some(|a|)
  {
    var s := a + [c] + b;
    assert s[|a|] == c;
    forall k | 0 <= k < |a| ensures s[k] != c {
      assert s[k] == a[k];
    }
  }

  /** Splitting a string with exactly one separator gives the two sides. */
  lemma SplitOnce(a: string, c: char, b: string)
    requires forall k :: 0 <= k < |a| ==> a[k] != c
    requires forall k :: 0 <= k < |b| ==> b[k] != c
    ensures Split(a + [c] + b, c) == [a, b]
  {
    var s := a + [c] + b;
    IndexOfAfter(a, c, b);
    assert s[..|a|] == a && s[|a| + 1..] == b;
  }
}
