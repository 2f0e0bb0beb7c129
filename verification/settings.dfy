/**
  The account settings page (`controllers/settings.js`): the checks in
  front of the name and password updates, and the guard in front of the
  account deletion.
 */
module Settings {

  import opened Common
  import opened Model
  import Register
  import Sanitize
  import Text

  /** What `/^.{6,}$/` accepts: six or more characters, none of them a line terminator. */
  predicate LongEnough(p: string)
  {
    |p| >= 6 && forall k :: 0 <= k < |p| ==> !Text.IsLineTerminator(p[k])
  }

  /** `strongPasswordRegex.test(p)` of the settings page: `.` stops at a line terminator. */
  method TestLongEnough(p: string) returns (ok: bool)
    ensures ok <==> LongEnough(p)
  {
    var i := 0;
    while i < |p| && !Text.IsLineTerminator(p[i])
      invariant 0 <= i <= |p|
      invariant forall k :: 0 <= k < i ==> !Text.IsLineTerminator(p[k])
    {
      i := i + 1;
    }
    ok := i == |p| && i >= 6;
  }

  /** Every password the registration page calls strong passes the settings check too. */
  lemma StrongIsLongEnough(p: string)
    requires Register.StrongPassword(p)
    ensures LongEnough(p)
  {
  }

  /** A six-character password with a line break in it is refused. */
  lemma LineBreakRefused()
    ensures !LongEnough("abc\ndef")
    ensures LongEnough("abcdef")
  {
    assert Text.IsLineTerminator("abc\ndef"[3]);
  }

  datatype NameError = EmptyName

  /**
    `updateName`: the trimmed name goes through the text-node sanitiser of
    `controllers/utils.js`; an empty result stops with an error and writes
    nothing, anything else is the new `name` field.
   */
  function UpdateName(rawName: string): (r: Result<string, NameError>)
    ensures r.Failure? <==> Text.AllSpace(rawName)
    ensures r.Success? ==> Sanitize.TextInert(r.value) && Sanitize.TextUnescape(r.value) == Some(Text.Trim(rawName))
  {
    var name := Text.Trim(rawName);
    Text.TrimEmptyIffAllSpace(rawName);
    var safe := Sanitize.EscapeText(Some(name));
    if safe == "" then Failure(EmptyName)
    else
      Sanitize.EscapeTextSafe(name);
      Success(safe)
  }

  /** A name without `&`, `<`, `>` or no-break space is stored exactly as typed, without its surrounding spaces. */
  lemma UpdateNamePlain(rawName: string)
    requires Text.Trim(rawName) != ""
    requires forall k :: 0 <= k < |Text.Trim(rawName)| ==> !Sanitize.IsTextSpecial(Text.Trim(rawName)[k])
    ensures UpdateName(rawName) == Success(Text.Trim(rawName))
  {
    Sanitize.TextEscapePlain(Text.Trim(rawName));
  }

  datatype PasswordError = MissingPassword | PasswordMismatch | TooShort

  /**
    `updatePassword`: either field empty, then a mismatch, then the
    six-character pattern stops the update; otherwise the new password is
    sent.
   */
  function UpdatePassword(newPassword: string, confirm: string): (r: Result<string, PasswordError>)
    ensures r == Failure(MissingPassword) <==> newPassword == "" || confirm == ""
    ensures r == Failure(PasswordMismatch) <==> newPassword != "" && confirm != "" && newPassword != confirm
    ensures r == Failure(TooShort) <==> newPassword != "" && newPassword == confirm && !LongEnough(newPassword)
    ensures r.Success? ==> r.value == newPassword && newPassword == confirm
  {
    if newPassword == "" || confirm == "" then Failure(MissingPassword)
    else if newPassword != confirm then Failure(PasswordMismatch)
    else if !LongEnough(newPassword) then Failure(TooShort)
    else Success(newPassword)
  }

  /** The password a user registered with is always accepted as a new one. */
  lemma RegisteredPasswordAccepted(rawName: string, rawEmail: string, password: string)
    ensures Register.SubmitRegister(rawName, rawEmail, password, password).Success? ==>
      UpdatePassword(password, password) == Success(password)
  {
    if Register.SubmitRegister(rawName, rawEmail, password, password).Success? {
      Register.RegisterAcceptsOnlyClean(rawName, rawEmail, password, password);
      StrongIsLongEnough(password);
    }
  }

  /** The deletions `performAccountDeletion` asks for, in order, before going to the login page. */
  datatype Deletion = Deletion(profileDoc: string, authUser: string)

  /** `NoUser` is the thrown "no authenticated user"; `DeleteDocUndefined` is the reference to an unimported `deleteDoc`. */
  datatype DeleteError = NoUser | DeleteDocUndefined

  /** The names `controllers/settings.js` imports from the Firestore module. */
  const FirestoreImports: set<string> := {"doc", "updateDoc"}

  /**
    `performAccountDeletion` as the module is written: `deleteDoc` is not
    among the Firestore imports, so for a signed-in user the call throws
    before either deletion, and the catch shows the error message.
   */
  function PerformAccountDeletionAsWritten(currentUser: Option<User>): (r: Result<Deletion, DeleteError>)
    ensures r.Failure?
    ensures r.error == NoUser <==> currentUser.None?
  {
    match currentUser
    case None => Failure(NoUser)
    case Some(u) =>
      if "deleteDoc" in FirestoreImports then Success(Deletion(u.uid, u.uid)) else Failure(DeleteDocUndefined)
  }

  /** As written no account is ever deleted, where the intended deletion removes both records of every signed-in user. */
  lemma AccountNeverDeletedAsWritten(u: User)
    ensures PerformAccountDeletionAsWritten(Some(u)) == Failure(DeleteDocUndefined)
    ensures PerformAccountDeletion(Some(u)) == Success(Deletion(u.uid, u.uid))
  {
  }

  /**
    The intended deletion, with `deleteDoc` imported: without a signed-in
    user it takes the error path and deletes nothing; otherwise it deletes
    that user's profile document, then that user's account.
   */
  function PerformAccountDeletion(currentUser: Option<User>): (r: Result<Deletion, DeleteError>)
    ensures r == Failure(NoUser) <==> currentUser.None?
    ensures r.Success? ==> r.value.profileDoc == currentUser.value.uid && r.value.authUser == currentUser.value.uid
  {
    match currentUser
    case None => Failure(NoUser)
    case Some(u) => Success(Deletion(u.uid, u.uid))
  }

  /**
    A coarse token view of a script, enough to follow block comments:
    `Code` stands for source text that declares or assigns the names in
    `binds`, `Open` for the slash-star that opens a block comment and
    `Close` for the star-slash that closes it.
   */
  datatype Piece = Code(binds: seq<string>) | Open | Close

  /**
    The names a script declares, in order, or `None` when it does not parse.
    Inside a comment everything up to the first closer is skipped, a
    further opener included; a comment still open at the end of the
    script, or a closer outside one, is a syntax error (section 12.4 of
    ECMA-262).
   */
  function Declared(ps: seq<Piece>, inComment: bool): (r: Option<seq<string>>)
    ensures !inComment && (forall k :: 0 <= k < |ps| ==> ps[k].Code?) ==> r.Some?
    ensures inComment && (forall k :: 0 <= k < |ps| ==> ps[k] != Close) ==> r.None?
    ensures r.Some? ==> forall n :: n in r.value ==> exists k :: 0 <= k < |ps| && ps[k].Code? && n in ps[k].binds
    decreases |ps|
  {
    if ps == [] then (if inComment then None else Some([]))
    else
      var rest := Declared(ps[1..], (inComment && ps[0] != Close) || ps[0] == Open);
      assert forall k :: 1 <= k < |ps| ==> ps[1..][k - 1] == ps[k];
      match ps[0]
      case Code(bs) =>
        if inComment then rest
        else (match rest case None => None case Some(ns) => Some(bs + ns))
      case Open => rest
      case Close => if inComment then rest else None
  }

  /** A comment that is never closed swallows the rest of the script, which then does not parse. */
  lemma {:induction false} UnclosedCommentFails(text: seq<Piece>)
    requires forall k :: 0 <= k < |text| ==> text[k] != Close
    ensures Declared(text, true) == None
    decreases |text|
  {
    if text != [] {
      assert forall k :: 0 <= k < |text[1..]| ==> text[1..][k] == text[k + 1];
      UnclosedCommentFails(text[1..]);
    }
  }

  /** A closed comment is skipped: the script reads on from its closer as if the comment were not there. */
  lemma {:induction false} ClosedCommentSkipped(text: seq<Piece>, after: seq<Piece>)
    requires forall k :: 0 <= k < |text| ==> text[k] != Close
    ensures Declared(text + [Close] + after, true) == Declared(after, false)
    decreases |text|
  {
    if text == [] {
      assert text + [Close] + after == [Close] + after;
      assert ([Close] + after)[1..] == after;
    } else {
      assert (text + [Close] + after)[1..] == text[1..] + [Close] + after;
      assert forall k :: 0 <= k < |text[1..]| ==> text[1..][k] == text[k + 1];
      ClosedCommentSkipped(text[1..], after);
    }
  }

  /** What lines 1-159 declare: the load listener and the account handlers. */
  const HeadNames: seq<string> := ["DOMContentLoaded", "updateName", "updatePassword", "deleteAccount", "performAccountDeletion"]

  /** The language and theme handlers of lines 162-204. */
  const ThemeNames: seq<string> := ["changeLanguage", "changeTheme", "applyTheme"]

  /** The globals of lines 207-211. */
  const WindowNames: seq<string> := ["window.updateName", "window.updatePassword", "window.deleteAccount", "window.changeLanguage", "window.changeTheme"]

  /** `controllers/settings.js` as shipped: the comment opened on line 160 is never closed. */
  const ScriptAsWritten: seq<Piece> := [Code(HeadNames), Open, Code(ThemeNames), Code(WindowNames)]

  /** The same script with its comment closed after the heading of line 161. */
  const ScriptCorrected: seq<Piece> := [Code(HeadNames), Open, Close, Code(ThemeNames), Code(WindowNames)]

  /** As shipped the module does not parse, so none of its handlers is ever declared or wired. */
  lemma SettingsScriptAsWrittenFails()
    ensures Declared(ScriptAsWritten, false) == None
  {
    var text := [Code(ThemeNames), Code(WindowNames)];
    UnclosedCommentFails(text);
    assert ScriptAsWritten[1..] == [Open] + text;
    assert ([Open] + text)[1..] == text;
  }

  /** With the comment closed the script declares every handler and exposes the five globals. */
  lemma SettingsScriptCorrectedWires()
    ensures Declared(ScriptCorrected, false) == Some(HeadNames + ThemeNames + WindowNames)
    ensures forall n :: n in WindowNames ==> n in Declared(ScriptCorrected, false).value
  {
    var last := [Code(WindowNames)];
    var after := [Code(ThemeNames)] + last;
    assert last[1..] == [];
    assert Declared(last, false) == Some(WindowNames + []);
    assert WindowNames + [] == WindowNames;
    assert after[1..] == last;
    assert Declared(after, false) == Some(ThemeNames + WindowNames);
    ClosedCommentSkipped([], after);
    assert [] + [Close] + after == ScriptCorrected[1..][1..];
    assert Declared(ScriptCorrected[1..], false) == Declared(ScriptCorrected[1..][1..], true);
    assert HeadNames + (ThemeNames + WindowNames) == HeadNames + ThemeNames + WindowNames;
  }
}
