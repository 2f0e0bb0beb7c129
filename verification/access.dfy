/**
  Page-access decisions of the auth guards (`controllers/auth-guard.js`,
  `js/auth-guard.js`) and the role checks (`controllers/auth-check.js`,
  `js/auth-check.js`): given the signed-in state, the profile lookup and
  the path, whether the page stays, redirects, or opens the login modal,
  and what happens to the stored selected worker.
 */
module Access {

  import opened Common
  import opened Model
  import Sanitize
  import Text

  const Dashboard: string := "worker_dashboard.html"
  const Index: string := "index.html"
  const SelectedWorkerKey: string := "selectedWorkerUID"

  /** The result of reading the user's profile: a failure, or the `role` field ("" when the document or the role is missing). */
  datatype Lookup = LookupFailed | Found(role: string)

  /** A role decision: stay, or go to a page. */
  datatype Decision = Allow | Redirect(target: string)

  /**
    `handleRoleBasedAccess` of `controllers/auth-guard.js`: a worker may stay
    only on a path naming the dashboard or the index page; a customer or
    client is sent home from the dashboard; a failed lookup protects the
    dashboard only; anything else is allowed.
   */
  function RoleAccess(lookup: Lookup, path: string): (d: Decision)
    ensures d.Redirect? ==> d.target == Dashboard || d.target == Index
    ensures lookup == Found("worker") ==>
      (d == Allow <==> Text.Contains(path, Dashboard) || Text.Contains(path, Index))
    ensures lookup == Found("worker") && d.Redirect? ==> d.target == Dashboard
    ensures lookup == Found("customer") || lookup == Found("client") || lookup == LookupFailed ==>
      d == (if Text.Contains(path, Dashboard) then Redirect(Index) else Allow)
    ensures lookup.Found? && lookup.role !in {"worker", "customer", "client"} ==> d == Allow
  {
    match lookup
    case LookupFailed => if Text.Contains(path, Dashboard) then Redirect(Index) else Allow
    case Found(role) =>
      if role == "" then Allow
      else if role == "worker" then
        if Text.Contains(path, Dashboard) || Text.Contains(path, Index) then Allow else Redirect(Dashboard)
      else if role == "customer" || role == "client" then
        if Text.Contains(path, Dashboard) then Redirect(Index) else Allow
      else Allow
  }

  /**
    `handleUserRole` (the same in both `auth-check.js` copies): like the
    guard, except that a worker is sent to the dashboard from every other
    path, the index page included.
   */
  function CheckUserRole(lookup: Lookup, path: string): (d: Decision)
    ensures d.Redirect? ==> d.target == Dashboard || d.target == Index
    ensures lookup == Found("worker") ==> (d == Allow <==> Text.Contains(path, Dashboard))
    ensures lookup == Found("worker") && d.Redirect? ==> d.target == Dashboard
    ensures lookup == Found("customer") || lookup == Found("client") || lookup == LookupFailed ==>
      d == (if Text.Contains(path, Dashboard) then Redirect(Index) else Allow)
    ensures lookup.Found? && lookup.role !in {"worker", "customer", "client"} ==> d == Allow
  {
    match lookup
    case LookupFailed => if Text.Contains(path, Dashboard) then Redirect(Index) else Allow
    case Found(role) =>
      if role == "worker" then
        if Text.Contains(path, Dashboard) then Allow else Redirect(Dashboard)
      else if role == "customer" || role == "client" then
        if Text.Contains(path, Dashboard) then Redirect(Index) else Allow
      else Allow
  }

  /** The guard and the role check disagree exactly for a worker on an index path outside the dashboard. */
  lemma GuardVersusCheck(lookup: Lookup, path: string)
    ensures RoleAccess(lookup, path) != CheckUserRole(lookup, path) <==>
      lookup == Found("worker") && Text.Contains(path, Index) && !Text.Contains(path, Dashboard)
  {
  }

  /** `index.html` cannot contain the dashboard's name: no 'i' occurs in it. */
  lemma IndexPathAvoidsDashboard(dir: string)
    requires !Text.Contains(dir, Dashboard)
    ensures !Text.Contains(dir + Index, Dashboard)
  {
    Text.NoNewOccurrence(dir, Index, Dashboard);
  }

  /**
    Following a redirect (to the target in the same directory, which does
    not itself name the dashboard) lands on a path the same lookup allows,
    so the guard never redirects twice.
   */
  lemma RoleAccessFixpoint(lookup: Lookup, path: string, dir: string)
    requires RoleAccess(lookup, path).Redirect?
    requires !Text.Contains(dir, Dashboard)
    ensures RoleAccess(lookup, dir + RoleAccess(lookup, path).target) == Allow
  {
    var t := RoleAccess(lookup, path).target;
    if t == Dashboard {
      Text.ContainsSuffix(dir, Dashboard);
    } else {
      IndexPathAvoidsDashboard(dir);
    }
  }

  lemma CheckUserRoleFixpoint(lookup: Lookup, path: string, dir: string)
    requires CheckUserRole(lookup, path).Redirect?
    requires !Text.Contains(dir, Dashboard)
    ensures CheckUserRole(lookup, dir + CheckUserRole(lookup, path).target) == Allow
  {
    var t := CheckUserRole(lookup, path).target;
    if t == Dashboard {
      Text.ContainsSuffix(dir, Dashboard);
    } else {
      IndexPathAvoidsDashboard(dir);
    }
  }

  /** What the auth-state handler leaves the page doing. */
  datatype Action =
    | Navigate(target: string)
    | LoginModal
    | IndexSignedIn(info: UserInfo)
    | IndexSignedOut
    | Stay

  /** `updateUserInfoDisplay`: the escaped email shown, a redirect home, or nothing. */
  datatype UserInfo = ShowEmail(safeEmail: string) | RedirectHome | NoChange

  /** The handler's effect: the `localStorage` entries afterwards, and the action. */
  datatype Outcome = Outcome(storage: map<string, string>, action: Action)

  predicate AnyContained(path: string, pages: seq<string>)
  {
    exists i :: 0 <= i < |pages| && Text.Contains(path, pages[i])
  }

  predicate AnyEnding(path: string, pages: seq<string>)
  {
    exists i :: 0 <= i < |pages| && Text.EndsWith(path, pages[i])
  }

  const GuardProtected: seq<string> := ["worker_list.html", "worker_dashboard.html", "booking.html", "worker_profile.html"]
  const JsGuardProtected: seq<string> := ["/worker_list.html", "/worker_dashboard.html", "/booking.html"]
  const InfoProtected: seq<string> := ["/worker_profile.html", "/worker_dashboard.html", "/booking.html"]

  /**
    `updateUserInfoDisplay` of `controllers/utils.js`: with a user and the
    info element present, the email through the text-node sanitiser;
    otherwise a redirect home from the three protected pages.
   */
  function UpdateUserInfo(user: Option<User>, spanPresent: bool, path: string): (u: UserInfo)
    ensures spanPresent && user.Some? ==> u == ShowEmail(Sanitize.EscapeText(Some(user.value.email)))
    ensures !(spanPresent && user.Some?) ==> (u == RedirectHome <==> AnyEnding(path, InfoProtected))
    ensures u.ShowEmail? ==> user.Some? && Sanitize.TextInert(u.safeEmail) && Sanitize.TextUnescape(u.safeEmail) == Some(user.value.email)
  {
    if spanPresent && user.Some? then
      var email := user.value.email;
      Sanitize.EscapeTextSafe(email);
      ShowEmail(Sanitize.EscapeText(Some(email)))
    else if AnyEnding(path, InfoProtected) then RedirectHome
    else NoChange
  }

  /**
    `updateUserInfoDisplay` of `js/auth-guard.js`: the same decisions, with
    the email through the `js/utils.js` sanitiser.
   */
  function JsUpdateUserInfo(user: Option<User>, spanPresent: bool, path: string): (u: UserInfo)
    ensures spanPresent && user.Some? ==> u == ShowEmail(Sanitize.SanitizeHtml(Some(user.value.email)))
    ensures !(spanPresent && user.Some?) ==> (u == RedirectHome <==> AnyEnding(path, InfoProtected))
    ensures u.ShowEmail? ==> Sanitize.Inert(u.safeEmail) && Sanitize.NoDanger(u.safeEmail)
  {
    if spanPresent && user.Some? then
      var email := user.value.email;
      SafeEmail(email);
      ShowEmail(Sanitize.SanitizeHtml(Some(email)))
    else if AnyEnding(path, InfoProtected) then RedirectHome
    else NoChange
  }

  lemma SafeEmail(email: string)
    ensures Sanitize.Inert(Sanitize.SanitizeHtml(Some(email))) && Sanitize.NoDanger(Sanitize.SanitizeHtml(Some(email)))
  {
    if email != "" {
      Sanitize.SanitizeHtmlSafe(email);
    }
  }

  /** The index test of `controllers/auth-guard.js`: "/" or any path containing "/index.html". */
  predicate LooseIndex(path: string)
  {
    path == "/" || Text.Contains(path, "/index.html")
  }

  /** The index test of `js/auth-guard.js`: exactly "/" or "/index.html". */
  predicate ExactIndex(path: string)
  {
    path == "/" || path == "/index.html"
  }

  /**
    The `onAuthStateChanged` handler of `controllers/auth-guard.js`. Signed
    out: the selected worker is forgotten, and the login modal opens on a
    protected page or any page other than the index. Signed in: the role
    decision, then the user info on the index page.
   */
  function GuardOnAuth(user: Option<User>, lookup: Lookup, path: string, storage: map<string, string>, spanPresent: bool)
    : (o: Outcome)
    ensures user.None? ==> o.storage == storage - {SelectedWorkerKey}
    ensures user.None? ==> (o.action == LoginModal <==> AnyContained(path, GuardProtected) || !LooseIndex(path))
    ensures user.None? ==> (o.action == IndexSignedOut <==> !AnyContained(path, GuardProtected) && LooseIndex(path))
    ensures user.Some? ==> o.storage == storage
    ensures user.Some? ==> (o.action.Navigate? <==> RoleAccess(lookup, path).Redirect?)
    ensures user.Some? && o.action.Navigate? ==> o.action.target == RoleAccess(lookup, path).target
    ensures user.Some? && RoleAccess(lookup, path) == Allow ==>
      o.action == (if LooseIndex(path) then IndexSignedIn(UpdateUserInfo(user, spanPresent, path)) else Stay)
  {
    match user
    case None =>
      var cleared := storage - {SelectedWorkerKey};
      if AnyContained(path, GuardProtected) then Outcome(cleared, LoginModal)
      else if LooseIndex(path) then Outcome(cleared, IndexSignedOut)
      else Outcome(cleared, LoginModal)
    case Some(_) =>
      match RoleAccess(lookup, path)
      case Redirect(t) => Outcome(storage, Navigate(t))
      case Allow =>
        if LooseIndex(path) then Outcome(storage, IndexSignedIn(UpdateUserInfo(user, spanPresent, path)))
        else Outcome(storage, Stay)
  }

  /**
    The `onAuthStateChanged` handler of `js/auth-guard.js`. Signed out: the
    selected worker is forgotten, a path ending in one of three protected
    pages goes home, the exact index paths show the signed-out header, and
    every other page gets the login modal.
   */
  function JsGuardOnAuth(user: Option<User>, path: string, storage: map<string, string>, spanPresent: bool): (o: Outcome)
    ensures user.None? ==> o.storage == storage - {SelectedWorkerKey}
    ensures user.None? ==> (o.action == Navigate(Index) <==> AnyEnding(path, JsGuardProtected))
    ensures user.None? && !AnyEnding(path, JsGuardProtected) ==>
      o.action == (if ExactIndex(path) then IndexSignedOut else LoginModal)
    ensures user.Some? ==> o.storage == storage
    ensures user.Some? ==> o.action == (if ExactIndex(path) then IndexSignedIn(JsUpdateUserInfo(user, spanPresent, path)) else Stay)
  {
    match user
    case None =>
      var cleared := storage - {SelectedWorkerKey};
      if AnyEnding(path, JsGuardProtected) then Outcome(cleared, Navigate(Index))
      else if ExactIndex(path) then Outcome(cleared, IndexSignedOut)
      else Outcome(cleared, LoginModal)
    case Some(_) =>
      if ExactIndex(path) then Outcome(storage, IndexSignedIn(JsUpdateUserInfo(user, spanPresent, path)))
      else Outcome(storage, Stay)
  }

  /** A string ending in `p` agrees with `p` at the `k`-th character from the end. */
  lemma EndsWithAt(s: string, p: string, k: nat)
    requires 1 <= k <= |p|
    ensures Text.EndsWith(s, p) ==> s[|s| - k] == p[|p| - k]
  {
    if Text.EndsWith(s, p) {
      assert s[|s| - |p|..][|p| - k] == p[|p| - k];
    }
  }

  /** A path ending in "index.html" ends in none of the signed-out redirect pages. */
  lemma IndexEndsNoProtected(dir: string)
    ensures !AnyEnding(dir + Index, JsGuardProtected)
  {
    var s := dir + Index;
    assert s[|s| - 10] == 'i';
    forall i | 0 <= i < |JsGuardProtected| ensures !Text.EndsWith(s, JsGuardProtected[i]) {
      EndsWithAt(s, JsGuardProtected[i], 10);
    }
  }

  /** The signed-out redirect of `js/auth-guard.js` lands on a page it does not redirect from again. */
  lemma JsGuardFixpoint(dir: string, storage: map<string, string>, spanPresent: bool)
    ensures JsGuardOnAuth(None, dir + Index, storage, spanPresent).action != Navigate(Index)
  {
    IndexEndsNoProtected(dir);
  }

  /** Signed out on the profile page, `js/auth-guard.js` opens the login modal instead of redirecting. */
  lemma JsGuardProfileGetsModal(dir: string, storage: map<string, string>, spanPresent: bool)
    ensures JsGuardOnAuth(None, dir + "/worker_profile.html", storage, spanPresent).action == LoginModal
  {
    var s := dir + "/worker_profile.html";
    assert s[|s| - 6] == 'e';
    forall i | 0 <= i < |JsGuardProtected| ensures !Text.EndsWith(s, JsGuardProtected[i]) {
      EndsWithAt(s, JsGuardProtected[i], 6);
    }
    assert |s| >= 20;
  }

  /** `setupLogout` (both guard copies): after signing out, the selected worker is forgotten and the index page opened. */
  function Logout(storage: map<string, string>): (o: Outcome)
    ensures SelectedWorkerKey !in o.storage
    ensures forall k :: k in storage && k != SelectedWorkerKey ==> k in o.storage && o.storage[k] == storage[k]
    ensures forall k :: k in o.storage ==> k in storage
    ensures o.action == Navigate(Index)
  {
    Outcome(storage - {SelectedWorkerKey}, Navigate(Index))
  }

  /** Landing signed out after a logout forgets nothing more: the clearing is idempotent. */
  lemma LogoutThenGuard(storage: map<string, string>, lookup: Lookup, path: string, spanPresent: bool)
    ensures GuardOnAuth(None, lookup, path, Logout(storage).storage, spanPresent).storage == Logout(storage).storage
    ensures JsGuardOnAuth(None, path, Logout(storage).storage, spanPresent).storage == Logout(storage).storage
  {
    var s := Logout(storage).storage;
    assert s - {SelectedWorkerKey} == s;
  }
}
