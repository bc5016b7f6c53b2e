/** The gatekeeping in front of the routes: the `requires_auth` and
    `requires_perm` decorators and the session handling of `login`. */
module Access {
  import opened Prelude
  import opened Accounts

  /** The two session keys the decorators and `login` use; a missing key is `None`. */
  datatype Session = Session(userid: Option<UserId>, requestpath: Option<string>)

  /** The submitted, validated login form. */
  datatype LoginForm = LoginForm(username: string, password: string)

  /** `check_password_hash(stored, candidate)`, a foreign call. */
  type PasswordCheck = (string, string) -> bool

  /** What a decorator or route returns, together with the session it leaves. */
  datatype Outcome = Outcome(response: Response, session: Session)

  /** The request path is recorded for the callback after logging in. */
  function Remember(s: Session, path: string): Session {
    s.(requestpath := Some(path))
  }

  /** `requires_auth`: without a user id in the session the handler is not
      called; the request path is recorded and the browser sent to `/login`. */
  function RequireAuth(s: Session, path: string): (o: Outcome)
    ensures o.response == CallHandler <==> s.userid.Some?
    ensures s.userid.None? ==> o == Outcome(Redirect("/login"), Session(None, Some(path)))
    ensures s.userid.Some? ==> o.session == s
  {
    if s.userid.None? then Outcome(Redirect("/login"), Remember(s, path))
    else Outcome(CallHandler, s)
  }

  /** Whether the current roles admit `required`; `admin` admits everything. */
  predicate Admits(roles: seq<string>, required: string) {
    required in roles || "admin" in roles
  }

  /** The roles that count for user `u`: those of its current assignments. */
  function RolesOf(c: Collections, u: UserId): seq<string>
    requires u < |c.users| && RefsResolve(c.assignments, c.users[u].roleassignments)
  {
    CurrentRoles(c.assignments, c.users[u].roleassignments)
  }

  /** `requires_perm(required)`: the handler runs only for a logged-in user
      one of whose current assignments has the required role or `admin`.
      Otherwise the request path is recorded and the browser sent to
      `/login` (no user id) or `/nopermission` (no such role). A user id with
      no user document behind it makes the lookup fail. */
  function RequirePerm(c: Collections, required: string, s: Session, path: string): (o: Outcome)
    requires AllRefsResolve(c)
    ensures s.userid.None? ==> o == Outcome(Redirect("/login"), Session(None, Some(path)))
    ensures s.userid.Some? && s.userid.value >= |c.users| ==> o.response == ServerError
    ensures o.response == CallHandler <==>
      s.userid.Some? && s.userid.value < |c.users| &&
      RefsResolve(c.assignments, c.users[s.userid.value].roleassignments) &&
      exists k :: 0 <= k < |c.users[s.userid.value].roleassignments| &&
        var a := c.assignments[c.users[s.userid.value].roleassignments[k]];
        a.meta.iscurrent && (a.role == required || a.role == "admin")
    ensures s.userid.Some? && s.userid.value < |c.users| && o.response != CallHandler ==>
      o == Outcome(Redirect("/nopermission"), Remember(s, path))
    ensures o.response in {CallHandler, ServerError} ==> o.session == s
  {
    if s.userid.None? then Outcome(Redirect("/login"), Remember(s, path))
    else if s.userid.value >= |c.users| then Outcome(ServerError, s)
    else if !Admits(RolesOf(c, s.userid.value), required) then Outcome(Redirect("/nopermission"), Remember(s, path))
    else Outcome(CallHandler, s)
  }

  /** `login`: `requestpath` defaults to `/` only when absent. A current user
      with the submitted name and a matching password is logged in and sent
      to the recorded path; otherwise the form comes back with an error.
      `form` is `None` for a GET or a form that did not validate. */
  function Login(c: Collections, s: Session, form: Option<LoginForm>, check: PasswordCheck): (o: Outcome)
    ensures o.session.requestpath == Some(s.requestpath.GetOr("/"))
    ensures form.None? ==> o == Outcome(Page([]), o.session) && o.session.userid == s.userid
    ensures o.response.Redirect? <==>
      form.Some? && var u := FindCurrentUser(c.users, form.value.username);
      u.Some? && check(c.users[u.value].passwordhash, form.value.password)
    ensures o.response.Redirect? ==>
      o.response.location == s.requestpath.GetOr("/") &&
      o.session.userid == FindCurrentUser(c.users, form.value.username)
    ensures !o.response.Redirect? ==> o.response.Page? && o.session.userid == s.userid
    ensures form.Some? && FindCurrentUser(c.users, form.value.username).None? ==> o.response == Page(["User not found."])
    ensures form.Some? && FindCurrentUser(c.users, form.value.username).Some? ==>
      var u := FindCurrentUser(c.users, form.value.username).value;
      !check(c.users[u].passwordhash, form.value.password) ==> o.response == Page(["Incorrect password."])
  {
    var s1 := if s.requestpath.None? then s.(requestpath := Some("/")) else s;
    if form.None? then Outcome(Page([]), s1)
    else
      match FindCurrentUser(c.users, form.value.username)
      case None => Outcome(Page(["User not found."]), s1)
      case Some(u) =>
        if check(c.users[u].passwordhash, form.value.password) then
          Outcome(Redirect(s1.requestpath.value), s1.(userid := Some(u)))
        else Outcome(Page(["Incorrect password."]), s1)
  }

  /** Whatever the required role, `requires_perm` lets through only what
      `requires_auth` would: no handler runs without a user id. */
  lemma PermNeedsAuth(c: Collections, required: string, s: Session, path: string)
    requires AllRefsResolve(c)
    ensures RequirePerm(c, required, s, path).response == CallHandler ==>
      RequireAuth(s, path).response == CallHandler
    ensures s.userid.None? ==> RequirePerm(c, required, s, path) == RequireAuth(s, path)
  {
  }

  /** Access depends only on the current roles: a logged-in user passes
      `requires_perm(required)` exactly when `required` or `admin` is among
      them, so a current `admin` assignment opens every route. */
  lemma PermByRoles(c: Collections, required: string, s: Session, path: string)
    requires AllRefsResolve(c)
    requires s.userid.Some? && s.userid.value < |c.users|
    ensures RequirePerm(c, required, s, path).response == CallHandler <==> Admits(RolesOf(c, s.userid.value), required)
    ensures "admin" in RolesOf(c, s.userid.value) ==> RequirePerm(c, required, s, path).response == CallHandler
  {
  }

  /** Only current assignments count: replacing an assignment that is not
      current by another that is not current changes no decision. */
  lemma NotCurrentIgnored(c: Collections, i: nat, a: RoleAssignment, required: string, s: Session, path: string)
    requires AllRefsResolve(c)
    requires i < |c.assignments| && !c.assignments[i].meta.iscurrent && !a.meta.iscurrent
    ensures var c2 := c.(assignments := c.assignments[i := a]);
      AllRefsResolve(c2) &&
      RequirePerm(c2, required, s, path) == RequirePerm(c, required, s, path)
  {
    var c2 := c.(assignments := c.assignments[i := a]);
    forall u | 0 <= u < |c2.users| ensures RefsResolve(c2.assignments, c2.users[u].roleassignments) {
      assert RefsResolve(c.assignments, c.users[u].roleassignments);
    }
    if s.userid.Some? && s.userid.value < |c.users| {
      var refs := c.users[s.userid.value].roleassignments;
      assert RefsResolve(c.assignments, refs);
      CurrentRolesFrame(c.assignments, c2.assignments, refs);
    }
  }

  /** A visitor turned away by `requires_auth` who then logs in successfully
      is sent back to the page first asked for. */
  lemma LoginReturnsToRequest(c: Collections, s: Session, path: string, form: LoginForm, check: PasswordCheck)
    requires s.userid.None?
    requires var u := FindCurrentUser(c.users, form.username);
      u.Some? && check(c.users[u.value].passwordhash, form.password)
    ensures var o := Login(c, RequireAuth(s, path).session, Some(form), check);
      o.response == Redirect(path) && RequireAuth(o.session, path).response == CallHandler
  {
    var bounced := RequireAuth(s, path).session;
    assert bounced.requestpath == Some(path);
  }
}
