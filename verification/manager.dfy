/** The routes that change the collections, step by step: `register` and the
    role removal of `roles`, over a database holding both collections. */
module Manager {
  import opened Prelude
  import Tracked
  import opened Accounts
  import opened Registration
  import opened Roles

  /** The submitted, validated `/roles` form, without its add-role field. */
  datatype RoleForm = RoleForm(username: string, remrole: string)

  const UserExists := "User already exists"
  const NoSuchUser := "User does not exist."
  const NoSuchRole := "Role does not exist for this user."

  /** The flash message for one retired assignment. */
  function RemovedMessage(role: string, username: string): string {
    "Removed: " + role + " for: " + username
  }

  /** `n` copies of `message`. */
  function Repeat(message: string, n: nat): (r: seq<string>)
    ensures |r| == n && forall m :: 0 <= m < n ==> r[m] == message
  {
    if n == 0 then [] else Repeat(message, n - 1) + [message]
  }

  /** The user and role-assignment collections. */
  class Database {
    var users: seq<User>
    var assignments: seq<RoleAssignment>

    function State(): Collections
      reads this
    {
      Collections(users, assignments)
    }

    constructor (c: Collections)
      ensures State() == c
    {
      users, assignments := c.users, c.assignments;
    }

    /** `register`: refuses a taken username; otherwise saves the user,
        marks it as added by itself, makes it an administrator when it is
        the only user, and sends the browser to `/login`. `form` is `None`
        for a GET or a form that did not validate. */
    method Register(form: Option<RegistrationForm>, passwordhash: string, now: Time, utcNow: Time)
        returns (r: Response)
      modifies this
      ensures form.None? ==> r == Page([]) && State() == old(State())
      ensures form.Some? && FindUser(old(users), form.value.username).Some? ==>
        r == Page([UserExists]) && State() == old(State())
      ensures form.Some? && FindUser(old(users), form.value.username).None? ==>
        r == Redirect("/login") && State() == Registered(old(State()), form.value, passwordhash, now, utcNow)
      ensures old(Valid(State())) ==> Valid(State())
    {
      if form.None? {
        return Page([]);
      }
      var f := form.value;
      if FindUser(users, f.username).Some? {
        return Page([UserExists]);
      }
      if Valid(State()) {
        RegisterKeepsValid(State(), f, passwordhash, now, utcNow);
      }
      var id := |users|;
      users := users + [NewUser(f, passwordhash, id, now)];
      users := users[id := users[id].(meta := Tracked.Update(users[id].meta, AddedBySelf(id), now))];
      if |users| == 1 {
        var ref := |assignments|;
        assignments := assignments + [AdminRole(id, utcNow, now)];
        users := users[id := users[id].(roleassignments := users[id].roleassignments + [ref],
                                        meta := Tracked.Update(users[id].meta, Tracked.NoChanges, now))];
      }
      r := Redirect("/login");
    }

    /** The removal half of `roles`: every current assignment of `role` for
        `user` is updated to not current, removed by `actor`; one flash per
        retired assignment, an error when there is none. */
    method RemoveRole(user: UserId, username: string, role: string, actor: UserId, utcNow: Time, now: Time)
        returns (errors: seq<string>, flashes: seq<string>)
      modifies this`assignments
      ensures assignments == Retired(old(assignments), user, role, actor, utcNow, now)
      ensures errors == if Query(old(assignments), user, role) == [] then [NoSuchRole] else []
      ensures flashes == Repeat(RemovedMessage(role, username), |Query(old(assignments), user, role)|)
    {
      var found := Query(assignments, user, role);
      RetireAtQuery(assignments, user, role, actor, utcNow, now);
      errors := if |found| == 0 then [NoSuchRole] else [];
      flashes := [];
      for n := 0 to |found|
        invariant assignments == RetireAt(old(assignments), found[..n], actor, utcNow, now)
        invariant flashes == Repeat(RemovedMessage(role, username), n)
      {
        var i := found[n];
        RetireAtStep(old(assignments), found, n, actor, utcNow, now);
        assignments := assignments[i := Retire(assignments[i], actor, utcNow, now)];
        flashes := flashes + [RemovedMessage(role, username)];
      }
      assert found[..|found|] == found;
    }

    /** `roles` after `requires_perm('admin')` let `actor` through: a POST
        names a user and a role to remove; the page then shows `roledata`
        for the resulting collections. */
    method Roles(form: Option<RoleForm>, actor: UserId, utcNow: Time, now: Time)
        returns (errors: seq<string>, flashes: seq<string>, roledata: seq<RoleRow>)
      requires Valid(State())
      modifies this`assignments
      ensures Valid(State())
      ensures roledata == RoleData(State())
      ensures form.None? || FindUser(users, form.value.username).None? || form.value.remrole == "" ==>
        assignments == old(assignments) && flashes == []
      ensures form.None? ==> errors == []
      ensures form.Some? && FindUser(users, form.value.username).None? ==> errors == [NoSuchUser]
      ensures form.Some? && FindUser(users, form.value.username).Some? && form.value.remrole == "" ==> errors == []
      ensures form.Some? && FindUser(users, form.value.username).Some? && form.value.remrole != "" ==>
        var u := FindUser(users, form.value.username).value;
        assignments == Retired(old(assignments), u, form.value.remrole, actor, utcNow, now) &&
        errors == (if Query(old(assignments), u, form.value.remrole) == [] then [NoSuchRole] else []) &&
        flashes == Repeat(RemovedMessage(form.value.remrole, form.value.username), |Query(old(assignments), u, form.value.remrole)|)
    {
      errors, flashes := [], [];
      if form.Some? {
        var f := form.value;
        var existing := FindUser(users, f.username);
        if existing.None? {
          errors := [NoSuchUser];
        } else if |f.remrole| > 0 {
          RemovalKeepsValid(State(), existing.value, f.remrole, actor, utcNow, now);
          errors, flashes := RemoveRole(existing.value, f.username, f.remrole, actor, utcNow, now);
        }
      }
      roledata := RoleData(State());
    }
  }
}
