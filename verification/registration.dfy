/** What a successful registration does to the collections: the new user is
    saved, marked as added by itself, and made an administrator when it is
    the only user. */
module Registration {
  import opened Prelude
  import Tracked
  import opened Accounts
  import Access

  /** The submitted, validated registration form; the password itself only
      reaches the model as its hash. */
  datatype RegistrationForm = RegistrationForm(username: string, firstname: string, lastname: string, email: string)

  /** The user document as first saved, at position `id`, with no roles. */
  function NewUser(form: RegistrationForm, passwordhash: string, id: UserId, now: Time): User {
    User(form.username, form.firstname, form.lastname, form.email, passwordhash, [],
      Tracked.Created(id, now, now))
  }

  /** The keyword arguments of `newUser.update(addedby=newUser)`. */
  function AddedBySelf(id: UserId): Tracked.Changes {
    Tracked.Changes(Some(id), None, None, None, None)
  }

  /** The administrator assignment the first user receives. */
  function AdminRole(id: UserId, utcNow: Time, now: Time): RoleAssignment {
    RoleAssignment("admin", id, Tracked.Created(id, utcNow, now))
  }

  /** The collections after registering `form` when no user has its name:
      the saved user is updated to be added by itself; when it is then the
      only user, an `admin` assignment is saved and pushed onto its list. */
  function Registered(c: Collections, form: RegistrationForm, passwordhash: string, now: Time, utcNow: Time): Collections {
    var id := |c.users|;
    var saved := NewUser(form, passwordhash, id, now);
    var user := saved.(meta := Tracked.Update(saved.meta, AddedBySelf(id), now));
    if |c.users + [user]| == 1 then
      var admin := user.(roleassignments := user.roleassignments + [|c.assignments|],
                         meta := Tracked.Update(user.meta, Tracked.NoChanges, now));
      Collections(c.users + [admin], c.assignments + [AdminRole(id, utcNow, now)])
    else
      Collections(c.users + [user], c.assignments)
  }

  /** Registration appends one user and changes no existing document. The new
      user is current, added by itself, stamped at `now`, and findable by
      its name. */
  lemma RegisteredUser(c: Collections, form: RegistrationForm, passwordhash: string, now: Time, utcNow: Time)
    requires FindUser(c.users, form.username).None?
    ensures var r := Registered(c, form, passwordhash, now, utcNow);
      var id := |c.users|;
      && |r.users| == id + 1 && r.users[..id] == c.users
      && r.assignments[..|c.assignments|] == c.assignments
      && r.users[id].username == form.username && r.users[id].passwordhash == passwordhash
      && r.users[id].meta.iscurrent && r.users[id].meta.addedby == id
      && r.users[id].meta.addeddate == now && r.users[id].meta.modifieddate == now
      && FindUser(r.users, form.username) == Some(id)
      && FindCurrentUser(r.users, form.username) == Some(id)
  {
    var r := Registered(c, form, passwordhash, now, utcNow);
    var id := |c.users|;
    assert r.users[..id] == c.users;
    assert forall j :: 0 <= j < id ==> r.users[j] == c.users[j];
    assert FindUserFrom(r.users, form.username, id) == Some(id);
    assert FindCurrentUserFrom(r.users, form.username, id) == Some(id);
  }

  /** Registration keeps the collections consistent. */
  lemma RegisterKeepsValid(c: Collections, form: RegistrationForm, passwordhash: string, now: Time, utcNow: Time)
    requires Valid(c) && FindUser(c.users, form.username).None?
    ensures Valid(Registered(c, form, passwordhash, now, utcNow))
  {
    var r := Registered(c, form, passwordhash, now, utcNow);
    var id := |c.users|;
    RegisteredUser(c, form, passwordhash, now, utcNow);
    forall u | 0 <= u < |r.users| ensures RefsResolve(r.assignments, r.users[u].roleassignments) {
      if u < id {
        assert r.users[u] == c.users[u];
        assert RefsResolve(c.assignments, c.users[u].roleassignments);
      }
    }
    forall u, k | 0 <= u < |r.users| && 0 <= k < |r.users[u].roleassignments|
      ensures r.users[u].roleassignments[k] < |r.assignments|
      ensures r.assignments[r.users[u].roleassignments[k]].user == u
    {
      if u < id {
        assert r.users[u] == c.users[u];
        assert c.users[u].roleassignments[k] < |c.assignments|;
        assert r.assignments[c.users[u].roleassignments[k]] == c.assignments[c.users[u].roleassignments[k]];
      }
    }
    forall i, j | 0 <= i < j < |r.users| ensures r.users[i].username != r.users[j].username {
      if j < id {
        assert r.users[i] == c.users[i] && r.users[j] == c.users[j];
      } else {
        assert r.users[i] == c.users[i];
      }
    }
  }

  /** When registration leaves exactly one user, that user holds a current
      `admin` assignment and so passes every permission check. */
  lemma FirstUserIsAdmin(c: Collections, form: RegistrationForm, passwordhash: string, now: Time, utcNow: Time,
                                            required: string, path: string)
    requires Valid(c) && FindUser(c.users, form.username).None?
    requires |Registered(c, form, passwordhash, now, utcNow).users| == 1
    ensures var r := Registered(c, form, passwordhash, now, utcNow);
      RefsResolve(r.assignments, r.users[0].roleassignments) &&
      "admin" in CurrentRoles(r.assignments, r.users[0].roleassignments) &&
      Access.RequirePerm(r, required, Access.Session(Some(0), Some(path)), path).response == CallHandler
  {
    var r := Registered(c, form, passwordhash, now, utcNow);
    RegisterKeepsValid(c, form, passwordhash, now, utcNow);
    var refs := r.users[0].roleassignments;
    assert refs == [|c.assignments|];
    assert r.assignments[refs[0]] == AdminRole(0, utcNow, now);
    Access.PermByRoles(r, required, Access.Session(Some(0), Some(path)), path);
  }

  /** A user registered after the first starts without any role and adds
      no assignment. */
  lemma LaterUserHasNoRoles(c: Collections, form: RegistrationForm, passwordhash: string, now: Time, utcNow: Time)
    requires |c.users| > 0
    ensures var r := Registered(c, form, passwordhash, now, utcNow);
      r.assignments == c.assignments && r.users[|c.users|].roleassignments == []
  {
  }

  /** A freshly registered user can log in with the password it registered:
      `login` finds it and redirects. */
  lemma RegisteredCanLogIn(c: Collections, form: RegistrationForm, passwordhash: string, now: Time, utcNow: Time,
                                              s: Access.Session, password: string, check: Access.PasswordCheck)
    requires FindUser(c.users, form.username).None?
    requires check(passwordhash, password)
    ensures var r := Registered(c, form, passwordhash, now, utcNow);
      var o := Access.Login(r, s, Some(Access.LoginForm(form.username, password)), check);
      o.response == Redirect(s.requestpath.GetOr("/")) && o.session.userid == Some(|c.users|)
  {
    RegisteredUser(c, form, passwordhash, now, utcNow);
  }
}
