/** The user and role-assignment collections and the queries the routes run
    on them. A reference between documents is a position in its collection:
    documents are never deleted, only marked not current. */
module Accounts {
  import opened Prelude
  import Tracked

  /** A role held by a user, with its own lifecycle fields. */
  datatype RoleAssignment = RoleAssignment(role: string, user: UserId, meta: Tracked.Tracking)

  /** A user document; `roleassignments` lists references into the
      role-assignment collection. */
  datatype User = User(
    username: string,
    firstname: string,
    lastname: string,
    email: string,
    passwordhash: string,
    roleassignments: seq<nat>,
    meta: Tracked.Tracking)

  /** The two collections the routes read and write. */
  datatype Collections = Collections(users: seq<User>, assignments: seq<RoleAssignment>)

  /** Every reference in `refs` names an existing assignment. */
  predicate RefsResolve(assignments: seq<RoleAssignment>, refs: seq<nat>) {
    forall k :: 0 <= k < |refs| ==> refs[k] < |assignments|
  }

  /** No two users share a username (the field is declared unique). */
  predicate UniqueUsernames(users: seq<User>) {
    forall i, j :: 0 <= i < j < |users| ==> users[i].username != users[j].username
  }

  /** Every user's references name existing assignments. */
  predicate AllRefsResolve(c: Collections) {
    forall u :: 0 <= u < |c.users| ==> RefsResolve(c.assignments, c.users[u].roleassignments)
  }

  /** The collections are consistent: each user's references resolve, to
      assignments made out to that same user, and usernames are unique. */
  predicate Valid(c: Collections) {
    && AllRefsResolve(c)
    && (forall u, k :: 0 <= u < |c.users| && 0 <= k < |c.users[u].roleassignments| ==>
          c.assignments[c.users[u].roleassignments[k]].user == u)
    && UniqueUsernames(c.users)
  }

  /** The roles of the current assignments among `refs`, in order: the list
      comprehension that collects a user's valid roles. */
  function CurrentRoles(assignments: seq<RoleAssignment>, refs: seq<nat>): (roles: seq<string>)
    requires RefsResolve(assignments, refs)
    ensures |roles| <= |refs|
    ensures forall role :: role in roles <==>
      exists k :: 0 <= k < |refs| && assignments[refs[k]].meta.iscurrent && assignments[refs[k]].role == role
    decreases |refs|
  {
    if refs == [] then []
    else
      var rest := CurrentRoles(assignments, refs[1..]);
      var a := assignments[refs[0]];
      assert forall role :: role in rest <==>
        exists k :: 1 <= k < |refs| && assignments[refs[k]].meta.iscurrent && assignments[refs[k]].role == role by {
        forall role | role in rest
          ensures exists k :: 1 <= k < |refs| && assignments[refs[k]].meta.iscurrent && assignments[refs[k]].role == role
        {
          var k :| 0 <= k < |refs[1..]| && assignments[refs[1..][k]].meta.iscurrent && assignments[refs[1..][k]].role == role;
          assert refs[1..][k] == refs[k + 1];
        }
        forall role, k | 1 <= k < |refs| && assignments[refs[k]].meta.iscurrent && assignments[refs[k]].role == role
          ensures role in rest
        {
          assert refs[1..][k - 1] == refs[k];
        }
      }
      if a.meta.iscurrent then [a.role] + rest else rest
  }

  /** Two reference lists that agree on which roles are current give the same
      current roles. */
  lemma {:induction false} CurrentRolesFrame(as1: seq<RoleAssignment>, as2: seq<RoleAssignment>, refs: seq<nat>)
    requires RefsResolve(as1, refs) && RefsResolve(as2, refs)
    requires forall k :: 0 <= k < |refs| ==>
      as1[refs[k]].meta.iscurrent == as2[refs[k]].meta.iscurrent &&
      (as1[refs[k]].meta.iscurrent ==> as1[refs[k]].role == as2[refs[k]].role)
    ensures CurrentRoles(as1, refs) == CurrentRoles(as2, refs)
    decreases |refs|
  {
    if refs != [] {
      CurrentRolesFrame(as1, as2, refs[1..]);
    }
  }

  /** The first user with `username`, current or not, searching from `from`:
      `User.objects(username=...).first()`. */
  function FindUserFrom(users: seq<User>, username: string, from: nat): (r: Option<UserId>)
    ensures r.Some? ==> from <= r.value < |users| && users[r.value].username == username
    ensures r.Some? ==> forall j :: from <= j < r.value ==> users[j].username != username
    ensures r.None? ==> forall j :: from <= j < |users| ==> users[j].username != username
    decreases |users| - from
  {
    if from >= |users| then None
    else if users[from].username == username then Some(from)
    else FindUserFrom(users, username, from + 1)
  }

  function FindUser(users: seq<User>, username: string): Option<UserId> {
    FindUserFrom(users, username, 0)
  }

  /** The first current user with `username`, searching from `from`:
      `User.objects(username=..., iscurrent=True).first()`. */
  function FindCurrentUserFrom(users: seq<User>, username: string, from: nat): (r: Option<UserId>)
    ensures r.Some? ==> from <= r.value < |users| && users[r.value].username == username && users[r.value].meta.iscurrent
    ensures r.Some? ==> forall j :: from <= j < r.value ==> !(users[j].username == username && users[j].meta.iscurrent)
    ensures r.None? ==> forall j :: from <= j < |users| ==> !(users[j].username == username && users[j].meta.iscurrent)
    decreases |users| - from
  {
    if from >= |users| then None
    else if users[from].username == username && users[from].meta.iscurrent then Some(from)
    else FindCurrentUserFrom(users, username, from + 1)
  }

  function FindCurrentUser(users: seq<User>, username: string): Option<UserId> {
    FindCurrentUserFrom(users, username, 0)
  }

  /** With unique usernames, the user a name finds is the one that has it. */
  lemma FindUserUnique(users: seq<User>, username: string, u: UserId)
    requires UniqueUsernames(users)
    requires u < |users| && users[u].username == username
    ensures FindUser(users, username) == Some(u)
  {
  }
}
