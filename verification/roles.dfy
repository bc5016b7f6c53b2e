/** Role bookkeeping on the `/roles` page: retiring every current assignment
    of a role for one user, and the per-user summary of current roles. */
module Roles {
  import opened Prelude
  import Tracked
  import opened Accounts
  import Access

  /** An assignment the removal query selects: made out to `user`, for
      `role`, and still current. */
  predicate Selected(a: RoleAssignment, user: UserId, role: string) {
    a.user == user && a.role == role && a.meta.iscurrent
  }

  /** The keyword arguments `roles` passes to `update` for each selected
      assignment: not current, removed by `actor` at `utcNow`. */
  function Retirement(actor: UserId, utcNow: Time): Tracked.Changes {
    Tracked.Changes(None, None, Some(false), Some(actor), Some(utcNow))
  }

  /** One selected assignment after its `update` at clock reading `now`. */
  function Retire(a: RoleAssignment, actor: UserId, utcNow: Time, now: Time): (r: RoleAssignment)
    ensures r.role == a.role && r.user == a.user
    ensures !r.meta.iscurrent && r.meta.removedby == Some(actor) && r.meta.removeddate == Some(utcNow)
    ensures r.meta.modifieddate == now
    ensures r.meta.addedby == a.meta.addedby && r.meta.addeddate == a.meta.addeddate
  {
    a.(meta := Tracked.Update(a.meta, Retirement(actor, utcNow), now))
  }

  /** The positions below `n` that the removal query selects, in collection order. */
  function QueryUpTo(assignments: seq<RoleAssignment>, user: UserId, role: string, n: nat): (found: seq<nat>)
    requires n <= |assignments|
    ensures forall p :: 0 <= p < |found| ==> found[p] < n && Selected(assignments[found[p]], user, role)
    ensures forall i :: 0 <= i < n && Selected(assignments[i], user, role) ==> i in found
    ensures forall p, q :: 0 <= p < q < |found| ==> found[p] < found[q]
    ensures found == [] <==> forall i :: 0 <= i < n ==> !Selected(assignments[i], user, role)
  {
    if n == 0 then []
    else
      var before := QueryUpTo(assignments, user, role, n - 1);
      if Selected(assignments[n - 1], user, role) then before + [n - 1] else before
  }

  /** `RoleAssignment.objects(user=user, role=role, iscurrent=True)`. */
  function Query(assignments: seq<RoleAssignment>, user: UserId, role: string): seq<nat> {
    QueryUpTo(assignments, user, role, |assignments|)
  }

  /** The collection after every selected assignment has been retired. */
  function Retired(assignments: seq<RoleAssignment>, user: UserId, role: string, actor: UserId, utcNow: Time, now: Time): seq<RoleAssignment> {
    seq(|assignments|, i requires 0 <= i < |assignments| =>
      if Selected(assignments[i], user, role) then Retire(assignments[i], actor, utcNow, now) else assignments[i])
  }

  /** The collection after retiring the assignments at `idx`, one after
      the other, as the removal loop does. */
  function RetireAt(assignments: seq<RoleAssignment>, idx: seq<nat>, actor: UserId, utcNow: Time, now: Time): (r: seq<RoleAssignment>)
    requires forall p :: 0 <= p < |idx| ==> idx[p] < |assignments|
    ensures |r| == |assignments|
    decreases |idx|
  {
    if idx == [] then assignments
    else
      var before := RetireAt(assignments, idx[..|idx| - 1], actor, utcNow, now);
      var i := idx[|idx| - 1];
      before[i := Retire(before[i], actor, utcNow, now)]
  }

  /** One more step of the removal loop. */
  lemma RetireAtStep(assignments: seq<RoleAssignment>, idx: seq<nat>, n: nat, actor: UserId, utcNow: Time, now: Time)
    requires forall p :: 0 <= p < |idx| ==> idx[p] < |assignments|
    requires n < |idx|
    ensures var before := RetireAt(assignments, idx[..n], actor, utcNow, now);
      RetireAt(assignments, idx[..n + 1], actor, utcNow, now) ==
        before[idx[n] := Retire(before[idx[n]], actor, utcNow, now)]
  {
    assert idx[..n + 1][..n] == idx[..n];
  }

  /** Retiring at distinct positions touches exactly those positions, once each. */
  lemma {:induction false} RetireAtPointwise(assignments: seq<RoleAssignment>, idx: seq<nat>, actor: UserId, utcNow: Time, now: Time, j: nat)
    requires forall p :: 0 <= p < |idx| ==> idx[p] < |assignments|
    requires forall p, q :: 0 <= p < q < |idx| ==> idx[p] < idx[q]
    requires j < |assignments|
    ensures RetireAt(assignments, idx, actor, utcNow, now)[j] ==
      if j in idx then Retire(assignments[j], actor, utcNow, now) else assignments[j]
    decreases |idx|
  {
    if idx != [] {
      var init := idx[..|idx| - 1];
      RetireAtPointwise(assignments, init, actor, utcNow, now, j);
      assert idx == init + [idx[|idx| - 1]];
      assert idx[|idx| - 1] !in init;
    }
  }

  /** Retiring at every position the query finds is the removal. */
  lemma RetireAtQuery(assignments: seq<RoleAssignment>, user: UserId, role: string, actor: UserId, utcNow: Time, now: Time)
    ensures forall p :: 0 <= p < |Query(assignments, user, role)| ==> Query(assignments, user, role)[p] < |assignments|
    ensures RetireAt(assignments, Query(assignments, user, role), actor, utcNow, now) ==
      Retired(assignments, user, role, actor, utcNow, now)
  {
    var found := Query(assignments, user, role);
    var r := RetireAt(assignments, found, actor, utcNow, now);
    forall j | 0 <= j < |assignments|
      ensures r[j] == Retired(assignments, user, role, actor, utcNow, now)[j]
    {
      RetireAtPointwise(assignments, found, actor, utcNow, now, j);
    }
  }

  /** When the query finds nothing, the removal changes nothing. */
  lemma NothingSelected(assignments: seq<RoleAssignment>, user: UserId, role: string, actor: UserId, utcNow: Time, now: Time)
    ensures Query(assignments, user, role) == [] <==>
      Retired(assignments, user, role, actor, utcNow, now) == assignments
  {
    var r := Retired(assignments, user, role, actor, utcNow, now);
    if Query(assignments, user, role) == [] {
      assert forall i :: 0 <= i < |assignments| ==> r[i] == assignments[i];
    } else {
      var i := Query(assignments, user, role)[0];
      assert r[i].meta.iscurrent != assignments[i].meta.iscurrent;
    }
  }

  /** After the removal the query selects nothing: removing the same role
      again reports the error and changes nothing. */
  lemma RemovalExhausts(assignments: seq<RoleAssignment>, user: UserId, role: string, actor: UserId, utcNow: Time, now: Time)
    ensures Query(Retired(assignments, user, role, actor, utcNow, now), user, role) == []
  {
    var r := Retired(assignments, user, role, actor, utcNow, now);
    assert forall i :: 0 <= i < |r| ==> !Selected(r[i], user, role);
  }

  /** Retiring assignments changes neither who they belong to nor their role,
      so the collections stay consistent. */
  lemma RemovalKeepsValid(c: Collections, user: UserId, role: string, actor: UserId, utcNow: Time, now: Time)
    requires Valid(c)
    ensures Valid(Collections(c.users, Retired(c.assignments, user, role, actor, utcNow, now)))
  {
    var r := Retired(c.assignments, user, role, actor, utcNow, now);
    forall u | 0 <= u < |c.users| ensures RefsResolve(r, c.users[u].roleassignments) {
      assert RefsResolve(c.assignments, c.users[u].roleassignments);
    }
  }

  /** After removing `role` for `user`, the role is no longer among that
      user's current roles; every other role of theirs, and every role of
      every other user, is as before. */
  lemma RemovalRevokes(c: Collections, user: UserId, role: string, actor: UserId, utcNow: Time, now: Time, v: UserId)
    requires Valid(c) && user < |c.users| && v < |c.users|
    ensures var r := Retired(c.assignments, user, role, actor, utcNow, now);
      RefsResolve(r, c.users[v].roleassignments) &&
      (forall other :: other in CurrentRoles(r, c.users[v].roleassignments) <==>
        other in CurrentRoles(c.assignments, c.users[v].roleassignments) && !(v == user && other == role))
  {
    var r := Retired(c.assignments, user, role, actor, utcNow, now);
    var refs := c.users[v].roleassignments;
    assert RefsResolve(c.assignments, refs);
    RemovalKeepsValid(c, user, role, actor, utcNow, now);
    forall other
      ensures other in CurrentRoles(r, refs) <==>
        other in CurrentRoles(c.assignments, refs) && !(v == user && other == role)
    {
      if other in CurrentRoles(r, refs) {
        var k :| 0 <= k < |refs| && r[refs[k]].meta.iscurrent && r[refs[k]].role == other;
        assert c.assignments[refs[k]].user == v;
      }
      if other in CurrentRoles(c.assignments, refs) && !(v == user && other == role) {
        var k :| 0 <= k < |refs| && c.assignments[refs[k]].meta.iscurrent && c.assignments[refs[k]].role == other;
        assert c.assignments[refs[k]].user == v;
        assert r[refs[k]] == c.assignments[refs[k]];
      }
    }
  }

  /** After removing `role` for `user`, the user passes `requires_perm(role)`
      only through a current `admin` assignment, and never when the removed
      role is `admin` itself. */
  lemma RemovalDeniesAccess(c: Collections, user: UserId, role: string, actor: UserId, utcNow: Time, now: Time, path: string)
    requires Valid(c) && user < |c.users|
    ensures var after := Collections(c.users, Retired(c.assignments, user, role, actor, utcNow, now));
      AllRefsResolve(after) &&
      (Access.RequirePerm(after, role, Access.Session(Some(user), Some(path)), path).response == CallHandler <==>
        role != "admin" && "admin" in CurrentRoles(c.assignments, c.users[user].roleassignments))
  {
    var after := Collections(c.users, Retired(c.assignments, user, role, actor, utcNow, now));
    RemovalKeepsValid(c, user, role, actor, utcNow, now);
    RemovalRevokes(c, user, role, actor, utcNow, now, user);
    Access.PermByRoles(after, role, Access.Session(Some(user), Some(path)), path);
  }

  /** One line of the summary table: a username and its current roles. */
  datatype RoleRow = RoleRow(username: string, roles: seq<string>)

  /** The summary line of user `u`. */
  function RowOf(c: Collections, u: UserId): RoleRow
    requires AllRefsResolve(c) && u < |c.users|
  {
    RoleRow(c.users[u].username, CurrentRoles(c.assignments, c.users[u].roleassignments))
  }

  /** The positions below `n` of the current users, in collection order:
      what `User.objects(iscurrent=True)` iterates over. */
  function CurrentUsersUpTo(users: seq<User>, n: nat): (found: seq<nat>)
    requires n <= |users|
    ensures forall p :: 0 <= p < |found| ==> found[p] < n && users[found[p]].meta.iscurrent
    ensures forall u :: 0 <= u < n && users[u].meta.iscurrent ==> u in found
    ensures forall p, q :: 0 <= p < q < |found| ==> found[p] < found[q]
  {
    if n == 0 then []
    else
      var before := CurrentUsersUpTo(users, n - 1);
      if users[n - 1].meta.iscurrent then before + [n - 1] else before
  }

  /** `roledata` over the first `n` users: one line per current user, in order. */
  function RoleDataUpTo(c: Collections, n: nat): (rows: seq<RoleRow>)
    requires AllRefsResolve(c) && n <= |c.users|
    ensures |rows| == |CurrentUsersUpTo(c.users, n)|
    ensures forall p :: 0 <= p < |rows| ==> rows[p] == RowOf(c, CurrentUsersUpTo(c.users, n)[p])
    ensures forall row :: row in rows <==> exists u :: 0 <= u < n && c.users[u].meta.iscurrent && row == RowOf(c, u)
  {
    if n == 0 then []
    else
      var before := RoleDataUpTo(c, n - 1);
      if c.users[n - 1].meta.iscurrent then before + [RowOf(c, n - 1)] else before
  }

  /** `roledata`: `[[user.username, <current roles>] for user in User.objects(iscurrent=True)]`. */
  function RoleData(c: Collections): seq<RoleRow>
    requires AllRefsResolve(c)
  {
    RoleDataUpTo(c, |c.users|)
  }

  /** The summary lists each current user with exactly its current roles, and
      a user who is not current does not appear at all. */
  lemma RoleDataRows(c: Collections, u: UserId)
    requires Valid(c) && u < |c.users|
    ensures AllRefsResolve(c)
    ensures c.users[u].meta.iscurrent ==> RowOf(c, u) in RoleData(c)
    ensures !c.users[u].meta.iscurrent ==> forall row :: row in RoleData(c) ==> row.username != c.users[u].username
  {
    if !c.users[u].meta.iscurrent {
      forall row | row in RoleData(c) ensures row.username != c.users[u].username {
        var v :| 0 <= v < |c.users| && c.users[v].meta.iscurrent && row == RowOf(c, v);
        assert v != u;
      }
    }
  }
}
