# Mongo manager: content-addressed file store and role-based access

This project models two parts of a Flask/MongoDB administration panel:

- **The content-addressed file store** behind the `File` document. `write`
  works like this:
  - It hashes a payload with SHA-256 and stores it under
    `basepath/d[0:2]/d[2:4]/d[4:6]/d[6:]`, where `d` is the hex digest.
  - When the same bytes are already stored there, it reuses that copy.
  - When other bytes occupy the slot, it appends `'1'` to the hash input and
    tries again.
  - `read` recomputes the path from `basepath` and `hashstring`.
  - Every tracked document (user, role assignment, file) carries lifecycle
    fields. Its `update` always stamps `modifieddate`.
- **Role-based access and role bookkeeping**:
  - The `requires_auth` and `requires_perm` decorators. Only current role
    assignments count, and `admin` admits everything.
  - `login`, including its `requestpath` default and its redirect.
  - `register`, which makes the first user an administrator.
  - Role removal and the `roledata` summary on the `/roles` page.
  - The list rendering of `render_item`.

## Modules

- **Prelude**: `Option`, bytes, clock readings, user references and route responses.
- **Tracked**: the `TrackedAssignment` lifecycle fields and `update`.
- **Sharding**: the shard layout. `getpath` is `os.path.join` (POSIX rules)
  of `basepath` and three two-character slices. `getfilename` is the rest of
  the digest.
- **BlobStore**:
  - The filesystem is a map from full file names to bytes, held by a `Disk`
    object.
  - `File` is a class whose fields `write` updates in place.
  - Its retry loop is proved against a specification over the sequence of
    files it probes.
- **Accounts**: the user and role-assignment collections and their queries.
  A reference is a position in a collection.
- **Access**: the two decorators and `login`, as functions from the
  collections and the session to a response and a new session.
- **Roles**: the removal query, the retirement of assignments and `roledata`.
- **Registration**: what a successful `register` does to the collections.
- **Manager**: a `Database` class whose `Register`, `RemoveRole` and `Roles`
  methods change the collections step by step. Each method is proved against
  the functions above.
- **Render**: the bracketed, comma-separated rendering of list fields.

Two facts about the shard layout follow from the code:

- `getpath()` depends only on the first six digest characters.
- It depends on the base path only up to a trailing `/`: `a` and `a/` give
  the same directory, because `os.path.join` inserts a separator only when
  one is missing.
- `Sharding.ShardDirEq` states the exact condition, and
  `Sharding.FullNameEq` proves that different digests never share a file
  under one base path.

## Model

| member | source | states |
|---|---|---|
| Tracked.Created | database.py:13-19 | A new tracked document is current, not removed, and has `addedby`, `addeddate` and `modifieddate` from the caller and the clock. |
| Tracked.Update | database.py:22-25 | `update` sets `modifieddate` to the clock reading. Each passed lifecycle field (`addedby`, `addeddate`, `iscurrent`, `removedby`, `removeddate`) takes the passed value, and every other field keeps its value. |
| Tracked.UpdateTwice | database.py:22-25 | Two updates in a row equal one update with the merged fields at the later clock reading. The earlier stamp never survives. |
| Sharding.Slice | database.py:51-53 | Definition of Python's clipped slice `s[lo:hi]`. Its properties are stated by `Sharding.SegmentsReconstruct`. |
| Sharding.Join | database.py:50-53 | Definition of `posixpath.join` of two components. Its properties are stated by `Sharding.JoinRelative`. |
| Sharding.JoinPath | database.py:50-53 | Definition of `os.path.join` of a path and several components. Its properties are stated by `Sharding.ShardLayout`. |
| Sharding.ShardDir | database.py:49-54 | Definition of `getpath()` from a base path and a digest. Its properties are stated by `Sharding.ShardLayout` and `Sharding.ShardDirEq`. |
| Sharding.LeafName | database.py:56-57 | Definition of `getfilename()`. Its properties are stated by `Sharding.SegmentsReconstruct` and `Sharding.DigestLayout`. |
| Sharding.FullName | database.py:68-69 | Definition of the stored file's name. Its properties are stated by `Sharding.DigestLayout`, `Sharding.FullNameEq` and `Sharding.SlotInjective`. |
| Sharding.SegmentsReconstruct | database.py:49-57 | The three shard slices followed by `getfilename()` give back `hashstring` exactly, for every string (Python slice clipping included). |
| Sharding.ShardLayout | database.py:49-54 | For a hex digest, `getpath()` is the base path's root (the base path plus `/` unless it is empty or already ends in `/`), then `d[0:2]/d[2:4]/d[4:6]`. |
| Sharding.DigestLayout | database.py:49-57 | For a hex digest, `getfilename()` is `d[6:]`. The stored file is `<root>d[0:2]/d[2:4]/d[4:6]/d[6:]`. |
| Sharding.JoinRelative | database.py:50-53 | `os.path.join` with a relative, non-empty component appends it to the root of the first path. |
| Sharding.FullNameEq | database.py:68-69 | Two (base path, digest) pairs name the same file if and only if the digests are equal and the base paths have the same root. |
| Sharding.SlotInjective | database.py:68-69 | Under one base path, different digests are stored in different files. |
| Sharding.ShardDirEq | database.py:49-54 | Two `getpath()` results are equal if and only if the digests agree on six characters and the base paths have the same root. |
| BlobStore.MarkersSucc | database.py:85 | A collision extends the hash input by one more `'1'` byte: after `k + 1` collisions the input is the payload followed by `k + 1` markers. |
| BlobStore.ProbeAt | database.py:63-69 | Attempt `k` looks at the file named by the digest of the payload plus `k` markers. |
| BlobStore.ProbesDistinct | database.py:60-69 | If the attempt digests are pairwise distinct, the attempts look at pairwise distinct files. |
| BlobStore.CollidedBeforeAll | database.py:62-85 | "Every earlier attempt collided" (the loop's step-by-step history) holds if and only if each earlier attempt found other bytes in its file. |
| BlobStore.ProbedBeforeSize | database.py:62-85 | `k` attempts with distinct digests look at `k` different files. |
| BlobStore.CollisionsBounded | database.py:62-85 | Each collision needs a distinct existing file, so at most as many attempts collide as there are files. This bounds the `while True` loop. |
| BlobStore.FinalAttemptUnique | database.py:62-94 | The loop stops at exactly one attempt: the first whose file is missing or already holds the payload. |
| BlobStore.StoreKeepsFinal | database.py:72-81 | After the payload is stored, the same attempt is still the stopping one, so a second write of the same bytes ends at the same digest. |
| BlobStore.StoreOutcome | database.py:72-94 | At the stopping attempt: a duplicate leaves the filesystem unchanged, no existing file is overwritten, and afterwards the file set is the old one plus the stopping file, which holds the payload. |
| BlobStore.File.constructor | database.py:41-46 | A new record has empty digest, path and name, and fresh lifecycle fields. |
| BlobStore.File.GetPath | database.py:49-54 | Definition: `getpath()` of the record's base path and digest. Its properties are stated by `Sharding.ShardDirEq` and `BlobStore.File.Write`. |
| BlobStore.File.GetFileName | database.py:56-57 | Definition: `getfilename()` of the record's digest. Its properties are stated by `Sharding.DigestLayout` and `BlobStore.File.Write`. |
| BlobStore.File.Read | database.py:98-104 | `read` returns the bytes stored at the path recomputed from `basepath` and `hashstring`, or nothing when no file is there. It changes neither the record nor the filesystem. |
| BlobStore.File.Update | database.py:22-25 | A record's `update` with lifecycle keyword arguments applies `Tracked.Update` to its lifecycle fields. Its file fields keep their values, since none is passed. |
| BlobStore.File.Locate | database.py:63-69 | One pass of the loop body sets `hashstring` to the digest and derives `filepath = getpath()` and `filename = getfilename()`. The name it looks at is the digest's storage file. |
| BlobStore.File.Write | database.py:59-94 | `write` returns True within `\|files\|` retries. It stops at the unique attempt where every earlier attempt collided. `hashstring` is that attempt's digest, and `filepath`/`filename` are derived from it. The filesystem gains the payload at that file and nothing else; on a duplicate it is unchanged. `iscurrent` is set, and `read()` then returns the payload. |
| BlobStore.WriteTwice | database.py:59-94 | Writing the same payload through two records gives both the same digest, path and name. The second write changes nothing, and both read back the payload. |
| BlobStore.WriteBoth | database.py:59-104 | After writing two payloads, each record reads back its own bytes. Different payloads get different digests. |
| Accounts.CurrentRoles | mongomanager.py:61-63 | The valid roles are exactly the roles of the referenced assignments that are current. |
| Accounts.CurrentRolesFrame | mongomanager.py:61-63 | Valid roles depend only on which referenced assignments are current and on their roles. |
| Accounts.FindUserFrom | mongomanager.py:116 | The username query finds the first user with that name, or reports that none has it. |
| Accounts.FindCurrentUserFrom | mongomanager.py:89-90 | The login query finds the first current user with that name, or reports that there is none. |
| Accounts.FindUserUnique | mongomanager.py:116 | With unique usernames, looking a name up finds the user who has it. |
| Access.RequireAuth | mongomanager.py:42-49 | The handler runs if and only if the session has a user id. Otherwise `requestpath` becomes the request path and the response redirects to `/login`. |
| Access.Admits | mongomanager.py:64-65 | Definition of the role test: the required role or `admin` is among the valid roles. Its properties are stated by `Access.PermByRoles`. |
| Access.RequirePerm | mongomanager.py:53-70 | Without a user id: record the path and redirect to `/login`. An unknown id is a server error. The handler runs if and only if some current assignment of the user has the required role or `admin`. A known user who is refused gets the path recorded and a redirect to `/nopermission`, and nothing else. |
| Access.Login | mongomanager.py:82-102 | `requestpath` becomes `/` only when absent and otherwise keeps its value. Success is exactly a current user with the name and a matching password. It sets the user id and redirects to `requestpath`. Otherwise the session keeps its user id and the form comes back: with exactly `User not found.` when no current user has the name, with exactly `Incorrect password.` when the password does not match, and with no error for a GET or an invalid form. |
| Access.PermNeedsAuth | mongomanager.py:45-47 | Without a user id, `requires_perm` behaves exactly like `requires_auth`. It never runs a handler that `requires_auth` would refuse. |
| Access.PermByRoles | mongomanager.py:60-68 | For a known user, access is granted if and only if the required role or `admin` is among the current roles. A current `admin` opens every route. |
| Access.NotCurrentIgnored | mongomanager.py:61-63 | Replacing a non-current assignment by another non-current one changes no access decision. |
| Access.LoginReturnsToRequest | mongomanager.py:45-47 | A visitor bounced to `/login` who then logs in successfully is redirected to the page first requested, and is then admitted by `requires_auth`. |
| Roles.Retire | mongomanager.py:380-382 | A retired assignment is not current, removed by the acting user at the UTC clock reading, and stamped with `modifieddate`. Its role, user and `added*` fields are kept. |
| Roles.Query | mongomanager.py:373-375 | Definition: the removal query over the whole collection. Its properties are stated by `Roles.QueryUpTo`. |
| Roles.Retired | mongomanager.py:379-383 | Definition: the collection with every selected assignment retired, as an independent comprehension. The loop is tied to it by `Roles.RetireAtQuery`; its effect is stated by `Roles.NothingSelected`, `Roles.RemovalExhausts` and `Roles.RemovalRevokes`. |
| Roles.QueryUpTo | mongomanager.py:373-375 | The removal query yields, in collection order and without repeats, exactly the positions of current assignments of that role for that user. It is empty if and only if there are none. |
| Roles.RetireAtPointwise | mongomanager.py:379-383 | Retiring assignments one after another at distinct positions changes exactly those positions. |
| Roles.RetireAtStep | mongomanager.py:379-383 | One loop iteration retires the next queried position. |
| Roles.RetireAtQuery | mongomanager.py:373-383 | Retiring every queried position yields the collection with all selected assignments retired and all others unchanged. |
| Roles.NothingSelected | mongomanager.py:376-378 | The query is empty if and only if the removal changes nothing. |
| Roles.RemovalExhausts | mongomanager.py:373-383 | After the removal the query selects nothing, so repeating it reports the error. |
| Roles.RemovalKeepsValid | mongomanager.py:379-383 | Removal keeps every reference resolving to an assignment of the same user, and keeps usernames unique. |
| Roles.RemovalRevokes | mongomanager.py:372-385 | Afterwards, the removed role is not among that user's current roles. Every other role of that user, and every role of every other user, is as before. |
| Roles.RemovalDeniesAccess | mongomanager.py:64-68 | After removal, `requires_perm(role)` admits the user if and only if the role is not `admin` and the user holds a current `admin` assignment. |
| Roles.CurrentUsersUpTo | mongomanager.py:388 | The current users' positions, in collection order and without repeats, and exactly those. |
| Roles.RoleDataUpTo | mongomanager.py:386-388 | `roledata` has exactly one line per current user, in collection order. The line at position `p` pairs the `p`-th current user's name with that user's current roles. It holds a line for a user if and only if the user is current. |
| Roles.RoleData | mongomanager.py:386-388 | Definition: `roledata` over the whole user collection. Its properties are stated by `Roles.RoleDataUpTo` and `Roles.RoleDataRows`. |
| Roles.RoleDataRows | mongomanager.py:386-388 | Every current user appears with exactly its current roles. A user who is not current never appears. |
| Registration.Registered | mongomanager.py:116-138 | Definition of a successful registration. Its properties are stated by `Registration.RegisteredUser`, `Registration.RegisterKeepsValid`, `Registration.FirstUserIsAdmin` and `Registration.LaterUserHasNoRoles`. |
| Registration.RegisteredUser | mongomanager.py:116-129 | Registration appends one user and changes no existing document. The new user is current, added by itself, stamped at the clock reading, and found by name by both queries. |
| Registration.RegisterKeepsValid | mongomanager.py:116-138 | Registering a new name keeps references resolving to the right user and keeps usernames unique. |
| Registration.FirstUserIsAdmin | mongomanager.py:131-138 | When registration leaves exactly one user, that user has a current `admin` assignment and passes `requires_perm` for every role. |
| Registration.LaterUserHasNoRoles | mongomanager.py:127-131 | A user registered after the first gets no role assignment. |
| Registration.RegisteredCanLogIn | mongomanager.py:89-98 | A freshly registered user whose password matches is logged in by `login` and redirected. |
| Render.TerminatedIsJoined | mongomanager.py:227-231 | For a non-empty list, what the loop builds (each part followed by `, `) is the joined parts plus one trailing `, `. Dropping two characters gives the joined parts. |
| Render.TerminatedSnoc | mongomanager.py:227-229 | Each iteration appends the rendered element and one separator. |
| Render.JoinedSnoc | mongomanager.py:225-233 | Appending an element to a non-empty list adds exactly one separator before it. |
| Render.Rendered | mongomanager.py:225-233 | Definition of the list branch. Its properties are stated by `Render.RenderItem`, `Render.EmptyList`, `Render.SingletonList`, `Render.AppendElement` and `Render.Brackets`. |
| Render.RenderedAll | mongomanager.py:227-228 | Each element is rendered recursively, in order. |
| Render.RenderItem | mongomanager.py:225-233 | The loop's text is `[`, the rendered elements separated by `, ` with no trailing separator, then `]`. |
| Render.EmptyList | mongomanager.py:230-232 | An empty list renders as `[]`. |
| Render.SingletonList | mongomanager.py:225-233 | A one-element list renders as its element in brackets, with no separator. |
| Render.AppendElement | mongomanager.py:225-233 | Rendering a longer list inserts one `, ` between the old elements and the new one. |
| Render.Brackets | mongomanager.py:226-232 | A rendered list starts with `[`, ends with `]`, and between them holds the joined elements. |
| Manager.Repeat | mongomanager.py:384-385 | One flash message per retired assignment. |
| Manager.Database.Register | mongomanager.py:113-142 | A GET or an invalid form changes nothing. A taken username gives `User already exists` and changes nothing. Otherwise the collections become `Registered(...)` and the response redirects to `/login`. Consistent collections stay consistent. |
| Manager.Database.RemoveRole | mongomanager.py:372-385 | The loop leaves the assignments exactly `Retired(...)`: every selected assignment retired, all others unchanged. It records `Role does not exist for this user.` if and only if the query is empty, and one `Removed: <role> for: <username>` flash per retired assignment. |
| Manager.Database.Roles | mongomanager.py:349-389 | An unknown user gives `User does not exist.` and no change. A named role is removed as above: the assignments become `Retired(...)`, there is one `Removed: <role> for: <username>` flash per retired assignment, and `Role does not exist for this user.` is recorded if and only if nothing was selected. An empty role field or a GET changes nothing, flashes nothing and records no error. Consistency is kept, and `roledata` is computed from the resulting collections. |

## Left out

- SHA-256 is an abstract function from byte sequences to 64-character lowercase hex strings.
- BlobStore.File.Write requires the first `|files| + 1` attempt digests to be pairwise distinct, an assumption about SHA-256 the code silently relies on; under it the `while True` loop provably ends, without it the loop could spin forever.
- BlobStore.File.Write does not model directory creation (`os.makedirs`): the filesystem is a map from full file names to bytes, and directories are implicit. `save()` and the debugging prints are not modelled either.
- BlobStore.File.Read returns `None` for a missing file. In the code the open raises, and the handler itself then fails because `traceback` is not imported; exception handlers of `write`, `read` and `render_item` are not modelled.
- MongoDB persistence is replaced by in-memory sequences in which a reference is a position: `save`, queries and dereferencing become sequence lookups, and documents are never deleted.
- Manager.Database.Register does not model the temporary `addedby='self'`: the user is saved with its own reference, which `update(addedby=newUser)` sets anyway. Whether the document mapper would accept that placeholder is outside the model.
- Manager.Database.Roles leaves out the add-role branch (mongomanager.py:361-371), and `Manager.RoleForm` has no add-role field, so `Roles` is specified only for a request whose add-role field is empty.
  - That branch saves a new current `RoleAssignment` for the user, which the removal query would then select, because it filters the assignment collection by user.
  - It appends that assignment to the user's list in place, calls `update(roleassignments=None)` with the result of `list.append`, saves the user, and flashes `Added role: …`.
  - What the user's list holds afterwards depends on the document mapper's change tracking, which is outside the model.
- Tracked.Update models only the lifecycle keyword arguments (`addedby`, `addeddate`, `iscurrent`, `removedby`, `removeddate`), and cannot pass `None` to `removedby` or `removeddate`. These cover every call the routes make (mongomanager.py:129, 138, 331, 367, 380), apart from the `roleassignments` arguments at 138, whose push `Registration.Registered` writes directly, and at 367, in the add-role branch left out below.
- BlobStore.File.Update does not model an `update` of a file field (for example `update(hashstring=…)`), which the code would forward; no route makes such a call.
- Password hashing is not modelled: the stored hash is a parameter and `check_password_hash` a function parameter.
- Form validation (the declarative forms module) is not modelled; an invalid form is treated like a GET.
- Clocks are parameters: `now` for `datetime.now()` and `utcNow` for `datetime.utcnow()`, one reading of each per request.
- Render.RenderItem models only the list branch; other values are given by their text. The link branches (file names, paths, referenced documents, ObjectIds), `url_for` and the `requires_perm` decoration on `render_item` itself are not modelled.
- Flask glue is not modelled: routing, templates, `flash` storage, `logout`, `nopermission`, directory listing, file download and the generic collection editor.
- Concurrent requests are not modelled.
