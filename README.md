# Group membership of the shared-journal backend, in Dafny

The backend lets users form groups around a shared diary. A group has a
leader, a list of members, a list of pending invitations and, optionally, a
password hash. The group controller (`controllers/groupController.js`)
offers these operations:

- create a group;
- invite users by email;
- list a user's invitations;
- accept or reject an invitation;
- list a user's groups;
- list the members of a group;
- check a group password;
- remove a member;
- change the password;
- delete a group together with its diary entries.

This project models the membership state machine behind those handlers and
proves its properties.

- `groups.dfy`, module `Groups`. Holds the group record, the rewrite each
  mutating handler applies to it, and the record invariant. The invariant
  says the leader is a member, nobody is both a member and invited, and no
  list repeats an id. The module proves that every rewrite keeps the
  invariant, that accept, reject and invite are idempotent, and that after
  an accept the caller is a member exactly once.
- `queries.dfy`, module `GroupQueries`. Holds the read-only handlers
  (invitations of a user, groups of a user, members of a group, password
  check) as functions over the store's id-to-record map. It also holds
  lemmas linking them to the transitions: accepting moves a group from a
  user's invitations to their groups, rejecting drops it, an invite makes
  it appear, and after a password change exactly the new password verifies.
- `store.dfy`, module `GroupStores`. Holds class `GroupStore`, with the
  group map, the diary entries and an id counter as fields. It has one
  method per mutating handler. Each method checks the handler's guards in
  the controller's order, and every failing guard leaves the store
  unchanged (`unchanged(this)`). On success the new state is stated in
  terms of the `Groups` rewrites. `Valid()` (every stored record satisfies
  the record invariant) is preserved by every method. The invite handler's
  `forEach`/`push` loop is a `while` loop proved against `AddInvites`.

Abstractions:

- Ids have plain equality. Mongo ObjectIds are compared sometimes as
  objects, sometimes as strings; that is not modelled.
- Fresh group ids come from a counter.
- bcrypt is `Hash(p) = Digest(p)` with `Matches(c, d) <==> c == d.secret`.
  The property used is that a digest verifies exactly its own plaintext.
  This stand-in is deterministic and unsalted: hashing the same plaintext
  twice gives equal digests, which real bcrypt never does. Contracts about
  verification are stated with `Matches`, not with equality of digests.
- getMyGroups spreads the whole stored record into each entry, so the
  password hash goes out with it next to `hasPassword`. The model's
  `GroupView` carries the hash accordingly.
- Request fields that may be missing (`password`, `newPassword`) are
  `Option<string>`. bcrypt throws on a missing argument, and the handler's
  catch turns that into a 500. The model returns `Internal` in these
  cases:
  - verifying when the group has no hash;
  - verifying without a candidate password;
  - updating without a new password.
- The user directory lookup `User.find({ email: { $in: ... } })` is
  `FindByEmails` over a directory sequence. It returns users in directory
  order and skips emails no user has.

## Model

| member | source | states |
|---|---|---|
| Groups.Hash | controllers/groupController.js:15 | the digest passes the compare check (`Matches`) exactly for the hashed plaintext |
| Groups.IsLeader | controllers/groupController.js:203 | the leader guard passes only for the record's leader, who on a valid record is a member |
| Groups.Remove | controllers/groupController.js:94-96 | the filtered list no longer holds the id; every other id keeps its multiplicity; no new duplicates |
| Groups.RemoveAbsent | controllers/groupController.js:115-117 | filtering out an id that is not there leaves the list as it was |
| Groups.Create | controllers/groupController.js:12-24 | leader is the caller, members is exactly [caller], no invitations; no password exactly when none or the empty string was given, otherwise the hash of it; the record is valid |
| Groups.FindByEmails | controllers/groupController.js:43 | a user is resolved exactly when it is in the directory and its email was asked for; unknown emails resolve to nothing |
| Groups.AddInvite | controllers/groupController.js:45-50 | one loop step appends the id only if it is neither invited nor a member; members, leader, name and password untouched |
| Groups.AddInvites | controllers/groupController.js:44-51 | members never change; old invitations are kept as a prefix; every resolved user ends invited or was a member; every new invitation is a resolved non-member; no duplicates and disjointness are kept |
| Groups.Accept | controllers/groupController.js:90-96 | caller ends in members and out of invitations; every other id keeps its multiplicity in both lists; old members are a prefix; leader, name, password unchanged |
| Groups.Reject | controllers/groupController.js:115-117 | caller ends out of invitations; members, leader, name, password unchanged; every other invitation kept |
| Groups.RemoveMember | controllers/groupController.js:208 | target ends out of members; every other member kept; invitations, leader, name, password unchanged |
| Groups.SetPassword | controllers/groupController.js:234-235 | the new hash verifies the new password and no other; members, invitations, leader unchanged |
| Groups.InvitePreservesValid | controllers/groupController.js:44-51 | inviting keeps leader in members, members and invitations disjoint, no duplicates |
| Groups.AcceptPreservesValid | controllers/groupController.js:90-96 | accepting keeps the record invariant |
| Groups.RejectPreservesValid | controllers/groupController.js:115-117 | rejecting keeps the record invariant |
| Groups.RemoveMemberPreservesValid | controllers/groupController.js:193-208 | removing anyone but the leader keeps the record invariant |
| Groups.SetPasswordPreservesValid | controllers/groupController.js:234-235 | changing the password keeps the record invariant |
| Groups.AcceptIdempotent | controllers/groupController.js:90-96 | accepting twice gives the same record as accepting once |
| Groups.RejectIdempotent | controllers/groupController.js:115-117 | rejecting twice gives the same record as rejecting once |
| Groups.AcceptMemberOnce | controllers/groupController.js:90-92 | on a valid record, after accepting, the caller occurs in members exactly once |
| Groups.InviteIdempotent | controllers/groupController.js:44-51 | inviting the same users twice gives the same record as inviting them once |
| Groups.AddInvitesCovered | controllers/groupController.js:45-48 | inviting users who are all already invited or members changes nothing |
| GroupQueries.InvitationsFor | controllers/groupController.js:66-72 | a group is listed for u exactly when u is among its invitations, with its name and leader |
| GroupQueries.MyGroups | controllers/groupController.js:130-138 | a group is listed for u exactly when u is among its members; each entry carries every stored field, the password hash included, and hasPassword holds exactly when a hash is stored |
| GroupQueries.MembersOf | controllers/groupController.js:152-158 | 404 exactly for a missing group, otherwise its member list |
| GroupQueries.VerifyPassword | controllers/groupController.js:170-184 | 404 exactly for a missing group; 500 exactly when there is no hash or no candidate; success exactly when the stored hash verifies the candidate; otherwise 403 |
| GroupQueries.MembersOfAfterTransitions | controllers/groupController.js:152-158 | a valid group's member list holds its leader; after u accepts it holds u; after the leader removes t it no longer holds t |
| GroupQueries.InvitationsAndGroupsDisjoint | controllers/groupController.js:130-138 | on valid records no group is both among a user's invitations and among their groups |
| GroupQueries.LeaderSeesOwnGroup | controllers/groupController.js:130 | a valid group always shows among its leader's groups |
| GroupQueries.AcceptMovesGroup | controllers/groupController.js:87-96 | after u accepts, the group leaves u's invitations (and only it) and shows among u's groups |
| GroupQueries.RejectDropsInvitation | controllers/groupController.js:112-117 | after u rejects, only that group leaves u's invitations; u's groups unchanged |
| GroupQueries.InviteShowsInvitation | controllers/groupController.js:40-51 | after an invite resolving a non-member, the group shows among that user's invitations |
| GroupQueries.SetPasswordThenVerify | controllers/groupController.js:224-235 | after the password is set, the new password verifies, any other gets 403, and the group shows hasPassword |
| GroupQueries.OpenGroupHasNoPassword | controllers/groupController.js:12-16 | a group created with an empty password shows no password, and verifying against it gives 500 |
| GroupStores.DropGroup | controllers/groupController.js:259 | every diary entry of the group is gone; every other entry stays with its multiplicity |
| GroupStores.GroupStore.CreateGroup | controllers/groupController.js:7-27 | the store gains exactly one record, under a fresh id, built as Create says; diaries untouched; invariant kept |
| GroupStores.GroupStore.Invite | controllers/groupController.js:35-54 | 404 and no change for a missing group; otherwise the loop's result equals AddInvites over the resolved users, no caller check; invariant kept |
| GroupStores.GroupStore.AcceptInvite | controllers/groupController.js:82-99 | 404 and no change for a missing group; otherwise only that record changes, as Accept says; invariant kept |
| GroupStores.GroupStore.RejectInvite | controllers/groupController.js:107-120 | 404 and no change for a missing group; otherwise only that record changes, as Reject says; invariant kept |
| GroupStores.GroupStore.RemoveMember | controllers/groupController.js:188-211 | guards in order: self-removal 400 before lookup, 404, non-leader 403, each without change; otherwise only the target leaves the members; invariant kept |
| GroupStores.GroupStore.UpdatePassword | controllers/groupController.js:218-238 | 404, then non-leader 403, then missing new password 500, each without change; otherwise only the hash changes, to the new password's |
| GroupStores.GroupStore.DeleteGroup | controllers/groupController.js:246-264 | 404, then non-leader 403, each without change; otherwise every diary entry of the group is removed, the others kept, and the group is gone |

## Left out

- HTTP handling: status codes, JSON bodies and `console.error` logging are reduced to the `Outcome` datatype.
- Persistence failures: a failing `save`, `find`, `deleteMany` or `findByIdAndDelete` (a 500 from the catch blocks) is not modelled. Every store step succeeds.
- Display joins: `populate` of leader and member names and emails is not modelled. Views carry user ids where the handlers show names. getGroupMembers answers ids, not name/email records.
- Result order: the query results are maps keyed by group id, so the order in which Mongo returns groups is not modelled.
- `User.find`: the directory is a sequence of users, and its order stands for Mongo's natural order.
- bcrypt internals: salting, the work factor of 10 and comparison timing are left out. The stand-in hash is deterministic and injective; real bcrypt salts each hash, so two hashes of one plaintext differ.
- Groups.Hash: does not model that bcrypt reads only the first 72 bytes of a password and ignores the rest. So the "no other plaintext verifies" promises hold only for passwords that differ within their first 72 bytes. This covers the contracts of `Hash` and `SetPassword` and the 403 for another candidate in `GroupQueries.SetPasswordThenVerify`. Two passwords that share their first 72 bytes verify against each other's hash in the running code.
- Concurrency: each handler is one atomic step. The lost update between two concurrent read-modify-write calls on one group is not modelled.
- Delete atomicity: the diary deletion and the group deletion run in order, with no failure in between. The orphaned entries a crash could leave are not modelled.
- Diary entries: their fields other than the group id are a single opaque `body`; the diary model itself is not part of this model.
- `Groups.Remove`: states the multiset of the result, not that the filter keeps the relative order of the remaining ids.
