/** The group store and the mutating group handlers.

    `GroupStore` stands for the two collections the controller touches: the
    group records, by id, and the diary entries, each tagged with the id of
    the group it belongs to. Each handler is one method that does what the
    controller does between its request and its response: look the group
    up, check the guards in the controller's order, rewrite the record and
    write it back. Every failing guard leaves the store as it was. */
module GroupStores {
  import opened Groups

  /** A diary entry; only the group it belongs to matters here. */
  datatype Diary = Diary(group: GroupId, body: string)

  /** `Diary.deleteMany({ group: id })`: every entry of group `id` goes,
      every other entry stays with its multiplicity. */
  function DropGroup(diaries: seq<Diary>, id: GroupId): (r: seq<Diary>)
    ensures forall d :: d in r <==> d in diaries && d.group != id
    ensures forall d: Diary :: d.group != id ==> multiset(r)[d] == multiset(diaries)[d]
    ensures |r| <= |diaries|
  {
    if diaries == [] then []
    else
      var rest := DropGroup(diaries[1..], id);
      assert diaries == [diaries[0]] + diaries[1..];
      if diaries[0].group == id then rest else [diaries[0]] + rest
  }

  class GroupStore {
    var groups: map<GroupId, Group>
    var diaries: seq<Diary>
    /** Every id handed out so far is below this one. */
    var nextId: GroupId

    /** Every stored record keeps the record invariant, and ids are fresh. */
    ghost predicate Valid()
      reads this
    {
      forall id :: id in groups ==> id < nextId && groups[id].Valid()
    }

    /** An empty group collection beside the diary entries the diary
        subsystem has written. */
    constructor (diaries: seq<Diary>)
      ensures Valid()
      ensures this.groups == map[] && this.diaries == diaries
    {
      this.groups := map[];
      this.diaries := diaries;
      this.nextId := 0;
    }

    /** createGroup: always succeeds and answers the new group's id. */
    method CreateGroup(actor: UserId, name: string, password: Option<string>) returns (id: GroupId)
      requires Valid()
      modifies this
      ensures Valid()
      ensures id !in old(groups)
      ensures groups == old(groups)[id := Create(name, actor, password)]
      ensures diaries == old(diaries)
    {
      var hashed: Option<Digest> := None;
      if password.Some? && password.value != "" {
        hashed := Some(Hash(password.value));
      }
      id := nextId;
      groups := groups[id := Group(name, actor, [actor], [], hashed)];
      nextId := nextId + 1;
    }

    /** inviteUsers: 404 for a missing group; otherwise push every resolved
        user who is neither invited nor a member. The caller is not
        checked. */
    method Invite(id: GroupId, directory: seq<User>, emails: seq<Email>) returns (o: Outcome)
      requires Valid()
      modifies this
      ensures Valid()
      ensures id !in old(groups) ==> o == NotFound && unchanged(this)
      ensures id in old(groups) ==>
                && o == Ok
                && groups == old(groups)[id := AddInvites(old(groups)[id], FindByEmails(directory, emails))]
                && diaries == old(diaries) && nextId == old(nextId)
    {
      if id !in groups {
        return NotFound;
      }
      var g := groups[id];
      var users := FindByEmails(directory, emails);
      var invitations := g.invitations;
      var i := 0;
      while i < |users|
        invariant 0 <= i <= |users|
        invariant g.(invitations := invitations) == AddInvites(g, users[..i])
      {
        var user := users[i];
        if user.id !in invitations && user.id !in g.members {
          invitations := invitations + [user.id];
        }
        assert users[..i + 1] == users[..i] + [user];
        i := i + 1;
      }
      assert users[..i] == users;
      InvitePreservesValid(g, users);
      groups := groups[id := g.(invitations := invitations)];
      o := Ok;
    }

    /** acceptInvite: 404 for a missing group; otherwise the caller joins
        (once) and every invitation of theirs is dropped. */
    method AcceptInvite(actor: UserId, id: GroupId) returns (o: Outcome)
      requires Valid()
      modifies this
      ensures Valid()
      ensures id !in old(groups) ==> o == NotFound && unchanged(this)
      ensures id in old(groups) ==>
                && o == Ok
                && groups == old(groups)[id := Accept(old(groups)[id], actor)]
                && diaries == old(diaries) && nextId == old(nextId)
    {
      if id !in groups {
        return NotFound;
      }
      var g := groups[id];
      var members := g.members;
      if actor !in members {
        members := members + [actor];
      }
      AcceptPreservesValid(g, actor);
      groups := groups[id := g.(members := members, invitations := Remove(g.invitations, actor))];
      o := Ok;
    }

    /** rejectInvite: 404 for a missing group; otherwise every invitation of
        the caller is dropped, whether or not there was one. */
    method RejectInvite(actor: UserId, id: GroupId) returns (o: Outcome)
      requires Valid()
      modifies this
      ensures Valid()
      ensures id !in old(groups) ==> o == NotFound && unchanged(this)
      ensures id in old(groups) ==>
                && o == Ok
                && groups == old(groups)[id := Reject(old(groups)[id], actor)]
                && diaries == old(diaries) && nextId == old(nextId)
    {
      if id !in groups {
        return NotFound;
      }
      var g := groups[id];
      RejectPreservesValid(g, actor);
      groups := groups[id := g.(invitations := Remove(g.invitations, actor))];
      o := Ok;
    }

    /** removeMember: a caller naming themself is refused with 400 before
        the group is even looked up; then 404 for a missing group, 403 for a
        caller who is not the leader; otherwise the target is filtered out
        of the members. */
    method RemoveMember(actor: UserId, id: GroupId, target: UserId) returns (o: Outcome)
      requires Valid()
      modifies this
      ensures Valid()
      ensures actor == target ==> o == InvalidArgument && unchanged(this)
      ensures actor != target && id !in old(groups) ==> o == NotFound && unchanged(this)
      ensures actor != target && id in old(groups) && !IsLeader(old(groups)[id], actor) ==>
                o == Forbidden && unchanged(this)
      ensures actor != target && id in old(groups) && IsLeader(old(groups)[id], actor) ==>
                && o == Ok
                && groups == old(groups)[id := Groups.RemoveMember(old(groups)[id], target)]
                && diaries == old(diaries) && nextId == old(nextId)
    {
      if actor == target {
        return InvalidArgument;
      }
      if id !in groups {
        return NotFound;
      }
      var g := groups[id];
      if !IsLeader(g, actor) {
        return Forbidden;
      }
      RemoveMemberPreservesValid(g, target);
      groups := groups[id := g.(members := Remove(g.members, target))];
      o := Ok;
    }

    /** updateGroupPassword: 404 for a missing group, 403 for a caller who
        is not the leader; a request without a new password makes the hash
        library throw (500) and nothing is saved; otherwise the hash of the
        new password replaces the old one. */
    method UpdatePassword(actor: UserId, id: GroupId, newPassword: Option<string>) returns (o: Outcome)
      requires Valid()
      modifies this
      ensures Valid()
      ensures id !in old(groups) ==> o == NotFound && unchanged(this)
      ensures id in old(groups) && !IsLeader(old(groups)[id], actor) ==>
                o == Forbidden && unchanged(this)
      ensures id in old(groups) && IsLeader(old(groups)[id], actor) && newPassword.None? ==>
                o == Internal && unchanged(this)
      ensures id in old(groups) && IsLeader(old(groups)[id], actor) && newPassword.Some? ==>
                && o == Ok
                && groups == old(groups)[id := SetPassword(old(groups)[id], newPassword.value)]
                && diaries == old(diaries) && nextId == old(nextId)
    {
      if id !in groups {
        return NotFound;
      }
      var g := groups[id];
      if !IsLeader(g, actor) {
        return Forbidden;
      }
      if newPassword.None? {
        return Internal;
      }
      SetPasswordPreservesValid(g, newPassword.value);
      groups := groups[id := g.(password := Some(Hash(newPassword.value)))];
      o := Ok;
    }

    /** deleteGroup: 404 for a missing group, 403 for a caller who is not
        the leader; otherwise first every diary entry of the group goes,
        then the group record. */
    method DeleteGroup(actor: UserId, id: GroupId) returns (o: Outcome)
      requires Valid()
      modifies this
      ensures Valid()
      ensures id !in old(groups) ==> o == NotFound && unchanged(this)
      ensures id in old(groups) && !IsLeader(old(groups)[id], actor) ==>
                o == Forbidden && unchanged(this)
      ensures id in old(groups) && IsLeader(old(groups)[id], actor) ==>
                && o == Ok
                && diaries == DropGroup(old(diaries), id)
                && groups == old(groups) - {id}
                && id !in groups
                && nextId == old(nextId)
    {
      if id !in groups {
        return NotFound;
      }
      if !IsLeader(groups[id], actor) {
        return Forbidden;
      }
      diaries := DropGroup(diaries, id);
      groups := groups - {id};
      o := Ok;
    }
  }

  /** A client run of the handlers: the leader creates an open group,
      invites a user, the user accepts, the leader sets a password and then
      deletes the group with its diary entries. */
  method Scenario(leader: UserId, u: UserId, e: Email, entries: seq<Diary>)
    requires u != leader
  {
    var store := new GroupStore(entries);
    var id := store.CreateGroup(leader, "journal", None);
    assert store.groups[id].password.None?;
    var o := store.Invite(id, [User(u, e)], [e]);
    assert FindByEmails([User(u, e)], [e]) == [User(u, e)];
    assert [User(u, e)][..0] == [];
    assert o == Ok && store.groups[id].invitations == [u];
    o := store.AcceptInvite(u, id);
    assert store.groups[id].members == [leader, u] && store.groups[id].invitations == [];
    o := store.UpdatePassword(u, id, Some("abc123"));
    assert o == Forbidden && store.groups[id].password.None?;
    o := store.RemoveMember(leader, id, leader);
    assert o == InvalidArgument;
    o := store.UpdatePassword(leader, id, Some("abc123"));
    assert o == Ok && Matches("abc123", store.groups[id].password.value);
    o := store.DeleteGroup(leader, id);
    assert o == Ok && id !in store.groups;
    assert forall d :: d in store.diaries ==> d.group != id;
  }
}
