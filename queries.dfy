/** The read-only group handlers, as functions over the store's map from
    group id to group record: the pending invitations of a user, the groups
    a user belongs to, the members of one group, and the password check. */
module GroupQueries {
  import opened Groups

  /** One entry of getInvitations: the group's name and its leader (the
      display name the handler joins in for the leader is not modelled). */
  datatype InvitationView = InvitationView(groupName: string, inviter: UserId)

  /** One entry of getMyGroups: every stored field of the record, the hash
      included (the handler spreads the whole record into the entry), plus
      `hasPassword`. */
  datatype GroupView = GroupView(
    name: string,
    leader: UserId,
    members: seq<UserId>,
    invitations: seq<UserId>,
    password: Option<Digest>,
    hasPassword: bool)

  datatype MembersResult = Members(ids: seq<UserId>) | MembersNotFound

  /** getInvitations: every group whose invitations hold `u`. */
  function InvitationsFor(groups: map<GroupId, Group>, u: UserId): (r: map<GroupId, InvitationView>)
    ensures forall id :: id in r <==> id in groups && u in groups[id].invitations
    ensures forall id :: id in r ==>
              r[id].groupName == groups[id].name && r[id].inviter == groups[id].leader
  {
    map id | id in groups && u in groups[id].invitations ::
      InvitationView(groups[id].name, groups[id].leader)
  }

  /** getMyGroups: every group whose members hold `u`, each with all its
      stored fields, the password hash among them, and whether it has a
      hash. */
  function MyGroups(groups: map<GroupId, Group>, u: UserId): (r: map<GroupId, GroupView>)
    ensures forall id :: id in r <==> id in groups && u in groups[id].members
    ensures forall id :: id in r ==>
              && r[id].name == groups[id].name
              && r[id].leader == groups[id].leader
              && r[id].members == groups[id].members
              && r[id].invitations == groups[id].invitations
              && r[id].password == groups[id].password
              && (r[id].hasPassword <==> groups[id].password.Some?)
  {
    map id | id in groups && u in groups[id].members ::
      var g := groups[id];
      GroupView(g.name, g.leader, g.members, g.invitations, g.password, g.password.Some?)
  }

  /** getGroupMembers: the member ids of one group, or 404. */
  function MembersOf(groups: map<GroupId, Group>, id: GroupId): (r: MembersResult)
    ensures r.MembersNotFound? <==> id !in groups
    ensures r.Members? ==> r.ids == groups[id].members
  {
    if id in groups then Members(groups[id].members) else MembersNotFound
  }

  /** verifyGroupPassword. An absent group is 404; a candidate that does not
      match the stored hash is 403. Comparing against a group with no hash,
      or with no candidate in the request, makes the hash library throw,
      which the handler's catch turns into a 500. Nobody's membership is
      consulted. */
  function VerifyPassword(groups: map<GroupId, Group>, id: GroupId, candidate: Option<string>): (r: Outcome)
    ensures r == NotFound <==> id !in groups
    ensures r == Internal <==> id in groups && (groups[id].password.None? || candidate.None?)
    ensures r == Ok <==>
              && id in groups && candidate.Some? && groups[id].password.Some?
              && Matches(candidate.value, groups[id].password.value)
    ensures r in {Ok, NotFound, Forbidden, Internal}
  {
    if id !in groups then NotFound
    else if candidate.None? || groups[id].password.None? then Internal
    else if !Matches(candidate.value, groups[id].password.value) then Forbidden
    else Ok
  }

  // -------------------------------------------------------------- lemmas

  /** On a store of valid records nobody sees the same group both as an
      invitation and among their own groups. */
  lemma InvitationsAndGroupsDisjoint(groups: map<GroupId, Group>, u: UserId)
    requires forall id :: id in groups ==> groups[id].Valid()
    ensures InvitationsFor(groups, u).Keys !! MyGroups(groups, u).Keys
  {
  }

  /** The leader of every valid record sees that group among their own. */
  lemma LeaderSeesOwnGroup(groups: map<GroupId, Group>, id: GroupId)
    requires id in groups && groups[id].Valid()
    ensures id in MyGroups(groups, groups[id].leader)
  {
  }

  /** After `u` accepts, the group leaves u's invitations and joins u's
      groups; every other group's view for u is as before. */
  lemma AcceptMovesGroup(groups: map<GroupId, Group>, id: GroupId, u: UserId)
    requires id in groups
    ensures var after := groups[id := Accept(groups[id], u)];
            && id !in InvitationsFor(after, u)
            && id in MyGroups(after, u)
            && InvitationsFor(after, u) == InvitationsFor(groups, u) - {id}
  {
  }

  /** After `u` rejects, the group leaves u's invitations and u's own
      groups are unchanged. */
  lemma RejectDropsInvitation(groups: map<GroupId, Group>, id: GroupId, u: UserId)
    requires id in groups
    ensures var after := groups[id := Reject(groups[id], u)];
            && InvitationsFor(after, u) == InvitationsFor(groups, u) - {id}
            && MyGroups(after, u).Keys == MyGroups(groups, u).Keys
  {
  }

  /** The leader of a valid group is always among its listed members; after
      `u` accepts, u is listed; after the leader removes `t`, t is not. */
  lemma MembersOfAfterTransitions(groups: map<GroupId, Group>, id: GroupId, u: UserId, t: UserId)
    requires id in groups && groups[id].Valid()
    ensures MembersOf(groups, id).Members? && groups[id].leader in MembersOf(groups, id).ids
    ensures var after := groups[id := Accept(groups[id], u)];
            MembersOf(after, id).Members? && u in MembersOf(after, id).ids
    ensures var after := groups[id := RemoveMember(groups[id], t)];
            MembersOf(after, id).Members? && t !in MembersOf(after, id).ids
  {
  }

  /** After an invite that resolves `u`, who is not yet a member, the group
      shows among u's invitations. */
  lemma InviteShowsInvitation(groups: map<GroupId, Group>, id: GroupId, users: seq<User>, v: User)
    requires id in groups && v in users && v.id !in groups[id].members
    ensures id in InvitationsFor(groups[id := AddInvites(groups[id], users)], v.id)
  {
  }

  /** After the leader sets a password, exactly that password verifies and
      every other candidate is refused with 403. */
  lemma SetPasswordThenVerify(groups: map<GroupId, Group>, id: GroupId, plain: string, other: string)
    requires id in groups && groups[id].Valid() && other != plain
    ensures var after := groups[id := SetPassword(groups[id], plain)];
            && VerifyPassword(after, id, Some(plain)) == Ok
            && VerifyPassword(after, id, Some(other)) == Forbidden
            && id in MyGroups(after, groups[id].leader)
            && MyGroups(after, groups[id].leader)[id].hasPassword
  {
  }

  /** A group created without a (non-empty) password shows as open, and
      verifying against it fails with the 500 of the hash library. */
  lemma OpenGroupHasNoPassword(groups: map<GroupId, Group>, id: GroupId, name: string, leader: UserId, candidate: string)
    requires id !in groups
    ensures var after := groups[id := Create(name, leader, Some(""))];
            && !MyGroups(after, leader)[id].hasPassword
            && VerifyPassword(after, id, Some(candidate)) == Internal
  {
  }
}
