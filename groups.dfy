/** The group record of the shared-journal service and the pure transitions
    that the group handlers apply to it.

    Every mutating handler of the controller reads one group record, checks
    existence and authorisation, rewrites the `members` / `invitations`
    sequences (or the password hash) and saves the record back. This module
    holds the record, the rewrite each handler performs, the record
    invariant, and the lemmas that every rewrite keeps that invariant. */
module Groups {

  /** A user id (a Mongo ObjectId, compared by its string form). */
  type UserId = string
  /** A group id; the store hands out fresh ones. */
  type GroupId = nat
  type Email = string

  datatype Option<T> = None | Some(value: T)

  /** What a handler answers: success, or one of the error statuses it sends
      (404, 403, 400, and the 500 of its catch block). */
  datatype Outcome = Ok | NotFound | Forbidden | InvalidArgument | Internal

  /** Stand-in for a bcrypt hash. Salt, work factor and timing are not
      modelled; the one property relied on is that a digest verifies exactly
      the plaintext it was made from (see `Hash`). */
  datatype Digest = Digest(secret: string)

  /** bcrypt.compare(candidate, digest); what it promises is stated on
      `Hash`. */
  predicate Matches(candidate: string, d: Digest)
  {
    candidate == d.secret
  }

  /** bcrypt.hash(plain, 10) */
  function Hash(plain: string): (d: Digest)
    ensures forall c :: Matches(c, d) <==> c == plain
  {
    Digest(plain)
  }

  /** A user of the directory that invitations are resolved against. */
  datatype User = User(id: UserId, email: Email)

  /** The persisted group record. `password` is None for an open group. */
  datatype Group = Group(
    name: string,
    leader: UserId,
    members: seq<UserId>,
    invitations: seq<UserId>,
    password: Option<Digest>)
  {
    /** The record invariant: the leader is a member, nobody is both a
        member and invited, and neither sequence repeats an id. */
    predicate Valid()
    {
      && leader in members
      && Disjoint(members, invitations)
      && NoDup(members)
      && NoDup(invitations)
    }
  }

  predicate NoDup(s: seq<UserId>)
  {
    forall i, j :: 0 <= i < j < |s| ==> s[i] != s[j]
  }

  predicate Disjoint(a: seq<UserId>, b: seq<UserId>)
  {
    forall u :: u in a ==> u !in b
  }

  /** Authorisation guard shared by remove-member, update-password and
      delete: the caller must be the group's leader. */
  predicate IsLeader(g: Group, actor: UserId): (r: bool)
    ensures r ==> actor == g.leader
    ensures r && g.Valid() ==> actor in g.members
  {
    g.leader == actor
  }

  /** `ids.filter(id => id.toString() !== x)`: every occurrence of `x` goes,
      every other id keeps its multiplicity. */
  function Remove(s: seq<UserId>, x: UserId): (r: seq<UserId>)
    ensures x !in r
    ensures forall y :: y in r <==> y in s && y != x
    ensures forall y :: y != x ==> multiset(r)[y] == multiset(s)[y]
    ensures |r| <= |s|
    ensures NoDup(s) ==> NoDup(r)
  {
    if s == [] then []
    else
      var rest := Remove(s[1..], x);
      assert s == [s[0]] + s[1..];
      if s[0] == x then rest
      else
        assert NoDup(s) ==> s[0] !in s[1..];
        [s[0]] + rest
  }

  /** Removing an id that is not there changes nothing. */
  lemma {:induction false} RemoveAbsent(s: seq<UserId>, x: UserId)
    requires x !in s
    ensures Remove(s, x) == s
  {
    if s != [] {
      RemoveAbsent(s[1..], x);
    }
  }

  // ---------------------------------------------------------------- create

  /** The record createGroup builds: the caller leads, is the sole member,
      nobody is invited, and the password is hashed only when one was given
      and is non-empty (JavaScript truthiness of the body field). */
  function Create(name: string, leader: UserId, password: Option<string>): (g: Group)
    ensures g.name == name && g.leader == leader
    ensures g.members == [leader] && g.invitations == []
    ensures g.password.None? <==> (password.None? || password.value == "")
    ensures forall p :: password == Some(p) && p != "" ==> g.password == Some(Hash(p))
    ensures g.Valid()
  {
    var hashed := if password.Some? && password.value != "" then Some(Hash(password.value)) else None;
    Group(name, leader, [leader], [], hashed)
  }

  // ---------------------------------------------------------------- invite

  /** The users a directory lookup `{ email: { $in: emails } }` returns, in
      directory order; an email no user has resolves to nothing. */
  function FindByEmails(directory: seq<User>, emails: seq<Email>): (r: seq<User>)
    ensures forall v :: v in r <==> v in directory && v.email in emails
    ensures |r| <= |directory|
  {
    if directory == [] then []
    else
      var rest := FindByEmails(directory[1..], emails);
      assert directory == [directory[0]] + directory[1..];
      if directory[0].email in emails then [directory[0]] + rest else rest
  }

  /** One step of the invite loop: push the user's id unless it is already
      invited or already a member. */
  function AddInvite(g: Group, user: User): (r: Group)
    ensures r.members == g.members && r.leader == g.leader
    ensures r.name == g.name && r.password == g.password
    ensures user.id in r.invitations || user.id in r.members
    ensures r.invitations == g.invitations ||
            (user.id !in g.invitations && user.id !in g.members &&
             r.invitations == g.invitations + [user.id])
  {
    if user.id !in g.invitations && user.id !in g.members
    then g.(invitations := g.invitations + [user.id])
    else g
  }

  /** The whole invite loop over the resolved users, in order. */
  function AddInvites(g: Group, users: seq<User>): (r: Group)
    ensures r.members == g.members && r.leader == g.leader
    ensures r.name == g.name && r.password == g.password
    // existing invitations stay, in place; only appends happen
    ensures g.invitations <= r.invitations
    // every resolved user ends up invited or was already a member
    ensures forall v :: v in users ==> v.id in r.invitations || v.id in g.members
    // every new invitation comes from a resolved user who was no member
    ensures forall u :: u in r.invitations ==>
              u in g.invitations || (u !in g.members && exists v :: v in users && v.id == u)
    ensures NoDup(g.invitations) ==> NoDup(r.invitations)
    ensures Disjoint(g.members, g.invitations) ==> Disjoint(r.members, r.invitations)
    decreases |users|
  {
    if users == [] then g
    else
      var front := users[..|users| - 1];
      var last := users[|users| - 1];
      assert users == front + [last];
      var mid := AddInvites(g, front);
      var r := AddInvite(mid, last);
      assert NoDup(mid.invitations) && r.invitations != mid.invitations ==> NoDup(r.invitations) by {
        if NoDup(mid.invitations) && r.invitations != mid.invitations {
          assert last.id !in mid.invitations;
          forall i, j | 0 <= i < j < |r.invitations|
            ensures r.invitations[i] != r.invitations[j]
          {
            if j == |r.invitations| - 1 {
              assert r.invitations[i] == mid.invitations[i];
            }
          }
        }
      }
      forall u | u in r.invitations
        ensures u in g.invitations || (u !in g.members && exists v :: v in users && v.id == u)
      {
        if u !in mid.invitations {
          assert u == last.id && last in users;
        }
      }
      r
  }

  // ------------------------------------------------- accept, reject, remove

  /** acceptInvite: add the caller to `members` unless already there, and
      drop every invitation of the caller. No invitation is required. */
  function Accept(g: Group, actor: UserId): (r: Group)
    ensures actor in r.members && actor !in r.invitations
    ensures r.leader == g.leader && r.name == g.name && r.password == g.password
    ensures forall u :: u != actor ==>
              multiset(r.members)[u] == multiset(g.members)[u] &&
              multiset(r.invitations)[u] == multiset(g.invitations)[u]
    ensures g.members <= r.members
    ensures NoDup(g.members) ==> NoDup(r.members)
  {
    var members := if actor in g.members then g.members else g.members + [actor];
    assert NoDup(g.members) ==> NoDup(members) by {
      if NoDup(g.members) && actor !in g.members {
        forall i, j | 0 <= i < j < |members| ensures members[i] != members[j] {
          if j == |g.members| {
            assert members[i] == g.members[i];
          }
        }
      }
    }
    g.(members := members, invitations := Remove(g.invitations, actor))
  }

  /** rejectInvite: drop every invitation of the caller; members untouched. */
  function Reject(g: Group, actor: UserId): (r: Group)
    ensures actor !in r.invitations
    ensures r.members == g.members
    ensures r.leader == g.leader && r.name == g.name && r.password == g.password
    ensures forall u :: u != actor ==>
              multiset(r.invitations)[u] == multiset(g.invitations)[u]
  {
    g.(invitations := Remove(g.invitations, actor))
  }

  /** removeMember's rewrite: filter the target out of `members`. */
  function RemoveMember(g: Group, target: UserId): (r: Group)
    ensures target !in r.members
    ensures r.invitations == g.invitations
    ensures r.leader == g.leader && r.name == g.name && r.password == g.password
    ensures forall u :: u != target ==>
              multiset(r.members)[u] == multiset(g.members)[u]
  {
    g.(members := Remove(g.members, target))
  }

  /** updateGroupPassword's rewrite: store the hash of the new password. */
  function SetPassword(g: Group, plain: string): (r: Group)
    ensures r.password.Some? && Matches(plain, r.password.value)
    ensures forall c :: c != plain ==> !Matches(c, r.password.value)
    ensures r.members == g.members && r.invitations == g.invitations
    ensures r.leader == g.leader && r.name == g.name
  {
    g.(password := Some(Hash(plain)))
  }

  // ------------------------------------------------ invariant preservation

  lemma InvitePreservesValid(g: Group, users: seq<User>)
    requires g.Valid()
    ensures AddInvites(g, users).Valid()
  {
  }

  lemma AcceptPreservesValid(g: Group, actor: UserId)
    requires g.Valid()
    ensures Accept(g, actor).Valid()
  {
  }

  lemma RejectPreservesValid(g: Group, actor: UserId)
    requires g.Valid()
    ensures Reject(g, actor).Valid()
  {
  }

  /** The leader can never be the target: remove-member rejects a caller
      removing themself, and only the leader may call it. */
  lemma RemoveMemberPreservesValid(g: Group, target: UserId)
    requires g.Valid()
    requires target != g.leader
    ensures RemoveMember(g, target).Valid()
  {
  }

  lemma SetPasswordPreservesValid(g: Group, plain: string)
    requires g.Valid()
    ensures SetPassword(g, plain).Valid()
  {
  }

  // ---------------------------------------------------------- idempotence

  /** Accepting twice leaves the record exactly as accepting once. */
  lemma AcceptIdempotent(g: Group, actor: UserId)
    ensures Accept(Accept(g, actor), actor) == Accept(g, actor)
  {
    var once := Accept(g, actor);
    RemoveAbsent(once.invitations, actor);
  }

  /** Rejecting twice leaves the record exactly as rejecting once. */
  lemma RejectIdempotent(g: Group, actor: UserId)
    ensures Reject(Reject(g, actor), actor) == Reject(g, actor)
  {
    var once := Reject(g, actor);
    RemoveAbsent(once.invitations, actor);
  }

  /** After an accept on a valid record the caller is a member exactly once. */
  lemma AcceptMemberOnce(g: Group, actor: UserId)
    requires g.Valid()
    ensures multiset(Accept(g, actor).members)[actor] == 1
  {
    var m := Accept(g, actor).members;
    NoDupCount(m, actor);
  }

  lemma {:induction false} NoDupCount(s: seq<UserId>, x: UserId)
    requires NoDup(s) && x in s
    ensures multiset(s)[x] == 1
  {
    assert s == [s[0]] + s[1..];
    assert NoDup(s[1..]) by {
      forall i, j | 0 <= i < j < |s[1..]| ensures s[1..][i] != s[1..][j] {
        assert s[1..][i] == s[i + 1] && s[1..][j] == s[j + 1];
      }
    }
    if s[0] == x {
      assert x !in s[1..];
      assert multiset(s[1..])[x] == 0;
    } else {
      NoDupCount(s[1..], x);
    }
  }

  /** Inviting is a set union: an id already invited or already a member is
      left as it is, so inviting the same users twice changes nothing more. */
  lemma {:induction false} InviteIdempotent(g: Group, users: seq<User>)
    ensures AddInvites(AddInvites(g, users), users) == AddInvites(g, users)
  {
    var once := AddInvites(g, users);
    AddInvitesCovered(once, users);
  }

  /** Inviting users who are all already invited or members is a no-op. */
  lemma {:induction false} AddInvitesCovered(g: Group, users: seq<User>)
    requires forall v :: v in users ==> v.id in g.invitations || v.id in g.members
    ensures AddInvites(g, users) == g
    decreases |users|
  {
    if users != [] {
      var front := users[..|users| - 1];
      assert users == front + [users[|users| - 1]];
      AddInvitesCovered(g, front);
    }
  }
}
