/**
 * Group membership and roles: creating a group, inviting, leaving with a transfer of
 * ownership, and kicking.  Each request is one atomic step.
 */
module GroupMembers {
  import opened Wrappers
  import opened Collections

  const MAX_GROUP_MEMBERS: nat := 200
  const MAX_INVITE_BATCH: nat := 100
  const MAX_GROUP_NAME_LENGTH := 64

  datatype Role = Owner | Admin | Ordinary

  datatype Member = Member(user: int, role: Role, joinedAt: int)

  /** The rows of one group, in the order they were inserted. */
  type Members = seq<Member>

  datatype Outcome =
    | Created(group: int)
    | Invited(added: seq<int>)
    | Left
    | Kicked
    | InvalidRequest
    | GroupLimitExceeded
    | AccountNotFound
    | GroupNotFound
    | PermissionDenied
    | MemberAlreadyExists
    | MemberNotFound
    | NotGroupOwner
    | InternalError

  // ---------------------------------------------------------------- rows

  predicate IsMember(ms: Members, user: int) {
    exists i :: 0 <= i < |ms| && ms[i].user == user
  }

  function RoleOf(ms: Members, user: int): Option<Role> {
    if ms == [] then None
    else if ms[|ms| - 1].user == user then Some(ms[|ms| - 1].role)
    else RoleOf(ms[..|ms| - 1], user)
  }

  function Remove(ms: Members, user: int): Members {
    if ms == [] then []
    else
      var before := Remove(ms[..|ms| - 1], user);
      if ms[|ms| - 1].user == user then before else before + [ms[|ms| - 1]]
  }

  function SetRole(ms: Members, user: int, role: Role): (after: Members)
    ensures |after| == |ms|
  {
    if ms == [] then []
    else
      var last := ms[|ms| - 1];
      SetRole(ms[..|ms| - 1], user, role) + [if last.user == user then last.(role := role) else last]
  }

  /** Adds the users that are new and positive, as ordinary members, while the group is not full. */
  function AddMembers(ms: Members, users: seq<int>, now: int): Members
    decreases |users|
  {
    if users == [] then ms
    else
      var before := AddMembers(ms, users[..|users| - 1], now);
      var user := users[|users| - 1];
      if user <= 0 || IsMember(before, user) || |before| >= MAX_GROUP_MEMBERS then before
      else before + [Member(user, Ordinary, now)]
  }

  /** The ids of a request worth considering: positive, not the requester, each once. */
  function Clean(me: int, ids: seq<int>): (clean: seq<int>)
    decreases |ids|
  {
    if ids == [] then []
    else
      var before := Clean(me, ids[..|ids| - 1]);
      var id := ids[|ids| - 1];
      if id <= 0 || id == me || id in before then before else before + [id]
  }

  /** The first id that stands in the way decides; otherwise the cleaned ids. */
  datatype Screened = Refused(outcome: Outcome) | Accepted(toAdd: seq<int>)

  function Screen(ms: Members, registered: set<int>, me: int, ids: seq<int>): (screened: Screened)
    ensures screened.Refused? ==> screened.outcome in {AccountNotFound, MemberAlreadyExists, GroupLimitExceeded}
    decreases |ids|
  {
    if ids == [] then Accepted([])
    else
      match Screen(ms, registered, me, ids[..|ids| - 1])
      case Refused(outcome) => Refused(outcome)
      case Accepted(toAdd) =>
        var id := ids[|ids| - 1];
        if id <= 0 || id == me || id in toAdd then Accepted(toAdd)
        else if id !in registered then Refused(AccountNotFound)
        else if IsMember(ms, id) then Refused(MemberAlreadyExists)
        else if |ms| + |toAdd| + 1 > MAX_GROUP_MEMBERS then Refused(GroupLimitExceeded)
        else Accepted(toAdd + [id])
  }

  predicate JoinedBefore(a: Member, b: Member) {
    a.joinedAt < b.joinedAt || (a.joinedAt == b.joinedAt && a.user <= b.user)
  }

  /** The member other than `user` who joined first. */
  predicate IsSuccessor(ms: Members, user: int, i: int) {
    && 0 <= i < |ms|
    && ms[i].user != user
    && forall j | 0 <= j < |ms| && ms[j].user != user :: JoinedBefore(ms[i], ms[j])
  }

  /** A member leaves; an owner hands the group over first, if anyone is left to take it. */
  function Leave(ms: Members, user: int): Members
    requires RoleOf(ms, user).Some?
  {
    if RoleOf(ms, user) == Some(Owner) && exists i :: 0 <= i < |ms| && IsSuccessor(ms, user, i) then
      var successor := Successor(ms, user);
      Remove(SetRole(ms, ms[successor].user, Owner), user)
    else Remove(ms, user)
  }

  function Successor(ms: Members, user: int): (i: nat)
    requires exists i :: 0 <= i < |ms| && IsSuccessor(ms, user, i)
    ensures IsSuccessor(ms, user, i)
  {
    FirstSuccessor(ms, user, 0)
  }

  function FirstSuccessor(ms: Members, user: int, from: nat): (i: nat)
    requires exists i :: 0 <= i < |ms| && IsSuccessor(ms, user, i)
    requires from <= |ms| && forall i | 0 <= i < from :: !IsSuccessor(ms, user, i)
    ensures IsSuccessor(ms, user, i)
    decreases |ms| - from
  {
    if IsSuccessor(ms, user, from) then from else FirstSuccessor(ms, user, from + 1)
  }

  predicate MayKick(mine: Option<Role>, target: Role) {
    (mine == Some(Owner) && target != Owner) || (mine == Some(Admin) && target == Ordinary)
  }

  // ---------------------------------------------------------------- the tables and the handlers

  /** The members of every group, by conversation id; a group everyone left stays, empty. */
  datatype Groups = Groups(members: map<int, Members>, lastId: nat)

  class GroupTable {
    var members: map<int, Members>
    var lastId: nat

    ghost function Tables(): Groups
      reads this
    {
      Groups(members, lastId)
    }

    constructor ()
      ensures Tables() == Groups(map[], 0)
    {
      members, lastId := map[], 0;
    }

    /** Adds the users that are new; it stops once the group is full. */
    method AddGroupMembers(group: int, users: seq<int>, now: int)
      requires group in members
      modifies this`members
      ensures members == old(members)[group := AddMembers(old(members)[group], users, now)]
    {
      var ms := members[group];
      var i := 0;
      while i < |users|
        invariant 0 <= i <= |users|
        invariant ms == AddMembers(members[group], users[..i], now)
      {
        assert users[..i + 1][..i] == users[..i];
        if users[i] > 0 && !IsMember(ms, users[i]) {
          if |ms| >= MAX_GROUP_MEMBERS {
            FullStaysFull(members[group], users, i, now);
            break;
          }
          ms := ms + [Member(users[i], Ordinary, now)];
        }
        i := i + 1;
      }
      assert users[..|users|] == users;
      members := members[group := ms];
    }

    method ProcessCreateGroup(me: int, nameLength: int, ids: seq<int>, registered: set<int>, now: int)
      returns (outcome: Outcome)
      modifies this
      ensures (Tables(), outcome) == Create(old(Tables()), me, nameLength, ids, registered, now)
    {
      if nameLength <= 0 || nameLength > MAX_GROUP_NAME_LENGTH {
        return InvalidRequest;
      }
      if |ids| > MAX_INVITE_BATCH {
        return GroupLimitExceeded;
      }
      var memberIds := CleanIds(me, ids);
      if |memberIds| + 1 > MAX_GROUP_MEMBERS {
        return GroupLimitExceeded;
      }
      for i := 0 to |memberIds|
        invariant forall j | 0 <= j < i :: memberIds[j] in registered
      {
        if memberIds[i] !in registered {
          return AccountNotFound;
        }
      }
      if me <= 0 {
        return InternalError;
      }
      lastId := lastId + 1;
      CreateGroup(lastId, me, memberIds, now);
      return Created(lastId);
    }

    /** The owner comes first, and then the initial members until the group is full. */
    method CreateGroup(group: int, owner: int, users: seq<int>, now: int)
      modifies this`members
      ensures members == old(members)[group := AddMembers([Member(owner, Owner, now)], users, now)]
    {
      var first := [Member(owner, Owner, now)];
      var ms := first;
      assert first[0].user == owner;
      var added := {owner};
      var i := 0;
      while i < |users|
        invariant 0 <= i <= |users| && members == old(members)
        invariant ms == AddMembers(first, users[..i], now)
        invariant |ms| == |added| && forall id :: id in added <==> IsMember(ms, id)
      {
        assert users[..i + 1][..i] == users[..i];
        if |added| >= MAX_GROUP_MEMBERS {
          FullStaysFull(first, users, i, now);
          break;
        }
        if users[i] > 0 && users[i] !in added {
          MembersSnoc(ms, Member(users[i], Ordinary, now));
          ms := ms + [Member(users[i], Ordinary, now)];
          added := added + {users[i]};
        }
        i := i + 1;
      }
      assert users[..|users|] == users;
      members := members[group := ms];
    }

    method ProcessInvite(me: int, group: int, ids: seq<int>, registered: set<int>, now: int) returns (outcome: Outcome)
      modifies this
      ensures (Tables(), outcome) == Invite(old(Tables()), me, group, ids, registered, now)
    {
      if group <= 0 {
        return InvalidRequest;
      }
      if group !in members {
        return GroupNotFound;
      }
      if !IsMember(members[group], me) {
        return PermissionDenied;
      }
      if ids == [] {
        return InvalidRequest;
      }
      if |ids| > MAX_INVITE_BATCH {
        return GroupLimitExceeded;
      }
      var screened := ScreenIds(members[group], registered, me, ids);
      if screened.Refused? {
        return screened.outcome;
      }
      if screened.toAdd == [] {
        return InvalidRequest;
      }
      AddGroupMembers(group, screened.toAdd, now);
      return Invited(screened.toAdd);
    }

    method ProcessLeave(me: int, group: int) returns (outcome: Outcome)
      modifies this
      ensures (Tables(), outcome) == LeaveGroup(old(Tables()), me, group)
    {
      if group <= 0 {
        return InvalidRequest;
      }
      if group !in members {
        return GroupNotFound;
      }
      var role := RoleOf(members[group], me);
      if role.None? {
        return MemberNotFound;
      }
      var ms := members[group];
      if role == Some(Owner) && exists i :: 0 <= i < |ms| && IsSuccessor(ms, me, i) {
        var successor := Successor(ms, me);
        ms := SetRole(ms, ms[successor].user, Owner);
      }
      members := members[group := Remove(ms, me)];
      return Left;
    }

    method ProcessKick(me: int, group: int, target: int) returns (outcome: Outcome)
      modifies this
      ensures (Tables(), outcome) == Kick(old(Tables()), me, group, target)
    {
      if group <= 0 || target <= 0 {
        return InvalidRequest;
      }
      if group !in members {
        return GroupNotFound;
      }
      if target == me {
        return InvalidRequest;
      }
      var myRole, targetRole := RoleOf(members[group], me), RoleOf(members[group], target);
      if targetRole.None? {
        return MemberNotFound;
      }
      if !MayKick(myRole, targetRole.value) {
        return NotGroupOwner;
      }
      members := members[group := Remove(members[group], target)];
      return Kicked;
    }
  }

  method CleanIds(me: int, ids: seq<int>) returns (clean: seq<int>)
    ensures clean == Clean(me, ids)
  {
    clean := [];
    var seen: set<int> := {};
    for i := 0 to |ids|
      invariant clean == Clean(me, ids[..i])
      invariant forall id :: id in seen <==> id in clean
    {
      assert ids[..i + 1][..i] == ids[..i];
      if ids[i] > 0 && ids[i] != me && ids[i] !in seen {
        seen := seen + {ids[i]};
        clean := clean + [ids[i]];
      }
    }
    assert ids[..|ids|] == ids;
  }

  method ScreenIds(ms: Members, registered: set<int>, me: int, ids: seq<int>) returns (screened: Screened)
    ensures screened == Screen(ms, registered, me, ids)
  {
    var toAdd: seq<int> := [];
    var seen: set<int> := {};
    for i := 0 to |ids|
      invariant Screen(ms, registered, me, ids[..i]) == Accepted(toAdd)
      invariant forall id :: id in seen <==> id in toAdd
    {
      assert ids[..i + 1][..i] == ids[..i];
      var id := ids[i];
      if id > 0 && id != me && id !in seen {
        seen := seen + {id};
        if id !in registered || IsMember(ms, id) || |ms| + |toAdd| + 1 > MAX_GROUP_MEMBERS {
          RefusalStays(ms, registered, me, ids, i + 1);
          return Refused(if id !in registered then AccountNotFound
                         else if IsMember(ms, id) then MemberAlreadyExists
                         else GroupLimitExceeded);
        }
        toAdd := toAdd + [id];
      }
    }
    assert ids[..|ids|] == ids;
    return Accepted(toAdd);
  }

  lemma {:induction false} RefusalStays(ms: Members, registered: set<int>, me: int, ids: seq<int>, i: nat)
    requires i <= |ids| && Screen(ms, registered, me, ids[..i]).Refused?
    ensures Screen(ms, registered, me, ids) == Screen(ms, registered, me, ids[..i])
    decreases |ids|
  {
    if i < |ids| {
      assert ids[..|ids| - 1][..i] == ids[..i];
      RefusalStays(ms, registered, me, ids[..|ids| - 1], i);
    } else {
      assert ids[..i] == ids;
    }
  }

  lemma MembersSnoc(ms: Members, last: Member)
    ensures forall id :: IsMember(ms + [last], id) <==> IsMember(ms, id) || id == last.user
  {
    var after := ms + [last];
    forall id | IsMember(ms, id)
      ensures IsMember(after, id)
    {
      var i :| 0 <= i < |ms| && ms[i].user == id;
      assert after[i].user == id;
    }
    assert after[|ms|].user == last.user;
  }

  lemma {:induction false} FullStaysFull(ms: Members, users: seq<int>, i: nat, now: int)
    requires i <= |users| && |AddMembers(ms, users[..i], now)| >= MAX_GROUP_MEMBERS
    ensures AddMembers(ms, users, now) == AddMembers(ms, users[..i], now)
    decreases |users|
  {
    if i < |users| {
      assert users[..|users| - 1][..i] == users[..i];
      FullStaysFull(ms, users[..|users| - 1], i, now);
    } else {
      assert users[..i] == users;
    }
  }

  // ---------------------------------------------------------------- what each request does

  function Create(gs: Groups, me: int, nameLength: int, ids: seq<int>, registered: set<int>, now: int)
    : (Groups, Outcome)
  {
    if nameLength <= 0 || nameLength > MAX_GROUP_NAME_LENGTH then (gs, InvalidRequest)
    else if |ids| > MAX_INVITE_BATCH || |Clean(me, ids)| + 1 > MAX_GROUP_MEMBERS then (gs, GroupLimitExceeded)
    else if exists i :: 0 <= i < |Clean(me, ids)| && Clean(me, ids)[i] !in registered then (gs, AccountNotFound)
    else if me <= 0 then (gs, InternalError)
    else
      var group := gs.lastId + 1;
      (Groups(gs.members[group := AddMembers([Member(me, Owner, now)], Clean(me, ids), now)], group), Created(group))
  }

  function Invite(gs: Groups, me: int, group: int, ids: seq<int>, registered: set<int>, now: int): (Groups, Outcome) {
    if group <= 0 then (gs, InvalidRequest)
    else if group !in gs.members then (gs, GroupNotFound)
    else if !IsMember(gs.members[group], me) then (gs, PermissionDenied)
    else if ids == [] then (gs, InvalidRequest)
    else if |ids| > MAX_INVITE_BATCH then (gs, GroupLimitExceeded)
    else
      match Screen(gs.members[group], registered, me, ids)
      case Refused(outcome) => (gs, outcome)
      case Accepted(toAdd) =>
        if toAdd == [] then (gs, InvalidRequest)
        else (gs.(members := gs.members[group := AddMembers(gs.members[group], toAdd, now)]), Invited(toAdd))
  }

  function LeaveGroup(gs: Groups, me: int, group: int): (Groups, Outcome) {
    if group <= 0 then (gs, InvalidRequest)
    else if group !in gs.members then (gs, GroupNotFound)
    else if RoleOf(gs.members[group], me).None? then (gs, MemberNotFound)
    else (gs.(members := gs.members[group := Leave(gs.members[group], me)]), Left)
  }

  function Kick(gs: Groups, me: int, group: int, target: int): (Groups, Outcome) {
    if group <= 0 || target <= 0 then (gs, InvalidRequest)
    else if group !in gs.members then (gs, GroupNotFound)
    else if target == me then (gs, InvalidRequest)
    else
      var role := RoleOf(gs.members[group], target);
      if role.None? then (gs, MemberNotFound)
      else if !MayKick(RoleOf(gs.members[group], me), role.value) then (gs, NotGroupOwner)
      else (gs.(members := gs.members[group := Remove(gs.members[group], target)]), Kicked)
  }

  // ---------------------------------------------------------------- every reachable state

  function Owners(ms: Members): nat {
    if ms == [] then 0
    else Owners(ms[..|ms| - 1]) + if ms[|ms| - 1].role == Owner then 1 else 0
  }

  predicate NoDuplicates(ms: Members) {
    forall i, j | 0 <= i < j < |ms| :: ms[i].user != ms[j].user
  }

  predicate GroupSound(ms: Members) {
    && NoDuplicates(ms)
    && |ms| <= MAX_GROUP_MEMBERS
    && (ms != [] ==> Owners(ms) == 1)
  }

  ghost predicate Sound(gs: Groups) {
    forall g | g in gs.members :: 0 < g <= gs.lastId && GroupSound(gs.members[g])
  }

  lemma {:induction false} AddKeepsGroupSound(ms: Members, users: seq<int>, now: int)
    requires GroupSound(ms) && ms != []
    ensures GroupSound(AddMembers(ms, users, now)) && ms <= AddMembers(ms, users, now)
    decreases |users|
  {
    if users != [] {
      AddKeepsGroupSound(ms, users[..|users| - 1], now);
      var before := AddMembers(ms, users[..|users| - 1], now);
      var last := Member(users[|users| - 1], Ordinary, now);
      assert (before + [last])[..|before|] == before;
    }
  }

  lemma {:induction false} RemoveKeepsOthers(ms: Members, user: int)
    ensures |Remove(ms, user)| <= |ms|
    ensures forall m :: m in Remove(ms, user) <==> m in ms && m.user != user
    ensures NoDuplicates(ms) ==> NoDuplicates(Remove(ms, user))
  {
    if ms != [] {
      var init := ms[..|ms| - 1];
      var last := ms[|ms| - 1];
      RemoveKeepsOthers(init, user);
      assert ms == init + [last];
      if NoDuplicates(ms) && last.user != user {
        LastIsNew(Remove(init, user), init, last);
      }
    }
  }

  lemma LastIsNew(kept: Members, init: Members, last: Member)
    requires NoDuplicates(init + [last]) && NoDuplicates(kept) && forall m | m in kept :: m in init
    ensures NoDuplicates(kept + [last])
  {
    forall k | 0 <= k < |kept|
      ensures kept[k].user != last.user
    {
      assert kept[k] in init;
      var i :| 0 <= i < |init| && init[i] == kept[k];
      assert (init + [last])[i] == init[i] && (init + [last])[|init|] == last;
    }
  }

  lemma {:induction false} RemoveCountsOwners(ms: Members, user: int)
    requires NoDuplicates(ms)
    ensures Owners(Remove(ms, user)) == Owners(ms) - (if RoleOf(ms, user) == Some(Owner) then 1 else 0)
  {
    if ms != [] {
      var init := ms[..|ms| - 1];
      var last := ms[|ms| - 1];
      RemoveCountsOwners(init, user);
      if last.user == user {
        NotAMember(init, user);
      } else {
        OwnersSnoc(Remove(init, user), last);
      }
    }
  }

  lemma OwnersSnoc(ms: Members, last: Member)
    ensures Owners(ms + [last]) == Owners(ms) + if last.role == Owner then 1 else 0
  {
    assert (ms + [last])[..|ms|] == ms;
  }

  lemma {:induction false} NotAMember(ms: Members, user: int)
    requires forall i | 0 <= i < |ms| :: ms[i].user != user
    ensures RoleOf(ms, user).None? && Remove(ms, user) == ms
  {
    if ms != [] {
      NotAMember(ms[..|ms| - 1], user);
    }
  }

  lemma {:induction false} SetOwnerFacts(ms: Members, user: int)
    requires NoDuplicates(ms) && IsMember(ms, user)
    ensures var after := SetRole(ms, user, Owner);
            && |after| == |ms|
            && (forall i | 0 <= i < |ms| :: after[i] == if ms[i].user == user then ms[i].(role := Owner) else ms[i])
            && NoDuplicates(after)
            && Owners(after) == Owners(ms) + (if RoleOf(ms, user) == Some(Owner) then 0 else 1)
            && (forall other | other != user :: RoleOf(after, other) == RoleOf(ms, other))
  {
    var init := ms[..|ms| - 1];
    var last := ms[|ms| - 1];
    var after := SetRole(ms, user, Owner);
    assert after[..|ms| - 1] == SetRole(init, user, Owner);
    if last.user == user {
      SetRoleOfStranger(init, user);
    } else {
      SetOwnerFacts(init, user);
    }
  }

  lemma {:induction false} SetRoleOfStranger(ms: Members, user: int)
    requires forall i | 0 <= i < |ms| :: ms[i].user != user
    ensures SetRole(ms, user, Owner) == ms
  {
    if ms != [] {
      SetRoleOfStranger(ms[..|ms| - 1], user);
    }
  }

  lemma {:induction false} RoleMeansMember(ms: Members, user: int)
    ensures RoleOf(ms, user).Some? <==> IsMember(ms, user)
    ensures RoleOf(ms, user).Some? ==> exists m :: m in ms && m.user == user && m.role == RoleOf(ms, user).value
  {
    if ms != [] {
      var init := ms[..|ms| - 1];
      RoleMeansMember(init, user);
      assert ms[|ms| - 1] in ms;
    }
  }

  /** As long as someone else is in the group there is a first of them to take over. */
  lemma {:induction false} SuccessorExists(ms: Members, user: int)
    requires exists i :: 0 <= i < |ms| && ms[i].user != user
    ensures exists i :: 0 <= i < |ms| && IsSuccessor(ms, user, i)
  {
    var init := ms[..|ms| - 1];
    var n := |ms| - 1;
    if exists i :: 0 <= i < |init| && init[i].user != user {
      SuccessorExists(init, user);
      var i :| 0 <= i < |init| && IsSuccessor(init, user, i);
      assert forall j | 0 <= j < n :: init[j] == ms[j];
      if ms[n].user != user && !JoinedBefore(ms[i], ms[n]) {
        assert IsSuccessor(ms, user, n);
      } else {
        assert IsSuccessor(ms, user, i);
      }
    } else {
      assert forall j | 0 <= j < n :: init[j] == ms[j];
      assert IsSuccessor(ms, user, n);
    }
  }

  lemma {:induction false} OnlyOneOwner(ms: Members, user: int)
    requires NoDuplicates(ms) && Owners(ms) <= 1 && RoleOf(ms, user) == Some(Owner)
    ensures forall i | 0 <= i < |ms| && ms[i].user != user :: ms[i].role != Owner
  {
    var init := ms[..|ms| - 1];
    var last := ms[|ms| - 1];
    if last.user == user {
      NoOwners(init);
    } else {
      RoleMeansMember(init, user);
      OwnerCounts(init, user);
      OnlyOneOwner(init, user);
    }
  }

  lemma {:induction false} NoOwners(ms: Members)
    requires Owners(ms) == 0
    ensures forall i | 0 <= i < |ms| :: ms[i].role != Owner
  {
    if ms != [] {
      NoOwners(ms[..|ms| - 1]);
    }
  }

  lemma {:induction false} OwnerCounts(ms: Members, user: int)
    requires RoleOf(ms, user) == Some(Owner)
    ensures Owners(ms) >= 1
  {
    if ms[|ms| - 1].user != user {
      OwnerCounts(ms[..|ms| - 1], user);
    }
  }

  /** An owner hands over and goes: the successor is the one owner of what is left. */
  lemma TransferKeepsGroupSound(ms: Members, user: int, i: nat)
    requires GroupSound(ms) && RoleOf(ms, user) == Some(Owner) && IsSuccessor(ms, user, i)
    ensures var after := Remove(SetRole(ms, ms[i].user, Owner), user);
            GroupSound(after) && ms[i].(role := Owner) in after
  {
    var transferred := SetRole(ms, ms[i].user, Owner);
    SetOwnerFacts(ms, ms[i].user);
    OnlyOneOwner(ms, user);
    RoleMeansMember(ms, ms[i].user);
    RoleIsTheMembers(ms, i);
    RemoveKeepsOthers(transferred, user);
    RemoveCountsOwners(transferred, user);
    assert transferred[i] in transferred;
    RoleMeansMember(ms, user);
  }

  lemma {:induction false} RoleIsTheMembers(ms: Members, i: nat)
    requires NoDuplicates(ms) && i < |ms|
    ensures RoleOf(ms, ms[i].user) == Some(ms[i].role)
  {
    if i < |ms| - 1 {
      RoleIsTheMembers(ms[..|ms| - 1], i);
    }
  }

  /** Somebody else is in the group too. */
  predicate HasOthers(ms: Members, user: int) {
    exists i :: 0 <= i < |ms| && ms[i].user != user
  }

  /**
   * The others stay as they were, but for the one that is the owner now: the first to join, or
   * the one with the smallest id if several joined at once.
   */
  ghost predicate Inherits(ms: Members, user: int, i: int, after: Members) {
    && 0 <= i < |ms| && ms[i].user != user
    && (forall m | m in ms && m.user != user ::
          ms[i].joinedAt < m.joinedAt || (ms[i].joinedAt == m.joinedAt && ms[i].user <= m.user))
    && forall m :: m in after <==> m == ms[i].(role := Owner) || (m in ms && m.user != user && m != ms[i])
  }

  /**
   * Leaving keeps the group sound and takes out nobody but the member.  The others keep their
   * roles, except that the one who joined first takes over from an owner who leaves.
   */
  lemma {:induction false} LeaveKeepsGroupSound(ms: Members, user: int)
    requires GroupSound(ms) && RoleOf(ms, user).Some?
    ensures GroupSound(Leave(ms, user))
    ensures !IsMember(Leave(ms, user), user)
    ensures RoleOf(ms, user) != Some(Owner) ==> forall m :: m in Leave(ms, user) <==> m in ms && m.user != user
    ensures RoleOf(ms, user) == Some(Owner) && HasOthers(ms, user) ==>
              exists i :: Inherits(ms, user, i, Leave(ms, user))
    ensures !HasOthers(ms, user) ==> Leave(ms, user) == []
  {
    hide Owners, SetRole, Remove, JoinedBefore, RoleOf, GroupSound;
    if HasOthers(ms, user) {
      SuccessorExists(ms, user);
    }
    if RoleOf(ms, user) == Some(Owner) && exists i :: 0 <= i < |ms| && IsSuccessor(ms, user, i) {
      var i := Successor(ms, user);
      TransferKeepsGroupSound(ms, user, i);
      TransferInherits(ms, user, i);
      NobodyLeft(SetRole(ms, ms[i].user, Owner), user);
    } else {
      RemoveKeepsGroupSound(ms, user);
      NobodyLeft(ms, user);
      RemoveKeepsOthers(ms, user);
      if Remove(ms, user) != [] {
        assert Remove(ms, user)[0] in ms;
      }
    }
  }

  /** Taking out anyone but the owner, or the last member, keeps the group sound. */
  lemma RemoveKeepsGroupSound(ms: Members, user: int)
    requires GroupSound(ms) && RoleOf(ms, user).Some?
    requires RoleOf(ms, user) == Some(Owner) ==> !HasOthers(ms, user)
    ensures GroupSound(Remove(ms, user))
  {
    RemoveKeepsOthers(ms, user);
    RemoveCountsOwners(ms, user);
    if Remove(ms, user) != [] {
      assert Remove(ms, user)[0] in ms;
    }
  }

  lemma TransferInherits(ms: Members, user: int, i: nat)
    requires GroupSound(ms) && IsSuccessor(ms, user, i)
    ensures Inherits(ms, user, i, Remove(SetRole(ms, ms[i].user, Owner), user))
  {
    hide SetRole, Remove, Owners, RoleOf;
    var transferred := SetRole(ms, ms[i].user, Owner);
    SetOwnerFacts(ms, ms[i].user);
    RemoveKeepsOthers(transferred, user);
    assert transferred[i] in transferred;
    forall m | m in ms && m.user != user
      ensures JoinedBefore(ms[i], m)
    {
      var j :| 0 <= j < |ms| && ms[j] == m;
    }
    forall m | m in ms && m != ms[i]
      ensures m in transferred
    {
      var j :| 0 <= j < |ms| && ms[j] == m;
      assert transferred[j] == m;
    }
  }

  lemma NobodyLeft(ms: Members, user: int)
    ensures !IsMember(Remove(ms, user), user)
  {
    RemoveKeepsOthers(ms, user);
    var after := Remove(ms, user);
    forall j | 0 <= j < |after|
      ensures after[j].user != user
    {
      assert after[j] in after;
    }
  }

  /** A permitted kick takes out the target and nobody else. */
  lemma {:induction false} KickKeepsGroupSound(ms: Members, me: int, target: int)
    requires GroupSound(ms) && RoleOf(ms, target).Some? && MayKick(RoleOf(ms, me), RoleOf(ms, target).value)
    ensures forall m :: m in Remove(ms, target) <==> m in ms && m.user != target
    ensures !IsMember(Remove(ms, target), target)
    ensures GroupSound(Remove(ms, target))
  {
    NobodyLeft(ms, target);
    RemoveKeepsOthers(ms, target);
    RemoveCountsOwners(ms, target);
  }

  // ---------------------------------------------------------------- an accepted invitation adds everyone

  lemma {:induction false} CleanFacts(me: int, ids: seq<int>)
    ensures var clean := Clean(me, ids);
            && |clean| <= |ids|
            && (forall i, j | 0 <= i < j < |clean| :: clean[i] != clean[j])
            && (forall id :: id in clean <==> id in ids && id > 0 && id != me)
    decreases |ids|
  {
    if ids != [] {
      CleanFacts(me, ids[..|ids| - 1]);
      assert ids == ids[..|ids| - 1] + [ids[|ids| - 1]];
    }
  }

  /** Screening passes exactly when every cleaned id is an account, none is a member, and all fit. */
  lemma {:induction false} ScreenExactly(ms: Members, registered: set<int>, me: int, ids: seq<int>)
    ensures Screen(ms, registered, me, ids) == Accepted(Clean(me, ids)) || Screen(ms, registered, me, ids).Refused?
    ensures Screen(ms, registered, me, ids).Accepted? <==>
              var clean := Clean(me, ids);
              && (forall id | id in clean :: id in registered && !IsMember(ms, id))
              && (clean != [] ==> |ms| + |clean| <= MAX_GROUP_MEMBERS)
    decreases |ids|
  {
    if ids != [] {
      ScreenExactly(ms, registered, me, ids[..|ids| - 1]);
      assert forall id | id in Clean(me, ids[..|ids| - 1]) :: id in Clean(me, ids);
      var id := ids[|ids| - 1];
      if Clean(me, ids) != Clean(me, ids[..|ids| - 1]) {
        assert id in Clean(me, ids);
      }
    }
  }

  function AsMembers(users: seq<int>, now: int): Members {
    seq(|users|, i requires 0 <= i < |users| => Member(users[i], Ordinary, now))
  }

  lemma {:induction false} AllAdded(ms: Members, users: seq<int>, now: int)
    requires forall i, j | 0 <= i < j < |users| :: users[i] != users[j]
    requires forall id | id in users :: id > 0 && !IsMember(ms, id)
    requires |ms| + |users| <= MAX_GROUP_MEMBERS
    ensures AddMembers(ms, users, now) == ms + AsMembers(users, now)
    decreases |users|
  {
    if users != [] {
      var init := users[..|users| - 1];
      assert forall id | id in init :: id in users;
      AllAdded(ms, init, now);
      assert AsMembers(users, now) == AsMembers(init, now) + [Member(users[|users| - 1], Ordinary, now)];
      assert users[|users| - 1] in users;
      var before := ms + AsMembers(init, now);
      assert !IsMember(before, users[|users| - 1]);
    }
  }

  /** Whoever is in the group after adding was in it before, or is a new user, as an ordinary member from now on. */
  lemma {:induction false} AddsOnlyNewUsers(ms: Members, users: seq<int>, now: int)
    ensures ms <= AddMembers(ms, users, now)
    ensures forall m | m in AddMembers(ms, users, now)[|ms|..] ::
              m.role == Ordinary && m.joinedAt == now && m.user > 0 && m.user in users && !IsMember(ms, m.user)
    decreases |users|
  {
    if users != [] {
      AddsOnlyNewUsers(ms, users[..|users| - 1], now);
      var before, after := AddMembers(ms, users[..|users| - 1], now), AddMembers(ms, users, now);
      var user := users[|users| - 1];
      if after != before {
        assert after[|ms|..] == before[|ms|..] + [Member(user, Ordinary, now)];
        assert forall i | 0 <= i < |ms| :: before[i] == ms[i];
      }
    }
  }

  /** An invitation answered Ok added every cleaned id: the database's own limit is never reached. */
  lemma {:induction false} InviteAddsAll(gs: Groups, me: int, group: int, ids: seq<int>, registered: set<int>, now: int)
    requires Sound(gs) && Invite(gs, me, group, ids, registered, now).1.Invited?
    ensures var (after, outcome) := Invite(gs, me, group, ids, registered, now);
            && outcome == Invited(Clean(me, ids))
            && after.members == gs.members[group := gs.members[group] + AsMembers(Clean(me, ids), now)]
  {
    CleanFacts(me, ids);
    ScreenExactly(gs.members[group], registered, me, ids);
    assert forall id | id in Clean(me, ids) :: id > 0 && !IsMember(gs.members[group], id);
    AllAdded(gs.members[group], Clean(me, ids), now);
  }

  /** And so does group creation: no initial member is cut off. */
  lemma CreateAddsAll(gs: Groups, me: int, nameLength: int, ids: seq<int>, registered: set<int>, now: int)
    requires Create(gs, me, nameLength, ids, registered, now).1.Created?
    ensures Create(gs, me, nameLength, ids, registered, now).0.members ==
            gs.members[gs.lastId + 1 := [Member(me, Owner, now)] + AsMembers(Clean(me, ids), now)]
  {
    CleanFacts(me, ids);
    AllAdded([Member(me, Owner, now)], Clean(me, ids), now);
  }

  // ---------------------------------------------------------------- who may do what

  function Rank(role: Role): nat {
    match role
    case Owner => 2
    case Admin => 1
    case Ordinary => 0
  }

  /** The first of the two users ranks above the second in the group. */
  predicate RanksAbove(ms: Members, me: int, target: int) {
    exists a, b :: a in ms && b in ms && a.user == me && b.user == target && Rank(a.role) > Rank(b.role)
  }

  lemma RolesRank(ms: Members, me: int, target: int)
    requires NoDuplicates(ms)
    ensures RoleOf(ms, target).Some? && MayKick(RoleOf(ms, me), RoleOf(ms, target).value) <==>
            RanksAbove(ms, me, target)
  {
    hide RoleOf;
    RoleMeansMember(ms, me);
    RoleMeansMember(ms, target);
    forall m | m in ms
      ensures RoleOf(ms, m.user) == Some(m.role)
    {
      var i :| 0 <= i < |ms| && ms[i] == m;
      RoleIsTheMembers(ms, i);
    }
  }

  /**
   * A member is kicked exactly if another one of higher rank asks for it: admins by the owner,
   * ordinary members by both.  Then the target is gone from this group; otherwise nothing is
   * changed anywhere.
   */
  lemma {:induction false} KickedExactly(gs: Groups, me: int, group: int, target: int)
    requires Sound(gs)
    ensures var (after, outcome) := Kick(gs, me, group, target);
            && (outcome.Kicked? <==> target > 0 && group in gs.members && RanksAbove(gs.members[group], me, target))
            && (outcome.InvalidRequest? <==> group <= 0 || target <= 0 || (group in gs.members && target == me))
            && (outcome.GroupNotFound? <==> group > 0 && target > 0 && group !in gs.members)
            && (outcome.MemberNotFound? <==>
                  target > 0 && target != me && group in gs.members && !IsMember(gs.members[group], target))
            && if outcome.Kicked? then
                 && after == gs.(members := gs.members[group := Remove(gs.members[group], target)])
                 && forall m :: m in after.members[group] <==> m in gs.members[group] && m.user != target
               else after == gs
  {
    hide RoleOf, Remove, MayKick, Owners, RanksAbove;
    if group in gs.members {
      var ms := gs.members[group];
      RolesRank(ms, me, target);
      RoleMeansMember(ms, target);
      RemoveKeepsOthers(ms, target);
      NobodyOutranksThemselves(ms, me);
    }
  }

  lemma NobodyOutranksThemselves(ms: Members, user: int)
    requires NoDuplicates(ms)
    ensures !RanksAbove(ms, user, user)
  {
  }

  /** A member leaves exactly if there is one to leave; nothing else changes. */
  lemma LeftExactly(gs: Groups, me: int, group: int)
    requires Sound(gs)
    ensures var (after, outcome) := LeaveGroup(gs, me, group);
            && (outcome.Left? <==> group in gs.members && IsMember(gs.members[group], me))
            && (outcome.MemberNotFound? <==> group in gs.members && !IsMember(gs.members[group], me))
            && (outcome.GroupNotFound? <==> group > 0 && group !in gs.members)
            && (outcome.InvalidRequest? <==> group <= 0)
            && (!outcome.Left? ==> after == gs)
            && (outcome.Left? ==>
                  && RoleOf(gs.members[group], me).Some?
                  && after == gs.(members := gs.members[group := Leave(gs.members[group], me)]))
  {
    if group in gs.members {
      RoleMeansMember(gs.members[group], me);
    }
  }

  /** The users a request is about. */
  function Newcomers(me: int, ids: seq<int>): set<int> {
    set id | id in ids && id > 0 && id != me
  }

  lemma {:induction false} CleanedAreNewcomers(me: int, ids: seq<int>)
    ensures forall id :: id in Clean(me, ids) <==> id in Newcomers(me, ids)
    ensures |Clean(me, ids)| == |Newcomers(me, ids)|
    decreases |ids|
  {
    if ids != [] {
      var init, id := ids[..|ids| - 1], ids[|ids| - 1];
      CleanedAreNewcomers(me, init);
      assert ids == init + [id];
      assert Newcomers(me, ids) == Newcomers(me, init) + if id > 0 && id != me then {id} else {};
    } else {
      assert Newcomers(me, ids) == {};
    }
  }

  /** Why a screening refuses: somebody is unknown, or in the group already, or there is no room for all. */
  lemma {:induction false} RefusalHasAReason(ms: Members, registered: set<int>, me: int, ids: seq<int>)
    ensures Screen(ms, registered, me, ids).Refused? ==>
              var newcomers := Newcomers(me, ids);
              match Screen(ms, registered, me, ids).outcome
              case AccountNotFound => exists id :: id in newcomers && id !in registered
              case MemberAlreadyExists => exists id :: id in newcomers && IsMember(ms, id)
              case _ => |ms| + |newcomers| > 200
    decreases |ids|
  {
    hide IsMember;
    if ids != [] {
      var init, id := ids[..|ids| - 1], ids[|ids| - 1];
      RefusalHasAReason(ms, registered, me, init);
      ScreenExactly(ms, registered, me, init);
      CleanedAreNewcomers(me, init);
      CleanedAreNewcomers(me, ids);
      assert ids == init + [id];
      assert Newcomers(me, init) <= Newcomers(me, ids);
      SubsetSize(Newcomers(me, init), Newcomers(me, ids));
      if Screen(ms, registered, me, init).Accepted? && Screen(ms, registered, me, ids).Refused? {
        assert id in Newcomers(me, ids);
        assert Clean(me, ids) == Clean(me, init) + [id];
      }
    }
  }

  /** The reason for each refusal of an invitation; whether there is a group and a member comes first. */
  lemma {:induction false} InvitationRefused(gs: Groups, me: int, group: int, ids: seq<int>, registered: set<int>,
                                             now: int)
    requires Sound(gs)
    ensures var outcome := Invite(gs, me, group, ids, registered, now).1;
            var newcomers := Newcomers(me, ids);
            && (outcome.GroupNotFound? <==> group > 0 && group !in gs.members)
            && (outcome.PermissionDenied? <==> group in gs.members && !IsMember(gs.members[group], me))
            && (outcome.InvalidRequest? <==>
                  group <= 0
                  || (group in gs.members && IsMember(gs.members[group], me) && |ids| <= 100 && newcomers == {}))
            && (outcome.AccountNotFound? ==> exists id :: id in newcomers && id !in registered)
            && (outcome.MemberAlreadyExists? ==>
                  group in gs.members && exists id :: id in newcomers && IsMember(gs.members[group], id))
            && (outcome.GroupLimitExceeded? ==>
                  |ids| > 100 || (group in gs.members && |gs.members[group]| + |newcomers| > 200))
  {
    hide Screen, Clean, AddMembers, IsMember;
    CleanedAreNewcomers(me, ids);
    if group in gs.members {
      ScreenExactly(gs.members[group], registered, me, ids);
      RefusalHasAReason(gs.members[group], registered, me, ids);
      assert Newcomers(me, ids) == {} <==> |Newcomers(me, ids)| == 0;
      assert ids == [] ==> Newcomers(me, ids) == {};
    }
  }

  /**
   * Any member may invite, and an invitation is accepted exactly if it names at most a hundred
   * ids, among them somebody new, if everybody it names is registered and not in the group, and
   * if there is room for all.  An invitation that is not accepted changes nothing.
   */
  lemma {:induction false} InvitedExactly(gs: Groups, me: int, group: int, ids: seq<int>, registered: set<int>,
                                          now: int)
    requires Sound(gs)
    ensures var (after, outcome) := Invite(gs, me, group, ids, registered, now);
            var newcomers := Newcomers(me, ids);
            && (outcome.Invited? <==>
                  && group in gs.members && IsMember(gs.members[group], me)
                  && |ids| <= 100 && newcomers != {}
                  && (forall id | id in newcomers :: id in registered && !IsMember(gs.members[group], id))
                  && |gs.members[group]| + |newcomers| <= 200)
            && (!outcome.Invited? ==> after == gs)
  {
    hide Screen, Clean, AddMembers;
    CleanedAreNewcomers(me, ids);
    if group in gs.members {
      ScreenExactly(gs.members[group], registered, me, ids);
      if ids == [] {
        assert Newcomers(me, ids) == {};
      }
      assert Newcomers(me, ids) == {} <==> |Newcomers(me, ids)| == 0;
    }
  }

  /** Who may create a group, and with whom: the limit on the ids keeps it within the member limit. */
  lemma {:induction false} CreatedExactly(gs: Groups, me: int, nameLength: int, ids: seq<int>, registered: set<int>,
                                          now: int)
    ensures var (after, outcome) := Create(gs, me, nameLength, ids, registered, now);
            && (outcome.Created? <==>
                  me > 0 && 0 < nameLength <= 64 && |ids| <= 100 && Newcomers(me, ids) <= registered)
            && (outcome.Created? ==> outcome.group == gs.lastId + 1 == after.lastId)
            && (outcome.InvalidRequest? <==> nameLength <= 0 || nameLength > 64)
            && (outcome.GroupLimitExceeded? <==> 0 < nameLength <= 64 && |ids| > 100)
            && (outcome.AccountNotFound? <==>
                  0 < nameLength <= 64 && |ids| <= 100 && !(Newcomers(me, ids) <= registered))
            && (!outcome.Created? ==> after == gs)
  {
    hide Clean, AddMembers;
    CleanFacts(me, ids);
    CleanedAreNewcomers(me, ids);
    assert forall id | id in Newcomers(me, ids) :: id in Clean(me, ids);
  }

  // ---------------------------------------------------------------- runs

  /** Accounts are only ever added, so each request names the set registered at its time. */
  datatype Step =
    | CreateStep(me: int, nameLength: int, ids: seq<int>, registered: set<int>, now: int)
    | InviteStep(me: int, group: int, ids: seq<int>, registered: set<int>, now: int)
    | LeaveStep(me: int, group: int)
    | KickStep(me: int, group: int, target: int)

  function Apply(gs: Groups, step: Step): Groups {
    match step
    case CreateStep(me, nameLength, ids, registered, now) => Create(gs, me, nameLength, ids, registered, now).0
    case InviteStep(me, group, ids, registered, now) => Invite(gs, me, group, ids, registered, now).0
    case LeaveStep(me, group) => LeaveGroup(gs, me, group).0
    case KickStep(me, group, target) => Kick(gs, me, group, target).0
  }

  function After(steps: seq<Step>): Groups {
    if steps == [] then Groups(map[], 0) else Apply(After(steps[..|steps| - 1]), steps[|steps| - 1])
  }

  lemma StepKeepsSound(gs: Groups, step: Step)
    requires Sound(gs)
    ensures Sound(Apply(gs, step))
  {
    match step
    case CreateStep(me, nameLength, ids, registered, now) =>
      hide AddMembers, Clean;
      AddKeepsGroupSound([Member(me, Owner, now)], Clean(me, ids), now);
    case InviteStep(me, group, ids, registered, now) =>
      hide AddMembers, GroupSound;
      if Invite(gs, me, group, ids, registered, now).1.Invited? {
        var screened := Screen(gs.members[group], registered, me, ids);
        assert screened.Accepted?;
        AddKeepsGroupSound(gs.members[group], screened.toAdd, now);
      }
    case LeaveStep(me, group) =>
      hide Leave, GroupSound;
      if LeaveGroup(gs, me, group).1.Left? {
        LeaveKeepsGroupSound(gs.members[group], me);
      }
    case KickStep(me, group, target) =>
      hide Remove, GroupSound;
      if Kick(gs, me, group, target).1.Kicked? {
        KickKeepsGroupSound(gs.members[group], me, target);
      }
  }

  /**
   * In every reachable state each group with members has exactly one owner, nobody twice,
   * and no more members than the limit.
   */
  lemma {:induction false} OneOwnerAlways(steps: seq<Step>)
    ensures Sound(After(steps))
  {
    if steps != [] {
      hide Sound, Apply;
      OneOwnerAlways(steps[..|steps| - 1]);
      StepKeepsSound(After(steps[..|steps| - 1]), steps[|steps| - 1]);
    } else {
      assert Sound(After([]));
    }
  }
}
