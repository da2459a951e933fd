/** RoomService: creating, listing, viewing, joining, leaving and deleting
    counselling rooms. Every operation receives the caller's id explicitly. */
module RoomService {

  import opened Common
  import opened Seqs
  import opened DbtCard
  import opened InviteCode
  import opened Store

  /** The RoomResponse fields filled by createRoom and getRooms. */
  datatype RoomSummary = RoomSummary(
    roomId: Id, name: string, inviteCode: string, createdAt: Time, createdBy: Id,
    clientCount: nat, joinedAt: Option<Time>)

  datatype UserInfo = UserInfo(userId: Id, name: string, email: string)

  datatype ClientInfo = ClientInfo(userId: Id, name: string, email: string, joinedAt: Time)

  /** The RoomResponse fields filled by getRoomDetail. */
  datatype RoomDetail = RoomDetail(
    roomId: Id, name: string, inviteCode: string, createdAt: Time,
    createdByInfo: UserInfo, clients: seq<ClientInfo>)

  /** The RoomResponse fields filled by joinRoom. */
  datatype JoinedRoom = JoinedRoom(roomId: Id, name: string, joinedAt: Time)

  // ---------------------------------------------------------------------------
  // Integrity of the tables under the room operations

  /** Adding a room with fresh keys together with its creator's membership keeps
      every constraint of the store. */
  lemma AddRoomWellFormed(db: Db, room: Room, joinedAt: Time)
    requires WellFormed(db)
    requires room.roomId !in RoomIds(db.rooms) && room.inviteCode !in InviteCodes(db.rooms)
    requires IsInviteCode(room.inviteCode) && room.createdBy in db.users
    ensures WellFormed(Db(db.users, db.rooms + [room], db.members + [Member(room.roomId, room.createdBy, joinedAt)], db.cards))
  {
    var m := Member(room.roomId, room.createdBy, joinedAt);
    RoomIdsAppend(db.rooms, room);
    AddRoomRows(db, room, m);
    AppendDistinct(db.rooms, RoomIdOf, room);
    AppendDistinct(db.rooms, InviteCodeOf, room);
    forall x | x in db.members ensures MemberKeyOf(x) != MemberKeyOf(m) {
      assert x.roomId in RoomIds(db.rooms);
    }
    AppendDistinct(db.members, MemberKeyOf, m);
  }

  /** The room ids after appending a room. */
  lemma RoomIdsAppend(rooms: seq<Room>, room: Room)
    ensures RoomIds(rooms + [room]) == RoomIds(rooms) + {room.roomId}
  {
    var r := rooms + [room];
    assert room in r;
    forall id | id in RoomIds(rooms) ensures id in RoomIds(r) {
      var x :| x in rooms && RoomIdOf(x) == id;
      assert x in r;
    }
  }

  /** Every room of the extended table has a known creator who is a member. */
  lemma AddRoomRows(db: Db, room: Room, m: Member)
    requires forall r :: r in db.rooms ==>
      r.createdBy in db.users && IsInviteCode(r.inviteCode) && IsMember(db.members, r.roomId, r.createdBy)
    requires IsInviteCode(room.inviteCode) && room.createdBy in db.users
    requires m == Member(room.roomId, room.createdBy, m.joinedAt)
    ensures forall r :: r in db.rooms + [room] ==>
      r.createdBy in db.users && IsInviteCode(r.inviteCode) && IsMember(db.members + [m], r.roomId, r.createdBy)
  {
    forall r | r in db.rooms + [room]
      ensures r.createdBy in db.users && IsInviteCode(r.inviteCode) && IsMember(db.members + [m], r.roomId, r.createdBy)
    {
      if r == room {
        assert m in db.members + [m];
      } else {
        var w := FindMember(db.members, r.roomId, r.createdBy).value;
        assert w in db.members + [m];
      }
    }
  }

  /** Adding the membership of an existing user to an existing room, which the
      user does not belong to yet, keeps every constraint of the store. */
  lemma AddMemberWellFormed(db: Db, m: Member)
    requires WellFormed(db)
    requires m.roomId in RoomIds(db.rooms) && m.userId in db.users
    requires !IsMember(db.members, m.roomId, m.userId)
    ensures WellFormed(Db(db.users, db.rooms, db.members + [m], db.cards))
  {
    var db' := Db(db.users, db.rooms, db.members + [m], db.cards);
    AppendDistinct(db.members, MemberKeyOf, m);
    forall r | r in db'.rooms ensures IsMember(db'.members, r.roomId, r.createdBy) {
      var w := FindMember(db.members, r.roomId, r.createdBy).value;
      assert w in db'.members;
    }
  }

  /** Removing one membership that is not the creator's keeps every constraint. */
  lemma RemoveMemberWellFormed(db: Db, roomId: Id, userId: Id)
    requires WellFormed(db)
    requires forall r :: r in db.rooms && r.roomId == roomId ==> r.createdBy != userId
    ensures WellFormed(Db(db.users, db.rooms, MembersWithout(db.members, roomId, userId), db.cards))
  {
    var ms := MembersWithout(db.members, roomId, userId);
    FilterDistinct(db.members, (m: Member) => !(m.roomId == roomId && m.userId == userId), MemberKeyOf);
    forall r | r in db.rooms ensures IsMember(ms, r.roomId, r.createdBy) {
      var w := FindMember(db.members, r.roomId, r.createdBy).value;
      assert w in ms;
    }
  }

  // ---------------------------------------------------------------------------
  // createRoom

  /** A room just opened by a counselor has no client among its members. */
  lemma NewRoomHasNoClients(db: Db, room: Room)
    requires MembersOk(db)
    requires room.roomId !in RoomIds(db.rooms)
    requires room.createdBy in db.users && db.users[room.createdBy].role == Counselor
    ensures ClientMembersOf(Db(db.users, db.rooms + [room], db.members + [Member(room.roomId, room.createdBy, room.createdAt)], db.cards), room.roomId) == []
  {
    var db' := Db(db.users, db.rooms + [room], db.members + [Member(room.roomId, room.createdBy, room.createdAt)], db.cards);
    forall m | m in db'.members ensures !IsClientMember(db', room.roomId)(m) {
      if m in db.members {
        assert m.roomId in RoomIds(db.rooms);
      }
    }
    FilterNone(db'.members, IsClientMember(db', room.roomId));
  }

  /** Saves a new room whose keys are fresh, with its creator as first member. */
  method Open(store: Store, room: Room)
    requires store.Valid()
    requires room.roomId !in RoomIds(store.rooms) && room.inviteCode !in InviteCodes(store.rooms)
    requires IsInviteCode(room.inviteCode)
    requires room.createdBy in store.users && store.users[room.createdBy].role == Counselor
    modifies store
    ensures store.Valid()
    ensures store.Snapshot() == old(store.Snapshot()).(
      rooms := old(store.rooms) + [room],
      members := old(store.members) + [Member(room.roomId, room.createdBy, room.createdAt)])
    ensures ClientMembersOf(store.Snapshot(), room.roomId) == []
  {
    ghost var db := store.Snapshot();
    AddRoomWellFormed(db, room, room.createdAt);
    store.rooms := store.rooms + [room];
    store.members := store.members + [Member(room.roomId, room.createdBy, room.createdAt)];
    assert store.Snapshot() == Db(db.users, db.rooms + [room], db.members + [Member(room.roomId, room.createdBy, room.createdAt)], db.cards);
    NewRoomHasNoClients(db, room);
  }

  /** createRoom: only a counselor may create a room. The room gets the fresh id,
      a fresh invite code and the caller as creator; the creator is enrolled as
      its first member. Nothing changes on an error. */
  method CreateRoom(store: Store, caller: Id, name: string, roomId: Id, now: Time, attempts: seq<seq<nat>>)
    returns (r: Result<RoomSummary>)
    requires store.Valid()
    requires roomId !in RoomIds(store.rooms)
    requires ValidAttempts(attempts) && SomeAttemptFresh(attempts, InviteCodes(store.rooms))
    modifies store
    ensures store.Valid()
    ensures store.users == old(store.users) && store.cards == old(store.cards)
    ensures caller !in old(store.users) ==> r == Err(UserNotFound)
    ensures caller in old(store.users) && old(store.users)[caller].role != Counselor ==> r == Err(Forbidden)
    ensures r.Ok? <==> caller in old(store.users) && old(store.users)[caller].role == Counselor
    ensures r.Err? ==> store.rooms == old(store.rooms) && store.members == old(store.members)
    ensures r.Ok? ==>
      && IsInviteCode(r.value.inviteCode)
      && r.value.inviteCode !in InviteCodes(old(store.rooms))
      && (exists k :: 0 <= k < |attempts| && CodeOf(attempts[k]) == r.value.inviteCode)
      && store.rooms == old(store.rooms) + [Room(roomId, name, r.value.inviteCode, caller, now)]
      && store.members == old(store.members) + [Member(roomId, caller, now)]
      && r.value == RoomSummary(roomId, name, r.value.inviteCode, now, caller, 0, None)
      && ClientMembersOf(store.Snapshot(), roomId) == []
  {
    if caller !in store.users {
      return Err(UserNotFound);
    }
    var user := store.users[caller];
    if user.role != Counselor {
      return Err(Forbidden);
    }
    var code, discarded := GenerateInviteCode(InviteCodes(store.rooms), attempts);
    Open(store, Room(roomId, name, code, caller, now));
    return Ok(RoomSummary(roomId, name, code, now, caller, 0, None));
  }

  // ---------------------------------------------------------------------------
  // getRooms

  /** The rooms a caller sees, listed by getRooms and opened by getRoomDetail:
      those the counselor created, or those the client belongs to. */
  predicate Visible(db: Db, caller: Id, room: Room)
    requires caller in db.users
  {
    match db.users[caller].role
    case Counselor => room.createdBy == caller
    case Client => IsMember(db.members, room.roomId, caller)
  }

  /** The response built for one room: its columns, its number of client-role
      members, and the caller's own joinedAt if the caller belongs to the room. */
  function SummaryOf(db: Db, caller: Id, room: Room): (s: RoomSummary)
    ensures s.roomId == room.roomId && s.name == room.name && s.inviteCode == room.inviteCode
    ensures s.createdAt == room.createdAt && s.createdBy == room.createdBy
    ensures s.clientCount == |ClientMembersOf(db, room.roomId)|
    ensures s.joinedAt.Some? <==> IsMember(db.members, room.roomId, caller)
    ensures s.joinedAt.Some? ==> s.joinedAt.value == FindMember(db.members, room.roomId, caller).value.joinedAt
  {
    var joined := match FindMember(db.members, room.roomId, caller)
      case Some(m) => Some(m.joinedAt)
      case None => None;
    RoomSummary(room.roomId, room.name, room.inviteCode, room.createdAt, room.createdBy,
                |ClientMembersOf(db, room.roomId)|, joined)
  }

  function Summaries(db: Db, caller: Id, rooms: seq<Room>): (r: seq<RoomSummary>)
    ensures |r| == |rooms|
    ensures forall i :: 0 <= i < |rooms| ==> r[i] == SummaryOf(db, caller, rooms[i])
  {
    seq(|rooms|, i requires 0 <= i < |rooms| => SummaryOf(db, caller, rooms[i]))
  }

  /** The rooms getRooms selects for the caller's role, in table order, each once. */
  function ListedRooms(db: Db, caller: Id): (rooms: seq<Room>)
    requires WellFormed(db) && caller in db.users
    ensures forall x :: x in rooms <==> x in db.rooms && Visible(db, caller, x)
    ensures DistinctBy(rooms, RoomIdOf)
  {
    match db.users[caller].role
    case Counselor =>
      FilterDistinct(db.rooms, (x: Room) => x.createdBy == caller, RoomIdOf);
      RoomsCreatedBy(db.rooms, caller)
    case Client =>
      FilterDistinct(db.rooms, (x: Room) => IsMember(db.members, x.roomId, caller), RoomIdOf);
      RoomsJoinedBy(db.rooms, db.members, caller)
  }

  /** Summaries of distinct rooms of the table list exactly those rooms. */
  lemma SummariesList(db: Db, caller: Id, rooms: seq<Room>)
    requires DistinctBy(db.rooms, RoomIdOf)
    requires forall x :: x in rooms ==> x in db.rooms
    ensures var out := Summaries(db, caller, rooms);
      forall room :: room in db.rooms ==> ((exists s :: s in out && s.roomId == room.roomId) <==> room in rooms)
  {
    var out := Summaries(db, caller, rooms);
    forall room | room in db.rooms
      ensures (exists s :: s in out && s.roomId == room.roomId) <==> room in rooms
    {
      if room in rooms {
        var i :| 0 <= i < |rooms| && rooms[i] == room;
        assert out[i] in out;
      }
      if s :| s in out && s.roomId == room.roomId {
        var i :| 0 <= i < |out| && out[i] == s;
        assert rooms[i] in db.rooms;
        DistinctByUnique(db.rooms, RoomIdOf, rooms[i], room);
      }
    }
  }

  /** Each summary of rooms of the table carries the columns of its room. */
  lemma SummariesMatchRooms(db: Db, caller: Id, rooms: seq<Room>)
    requires WellFormed(db)
    requires forall x :: x in rooms ==> x in db.rooms
    ensures var out := Summaries(db, caller, rooms);
      forall s :: s in out ==> FindRoom(db.rooms, s.roomId).Some? && s == SummaryOf(db, caller, FindRoom(db.rooms, s.roomId).value)
  {
    var out := Summaries(db, caller, rooms);
    forall s | s in out
      ensures FindRoom(db.rooms, s.roomId).Some? && s == SummaryOf(db, caller, FindRoom(db.rooms, s.roomId).value)
    {
      var i :| 0 <= i < |out| && out[i] == s;
      assert rooms[i] in db.rooms;
      FindRoomExact(db, rooms[i]);
    }
  }

  /** getRooms: the rooms visible to the caller's role, each once, each with the
      room's columns, its client count and the caller's joinedAt. */
  function GetRooms(db: Db, caller: Id): (r: Result<seq<RoomSummary>>)
    requires WellFormed(db)
    ensures r.Err? <==> caller !in db.users
    ensures r.Err? ==> r.error == UserNotFound
    ensures r.Ok? ==> forall room :: room in db.rooms ==>
      ((exists s :: s in r.value && s.roomId == room.roomId) <==> Visible(db, caller, room))
    ensures r.Ok? ==> forall i, j :: 0 <= i < j < |r.value| ==> r.value[i].roomId != r.value[j].roomId
    ensures r.Ok? ==> forall s :: s in r.value ==>
      && FindRoom(db.rooms, s.roomId).Some?
      && var room := FindRoom(db.rooms, s.roomId).value;
      && s.name == room.name && s.inviteCode == room.inviteCode
      && s.createdAt == room.createdAt && s.createdBy == room.createdBy
      && s.clientCount == |ClientMembersOf(db, s.roomId)|
      && (s.joinedAt.Some? <==> IsMember(db.members, s.roomId, caller))
      && (s.joinedAt.Some? ==> s.joinedAt.value == FindMember(db.members, s.roomId, caller).value.joinedAt)
      && s == SummaryOf(db, caller, room)
  {
    if caller !in db.users then Err(UserNotFound)
    else
      var rooms := ListedRooms(db, caller);
      SummariesList(db, caller, rooms);
      SummariesMatchRooms(db, caller, rooms);
      Ok(Summaries(db, caller, rooms))
  }

  // ---------------------------------------------------------------------------
  // getRoomDetail

  function ClientInfos(db: Db, ms: seq<Member>): (r: seq<ClientInfo>)
    requires forall m :: m in ms ==> m.userId in db.users
    ensures |r| == |ms|
    ensures forall i :: 0 <= i < |ms| ==>
      r[i] == ClientInfo(ms[i].userId, db.users[ms[i].userId].name, db.users[ms[i].userId].email, ms[i].joinedAt)
  {
    seq(|ms|, i requires 0 <= i < |ms| =>
      ClientInfo(ms[i].userId, db.users[ms[i].userId].name, db.users[ms[i].userId].email, ms[i].joinedAt))
  }

  /** The clients listed for a room are exactly its client-role members. */
  lemma ClientInfosFacts(db: Db, roomId: Id)
    requires MembersOk(db)
    ensures var clients := ClientInfos(db, ClientMembersOf(db, roomId));
      && (forall u :: u in db.users ==>
            ((exists c :: c in clients && c.userId == u) <==> db.users[u].role == Client && IsMember(db.members, roomId, u)))
      && (forall c :: c in clients ==>
            c.userId in db.users && c.name == db.users[c.userId].name && c.email == db.users[c.userId].email)
  {
    var ms := ClientMembersOf(db, roomId);
    var clients := ClientInfos(db, ms);
    forall u | u in db.users
      ensures (exists c :: c in clients && c.userId == u) <==> db.users[u].role == Client && IsMember(db.members, roomId, u)
    {
      if db.users[u].role == Client && IsMember(db.members, roomId, u) {
        var m := FindMember(db.members, roomId, u).value;
        assert m in ms;
        var i :| 0 <= i < |ms| && ms[i] == m;
        assert clients[i] in clients;
      }
      if c :| c in clients && c.userId == u {
        var i :| 0 <= i < |clients| && clients[i] == c;
        assert ms[i] in ms;
      }
    }
    forall c | c in clients
      ensures c.userId in db.users && c.name == db.users[c.userId].name && c.email == db.users[c.userId].email
    {
      var i :| 0 <= i < |clients| && clients[i] == c;
      assert ms[i] in ms;
    }
  }

  /** getRoomDetail: error precedence user, room, permission; on success the room's
      columns, its creator and exactly its client-role members, in the order of the
      membership table, each with its stored name, email and joinedAt. */
  function GetRoomDetail(db: Db, caller: Id, roomId: Id): (r: Result<RoomDetail>)
    requires WellFormed(db)
    ensures caller !in db.users ==> r == Err(UserNotFound)
    ensures caller in db.users && FindRoom(db.rooms, roomId).None? ==> r == Err(RoomNotFound)
    ensures caller in db.users && FindRoom(db.rooms, roomId).Some? && !Visible(db, caller, FindRoom(db.rooms, roomId).value)
      ==> r == Err(Forbidden)
    ensures r.Ok? <==> caller in db.users && FindRoom(db.rooms, roomId).Some? && Visible(db, caller, FindRoom(db.rooms, roomId).value)
    ensures r.Ok? ==>
      && var room := FindRoom(db.rooms, roomId).value;
      && r.value.roomId == roomId && r.value.name == room.name && r.value.inviteCode == room.inviteCode
      && r.value.createdAt == room.createdAt
      && room.createdBy in db.users
      && r.value.createdByInfo == UserInfo(room.createdBy, db.users[room.createdBy].name, db.users[room.createdBy].email)
      && |r.value.clients| == |ClientMembersOf(db, roomId)|
      && (forall u :: u in db.users ==>
            ((exists c :: c in r.value.clients && c.userId == u) <==> db.users[u].role == Client && IsMember(db.members, roomId, u)))
      && (forall c :: c in r.value.clients ==>
            c.userId in db.users && c.name == db.users[c.userId].name && c.email == db.users[c.userId].email)
      && r.value.clients == ClientInfos(db, ClientMembersOf(db, roomId))
  {
    if caller !in db.users then Err(UserNotFound)
    else match FindRoom(db.rooms, roomId)
      case None => Err(RoomNotFound)
      case Some(room) =>
        if !Visible(db, caller, room) then Err(Forbidden)
        else
          var clients := ClientInfos(db, ClientMembersOf(db, roomId));
          ClientInfosFacts(db, roomId);
          var creator := db.users[room.createdBy];
          Ok(RoomDetail(room.roomId, room.name, room.inviteCode, room.createdAt,
                        UserInfo(room.createdBy, creator.name, creator.email), clients))
  }

  /** The client count getRooms reports for a room is the number of clients
      getRoomDetail lists for it. */
  lemma SummaryCountMatchesDetail(db: Db, caller: Id, roomId: Id)
    requires WellFormed(db)
    requires GetRooms(db, caller).Ok? && GetRoomDetail(db, caller, roomId).Ok?
    ensures forall s :: s in GetRooms(db, caller).value && s.roomId == roomId ==>
      s.clientCount == |GetRoomDetail(db, caller, roomId).value.clients|
  {
  }

  // ---------------------------------------------------------------------------
  // joinRoom

  /** Saves a new membership of an existing user in an existing room. */
  method Enrol(store: Store, member: Member)
    requires store.Valid()
    requires member.roomId in RoomIds(store.rooms) && member.userId in store.users
    requires !IsMember(store.members, member.roomId, member.userId)
    modifies store
    ensures store.Valid()
    ensures store.Snapshot() == old(store.Snapshot()).(members := old(store.members) + [member])
  {
    ghost var db := store.Snapshot();
    AddMemberWellFormed(db, member);
    store.members := store.members + [member];
    assert store.Snapshot() == Db(db.users, db.rooms, db.members + [member], db.cards);
  }

  /** joinRoom: error precedence role, invite code, existing membership; on success
      exactly one membership (room, caller) is added and nothing else changes. */
  method JoinRoom(store: Store, caller: Id, inviteCode: string, now: Time) returns (r: Result<JoinedRoom>)
    requires store.Valid()
    modifies store
    ensures store.Valid()
    ensures store.users == old(store.users) && store.rooms == old(store.rooms) && store.cards == old(store.cards)
    ensures caller !in old(store.users) ==> r == Err(UserNotFound)
    ensures caller in old(store.users) && old(store.users)[caller].role != Client ==> r == Err(Forbidden)
    ensures (caller in old(store.users) && old(store.users)[caller].role == Client
             && FindRoomByCode(old(store.rooms), inviteCode).None?) ==> r == Err(InvalidInviteCode)
    ensures (caller in old(store.users) && old(store.users)[caller].role == Client
             && FindRoomByCode(old(store.rooms), inviteCode).Some?
             && IsMember(old(store.members), FindRoomByCode(old(store.rooms), inviteCode).value.roomId, caller))
            ==> r == Err(AlreadyJoined)
    ensures r.Err? ==> store.members == old(store.members)
    ensures r.Ok? ==>
      && FindRoomByCode(old(store.rooms), inviteCode).Some?
      && var room := FindRoomByCode(old(store.rooms), inviteCode).value;
      && !IsMember(old(store.members), room.roomId, caller)
      && store.members == old(store.members) + [Member(room.roomId, caller, now)]
      && r.value == JoinedRoom(room.roomId, room.name, now)
  {
    if caller !in store.users {
      return Err(UserNotFound);
    }
    var user := store.users[caller];
    if user.role != Client {
      return Err(Forbidden);
    }
    var found := FindRoomByCode(store.rooms, inviteCode);
    if found.None? {
      return Err(InvalidInviteCode);
    }
    var room := found.value;
    if IsMember(store.members, room.roomId, caller) {
      return Err(AlreadyJoined);
    }
    Enrol(store, Member(room.roomId, caller, now));
    return Ok(JoinedRoom(room.roomId, room.name, now));
  }

  // ---------------------------------------------------------------------------
  // leaveRoom

  /** Removing the one membership of a (room, user) pair shortens the table by one. */
  lemma {:induction false} MembersWithoutCount(members: seq<Member>, roomId: Id, userId: Id)
    requires DistinctBy(members, MemberKeyOf)
    requires IsMember(members, roomId, userId)
    ensures |MembersWithout(members, roomId, userId)| == |members| - 1
  {
    var t := members[1..];
    assert DistinctBy(t, MemberKeyOf) by {
      forall i, j | 0 <= i < j < |t| ensures MemberKeyOf(t[i]) != MemberKeyOf(t[j]) {
        assert t[i] == members[i + 1] && t[j] == members[j + 1];
      }
    }
    if members[0].roomId == roomId && members[0].userId == userId {
      forall m | m in t ensures !(m.roomId == roomId && m.userId == userId) {
        var k :| 0 <= k < |t| && t[k] == m;
        assert members[k + 1] == m;
        assert MemberKeyOf(members[0]) != MemberKeyOf(members[k + 1]);
      }
      KeepAll(t, roomId, userId);
    } else {
      var w := FindMember(members, roomId, userId).value;
      assert w != members[0];
      assert w in t;
      MembersWithoutCount(t, roomId, userId);
    }
  }

  /** Nothing is removed when the pair has no membership. */
  lemma {:induction false} KeepAll(members: seq<Member>, roomId: Id, userId: Id)
    requires forall m :: m in members ==> !(m.roomId == roomId && m.userId == userId)
    ensures MembersWithout(members, roomId, userId) == members
  {
    if members != [] {
      assert forall m :: m in members[1..] ==> m in members;
      KeepAll(members[1..], roomId, userId);
      assert members == [members[0]] + members[1..];
    }
  }

  /** Removing a non-creator's membership keeps the store well formed, removes
      exactly one row, and leaves the creator enrolled. */
  lemma LeaveFacts(db: Db, room: Room, userId: Id)
    requires WellFormed(db)
    requires room in db.rooms && room.createdBy != userId
    requires IsMember(db.members, room.roomId, userId)
    ensures var ms := MembersWithout(db.members, room.roomId, userId);
      && WellFormed(Db(db.users, db.rooms, ms, db.cards))
      && |ms| == |db.members| - 1
      && !IsMember(ms, room.roomId, userId)
      && IsMember(ms, room.roomId, room.createdBy)
  {
    forall x | x in db.rooms && x.roomId == room.roomId ensures x.createdBy != userId {
      DistinctByUnique(db.rooms, RoomIdOf, x, room);
    }
    RemoveMemberWellFormed(db, room.roomId, userId);
    MembersWithoutCount(db.members, room.roomId, userId);
  }

  /** Removes the membership rows of one user in one room. */
  method Withdraw(store: Store, roomId: Id, userId: Id)
    modifies store
    ensures store.Snapshot() == Db(old(store.users), old(store.rooms),
                                   MembersWithout(old(store.members), roomId, userId), old(store.cards))
  {
    store.members := MembersWithout(store.members, roomId, userId);
  }

  /** leaveRoom: error precedence role (before the room lookup), room, creator,
      membership. On success the caller's one membership is removed; the creator
      remains a member. */
  method LeaveRoom(store: Store, caller: Id, roomId: Id) returns (r: Result<()>)
    requires store.Valid()
    modifies store
    ensures store.Valid()
    ensures store.users == old(store.users) && store.rooms == old(store.rooms) && store.cards == old(store.cards)
    ensures caller !in old(store.users) ==> r == Err(UserNotFound)
    ensures caller in old(store.users) && old(store.users)[caller].role != Client ==> r == Err(Forbidden)
    ensures (caller in old(store.users) && old(store.users)[caller].role == Client
             && FindRoom(old(store.rooms), roomId).None?) ==> r == Err(RoomNotFound)
    ensures (caller in old(store.users) && old(store.users)[caller].role == Client
             && FindRoom(old(store.rooms), roomId).Some?
             && (FindRoom(old(store.rooms), roomId).value.createdBy == caller || !IsMember(old(store.members), roomId, caller)))
            ==> r == Err(Forbidden)
    ensures r.Err? ==> store.members == old(store.members)
    ensures r.Ok? ==>
      && IsMember(old(store.members), roomId, caller)
      && store.members == MembersWithout(old(store.members), roomId, caller)
      && |store.members| == |old(store.members)| - 1
      && !IsMember(store.members, roomId, caller)
      && IsMember(store.members, roomId, FindRoom(old(store.rooms), roomId).value.createdBy)
  {
    if caller !in store.users {
      return Err(UserNotFound);
    }
    var user := store.users[caller];
    if user.role != Client {
      return Err(Forbidden);
    }
    var found := FindRoom(store.rooms, roomId);
    if found.None? {
      return Err(RoomNotFound);
    }
    var room := found.value;
    if room.createdBy == caller {
      return Err(Forbidden);
    }
    var member := FindMember(store.members, roomId, caller);
    if member.None? {
      return Err(Forbidden);
    }
    ghost var db := store.Snapshot();
    LeaveFacts(db, room, caller);
    Withdraw(store, roomId, caller);
    return Ok(());
  }

  // ---------------------------------------------------------------------------
  // deleteRoom

  /** Deletes a room's cards, then its memberships, then the room. */
  method Cascade(store: Store, roomId: Id)
    requires store.Valid()
    modifies store
    ensures store.Valid()
    ensures store.Snapshot() == Db(old(store.users), RoomsOtherThan(old(store.rooms), roomId),
                                   MembersOutsideRoom(old(store.members), roomId), CardsOutsideRoom(old(store.cards), roomId))
  {
    ghost var db := store.Snapshot();
    CascadeWellFormed(db, roomId);
    store.cards := CardsOutsideRoom(store.cards, roomId);
    store.members := MembersOutsideRoom(store.members, roomId);
    store.rooms := RoomsOtherThan(store.rooms, roomId);
    assert store.Snapshot() == Db(db.users, RoomsOtherThan(db.rooms, roomId),
                                  MembersOutsideRoom(db.members, roomId), CardsOutsideRoom(db.cards, roomId));
  }

  /** deleteRoom: error precedence role (before the room lookup), room, creator;
      nothing changes on an error. On success the room's cards, then its
      memberships, then the room itself are deleted, and no other row is. */
  method DeleteRoom(store: Store, caller: Id, roomId: Id) returns (r: Result<()>)
    requires store.Valid()
    modifies store
    ensures store.Valid()
    ensures store.users == old(store.users)
    ensures caller !in old(store.users) ==> r == Err(UserNotFound)
    ensures caller in old(store.users) && old(store.users)[caller].role != Counselor ==> r == Err(Forbidden)
    ensures (caller in old(store.users) && old(store.users)[caller].role == Counselor
             && FindRoom(old(store.rooms), roomId).None?) ==> r == Err(RoomNotFound)
    ensures (caller in old(store.users) && old(store.users)[caller].role == Counselor
             && FindRoom(old(store.rooms), roomId).Some?
             && FindRoom(old(store.rooms), roomId).value.createdBy != caller) ==> r == Err(Forbidden)
    ensures r.Ok? <==> (caller in old(store.users) && old(store.users)[caller].role == Counselor
             && FindRoom(old(store.rooms), roomId).Some? && FindRoom(old(store.rooms), roomId).value.createdBy == caller)
    ensures r.Err? ==> store.Snapshot() == old(store.Snapshot())
    ensures r.Ok? ==>
      && store.cards == CardsOutsideRoom(old(store.cards), roomId)
      && store.members == MembersOutsideRoom(old(store.members), roomId)
      && store.rooms == RoomsOtherThan(old(store.rooms), roomId)
  {
    if caller !in store.users {
      return Err(UserNotFound);
    }
    var user := store.users[caller];
    if user.role != Counselor {
      return Err(Forbidden);
    }
    var found := FindRoom(store.rooms, roomId);
    if found.None? {
      return Err(RoomNotFound);
    }
    if found.value.createdBy != caller {
      return Err(Forbidden);
    }
    Cascade(store, roomId);
    return Ok(());
  }

  /** After the cascade no row refers to the deleted room, every other row is
      still there, and any later view of the room reports it missing. */
  lemma CascadeLeavesNoResidue(db: Db, roomId: Id, caller: Id)
    requires WellFormed(db)
    requires caller in db.users
    ensures var db' := Db(db.users, RoomsOtherThan(db.rooms, roomId),
                          MembersOutsideRoom(db.members, roomId), CardsOutsideRoom(db.cards, roomId));
      && WellFormed(db')
      && roomId !in RoomIds(db'.rooms)
      && (forall m :: m in db'.members ==> m.roomId != roomId)
      && (forall c :: c in db'.cards ==> c.roomId != roomId)
      && (forall c :: c in db.cards && c.roomId != roomId ==> c in db'.cards)
      && (forall m :: m in db.members && m.roomId != roomId ==> m in db'.members)
      && (forall x :: x in db.rooms && x.roomId != roomId ==> x in db'.rooms)
      && GetRoomDetail(db', caller, roomId) == Err(RoomNotFound)
  {
    CascadeWellFormed(db, roomId);
  }
}
