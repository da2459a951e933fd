/** ProfileService: the caller's profile with role-dependent statistics, computed
    from the store without changing it, and the guarded update of the caller's
    display name. */
module ProfileService {

  import opened Common
  import opened Seqs
  import opened DbtCard
  import opened Store

  /** ProfileResponse.StatsInfo; a field the branch does not set is null. */
  datatype StatsInfo = StatsInfo(roomCount: Option<nat>, dbtCardCount: Option<nat>, totalClientCards: Option<nat>)

  /** ProfileResponse.RoomInfo: createdAt is set for a counselor's rooms, joinedAt
      for a client's. */
  datatype RoomInfo = RoomInfo(roomId: Id, name: string, createdAt: Option<Time>, joinedAt: Option<Time>, cardCount: nat)

  /** ProfileResponse; stats and rooms are null in the response of updateProfile. */
  datatype ProfileResponse = ProfileResponse(userId: Id, name: string, email: string, userType: string,
                                             stats: Option<StatsInfo>, rooms: Option<seq<RoomInfo>>)

  // ---------------------------------------------------------------------------
  // getProfile, counselor branch

  /** The entry of a room the counselor created: countByRoom counts all its cards. */
  function CreatedRoomInfo(cards: seq<Card>, room: Room): RoomInfo {
    RoomInfo(room.roomId, room.name, Some(room.createdAt), None, |CardsOfRoom(cards, room.roomId)|)
  }

  function CreatedRoomInfos(cards: seq<Card>, rooms: seq<Room>): (r: seq<RoomInfo>)
    ensures |r| == |rooms|
    ensures forall i :: 0 <= i < |rooms| ==> r[i] == CreatedRoomInfo(cards, rooms[i])
  {
    if rooms == [] then [] else [CreatedRoomInfo(cards, rooms[0])] + CreatedRoomInfos(cards, rooms[1..])
  }

  /** `createdRooms.stream().mapToLong(dbtCardRepository::countByRoom).sum()` */
  function TotalCards(cards: seq<Card>, rooms: seq<Room>): nat {
    if rooms == [] then 0 else |CardsOfRoom(cards, rooms[0].roomId)| + TotalCards(cards, rooms[1..])
  }

  /** The sum of the cardCount column of a rooms list. */
  function SumCardCounts(infos: seq<RoomInfo>): nat {
    if infos == [] then 0 else infos[0].cardCount + SumCardCounts(infos[1..])
  }

  /** The total is computed by a second pass over the rooms, and agrees with the
      per-room counts listed beside it. */
  lemma {:induction false} TotalIsSumOfCounts(cards: seq<Card>, rooms: seq<Room>)
    ensures TotalCards(cards, rooms) == SumCardCounts(CreatedRoomInfos(cards, rooms))
  {
    if rooms != [] {
      var infos := CreatedRoomInfos(cards, rooms);
      TotalIsSumOfCounts(cards, rooms[1..]);
      assert infos[1..] == CreatedRoomInfos(cards, rooms[1..]);
    }
  }

  /** The cards filed in any of the given rooms. */
  ghost function CardsInRooms(cards: seq<Card>, rooms: seq<Room>): seq<Card> {
    Filter(cards, (c: Card) => c.roomId in RoomIds(rooms))
  }

  /** Over rooms with distinct ids the total counts every card of those rooms once. */
  lemma {:induction false} TotalCountsCardsInRooms(cards: seq<Card>, rooms: seq<Room>)
    requires DistinctBy(rooms, RoomIdOf)
    ensures TotalCards(cards, rooms) == |CardsInRooms(cards, rooms)|
  {
    if rooms == [] {
      FilterNone(cards, (c: Card) => c.roomId in RoomIds(rooms));
    } else {
      var rest := rooms[1..];
      var roomId := rooms[0].roomId;
      DistinctTail(rooms, RoomIdOf);
      TotalCountsCardsInRooms(cards, rest);
      KeysCons(rooms, RoomIdOf);
      FilterSplit(cards, (c: Card) => c.roomId in RoomIds(rooms),
                  (c: Card) => c.roomId == roomId, (c: Card) => c.roomId in RoomIds(rest));
    }
  }

  // ---------------------------------------------------------------------------
  // getProfile, client branch

  /** The entry of a membership: the room is the membership's (a foreign key), and
      countByRoom counts all cards of the room, whoever filed them. */
  function JoinedRoomInfo(db: Db, m: Member): RoomInfo
    requires m.roomId in RoomIds(db.rooms)
  {
    var room := FindRoom(db.rooms, m.roomId).value;
    RoomInfo(room.roomId, room.name, None, Some(m.joinedAt), |CardsOfRoom(db.cards, room.roomId)|)
  }

  function JoinedRoomInfos(db: Db, ms: seq<Member>): (r: seq<RoomInfo>)
    requires forall m :: m in ms ==> m.roomId in RoomIds(db.rooms)
    ensures |r| == |ms|
    ensures forall i :: 0 <= i < |ms| ==> r[i] == JoinedRoomInfo(db, ms[i])
  {
    if ms == [] then [] else [JoinedRoomInfo(db, ms[0])] + JoinedRoomInfos(db, ms[1..])
  }

  // ---------------------------------------------------------------------------
  // getProfile

  /** getProfile: an unknown caller is USER_NOT_FOUND. A counselor gets one entry
      per room they created, with its creation time and card count, the number of
      those rooms, and the sum of the card counts; a client gets one entry per
      membership, with its join time and the card count of the room, and the number
      of cards they filed in all rooms. The statistics of the other role are null. */
  function GetProfile(db: Db, caller: Id): (r: Result<ProfileResponse>)
    requires MembersOk(db)
    ensures r.Err? <==> caller !in db.users
    ensures r.Err? ==> r.error == UserNotFound
    ensures r.Ok? ==>
      && var u := db.users[caller];
      && r.value.userId == u.userId && r.value.name == u.name && r.value.email == u.email
      && r.value.userType == RoleName(u.role)
      && r.value.stats.Some? && r.value.rooms.Some?
    ensures (r.Ok? && db.users[caller].role == Counselor) ==>
      && var created := RoomsCreatedBy(db.rooms, caller);
      && var st := r.value.stats.value;
      && var infos := r.value.rooms.value;
      && st.roomCount == Some(|created|)
      && st.dbtCardCount.None?
      && st.totalClientCards == Some(SumCardCounts(infos))
      && |infos| == |created|
      && (forall i :: 0 <= i < |infos| ==>
            && infos[i].roomId == created[i].roomId && infos[i].name == created[i].name
            && infos[i].createdAt == Some(created[i].createdAt) && infos[i].joinedAt.None?
            && infos[i].cardCount == |CardsOfRoom(db.cards, created[i].roomId)|)
    ensures (r.Ok? && db.users[caller].role == Client) ==>
      && var ms := MembersOfUser(db.members, caller);
      && var st := r.value.stats.value;
      && var infos := r.value.rooms.value;
      && st.roomCount.None?
      && st.totalClientCards.None?
      && st.dbtCardCount == Some(|CardsOfClient(db.cards, caller)|)
      && |infos| == |ms|
      && (forall i :: 0 <= i < |infos| ==>
            && infos[i].roomId == ms[i].roomId
            && FindRoom(db.rooms, ms[i].roomId).Some?
            && infos[i].name == FindRoom(db.rooms, ms[i].roomId).value.name
            && infos[i].createdAt.None? && infos[i].joinedAt == Some(ms[i].joinedAt)
            && infos[i].cardCount == |CardsOfRoom(db.cards, ms[i].roomId)|)
  {
    if caller !in db.users then Err(UserNotFound)
    else
      var user := db.users[caller];
      match user.role
      case Counselor =>
        var created := RoomsCreatedBy(db.rooms, caller);
        TotalIsSumOfCounts(db.cards, created);
        Ok(ProfileResponse(user.userId, user.name, user.email, RoleName(user.role),
                           Some(StatsInfo(Some(|created|), None, Some(TotalCards(db.cards, created)))),
                           Some(CreatedRoomInfos(db.cards, created))))
      case Client =>
        var ms := MembersOfUser(db.members, caller);
        Ok(ProfileResponse(user.userId, user.name, user.email, RoleName(user.role),
                           Some(StatsInfo(None, Some(|CardsOfClient(db.cards, caller)|), None)),
                           Some(JoinedRoomInfos(db, ms))))
  }

  /** A counselor's totalClientCards is the number of cards filed in the rooms they
      created, each card counted once. */
  lemma CounselorTotalCountsOwnRoomsCards(db: Db, caller: Id)
    requires WellFormed(db)
    requires caller in db.users && db.users[caller].role == Counselor
    ensures GetProfile(db, caller).value.stats.value.totalClientCards
            == Some(|CardsInRooms(db.cards, RoomsCreatedBy(db.rooms, caller))|)
  {
    var created := RoomsCreatedBy(db.rooms, caller);
    FilterDistinct(db.rooms, (x: Room) => x.createdBy == caller, RoomIdOf);
    TotalIsSumOfCounts(db.cards, created);
    TotalCountsCardsInRooms(db.cards, created);
  }

  /** A client's per-room cardCount counts the cards of every client of the room:
      their own cards in it plus everybody else's. */
  lemma ClientRoomCountIsAllCards(db: Db, caller: Id, i: nat)
    requires MembersOk(db)
    requires caller in db.users && db.users[caller].role == Client
    requires i < |MembersOfUser(db.members, caller)|
    ensures var info := GetProfile(db, caller).value.rooms.value[i];
      info.cardCount == |CardsOfRoomAndClient(db.cards, info.roomId, caller)|
                        + |Filter(db.cards, (c: Card) => c.roomId == info.roomId && c.clientId != caller)|
  {
    var roomId := GetProfile(db, caller).value.rooms.value[i].roomId;
    FilterSplit(db.cards, (c: Card) => c.roomId == roomId,
                (c: Card) => c.roomId == roomId && c.clientId == caller,
                (c: Card) => c.roomId == roomId && c.clientId != caller);
  }

  /** Hence it never undercounts the client's own cards in the room, and counts
      exactly those only when no other user filed a card in the room. */
  lemma ClientRoomCountIsOwnCardsOnlyAlone(db: Db, caller: Id, i: nat)
    requires MembersOk(db)
    requires caller in db.users && db.users[caller].role == Client
    requires i < |MembersOfUser(db.members, caller)|
    ensures var info := GetProfile(db, caller).value.rooms.value[i];
      && |CardsOfRoomAndClient(db.cards, info.roomId, caller)| <= info.cardCount
      && (info.cardCount == |CardsOfRoomAndClient(db.cards, info.roomId, caller)|
          <==> forall c :: c in db.cards && c.roomId == info.roomId ==> c.clientId == caller)
  {
    ClientRoomCountIsAllCards(db, caller, i);
    var roomId := GetProfile(db, caller).value.rooms.value[i].roomId;
    if forall c :: c in db.cards && c.roomId == roomId ==> c.clientId == caller {
      FilterNone(db.cards, (c: Card) => c.roomId == roomId && c.clientId != caller);
    }
  }

  // ---------------------------------------------------------------------------
  // updateProfile

  /** The user after the request: the name is replaced only by a non-null,
      non-empty one; id, email and role never change. */
  function Renamed(u: User, name: NStr): (v: User)
    ensures v.userId == u.userId && v.email == u.email && v.role == u.role
    ensures v.name == (if Present(name) then name.value else u.name)
  {
    if Present(name) then u.(name := name.value) else u
  }

  /** Saving a user with an unchanged role keeps every constraint. */
  lemma SaveUserWellFormed(db: Db, userId: Id, u: User)
    requires WellFormed(db)
    requires userId in db.users && u.role == db.users[userId].role
    ensures WellFormed(db.(users := db.users[userId := u]))
  {
    var db' := db.(users := db.users[userId := u]);
    assert db'.users.Keys == db.users.Keys;
    assert forall k :: k in db.users ==> db'.users[k].role == db.users[k].role;
  }

  /** userRepository.save of an existing user. */
  method SaveUser(store: Store, userId: Id, u: User)
    requires store.Valid()
    requires userId in store.users && u.role == store.users[userId].role
    modifies store
    ensures store.Valid()
    ensures store.Snapshot() == old(store.Snapshot()).(users := old(store.users)[userId := u])
  {
    ghost var db := store.Snapshot();
    SaveUserWellFormed(db, userId, u);
    store.users := store.users[userId := u];
    assert store.Snapshot() == db.(users := db.users[userId := u]);
  }

  /** updateProfile: an unknown caller is USER_NOT_FOUND and nothing changes;
      otherwise the caller's user is saved with the name of the request when it is
      non-empty, and the response carries the saved identity fields and no stats or
      rooms. */
  method UpdateProfile(store: Store, caller: Id, name: NStr) returns (r: Result<ProfileResponse>)
    requires store.Valid()
    modifies store
    ensures store.Valid()
    ensures store.rooms == old(store.rooms) && store.members == old(store.members) && store.cards == old(store.cards)
    ensures caller !in old(store.users) ==> r == Err(UserNotFound) && store.users == old(store.users)
    ensures caller in old(store.users) ==>
      && var u := Renamed(old(store.users)[caller], name);
      && store.users == old(store.users)[caller := u]
      && r == Ok(ProfileResponse(u.userId, u.name, u.email, RoleName(u.role), None, None))
  {
    if caller !in store.users {
      return Err(UserNotFound);
    }
    var user := store.users[caller];
    if Present(name) {
      user := user.(name := name.value);
    }
    SaveUser(store, caller, user);
    return Ok(ProfileResponse(user.userId, user.name, user.email, RoleName(user.role), None, None));
  }

  /** After updateProfile the profile shows the new name and the same email, role,
      statistics and rooms as before. */
  lemma RenameKeepsProfile(db: Db, caller: Id, name: NStr)
    requires MembersOk(db)
    requires caller in db.users
    ensures var db' := db.(users := db.users[caller := Renamed(db.users[caller], name)]);
      && MembersOk(db')
      && var before := GetProfile(db, caller).value;
      && var after := GetProfile(db', caller).value;
      && after == before.(name := Renamed(db.users[caller], name).name)
  {
    var db' := db.(users := db.users[caller := Renamed(db.users[caller], name)]);
    assert db'.users.Keys == db.users.Keys;
    var ms := MembersOfUser(db.members, caller);
    assert JoinedRoomInfos(db', ms) == JoinedRoomInfos(db, ms);
  }
}
