/** The persistent store shared by all services: the users, rooms, room_members
    and dbt_cards tables, the repository queries over them as filters, and the
    integrity constraints (keys, unique constraints, foreign keys) the database
    keeps. */
module Store {

  import opened Common
  import opened Seqs
  import opened IsoDate
  import opened DbtCard
  import opened InviteCode

  /** A Room row; createdAt is stamped by its @PrePersist hook. */
  datatype Room = Room(roomId: Id, name: string, inviteCode: string, createdBy: Id, createdAt: Time)

  /** A RoomMember row: the user belongs to the room since joinedAt. */
  datatype Member = Member(roomId: Id, userId: Id, joinedAt: Time)

  datatype MemberKey = MemberKey(roomId: Id, userId: Id)

  /** A snapshot of the four tables. */
  datatype Db = Db(users: map<Id, User>, rooms: seq<Room>, members: seq<Member>, cards: seq<Card>)

  function RoomIdOf(r: Room): Id { r.roomId }
  function InviteCodeOf(r: Room): string { r.inviteCode }
  function MemberKeyOf(m: Member): MemberKey { MemberKey(m.roomId, m.userId) }

  ghost function RoomIds(rooms: seq<Room>): set<Id> {
    Keys(rooms, RoomIdOf)
  }

  ghost function CardIds(cards: seq<Card>): set<Id> {
    Keys(cards, CardIdOf)
  }

  /** The invite codes in use, as the retry loop of the allocator checks them. */
  function InviteCodes(rooms: seq<Room>): (codes: set<string>)
    ensures forall r :: r in rooms ==> r.inviteCode in codes
    ensures forall c :: c in codes ==> exists r :: r in rooms && r.inviteCode == c
  {
    set r | r in rooms :: r.inviteCode
  }

  // ---------------------------------------------------------------------------
  // Repository queries

  /** RoomRepository.findById */
  function FindRoom(rooms: seq<Room>, roomId: Id): (r: Option<Room>)
    ensures r.Some? ==> r.value in rooms && r.value.roomId == roomId
    ensures r.None? <==> roomId !in RoomIds(rooms)
  {
    match IndexWhere(rooms, (x: Room) => x.roomId == roomId)
    case Some(i) => Some(rooms[i])
    case None => None
  }

  /** RoomRepository.findByInviteCode */
  function FindRoomByCode(rooms: seq<Room>, code: string): (r: Option<Room>)
    ensures r.Some? ==> r.value in rooms && r.value.inviteCode == code
    ensures r.None? <==> code !in InviteCodes(rooms)
  {
    match IndexWhere(rooms, (x: Room) => x.inviteCode == code)
    case Some(i) => Some(rooms[i])
    case None => None
  }

  /** RoomMemberRepository.findByRoomAndUser */
  function FindMember(members: seq<Member>, roomId: Id, userId: Id): (r: Option<Member>)
    ensures r.Some? ==> r.value in members && r.value.roomId == roomId && r.value.userId == userId
    ensures r.None? <==> forall m :: m in members ==> !(m.roomId == roomId && m.userId == userId)
  {
    match IndexWhere(members, (m: Member) => m.roomId == roomId && m.userId == userId)
    case Some(i) => Some(members[i])
    case None => None
  }

  /** RoomMemberRepository.existsByRoomAndUser */
  function IsMember(members: seq<Member>, roomId: Id, userId: Id): (b: bool)
    ensures b <==> exists m :: m in members && m.roomId == roomId && m.userId == userId
  {
    FindMember(members, roomId, userId).Some?
  }

  /** RoomRepository.findByCreatedBy */
  function RoomsCreatedBy(rooms: seq<Room>, userId: Id): (r: seq<Room>)
    ensures forall x :: x in r <==> x in rooms && x.createdBy == userId
  {
    Filter(rooms, (x: Room) => x.createdBy == userId)
  }

  /** RoomRepository.findRoomsByUserId: rooms joined with the caller's memberships. */
  function RoomsJoinedBy(rooms: seq<Room>, members: seq<Member>, userId: Id): (r: seq<Room>)
    ensures forall x :: x in r <==> x in rooms && IsMember(members, x.roomId, userId)
  {
    Filter(rooms, (x: Room) => IsMember(members, x.roomId, userId))
  }

  /** RoomMemberRepository.findByUser */
  function MembersOfUser(members: seq<Member>, userId: Id): (r: seq<Member>)
    ensures forall m :: m in r <==> m in members && m.userId == userId
  {
    Filter(members, (m: Member) => m.userId == userId)
  }

  /** RoomMemberRepository.findByRoom, restricted to members whose user has the
      client role: the members a room's clientCount and clients list show. */
  function ClientMembersOf(db: Db, roomId: Id): (r: seq<Member>)
    ensures forall m :: m in r <==>
      m in db.members && m.roomId == roomId && m.userId in db.users && db.users[m.userId].role == Client
  {
    Filter(db.members, IsClientMember(db, roomId))
  }

  /** Whether a membership is one of a client-role user in the given room. */
  function IsClientMember(db: Db, roomId: Id): Member -> bool
  {
    (m: Member) => m.roomId == roomId && m.userId in db.users && db.users[m.userId].role == Client
  }

  /** DBTCardRepository.findByRoom; countByRoom is its length. */
  function CardsOfRoom(cards: seq<Card>, roomId: Id): (r: seq<Card>)
    ensures forall c :: c in r <==> c in cards && c.roomId == roomId
  {
    Filter(cards, (c: Card) => c.roomId == roomId)
  }

  /** DBTCardRepository.findByRoomAndClient */
  function CardsOfRoomAndClient(cards: seq<Card>, roomId: Id, clientId: Id): (r: seq<Card>)
    ensures forall c :: c in r <==> c in cards && c.roomId == roomId && c.clientId == clientId
  {
    Filter(cards, (c: Card) => c.roomId == roomId && c.clientId == clientId)
  }

  /** DBTCardRepository.findByRoomAndDate */
  function CardsOfRoomAndDate(cards: seq<Card>, roomId: Id, date: Date): (r: seq<Card>)
    ensures forall c :: c in r <==> c in cards && c.roomId == roomId && c.date == date
  {
    Filter(cards, (c: Card) => c.roomId == roomId && c.date == date)
  }

  /** The cards a client filed, in table order; DBTCardRepository.countByClient is the
      length of this filter. */
  function CardsOfClient(cards: seq<Card>, clientId: Id): (r: seq<Card>)
    ensures forall c :: c in r <==> c in cards && c.clientId == clientId
  {
    Filter(cards, (c: Card) => c.clientId == clientId)
  }

  /** Position of the card stored under a (room, client, date) key. */
  function CardIndex(cards: seq<Card>, key: CardKey): (r: Option<nat>)
    ensures r.Some? ==> r.value < |cards| && KeyOf(cards[r.value]) == key
    ensures r.None? <==> forall c :: c in cards ==> KeyOf(c) != key
  {
    IndexWhere(cards, (c: Card) => KeyOf(c) == key)
  }

  /** DBTCardRepository.findByRoomAndClientAndDate */
  function FindCard(cards: seq<Card>, key: CardKey): (r: Option<Card>)
    ensures r.Some? ==> r.value in cards && KeyOf(r.value) == key
    ensures r.None? <==> forall c :: c in cards ==> KeyOf(c) != key
  {
    match CardIndex(cards, key)
    case Some(i) => Some(cards[i])
    case None => None
  }

  // ---------------------------------------------------------------------------
  // Deletions

  /** What DBTCardRepository.deleteByRoom leaves. */
  function CardsOutsideRoom(cards: seq<Card>, roomId: Id): (r: seq<Card>)
    ensures forall c :: c in r <==> c in cards && c.roomId != roomId
  {
    Filter(cards, (c: Card) => c.roomId != roomId)
  }

  /** What RoomMemberRepository.deleteByRoom leaves. */
  function MembersOutsideRoom(members: seq<Member>, roomId: Id): (r: seq<Member>)
    ensures forall m :: m in r <==> m in members && m.roomId != roomId
  {
    Filter(members, (m: Member) => m.roomId != roomId)
  }

  /** What RoomRepository.delete leaves. */
  function RoomsOtherThan(rooms: seq<Room>, roomId: Id): (r: seq<Room>)
    ensures forall x :: x in r <==> x in rooms && x.roomId != roomId
  {
    Filter(rooms, (x: Room) => x.roomId != roomId)
  }

  /** What RoomMemberRepository.delete(member) leaves. */
  function MembersWithout(members: seq<Member>, roomId: Id, userId: Id): (r: seq<Member>)
    ensures forall m :: m in r <==> m in members && !(m.roomId == roomId && m.userId == userId)
  {
    Filter(members, (m: Member) => !(m.roomId == roomId && m.userId == userId))
  }

  // ---------------------------------------------------------------------------
  // Integrity constraints

  /** Room keys and invite codes are unique, every creator is a user and a member
      of the room, and every invite code is well formed. */
  ghost predicate RoomsOk(db: Db) {
    && DistinctBy(db.rooms, RoomIdOf)
    && DistinctBy(db.rooms, InviteCodeOf)
    && (forall r :: r in db.rooms ==>
          r.createdBy in db.users && IsInviteCode(r.inviteCode) && IsMember(db.members, r.roomId, r.createdBy))
  }

  /** One membership per (room, user), referring to an existing room and user. */
  ghost predicate MembersOk(db: Db) {
    && DistinctBy(db.members, MemberKeyOf)
    && (forall m :: m in db.members ==> m.roomId in RoomIds(db.rooms) && m.userId in db.users)
  }

  /** Card ids are unique, at most one card per (room, client, date), each card
      refers to an existing room and to a client-role user, and has been stamped. */
  ghost predicate CardsOk(db: Db) {
    && DistinctBy(db.cards, CardIdOf)
    && DistinctBy(db.cards, KeyOf)
    && (forall c :: c in db.cards ==>
          && c.roomId in RoomIds(db.rooms)
          && c.clientId in db.users && db.users[c.clientId].role == Client
          && c.submittedAt.Some? && c.updatedAt.Some?)
  }

  ghost predicate WellFormed(db: Db) {
    RoomsOk(db) && MembersOk(db) && CardsOk(db)
  }

  /** In a well-formed store a room is found by any of its two keys. */
  lemma FindRoomExact(db: Db, room: Room)
    requires WellFormed(db) && room in db.rooms
    ensures FindRoom(db.rooms, room.roomId) == Some(room)
    ensures FindRoomByCode(db.rooms, room.inviteCode) == Some(room)
  {
    var r := FindRoom(db.rooms, room.roomId);
    assert room.roomId in RoomIds(db.rooms);
    DistinctByUnique(db.rooms, RoomIdOf, r.value, room);
    var q := FindRoomByCode(db.rooms, room.inviteCode);
    DistinctByUnique(db.rooms, InviteCodeOf, q.value, room);
  }

  /** The cascade of deleteRoom keeps every constraint. */
  lemma CascadeWellFormed(db: Db, roomId: Id)
    requires WellFormed(db)
    ensures WellFormed(Db(db.users, RoomsOtherThan(db.rooms, roomId),
                          MembersOutsideRoom(db.members, roomId), CardsOutsideRoom(db.cards, roomId)))
  {
    var rs := RoomsOtherThan(db.rooms, roomId);
    var ms := MembersOutsideRoom(db.members, roomId);
    var cs := CardsOutsideRoom(db.cards, roomId);
    FilterDistinct(db.rooms, (x: Room) => x.roomId != roomId, RoomIdOf);
    FilterDistinct(db.rooms, (x: Room) => x.roomId != roomId, InviteCodeOf);
    FilterDistinct(db.members, (m: Member) => m.roomId != roomId, MemberKeyOf);
    FilterDistinct(db.cards, (c: Card) => c.roomId != roomId, CardIdOf);
    FilterDistinct(db.cards, (c: Card) => c.roomId != roomId, KeyOf);
    forall r | r in rs ensures IsMember(ms, r.roomId, r.createdBy) {
      var w := FindMember(db.members, r.roomId, r.createdBy).value;
      assert w in ms;
    }
    forall id | id in RoomIds(db.rooms) && id != roomId ensures id in RoomIds(rs) {
      var x :| x in db.rooms && RoomIdOf(x) == id;
      assert x in rs;
    }
  }

  /** The database: the four tables, updated in place by the services. */
  class Store {
    var users: map<Id, User>
    var rooms: seq<Room>
    var members: seq<Member>
    var cards: seq<Card>

    /** A database holding the registered users and nothing else. */
    constructor (users: map<Id, User>)
      ensures Snapshot() == Db(users, [], [], [])
      ensures Valid()
    {
      this.users := users;
      rooms, members, cards := [], [], [];
    }

    function Snapshot(): Db
      reads this
    {
      Db(users, rooms, members, cards)
    }

    ghost predicate Valid()
      reads this
    {
      WellFormed(Snapshot())
    }
  }
}
