/** DBTCardService: the diary-card ledger. A client who belongs to a room
    records one card per calendar day (createOrUpdateCard); the client reads
    their own cards (getMyCards) and the room's creator reads everybody's
    (getCards). */
module DbtCardService {

  import opened Common
  import opened Seqs
  import opened IsoDate
  import opened DbtCard
  import opened Store

  // ---------------------------------------------------------------------------
  // Request and response shapes

  /** DBTCardRequest.HeaderInfo, also used inside the response. */
  datatype HeaderInfo = HeaderInfo(name: NStr, writtenDuringCounseling: NStr, frequency: NStr)

  /** DBTCardRequest.DayDataInfo: the 27 day columns and the medication answer. */
  datatype DayDataInfo = DayDataInfo(fields: DayFields, medication: NStr)

  /** DBTCardRequest: the date as submitted text and two optional sections. */
  datatype CardRequest = CardRequest(date: NStr, header: Option<HeaderInfo>, dayData: Option<DayDataInfo>)

  /** DBTCardResponse. */
  datatype CardResponse = CardResponse(
    cardId: Id, roomId: Id, clientId: Id, clientName: NStr, clientEmail: NStr,
    date: Date, header: Option<HeaderInfo>, dayData: DayDataInfo, submittedAt: Option<Time>)

  // ---------------------------------------------------------------------------
  // The merge rules of createOrUpdateCard

  /** The header columns after merging an optional request header: an absent
      header changes nothing; a present one always overwrites the name (null
      included) and overwrites the yes/no answer and the frequency only when the
      request carries them. */
  predicate HeaderRule(c: Card, h: Option<HeaderInfo>, c': Card) {
    match h
    case None =>
      c'.headerName == c.headerName && c'.headerWrittenDuringCounseling == c.headerWrittenDuringCounseling
      && c'.headerFrequency == c.headerFrequency
    case Some(h) =>
      && c'.headerName == h.name
      && (if h.writtenDuringCounseling.None? then c'.headerWrittenDuringCounseling == c.headerWrittenDuringCounseling
          else c'.headerWrittenDuringCounseling.Some?
               && YesNoName(c'.headerWrittenDuringCounseling.value) == h.writtenDuringCounseling.value)
      && c'.headerFrequency == (if h.frequency.None? then c.headerFrequency else h.frequency)
  }

  /** The day columns after merging optional day data: absent day data changes
      nothing; present day data overwrites all 27 columns (nulls included) and
      overwrites the medication answer only when the request carries one. */
  predicate DayRule(c: Card, d: Option<DayDataInfo>, c': Card) {
    match d
    case None => c'.day == c.day && c'.medication == c.medication
    case Some(d) =>
      && c'.day == d.fields
      && (if d.medication.None? then c'.medication == c.medication
          else c'.medication.Some? && YesNoName(c'.medication.value) == d.medication.value)
  }

  /** The content of c' is that of c merged with the request; the card's
      identity, room, client and date are untouched. Timestamps are not content. */
  predicate Merged(c: Card, req: CardRequest, c': Card) {
    && HeaderRule(c, req.header, c')
    && DayRule(c, req.dayData, c')
    && c'.cardId == c.cardId && c'.roomId == c.roomId && c'.clientId == c.clientId && c'.date == c.date
  }

  /** The yes/no answers the request carries are names of YesNo constants; any
      other string makes YesNo.valueOf throw. */
  predicate Accepted(req: CardRequest) {
    && (req.header.Some? && req.header.value.writtenDuringCounseling.Some? ==>
          YesNoValueOf(req.header.value.writtenDuringCounseling.value).Some?)
    && (req.dayData.Some? && req.dayData.value.medication.Some? ==>
          YesNoValueOf(req.dayData.value.medication.value).Some?)
  }

  /** The merge rules leave no choice: two merges of the same request into the
      same card have the same content. */
  lemma MergedDeterministic(c: Card, req: CardRequest, a: Card, b: Card)
    requires Merged(c, req, a) && Merged(c, req, b)
    ensures SameContent(a, b)
  {
    if req.header.Some? && req.header.value.writtenDuringCounseling.Some? {
      YesNoNameInjective(a.headerWrittenDuringCounseling.value, b.headerWrittenDuringCounseling.value);
    }
    if req.dayData.Some? && req.dayData.value.medication.Some? {
      YesNoNameInjective(a.medication.value, b.medication.value);
    }
  }

  lemma YesNoNameInjective(x: YesNo, y: YesNo)
    requires YesNoName(x) == YesNoName(y)
    ensures x == y
  {
  }

  /** The setters of createOrUpdateCard applied to a fetched or new card, section
      by section; a yes/no answer that is not "yes" or "no" aborts with the
      internal error YesNo.valueOf's exception becomes. */
  method ApplyRequest(card: Card, req: CardRequest) returns (r: Result<Card>)
    ensures r.Err? <==> !Accepted(req)
    ensures r.Err? ==> r.error == InternalServerError
    ensures r.Ok? ==> Merged(card, req, r.value)
    ensures r.Ok? ==> r.value.submittedAt == card.submittedAt && r.value.updatedAt == card.updatedAt
  {
    var c := card;
    if req.header.Some? {
      var h := req.header.value;
      c := c.(headerName := h.name);
      if h.writtenDuringCounseling.Some? {
        var v := YesNoValueOf(h.writtenDuringCounseling.value);
        if v.None? {
          return Err(InternalServerError);
        }
        c := c.(headerWrittenDuringCounseling := v);
      }
      if h.frequency.Some? {
        c := c.(headerFrequency := h.frequency);
      }
    }
    if req.dayData.Some? {
      var d := req.dayData.value;
      c := c.(day := d.fields);
      if d.medication.Some? {
        var v := YesNoValueOf(d.medication.value);
        if v.None? {
          return Err(InternalServerError);
        }
        c := c.(medication := v);
      }
    }
    return Ok(c);
  }

  // ---------------------------------------------------------------------------
  // toResponse and toResponseWithClientInfo

  /** Enum.name() of an optional column. */
  function NameOf(v: Option<YesNo>): (r: NStr)
    ensures r.Some? <==> v.Some?
    ensures v.Some? ==> YesNoValueOf(r.value) == v
  {
    match v
    case None => None
    case Some(x) => Some(YesNoName(x))
  }

  /** toResponse: the header section is present exactly when some header column is
      set; the day section is always present; no client name or email. */
  function ToResponse(c: Card): (r: CardResponse)
    ensures r.header.None? <==>
      c.headerName.None? && c.headerWrittenDuringCounseling.None? && c.headerFrequency.None?
    ensures r.header.Some? ==>
      r.header.value == HeaderInfo(c.headerName, NameOf(c.headerWrittenDuringCounseling), c.headerFrequency)
    ensures r.dayData == DayDataInfo(c.day, NameOf(c.medication))
    ensures r.cardId == c.cardId && r.roomId == c.roomId && r.clientId == c.clientId
    ensures r.date == c.date && r.submittedAt == c.submittedAt
    ensures r.clientName.None? && r.clientEmail.None?
  {
    var header :=
      if c.headerName.Some? || c.headerWrittenDuringCounseling.Some? || c.headerFrequency.Some? then
        Some(HeaderInfo(c.headerName, NameOf(c.headerWrittenDuringCounseling), c.headerFrequency))
      else None;
    CardResponse(c.cardId, c.roomId, c.clientId, None, None, c.date, header,
                 DayDataInfo(c.day, NameOf(c.medication)), c.submittedAt)
  }

  /** toResponseWithClientInfo: toResponse plus the client's name and email. */
  function ToResponseWithClientInfo(c: Card, client: User): (r: CardResponse)
    ensures r.clientName == Some(client.name) && r.clientEmail == Some(client.email)
    ensures r.(clientName := None, clientEmail := None) == ToResponse(c)
  {
    ToResponse(c).(clientName := Some(client.name), clientEmail := Some(client.email))
  }

  /** The request a client would send back after reading a response. */
  function RequestOf(resp: CardResponse): CardRequest
    requires resp.date.year <= 9999 && resp.date.month <= 99 && resp.date.day <= 99
  {
    CardRequest(Some(FormatDate(resp.date)), resp.header, Some(resp.dayData))
  }

  /** Submitting a card's own response as a request names the same day, is
      accepted, and changes no content: toResponse loses nothing the merge needs. */
  lemma ResubmitResponse(c: Card, c': Card)
    requires ValidDate(c.date)
    ensures ParseDate(RequestOf(ToResponse(c)).date.value) == Some(c.date)
    ensures Accepted(RequestOf(ToResponse(c)))
    ensures Merged(c, RequestOf(ToResponse(c)), c') ==> SameContent(c', c)
  {
    ParseFormat(c.date);
    var req := RequestOf(ToResponse(c));
    if Merged(c, req, c') {
      if c.headerWrittenDuringCounseling.Some? {
        YesNoNameInjective(c'.headerWrittenDuringCounseling.value, c.headerWrittenDuringCounseling.value);
      }
      if c.medication.Some? {
        YesNoNameInjective(c'.medication.value, c.medication.value);
      }
    }
  }

  // ---------------------------------------------------------------------------
  // The upsert on the card table

  /** dbtCardRepository.save of the card for a key: the stored card with that key
      is replaced, or the card is appended when there is none. */
  function Upsert(cards: seq<Card>, c: Card): (r: seq<Card>)
    ensures |r| == |cards| + (if FindCard(cards, KeyOf(c)).None? then 1 else 0)
  {
    match CardIndex(cards, KeyOf(c))
    case Some(i) => cards[i := c]
    case None => cards + [c]
  }

  /** Saving the very card already stored under its key leaves the table as it was. */
  lemma UpsertStored(cards: seq<Card>, c: Card)
    requires FindCard(cards, KeyOf(c)) == Some(c)
    ensures Upsert(cards, c) == cards
  {
  }

  /** After the upsert, the card found under its key is the saved card. */
  lemma UpsertFinds(cards: seq<Card>, c: Card)
    ensures FindCard(Upsert(cards, c), KeyOf(c)) == Some(c)
  {
    var p := (x: Card) => KeyOf(x) == KeyOf(c);
    match CardIndex(cards, KeyOf(c))
    case Some(i) => IndexWhereReplace(cards, p, i, c);
    case None => IndexWhereAppend(cards, p, c);
  }

  /** The upsert keeps every card under another key and adds none but the saved
      card; with unique keys the saved card is the only one under its key. */
  lemma UpsertFrame(cards: seq<Card>, c: Card)
    requires DistinctBy(cards, KeyOf)
    ensures forall x :: x in cards && KeyOf(x) != KeyOf(c) ==> x in Upsert(cards, c)
    ensures forall x :: x in Upsert(cards, c) ==> x == c || (x in cards && KeyOf(x) != KeyOf(c))
    ensures DistinctBy(Upsert(cards, c), KeyOf)
  {
    var r := Upsert(cards, c);
    match CardIndex(cards, KeyOf(c))
    case Some(i) =>
      forall x | x in cards && KeyOf(x) != KeyOf(c) ensures x in r {
        var j :| 0 <= j < |cards| && cards[j] == x;
        assert r[j] == x;
      }
      forall x | x in r ensures x == c || (x in cards && KeyOf(x) != KeyOf(c)) {
        var j :| 0 <= j < |r| && r[j] == x;
        if j != i {
          assert x == cards[j];
          assert KeyOf(cards[j]) != KeyOf(cards[i]);
        }
      }
      ReplaceDistinct(cards, KeyOf, i, c);
    case None =>
      AppendDistinct(cards, KeyOf, c);
  }

  /** Saving twice under one key stores only the second card, and the count does
      not grow the second time. */
  lemma UpsertTwice(cards: seq<Card>, c: Card, c': Card)
    requires KeyOf(c) == KeyOf(c')
    ensures Upsert(Upsert(cards, c), c') == Upsert(cards, c')
    ensures |Upsert(Upsert(cards, c), c')| == |Upsert(cards, c)|
  {
    var p := (x: Card) => KeyOf(x) == KeyOf(c);
    UpsertFinds(cards, c);
    match CardIndex(cards, KeyOf(c))
    case Some(i) =>
      IndexWhereReplace(cards, p, i, c);
      assert cards[i := c][i := c'] == cards[i := c'];
    case None =>
      IndexWhereAppend(cards, p, c);
      assert (cards + [c])[|cards| := c'] == cards + [c'];
  }

  /** Saving a card under its key keeps every constraint of the store, provided
      the card belongs to an existing room and a client-role user, is stamped, and
      either keeps the id of the card it replaces or brings a fresh one. */
  lemma UpsertWellFormed(db: Db, c: Card)
    requires WellFormed(db)
    requires c.roomId in RoomIds(db.rooms)
    requires c.clientId in db.users && db.users[c.clientId].role == Client
    requires c.submittedAt.Some? && c.updatedAt.Some?
    requires match FindCard(db.cards, KeyOf(c))
      case Some(p) => p.cardId == c.cardId
      case None => c.cardId !in CardIds(db.cards)
    ensures WellFormed(db.(cards := Upsert(db.cards, c)))
  {
    var r := Upsert(db.cards, c);
    UpsertFrame(db.cards, c);
    match CardIndex(db.cards, KeyOf(c))
    case Some(i) =>
      forall j | 0 <= j < |db.cards| && j != i ensures CardIdOf(db.cards[j]) != CardIdOf(c) {
        assert CardIdOf(db.cards[j]) != CardIdOf(db.cards[i]);
      }
      ReplaceFreshDistinct(db.cards, CardIdOf, i, c);
    case None =>
      forall y | y in db.cards ensures CardIdOf(y) != CardIdOf(c) {
        assert CardIdOf(y) in CardIds(db.cards);
      }
      AppendDistinct(db.cards, CardIdOf, c);
  }

  // ---------------------------------------------------------------------------
  // Access checks

  /** The checks of createOrUpdateCard and getMyCards, in order: the caller exists,
      is a client, the room exists, and the caller belongs to it. */
  function ClientAccess(db: Db, caller: Id, roomId: Id): (r: Result<Room>)
    ensures caller !in db.users ==> r == Err(UserNotFound)
    ensures caller in db.users && db.users[caller].role != Client ==> r == Err(Forbidden)
    ensures (caller in db.users && db.users[caller].role == Client && roomId !in RoomIds(db.rooms))
            ==> r == Err(RoomNotFound)
    ensures (caller in db.users && db.users[caller].role == Client && roomId in RoomIds(db.rooms)
             && !IsMember(db.members, roomId, caller)) ==> r == Err(Forbidden)
    ensures r.Ok? <==> caller in db.users && db.users[caller].role == Client
                       && roomId in RoomIds(db.rooms) && IsMember(db.members, roomId, caller)
    ensures r.Ok? ==> r.value in db.rooms && r.value.roomId == roomId
  {
    if caller !in db.users then Err(UserNotFound)
    else if db.users[caller].role != Client then Err(Forbidden)
    else match FindRoom(db.rooms, roomId)
      case None => Err(RoomNotFound)
      case Some(room) =>
        if !IsMember(db.members, roomId, caller) then Err(Forbidden) else Ok(room)
  }

  /** The checks of getCards, in order: the caller exists, is a counselor, the
      room exists, and the caller created it. */
  function OwnerAccess(db: Db, caller: Id, roomId: Id): (r: Result<Room>)
    ensures caller !in db.users ==> r == Err(UserNotFound)
    ensures caller in db.users && db.users[caller].role != Counselor ==> r == Err(Forbidden)
    ensures (caller in db.users && db.users[caller].role == Counselor && FindRoom(db.rooms, roomId).None?)
            ==> r == Err(RoomNotFound)
    ensures (caller in db.users && db.users[caller].role == Counselor && FindRoom(db.rooms, roomId).Some?
             && FindRoom(db.rooms, roomId).value.createdBy != caller) ==> r == Err(Forbidden)
    ensures r.Ok? <==> caller in db.users && db.users[caller].role == Counselor
                       && FindRoom(db.rooms, roomId).Some? && FindRoom(db.rooms, roomId).value.createdBy == caller
    ensures r.Ok? ==> r.value in db.rooms && r.value.roomId == roomId
  {
    if caller !in db.users then Err(UserNotFound)
    else if db.users[caller].role != Counselor then Err(Forbidden)
    else match FindRoom(db.rooms, roomId)
      case None => Err(RoomNotFound)
      case Some(room) =>
        if room.createdBy != caller then Err(Forbidden) else Ok(room)
  }

  /** An optional date filter: null or empty means no filter; otherwise the text
      must be a calendar date. */
  function DateFilter(s: NStr): (r: Result<Option<Date>>)
    ensures r == Ok(None) <==> !Present(s)
    ensures r.Err? <==> Present(s) && ParseDate(s.value).None?
    ensures r.Err? ==> r.error == ValidationError
    ensures r.Ok? && r.value.Some? ==> Present(s) && r.value == ParseDate(s.value)
  {
    if !Present(s) then Ok(None)
    else match ParseDate(s.value)
      case None => Err(ValidationError)
      case Some(d) => Ok(Some(d))
  }

  // ---------------------------------------------------------------------------
  // createOrUpdateCard

  /** The card the setters start from: the stored card for the key, or a new one. */
  function BaseCard(prior: Option<Card>, freshId: Id, key: CardKey): (c: Card)
    ensures KeyOf(c) == key || prior.Some?
    ensures prior.Some? ==> c == prior.value
    ensures prior.None? ==> c == NewCard(freshId, key.roomId, key.clientId, key.date)
  {
    match prior
    case Some(p) => p
    case None => NewCard(freshId, key.roomId, key.clientId, key.date)
  }

  /** Saves a stamped card under its key. */
  method SaveCard(store: Store, c: Card)
    requires store.Valid()
    requires c.roomId in RoomIds(store.rooms)
    requires c.clientId in store.users && store.users[c.clientId].role == Client
    requires c.submittedAt.Some? && c.updatedAt.Some?
    requires match FindCard(store.cards, KeyOf(c))
      case Some(p) => p.cardId == c.cardId
      case None => c.cardId !in CardIds(store.cards)
    modifies store
    ensures store.Valid()
    ensures store.Snapshot() == old(store.Snapshot()).(cards := Upsert(old(store.cards), c))
    ensures FindCard(store.cards, KeyOf(c)) == Some(c)
  {
    ghost var db := store.Snapshot();
    UpsertWellFormed(db, c);
    UpsertFinds(db.cards, c);
    store.cards := Upsert(store.cards, c);
    assert store.Snapshot() == db.(cards := Upsert(db.cards, c));
  }

  /** createOrUpdateCard: error precedence user, role, room, membership, date,
      yes/no answers; nothing changes on an error. On success the card for
      (room, caller, date) is the stored or a new card merged with the request,
      keeps its id and submittedAt, or takes the fresh id and now; updatedAt is
      now, except that a resubmission changing no column writes nothing and keeps
      the stored card as it was; no card under another key changes. */
  method CreateOrUpdateCard(store: Store, caller: Id, roomId: Id, req: CardRequest, freshId: Id, now: Time)
    returns (r: Result<CardResponse>)
    requires store.Valid()
    requires freshId !in CardIds(store.cards)
    modifies store
    ensures store.Valid()
    ensures store.users == old(store.users) && store.rooms == old(store.rooms) && store.members == old(store.members)
    ensures ClientAccess(old(store.Snapshot()), caller, roomId).Err? ==>
      r == Err(ClientAccess(old(store.Snapshot()), caller, roomId).error)
    ensures (ClientAccess(old(store.Snapshot()), caller, roomId).Ok?
             && (req.date.None? || ParseDate(req.date.value).None?)) ==> r == Err(ValidationError)
    ensures (ClientAccess(old(store.Snapshot()), caller, roomId).Ok?
             && req.date.Some? && ParseDate(req.date.value).Some? && !Accepted(req)) ==> r == Err(InternalServerError)
    ensures r.Ok? <==> ClientAccess(old(store.Snapshot()), caller, roomId).Ok?
                       && req.date.Some? && ParseDate(req.date.value).Some? && Accepted(req)
    ensures r.Err? ==> store.cards == old(store.cards)
    ensures r.Ok? ==>
      && req.date.Some? && ParseDate(req.date.value).Some?
      && var key := CardKey(roomId, caller, ParseDate(req.date.value).value);
      && var prior := FindCard(old(store.cards), key);
      && FindCard(store.cards, key).Some?
      && var saved := FindCard(store.cards, key).value;
      && store.cards == Upsert(old(store.cards), saved)
      && Merged(BaseCard(prior, freshId, key), req, saved)
      && saved.cardId == (if prior.Some? then prior.value.cardId else freshId)
      && saved.submittedAt == (if prior.Some? then prior.value.submittedAt else Some(now))
      && saved.updatedAt == (if prior.Some? && SameContent(saved, prior.value) then prior.value.updatedAt else Some(now))
      && (prior.Some? && SameContent(saved, prior.value) ==> saved == prior.value && store.cards == old(store.cards))
      && r.value == ToResponse(saved)
  {
    var access := ClientAccess(store.Snapshot(), caller, roomId);
    if access.Err? {
      return Err(access.error);
    }
    var date := if req.date.Some? then ParseDate(req.date.value) else None;
    if date.None? {
      return Err(ValidationError);
    }
    var key := CardKey(roomId, caller, date.value);
    var prior := FindCard(store.cards, key);
    var edited := ApplyRequest(BaseCard(prior, freshId, key), req);
    if edited.Err? {
      return Err(edited.error);
    }
    var saved := Stamp(prior, edited.value, now);
    if prior.Some? && SameContent(saved, prior.value) {
      UpsertStored(store.cards, saved);
    }
    SaveCard(store, saved);
    return Ok(ToResponse(saved));
  }

  // ---------------------------------------------------------------------------
  // getMyCards and getCards

  /** The cards of a room, optionally narrowed to one client and to one day. */
  function Wanted(roomId: Id, client: Option<Id>, date: Option<Date>): Card -> bool {
    (c: Card) => c.roomId == roomId && (client.Some? ==> c.clientId == client.value)
                 && (date.Some? ==> c.date == date.value)
  }

  function Responses(cs: seq<Card>): (r: seq<CardResponse>)
    ensures |r| == |cs| && forall i :: 0 <= i < |cs| ==> r[i] == ToResponse(cs[i])
  {
    seq(|cs|, i requires 0 <= i < |cs| => ToResponse(cs[i]))
  }

  function ResponsesWithClientInfo(db: Db, cs: seq<Card>): (r: seq<CardResponse>)
    requires forall c :: c in cs ==> c.clientId in db.users
    ensures |r| == |cs| && forall i :: 0 <= i < |cs| ==> r[i] == ToResponseWithClientInfo(cs[i], db.users[cs[i].clientId])
  {
    seq(|cs|, i requires 0 <= i < |cs| => ToResponseWithClientInfo(cs[i], db.users[cs[i].clientId]))
  }

  /** With unique keys, the single-card lookup by key returns what filtering the
      table by that key's room, client and date returns. */
  lemma {:induction false} FindCardIsFilter(cards: seq<Card>, key: CardKey)
    requires DistinctBy(cards, KeyOf)
    ensures Filter(cards, Wanted(key.roomId, Some(key.clientId), Some(key.date))) ==
      (match FindCard(cards, key) case Some(c) => [c] case None => [])
  {
    var p := Wanted(key.roomId, Some(key.clientId), Some(key.date));
    if cards != [] {
      var t := cards[1..];
      assert DistinctBy(t, KeyOf) by {
        forall i, j | 0 <= i < j < |t| ensures KeyOf(t[i]) != KeyOf(t[j]) {
          assert t[i] == cards[i + 1] && t[j] == cards[j + 1];
        }
      }
      if KeyOf(cards[0]) == key {
        forall x | x in t ensures !p(x) {
          var k :| 0 <= k < |t| && t[k] == x;
          assert KeyOf(cards[0]) != KeyOf(cards[k + 1]);
        }
        FilterNone(t, p);
      } else {
        FindCardIsFilter(t, key);
        assert FindCard(cards, key) == FindCard(t, key) by {
          match CardIndex(t, key)
          case None =>
            assert forall c :: c in cards ==> c == cards[0] || c in t;
          case Some(k) =>
            assert cards[k + 1] == t[k];
        }
      }
    }
  }

  /** getMyCards: only a client who belongs to the room; a null or empty date lists
      all of the caller's cards in the room, a date lists the card of that day.
      Either way the result is the response of exactly the caller's cards in the
      room on the requested day, in table order. */
  function GetMyCards(db: Db, caller: Id, roomId: Id, dateStr: NStr): (r: Result<seq<CardResponse>>)
    requires CardsOk(db)
    ensures ClientAccess(db, caller, roomId).Err? ==> r == Err(ClientAccess(db, caller, roomId).error)
    ensures ClientAccess(db, caller, roomId).Ok? && DateFilter(dateStr).Err? ==> r == Err(ValidationError)
    ensures r.Ok? <==> ClientAccess(db, caller, roomId).Ok? && DateFilter(dateStr).Ok?
    ensures r.Ok? ==> r.value == Responses(Filter(db.cards, Wanted(roomId, Some(caller), DateFilter(dateStr).value)))
    ensures r.Ok? && Present(dateStr) ==> |r.value| <= 1
  {
    match ClientAccess(db, caller, roomId)
    case Err(e) => Err(e)
    case Ok(_) =>
      match DateFilter(dateStr)
      case Err(e) => Err(e)
      case Ok(None) =>
        FilterExt(db.cards, (c: Card) => c.roomId == roomId && c.clientId == caller, Wanted(roomId, Some(caller), None));
        Ok(Responses(CardsOfRoomAndClient(db.cards, roomId, caller)))
      case Ok(Some(d)) =>
        FindCardIsFilter(db.cards, CardKey(roomId, caller, d));
        match FindCard(db.cards, CardKey(roomId, caller, d))
        case Some(c) => Ok([ToResponse(c)])
        case None => Ok([])
  }

  /** The four repository lookups of getCards: by key when both a client and a
      date are given, otherwise the room's cards narrowed by whichever filter is
      given. Each returns the room's cards that match the filters. */
  function SelectCards(db: Db, roomId: Id, client: Option<Id>, date: Option<Date>): (cs: seq<Card>)
    requires DistinctBy(db.cards, KeyOf)
    ensures cs == Filter(db.cards, Wanted(roomId, client, date))
  {
    if client.Some? && date.Some? then
      FindCardIsFilter(db.cards, CardKey(roomId, client.value, date.value));
      match FindCard(db.cards, CardKey(roomId, client.value, date.value))
      case Some(c) => [c]
      case None => []
    else if client.Some? then
      FilterExt(db.cards, (c: Card) => c.roomId == roomId && c.clientId == client.value, Wanted(roomId, client, date));
      CardsOfRoomAndClient(db.cards, roomId, client.value)
    else if date.Some? then
      FilterExt(db.cards, (c: Card) => c.roomId == roomId && c.date == date.value, Wanted(roomId, client, date));
      CardsOfRoomAndDate(db.cards, roomId, date.value)
    else
      FilterExt(db.cards, (c: Card) => c.roomId == roomId, Wanted(roomId, client, date));
      CardsOfRoom(db.cards, roomId)
  }

  /** getCards: only the room's creator. A non-empty client id must name a user
      (of any role, member or not); the result is the response, with client name
      and email, of exactly the room's cards that match the given client and date
      filters, in table order. */
  function GetCards(db: Db, caller: Id, roomId: Id, dateStr: NStr, clientId: NStr): (r: Result<seq<CardResponse>>)
    requires CardsOk(db)
    ensures OwnerAccess(db, caller, roomId).Err? ==> r == Err(OwnerAccess(db, caller, roomId).error)
    ensures (OwnerAccess(db, caller, roomId).Ok? && Present(clientId) && clientId.value !in db.users)
            ==> r == Err(ClientNotFound)
    ensures (OwnerAccess(db, caller, roomId).Ok? && (Present(clientId) ==> clientId.value in db.users)
             && DateFilter(dateStr).Err?) ==> r == Err(ValidationError)
    ensures r.Ok? <==> OwnerAccess(db, caller, roomId).Ok? && (Present(clientId) ==> clientId.value in db.users)
                       && DateFilter(dateStr).Ok?
    ensures r.Ok? ==>
      && var client := if Present(clientId) then clientId else None;
      && var wanted := Filter(db.cards, Wanted(roomId, client, DateFilter(dateStr).value));
      && (forall c :: c in wanted ==> c.clientId in db.users)
      && r.value == ResponsesWithClientInfo(db, wanted)
    ensures r.Ok? && Present(clientId) && Present(dateStr) ==> |r.value| <= 1
  {
    match OwnerAccess(db, caller, roomId)
    case Err(e) => Err(e)
    case Ok(_) =>
      if Present(clientId) && clientId.value !in db.users then Err(ClientNotFound)
      else
        match DateFilter(dateStr)
        case Err(e) => Err(e)
        case Ok(date) =>
          var client := if Present(clientId) then clientId else None;
          Ok(ResponsesWithClientInfo(db, SelectCards(db, roomId, client, date)))
  }

  // ---------------------------------------------------------------------------
  // Properties across operations

  /** What is written is what is read back: after saving a card, the client's
      getMyCards for that day returns exactly that card. */
  lemma SavedCardIsReadBack(db: Db, c: Card)
    requires WellFormed(db) && WellFormed(db.(cards := Upsert(db.cards, c)))
    requires ValidDate(c.date)
    requires ClientAccess(db, c.clientId, c.roomId).Ok?
    ensures GetMyCards(db.(cards := Upsert(db.cards, c)), c.clientId, c.roomId, Some(FormatDate(c.date)))
            == Ok([ToResponse(c)])
  {
    ParseFormat(c.date);
    UpsertFinds(db.cards, c);
    var db' := db.(cards := Upsert(db.cards, c));
    FindCardIsFilter(db'.cards, KeyOf(c));
  }

  /** Once a room is deleted, neither reader finds it any more. */
  lemma DeletedRoomHasNoCards(db: Db, roomId: Id, caller: Id, dateStr: NStr, clientId: NStr)
    requires WellFormed(db)
    requires caller in db.users
    ensures var db' := Db(db.users, RoomsOtherThan(db.rooms, roomId),
                          MembersOutsideRoom(db.members, roomId), CardsOutsideRoom(db.cards, roomId));
      && WellFormed(db')
      && (db.users[caller].role == Counselor ==> GetCards(db', caller, roomId, dateStr, clientId) == Err(RoomNotFound))
      && (db.users[caller].role == Client ==> GetMyCards(db', caller, roomId, dateStr) == Err(RoomNotFound))
  {
    CascadeWellFormed(db, roomId);
  }
}
