/** The DBTCard entity: one diary card of one client in one room for one calendar
    day, with its header, its day data, its yes/no and frequency enumerations and
    the persistence hooks that stamp it. */
module DbtCard {

  import opened Common
  import opened IsoDate

  /** The enum YesNo. */
  datatype YesNo = Yes | No

  /** Enum.name() */
  function YesNoName(v: YesNo): string {
    match v
    case Yes => "yes"
    case No => "no"
  }

  /** YesNo.valueOf; None stands for the IllegalArgumentException it throws. */
  function YesNoValueOf(s: string): (r: Option<YesNo>)
    ensures r.Some? <==> s == "yes" || s == "no"
    ensures r.Some? ==> YesNoName(r.value) == s
  {
    if s == "yes" then Some(Yes) else if s == "no" then Some(No) else None
  }

  /** The enum Frequency. */
  datatype Frequency = Daily | TwoToThreeDays | AllAtOnce

  /** Frequency.values(), in declaration order. */
  const Frequencies: seq<Frequency> := [Daily, TwoToThreeDays, AllAtOnce]

  /** Frequency.getValue */
  function FrequencyValue(f: Frequency): string {
    match f
    case Daily => "daily"
    case TwoToThreeDays => "2-3days"
    case AllAtOnce => "all-at-once"
  }

  /** Frequency.fromValue: a linear search of values() that returns the first
      constant whose value equals the argument. None stands for the
      IllegalArgumentException thrown when no constant matches. */
  method FrequencyFromValue(value: string) returns (r: Option<Frequency>)
    ensures r.Some? ==> FrequencyValue(r.value) == value
    ensures r.None? ==> forall f: Frequency :: FrequencyValue(f) != value
    ensures forall f: Frequency :: FrequencyValue(f) == value ==> r == Some(f)
  {
    var i := 0;
    while i < |Frequencies|
      invariant 0 <= i <= |Frequencies|
      invariant forall j :: 0 <= j < i ==> FrequencyValue(Frequencies[j]) != value
    {
      if FrequencyValue(Frequencies[i]) == value {
        return Some(Frequencies[i]);
      }
      i := i + 1;
    }
    assert FrequencyValue(Daily) != value && FrequencyValue(TwoToThreeDays) != value && FrequencyValue(AllAtOnce) != value by {
      assert Frequencies == [Daily, TwoToThreeDays, AllAtOnce];
      assert FrequencyValue(Frequencies[0]) != value && FrequencyValue(Frequencies[1]) != value;
      assert FrequencyValue(Frequencies[2]) != value;
    }
    return None;
  }

  /** The 27 free-text and intensity columns of the day data. The upsert copies
      every one of them from the request unconditionally, so they travel together. */
  datatype DayFields = DayFields(
    impulse1Text: NStr, impulse1Intensity: NStr,
    action1Text: NStr, action1Intensity: NStr,
    thoughtText: NStr, thoughtIntensity: NStr,
    action2Text: NStr, action2Intensity: NStr,
    impulse2Text: NStr, impulse2Intensity: NStr,
    action3Text: NStr, action3Intensity: NStr,
    targetBehavior1: NStr, targetBehavior2: NStr, skillUse: NStr,
    sleepTime: NStr, wakeTime: NStr,
    anger: NStr, angerKeyword: NStr,
    fear: NStr, fearKeyword: NStr,
    joy: NStr, joyKeyword: NStr,
    anxiety: NStr, anxietyKeyword: NStr,
    sadness: NStr, sadnessKeyword: NStr)

  /** Every day column null, as a freshly built entity has them. */
  const NoDayFields: DayFields := DayFields(
    None, None, None, None, None, None, None, None, None, None, None, None, None,
    None, None, None, None, None, None, None, None, None, None, None, None, None, None)

  /** The unique constraint (room_id, client_id, date). */
  datatype CardKey = CardKey(roomId: Id, clientId: Id, date: Date)

  /** A DBTCard row. The room, the client and the date are non-null columns, so
      they are plain values here; the timestamps are null until the card is
      persisted. */
  datatype Card = Card(
    cardId: Id,
    roomId: Id,
    clientId: Id,
    date: Date,
    headerName: NStr,
    headerWrittenDuringCounseling: Option<YesNo>,
    headerFrequency: NStr,
    day: DayFields,
    medication: Option<YesNo>,
    submittedAt: Option<Time>,
    updatedAt: Option<Time>)

  function KeyOf(c: Card): CardKey {
    CardKey(c.roomId, c.clientId, c.date)
  }

  function CardIdOf(c: Card): Id {
    c.cardId
  }

  /** DBTCard.builder().cardId(..).room(..).client(..).date(..).build() */
  function NewCard(cardId: Id, roomId: Id, clientId: Id, date: Date): (c: Card)
    ensures c.cardId == cardId && KeyOf(c) == CardKey(roomId, clientId, date)
    ensures c.headerName.None? && c.headerWrittenDuringCounseling.None? && c.headerFrequency.None?
    ensures c.day == NoDayFields && c.medication.None?
    ensures c.submittedAt.None? && c.updatedAt.None?
  {
    Card(cardId, roomId, clientId, date, None, None, None, NoDayFields, None, None, None)
  }

  /** The two cards agree on everything but their timestamps. */
  predicate SameContent(a: Card, b: Card) {
    a.(submittedAt := None, updatedAt := None) == b.(submittedAt := None, updatedAt := None)
  }

  /** The @PrePersist hook: both timestamps are set to the current time. */
  method OnCreate(card: Card, now: Time) returns (c: Card)
    ensures c.submittedAt == Some(now) && c.updatedAt == Some(now)
    ensures SameContent(c, card)
  {
    c := card.(submittedAt := Some(now));
    c := c.(updatedAt := Some(now));
  }

  /** The @PreUpdate hook: only updatedAt is refreshed; submittedAt, mapped with
      updatable = false, keeps its first value. */
  method OnUpdate(card: Card, now: Time) returns (c: Card)
    ensures c.updatedAt == Some(now)
    ensures c.submittedAt == card.submittedAt
    ensures SameContent(c, card)
  {
    c := card.(updatedAt := Some(now));
  }

  /** The hook that runs when the edited card is flushed: @PrePersist for a new card;
      for a stored one @PreUpdate, unless dirty checking finds no column changed
      since it was loaded, in which case nothing is written and no hook runs. */
  method Stamp(loaded: Option<Card>, card: Card, now: Time) returns (c: Card)
    ensures SameContent(c, card)
    ensures loaded.None? ==> c.submittedAt == Some(now) && c.updatedAt == Some(now)
    ensures loaded.Some? ==> c.submittedAt == card.submittedAt
    ensures loaded.Some? && SameContent(card, loaded.value) ==> c == card
    ensures loaded.Some? && !SameContent(card, loaded.value) ==> c.updatedAt == Some(now)
  {
    if loaded.None? {
      c := OnCreate(card, now);
    } else if SameContent(card, loaded.value) {
      c := card;
    } else {
      c := OnUpdate(card, now);
    }
  }
}
