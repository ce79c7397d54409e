/**
 What the signed text of an audit event says: the eight properties of the event, each under its name, and
 nothing else. So one text stands for one event, up to the writing of its payload.
 */
module AuditSealing {
  import opened Wrappers
  import opened Texts
  import opened CanonicalJson
  import opened AuditChain

  // ---------------------------------------------------------------------------
  // The names are eight
  // ---------------------------------------------------------------------------

  function KeyList(entries: Entries): seq<Text> {
    match entries
    case NoEntry => []
    case Entry(key, _, others) => [key] + KeyList(others)
  }

  lemma {:induction false} HasKeyIsListed(entries: Entries, key: Text)
    ensures HasKey(entries, key) <==> key in KeyList(entries)
  {
    if entries.Entry? {
      HasKeyIsListed(entries.others, key);
    }
  }

  /** Adding a property under a name that is not listed keeps the names distinct. */
  lemma AddDistinct(key: Text, value: Value, others: Entries)
    requires DistinctEntries(others) && DistinctKeys(value) && key !in KeyList(others)
    ensures DistinctEntries(Entry(key, value, others))
    ensures KeyList(Entry(key, value, others)) == [key] + KeyList(others)
  {
    HasKeyIsListed(others, key);
  }

  lemma NoEntryDistinct()
    ensures DistinctEntries(NoEntry) && KeyList(NoEntry) == []
  {
  }

  /** The names differ in length, or in their first unit where the lengths agree. */
  lemma NamesDiffer()
    ensures |TENANT_ID| == 8 && |EVENT_TYPE| == 9 && |AGGREGATE_TYPE| == 13 && |AGGREGATE_ID| == 11
    ensures |ACTOR_ID| == 7 && |REQUEST_ID| == 9 && |PAYLOAD| == 7 && |PREVIOUS_HASH| == 12
    ensures EVENT_TYPE[0] != REQUEST_ID[0] && ACTOR_ID[0] != PAYLOAD[0]
  {
  }

  lemma SealedTailDistinct(input: Input, previous: Option<Text>)
    requires DistinctKeys(input.payload)
    ensures DistinctEntries(SealedTail(input, previous))
    ensures KeyList(SealedTail(input, previous)) == [REQUEST_ID, PAYLOAD, PREVIOUS_HASH]
  {
    hide DistinctEntries, KeyList, Ascii;
    NoEntryDistinct();
    NamesDiffer();
    var e8 := Entry(PREVIOUS_HASH, TextOrNull(previous), NoEntry);
    AddDistinct(PREVIOUS_HASH, TextOrNull(previous), NoEntry);
    AddDistinct(PAYLOAD, input.payload, e8);
    AddDistinct(REQUEST_ID, TextOrNull(input.requestId), Entry(PAYLOAD, input.payload, e8));
  }

  lemma SealedKeysDistinct(input: Input, previous: Option<Text>)
    requires DistinctKeys(input.payload)
    ensures DistinctEntries(SealedEntries(input, previous))
  {
    hide DistinctEntries, KeyList, Ascii, SealedTail, Signed, DistinctKeys;
    NamesDiffer();
    SealedTailDistinct(input, previous);
    var e5 := Entry(ACTOR_ID, Str(input.actorId), SealedTail(input, previous));
    var e4 := Entry(AGGREGATE_ID, Str(input.aggregateId), e5);
    var e3 := Entry(AGGREGATE_TYPE, Str(input.aggregateType), e4);
    var e2 := Entry(EVENT_TYPE, Str(input.eventType), e3);
    AddDistinct(ACTOR_ID, Str(input.actorId), SealedTail(input, previous));
    AddDistinct(AGGREGATE_ID, Str(input.aggregateId), e5);
    AddDistinct(AGGREGATE_TYPE, Str(input.aggregateType), e4);
    AddDistinct(EVENT_TYPE, Str(input.eventType), e3);
    AddDistinct(TENANT_ID, Str(Signed(input.tenantId)), e2);
  }

  lemma SignedInjective(m: int, n: int)
    requires Signed(m) == Signed(n)
    ensures m == n
  {
    if m < 0 && n < 0 {
      assert Signed(m)[1..] == DigitsOf(-m) && Signed(n)[1..] == DigitsOf(-n);
      DigitsThenValue(-m);
      DigitsThenValue(-n);
    } else if m >= 0 && n >= 0 {
      DigitsThenValue(m);
      DigitsThenValue(n);
    }
  }

  lemma NamesAreOrdinary()
    ensures PROTO !in {TENANT_ID, EVENT_TYPE, AGGREGATE_TYPE, AGGREGATE_ID, ACTOR_ID, REQUEST_ID, PAYLOAD, PREVIOUS_HASH}
  {
    hide Ascii;
    NamesDiffer();
    assert EVENT_TYPE[0] != PROTO[0] && REQUEST_ID[0] != PROTO[0] by { EventAndRequestStart(); }
  }

  lemma EventAndRequestStart()
    ensures EVENT_TYPE[0] == 0x65 && REQUEST_ID[0] == 0x72
  {
  }

  /** The eight names, as they are spelled */
  lemma NamesAreSpelled()
    ensures TENANT_ID == Ascii("tenantId") && EVENT_TYPE == Ascii("eventType") && AGGREGATE_TYPE == Ascii("aggregateType")
    ensures AGGREGATE_ID == Ascii("aggregateId") && ACTOR_ID == Ascii("actorId") && REQUEST_ID == Ascii("requestId")
    ensures PAYLOAD == Ascii("payload") && PREVIOUS_HASH == Ascii("previousHash")
  {
    hide Ascii;
  }

  // ---------------------------------------------------------------------------
  // What the signed text says
  // ---------------------------------------------------------------------------

  function SaidOrNull(t: Option<Text>): Tree {
    if t.Some? then TString(t.value) else TNull
  }

  /** The last properties of a signed event; a payload that is undefined leaves its property out. */
  function SaidTail(input: Input, previous: Option<Text>): map<Text, Tree> {
    (if Meaning(input.payload).Some?
     then map[PREVIOUS_HASH := SaidOrNull(previous)][PAYLOAD := Meaning(input.payload).value]
     else map[PREVIOUS_HASH := SaidOrNull(previous)])
    [REQUEST_ID := SaidOrNull(input.requestId)]
  }

  /** What a signed event says, property by property */
  function Said(input: Input, previous: Option<Text>): map<Text, Tree> {
    SaidTail(input, previous)
    [ACTOR_ID := TString(input.actorId)]
    [AGGREGATE_ID := TString(input.aggregateId)]
    [AGGREGATE_TYPE := TString(input.aggregateType)]
    [EVENT_TYPE := TString(input.eventType)]
    [TENANT_ID := TString(Signed(input.tenantId))]
  }

  /** A property adds to an object what its value says. */
  lemma EntryAdds(key: Text, value: Value, others: Entries, said: map<Text, Tree>)
    requires key != PROTO && Meaning(value).Some? && EntriesMeaning(others) == Some(said)
    ensures EntriesMeaning(Entry(key, value, others)) == Some(said[key := Meaning(value).value])
  {
  }

  lemma MeaningOfTextOrNull(t: Option<Text>)
    ensures Meaning(TextOrNull(t)) == Some(SaidOrNull(t))
  {
  }

  lemma MeaningOfText(t: Text)
    ensures Meaning(Str(t)) == Some(TString(t))
  {
  }

  lemma NothingIsSaid()
    ensures EntriesMeaning(NoEntry) == Some(map[])
  {
  }

  lemma UndefinedAddsNothing(key: Text, others: Entries)
    ensures EntriesMeaning(Entry(key, Undefined, others)) == EntriesMeaning(others)
  {
  }

  predicate Sayable(payload: Value) {
    payload.Undefined? || Meaning(payload).Some?
  }

  lemma SealedTailSays(input: Input, previous: Option<Text>)
    requires Sayable(input.payload)
    ensures EntriesMeaning(SealedTail(input, previous)) == Some(SaidTail(input, previous))
  {
    hide Ascii, EntriesMeaning, TextOrNull, SaidOrNull;
    NamesAreOrdinary();
    MeaningOfTextOrNull(previous);
    MeaningOfTextOrNull(input.requestId);
    NothingIsSaid();
    EntryAdds(PREVIOUS_HASH, TextOrNull(previous), NoEntry, map[]);
    var last := Entry(PREVIOUS_HASH, TextOrNull(previous), NoEntry);
    var said := map[PREVIOUS_HASH := SaidOrNull(previous)];
    if input.payload.Undefined? {
      UndefinedAddsNothing(PAYLOAD, last);
      EntryAdds(REQUEST_ID, TextOrNull(input.requestId), Entry(PAYLOAD, input.payload, last), said);
    } else {
      EntryAdds(PAYLOAD, input.payload, last, said);
      EntryAdds(REQUEST_ID, TextOrNull(input.requestId), Entry(PAYLOAD, input.payload, last),
                said[PAYLOAD := Meaning(input.payload).value]);
    }
  }

  lemma SealedEntriesSay(input: Input, previous: Option<Text>)
    requires Sayable(input.payload)
    ensures EntriesMeaning(SealedEntries(input, previous)) == Some(Said(input, previous))
  {
    hide Ascii, EntriesMeaning, Meaning, Signed, SealedTail, SaidTail;
    NamesAreOrdinary();
    SealedTailSays(input, previous);
    MeaningOfText(input.actorId);
    MeaningOfText(input.aggregateId);
    MeaningOfText(input.aggregateType);
    MeaningOfText(input.eventType);
    MeaningOfText(Signed(input.tenantId));
    var m5, e5 := SaidTail(input, previous), SealedTail(input, previous);
    EntryAdds(ACTOR_ID, Str(input.actorId), e5, m5);
    var m4, e4 := m5[ACTOR_ID := TString(input.actorId)], Entry(ACTOR_ID, Str(input.actorId), e5);
    EntryAdds(AGGREGATE_ID, Str(input.aggregateId), e4, m4);
    var m3, e3 := m4[AGGREGATE_ID := TString(input.aggregateId)], Entry(AGGREGATE_ID, Str(input.aggregateId), e4);
    EntryAdds(AGGREGATE_TYPE, Str(input.aggregateType), e3, m3);
    var m2, e2 := m3[AGGREGATE_TYPE := TString(input.aggregateType)], Entry(AGGREGATE_TYPE, Str(input.aggregateType), e3);
    EntryAdds(EVENT_TYPE, Str(input.eventType), e2, m2);
    var m1, e1 := m2[EVENT_TYPE := TString(input.eventType)], Entry(EVENT_TYPE, Str(input.eventType), e2);
    EntryAdds(TENANT_ID, Str(Signed(input.tenantId)), e1, m1);
  }

  lemma PropertyMustSay(key: Text, value: Value, others: Entries)
    requires !value.Undefined? && Meaning(value).None?
    ensures EntriesMeaning(Entry(key, value, others)).None?
  {
  }

  lemma OthersMustSay(key: Text, value: Value, others: Entries)
    requires EntriesMeaning(others).None?
    ensures EntriesMeaning(Entry(key, value, others)).None?
  {
  }

  lemma UnsayablePayload(input: Input, previous: Option<Text>)
    requires !Sayable(input.payload)
    ensures EntriesMeaning(SealedEntries(input, previous)).None?
  {
    hide Ascii, EntriesMeaning, Meaning, Signed;
    var last := Entry(PREVIOUS_HASH, TextOrNull(previous), NoEntry);
    PropertyMustSay(PAYLOAD, input.payload, last);
    OthersMustSay(REQUEST_ID, TextOrNull(input.requestId), Entry(PAYLOAD, input.payload, last));
    var e5 := SealedTail(input, previous);
    OthersMustSay(ACTOR_ID, Str(input.actorId), e5);
    var e4 := Entry(ACTOR_ID, Str(input.actorId), e5);
    OthersMustSay(AGGREGATE_ID, Str(input.aggregateId), e4);
    var e3 := Entry(AGGREGATE_ID, Str(input.aggregateId), e4);
    OthersMustSay(AGGREGATE_TYPE, Str(input.aggregateType), e3);
    var e2 := Entry(AGGREGATE_TYPE, Str(input.aggregateType), e3);
    OthersMustSay(EVENT_TYPE, Str(input.eventType), e2);
    OthersMustSay(TENANT_ID, Str(Signed(input.tenantId)), Entry(EVENT_TYPE, Str(input.eventType), e2));
  }

  lemma RecordMeaning(entries: Entries)
    ensures Meaning(Record(entries)) == match EntriesMeaning(entries) case None => None case Some(said) => Some(TObject(said))
    ensures DistinctKeys(Record(entries)) <==> DistinctEntries(entries)
  {
  }

  /**
   The signed text of an event exists exactly when its payload says something or is left out, and it is the
   canonical text of the eight properties of the event under their names.
   */
  lemma SealedSaysExactly(input: Input, previous: Option<Text>)
    requires DistinctKeys(input.payload)
    ensures DistinctKeys(Sealed(input, previous))
    ensures Canonicalize(Sealed(input, previous)).Success? <==> Sayable(input.payload)
    ensures Sayable(input.payload) ==> Meaning(Sealed(input, previous)) == Some(TObject(Said(input, previous)))
  {
    hide EntriesMeaning, DistinctEntries, SealedEntries, Canonicalize, Said, Sayable;
    SealedKeysDistinct(input, previous);
    RecordMeaning(SealedEntries(input, previous));
    SupportedExactly(Sealed(input, previous));
    if Sayable(input.payload) {
      SealedEntriesSay(input, previous);
    } else {
      UnsayablePayload(input, previous);
    }
  }

  lemma SealedTextExists(row: Row)
    requires DistinctKeys(row.input.payload)
    ensures SealedText(row).Some? <==> Sayable(row.input.payload)
  {
    hide Canonicalize, Sayable;
    SealedSaysExactly(row.input, row.previousHash);
  }

  /** The eight names are different, so each property can be read back. */
  lemma SaidReadsBack(input: Input, previous: Option<Text>)
    ensures var said := Said(input, previous);
            && said[TENANT_ID] == TString(Signed(input.tenantId))
            && said[EVENT_TYPE] == TString(input.eventType)
            && said[AGGREGATE_TYPE] == TString(input.aggregateType)
            && said[AGGREGATE_ID] == TString(input.aggregateId)
            && said[ACTOR_ID] == TString(input.actorId)
            && said[REQUEST_ID] == SaidOrNull(input.requestId)
            && said[PREVIOUS_HASH] == SaidOrNull(previous)
            && (PAYLOAD in said <==> Meaning(input.payload).Some?)
            && (PAYLOAD in said ==> Some(said[PAYLOAD]) == Meaning(input.payload))
  {
    hide Ascii, Meaning, Signed, SaidOrNull;
    NamesDiffer();
  }

  /** The two events and the links they follow are the same in everything the trail records. */
  predicate SameEvent(a: Row, b: Row) {
    && a.input.tenantId == b.input.tenantId
    && a.input.eventType == b.input.eventType
    && a.input.aggregateType == b.input.aggregateType
    && a.input.aggregateId == b.input.aggregateId
    && a.input.actorId == b.input.actorId
    && a.input.requestId == b.input.requestId
    && Meaning(a.input.payload) == Meaning(b.input.payload)
    && a.previousHash == b.previousHash
  }

  lemma SaidIsTheEvent(a: Row, b: Row)
    ensures Said(a.input, a.previousHash) == Said(b.input, b.previousHash) <==> SameEvent(a, b)
  {
    hide Ascii, Meaning, Signed, Said;
    SaidReadsBack(a.input, a.previousHash);
    SaidReadsBack(b.input, b.previousHash);
    if Said(a.input, a.previousHash) == Said(b.input, b.previousHash) {
      SignedInjective(a.input.tenantId, b.input.tenantId);
    }
    if SameEvent(a, b) {
      SameEventSaysTheSame(a, b);
    }
  }

  lemma SameEventSaysTheSame(a: Row, b: Row)
    requires SameEvent(a, b)
    ensures Said(a.input, a.previousHash) == Said(b.input, b.previousHash)
  {
    hide Ascii, Meaning, Signed;
  }

  /** Two signed texts are the same exactly when the events and the hashes they follow are. */
  lemma SealedTextDetermines(a: Row, b: Row)
    requires DistinctKeys(a.input.payload) && DistinctKeys(b.input.payload)
    requires SealedText(a).Some? && SealedText(b).Some?
    ensures SealedText(a) == SealedText(b) <==> SameEvent(a, b)
  {
    hide EntriesMeaning, DistinctEntries, SealedEntries, Canonicalize, Signed, Said, SameEvent, Sayable;
    SealedSaysExactly(a.input, a.previousHash);
    SealedSaysExactly(b.input, b.previousHash);
    CanonicalTextIdentifies(Sealed(a.input, a.previousHash), Sealed(b.input, b.previousHash));
    SaidIsTheEvent(a, b);
  }
}
