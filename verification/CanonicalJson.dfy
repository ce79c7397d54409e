/**
 Canonical JSON: `normalize` turns a JavaScript value into a plain JSON tree with ordered keys and
 `canonicalize` prints that tree. The text identifies the value up to key order, undefined-valued
 keys and the textual rendering of money, big integers and dates.
 */
module CanonicalJson {
  import opened Wrappers
  import opened Texts
  import opened JsonText
  import Money

  /** The JavaScript values `normalize` distinguishes. */
  datatype Value =
    | Null
    | Bool(flag: bool)
    | Str(text: Text)
    | Number(repr: NumberText)
    | NonFinite
    | MoneyValue(money: Money.Money)
    | BigInteger(n: int)
    | Date(iso: Text)
    | InvalidDate
    | Undefined
    | Unsupported
    | List(elements: Elements)
    | Record(entries: Entries)

  datatype Elements = NoElement | Element(first: Value, others: Elements)

  /** The own enumerable properties of an object. */
  datatype Entries = NoEntry | Entry(key: Text, value: Value, others: Entries)

  datatype JsonError = NonFiniteNumber | InvalidTime | UnsupportedValue

  /** Assigning to this name on a plain object sets its prototype; it never becomes a property. */
  const PROTO: Text := [0x5f, 0x5f, 0x70, 0x72, 0x6f, 0x74, 0x6f, 0x5f, 0x5f]

  predicate HasKey(entries: Entries, key: Text) {
    match entries
    case NoEntry => false
    case Entry(k, _, others) => k == key || HasKey(others, key)
  }

  /** An object never holds a key twice, at any depth. */
  predicate DistinctKeys(v: Value) {
    match v
    case List(elements) => DistinctKeysIn(elements)
    case Record(entries) => DistinctEntries(entries)
    case _ => true
  }

  predicate DistinctKeysIn(elements: Elements) {
    match elements
    case NoElement => true
    case Element(first, others) => DistinctKeys(first) && DistinctKeysIn(others)
  }

  predicate DistinctEntries(entries: Entries) {
    match entries
    case NoEntry => true
    case Entry(key, value, others) => !HasKey(others, key) && DistinctKeys(value) && DistinctEntries(others)
  }

  // ---------------------------------------------------------------------------
  // The order of keys in the printed object
  // ---------------------------------------------------------------------------

  /** A property name that JavaScript orders numerically, ahead of every other name. */
  predicate IsArrayIndex(key: Text) {
    IsCanonicalDecimal(key) && ValueOf(key) <= 4294967294
  }

  /** Comparison by UTF-16 code units, as `Array.prototype.sort` does on strings. */
  predicate UnitsBefore(a: Text, b: Text) {
    if b == [] then false
    else if a == [] then true
    else if a[0] != b[0] then a[0] < b[0]
    else UnitsBefore(a[1..], b[1..])
  }

  /** Array indices by value, then the sorted names in the order they were assigned. */
  predicate KeyBefore(a: Text, b: Text) {
    if IsArrayIndex(a) && IsArrayIndex(b) then ValueOf(a) < ValueOf(b)
    else if IsArrayIndex(a) || IsArrayIndex(b) then IsArrayIndex(a)
    else UnitsBefore(a, b)
  }

  /** Adds a property at its place in the enumeration order. */
  function Insert(key: Text, value: Json, fields: Fields): Fields {
    match fields
    case NoField => Field(key, value, NoField)
    case Field(k, v, rest) =>
      if KeyBefore(key, k) then Field(key, value, fields) else Field(k, v, Insert(key, value, rest))
  }

  function Signed(n: int): Text {
    if n < 0 then [MINUS] + DigitsOf(-n) else DigitsOf(n)
  }

  function Normalize(v: Value): Result<Json, JsonError> {
    match v
    case Null => Success(JNull)
    case Bool(flag) => Success(JBool(flag))
    case Str(text) => Success(JString(text))
    case Number(repr) => Success(JNumber(repr))
    case NonFinite => Failure(NonFiniteNumber)
    case MoneyValue(money) => Success(JString(Money.Print(money)))
    case BigInteger(n) => Success(JString(Signed(n)))
    case Date(iso) => Success(JString(iso))
    case InvalidDate => Failure(InvalidTime)
    case Undefined => Failure(UnsupportedValue)
    case Unsupported => Failure(UnsupportedValue)
    case List(elements) =>
      (match NormalizeElements(elements)
       case Failure(e) => Failure(e)
       case Success(items) => Success(JArray(items)))
    case Record(entries) =>
      (match NormalizeEntries(entries)
       case Failure(e) => Failure(e)
       case Success(fields) => Success(JObject(fields)))
  }

  function NormalizeElements(elements: Elements): Result<Items, JsonError> {
    match elements
    case NoElement => Success(NoItem)
    case Element(first, others) =>
      match (Normalize(first), NormalizeElements(others))
      case (Failure(e), _) => Failure(e)
      case (_, Failure(e)) => Failure(e)
      case (Success(head), Success(rest)) => Success(Item(head, rest))
  }

  function NormalizeEntries(entries: Entries): Result<Fields, JsonError> {
    match entries
    case NoEntry => Success(NoField)
    case Entry(key, value, others) =>
      if value.Undefined? then NormalizeEntries(others)
      else
        match (Normalize(value), NormalizeEntries(others))
        case (Failure(e), _) => Failure(e)
        case (_, Failure(e)) => Failure(e)
        case (Success(json), Success(rest)) =>
          Success(if key == PROTO then rest else Insert(key, json, rest))
  }

  function Canonicalize(v: Value): Result<Text, JsonError> {
    match Normalize(v)
    case Failure(e) => Failure(e)
    case Success(json) => Success(Print(json))
  }

  // ---------------------------------------------------------------------------
  // What a value says, with no order among keys
  // ---------------------------------------------------------------------------

  datatype Tree =
    | TNull
    | TBool(flag: bool)
    | TNumber(repr: NumberText)
    | TString(text: Text)
    | TArray(items: seq<Tree>)
    | TObject(fields: map<Text, Tree>)

  function Meaning(v: Value): Option<Tree> {
    match v
    case Null => Some(TNull)
    case Bool(flag) => Some(TBool(flag))
    case Str(text) => Some(TString(text))
    case Number(repr) => Some(TNumber(repr))
    case MoneyValue(money) => Some(TString(Money.Print(money)))
    case BigInteger(n) => Some(TString(Signed(n)))
    case Date(iso) => Some(TString(iso))
    case List(elements) =>
      var items := ElementsMeaning(elements);
      if items.None? then None else Some(TArray(items.value))
    case Record(entries) =>
      var fields := EntriesMeaning(entries);
      if fields.None? then None else Some(TObject(fields.value))
    case _ => None
  }

  function ElementsMeaning(elements: Elements): Option<seq<Tree>> {
    match elements
    case NoElement => Some([])
    case Element(first, others) =>
      var head, rest := Meaning(first), ElementsMeaning(others);
      if head.None? || rest.None? then None else Some([head.value] + rest.value)
  }

  function EntriesMeaning(entries: Entries): Option<map<Text, Tree>> {
    match entries
    case NoEntry => Some(map[])
    case Entry(key, value, others) =>
      if value.Undefined? then EntriesMeaning(others)
      else
        var tree, rest := Meaning(value), EntriesMeaning(others);
        if tree.None? || rest.None? then None
        else if key == PROTO then rest
        else Some(rest.value[key := tree.value])
  }

  function JsonMeaning(j: Json): Tree {
    match j
    case JNull => TNull
    case JBool(flag) => TBool(flag)
    case JNumber(repr) => TNumber(repr)
    case JString(text) => TString(text)
    case JArray(items) => TArray(ItemsMeaning(items))
    case JObject(fields) => TObject(FieldsMeaning(fields))
  }

  function ItemsMeaning(items: Items): seq<Tree> {
    match items
    case NoItem => []
    case Item(head, rest) => [JsonMeaning(head)] + ItemsMeaning(rest)
  }

  function FieldsMeaning(fields: Fields): map<Text, Tree> {
    match fields
    case NoField => map[]
    case Field(key, value, rest) => FieldsMeaning(rest)[key := JsonMeaning(value)]
  }

  // ---------------------------------------------------------------------------
  // The key order is a strict total order
  // ---------------------------------------------------------------------------

  lemma {:induction false} UnitsTotal(a: Text, b: Text)
    ensures !UnitsBefore(a, a)
    ensures a != b ==> UnitsBefore(a, b) != UnitsBefore(b, a)
    decreases |a|
  {
    if a != [] {
      UnitsTotal(a[1..], if b == [] then [] else b[1..]);
      assert a == [a[0]] + a[1..];
      if b != [] {
        assert b == [b[0]] + b[1..];
      }
    }
  }

  lemma {:induction false} UnitsTransitive(a: Text, b: Text, c: Text)
    requires UnitsBefore(a, b) && UnitsBefore(b, c)
    ensures UnitsBefore(a, c)
    decreases |a|
  {
    if a != [] && a[0] == b[0] && b[0] == c[0] {
      UnitsTransitive(a[1..], b[1..], c[1..]);
    }
  }

  lemma KeysTotal(a: Text, b: Text)
    ensures !KeyBefore(a, a)
    ensures a != b ==> KeyBefore(a, b) != KeyBefore(b, a)
  {
    UnitsTotal(a, b);
    if IsArrayIndex(a) && IsArrayIndex(b) {
      ValueThenDigits(a);
      ValueThenDigits(b);
    }
  }

  lemma KeysTransitive(a: Text, b: Text, c: Text)
    requires KeyBefore(a, b) && KeyBefore(b, c)
    ensures KeyBefore(a, c)
  {
    if !IsArrayIndex(a) && !IsArrayIndex(b) && !IsArrayIndex(c) {
      UnitsTransitive(a, b, c);
    }
  }

  // ---------------------------------------------------------------------------
  // Normal trees
  // ---------------------------------------------------------------------------

  predicate BeforeAll(key: Text, fields: Fields) {
    match fields
    case NoField => true
    case Field(k, _, rest) => KeyBefore(key, k) && BeforeAll(key, rest)
  }

  /** Keys in enumeration order at every depth, and no prototype key among them. */
  predicate IsNormal(j: Json) {
    match j
    case JArray(items) => AllNormal(items)
    case JObject(fields) => FieldsNormal(fields)
    case _ => true
  }

  predicate AllNormal(items: Items) {
    match items
    case NoItem => true
    case Item(head, rest) => IsNormal(head) && AllNormal(rest)
  }

  predicate FieldsNormal(fields: Fields) {
    match fields
    case NoField => true
    case Field(key, value, rest) => key != PROTO && BeforeAll(key, rest) && IsNormal(value) && FieldsNormal(rest)
  }

  lemma {:induction false} BeforeAllSkips(a: Text, b: Text, fields: Fields)
    requires KeyBefore(a, b) && BeforeAll(b, fields)
    ensures BeforeAll(a, fields)
  {
    if fields.Field? {
      KeysTransitive(a, b, fields.key);
      BeforeAllSkips(a, b, fields.rest);
    }
  }

  lemma {:induction false} BeforeAllMeansAbsent(key: Text, fields: Fields)
    requires BeforeAll(key, fields)
    ensures key !in FieldsMeaning(fields)
  {
    if fields.Field? {
      KeysTotal(key, fields.key);
      BeforeAllMeansAbsent(key, fields.rest);
    }
  }

  lemma {:induction false} InsertKeepsOrder(a: Text, key: Text, value: Json, fields: Fields)
    requires KeyBefore(a, key) && BeforeAll(a, fields)
    ensures BeforeAll(a, Insert(key, value, fields))
  {
    if fields.Field? && !KeyBefore(key, fields.key) {
      InsertKeepsOrder(a, key, value, fields.rest);
    }
  }

  lemma {:induction false} InsertCorrect(key: Text, value: Json, fields: Fields)
    requires key != PROTO && IsNormal(value) && FieldsNormal(fields) && key !in FieldsMeaning(fields)
    ensures FieldsNormal(Insert(key, value, fields))
    ensures FieldsMeaning(Insert(key, value, fields)) == FieldsMeaning(fields)[key := JsonMeaning(value)]
  {
    hide KeyBefore, IsNormal, JsonMeaning;
    if fields.Field? {
      KeysTotal(key, fields.key);
      if KeyBefore(key, fields.key) {
        BeforeAllSkips(key, fields.key, fields.rest);
      } else {
        InsertCorrect(key, value, fields.rest);
        InsertKeepsOrder(fields.key, key, value, fields.rest);
      }
    }
  }

  /** Normalizing succeeds exactly on the supported values, keeps what they say and orders the keys. */
  lemma {:induction false} NormalizeCorrect(v: Value)
    requires DistinctKeys(v)
    ensures Normalize(v).Success? <==> Meaning(v).Some?
    ensures Normalize(v).Success? ==> IsNormal(Normalize(v).value) && JsonMeaning(Normalize(v).value) == Meaning(v).value
  {
    match v
    case List(elements) => NormalizeElementsCorrect(elements);
    case Record(entries) => NormalizeEntriesCorrect(entries);
    case _ =>
  }

  lemma {:induction false} NormalizeElementsCorrect(elements: Elements)
    requires DistinctKeysIn(elements)
    ensures NormalizeElements(elements).Success? <==> ElementsMeaning(elements).Some?
    ensures NormalizeElements(elements).Success? ==>
      && AllNormal(NormalizeElements(elements).value)
      && ItemsMeaning(NormalizeElements(elements).value) == ElementsMeaning(elements).value
  {
    if elements.Element? {
      NormalizeCorrect(elements.first);
      NormalizeElementsCorrect(elements.others);
    }
  }

  lemma {:induction false} AbsentKeyIsUnsaid(entries: Entries, key: Text)
    requires !HasKey(entries, key) && EntriesMeaning(entries).Some?
    ensures key !in EntriesMeaning(entries).value
  {
    if entries.Entry? {
      AbsentKeyIsUnsaid(entries.others, key);
    }
  }

  lemma {:induction false} NormalizeEntriesCorrect(entries: Entries)
    requires DistinctEntries(entries)
    ensures NormalizeEntries(entries).Success? <==> EntriesMeaning(entries).Some?
    ensures NormalizeEntries(entries).Success? ==>
      && FieldsNormal(NormalizeEntries(entries).value)
      && FieldsMeaning(NormalizeEntries(entries).value) == EntriesMeaning(entries).value
  {
    if entries.Entry? {
      NormalizeEntriesCorrect(entries.others);
      NormalizeCorrect(entries.value);
      if NormalizeEntries(entries).Success? && !entries.value.Undefined? && entries.key != PROTO {
        AbsentKeyIsUnsaid(entries.others, entries.key);
        InsertCorrect(entries.key, Normalize(entries.value).value, NormalizeEntries(entries.others).value);
      }
    }
  }

  // ---------------------------------------------------------------------------
  // A normal tree is determined by what it says
  // ---------------------------------------------------------------------------

  lemma {:induction false} BeforeAllKeys(key: Text, fields: Fields, k: Text)
    requires BeforeAll(key, fields) && k in FieldsMeaning(fields)
    ensures KeyBefore(key, k)
  {
    if fields.Field? && k != fields.key {
      BeforeAllKeys(key, fields.rest, k);
    }
  }

  /** In a normal object the first field has the least key. */
  lemma FirstKeyLeast(fields: Fields, k: Text)
    requires fields.Field? && FieldsNormal(fields) && k in FieldsMeaning(fields)
    ensures k == fields.key || KeyBefore(fields.key, k)
  {
    if k != fields.key {
      BeforeAllKeys(fields.key, fields.rest, k);
    }
  }

  lemma SameFirstKey(a: Fields, b: Fields)
    requires a.Field? && b.Field? && FieldsNormal(a) && FieldsNormal(b)
    requires FieldsMeaning(a) == FieldsMeaning(b)
    ensures a.key == b.key
    ensures FieldsMeaning(a.rest) == FieldsMeaning(b.rest) && JsonMeaning(a.value) == JsonMeaning(b.value)
  {
    hide KeyBefore, IsNormal, JsonMeaning;
    assert a.key in FieldsMeaning(a) && b.key in FieldsMeaning(b);
    FirstKeyLeast(a, b.key);
    FirstKeyLeast(b, a.key);
    KeysTotal(a.key, b.key);
    BeforeAllMeansAbsent(a.key, a.rest);
    BeforeAllMeansAbsent(b.key, b.rest);
    assert FieldsMeaning(a.rest) == FieldsMeaning(a) - {a.key};
    assert FieldsMeaning(b.rest) == FieldsMeaning(b) - {b.key};
    assert JsonMeaning(a.value) == FieldsMeaning(a)[a.key] == FieldsMeaning(b)[b.key];
  }

  lemma {:induction false} NormalDetermined(a: Json, b: Json)
    requires IsNormal(a) && IsNormal(b) && JsonMeaning(a) == JsonMeaning(b)
    ensures a == b
  {
    match a
    case JArray(items) => ItemsDetermined(items, b.items);
    case JObject(fields) => FieldsDetermined(fields, b.fields);
    case _ =>
  }

  lemma {:induction false} ItemsDetermined(a: Items, b: Items)
    requires AllNormal(a) && AllNormal(b) && ItemsMeaning(a) == ItemsMeaning(b)
    ensures a == b
  {
    if a.Item? {
      assert b.Item?;
      var ta, tb := ItemsMeaning(a), ItemsMeaning(b);
      assert ta[0] == tb[0] && ta[1..] == tb[1..];
      assert ta[1..] == ItemsMeaning(a.rest) && tb[1..] == ItemsMeaning(b.rest);
      NormalDetermined(a.head, b.head);
      ItemsDetermined(a.rest, b.rest);
    }
  }

  lemma {:induction false} FieldsDetermined(a: Fields, b: Fields)
    requires FieldsNormal(a) && FieldsNormal(b) && FieldsMeaning(a) == FieldsMeaning(b)
    ensures a == b
  {
    assert a.Field? ==> a.key in FieldsMeaning(a);
    assert b.Field? ==> b.key in FieldsMeaning(b);
    if a.Field? {
      assert b.Field?;
      SameFirstKey(a, b);
      NormalDetermined(a.value, b.value);
      FieldsDetermined(a.rest, b.rest);
    }
  }

  // ---------------------------------------------------------------------------
  // Main results
  // ---------------------------------------------------------------------------

  /** Two supported values have one canonical text exactly when they say the same. */
  lemma CanonicalTextIdentifies(a: Value, b: Value)
    requires DistinctKeys(a) && DistinctKeys(b)
    requires Canonicalize(a).Success? && Canonicalize(b).Success?
    ensures Meaning(a).Some? && Meaning(b).Some?
    ensures Canonicalize(a) == Canonicalize(b) <==> Meaning(a) == Meaning(b)
    ensures Canonicalize(a) == Canonicalize(b) <==> Normalize(a) == Normalize(b)
  {
    NormalizeCorrect(a);
    NormalizeCorrect(b);
    var ja, jb := Normalize(a).value, Normalize(b).value;
    if Print(ja) == Print(jb) {
      PrintInjective(ja, jb);
    }
    if Meaning(a) == Meaning(b) {
      NormalDetermined(ja, jb);
    }
  }

  /** Something in the value raises the error: no finite number, no valid date, or nothing JSON can hold. */
  predicate Raises(v: Value, e: JsonError) {
    match v
    case NonFinite => e == NonFiniteNumber
    case InvalidDate => e == InvalidTime
    case Undefined => e == UnsupportedValue
    case Unsupported => e == UnsupportedValue
    case List(elements) => ElementRaises(elements, e)
    case Record(entries) => EntryRaises(entries, e)
    case _ => false
  }

  predicate ElementRaises(elements: Elements, e: JsonError) {
    elements.Element? && (Raises(elements.first, e) || ElementRaises(elements.others, e))
  }

  /** A property whose value is undefined is left out and raises nothing. */
  predicate EntryRaises(entries: Entries, e: JsonError) {
    && entries.Entry?
    && ((entries.value != Undefined && Raises(entries.value, e)) || EntryRaises(entries.others, e))
  }

  /** A value fails exactly when something in it raises an error, and then with one that is raised. */
  lemma {:induction false} FailsExactly(v: Value, e: JsonError)
    ensures Raises(v, e) ==> Canonicalize(v).Failure?
    ensures Canonicalize(v).Failure? ==> Raises(v, Canonicalize(v).error)
  {
    match v
    case List(elements) => ElementsFailExactly(elements, e);
    case Record(entries) => EntriesFailExactly(entries, e);
    case _ =>
  }

  lemma {:induction false} ElementsFailExactly(elements: Elements, e: JsonError)
    ensures ElementRaises(elements, e) ==> NormalizeElements(elements).Failure?
    ensures NormalizeElements(elements).Failure? ==> ElementRaises(elements, NormalizeElements(elements).error)
  {
    if elements.Element? {
      FailsExactly(elements.first, e);
      ElementsFailExactly(elements.others, e);
    }
  }

  lemma {:induction false} EntriesFailExactly(entries: Entries, e: JsonError)
    ensures EntryRaises(entries, e) ==> NormalizeEntries(entries).Failure?
    ensures NormalizeEntries(entries).Failure? ==> EntryRaises(entries, NormalizeEntries(entries).error)
  {
    if entries.Entry? {
      FailsExactly(entries.value, e);
      EntriesFailExactly(entries.others, e);
    }
  }

  /** A value has a canonical text exactly when it says something. */
  lemma SupportedExactly(v: Value)
    requires DistinctKeys(v)
    ensures Canonicalize(v).Success? <==> Meaning(v).Some?
  {
    NormalizeCorrect(v);
  }

  /** The name under which nothing is kept */
  lemma PrototypeIsSpelled()
    ensures PROTO == Ascii("__proto__")
  {
  }

  /** Adding a property changes the text except when its value is undefined or it names the prototype. */
  lemma EntryIsVisible(key: Text, value: Value, others: Entries)
    requires DistinctEntries(Entry(key, value, others))
    requires Canonicalize(Record(Entry(key, value, others))).Success?
    ensures Canonicalize(Record(others)).Success?
    ensures Canonicalize(Record(Entry(key, value, others))) == Canonicalize(Record(others))
       <==> value.Undefined? || key == PROTO
  {
    var a, b := Record(Entry(key, value, others)), Record(others);
    NormalizeCorrect(a);
    NormalizeCorrect(b);
    CanonicalTextIdentifies(a, b);
    AbsentKeyIsUnsaid(others, key);
    if !value.Undefined? && key != PROTO {
      assert key in EntriesMeaning(a.entries).value;
    }
  }

  /** The properties of an object as a set: two listings of one object have the same set. */
  function EntrySet(entries: Entries): set<(Text, Value)> {
    match entries
    case NoEntry => {}
    case Entry(key, value, others) => {(key, value)} + EntrySet(others)
  }

  lemma {:induction false} HasKeyIsInSet(entries: Entries, key: Text)
    ensures HasKey(entries, key) <==> exists v :: (key, v) in EntrySet(entries)
  {
    if entries.Entry? {
      HasKeyIsInSet(entries.others, key);
      assert (entries.key, entries.value) in EntrySet(entries);
    }
  }

  /** What an object says about a key is what the value of that key says. */
  lemma {:induction false} SaidOfKey(entries: Entries, key: Text)
    requires DistinctEntries(entries) && EntriesMeaning(entries).Some?
    ensures key in EntriesMeaning(entries).value
       <==> exists v :: (key, v) in EntrySet(entries) && v != Undefined && key != PROTO
    ensures forall v :: (key, v) in EntrySet(entries) && v != Undefined && key != PROTO ==>
              Some(EntriesMeaning(entries).value[key]) == Meaning(v)
  {
    if entries.Entry? {
      SaidOfKey(entries.others, key);
      HasKeyIsInSet(entries.others, entries.key);
      assert (entries.key, entries.value) in EntrySet(entries);
    }
  }

  lemma {:induction false} EntryMeaningDefined(entries: Entries)
    requires DistinctEntries(entries)
    ensures EntriesMeaning(entries).Some?
       <==> forall e :: e in EntrySet(entries) ==> e.1 == Undefined || Meaning(e.1).Some?
  {
    if entries.Entry? {
      EntryMeaningDefined(entries.others);
      assert (entries.key, entries.value) in EntrySet(entries);
      assert forall e :: e in EntrySet(entries) <==> e == (entries.key, entries.value) || e in EntrySet(entries.others);
    }
  }

  /** The order in which an object lists its properties does not reach the text. */
  lemma ReorderingKeepsText(a: Entries, b: Entries)
    requires DistinctEntries(a) && DistinctEntries(b) && EntrySet(a) == EntrySet(b)
    ensures Canonicalize(Record(a)).Success? <==> Canonicalize(Record(b)).Success?
    ensures Canonicalize(Record(a)).Success? ==> Canonicalize(Record(a)) == Canonicalize(Record(b))
  {
    NormalizeCorrect(Record(a));
    NormalizeCorrect(Record(b));
    EntryMeaningDefined(a);
    EntryMeaningDefined(b);
    if Canonicalize(Record(a)).Success? {
      var ma, mb := EntriesMeaning(a).value, EntriesMeaning(b).value;
      forall key
        ensures key in ma <==> key in mb
        ensures key in ma ==> ma[key] == mb[key]
      {
        SaidOfKey(a, key);
        SaidOfKey(b, key);
      }
      assert ma == mb;
      CanonicalTextIdentifies(Record(a), Record(b));
    }
  }

  /** A JSON tree seen again as a JavaScript value. */
  function Embed(j: Json): Value {
    match j
    case JNull => Null
    case JBool(flag) => Bool(flag)
    case JNumber(repr) => Number(repr)
    case JString(text) => Str(text)
    case JArray(items) => List(EmbedItems(items))
    case JObject(fields) => Record(EmbedFields(fields))
  }

  function EmbedItems(items: Items): Elements {
    match items
    case NoItem => NoElement
    case Item(head, rest) => Element(Embed(head), EmbedItems(rest))
  }

  function EmbedFields(fields: Fields): Entries {
    match fields
    case NoField => NoEntry
    case Field(key, value, rest) => Entry(key, Embed(value), EmbedFields(rest))
  }

  lemma {:induction false} NormalIsFixed(j: Json)
    requires IsNormal(j)
    ensures Normalize(Embed(j)) == Success(j)
  {
    match j
    case JArray(items) => ItemsFixed(items);
    case JObject(fields) => FieldsFixed(fields);
    case _ =>
  }

  lemma {:induction false} ItemsFixed(items: Items)
    requires AllNormal(items)
    ensures NormalizeElements(EmbedItems(items)) == Success(items)
  {
    if items.Item? {
      NormalIsFixed(items.head);
      ItemsFixed(items.rest);
    }
  }

  lemma {:induction false} FieldsFixed(fields: Fields)
    requires FieldsNormal(fields)
    ensures NormalizeEntries(EmbedFields(fields)) == Success(fields)
  {
    if fields.Field? {
      NormalIsFixed(fields.value);
      FieldsFixed(fields.rest);
    }
  }

  /** Normalizing is idempotent. */
  lemma NormalizeIdempotent(v: Value)
    requires DistinctKeys(v) && Normalize(v).Success?
    ensures Normalize(Embed(Normalize(v).value)) == Normalize(v)
  {
    NormalizeCorrect(v);
    NormalIsFixed(Normalize(v).value);
  }
}
