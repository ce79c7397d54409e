/**
 The canonical text as anyone else reads it: JSON, of exactly what the value says, its keys in one fixed order.
 */
module CanonicalText {
  import opened Wrappers
  import opened Texts
  import opened JsonText
  import opened JsonReader
  import opened CanonicalJson

  // ---------------------------------------------------------------------------
  // The order of names
  // ---------------------------------------------------------------------------

  /** The name is the decimal numeral of n, and JavaScript lists it as an array index. */
  ghost predicate IsIndex(key: Text, n: nat) {
    n < 0xffff_ffff && key == DigitsOf(n)
  }

  ghost predicate SomeIndex(key: Text) {
    exists n: nat :: IsIndex(key, n)
  }

  /** The texts agree before k, where the first ends or has the smaller unit. */
  predicate SmallerAt(a: Text, b: Text, k: nat) {
    k <= |a| && k < |b| && a[..k] == b[..k] && (k == |a| || a[k] < b[k])
  }

  ghost predicate SmallerUnits(a: Text, b: Text) {
    exists k: nat :: SmallerAt(a, b, k)
  }

  /** Indices first, by number; all other names behind them, by their UTF-16 units */
  ghost predicate Precedes(a: Text, b: Text) {
    || (exists m: nat, n: nat :: IsIndex(a, m) && IsIndex(b, n) && m < n)
    || (SomeIndex(a) && !SomeIndex(b))
    || (!SomeIndex(a) && !SomeIndex(b) && SmallerUnits(a, b))
  }

  lemma IndexExactly(key: Text)
    ensures SomeIndex(key) <==> IsArrayIndex(key)
    ensures IsArrayIndex(key) ==> IsIndex(key, ValueOf(key))
  {
    if IsArrayIndex(key) {
      ValueThenDigits(key);
      assert IsIndex(key, ValueOf(key));
    }
    if SomeIndex(key) {
      var n: nat :| IsIndex(key, n);
      DigitsThenValue(n);
    }
  }

  lemma {:induction false} UnitsExactly(a: Text, b: Text)
    requires UnitsBefore(a, b)
    ensures SmallerUnits(a, b)
    decreases |a|
  {
    if a == [] || a[0] != b[0] {
      assert SmallerAt(a, b, 0);
    } else {
      UnitsExactly(a[1..], b[1..]);
      var k: nat :| SmallerAt(a[1..], b[1..], k);
      assert a[..k + 1] == [a[0]] + a[1..][..k] && b[..k + 1] == [b[0]] + b[1..][..k];
      assert SmallerAt(a, b, k + 1);
    }
  }

  lemma KeyBeforePrecedes(a: Text, b: Text)
    requires KeyBefore(a, b)
    ensures Precedes(a, b)
  {
    hide SmallerUnits;
    IndexExactly(a);
    IndexExactly(b);
    if IsArrayIndex(a) && IsArrayIndex(b) {
      assert IsIndex(a, ValueOf(a)) && IsIndex(b, ValueOf(b)) && ValueOf(a) < ValueOf(b);
    } else if !IsArrayIndex(a) && !IsArrayIndex(b) {
      UnitsExactly(a, b);
    }
  }

  function KeysOf(fields: Fields): seq<Text> {
    match fields
    case NoField => []
    case Field(key, _, rest) => [key] + KeysOf(rest)
  }

  ghost predicate Rising(keys: seq<Text>) {
    forall i, k | 0 <= i < k < |keys| :: Precedes(keys[i], keys[k])
  }

  /** At every depth the keys of an object rise. */
  ghost predicate KeysRise(j: Json) {
    match j
    case JArray(items) => KeysRiseInItems(items)
    case JObject(fields) => Rising(KeysOf(fields)) && KeysRiseInFields(fields)
    case _ => true
  }

  ghost predicate KeysRiseInItems(items: Items) {
    match items
    case NoItem => true
    case Item(head, rest) => KeysRise(head) && KeysRiseInItems(rest)
  }

  ghost predicate KeysRiseInFields(fields: Fields) {
    match fields
    case NoField => true
    case Field(_, value, rest) => KeysRise(value) && KeysRiseInFields(rest)
  }

  lemma {:induction false} BeforeAllPrecedes(key: Text, fields: Fields, i: nat)
    requires BeforeAll(key, fields) && i < |KeysOf(fields)|
    ensures Precedes(key, KeysOf(fields)[i])
  {
    hide KeyBefore, Precedes;
    if i == 0 {
      KeyBeforePrecedes(key, fields.key);
    } else {
      BeforeAllPrecedes(key, fields.rest, i - 1);
    }
  }

  lemma {:induction false} NormalFieldsRise(fields: Fields)
    requires FieldsNormal(fields)
    ensures Rising(KeysOf(fields))
  {
    hide KeyBefore, Precedes, IsNormal;
    if fields.Field? {
      NormalFieldsRise(fields.rest);
      var keys := KeysOf(fields);
      forall i, k | 0 <= i < k < |keys|
        ensures Precedes(keys[i], keys[k])
      {
        if i == 0 {
          BeforeAllPrecedes(fields.key, fields.rest, k - 1);
        } else {
          assert keys[i] == KeysOf(fields.rest)[i - 1] && keys[k] == KeysOf(fields.rest)[k - 1];
        }
      }
    }
  }

  lemma {:induction false} NormalKeysRise(j: Json)
    requires IsNormal(j)
    ensures KeysRise(j)
  {
    hide Rising;
    match j
    case JArray(items) => NormalItemsRise(items);
    case JObject(fields) =>
      NormalFieldsRise(fields);
      NormalValuesRise(fields);
    case _ =>
  }

  lemma {:induction false} NormalItemsRise(items: Items)
    requires AllNormal(items)
    ensures KeysRiseInItems(items)
  {
    if items.Item? {
      NormalKeysRise(items.head);
      NormalItemsRise(items.rest);
    }
  }

  lemma {:induction false} NormalValuesRise(fields: Fields)
    requires FieldsNormal(fields)
    ensures KeysRiseInFields(fields)
  {
    hide BeforeAll;
    if fields.Field? {
      NormalKeysRise(fields.value);
      NormalValuesRise(fields.rest);
    }
  }

  /**
   Whoever reads the canonical text as JSON gets what the value says, with the keys of every object in order; and
   no JSON text of the same tree is shorter.
   */
  lemma CanonicalTextReads(v: Value)
    requires DistinctKeys(v) && Canonicalize(v).Success?
    ensures var read := ReadText(Canonicalize(v).value);
            read.Some? && Some(JsonMeaning(read.value)) == Meaning(v) && KeysRise(read.value)
    ensures forall t: Text :: ReadText(t) == ReadText(Canonicalize(v).value) ==> |Canonicalize(v).value| <= |t|
  {
    hide ReadText, IsNormal, KeysRise, Print;
    NormalizeCorrect(v);
    var json := Normalize(v).value;
    PrintIsJson(json);
    NormalKeysRise(json);
    forall t: Text | ReadText(t) == Some(json)
      ensures |Print(json)| <= |t|
    {
      PrintIsShortest(t, json);
    }
  }
}
