/**
 JSON text of normalized values, as `JSON.stringify` writes it, and its unique decodability:
 one text can be read back as one value only.
 */
module JsonText {
  import opened Texts

  /** The units a finite number can be written with: digits, sign, point and exponent mark. */
  predicate IsNumberUnit(u: CodeUnit) {
    IsDigit(u) || u == PLUS || u == MINUS || u == DOT || u == 0x65
  }

  /** The number of digits that t opens with */
  function LeadingDigits(t: Text): (n: nat)
    ensures n <= |t|
    ensures forall i | 0 <= i < n :: IsDigit(t[i])
    ensures n < |t| ==> !IsDigit(t[n])
  {
    if t != [] && IsDigit(t[0]) then LeadingDigits(t[1..]) + 1 else 0
  }

  /** The exponent of section 6 of RFC 8259, if there is one */
  predicate IsExponent(t: Text) {
    t == [] || (t[0] in {0x65, 0x45} && IsDigitRun(if |t| > 1 && t[1] in {0x2b, 0x2d} then t[2..] else t[1..]))
  }

  predicate IsDigitRun(t: Text) {
    t != [] && AllDigits(t)
  }

  /** The fraction, if there is one, and the exponent */
  predicate IsFraction(t: Text) {
    if t != [] && t[0] == 0x2e then
      var n := LeadingDigits(t[1..]);
      n > 0 && IsExponent(t[1 + n..])
    else IsExponent(t)
  }

  /** A number of section 6 of RFC 8259: no leading zeros, digits around the point and in the exponent */
  predicate IsNumber(t: Text) {
    var u := if t != [] && t[0] == 0x2d then t[1..] else t;
    var n := LeadingDigits(u);
    n > 0 && (u[0] == 0x30 ==> n == 1) && IsFraction(u[n..])
  }

  /** A finite number is represented by the text JavaScript writes for it (so 0 and -0 are one). */
  type NumberText = t: Text | (forall i | 0 <= i < |t| :: IsNumberUnit(t[i])) && IsNumber(t)
    witness [0x30]

  datatype Json =
    | JNull
    | JBool(flag: bool)
    | JNumber(repr: NumberText)
    | JString(text: Text)
    | JArray(items: Items)
    | JObject(fields: Fields)

  datatype Items = NoItem | Item(head: Json, rest: Items)

  datatype Fields = NoField | Field(key: Text, value: Json, rest: Fields)

  const QUOTE: CodeUnit := 0x22
  const BACKSLASH: CodeUnit := 0x5c
  const COMMA: CodeUnit := 0x2c
  const COLON: CodeUnit := 0x3a
  const OPEN_BRACKET: CodeUnit := 0x5b
  const CLOSE_BRACKET: CodeUnit := 0x5d
  const OPEN_BRACE: CodeUnit := 0x7b
  const CLOSE_BRACE: CodeUnit := 0x7d
  const NULL_TEXT: Text := [0x6e, 0x75, 0x6c, 0x6c]
  const TRUE_TEXT: Text := [0x74, 0x72, 0x75, 0x65]
  const FALSE_TEXT: Text := [0x66, 0x61, 0x6c, 0x73, 0x65]

  predicate IsHighSurrogate(u: CodeUnit) {
    0xd800 <= u <= 0xdbff
  }

  predicate IsLowSurrogate(u: CodeUnit) {
    0xdc00 <= u <= 0xdfff
  }

  function HexDigit(n: int): CodeUnit
    requires 0 <= n < 16
  {
    if n < 10 then 0x30 + n else 0x57 + n
  }

  /** `\uXXXX`, lower-case */
  function HexEscape(u: CodeUnit): Text {
    [BACKSLASH, 0x75, HexDigit(u / 4096), HexDigit(u / 256 % 16), HexDigit(u / 16 % 16), HexDigit(u % 16)]
  }

  /** The escape of one unit standing alone (section 7 of RFC 8259, and lone surrogates). */
  function EscapeUnit(u: CodeUnit): Text {
    if u == QUOTE then [BACKSLASH, QUOTE]
    else if u == BACKSLASH then [BACKSLASH, BACKSLASH]
    else if u == 0x08 then [BACKSLASH, 0x62]
    else if u == 0x0c then [BACKSLASH, 0x66]
    else if u == 0x0a then [BACKSLASH, 0x6e]
    else if u == 0x0d then [BACKSLASH, 0x72]
    else if u == 0x09 then [BACKSLASH, 0x74]
    else if u < 0x20 || IsHighSurrogate(u) || IsLowSurrogate(u) then HexEscape(u)
    else [u]
  }

  predicate OpensPair(t: Text) {
    |t| > 1 && IsHighSurrogate(t[0]) && IsLowSurrogate(t[1])
  }

  /** The first unit of t as written: the halves of a surrogate pair stay as they are. */
  function FirstBlock(t: Text, inPair: bool): Text
    requires t != []
  {
    if inPair || OpensPair(t) then [t[0]] else EscapeUnit(t[0])
  }

  function Escape(t: Text, inPair: bool): Text {
    if t == [] then [] else FirstBlock(t, inPair) + Escape(t[1..], !inPair && OpensPair(t))
  }

  function Quoted(t: Text): Text {
    [QUOTE] + Escape(t, false) + [QUOTE]
  }

  function Print(j: Json): Text {
    match j
    case JNull => NULL_TEXT
    case JBool(flag) => if flag then TRUE_TEXT else FALSE_TEXT
    case JNumber(repr) => repr
    case JString(text) => Quoted(text)
    case JArray(NoItem) => [OPEN_BRACKET, CLOSE_BRACKET]
    case JArray(Item(head, rest)) => [OPEN_BRACKET] + Print(head) + PrintItems(rest)
    case JObject(NoField) => [OPEN_BRACE, CLOSE_BRACE]
    case JObject(Field(key, value, rest)) =>
      [OPEN_BRACE] + Quoted(key) + [COLON] + Print(value) + PrintFields(rest)
  }

  /** The items after the first one, with their commas and the closing bracket. */
  function PrintItems(items: Items): Text {
    match items
    case NoItem => [CLOSE_BRACKET]
    case Item(head, rest) => [COMMA] + Print(head) + PrintItems(rest)
  }

  function PrintFields(fields: Fields): Text {
    match fields
    case NoField => [CLOSE_BRACE]
    case Field(key, value, rest) => [COMMA] + Quoted(key) + [COLON] + Print(value) + PrintFields(rest)
  }

  // ---------------------------------------------------------------------------
  // Unique decodability
  // ---------------------------------------------------------------------------

  lemma Cancel(p: Text, x: Text, y: Text)
    requires p + x == p + y
    ensures x == y
  {
    assert (p + x)[|p|..] == x && (p + y)[|p|..] == y;
  }

  lemma Reassociate(p: Text, q: Text, x: Text)
    ensures (p + q) + x == p + (q + x)
  {
  }

  lemma Enclosed(p: Text, q: Text, x: Text)
    ensures (p + q + p) + x == p + (q + (p + x))
  {
  }

  lemma Nibbles(u: CodeUnit)
    ensures u == 4096 * (u / 4096) + 256 * (u / 256 % 16) + 16 * (u / 16 % 16) + u % 16
  {
    assert u / 256 == 16 * (u / 4096) + u / 256 % 16;
    assert u / 16 == 16 * (u / 256) + u / 16 % 16;
  }

  lemma HexDigitInjective(m: int, n: int)
    requires 0 <= m < 16 && 0 <= n < 16 && HexDigit(m) == HexDigit(n)
    ensures m == n
  {
  }

  lemma HexEscapeInjective(u: CodeUnit, v: CodeUnit)
    requires HexEscape(u)[2..] == HexEscape(v)[2..]
    ensures u == v
  {
    var a, b := HexEscape(u), HexEscape(v);
    assert forall i | 2 <= i < 6 :: a[i] == a[2..][i - 2] && b[i] == b[2..][i - 2];
    HexDigitInjective(u / 4096, v / 4096);
    HexDigitInjective(u / 256 % 16, v / 256 % 16);
    HexDigitInjective(u / 16 % 16, v / 16 % 16);
    HexDigitInjective(u % 16, v % 16);
    Nibbles(u);
    Nibbles(v);
  }

  /** A block is the unit itself or an escape; only a backslash opens an escape. */
  ghost predicate IsBlock(u: CodeUnit, block: Text) {
    block == EscapeUnit(u) || (block == [u] && (IsHighSurrogate(u) || IsLowSurrogate(u)))
  }

  lemma BlockUnique(u: CodeUnit, p: Text, x: Text, v: CodeUnit, q: Text, y: Text)
    requires IsBlock(u, p) && IsBlock(v, q) && p + x == q + y
    ensures u == v && p == q && x == y
  {
    assert (p + x)[0] == p[0] && (q + y)[0] == q[0];
    if |p| > 1 {
      assert (p + x)[1] == p[1] && (q + y)[1] == q[1];
      if |p| > 2 {
        assert (p + x)[2..6] == p[2..] && (q + y)[2..6] == q[2..];
        HexEscapeInjective(u, v);
      }
    }
    assert u == v && p == q;
    Cancel(p, x, y);
  }

  ghost predicate PairReady(t: Text, inPair: bool) {
    inPair ==> t != [] && IsLowSurrogate(t[0])
  }

  /** The block that opens t, and the text that follows it. */
  lemma EscapeOpens(t: Text, inPair: bool, x: Text)
    requires t != [] && PairReady(t, inPair)
    ensures IsBlock(t[0], FirstBlock(t, inPair)) && FirstBlock(t, inPair)[0] != QUOTE
    ensures PairReady(t[1..], !inPair && OpensPair(t))
    ensures Escape(t, inPair) != [] && (Escape(t, inPair) + x)[0] != QUOTE
    ensures Escape(t, inPair) + x == FirstBlock(t, inPair) + (Escape(t[1..], !inPair && OpensPair(t)) + x)
  {
    FirstBlockIsBlock(t, inPair);
    hide FirstBlock, EscapeUnit, IsBlock;
    Reassociate(FirstBlock(t, inPair), Escape(t[1..], !inPair && OpensPair(t)), x);
  }

  lemma FirstBlockIsBlock(t: Text, inPair: bool)
    requires t != [] && PairReady(t, inPair)
    ensures IsBlock(t[0], FirstBlock(t, inPair))
    ensures FirstBlock(t, inPair) != [] && FirstBlock(t, inPair)[0] != QUOTE
  {
  }

  /** An escaped text is empty exactly when its closing quote comes first. */
  lemma EscapeCloses(t: Text, inPair: bool, x: Text)
    requires PairReady(t, inPair)
    ensures t == [] <==> (Escape(t, inPair) + ([QUOTE] + x))[0] == QUOTE
  {
    if t != [] {
      EscapeOpens(t, inPair, [QUOTE] + x);
    }
  }

  lemma {:induction false} EscapeUnique(a: Text, inA: bool, x: Text, b: Text, inB: bool, y: Text)
    requires PairReady(a, inA) && PairReady(b, inB)
    requires Escape(a, inA) + ([QUOTE] + x) == Escape(b, inB) + ([QUOTE] + y)
    ensures a == b && x == y
    decreases |a|
  {
    var tailX, tailY := [QUOTE] + x, [QUOTE] + y;
    EscapeCloses(a, inA, x);
    EscapeCloses(b, inB, y);
    if a == [] {
      assert Escape(a, inA) + tailX == tailX && Escape(b, inB) + tailY == tailY;
      Cancel([QUOTE], x, y);
    } else {
      EscapeOpens(a, inA, tailX);
      EscapeOpens(b, inB, tailY);
      var nextA, nextB := !inA && OpensPair(a), !inB && OpensPair(b);
      BlockUnique(a[0], FirstBlock(a, inA), Escape(a[1..], nextA) + tailX,
                  b[0], FirstBlock(b, inB), Escape(b[1..], nextB) + tailY);
      EscapeUnique(a[1..], nextA, x, b[1..], nextB, y);
      assert a == [a[0]] + a[1..] && b == [b[0]] + b[1..];
    }
  }

  lemma QuotedUnique(a: Text, x: Text, b: Text, y: Text)
    requires Quoted(a) + x == Quoted(b) + y
    ensures a == b && x == y
  {
    hide Escape;
    Enclosed([QUOTE], Escape(a, false), x);
    Enclosed([QUOTE], Escape(b, false), y);
    Cancel([QUOTE], Escape(a, false) + ([QUOTE] + x), Escape(b, false) + ([QUOTE] + y));
    EscapeUnique(a, false, x, b, false, y);
  }

  /** What may follow a value: nothing, or a unit that no number contains. */
  predicate Delimited(x: Text) {
    x != [] ==> !IsNumberUnit(x[0])
  }

  /** A delimited number ends exactly where the number units end. */
  lemma NumberStops(a: NumberText, x: Text)
    requires Delimited(x)
    ensures forall i | 0 <= i < |a| :: IsNumberUnit((a + x)[i])
    ensures |a + x| > |a| ==> !IsNumberUnit((a + x)[|a|])
  {
  }

  lemma NumberUnique(a: NumberText, x: Text, b: NumberText, y: Text)
    requires Delimited(x) && Delimited(y) && a + x == b + y
    ensures a == b && x == y
  {
    NumberStops(a, x);
    NumberStops(b, y);
    assert (a + x)[..|a|] == a && (b + y)[..|b|] == b;
    Cancel(a, x, y);
  }

  /** The first unit of a printed value tells which kind of value it is. */
  function Kind(j: Json): nat {
    match j
    case JNull => 0
    case JBool(flag) => if flag then 1 else 2
    case JNumber(_) => 3
    case JString(_) => 4
    case JArray(_) => 5
    case JObject(_) => 6
  }

  function KindOfUnit(u: CodeUnit): nat {
    if u == 0x6e then 0 else if u == 0x74 then 1 else if u == 0x66 then 2
    else if u == QUOTE then 4 else if u == OPEN_BRACKET then 5 else if u == OPEN_BRACE then 6 else 3
  }

  lemma PrintStartsWithKind(j: Json)
    ensures Print(j) != [] && KindOfUnit(Print(j)[0]) == Kind(j)
  {
    if j.JNumber? {
      assert IsNumberUnit(j.repr[0]);
    }
  }

  lemma PrintStart(a: Json, x: Text, b: Json, y: Text)
    requires Print(a) + x == Print(b) + y
    ensures Kind(a) == Kind(b)
  {
    PrintStartsWithKind(a);
    PrintStartsWithKind(b);
    assert (Print(a) + x)[0] == Print(a)[0] && (Print(b) + y)[0] == Print(b)[0];
  }

  /** The elements of an array that follow its opening bracket. */
  function PrintArrayBody(items: Items): Text {
    match items
    case NoItem => [CLOSE_BRACKET]
    case Item(head, rest) => Print(head) + PrintItems(rest)
  }

  function PrintObjectBody(fields: Fields): Text {
    match fields
    case NoField => [CLOSE_BRACE]
    case Field(key, value, rest) => Quoted(key) + [COLON] + Print(value) + PrintFields(rest)
  }

  lemma ArrayOpens(items: Items, x: Text)
    ensures Print(JArray(items)) + x == [OPEN_BRACKET] + (PrintArrayBody(items) + x)
  {
    PrintOfArray(items);
    hide Print, PrintArrayBody;
    Reassociate([OPEN_BRACKET], PrintArrayBody(items), x);
  }

  lemma PrintOfArray(items: Items)
    ensures Print(JArray(items)) == [OPEN_BRACKET] + PrintArrayBody(items)
  {
    if items.Item? {
      Reassociate([OPEN_BRACKET], Print(items.head), PrintItems(items.rest));
    }
  }

  lemma ObjectOpens(fields: Fields, x: Text)
    ensures Print(JObject(fields)) + x == [OPEN_BRACE] + (PrintObjectBody(fields) + x)
  {
    PrintOfObject(fields);
    hide Print, PrintObjectBody;
    Reassociate([OPEN_BRACE], PrintObjectBody(fields), x);
  }

  lemma PrintOfObject(fields: Fields)
    ensures Print(JObject(fields)) == [OPEN_BRACE] + PrintObjectBody(fields)
  {
    hide Quoted;
  }

  /** One text reads back as one value: equal prints with delimited continuations are equal values. */
  lemma {:induction false} PrintUnique(a: Json, x: Text, b: Json, y: Text)
    requires Print(a) + x == Print(b) + y && Delimited(x) && Delimited(y)
    ensures a == b && x == y
    decreases a, 1
  {
    PrintStart(a, x, b, y);
    match a
    case JNull => Cancel(NULL_TEXT, x, y);
    case JBool(flag) => Cancel(if flag then TRUE_TEXT else FALSE_TEXT, x, y);
    case JNumber(repr) => NumberUnique(repr, x, b.repr, y);
    case JString(text) => QuotedUnique(text, x, b.text, y);
    case JArray(items) =>
      ArrayOpens(items, x);
      ArrayOpens(b.items, y);
      Cancel([OPEN_BRACKET], PrintArrayBody(items) + x, PrintArrayBody(b.items) + y);
      ArrayBodyUnique(items, x, b.items, y);
    case JObject(fields) =>
      ObjectOpens(fields, x);
      ObjectOpens(b.fields, y);
      Cancel([OPEN_BRACE], PrintObjectBody(fields) + x, PrintObjectBody(b.fields) + y);
      ObjectBodyUnique(fields, x, b.fields, y);
  }

  /** An array ends exactly where its closing bracket comes instead of an item. */
  lemma ArrayCloses(items: Items, x: Text)
    ensures PrintArrayBody(items) != [] && PrintItems(items) != []
    ensures items.NoItem? <==> (PrintArrayBody(items) + x)[0] == CLOSE_BRACKET
    ensures items.NoItem? <==> (PrintItems(items) + x)[0] == CLOSE_BRACKET
  {
    if items.Item? {
      PrintStartsWithKind(items.head);
    }
  }

  lemma ItemOpens(items: Items, x: Text)
    requires items.Item?
    ensures PrintArrayBody(items) + x == Print(items.head) + (PrintItems(items.rest) + x)
    ensures Delimited(PrintItems(items.rest) + x)
  {
    var h, r := Print(items.head), PrintItems(items.rest);
    assert (h + r) + x == h + (r + x);
  }

  lemma ItemFollows(items: Items, x: Text)
    requires items.Item?
    ensures PrintItems(items) + x == [COMMA] + (PrintArrayBody(items) + x)
  {
    PrintOfItems(items);
    hide PrintItems, PrintArrayBody;
    Reassociate([COMMA], PrintArrayBody(items), x);
  }

  lemma PrintOfItems(items: Items)
    requires items.Item?
    ensures PrintItems(items) == [COMMA] + PrintArrayBody(items)
  {
    hide Print;
    Reassociate([COMMA], Print(items.head), PrintItems(items.rest));
  }

  lemma {:induction false} ArrayBodyUnique(a: Items, x: Text, b: Items, y: Text)
    requires PrintArrayBody(a) + x == PrintArrayBody(b) + y
    ensures a == b && x == y
    decreases a, 0
  {
    ArrayCloses(a, x);
    ArrayCloses(b, y);
    if a.NoItem? {
      Cancel([CLOSE_BRACKET], x, y);
    } else {
      ItemOpens(a, x);
      ItemOpens(b, y);
      PrintUnique(a.head, PrintItems(a.rest) + x, b.head, PrintItems(b.rest) + y);
      ItemsUnique(a.rest, x, b.rest, y);
    }
  }

  lemma {:induction false} ItemsUnique(a: Items, x: Text, b: Items, y: Text)
    requires PrintItems(a) + x == PrintItems(b) + y
    ensures a == b && x == y
    decreases a, 1
  {
    ArrayCloses(a, x);
    ArrayCloses(b, y);
    if a.NoItem? {
      Cancel([CLOSE_BRACKET], x, y);
    } else {
      ItemFollows(a, x);
      ItemFollows(b, y);
      Cancel([COMMA], PrintArrayBody(a) + x, PrintArrayBody(b) + y);
      ArrayBodyUnique(a, x, b, y);
    }
  }

  lemma {:induction false} ObjectBodyUnique(a: Fields, x: Text, b: Fields, y: Text)
    requires PrintObjectBody(a) + x == PrintObjectBody(b) + y
    ensures a == b && x == y
    decreases a, 0
  {
    var whole := PrintObjectBody(a) + x;
    assert whole[0] == PrintObjectBody(a)[0] && whole[0] == PrintObjectBody(b)[0];
    if a.Field? {
      assert b.Field?;
      FieldUnique(a, x, b, y);
      FieldsUnique(a.rest, x, b.rest, y);
    } else {
      Cancel([CLOSE_BRACE], x, y);
    }
  }

  lemma Regroup(a: Text, b: Text, c: Text, d: Text, x: Text)
    ensures a + b + c + d + x == a + (b + (c + (d + x)))
  {
  }

  lemma Prefixed(p: Text, a: Text, b: Text, c: Text, d: Text, x: Text)
    ensures p + a + b + c + d + x == p + ((a + b + c + d) + x)
  {
  }

  lemma FieldOpens(f: Fields, x: Text)
    requires f.Field?
    ensures PrintObjectBody(f) + x == Quoted(f.key) + ([COLON] + (Print(f.value) + (PrintFields(f.rest) + x)))
  {
    Regroup(Quoted(f.key), [COLON], Print(f.value), PrintFields(f.rest), x);
  }

  lemma FieldFollows(f: Fields, x: Text)
    requires f.Field?
    ensures PrintFields(f) + x == [COMMA] + (PrintObjectBody(f) + x)
  {
    Prefixed([COMMA], Quoted(f.key), [COLON], Print(f.value), PrintFields(f.rest), x);
  }

  lemma {:induction false} FieldUnique(a: Fields, x: Text, b: Fields, y: Text)
    requires a.Field? && b.Field? && PrintObjectBody(a) + x == PrintObjectBody(b) + y
    ensures a.key == b.key && a.value == b.value && PrintFields(a.rest) + x == PrintFields(b.rest) + y
    decreases a.value, 2
  {
    var restA, restB := PrintFields(a.rest) + x, PrintFields(b.rest) + y;
    FieldOpens(a, x);
    FieldOpens(b, y);
    QuotedUnique(a.key, [COLON] + (Print(a.value) + restA), b.key, [COLON] + (Print(b.value) + restB));
    Cancel([COLON], Print(a.value) + restA, Print(b.value) + restB);
    PrintUnique(a.value, restA, b.value, restB);
  }

  lemma {:induction false} FieldsUnique(a: Fields, x: Text, b: Fields, y: Text)
    requires PrintFields(a) + x == PrintFields(b) + y
    ensures a == b && x == y
    decreases a, 1
  {
    var whole := PrintFields(a) + x;
    assert whole[0] == PrintFields(a)[0] && whole[0] == PrintFields(b)[0];
    if a.Field? {
      FieldFollows(a, x);
      FieldFollows(b, y);
      Cancel([COMMA], PrintObjectBody(a) + x, PrintObjectBody(b) + y);
      ObjectBodyUnique(a, x, b, y);
    } else {
      Cancel([CLOSE_BRACE], x, y);
    }
  }

  /** Printing is injective. */
  lemma PrintInjective(a: Json, b: Json)
    requires Print(a) == Print(b)
    ensures a == b
  {
    assert Print(a) + [] == Print(b) + [];
    PrintUnique(a, [], b, []);
  }
}
