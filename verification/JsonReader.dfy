/**
 A reader of JSON text as RFC 8259 defines it: blanks, escapes in all their spellings, numbers, nesting. It is
 written from the grammar and shares nothing with the printer but the values; what is printed is read back.
 */
module JsonReader {
  import opened Wrappers
  import opened Texts
  import opened JsonText

  // ---------------------------------------------------------------------------
  // Strings (section 7)
  // ---------------------------------------------------------------------------

  function HexValue(u: CodeUnit): Option<int> {
    if 0x30 <= u <= 0x39 then Some(u - 0x30)
    else if 0x61 <= u <= 0x66 then Some(u - 0x61 + 10)
    else if 0x41 <= u <= 0x46 then Some(u - 0x41 + 10)
    else None
  }

  /** Four hexadecimal digits, of either case */
  function HexUnit(t: Text): Option<CodeUnit>
    requires |t| >= 4
  {
    match (HexValue(t[0]), HexValue(t[1]), HexValue(t[2]), HexValue(t[3]))
    case (Some(a), Some(b), Some(c), Some(d)) =>
      if 0 <= a < 16 && 0 <= b < 16 && 0 <= c < 16 && 0 <= d < 16 then Some(4096 * a + 256 * b + 16 * c + d) else None
    case _ => None
  }

  /** What a two-character escape stands for: the quote, both slashes, and b, f, n, r, t */
  function ShortEscape(u: CodeUnit): Option<CodeUnit> {
    if u in {0x22, 0x2f, 0x5c} then Some(u)
    else if u == 0x62 then Some(0x08)
    else if u == 0x66 then Some(0x0c)
    else if u == 0x6e then Some(0x0a)
    else if u == 0x72 then Some(0x0d)
    else if u == 0x74 then Some(0x09)
    else None
  }

  predicate High(u: CodeUnit) {
    u / 0x400 == 0x36
  }

  predicate Low(u: CodeUnit) {
    u / 0x400 == 0x37
  }

  /** One character of a string, as the units it stands for and the text behind it; a surrogate counts only in a pair. */
  function ReadChar(t: Text): (r: Option<(Text, Text)>)
    requires t != []
    ensures r.Some? ==> |r.value.1| < |t|
  {
    if t[0] == 0x5c then
      if |t| < 2 then None
      else if t[1] == 0x75 then
        if |t| < 6 || HexUnit(t[2..]).None? then None else Some(([HexUnit(t[2..]).value], t[6..]))
      else if ShortEscape(t[1]).None? then None
      else Some(([ShortEscape(t[1]).value], t[2..]))
    else if t[0] < 0x20 || t[0] == 0x22 || Low(t[0]) then None
    else if High(t[0]) then
      if |t| > 1 && Low(t[1]) then Some(([t[0], t[1]], t[2..])) else None
    else Some(([t[0]], t[1..]))
  }

  /** The characters up to the closing quote */
  function ReadChars(t: Text): (r: Option<(Text, Text)>)
    ensures r.Some? ==> |r.value.1| < |t|
    decreases |t|
  {
    if t == [] then None
    else if t[0] == 0x22 then Some(([], t[1..]))
    else
      match ReadChar(t)
      case None => None
      case Some((units, behind)) =>
        match ReadChars(behind)
        case None => None
        case Some((more, rest)) => Some((units + more, rest))
  }

  // ---------------------------------------------------------------------------
  // Values (sections 2 to 6)
  // ---------------------------------------------------------------------------

  function SkipBlanks(t: Text): (s: Text)
    ensures |s| <= |t|
  {
    if t != [] && t[0] in {0x20, 0x09, 0x0a, 0x0d} then SkipBlanks(t[1..]) else t
  }

  /** How far a number can go: digits, signs, the point and the exponent mark in either case */
  function NumberLength(t: Text): (n: nat)
    ensures n <= |t|
    ensures forall i | 0 <= i < n :: IsNumberUnit(t[i]) || t[i] == 0x45
  {
    if t != [] && (IsDigit(t[0]) || t[0] in {0x2b, 0x2d, 0x2e, 0x65, 0x45}) then NumberLength(t[1..]) + 1 else 0
  }

  function ReadNumber(t: Text): (r: Option<(Json, Text)>)
    ensures r.Some? ==> |r.value.1| < |t|
  {
    var n := NumberLength(t);
    if (forall i | 0 <= i < n :: IsNumberUnit(t[..n][i])) && IsNumber(t[..n]) then Some((JNumber(t[..n]), t[n..])) else None
  }

  function ReadWord(t: Text, word: Text, value: Json): (r: Option<(Json, Text)>)
    requires word != []
    ensures r.Some? ==> |r.value.1| < |t|
  {
    if word <= t then Some((value, t[|word|..])) else None
  }

  function ReadValue(t: Text): (r: Option<(Json, Text)>)
    ensures r.Some? ==> |r.value.1| < |t|
    decreases |t|, 0
  {
    var s := SkipBlanks(t);
    if s == [] then None
    else if s[0] == 0x22 then
      match ReadChars(s[1..])
      case None => None
      case Some((text, rest)) => Some((JString(text), rest))
    else if s[0] == 0x5b then
      match ReadArray(s[1..])
      case None => None
      case Some((items, rest)) => Some((JArray(items), rest))
    else if s[0] == 0x7b then
      match ReadObject(s[1..])
      case None => None
      case Some((fields, rest)) => Some((JObject(fields), rest))
    else if s[0] == 0x6e then ReadWord(s, [0x6e, 0x75, 0x6c, 0x6c], JNull)
    else if s[0] == 0x74 then ReadWord(s, [0x74, 0x72, 0x75, 0x65], JBool(true))
    else if s[0] == 0x66 then ReadWord(s, [0x66, 0x61, 0x6c, 0x73, 0x65], JBool(false))
    else ReadNumber(s)
  }

  /** What follows an opening bracket */
  function ReadArray(t: Text): (r: Option<(Items, Text)>)
    ensures r.Some? ==> |r.value.1| < |t|
    decreases |t|, 2
  {
    var s := SkipBlanks(t);
    if s != [] && s[0] == 0x5d then Some((NoItem, s[1..])) else ReadItems(s)
  }

  /** Values between commas, up to the closing bracket */
  function ReadItems(t: Text): (r: Option<(Items, Text)>)
    ensures r.Some? ==> |r.value.1| < |t|
    decreases |t|, 1
  {
    match ReadValue(t)
    case None => None
    case Some((head, behind)) =>
      var s := SkipBlanks(behind);
      if s != [] && s[0] == 0x5d then Some((Item(head, NoItem), s[1..]))
      else if s != [] && s[0] == 0x2c then
        match ReadItems(s[1..])
        case None => None
        case Some((rest, end)) => Some((Item(head, rest), end))
      else None
  }

  /** What follows an opening brace */
  function ReadObject(t: Text): (r: Option<(Fields, Text)>)
    ensures r.Some? ==> |r.value.1| < |t|
    decreases |t|, 2
  {
    var s := SkipBlanks(t);
    if s != [] && s[0] == 0x7d then Some((NoField, s[1..])) else ReadFields(s)
  }

  /** Members between commas, up to the closing brace */
  function ReadFields(t: Text): (r: Option<(Fields, Text)>)
    ensures r.Some? ==> |r.value.1| < |t|
    decreases |t|, 1
  {
    match ReadMember(t)
    case None => None
    case Some((key, value, behind)) =>
      var s := SkipBlanks(behind);
      if s != [] && s[0] == 0x7d then Some((Field(key, value, NoField), s[1..]))
      else if s != [] && s[0] == 0x2c then
        match ReadFields(s[1..])
        case None => None
        case Some((rest, end)) => Some((Field(key, value, rest), end))
      else None
  }

  /** A name, a colon and a value */
  function ReadMember(t: Text): (r: Option<(Text, Json, Text)>)
    ensures r.Some? ==> |r.value.2| < |t|
    decreases |t|, 0
  {
    var s := SkipBlanks(t);
    if s == [] || s[0] != 0x22 then None
    else
      match ReadChars(s[1..])
      case None => None
      case Some((key, behind)) =>
        var c := SkipBlanks(behind);
        if c == [] || c[0] != 0x3a then None
        else
          match ReadValue(c[1..])
          case None => None
          case Some((value, rest)) => Some((key, value, rest))
  }

  /** A whole JSON text: one value with nothing but blanks around it */
  function ReadText(t: Text): Option<Json> {
    match ReadValue(t)
    case None => None
    case Some((value, rest)) => if SkipBlanks(rest) == [] then Some(value) else None
  }

  // ---------------------------------------------------------------------------
  // Printed strings are read back
  // ---------------------------------------------------------------------------

  lemma SurrogatesAgree(u: CodeUnit)
    ensures High(u) <==> IsHighSurrogate(u)
    ensures Low(u) <==> IsLowSurrogate(u)
  {
  }

  lemma HexDigitReads(n: int)
    requires 0 <= n < 16
    ensures HexValue(HexDigit(n)) == Some(n)
  {
  }

  lemma HexEscapeReads(u: CodeUnit, x: Text)
    ensures ReadChar(HexEscape(u) + x) == Some(([u], x))
  {
    var t := HexEscape(u) + x;
    assert t[6..] == x;
    assert t[2..][0] == t[2] && t[2..][1] == t[3] && t[2..][2] == t[4] && t[2..][3] == t[5];
    HexDigitReads(u / 4096);
    HexDigitReads(u / 256 % 16);
    HexDigitReads(u / 16 % 16);
    HexDigitReads(u % 16);
    Nibbles(u);
  }

  /** A unit that stands alone is read back from its escape, or as itself if it has none. */
  lemma UnitReads(u: CodeUnit, x: Text)
    ensures ReadChar(EscapeUnit(u) + x) == Some(([u], x))
  {
    SurrogatesAgree(u);
    if EscapeUnit(u) == HexEscape(u) {
      HexEscapeReads(u, x);
    } else if |EscapeUnit(u)| == 2 {
      assert (EscapeUnit(u) + x)[2..] == x;
    } else {
      assert (EscapeUnit(u) + x)[1..] == x;
    }
  }

  lemma PairReads(t: Text, x: Text)
    requires OpensPair(t)
    ensures ReadChar([t[0]] + ([t[1]] + x)) == Some((t[..2], x))
  {
    SurrogatesAgree(t[0]);
    SurrogatesAgree(t[1]);
    var s := [t[0]] + ([t[1]] + x);
    assert s[2..] == x && s[0] == t[0] && s[1] == t[1] && t[..2] == [t[0], t[1]];
  }

  lemma CharThenChars(t: Text, units: Text, behind: Text, more: Text, rest: Text)
    requires t != [] && t[0] != 0x22
    requires ReadChar(t) == Some((units, behind)) && ReadChars(behind) == Some((more, rest))
    ensures ReadChars(t) == Some((units + more, rest))
  {
  }

  lemma EscapeUnitOpens(u: CodeUnit, x: Text)
    ensures EscapeUnit(u) + x != [] && (EscapeUnit(u) + x)[0] != 0x22
  {
  }

  lemma {:induction false} EscapedReads(t: Text, x: Text)
    ensures ReadChars(Escape(t, false) + ([0x22] + x)) == Some((t, x))
    decreases |t|
  {
    hide ReadChars, ReadChar, EscapeUnit;
    var tail := [0x22] + x;
    if t == [] {
      assert Escape(t, false) + tail == tail;
      QuoteReads(x);
    } else if OpensPair(t) {
      EscapedReads(t[2..], x);
      assert t[1..][1..] == t[2..];
      assert Escape(t, false) + tail == [t[0]] + ([t[1]] + (Escape(t[2..], false) + tail));
      PairReads(t, Escape(t[2..], false) + tail);
      CharThenChars(Escape(t, false) + tail, t[..2], Escape(t[2..], false) + tail, t[2..], x);
      assert t[..2] + t[2..] == t;
    } else {
      EscapedReads(t[1..], x);
      Reassociate(EscapeUnit(t[0]), Escape(t[1..], false), tail);
      UnitReads(t[0], Escape(t[1..], false) + tail);
      EscapeUnitOpens(t[0], Escape(t[1..], false) + tail);
      CharThenChars(Escape(t, false) + tail, [t[0]], Escape(t[1..], false) + tail, t[1..], x);
      assert [t[0]] + t[1..] == t;
    }
  }

  lemma QuoteReads(x: Text)
    ensures ReadChars([0x22] + x) == Some(([], x))
  {
    assert ([0x22] + x)[1..] == x;
  }

  lemma QuotedOpens(t: Text, x: Text)
    ensures Quoted(t) + x == [0x22] + (Escape(t, false) + ([0x22] + x))
    ensures (Quoted(t) + x)[1..] == Escape(t, false) + ([0x22] + x)
  {
    hide Escape;
    Enclosed([0x22], Escape(t, false), x);
    assert ([0x22] + (Escape(t, false) + ([0x22] + x)))[1..] == Escape(t, false) + ([0x22] + x);
  }

  lemma QuotedReads(t: Text, x: Text)
    ensures Quoted(t) + x != [] && (Quoted(t) + x)[0] == 0x22
    ensures ReadChars((Quoted(t) + x)[1..]) == Some((t, x))
  {
    hide Escape, Quoted;
    QuotedOpens(t, x);
    EscapedReads(t, x);
  }

  // ---------------------------------------------------------------------------
  // Printed values are read back
  // ---------------------------------------------------------------------------

  /** What may follow a value: nothing, a comma or a closing bracket or brace */
  predicate Ends(x: Text) {
    x == [] || x[0] in {0x2c, 0x5d, 0x7d}
  }

  lemma {:induction false} NumberRuns(a: Text, x: Text)
    requires (forall i | 0 <= i < |a| :: IsNumberUnit(a[i])) && Ends(x)
    ensures NumberLength(a + x) == |a|
  {
    if a == [] {
      assert a + x == x;
    } else {
      assert (a + x)[1..] == a[1..] + x;
      NumberRuns(a[1..], x);
    }
  }

  lemma NumberReads(a: NumberText, x: Text)
    requires Ends(x)
    ensures ReadNumber(a + x) == Some((JNumber(a), x))
  {
    NumberRuns(a, x);
    assert (a + x)[..|a|] == a && (a + x)[|a|..] == x;
  }

  /** A number opens with a digit or a minus. */
  lemma NumberOpens(a: NumberText, x: Text)
    ensures a + x != [] && (a + x)[0] == a[0] && (IsDigit(a[0]) || a[0] == 0x2d)
  {
  }

  lemma WordReads(word: Text, value: Json, x: Text)
    requires word != []
    ensures ReadWord(word + x, word, value) == Some((value, x))
  {
    assert word <= word + x && (word + x)[|word|..] == x;
  }

  lemma NothingToSkip(t: Text)
    requires t != [] && t[0] !in {0x20, 0x09, 0x0a, 0x0d}
    ensures SkipBlanks(t) == t
  {
  }

  lemma ScalarReads(j: Json, x: Text)
    requires Ends(x) && (j.JNull? || j.JBool? || j.JNumber?)
    ensures ReadValue(Print(j) + x) == Some((j, x))
  {
    hide SkipBlanks, ReadNumber, ReadWord, IsNumber, Ends;
    var t := Print(j) + x;
    match j
    case JNull =>
      NothingToSkip(t);
      WordReads([0x6e, 0x75, 0x6c, 0x6c], JNull, x);
    case JBool(flag) =>
      NothingToSkip(t);
      WordReads([0x74, 0x72, 0x75, 0x65], JBool(true), x);
      WordReads([0x66, 0x61, 0x6c, 0x73, 0x65], JBool(false), x);
    case JNumber(repr) =>
      NumberOpens(repr, x);
      NothingToSkip(t);
      NumberReads(repr, x);
  }

  lemma StringReads(text: Text, x: Text)
    ensures ReadValue(Print(JString(text)) + x) == Some((JString(text), x))
  {
    hide Quoted, ReadChars, SkipBlanks;
    QuotedReads(text, x);
    NothingToSkip(Quoted(text) + x);
  }

  /** A printed value opens with neither a blank nor a closing bracket. */
  lemma PrintOpens(j: Json, x: Text)
    ensures Print(j) + x != [] && (Print(j) + x)[0] == Print(j)[0]
    ensures Print(j)[0] !in {0x20, 0x09, 0x0a, 0x0d, 0x5d}
  {
    PrintStartsWithKind(j);
    if j.JNumber? {
      NumberOpens(j.repr, x);
    }
  }

  lemma ItemsEnd(items: Items, x: Text)
    ensures PrintItems(items) + x != []
    ensures (PrintItems(items) + x)[0] == if items.NoItem? then 0x5d else 0x2c
    ensures Ends(PrintItems(items) + x)
  {
  }

  lemma FieldsEnd(fields: Fields, x: Text)
    ensures PrintFields(fields) + x != []
    ensures (PrintFields(fields) + x)[0] == if fields.NoField? then 0x7d else 0x2c
    ensures Ends(PrintFields(fields) + x)
  {
    hide Quoted, Print;
  }

  /** What is printed is read back, whatever follows it. */
  lemma {:induction false} PrintReads(j: Json, x: Text)
    requires Ends(x)
    ensures ReadValue(Print(j) + x) == Some((j, x))
    decreases j, 1
  {
    hide Print, ReadArray, ReadObject, SkipBlanks, Ends;
    match j
    case JArray(items) =>
      ArrayOpens(items, x);
      ArrayBodyReads(items, x);
      BracketReads(0x5b, PrintArrayBody(items) + x);
    case JObject(fields) =>
      ObjectOpens(fields, x);
      ObjectBodyReads(fields, x);
      BracketReads(0x7b, PrintObjectBody(fields) + x);
    case JString(text) => StringReads(text, x);
    case _ => ScalarReads(j, x);
  }

  lemma BracketReads(bracket: CodeUnit, body: Text)
    requires bracket in {0x5b, 0x7b}
    ensures SkipBlanks([bracket] + body) == [bracket] + body
    ensures ([bracket] + body)[1..] == body
  {
  }

  lemma {:induction false} ArrayBodyReads(items: Items, x: Text)
    ensures ReadArray(PrintArrayBody(items) + x) == Some((items, x))
    decreases items, 1
  {
    hide Print, ReadItems;
    var t := PrintArrayBody(items) + x;
    if items.NoItem? {
      assert t[1..] == x;
    } else {
      ItemOpens(items, x);
      PrintOpens(items.head, PrintItems(items.rest) + x);
      ItemsRead(items, x);
    }
  }

  lemma {:induction false} ItemsRead(items: Items, x: Text)
    requires items.Item?
    ensures ReadItems(PrintArrayBody(items) + x) == Some((items, x))
    decreases items, 0
  {
    hide Print, PrintItems, PrintArrayBody, ReadValue, SkipBlanks, Ends;
    var behind := PrintItems(items.rest) + x;
    ItemOpens(items, x);
    ItemsEnd(items.rest, x);
    PrintReads(items.head, behind);
    NothingToSkip(behind);
    if items.rest.NoItem? {
      LastItem(x);
    } else {
      ItemFollows(items.rest, x);
      ItemsRead(items.rest, x);
      assert ([0x2c] + (PrintArrayBody(items.rest) + x))[1..] == PrintArrayBody(items.rest) + x;
    }
  }

  lemma LastItem(x: Text)
    ensures (PrintItems(NoItem) + x)[1..] == x && (PrintFields(NoField) + x)[1..] == x
  {
  }

  lemma {:induction false} ObjectBodyReads(fields: Fields, x: Text)
    ensures ReadObject(PrintObjectBody(fields) + x) == Some((fields, x))
    decreases fields, 2
  {
    hide Print, ReadFields, Quoted, ReadChars;
    var t := PrintObjectBody(fields) + x;
    if fields.NoField? {
      assert t[1..] == x;
    } else {
      FieldOpens(fields, x);
      QuotedReads(fields.key, [COLON] + (Print(fields.value) + (PrintFields(fields.rest) + x)));
      FieldsRead(fields, x);
    }
  }

  lemma ColonReads(x: Text)
    ensures SkipBlanks([COLON] + x) == [0x3a] + x && ([COLON] + x)[1..] == x
  {
  }

  lemma {:induction false} MemberReads(f: Fields, x: Text)
    requires f.Field?
    ensures ReadMember(PrintObjectBody(f) + x) == Some((f.key, f.value, PrintFields(f.rest) + x))
    decreases f, 0
  {
    hide Print, PrintFields, PrintObjectBody, Quoted, ReadChars, ReadValue, SkipBlanks, Ends;
    var behind := PrintFields(f.rest) + x;
    FieldOpens(f, x);
    QuotedReads(f.key, [COLON] + (Print(f.value) + behind));
    NothingToSkip(PrintObjectBody(f) + x);
    ColonReads(Print(f.value) + behind);
    FieldsEnd(f.rest, x);
    PrintReads(f.value, behind);
  }

  lemma {:induction false} FieldsRead(fields: Fields, x: Text)
    requires fields.Field?
    ensures ReadFields(PrintObjectBody(fields) + x) == Some((fields, x))
    decreases fields, 1
  {
    hide Print, PrintFields, PrintObjectBody, ReadMember, SkipBlanks, Ends;
    var behind := PrintFields(fields.rest) + x;
    MemberReads(fields, x);
    FieldsEnd(fields.rest, x);
    NothingToSkip(behind);
    if fields.rest.NoField? {
      LastItem(x);
    } else {
      FieldFollows(fields.rest, x);
      FieldsRead(fields.rest, x);
      assert ([0x2c] + (PrintObjectBody(fields.rest) + x))[1..] == PrintObjectBody(fields.rest) + x;
    }
  }

  /** Every value is read back from its text, and no other value is. */
  lemma PrintIsJson(j: Json)
    ensures ReadText(Print(j)) == Some(j)
  {
    hide ReadValue, Print;
    assert Print(j) + [] == Print(j);
    PrintReads(j, []);
  }

  // ---------------------------------------------------------------------------
  // No text of a value is shorter
  // ---------------------------------------------------------------------------

  /** A lower-case hexadecimal digit */
  function LowerHexDigit(n: int): CodeUnit
    requires 0 <= n < 16
  {
    "0123456789abcdef"[n] as int
  }

  /** How each unit that stands alone is written: short escapes first, lower-case hexadecimal otherwise */
  lemma EscapesExactly(u: CodeUnit)
    ensures EscapeUnit(u) ==
            if u == 0x22 || u == 0x5c then [0x5c, u]
            else if u == 0x08 then [0x5c, 'b' as int]
            else if u == 0x09 then [0x5c, 't' as int]
            else if u == 0x0a then [0x5c, 'n' as int]
            else if u == 0x0c then [0x5c, 'f' as int]
            else if u == 0x0d then [0x5c, 'r' as int]
            else if u < 0x20 || 0xd800 <= u < 0xe000 then
              [0x5c, 'u' as int, LowerHexDigit(u / 4096), LowerHexDigit(u / 256 % 16),
               LowerHexDigit(u / 16 % 16), LowerHexDigit(u % 16)]
            else [u]
  {
    LowerHex(u / 4096);
    LowerHex(u / 256 % 16);
    LowerHex(u / 16 % 16);
    LowerHex(u % 16);
  }

  lemma LowerHex(n: int)
    requires 0 <= n < 16
    ensures HexDigit(n) == LowerHexDigit(n)
  {
  }

  lemma EscapeOfAppend(u: CodeUnit, more: Text)
    ensures |Escape([u] + more, false)| <= |EscapeUnit(u)| + |Escape(more, false)|
    ensures |EscapeUnit(u)| <= 6
  {
    assert ([u] + more)[1..] == more;
    if OpensPair([u] + more) {
      assert IsLowSurrogate(more[0]) && !IsHighSurrogate(more[0]);
      assert Escape(more, true) == [more[0]] + Escape(more[1..], false);
    }
  }

  lemma EscapeOfPair(h: CodeUnit, l: CodeUnit, more: Text)
    requires High(h) && Low(l)
    ensures |Escape([h, l] + more, false)| == 2 + |Escape(more, false)|
  {
    SurrogatesAgree(h);
    SurrogatesAgree(l);
    var t := [h, l] + more;
    assert t[1..] == [l] + more && t[1..][1..] == more;
    assert Escape(t, false) == [h] + Escape(t[1..], true);
    assert Escape(t[1..], true) == [l] + Escape(more, false);
  }

  /** A character takes at least the room that its escape takes in front of any others. */
  lemma CharsCannotShrink(t: Text, more: Text)
    requires t != [] && ReadChar(t).Some?
    ensures |Escape(ReadChar(t).value.0 + more, false)| <= |t| - |ReadChar(t).value.1| + |Escape(more, false)|
  {
    hide Escape, HexUnit;
    var units := ReadChar(t).value.0;
    if t[0] == 0x5c {
      EscapeOfAppend(units[0], more);
      if t[1] != 0x75 {
        ShortIsShort(t[1]);
      }
    } else if High(t[0]) {
      EscapeOfPair(t[0], t[1], more);
    } else {
      SurrogatesAgree(t[0]);
      EscapeOfAppend(t[0], more);
      assert EscapeUnit(t[0]) == [t[0]];
    }
  }

  lemma ShortIsShort(u: CodeUnit)
    requires ShortEscape(u).Some?
    ensures |EscapeUnit(ShortEscape(u).value)| <= 2
  {
  }

  lemma {:induction false} StringsCannotShrink(t: Text)
    requires ReadChars(t).Some?
    ensures |Escape(ReadChars(t).value.0, false)| + 1 <= |t| - |ReadChars(t).value.1|
    decreases |t|
  {
    hide ReadChar;
    if t[0] != 0x22 {
      StringsCannotShrink(ReadChar(t).value.1);
      CharsCannotShrink(t, ReadChars(ReadChar(t).value.1).value.0);
    }
  }

  lemma QuotedLength(t: Text)
    ensures |Quoted(t)| == |Escape(t, false)| + 2
  {
    hide Escape;
  }

  lemma ArrayLength(items: Items)
    ensures |Print(JArray(items))| == 1 + |PrintArrayBody(items)|
    ensures |PrintItems(items)| == if items.NoItem? then 1 else 1 + |PrintArrayBody(items)|
  {
    hide Quoted;
  }

  lemma ObjectLength(fields: Fields)
    ensures |Print(JObject(fields))| == 1 + |PrintObjectBody(fields)|
    ensures |PrintFields(fields)| == if fields.NoField? then 1 else 1 + |PrintObjectBody(fields)|
  {
    hide Quoted;
  }

  lemma WordLength(t: Text, word: Text, value: Json)
    requires word != [] && ReadWord(t, word, value).Some?
    ensures |t| - |ReadWord(t, word, value).value.1| == |word|
  {
  }

  /** What a reader takes for a value is at least as long as the printed value. */
  lemma {:induction false} ValuesCannotShrink(t: Text)
    requires ReadValue(t).Some?
    ensures |Print(ReadValue(t).value.0)| <= |t| - |ReadValue(t).value.1|
    decreases |t|, 0
  {
    hide ReadChars, ReadArray, ReadObject, Escape, PrintItems, PrintFields, PrintArrayBody, PrintObjectBody, IsNumber;
    var s := SkipBlanks(t);
    if s[0] == 0x22 {
      StringsCannotShrink(s[1..]);
      QuotedLength(ReadChars(s[1..]).value.0);
    } else if s[0] == 0x5b {
      ArraysCannotShrink(s[1..]);
      ArrayLength(ReadArray(s[1..]).value.0);
    } else if s[0] == 0x7b {
      ObjectsCannotShrink(s[1..]);
      ObjectLength(ReadObject(s[1..]).value.0);
    }
  }

  lemma {:induction false} ArraysCannotShrink(t: Text)
    requires ReadArray(t).Some?
    ensures |PrintArrayBody(ReadArray(t).value.0)| <= |t| - |ReadArray(t).value.1|
    decreases |t|, 2
  {
    hide Print, PrintItems, ReadItems;
    var s := SkipBlanks(t);
    if s == [] || s[0] != 0x5d {
      ItemsCannotShrink(s);
    }
  }

  lemma {:induction false} ItemsCannotShrink(t: Text)
    requires ReadItems(t).Some?
    ensures |PrintArrayBody(ReadItems(t).value.0)| <= |t| - |ReadItems(t).value.1|
    decreases |t|, 1
  {
    hide Print, ReadValue, PrintItems;
    ValuesCannotShrink(t);
    var s := SkipBlanks(ReadValue(t).value.1);
    var items := ReadItems(t).value.0;
    ArrayLength(items.rest);
    if s[0] == 0x2c {
      ItemsCannotShrink(s[1..]);
      ReadsAnItem(s[1..]);
    }
  }

  lemma ReadsAnItem(t: Text)
    ensures ReadItems(t).Some? ==> ReadItems(t).value.0.Item?
    ensures ReadFields(t).Some? ==> ReadFields(t).value.0.Field?
  {
    hide ReadValue, ReadMember;
  }

  lemma {:induction false} ObjectsCannotShrink(t: Text)
    requires ReadObject(t).Some?
    ensures |PrintObjectBody(ReadObject(t).value.0)| <= |t| - |ReadObject(t).value.1|
    decreases |t|, 2
  {
    hide Print, PrintFields, ReadFields, Quoted;
    var s := SkipBlanks(t);
    if s == [] || s[0] != 0x7d {
      FieldsCannotShrink(s);
    }
  }

  lemma {:induction false} MembersCannotShrink(t: Text)
    requires ReadMember(t).Some?
    ensures var (key, value, rest) := ReadMember(t).value;
            |Quoted(key)| + 1 + |Print(value)| <= |t| - |rest|
    decreases |t|, 0
  {
    hide ReadChars, ReadValue, Print, Escape, Quoted;
    var s := SkipBlanks(t);
    StringsCannotShrink(s[1..]);
    QuotedLength(ReadChars(s[1..]).value.0);
    ValuesCannotShrink(SkipBlanks(ReadChars(s[1..]).value.1)[1..]);
  }

  lemma {:induction false} FieldsCannotShrink(t: Text)
    requires ReadFields(t).Some?
    ensures |PrintObjectBody(ReadFields(t).value.0)| <= |t| - |ReadFields(t).value.1|
    decreases |t|, 1
  {
    hide Print, ReadMember, PrintFields, Quoted;
    MembersCannotShrink(t);
    var s := SkipBlanks(ReadMember(t).value.2);
    var fields := ReadFields(t).value.0;
    ObjectLength(fields.rest);
    if s[0] == 0x2c {
      FieldsCannotShrink(s[1..]);
      ReadsAnItem(s[1..]);
    }
  }

  /** The printed text is a shortest one: no blanks, and an escape only where one is needed, in its short form. */
  lemma PrintIsShortest(t: Text, j: Json)
    requires ReadText(t) == Some(j)
    ensures |Print(j)| <= |t|
  {
    hide ReadValue, Print, SkipBlanks;
    ValuesCannotShrink(t);
  }
}
