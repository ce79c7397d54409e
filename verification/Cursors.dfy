/**
 Opaque page cursors: the decimal text of an id in base64url (section 5 of RFC 4648, without padding), and
 the permissive decoding of what a client sends back.
 */
module Cursors {
  import opened Wrappers
  import opened Texts

  type Byte = b: int | 0 <= b < 256

  type Sextet = s: int | 0 <= s < 64

  const MAX_DATABASE_ID: nat := 0x7fff_ffff_ffff_ffff

  // ---------------------------------------------------------------------------
  // base64url
  // ---------------------------------------------------------------------------

  /** The alphabet of section 5: A-Z, a-z, 0-9, minus, underscore */
  function CharOf(s: Sextet): CodeUnit {
    if s < 26 then 0x41 + s
    else if s < 52 then 0x61 + (s - 26)
    else if s < 62 then 0x30 + (s - 52)
    else if s == 62 then 0x2d
    else 0x5f
  }

  function SextetOf(c: CodeUnit): Option<Sextet> {
    if 0x41 <= c <= 0x5a then Some(c - 0x41)
    else if 0x61 <= c <= 0x7a then Some(c - 0x61 + 26)
    else if 0x30 <= c <= 0x39 then Some(c - 0x30 + 52)
    else if c == 0x2d then Some(62)
    else if c == 0x5f then Some(63)
    else None
  }

  // Three bytes are four sextets.

  function Split0(x: int, y: int): Sextet requires 0 <= x < 256 { x / 4 }

  function Split1(x: int, y: int): Sextet requires 0 <= x < 256 && 0 <= y < 256 { x % 4 * 16 + y / 16 }

  function Split2(y: int, z: int): Sextet requires 0 <= y < 256 && 0 <= z < 256 { y % 16 * 4 + z / 64 }

  function Split3(z: int): Sextet requires 0 <= z < 256 { z % 64 }

  function Join0(p: int, q: int): Byte requires 0 <= p < 64 && 0 <= q < 64 { p * 4 + q / 16 }

  function Join1(q: int, r: int): Byte requires 0 <= q < 64 && 0 <= r < 64 { q % 16 * 16 + r / 4 }

  function Join2(r: int, s: int): Byte requires 0 <= r < 64 && 0 <= s < 64 { r % 4 * 64 + s }

  function Split(bytes: seq<Byte>): seq<Sextet> {
    if |bytes| == 0 then []
    else if |bytes| == 1 then [Split0(bytes[0], 0), Split1(bytes[0], 0)]
    else if |bytes| == 2 then [Split0(bytes[0], bytes[1]), Split1(bytes[0], bytes[1]), Split2(bytes[1], 0)]
    else
      [Split0(bytes[0], bytes[1]), Split1(bytes[0], bytes[1]), Split2(bytes[1], bytes[2]), Split3(bytes[2])]
      + Split(bytes[3..])
  }

  /** Bits left over at the end are ignored. */
  function Join(s: seq<Sextet>): seq<Byte> {
    if |s| < 2 then []
    else if |s| == 2 then [Join0(s[0], s[1])]
    else if |s| == 3 then [Join0(s[0], s[1]), Join1(s[1], s[2])]
    else [Join0(s[0], s[1]), Join1(s[1], s[2]), Join2(s[2], s[3])] + Join(s[4..])
  }

  function Encode(bytes: seq<Byte>): Text {
    seq(|Split(bytes)|, i requires 0 <= i < |Split(bytes)| => CharOf(Split(bytes)[i]))
  }

  /** Text over the alphabet, of a length some encoding has. */
  predicate WellFormed(t: Text) {
    |t| % 4 != 1 && forall i | 0 <= i < |t| :: SextetOf(t[i]).Some?
  }

  function Decode(t: Text): seq<Byte>
    requires WellFormed(t)
  {
    Join(seq(|t|, i requires 0 <= i < |t| => SextetOf(t[i]).value))
  }

  lemma SextetOfChar(s: Sextet)
    ensures SextetOf(CharOf(s)) == Some(s)
  {
  }

  lemma SplitThenJoin(x: Byte, y: Byte, z: Byte)
    ensures Join0(Split0(x, y), Split1(x, y)) == x
    ensures Join1(Split1(x, y), Split2(y, z)) == y
    ensures Join2(Split2(y, z), Split3(z)) == z
  {
  }

  lemma {:induction false} SplitLength(bytes: seq<Byte>)
    ensures |Split(bytes)| % 4 != 1 && 3 * |Split(bytes)| <= 4 * |bytes| + 2
    ensures bytes != [] ==> Split(bytes) != []
  {
    hide Split0, Split1, Split2, Split3;
    if |bytes| >= 3 {
      SplitLength(bytes[3..]);
    }
  }

  lemma {:induction false} JoinSplit(bytes: seq<Byte>)
    ensures Join(Split(bytes)) == bytes
  {
    hide Split0, Split1, Split2, Split3, Join0, Join1, Join2;
    if |bytes| == 1 {
      SplitThenJoin(bytes[0], 0, 0);
    } else if |bytes| == 2 {
      SplitThenJoin(bytes[0], bytes[1], 0);
    } else if |bytes| >= 3 {
      SplitThenJoin(bytes[0], bytes[1], bytes[2]);
      JoinSplit(bytes[3..]);
      assert Split(bytes)[4..] == Split(bytes[3..]);
      assert bytes == [bytes[0], bytes[1], bytes[2]] + bytes[3..];
    }
  }

  /** Any bytes come back from their text. */
  lemma DecodeEncode(bytes: seq<Byte>)
    ensures WellFormed(Encode(bytes)) && Decode(Encode(bytes)) == bytes
  {
    var t, s := Encode(bytes), Split(bytes);
    SplitLength(bytes);
    forall i | 0 <= i < |t|
      ensures SextetOf(t[i]) == Some(s[i])
    {
      SextetOfChar(s[i]);
    }
    assert seq(|t|, i requires 0 <= i < |t| => SextetOf(t[i]).value) == s;
    JoinSplit(bytes);
  }

  // ---------------------------------------------------------------------------
  // The notation is that of RFC 4648
  // ---------------------------------------------------------------------------

  /** The table of section 5: 26 capitals, 26 small letters, ten digits, minus and underscore */
  predicate InTable(s: Sextet, c: CodeUnit) {
    || (s < 26 && c == 'A' as int + s)
    || (26 <= s < 52 && c == 'a' as int + (s - 26))
    || (52 <= s < 62 && c == '0' as int + (s - 52))
    || (s == 62 && c == '-' as int)
    || (s == 63 && c == '_' as int)
  }

  /** A sextet is written as its character of the table, and read from no other. */
  lemma AlphabetExactly(s: Sextet, c: CodeUnit)
    ensures CharOf(s) == c <==> InTable(s, c)
    ensures SextetOf(c) == Some(s) <==> InTable(s, c)
  {
  }

  /** The number that bytes write in base 256, behind what came before */
  function InBytes(before: nat, bytes: seq<Byte>): nat
    decreases |bytes|
  {
    if bytes == [] then before else InBytes(256 * before + bytes[0], bytes[1..])
  }

  /** The number that sextets write in base 64 */
  function InSextets(before: nat, sextets: seq<Sextet>): nat
    decreases |sextets|
  {
    if sextets == [] then before else InSextets(64 * before + sextets[0], sextets[1..])
  }

  lemma GroupBits(before: nat, x: Byte, y: Byte, z: Byte)
    ensures 64 * (64 * (64 * (64 * before + Split0(x, y)) + Split1(x, y)) + Split2(y, z)) + Split3(z)
         == 256 * (256 * (256 * before + x) + y) + z
  {
  }

  lemma SextetStep(before: nat, s: Sextet, rest: seq<Sextet>)
    ensures InSextets(before, [s] + rest) == InSextets(64 * before + s, rest)
  {
    assert ([s] + rest)[1..] == rest;
  }

  lemma ByteStep(before: nat, b: Byte, rest: seq<Byte>)
    ensures InBytes(before, [b] + rest) == InBytes(256 * before + b, rest)
  {
    assert ([b] + rest)[1..] == rest;
  }

  lemma FourSextets(before: nat, p: Sextet, q: Sextet, r: Sextet, s: Sextet, rest: seq<Sextet>)
    ensures InSextets(before, [p, q, r, s] + rest) == InSextets(64 * (64 * (64 * (64 * before + p) + q) + r) + s, rest)
  {
    hide InSextets;
    assert [p, q, r, s] + rest == [p] + ([q] + ([r] + ([s] + rest)));
    SextetStep(before, p, [q] + ([r] + ([s] + rest)));
    SextetStep(64 * before + p, q, [r] + ([s] + rest));
    SextetStep(64 * (64 * before + p) + q, r, [s] + rest);
    SextetStep(64 * (64 * (64 * before + p) + q) + r, s, rest);
  }

  lemma ThreeBytes(before: nat, bytes: seq<Byte>)
    requires |bytes| >= 3
    ensures InBytes(before, bytes) == InBytes(256 * (256 * (256 * before + bytes[0]) + bytes[1]) + bytes[2], bytes[3..])
  {
    hide InBytes;
    var x, y, z, rest := bytes[0], bytes[1], bytes[2], bytes[3..];
    assert bytes == [x] + ([y] + ([z] + rest));
    ByteStep(before, x, [y] + ([z] + rest));
    ByteStep(256 * before + x, y, [z] + rest);
    ByteStep(256 * (256 * before + x) + y, z, rest);
  }

  /** What a number is multiplied with when zero bits fill its last sextet */
  function Filler(bytes: nat): nat {
    match bytes % 3
    case 0 => 1
    case 1 => 16
    case _ => 4
  }

  lemma FillerRepeats(bytes: nat)
    requires bytes >= 3
    ensures Filler(bytes) == Filler(bytes - 3)
  {
  }

  /** The text carries the bits of the bytes, six to a character, filled up with zeros at the end. */
  lemma {:induction false} BitsExactly(before: nat, bytes: seq<Byte>)
    ensures InSextets(before, Split(bytes)) == InBytes(before, bytes) * Filler(|bytes|)
    decreases |bytes|
  {
    hide Split0, Split1, Split2, Split3, InBytes, InSextets;
    if bytes == [] {
      NothingWritten(before);
    } else if |bytes| == 1 {
      LastByte(before, bytes[0]);
      assert bytes == [bytes[0]];
    } else if |bytes| == 2 {
      LastBytes(before, bytes[0], bytes[1]);
      assert bytes == [bytes[0], bytes[1]];
    } else {
      BitsOfThree(before, bytes);
      BitsExactly(256 * (256 * (256 * before + bytes[0]) + bytes[1]) + bytes[2], bytes[3..]);
      FillerRepeats(|bytes|);
      hide Filler, Split;
    }
  }

  lemma BitsOfThree(before: nat, bytes: seq<Byte>)
    requires |bytes| >= 3
    ensures var group := 256 * (256 * (256 * before + bytes[0]) + bytes[1]) + bytes[2];
            && InSextets(before, Split(bytes)) == InSextets(group, Split(bytes[3..]))
            && InBytes(before, bytes) == InBytes(group, bytes[3..])
  {
    hide Split0, Split1, Split2, Split3, InBytes, InSextets;
    var x, y, z := bytes[0], bytes[1], bytes[2];
    ThreeBytes(before, bytes);
    FourSextets(before, Split0(x, y), Split1(x, y), Split2(y, z), Split3(z), Split(bytes[3..]));
    GroupBits(before, x, y, z);
  }

  /** As many characters as the bits need */
  lemma {:induction false} LengthExactly(bytes: seq<Byte>)
    ensures 6 * |Split(bytes)| == 8 * |bytes| + (match |bytes| % 3 case 0 => 0 case 1 => 4 case _ => 2)
    decreases |bytes|
  {
    hide Split0, Split1, Split2, Split3;
    if |bytes| >= 3 {
      LengthExactly(bytes[3..]);
    }
  }

  lemma NothingWritten(before: nat)
    ensures InSextets(before, []) == before && InBytes(before, []) == before
  {
  }

  lemma OneByteBits(before: nat, x: Byte)
    ensures 64 * (64 * before + Split0(x, 0)) + Split1(x, 0) == 16 * (256 * before + x)
  {
  }

  lemma TwoBytesBits(before: nat, x: Byte, y: Byte)
    ensures 64 * (64 * (64 * before + Split0(x, y)) + Split1(x, y)) + Split2(y, 0) == 4 * (256 * (256 * before + x) + y)
  {
  }

  lemma LastByte(before: nat, x: Byte)
    ensures InSextets(before, [Split0(x, 0), Split1(x, 0)]) == InBytes(before, [x]) * 16
  {
    OneByteBits(before, x);
    hide InSextets, InBytes, Split0, Split1;
    var p, q := Split0(x, 0), Split1(x, 0);
    assert [p, q] == [p] + ([q] + []) && [x] == [x] + [];
    SextetStep(before, p, [q] + []);
    SextetStep(64 * before + p, q, []);
    ByteStep(before, x, []);
    NothingWritten(64 * (64 * before + p) + q);
    NothingWritten(256 * before + x);
  }

  lemma LastBytes(before: nat, x: Byte, y: Byte)
    ensures InSextets(before, [Split0(x, y), Split1(x, y), Split2(y, 0)]) == InBytes(before, [x, y]) * 4
  {
    TwoBytesBits(before, x, y);
    hide InSextets, InBytes, Split0, Split1, Split2;
    var p, q, r := Split0(x, y), Split1(x, y), Split2(y, 0);
    assert [p, q, r] == [p] + ([q] + ([r] + [])) && [x, y] == [x] + ([y] + []);
    SextetStep(before, p, [q] + ([r] + []));
    SextetStep(64 * before + p, q, [r] + []);
    SextetStep(64 * (64 * before + p) + q, r, []);
    ByteStep(before, x, [y] + []);
    ByteStep(256 * before + x, y, []);
    NothingWritten(64 * (64 * (64 * before + p) + q) + r);
    NothingWritten(256 * (256 * before + x) + y);
  }

  // ---------------------------------------------------------------------------
  // The text of a BigInt
  // ---------------------------------------------------------------------------

  function DigitIn(u: CodeUnit, base: nat): Option<nat> {
    var d := if 0x30 <= u <= 0x39 then u - 0x30
             else if 0x41 <= u <= 0x46 then u - 0x41 + 10
             else if 0x61 <= u <= 0x66 then u - 0x61 + 10
             else base;
    if d < base then Some(d) else None
  }

  function ValueIn(t: Text, base: nat): Option<nat> {
    if t == [] then Some(0)
    else
      var init, last := ValueIn(t[..|t| - 1], base), DigitIn(t[|t| - 1], base);
      if init.Some? && last.Some? then Some(init.value * base + last.value) else None
  }

  function RunIn(t: Text, base: nat): Option<nat> {
    if t == [] then None else ValueIn(t, base)
  }

  function Prefixed(t: Text): nat {
    if |t| < 2 || t[0] != 0x30 then 10
    else if t[1] in {0x78, 0x58} then 16
    else if t[1] in {0x6f, 0x4f} then 8
    else if t[1] in {0x62, 0x42} then 2
    else 10
  }

  /** `BigInt(text)` on trimmed text: empty is zero, decimals may carry a sign, other radices may not. */
  function ParseBigInt(t: Text): Option<int> {
    if t == [] then Some(0)
    else if Prefixed(t) != 10 then
      var v := RunIn(t[2..], Prefixed(t));
      if v.Some? then Some(v.value) else None
    else if t[0] == MINUS then
      var v := RunIn(t[1..], 10);
      if v.Some? then var n: int := v.value; Some(-n) else None
    else if t[0] == PLUS then
      var v := RunIn(t[1..], 10);
      if v.Some? then Some(v.value) else None
    else
      var v := RunIn(t, 10);
      if v.Some? then Some(v.value) else None
  }

  // ---------------------------------------------------------------------------
  // Cursors
  // ---------------------------------------------------------------------------

  /**
   What the runtime does beyond the standard: `lenient` decodes text that is not base64url, `text` is UTF-8
   decoding. Only its agreement with ASCII is used.
   */
  datatype Runtime = Runtime(lenient: Text -> seq<Byte>, text: seq<Byte> -> Text)

  predicate IsAscii(bytes: seq<Byte>) {
    forall i | 0 <= i < |bytes| :: bytes[i] < 128
  }

  function AsText(bytes: seq<Byte>): Text {
    seq(|bytes|, i requires 0 <= i < |bytes| => bytes[i])
  }

  ghost predicate ReadsAscii(rt: Runtime) {
    forall bytes | IsAscii(bytes) :: rt.text(bytes) == AsText(bytes)
  }

  function AsBytes(t: Text): seq<Byte>
    requires forall i | 0 <= i < |t| :: t[i] < 128
  {
    seq(|t|, i requires 0 <= i < |t| => t[i])
  }

  /** `encodeCursor` */
  function EncodeCursor(id: nat): Text {
    Encode(AsBytes(DigitsOf(id)))
  }

  function InRange(value: Option<int>): Option<nat> {
    if value.Some? && 0 <= value.value <= MAX_DATABASE_ID then Some(value.value) else None
  }

  /** `decodeCursor`; a failure is INVALID_CURSOR. */
  function DecodeCursor(rt: Runtime, cursor: Text): Option<nat> {
    var bytes := if WellFormed(cursor) then Decode(cursor) else rt.lenient(cursor);
    InRange(ParseBigInt(Trim(rt.text(bytes))))
  }

  /** A cursor over the alphabet whose bytes are ASCII is read as the BigInt its text denotes. */
  lemma DecodesAscii(rt: Runtime, cursor: Text)
    requires ReadsAscii(rt) && WellFormed(cursor) && IsAscii(Decode(cursor))
    ensures DecodeCursor(rt, cursor) == InRange(ParseBigInt(Trim(AsText(Decode(cursor)))))
  {
  }

  lemma DecodesEncoded(rt: Runtime, t: Text)
    requires ReadsAscii(rt) && forall i | 0 <= i < |t| :: t[i] < 128
    ensures DecodeCursor(rt, Encode(AsBytes(t))) == InRange(ParseBigInt(Trim(t)))
  {
    DecodeEncode(AsBytes(t));
    assert IsAscii(AsBytes(t));
    assert AsText(AsBytes(t)) == t;
    DecodesAscii(rt, Encode(AsBytes(t)));
  }

  lemma ParseDigits(id: nat)
    ensures Trim(DigitsOf(id)) == DigitsOf(id) && ParseBigInt(DigitsOf(id)) == Some(id)
  {
    ValueInTenExactly(DigitsOf(id));
    DigitsThenValue(id);
  }

  /** Every id of the database comes back from its cursor, and no larger number is let through. */
  lemma CursorRoundTrip(rt: Runtime, id: nat)
    requires ReadsAscii(rt)
    ensures DecodeCursor(rt, EncodeCursor(id)) == if id <= 9223372036854775807 then Some(id) else None
  {
    ParseDigits(id);
    DecodesEncoded(rt, DigitsOf(id));
  }

  lemma CursorsAreDistinct(a: nat, b: nat)
    requires EncodeCursor(a) == EncodeCursor(b)
    ensures a == b
  {
    DecodeEncode(AsBytes(DigitsOf(a)));
    DecodeEncode(AsBytes(DigitsOf(b)));
    assert AsText(AsBytes(DigitsOf(a))) == DigitsOf(a);
    assert AsText(AsBytes(DigitsOf(b))) == DigitsOf(b);
    DigitsThenValue(a);
    DigitsThenValue(b);
  }

  lemma NineteenDigits()
    ensures MAX_DATABASE_ID < Pow10(19)
  {
    assert Pow10(6) == 1_000_000;
    assert Pow10(12) == 1_000_000_000_000;
    assert Pow10(18) == 1_000_000_000_000_000_000;
  }

  /** An issued cursor passes the length limit of the query and is never taken for an absent one. */
  lemma CursorFits(id: nat)
    requires id <= MAX_DATABASE_ID
    ensures 1 <= |EncodeCursor(id)| <= 26
  {
    hide Pow10;
    NineteenDigits();
    DigitsLength(id, 19);
    SplitLength(AsBytes(DigitsOf(id)));
  }

  // ---------------------------------------------------------------------------
  // Which texts are accepted, in plain terms
  // ---------------------------------------------------------------------------

  /** The unit is the figure for d, in either case. */
  predicate IsFigure(u: CodeUnit, d: int) {
    0 <= d < 16 && (u == "0123456789abcdef"[d] as int || u == "0123456789ABCDEF"[d] as int)
  }

  /** A digit of a base is a figure below it. */
  lemma DigitExactly(u: CodeUnit, base: nat, d: nat)
    requires base <= 16
    ensures DigitIn(u, base) == Some(d) <==> d < base && IsFigure(u, d)
  {
  }

  /** Three prefixes choose another base than ten, each in either case. */
  lemma PrefixExactly(t: Text)
    ensures Prefixed(t) == 16 <==> Ascii("0x") <= t || Ascii("0X") <= t
    ensures Prefixed(t) == 8 <==> Ascii("0o") <= t || Ascii("0O") <= t
    ensures Prefixed(t) == 2 <==> Ascii("0b") <= t || Ascii("0B") <= t
    ensures Prefixed(t) in {2, 8, 10, 16}
  {
    if |t| >= 2 {
      TwoUnits(t, "0x");
      TwoUnits(t, "0X");
      TwoUnits(t, "0o");
      TwoUnits(t, "0O");
      TwoUnits(t, "0b");
      TwoUnits(t, "0B");
    }
  }

  lemma TwoUnits(t: Text, s: string)
    requires |t| >= 2 && |s| == 2 && s[0] < 128 as char && s[1] < 128 as char
    ensures Ascii(s) <= t <==> t[0] == s[0] as int && t[1] == s[1] as int
  {
  }

  /** Nothing, decimal digits with at most a sign, or digits behind one of the prefixes 0x, 0o and 0b */
  ghost predicate Numeral(t: Text, n: int) {
    || (t == [] && n == 0)
    || (t != [] && AllDigits(t) && n == ValueOf(t))
    || (|t| > 1 && t[0] == PLUS && AllDigits(t[1..]) && n == ValueOf(t[1..]))
    || (|t| > 1 && t[0] == MINUS && AllDigits(t[1..]) && n + ValueOf(t[1..]) == 0)
    || (|t| > 2 && Prefixed(t) != 10 && ValueIn(t[2..], Prefixed(t)).Some? && n == ValueIn(t[2..], Prefixed(t)).value)
  }

  /** A numeral of a database id, with blanks around it or not */
  ghost predicate Names(t: Text, id: nat) {
    id <= MAX_DATABASE_ID && exists before, body, after :: Padded(t, before, body, after) && Numeral(body, id)
  }

  lemma {:induction false} ValueInTenExactly(t: Text)
    ensures ValueIn(t, 10) == if AllDigits(t) then Some(ValueOf(t)) else None
  {
    if t != [] {
      var n := |t| - 1;
      ValueInTenExactly(t[..n]);
      assert t == t[..n] + [t[n]];
      AllDigitsAppend(t[..n], [t[n]]);
    }
  }

  lemma ParsesExactly(t: Text, n: int)
    ensures ParseBigInt(t) == Some(n) <==> Numeral(t, n)
  {
    if t != [] {
      hide ValueIn, ValueOf;
      ValueInTenExactly(t);
      ValueInTenExactly(t[1..]);
    }
  }

  /** A numeral starts and ends with no blank. */
  lemma NumeralIsTight(t: Text, n: int)
    requires Numeral(t, n) && t != []
    ensures !IsSpace(t[0]) && !IsSpace(t[|t| - 1])
  {
    hide ValueOf;
    if |t| > 2 && Prefixed(t) != 10 && ValueIn(t[2..], Prefixed(t)).Some? {
      assert t[2..][|t[2..]| - 1] == t[|t| - 1];
      assert DigitIn(t[|t| - 1], Prefixed(t)).Some?;
    } else {
      hide ValueIn;
      assert |t| > 1 ==> t[1..][|t| - 2] == t[|t| - 1];
    }
  }

  /** Exactly which cursors over the alphabet with ASCII bytes are accepted, and as what; left-over bits do not count. */
  lemma AcceptsExactly(rt: Runtime, cursor: Text, id: nat)
    requires ReadsAscii(rt) && WellFormed(cursor) && IsAscii(Decode(cursor))
    ensures DecodeCursor(rt, cursor) == Some(id) <==> Names(AsText(Decode(cursor)), id)
  {
    DecodesAscii(rt, cursor);
    hide DecodeCursor, Decode, ParseBigInt, Numeral, Trim, Padded;
    var t := AsText(Decode(cursor));
    ParsesExactly(Trim(t), id);
    var l, r := TrimSplits(t);
    assert Padded(t, l, Trim(t), r);
    forall before, body, after | Padded(t, before, body, after) && Numeral(body, id)
      ensures Trim(t) == body
    {
      if body != [] {
        NumeralIsTight(body, id);
      }
      TrimOfPadded(t, before, body, after);
    }
  }

  // ---------------------------------------------------------------------------
  // Which accepted cursors a page issued
  // ---------------------------------------------------------------------------

  /** The cursor carries a decimal without superfluous zeros, sign or blanks, and no left-over bits. */
  predicate Canonical(cursor: Text) {
    && WellFormed(cursor) && IsAscii(Decode(cursor))
    && IsCanonicalDecimal(AsText(Decode(cursor))) && Encode(Decode(cursor)) == cursor
  }

  lemma IssuedIsCanonical(id: nat)
    ensures Canonical(EncodeCursor(id)) && AsText(Decode(EncodeCursor(id))) == DigitsOf(id)
  {
    DecodeEncode(AsBytes(DigitsOf(id)));
    assert AsText(AsBytes(DigitsOf(id))) == DigitsOf(id);
  }

  lemma CanonicalIsIssued(rt: Runtime, cursor: Text)
    requires ReadsAscii(rt) && Canonical(cursor)
    ensures var n := ValueOf(AsText(Decode(cursor)));
            cursor == EncodeCursor(n) && DecodeCursor(rt, cursor) == if n <= MAX_DATABASE_ID then Some(n) else None
  {
    var t := AsText(Decode(cursor));
    ValueThenDigits(t);
    assert AsBytes(t) == Decode(cursor);
    CursorRoundTrip(rt, ValueOf(t));
  }

  /** Of all texts a client may send, an accepted one was issued for that id exactly when it is canonical. */
  lemma AcceptedWasIssuedExactly(rt: Runtime, cursor: Text, id: nat)
    requires ReadsAscii(rt) && DecodeCursor(rt, cursor) == Some(id)
    ensures cursor == EncodeCursor(id) <==> Canonical(cursor)
  {
    IssuedIsCanonical(id);
    if Canonical(cursor) {
      CanonicalIsIssued(rt, cursor);
    }
  }

  /** Cursors the service never issued are accepted too: "IA", which is a blank, stands for 0. */
  lemma BlankCursorIsAccepted(rt: Runtime)
    requires ReadsAscii(rt)
    ensures DecodeCursor(rt, [0x49, 0x41]) == Some(0) && [0x49, 0x41] != EncodeCursor(0)
  {
    CursorOfZero();
    ParseBlank();
    hide DecodeCursor, EncodeCursor, Trim, ParseBigInt;
    DecodeTwo(0x49, 0x41);
    DecodesAscii(rt, [0x49, 0x41]);
    assert AsText([0x20]) == [0x20];
  }

  lemma ParseBlank()
    ensures ParseBigInt(Trim([0x20])) == Some(0)
  {
    assert Trim([0x20]) == [];
  }

  /** "MB" differs from the issued "MA" in left-over bits alone and reads like it. */
  lemma LeftOverBitsAreIgnored(rt: Runtime)
    requires ReadsAscii(rt)
    ensures DecodeCursor(rt, [0x4d, 0x42]) == Some(0) && EncodeCursor(0) == [0x4d, 0x41]
  {
    CursorOfZero();
    hide DecodeCursor, EncodeCursor, Trim, ParseBigInt;
    DecodeTwo(0x4d, 0x42);
    DecodesAscii(rt, [0x4d, 0x42]);
    ParseDigits(0);
    assert DigitsOf(0) == [0x30] == AsText([0x30]);
  }

  lemma CursorOfZero()
    ensures EncodeCursor(0) == [0x4d, 0x41]
  {
    hide Encode;
    var bytes := AsBytes(DigitsOf(0));
    assert bytes == [0x30];
    EncodeOne(bytes);
  }

  lemma EncodeOne(bytes: seq<Byte>)
    requires |bytes| == 1
    ensures Encode(bytes) == [CharOf(Split0(bytes[0], 0)), CharOf(Split1(bytes[0], 0))]
  {
  }

  lemma DecodeTwo(c: CodeUnit, d: CodeUnit)
    requires SextetOf(c).Some? && SextetOf(d).Some?
    ensures WellFormed([c, d]) && Decode([c, d]) == [Join0(SextetOf(c).value, SextetOf(d).value)]
  {
    hide SextetOf;
    var t := [c, d];
    assert seq(|t|, i requires 0 <= i < |t| => SextetOf(t[i]).value) == [SextetOf(c).value, SextetOf(d).value];
  }

  /** "MDc", which is 07, stands for 7. */
  lemma ZeroLeadingCursorIsAccepted(rt: Runtime)
    requires ReadsAscii(rt)
    ensures DecodeCursor(rt, [0x4d, 0x44, 0x63]) == Some(7) && [0x4d, 0x44, 0x63] != EncodeCursor(7)
  {
    assert Split([0x30, 0x37]) == [12, 3, 28];
    assert Encode(AsBytes([0x30, 0x37])) == [0x4d, 0x44, 0x63];
    DecodesEncoded(rt, [0x30, 0x37]);
    ValueOfZeroSeven();
    assert |EncodeCursor(7)| == 2;
  }

  lemma ValueOfZeroSeven()
    ensures ParseBigInt(Trim([0x30, 0x37])) == Some(7)
  {
    ValueInTenExactly([0x30, 0x37]);
    assert [0x30, 0x37][..1] == [0x30] && [0x30][..0] == [];
  }
}
