/**
 Exact money: an integer count of minor units at a scale of 0..8 fractional digits, its decimal
 printer and its parser.
 */
module Money {
  import opened Wrappers
  import opened Texts

  datatype Money = Money(minorUnits: int, scale: nat, currency: Option<Text>)

  datatype MoneyError = BadScale | NotDecimal | TooPrecise | ScaleMismatch | CurrencyMismatch

  /** The three captures of the accepted notation: optional minus, whole part, optional fraction. */
  datatype Decimal = Decimal(negative: bool, whole: Text, fraction: Text)

  function IndexOf(t: Text, u: CodeUnit): (i: nat)
    ensures i <= |t|
    ensures u !in t[..i]
    ensures i < |t| ==> t[i] == u
  {
    if t == [] || t[0] == u then 0
    else
      var i := 1 + IndexOf(t[1..], u);
      assert t[..i] == [t[0]] + t[1..][..i - 1];
      i
  }

  predicate WellFormed(d: Decimal) {
    d.whole != [] && AllDigits(d.whole) && AllDigits(d.fraction)
  }

  function Render(d: Decimal): Text {
    if d.negative then [MINUS] + Unsigned(d) else Unsigned(d)
  }

  /** Matches the unsigned part: digits, then optionally a dot and more digits. */
  function SplitUnsigned(negative: bool, body: Text): (r: Option<Decimal>)
    ensures r.Some? ==> WellFormed(r.value) && r.value.negative == negative
  {
    var dot := IndexOf(body, DOT);
    var whole := body[..dot];
    if whole == [] || !AllDigits(whole) then None
    else if dot == |body| then Some(Decimal(negative, whole, []))
    else
      var fraction := body[dot + 1..];
      if fraction == [] || !AllDigits(fraction) then None else Some(Decimal(negative, whole, fraction))
  }

  /** Matches a trimmed text against the decimal notation. */
  function Split(t: Text): (r: Option<Decimal>)
    ensures r.Some? ==> WellFormed(r.value)
  {
    if t != [] && t[0] == MINUS then SplitUnsigned(true, t[1..]) else SplitUnsigned(false, t)
  }

  /** The digits of a decimal written out at a scale, the fraction filled up with zeros. */
  function DigitsAtScale(d: Decimal, scale: nat): (t: Text)
    requires WellFormed(d) && |d.fraction| <= scale
    ensures AllDigits(t)
  {
    AllDigitsAppend(d.fraction, Zeros(scale - |d.fraction|));
    AllDigitsAppend(d.whole, d.fraction + Zeros(scale - |d.fraction|));
    d.whole + (d.fraction + Zeros(scale - |d.fraction|))
  }

  /** `fromDecimalString` */
  function Parse(value: Text, scale: int, currency: Option<Text>): Result<Money, MoneyError> {
    if !(0 <= scale <= 8) then Failure(BadScale)
    else
      match Split(Trim(value))
      case None => Failure(NotDecimal)
      case Some(d) =>
        if |d.fraction| > scale then Failure(TooPrecise)
        else
          var magnitude: int := ValueOf(DigitsAtScale(d, scale));
          Success(Money(if d.negative then -magnitude else magnitude, scale, currency))
  }

  function Magnitude(x: int): nat {
    if x < 0 then -x else x
  }

  function PadStart(t: Text, width: nat): (p: Text)
    requires AllDigits(t)
    ensures AllDigits(p) && |p| >= width && |p| >= |t|
  {
    if |t| < width then Zeros(width - |t|) + t else t
  }

  /** `toDecimalString` */
  function Print(m: Money): Text {
    var digits := PadStart(DigitsOf(Magnitude(m.minorUnits)), m.scale + 1);
    var cut := |digits| - m.scale;
    (if m.minorUnits < 0 then [MINUS] else [])
    + digits[..cut]
    + (if m.scale > 0 then [DOT] + digits[cut..] else [])
  }

  function Compatible(a: Money, b: Money): Option<MoneyError> {
    if a.scale != b.scale then Some(ScaleMismatch)
    else if a.currency != b.currency then Some(CurrencyMismatch)
    else None
  }

  function Add(a: Money, b: Money): Result<Money, MoneyError> {
    match Compatible(a, b)
    case Some(e) => Failure(e)
    case None => Success(Money(a.minorUnits + b.minorUnits, a.scale, a.currency))
  }

  function Subtract(a: Money, b: Money): Result<Money, MoneyError> {
    match Compatible(a, b)
    case Some(e) => Failure(e)
    case None => Success(Money(a.minorUnits - b.minorUnits, a.scale, a.currency))
  }

  function CompareTo(a: Money, b: Money): Result<int, MoneyError> {
    match Compatible(a, b)
    case Some(e) => Failure(e)
    case None =>
      Success(if a.minorUnits < b.minorUnits then -1 else if a.minorUnits > b.minorUnits then 1 else 0)
  }

  // ---------------------------------------------------------------------------
  // Reading and writing the notation
  // ---------------------------------------------------------------------------

  function Unsigned(d: Decimal): Text {
    if d.fraction == [] then d.whole else d.whole + [DOT] + d.fraction
  }

  lemma SplitUnsignedIsRender(negative: bool, body: Text)
    requires SplitUnsigned(negative, body).Some?
    ensures Unsigned(SplitUnsigned(negative, body).value) == body
  {
    var dot := IndexOf(body, DOT);
    if dot < |body| {
      assert body == body[..dot] + [body[dot]] + body[dot + 1..];
    } else {
      assert body[..dot] == body;
    }
  }

  lemma SplitIsRender(t: Text)
    requires Split(t).Some?
    ensures Render(Split(t).value) == t
  {
    if t != [] && t[0] == MINUS {
      SplitUnsignedIsRender(true, t[1..]);
      assert t == [MINUS] + t[1..];
    } else {
      SplitUnsignedIsRender(false, t);
    }
  }

  lemma {:induction false} IndexOfFirst(a: Text, u: CodeUnit, b: Text)
    requires u !in a
    ensures IndexOf(a + [u] + b, u) == |a|
    ensures IndexOf(a, u) == |a|
  {
    if a == [] {
      assert a + [u] + b == [u] + b;
    } else {
      assert (a + [u] + b)[1..] == a[1..] + [u] + b;
      IndexOfFirst(a[1..], u, b);
    }
  }

  lemma UnsignedThenSplit(d: Decimal)
    requires WellFormed(d)
    ensures SplitUnsigned(d.negative, Unsigned(d)) == Some(d)
  {
    var body := Unsigned(d);
    IndexOfFirst(d.whole, DOT, d.fraction);
    assert body[..|d.whole|] == d.whole;
    if d.fraction != [] {
      assert body[|d.whole| + 1..] == d.fraction;
    }
  }

  lemma RenderThenSplit(d: Decimal)
    requires WellFormed(d)
    ensures Split(Render(d)) == Some(d)
  {
    UnsignedThenSplit(d);
    assert Unsigned(d)[0] == d.whole[0];
    if d.negative {
      assert Render(d)[1..] == Unsigned(d);
    }
  }

  lemma TrimKeeps(t: Text)
    requires t != [] && !IsSpace(t[0]) && !IsSpace(t[|t| - 1])
    ensures Trim(t) == t
  {
  }

  lemma TrimKeepsRender(d: Decimal)
    requires WellFormed(d)
    ensures Trim(Render(d)) == Render(d)
  {
    var t := Render(d);
    assert t[0] == MINUS || t[0] == d.whole[0];
    assert t[|t| - 1] == if d.fraction == [] then d.whole[|d.whole| - 1] else d.fraction[|d.fraction| - 1];
    TrimKeeps(t);
  }

  // ---------------------------------------------------------------------------
  // What a decimal denotes, as a rational number
  // ---------------------------------------------------------------------------

  function Denotes(d: Decimal): real
    requires WellFormed(d)
  {
    var size := ValueOf(d.whole) as real + OverTen(ValueOf(d.fraction) as real, |d.fraction|);
    if d.negative then -size else size
  }

  /** A text that is the one way to write its value at this scale. */
  predicate IsCanonical(t: Text, scale: nat) {
    match Split(t)
    case None => false
    case Some(d) =>
      && IsCanonicalDecimal(d.whole)
      && |d.fraction| == scale
      && (d.negative ==> exists i :: 0 <= i < |d.whole + d.fraction| && (d.whole + d.fraction)[i] != ZERO)
  }

  function PrintedShape(m: Money): Decimal {
    var digits := PadStart(DigitsOf(Magnitude(m.minorUnits)), m.scale + 1);
    Decimal(m.minorUnits < 0, digits[..|digits| - m.scale], digits[|digits| - m.scale..])
  }

  lemma PrintIsRender(m: Money)
    ensures WellFormed(PrintedShape(m))
    ensures Print(m) == Render(PrintedShape(m))
    ensures Split(Print(m)) == Some(PrintedShape(m))
    ensures Trim(Print(m)) == Print(m)
  {
    PrintRendersShape(m);
    hide Print, Render, PrintedShape, WellFormed, Split, Trim;
    RenderThenSplit(PrintedShape(m));
    TrimKeepsRender(PrintedShape(m));
  }

  lemma PrintRendersShape(m: Money)
    ensures WellFormed(PrintedShape(m)) && Print(m) == Render(PrintedShape(m))
  {
    PrintedParts(m);
    hide Print, PrintedShape, WellFormed, Render;
    var d := PrintedShape(m);
    RenderOfParts(d.negative, d.whole, d.fraction, m.scale);
  }

  lemma PrintedParts(m: Money)
    ensures var d := PrintedShape(m);
            && WellFormed(d) && (d.fraction == [] <==> m.scale == 0)
            && Print(m) == (if d.negative then [MINUS] else []) + d.whole + (if m.scale > 0 then [DOT] + d.fraction else [])
  {
    var digits := PadStart(DigitsOf(Magnitude(m.minorUnits)), m.scale + 1);
    hide DigitsOf, PadStart;
    CutDigits(digits, |digits| - m.scale);
  }

  lemma CutDigits(digits: Text, cut: nat)
    requires AllDigits(digits) && cut <= |digits|
    ensures AllDigits(digits[..cut]) && AllDigits(digits[cut..])
  {
  }

  lemma RenderOfParts(negative: bool, whole: Text, fraction: Text, scale: nat)
    requires fraction == [] <==> scale == 0
    ensures Render(Decimal(negative, whole, fraction))
         == (if negative then [MINUS] else []) + whole + (if scale > 0 then [DOT] + fraction else [])
  {
    Reassociates(if negative then [MINUS] else [], whole, [DOT], fraction);
  }

  lemma Reassociates(sign: Text, whole: Text, dot: Text, fraction: Text)
    ensures sign + (whole + dot + fraction) == sign + whole + (dot + fraction)
    ensures sign + whole + [] == sign + whole
    ensures [] + whole == whole && [] + (whole + dot + fraction) == whole + dot + fraction
  {
  }

  lemma {:induction false} PaddedValue(t: Text, width: nat)
    requires AllDigits(t)
    ensures ValueOf(PadStart(t, width)) == ValueOf(t)
  {
    if |t| < width {
      LeadingZeros(width - |t|, t);
    }
  }

  /** The digits a printed amount carries are exactly its magnitude. */
  lemma PrintedDigits(m: Money)
    ensures var d := PrintedShape(m);
            && WellFormed(d)
            && d.whole + d.fraction == PadStart(DigitsOf(Magnitude(m.minorUnits)), m.scale + 1)
            && |d.fraction| == m.scale
            && ValueOf(d.whole + d.fraction) == Magnitude(m.minorUnits)
  {
    PaddedValue(DigitsOf(Magnitude(m.minorUnits)), m.scale + 1);
    DigitsThenValue(Magnitude(m.minorUnits));
  }

  /** Parsing what was printed gives back the same minor units, for every amount and every scale. */
  lemma RoundTrip(m: Money)
    requires m.scale <= 8
    ensures Parse(Print(m), m.scale, m.currency) == Success(m)
  {
    hide Print, Split, Render, Trim, PadStart, DigitsOf, ValueOf;
    PrintIsRender(m);
    PrintedDigits(m);
    var d := PrintedShape(m);
    assert d.fraction + Zeros(0) == d.fraction;
    assert d.whole + (d.fraction + Zeros(0)) == d.whole + d.fraction;
  }

  lemma AtScaleIsExact(d: Decimal, scale: nat)
    requires WellFormed(d) && |d.fraction| <= scale
    ensures var magnitude: int := ValueOf(DigitsAtScale(d, scale));
            (if d.negative then -magnitude else magnitude) as real == TimesTen(Denotes(d), scale)
  {
    hide TimesTen, OverTen, ValueOf;
    var f, z := |d.fraction|, scale - |d.fraction|;
    var w, q := ValueOf(d.whole) as real, OverTen(ValueOf(d.fraction) as real, f);
    AllDigitsAppend(d.whole, d.fraction);
    assert DigitsAtScale(d, scale) == (d.whole + d.fraction) + Zeros(z);
    ValueOfAppend(d.whole, d.fraction);
    ValueOfAppend(d.whole + d.fraction, Zeros(z));
    ValueOfZeros(z);
    TimesOverTen(ValueOf(d.fraction) as real, f);
    TimesTenLaws(w, q, 0, f);
    TimesTenLaws(w + q, 0.0, f, z);
    TimesTenLaws(w + q, 0.0, 0, scale);
  }

  /** Parsing is exact: the minor units are the denoted rational with its point moved by the scale. */
  lemma ParseIsExact(value: Text, scale: int, currency: Option<Text>)
    requires Parse(value, scale, currency).Success?
    ensures Split(Trim(value)).Some?
    ensures Parse(value, scale, currency).value.minorUnits as real
         == TimesTen(Denotes(Split(Trim(value)).value), scale)
  {
    AtScaleIsExact(Split(Trim(value)).value, scale);
  }

  /** Printing is exact: the rational a printed amount denotes, moved by the scale, is the minor units. */
  lemma PrintIsExact(m: Money)
    requires m.scale <= 8
    ensures Split(Print(m)) == Some(PrintedShape(m)) && WellFormed(PrintedShape(m))
    ensures TimesTen(Denotes(PrintedShape(m)), m.scale) == m.minorUnits as real
  {
    RoundTrip(m);
    PrintIsRender(m);
    ParseIsExact(Print(m), m.scale, m.currency);
  }

  /** The rational that the printed text of an amount denotes. */
  function PrintedValue(m: Money): real {
    PrintIsRender(m);
    Denotes(PrintedShape(m))
  }

  /** Moving the point of the printed value by the scale gives the minor units. */
  lemma PrintedValueIsExact(m: Money)
    requires m.scale <= 8
    ensures TimesTen(PrintedValue(m), m.scale) == m.minorUnits as real
  {
    PrintIsExact(m);
  }

  lemma PrintedValueIs(m: Money, x: real)
    requires m.scale <= 8 && TimesTen(x, m.scale) == m.minorUnits as real
    ensures PrintedValue(m) == x
  {
    PrintIsExact(m);
    TimesTenLaws(x, PrintedValue(m), 0, m.scale);
    TimesTenLaws(PrintedValue(m), x, 0, m.scale);
  }

  /** A printed sum denotes the exact sum of the rationals printed for its terms. */
  lemma AddIsExact(a: Money, b: Money)
    requires a.scale <= 8 && Add(a, b).Success?
    ensures PrintedValue(Add(a, b).value) == PrintedValue(a) + PrintedValue(b)
  {
    hide PrintedValue, TimesTen;
    PrintedValueIsExact(a);
    PrintedValueIsExact(b);
    var x, y := PrintedValue(a), PrintedValue(b);
    TimesTenLaws(x, y, 0, a.scale);
    assert TimesTen(x + y, a.scale) == a.minorUnits as real + b.minorUnits as real;
    PrintedValueIs(Add(a, b).value, x + y);
  }

  lemma SubtractUndoesAdd(a: Money, b: Money)
    requires Subtract(a, b).Success?
    ensures Add(Subtract(a, b).value, b) == Success(a)
  {
  }

  /** A printed difference denotes the exact difference. */
  lemma SubtractIsExact(a: Money, b: Money)
    requires a.scale <= 8 && Subtract(a, b).Success?
    ensures PrintedValue(Subtract(a, b).value) == PrintedValue(a) - PrintedValue(b)
  {
    SubtractUndoesAdd(a, b);
    AddIsExact(Subtract(a, b).value, b);
  }

  /** Comparison orders amounts as the rationals they print. */
  lemma CompareIsExact(a: Money, b: Money)
    requires a.scale <= 8 && CompareTo(a, b).Success?
    ensures CompareTo(a, b).value < 0 <==> PrintedValue(a) < PrintedValue(b)
    ensures CompareTo(a, b).value > 0 <==> PrintedValue(b) < PrintedValue(a)
  {
    PrintedValueIsExact(a);
    PrintedValueIsExact(b);
    TimesTenLaws(PrintedValue(a), PrintedValue(b), 0, a.scale);
    TimesTenLaws(PrintedValue(b), PrintedValue(a), 0, a.scale);
  }

  lemma {:induction false} ZeroValueIsZeros(t: Text)
    requires AllDigits(t)
    ensures ValueOf(t) == 0 <==> forall i | 0 <= i < |t| :: t[i] == ZERO
  {
    if t != [] {
      ZeroValueIsZeros(t[..|t| - 1]);
      assert forall i | 0 <= i < |t| - 1 :: t[..|t| - 1][i] == t[i];
    }
  }

  /** A digit run with a canonical whole part is what padding its own value yields. */
  lemma PaddingIsUnique(whole: Text, fraction: Text)
    requires IsCanonicalDecimal(whole) && AllDigits(fraction)
    ensures AllDigits(whole + fraction)
    ensures PadStart(DigitsOf(ValueOf(whole + fraction)), |fraction| + 1) == whole + fraction
  {
    var c := whole + fraction;
    AllDigitsAppend(whole, fraction);
    if whole[0] != ZERO {
      ValueThenDigits(c);
    } else {
      ValueBelowPower(c);
      DigitsLength(ValueOf(c), |c|);
      PaddedValue(DigitsOf(ValueOf(c)), |c|);
      DigitsThenValue(ValueOf(c));
      SameLengthSameValue(PadStart(DigitsOf(ValueOf(c)), |c|), c);
    }
  }

  /** Printing always yields the canonical text of its scale. */
  lemma PrintIsCanonical(m: Money)
    ensures IsCanonical(Print(m), m.scale)
  {
    PrintIsRender(m);
    PrintedDigits(m);
    var d := PrintedShape(m);
    var n := DigitsOf(Magnitude(m.minorUnits));
    if |n| <= m.scale + 1 {
      assert |d.whole| == 1;
    } else {
      assert d.whole[0] == n[0];
    }
    ZeroValueIsZeros(d.whole + d.fraction);
  }

  /** Printing a parsed text returns that text exactly when it was canonical. */
  lemma PrintOfParse(value: Text, scale: int, currency: Option<Text>)
    requires Parse(value, scale, currency).Success?
    ensures Print(Parse(value, scale, currency).value) == value <==> IsCanonical(value, scale)
  {
    hide Split, Trim, DigitsOf, ValueOf, Print;
    var m := Parse(value, scale, currency).value;
    PrintIsCanonical(m);
    if IsCanonical(value, scale) {
      SplitIsRender(value);
      var d := Split(value).value;
      TrimKeepsRender(d);
      assert d.fraction + Zeros(0) == d.fraction;
      ZeroValueIsZeros(d.whole + d.fraction);
      PaddingIsUnique(d.whole, d.fraction);
      var digits := PadStart(DigitsOf(Magnitude(m.minorUnits)), m.scale + 1);
      assert digits == d.whole + d.fraction;
      assert digits[..|digits| - scale] == d.whole && digits[|digits| - scale..] == d.fraction;
      PrintIsRender(m);
    }
  }

  /** Two texts parse to one amount exactly when they denote one rational. */
  lemma ParseSeparatesValues(a: Text, b: Text, scale: int, currency: Option<Text>)
    requires Parse(a, scale, currency).Success? && Parse(b, scale, currency).Success?
    ensures Split(Trim(a)).Some? && WellFormed(Split(Trim(a)).value)
    ensures Split(Trim(b)).Some? && WellFormed(Split(Trim(b)).value)
    ensures Parse(a, scale, currency) == Parse(b, scale, currency)
       <==> Denotes(Split(Trim(a)).value) == Denotes(Split(Trim(b)).value)
  {
    ParseIsExact(a, scale, currency);
    ParseIsExact(b, scale, currency);
    var x, y := Denotes(Split(Trim(a)).value), Denotes(Split(Trim(b)).value);
    TimesTenLaws(x, y, 0, scale);
    TimesTenLaws(y, x, 0, scale);
  }

  // ---------------------------------------------------------------------------
  // What is accepted
  // ---------------------------------------------------------------------------

  /** The accepted notation, unit by unit: a minus or none, digits, and a point with digits behind it or none */
  predicate IsNotation(t: Text, negative: bool, whole: Text, fraction: Text) {
    && whole != [] && (forall i | 0 <= i < |whole| :: 0x30 <= whole[i] <= 0x39)
    && (forall i | 0 <= i < |fraction| :: 0x30 <= fraction[i] <= 0x39)
    && t == (if negative then [0x2d] else []) + (whole + if fraction == [] then [] else [0x2e] + fraction)
  }

  /** The text is that notation, with nothing but blanks around it. */
  ghost predicate Names(value: Text, d: Decimal) {
    exists before, body, after :: Padded(value, before, body, after) && IsNotation(body, d.negative, d.whole, d.fraction)
  }

  ghost predicate NamesSomething(value: Text) {
    exists d :: Names(value, d)
  }

  lemma NotationIsRender(t: Text, d: Decimal)
    ensures IsNotation(t, d.negative, d.whole, d.fraction) <==> WellFormed(d) && t == Render(d)
  {
    assert d.whole + [] == d.whole;
    assert d.whole + ([DOT] + d.fraction) == d.whole + [DOT] + d.fraction;
    hide Unsigned;
    assert [] + Unsigned(d) == Unsigned(d);
  }

  lemma RenderIsTight(d: Decimal)
    requires WellFormed(d)
    ensures var t := Render(d);
            t != [] && !IsSpace(t[0]) && !IsSpace(t[|t| - 1])
  {
    var t := Render(d);
    assert t[0] == MINUS || t[0] == d.whole[0];
    assert t[|t| - 1] == if d.fraction == [] then d.whole[|d.whole| - 1] else d.fraction[|d.fraction| - 1];
  }

  /** The trimmed text matches a decimal exactly when the text names it. */
  lemma SplitsExactly(value: Text, d: Decimal)
    ensures Split(Trim(value)) == Some(d) <==> Names(value, d)
  {
    hide Trim, Padded, IsNotation, Split, Render, WellFormed;
    if Split(Trim(value)) == Some(d) {
      SplitIsRender(Trim(value));
      var before, after := TrimSplits(value);
      NotationIsRender(Trim(value), d);
      assert Padded(value, before, Trim(value), after) && IsNotation(Trim(value), d.negative, d.whole, d.fraction);
    }
    if Names(value, d) {
      var before, body, after :| Padded(value, before, body, after) && IsNotation(body, d.negative, d.whole, d.fraction);
      NotationIsRender(body, d);
      RenderIsTight(d);
      TrimOfPadded(value, before, body, after);
      RenderThenSplit(d);
    }
  }

  /** Which texts are accepted at a scale and under a currency, and why the others are not */
  lemma ParsesExactly(value: Text, scale: int, currency: Option<Text>)
    ensures var r := Parse(value, scale, currency);
            && (r == Failure(BadScale) <==> scale < 0 || scale > 8)
            && (r == Failure(NotDecimal) <==> 0 <= scale <= 8 && !NamesSomething(value))
            && (r == Failure(TooPrecise) <==> 0 <= scale <= 8 && exists d :: Names(value, d) && |d.fraction| > scale)
            && (r.Success? <==> 0 <= scale <= 8 && exists d :: Names(value, d) && |d.fraction| <= scale)
            && (r.Success? ==> r.value.scale == scale && r.value.currency == currency)
  {
    hide Split, Trim, Names, DigitsAtScale, ValueOf;
    forall d
      ensures Split(Trim(value)) == Some(d) <==> Names(value, d)
    {
      SplitsExactly(value, d);
    }
    if Split(Trim(value)).Some? {
      assert Names(value, Split(Trim(value)).value);
    }
  }

  /** Sums, differences and comparisons ask for one scale and one currency, and keep both. */
  lemma CombinesExactly(a: Money, b: Money)
    ensures Add(a, b).Success? <==> a.scale == b.scale && a.currency == b.currency
    ensures Subtract(a, b).Success? <==> a.scale == b.scale && a.currency == b.currency
    ensures CompareTo(a, b).Success? <==> a.scale == b.scale && a.currency == b.currency
    ensures a.scale != b.scale ==>
              Add(a, b) == Subtract(a, b) == Failure(ScaleMismatch) && CompareTo(a, b) == Failure(ScaleMismatch)
    ensures a.scale == b.scale && a.currency != b.currency ==>
              Add(a, b) == Subtract(a, b) == Failure(CurrencyMismatch) && CompareTo(a, b) == Failure(CurrencyMismatch)
    ensures Add(a, b).Success? ==> Add(a, b).value.scale == a.scale && Add(a, b).value.currency == a.currency
    ensures Subtract(a, b).Success? ==> Subtract(a, b).value.scale == a.scale && Subtract(a, b).value.currency == a.currency
    ensures CompareTo(a, b).Success? ==> -1 <= CompareTo(a, b).value <= 1
  {
  }
}
