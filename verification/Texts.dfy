/**
 Text as the service sees it: a JavaScript string is a sequence of UTF-16 code units. The module
 also holds the decimal notation of naturals (`BigInt.prototype.toString` and its inverse), which
 money, cursors and object keys all rely on.
 */
module Texts {

  type CodeUnit = u: int | 0 <= u < 0x10000

  type Text = seq<CodeUnit>

  /** A text written in ASCII */
  function Ascii(s: string): (t: Text)
    ensures |t| == |s|
    ensures forall i | 0 <= i < |s| && s[i] < 128 as char :: t[i] == s[i] as int
  {
    if s == [] then [] else [s[0] as int % 0x10000] + Ascii(s[1..])
  }

  const MINUS: CodeUnit := 0x2d
  const PLUS: CodeUnit := 0x2b
  const DOT: CodeUnit := 0x2e
  const ZERO: CodeUnit := 0x30

  predicate IsDigit(u: CodeUnit) {
    0x30 <= u <= 0x39
  }

  predicate AllDigits(t: Text) {
    forall i | 0 <= i < |t| :: IsDigit(t[i])
  }

  /** The whitespace and line terminators removed by `String.prototype.trim`. */
  predicate IsSpace(u: CodeUnit) {
    || 9 <= u <= 13 || u == 0x20 || u == 0xa0 || u == 0x1680 || 0x2000 <= u <= 0x200a
    || u == 0x2028 || u == 0x2029 || u == 0x202f || u == 0x205f || u == 0x3000 || u == 0xfeff
  }

  function TrimStart(t: Text): Text {
    if t != [] && IsSpace(t[0]) then TrimStart(t[1..]) else t
  }

  function TrimEnd(t: Text): Text {
    if t != [] && IsSpace(t[|t| - 1]) then TrimEnd(t[..|t| - 1]) else t
  }

  function Trim(t: Text): Text {
    TrimEnd(TrimStart(t))
  }

  /** No superfluous leading zero: the only decimal that starts with 0 is "0". */
  predicate IsCanonicalDecimal(t: Text) {
    AllDigits(t) && |t| > 0 && (t[0] == ZERO ==> |t| == 1)
  }

  /** The decimal digits of a natural, most significant first. */
  function DigitsOf(n: nat): (t: Text)
    ensures IsCanonicalDecimal(t)
    ensures t[0] == ZERO <==> n == 0
  {
    if n < 10 then [0x30 + n] else DigitsOf(n / 10) + [0x30 + n % 10]
  }

  /** The natural a run of digits denotes; the empty run denotes zero. */
  function ValueOf(t: Text): nat
    requires AllDigits(t)
  {
    if t == [] then 0 else ValueOf(t[..|t| - 1]) * 10 + (t[|t| - 1] - 0x30)
  }

  function Zeros(k: nat): (t: Text)
    ensures |t| == k && AllDigits(t)
  {
    seq(k, i => ZERO)
  }

  function Pow10(k: nat): (p: nat)
    ensures p >= 1
  {
    if k == 0 then 1 else 10 * Pow10(k - 1)
  }

  lemma AllDigitsAppend(a: Text, b: Text)
    ensures AllDigits(a + b) <==> AllDigits(a) && AllDigits(b)
  {
    if AllDigits(a + b) {
      assert forall i | 0 <= i < |a| :: a[i] == (a + b)[i];
      assert forall i | 0 <= i < |b| :: b[i] == (a + b)[|a| + i];
    }
  }

  lemma {:induction false} DigitsThenValue(n: nat)
    ensures ValueOf(DigitsOf(n)) == n
  {
    if n < 10 {
      assert DigitsOf(n)[..0] == [];
    } else {
      DigitsThenValue(n / 10);
      assert DigitsOf(n)[..|DigitsOf(n)| - 1] == DigitsOf(n / 10);
    }
  }

  lemma {:induction false} ValueThenDigits(t: Text)
    requires IsCanonicalDecimal(t)
    ensures DigitsOf(ValueOf(t)) == t
    ensures |t| > 1 ==> ValueOf(t) >= 10
  {
    var init, last := t[..|t| - 1], t[|t| - 1];
    assert t == init + [last];
    if |t| > 1 {
      ValueThenDigits(init);
      assert ValueOf(init) >= 1 by {
        if |init| == 1 { assert init[..0] == []; }
      }
      assert ValueOf(t) / 10 == ValueOf(init) && ValueOf(t) % 10 == last - 0x30;
    }
  }

  /** Moves the decimal point k places to the right. */
  function TimesTen(x: real, k: nat): real {
    if k == 0 then x else 10.0 * TimesTen(x, k - 1)
  }

  /** Moves the decimal point k places to the left. */
  function OverTen(x: real, k: nat): real {
    if k == 0 then x else OverTen(x, k - 1) / 10.0
  }

  lemma {:induction false} TimesTenLaws(x: real, y: real, j: nat, k: nat)
    ensures TimesTen(x, k) + TimesTen(y, k) == TimesTen(x + y, k)
    ensures TimesTen(-x, k) == -TimesTen(x, k)
    ensures TimesTen(TimesTen(x, j), k) == TimesTen(x, j + k)
    ensures x < y <==> TimesTen(x, k) < TimesTen(y, k)
  {
    if k > 0 {
      TimesTenLaws(x, y, j, k - 1);
    }
  }

  lemma {:induction false} TimesTenScales(x: real, k: nat)
    ensures TimesTen(10.0 * x, k) == 10.0 * TimesTen(x, k)
  {
    if k > 0 {
      TimesTenScales(x, k - 1);
    }
  }

  lemma {:induction false} TimesOverTen(x: real, k: nat)
    ensures TimesTen(OverTen(x, k), k) == x
  {
    if k > 0 {
      TimesTenScales(OverTen(x, k - 1) / 10.0, k - 1);
      TimesOverTen(x, k - 1);
    }
  }

  lemma {:induction false} ValueOfAppend(a: Text, b: Text)
    requires AllDigits(a) && AllDigits(b)
    ensures AllDigits(a + b)
    ensures ValueOf(a + b) as real == TimesTen(ValueOf(a) as real, |b|) + ValueOf(b) as real
  {
    if b == [] {
      assert a + b == a;
    } else {
      var n := |b| - 1;
      ValueOfAppend(a, b[..n]);
      assert (a + b)[..|a + b| - 1] == a + b[..n];
    }
  }

  lemma {:induction false} ValueOfZeros(k: nat)
    ensures ValueOf(Zeros(k)) == 0
  {
    if k > 0 {
      ValueOfZeros(k - 1);
      assert Zeros(k)[..k - 1] == Zeros(k - 1);
    }
  }

  lemma {:induction false} LeadingZeros(k: nat, t: Text)
    requires AllDigits(t)
    ensures AllDigits(Zeros(k) + t)
    ensures ValueOf(Zeros(k) + t) == ValueOf(t)
  {
    if t == [] {
      ValueOfZeros(k);
      assert Zeros(k) + t == Zeros(k);
    } else {
      LeadingZeros(k, t[..|t| - 1]);
      assert (Zeros(k) + t)[..k + |t| - 1] == Zeros(k) + t[..|t| - 1];
    }
  }

  lemma {:induction false} ValueBelowPower(t: Text)
    requires AllDigits(t)
    ensures ValueOf(t) < Pow10(|t|)
  {
    if t != [] {
      ValueBelowPower(t[..|t| - 1]);
    }
  }

  /** Digit runs of one length denote distinct naturals. */
  lemma {:induction false} SameLengthSameValue(a: Text, b: Text)
    requires AllDigits(a) && AllDigits(b) && |a| == |b| && ValueOf(a) == ValueOf(b)
    ensures a == b
  {
    if a != [] {
      var n := |a| - 1;
      SameLengthSameValue(a[..n], b[..n]);
      assert a == a[..n] + [a[n]] && b == b[..n] + [b[n]];
    }
  }

  lemma {:induction false} DigitsLength(n: nat, k: nat)
    requires k >= 1 && n < Pow10(k)
    ensures |DigitsOf(n)| <= k
  {
    if n >= 10 {
      assert Pow10(k) == 10 * Pow10(k - 1);
      DigitsLength(n / 10, k - 1);
    }
  }

  // ---------------------------------------------------------------------------
  // Blanks around a text
  // ---------------------------------------------------------------------------

  predicate AllSpace(t: Text) {
    forall i | 0 <= i < |t| :: IsSpace(t[i])
  }

  ghost predicate Padded(t: Text, before: Text, body: Text, after: Text) {
    t == before + body + after && AllSpace(before) && AllSpace(after)
  }

  lemma {:induction false} TrimStartOf(before: Text, rest: Text)
    requires AllSpace(before) && (rest == [] || !IsSpace(rest[0]))
    ensures TrimStart(before + rest) == rest
  {
    if before == [] {
      assert before + rest == rest;
    } else {
      assert (before + rest)[1..] == before[1..] + rest;
      TrimStartOf(before[1..], rest);
    }
  }

  lemma {:induction false} TrimEndOf(rest: Text, after: Text)
    requires AllSpace(after) && (rest == [] || !IsSpace(rest[|rest| - 1]))
    ensures TrimEnd(rest + after) == rest
  {
    if after == [] {
      assert rest + after == rest;
    } else {
      var n := |after| - 1;
      assert (rest + after)[..|rest + after| - 1] == rest + after[..n];
      TrimEndOf(rest, after[..n]);
    }
  }

  lemma {:induction false} TrimStartSplits(t: Text) returns (before: Text)
    ensures t == before + TrimStart(t) && AllSpace(before)
  {
    if t != [] && IsSpace(t[0]) {
      var shorter := TrimStartSplits(t[1..]);
      before := [t[0]] + shorter;
    } else {
      before := [];
    }
  }

  lemma {:induction false} TrimEndSplits(t: Text) returns (after: Text)
    ensures t == TrimEnd(t) + after && AllSpace(after)
  {
    if t != [] && IsSpace(t[|t| - 1]) {
      var shorter := TrimEndSplits(t[..|t| - 1]);
      after := shorter + [t[|t| - 1]];
    } else {
      after := [];
    }
  }

  lemma TrimSplits(t: Text) returns (before: Text, after: Text)
    ensures Padded(t, before, Trim(t), after)
  {
    before := TrimStartSplits(t);
    after := TrimEndSplits(TrimStart(t));
    assert before + (Trim(t) + after) == before + Trim(t) + after;
  }

  lemma {:induction false} TrimOfBlanks(t: Text)
    requires AllSpace(t)
    ensures Trim(t) == []
  {
    TrimStartOf(t, []);
    assert t + [] == t;
  }

  lemma TrimOfPadded(t: Text, before: Text, body: Text, after: Text)
    requires Padded(t, before, body, after) && (body != [] ==> !IsSpace(body[0]) && !IsSpace(body[|body| - 1]))
    ensures Trim(t) == body
  {
    if body == [] {
      TrimOfBlanks(t);
    } else {
      assert t == before + (body + after);
      TrimStartOf(before, body + after);
      TrimEndOf(body, after);
    }
  }
}
