/**
 Lock keys in numbers: two identifiers whose key is the same in either order, and the words the domains start
 from. The words on the way are given as literals, and their exclusive or is checked two bits at a time.
 */
module LockCollision {
  import opened AdvisoryLock

  // ---------------------------------------------------------------------------
  // Exclusive or by base-4 digits
  // ---------------------------------------------------------------------------

  lemma XorBit(x: nat, y: nat, p: nat, q: nat)
    requires p < 2 && q < 2
    ensures Xor(2 * x + p, 2 * y + q) == 2 * Xor(x, y) + (p + q) % 2
  {
    hide Xor;
    var a, b := 2 * x + p, 2 * y + q;
    assert a / 2 == x && b / 2 == y && a % 2 == p && b % 2 == q;
    XorHalves(a, b);
  }

  function Pair(p: nat, q: nat): nat {
    if p == q then 0 else if p == 0 then q else if q == 0 then p else if p + q <= 6 then 6 - p - q else 0
  }

  lemma PairIs(p: nat, q: nat)
    requires p < 4 && q < 4
    ensures Pair(p, q) == 2 * ((p / 2 + q / 2) % 2) + (p % 2 + q % 2) % 2
  {
  }

  lemma XorPair(x: nat, y: nat, z: nat, p: nat, q: nat)
    requires Xor(x, y) == z && p < 4 && q < 4
    ensures Xor(4 * x + p, 4 * y + q) == 4 * z + Pair(p, q)
  {
    hide Xor;
    XorBit(x, y, p / 2, q / 2);
    XorBit(2 * x + p / 2, 2 * y + q / 2, p % 2, q % 2);
    PairIs(p, q);
    hide Pair;
  }

  lemma XorPairs(x: nat, y: nat, z: nat, a: nat, b: nat, c: nat, d: nat, p: nat, q: nat, r: nat, s: nat)
    requires Xor(x, y) == z && a < 4 && b < 4 && c < 4 && d < 4 && p < 4 && q < 4 && r < 4 && s < 4
    ensures Xor(0x100 * x + 0x40 * a + 0x10 * b + 4 * c + d, 0x100 * y + 0x40 * p + 0x10 * q + 4 * r + s)
         == 0x100 * z + 0x40 * Pair(a, p) + 0x10 * Pair(b, q) + 4 * Pair(c, r) + Pair(d, s)
  {
    hide Xor, Pair;
    XorPair(x, y, z, a, p);
    var x1, y1, z1 := 4 * x + a, 4 * y + p, 4 * z + Pair(a, p);
    XorPair(x1, y1, z1, b, q);
    var x2, y2, z2 := 4 * x1 + b, 4 * y1 + q, 4 * z1 + Pair(b, q);
    XorPair(x2, y2, z2, c, r);
    var x3, y3, z3 := 4 * x2 + c, 4 * y2 + r, 4 * z2 + Pair(c, r);
    XorPair(x3, y3, z3, d, s);
  }

  /** Sixteen bits more on either side, as eight digits of two bits */
  lemma Eight(x: nat, y: nat, z: nat, a: nat, b: nat, c: nat, d: nat, e: nat, f: nat, g: nat, h: nat,
              p: nat, q: nat, r: nat, s: nat, t: nat, u: nat, v: nat, w: nat, x': nat, y': nat, z': nat)
    requires Xor(x, y) == z && a < 4 && b < 4 && c < 4 && d < 4 && e < 4 && f < 4 && g < 4 && h < 4
    requires p < 4 && q < 4 && r < 4 && s < 4 && t < 4 && u < 4 && v < 4 && w < 4
    requires x' == 0x100 * (0x100 * x + 0x40 * a + 0x10 * b + 4 * c + d) + 0x40 * e + 0x10 * f + 4 * g + h
    requires y' == 0x100 * (0x100 * y + 0x40 * p + 0x10 * q + 4 * r + s) + 0x40 * t + 0x10 * u + 4 * v + w
    requires z' == 0x100 * (0x100 * z + 0x40 * Pair(a, p) + 0x10 * Pair(b, q) + 4 * Pair(c, r) + Pair(d, s))
                   + 0x40 * Pair(e, t) + 0x10 * Pair(f, u) + 4 * Pair(g, v) + Pair(h, w)
    ensures Xor(x', y') == z'
  {
    hide Xor, Pair;
    XorPairs(x, y, z, a, b, c, d, p, q, r, s);
    XorPairs(0x100 * x + 0x40 * a + 0x10 * b + 4 * c + d, 0x100 * y + 0x40 * p + 0x10 * q + 4 * r + s,
             0x100 * z + 0x40 * Pair(a, p) + 0x10 * Pair(b, q) + 4 * Pair(c, r) + Pair(d, s), e, f, g, h, t, u, v, w);
  }

  // ---------------------------------------------------------------------------
  // One mix
  // ---------------------------------------------------------------------------

  lemma HalfThenShift(a: nat, n: nat)
    requires n > 0
    ensures a / 2 / n == a / (2 * n)
  {
    var q, r := a / (2 * n), a % (2 * n);
    assert a == 2 * (n * q) + r && 0 <= r < 2 * n by {
      assert a == 2 * n * q + r;
      assert 2 * n * q == 2 * (n * q);
    }
    assert a / 2 == n * q + r / 2;
    Quotient(a / 2, n, q, r / 2);
  }

  lemma NextMultiple(n: nat, p: nat, q: nat)
    ensures p > q ==> n * p >= n * q + n
  {
    if p > q {
      AtLeastOnce(n, p - q);
      assert n * p == n * q + n * (p - q);
    }
  }

  lemma AtLeastOnce(n: nat, d: nat)
    requires d >= 1
    ensures n * d >= n
  {
  }

  lemma Quotient(a: nat, n: nat, q: nat, r: nat)
    requires n > 0 && a == n * q + r && r < n
    ensures a / n == q
  {
    assert a == n * (a / n) + a % n;
    NextMultiple(n, a / n, q);
    NextMultiple(n, q, a / n);
  }

  lemma {:induction false} ShrDivides(a: nat, s: nat)
    ensures Pow2(s) > 0 && Shr(a, s) == a / Pow2(s)
  {
    if s > 0 {
      ShrDivides(a / 2, s - 1);
      HalfThenShift(a, Pow2(s - 1));
    }
  }

  lemma ShiftPowers()
    ensures Pow2(27) == 0x800_0000 && Pow2(30) == 0x4000_0000 && Pow2(31) == 0x8000_0000
  {
    assert Pow2(8) == 0x100;
    assert Pow2(16) == 0x1_0000;
    assert Pow2(24) == 0x100_0000;
  }

  /** The words between the steps of `mix` */
  lemma MixSteps(w: Word, a: Word, b: Word, c: Word, d: Word, e: Word)
    requires Xor(w, w / 0x4000_0000) == a && b == a * FACTOR_1 % TWO_TO_64
    requires Xor(b, b / 0x800_0000) == c && d == c * FACTOR_2 % TWO_TO_64
    requires Xor(d, d / 0x8000_0000) == e
    ensures Mix(w) == e
  {
    hide Xor, Shr;
    ShiftPowers();
    ShrDivides(w, 30);
    ShrDivides(b, 27);
    ShrDivides(d, 31);
    hide Pow2;
  }

  // ---------------------------------------------------------------------------
  // The two identifiers
  // ---------------------------------------------------------------------------

  const A: int := 1589002774751649366
  const B: int := 3797646225317572265

  lemma MixDomainSecond()
    ensures Xor(0x7eb08eda39c9cb72, 0xfd611db47) == 0x7eb08ed5efd81035
  {
    hide Xor;
    XorZero(0x7eb0);
    Eight(0x7eb0, 0x0, 0x7eb0, 2, 0, 3, 2, 3, 1, 2, 2, 0, 0, 0, 0, 0, 0, 3, 3,
          0x7eb08eda, 0xf, 0x7eb08ed5);
    Eight(0x7eb08eda, 0xf, 0x7eb08ed5, 0, 3, 2, 1, 3, 0, 2, 1, 3, 1, 1, 2, 0, 1, 0, 1,
          0x7eb08eda39c9, 0xfd611, 0x7eb08ed5efd8);
    Eight(0x7eb08eda39c9, 0xfd611, 0x7eb08ed5efd8, 3, 0, 2, 3, 1, 3, 0, 2, 3, 1, 2, 3, 1, 0, 1, 3,
          0x7eb08eda39c9cb72, 0xfd611db47, 0x7eb08ed5efd81035);
  }

  lemma MixDomainThird()
    ensures Xor(0xdbd238968d8f65a7, 0x1b7a4712d) == 0xdbd238973a2b148a
  {
    hide Xor;
    XorZero(0xdbd2);
    Eight(0xdbd2, 0x0, 0xdbd2, 0, 3, 2, 0, 2, 1, 1, 2, 0, 0, 0, 0, 0, 0, 0, 1,
          0xdbd23896, 0x1, 0xdbd23897);
    Eight(0xdbd23896, 0x1, 0xdbd23897, 2, 0, 3, 1, 2, 0, 3, 3, 2, 3, 1, 3, 2, 2, 1, 0,
          0xdbd238968d8f, 0x1b7a4, 0xdbd238973a2b);
    Eight(0xdbd238968d8f, 0x1b7a4, 0xdbd238973a2b, 1, 2, 1, 1, 2, 2, 1, 3, 1, 3, 0, 1, 0, 2, 3, 1,
          0xdbd238968d8f65a7, 0x1b7a4712d, 0xdbd238973a2b148a);
  }

  lemma MixDomain()
    ensures Mix(0x2) == 0xdbd238973a2b148a
  {
    hide Mix, Xor;
    XorZero(0x2);
    MixDomainSecond();
    MixDomainThird();
    MixSteps(0x2, 0x2, 0x7eb08eda39c9cb72, 0x7eb08ed5efd81035, 0xdbd238968d8f65a7, 0xdbd238973a2b148a);
  }

  lemma MixPartAFirst()
    ensures Xor(0x160d459ad02e9e56, 0x5835166b) == 0x160d459a881b883d
  {
    hide Xor;
    XorZero(0x160d459a);
    Eight(0x160d459a, 0x0, 0x160d459a, 3, 1, 0, 0, 0, 2, 3, 2, 1, 1, 2, 0, 0, 3, 1, 1,
          0x160d459ad02e, 0x5835, 0x160d459a881b);
    Eight(0x160d459ad02e, 0x5835, 0x160d459a881b, 2, 1, 3, 2, 1, 1, 1, 2, 0, 1, 1, 2, 1, 2, 2, 3,
          0x160d459ad02e9e56, 0x5835166b, 0x160d459a881b883d);
  }

  lemma MixPartASecond()
    ensures Xor(0xa1d8b0d1ff180515, 0x143b161a3f) == 0xa1d8b0c5c40e1f2a
  {
    hide Xor;
    XorZero(0xa1d8);
    Eight(0xa1d8, 0x0, 0xa1d8, 2, 3, 0, 0, 3, 1, 0, 1, 0, 0, 0, 0, 0, 1, 1, 0,
          0xa1d8b0d1, 0x14, 0xa1d8b0c5);
    Eight(0xa1d8b0d1, 0x14, 0xa1d8b0c5, 3, 3, 3, 3, 0, 1, 2, 0, 0, 3, 2, 3, 0, 1, 1, 2,
          0xa1d8b0d1ff18, 0x143b16, 0xa1d8b0c5c40e);
    Eight(0xa1d8b0d1ff18, 0x143b16, 0xa1d8b0c5c40e, 0, 0, 1, 1, 0, 1, 1, 1, 0, 1, 2, 2, 0, 3, 3, 3,
          0xa1d8b0d1ff180515, 0x143b161a3f, 0xa1d8b0c5c40e1f2a);
  }

  lemma MixPartAThird()
    ensures Xor(0x5062b841fe12658e, 0xa0c57083) == 0x5062b8415ed7150d
  {
    hide Xor;
    XorZero(0x5062b841);
    Eight(0x5062b841, 0x0, 0x5062b841, 3, 3, 3, 2, 0, 1, 0, 2, 2, 2, 0, 0, 3, 0, 1, 1,
          0x5062b841fe12, 0xa0c5, 0x5062b8415ed7);
    Eight(0x5062b841fe12, 0xa0c5, 0x5062b8415ed7, 1, 2, 1, 1, 2, 0, 3, 2, 1, 3, 0, 0, 2, 0, 0, 3,
          0x5062b841fe12658e, 0xa0c57083, 0x5062b8415ed7150d);
  }

  lemma MixPartA()
    ensures Mix(0x160d459ad02e9e56) == 0x5062b8415ed7150d
  {
    hide Mix, Xor;
    MixPartAFirst();
    MixPartASecond();
    MixPartAThird();
    MixSteps(0x160d459ad02e9e56, 0x160d459a881b883d, 0xa1d8b0d1ff180515, 0xa1d8b0c5c40e1f2a, 0x5062b841fe12658e, 0x5062b8415ed7150d);
  }

  lemma AbsorbPartA()
    ensures Xor(0xdbd238973a2b148a, 0x5062b8415ed7150d) == 0x8bb080d664fc0187
  {
    hide Xor;
    XorZero(0x0);
    Eight(0x0, 0x0, 0x0, 3, 1, 2, 3, 3, 1, 0, 2, 1, 1, 0, 0, 1, 2, 0, 2,
          0xdbd2, 0x5062, 0x8bb0);
    Eight(0xdbd2, 0x5062, 0x8bb0, 0, 3, 2, 0, 2, 1, 1, 3, 2, 3, 2, 0, 1, 0, 0, 1,
          0xdbd23897, 0x5062b841, 0x8bb080d6);
    Eight(0xdbd23897, 0x5062b841, 0x8bb080d6, 0, 3, 2, 2, 0, 2, 2, 3, 1, 1, 3, 2, 3, 1, 1, 3,
          0xdbd238973a2b, 0x5062b8415ed7, 0x8bb080d664fc);
    Eight(0xdbd238973a2b, 0x5062b8415ed7, 0x8bb080d664fc, 0, 1, 1, 0, 2, 0, 2, 2, 0, 1, 1, 1, 0, 0, 3, 1,
          0xdbd238973a2b148a, 0x5062b8415ed7150d, 0x8bb080d664fc0187);
  }

  lemma MixKeyAFirst()
    ensures Xor(0x8bb080d664fc0187, 0x22ec20359) == 0x8bb080d44a3e02de
  {
    hide Xor;
    XorZero(0x8bb0);
    Eight(0x8bb0, 0x0, 0x8bb0, 2, 0, 0, 0, 3, 1, 1, 2, 0, 0, 0, 0, 0, 0, 0, 2,
          0x8bb080d6, 0x2, 0x8bb080d4);
    Eight(0x8bb080d6, 0x2, 0x8bb080d4, 1, 2, 1, 0, 3, 3, 3, 0, 0, 2, 3, 2, 3, 0, 0, 2,
          0x8bb080d664fc, 0x22ec2, 0x8bb080d44a3e);
    Eight(0x8bb080d664fc, 0x22ec2, 0x8bb080d44a3e, 0, 0, 0, 1, 2, 0, 1, 3, 0, 0, 0, 3, 1, 1, 2, 1,
          0x8bb080d664fc0187, 0x22ec20359, 0x8bb080d44a3e02de);
  }

  lemma MixKeyASecond()
    ensures Xor(0x387eb1e3f518a86e, 0x70fd63c7e) == 0x387eb1e4face9410
  {
    hide Xor;
    XorZero(0x387e);
    Eight(0x387e, 0x0, 0x387e, 2, 3, 0, 1, 3, 2, 0, 3, 0, 0, 0, 0, 0, 0, 1, 3,
          0x387eb1e3, 0x7, 0x387eb1e4);
    Eight(0x387eb1e3, 0x7, 0x387eb1e4, 3, 3, 1, 1, 0, 1, 2, 0, 0, 0, 3, 3, 3, 1, 1, 2,
          0x387eb1e3f518, 0x70fd6, 0x387eb1e4face);
    Eight(0x387eb1e3f518, 0x70fd6, 0x387eb1e4face, 2, 2, 2, 0, 1, 2, 3, 2, 0, 3, 3, 0, 1, 3, 3, 2,
          0x387eb1e3f518a86e, 0x70fd63c7e, 0x387eb1e4face9410);
  }

  lemma MixKeyAThird()
    ensures Xor(0xfbad90117a86fab0, 0x1f75b2022) == 0xfbad90108dddda92
  {
    hide Xor;
    XorZero(0xfbad);
    Eight(0xfbad, 0x0, 0xfbad, 2, 1, 0, 0, 0, 1, 0, 1, 0, 0, 0, 0, 0, 0, 0, 1,
          0xfbad9011, 0x1, 0xfbad9010);
    Eight(0xfbad9011, 0x1, 0xfbad9010, 1, 3, 2, 2, 2, 0, 1, 2, 3, 3, 1, 3, 1, 1, 2, 3,
          0xfbad90117a86, 0x1f75b, 0xfbad90108ddd);
    Eight(0xfbad90117a86, 0x1f75b, 0xfbad90108ddd, 3, 3, 2, 2, 2, 3, 0, 0, 0, 2, 0, 0, 0, 2, 0, 2,
          0xfbad90117a86fab0, 0x1f75b2022, 0xfbad90108dddda92);
  }

  lemma MixKeyA()
    ensures Mix(0x8bb080d664fc0187) == 0xfbad90108dddda92
  {
    hide Mix, Xor;
    MixKeyAFirst();
    MixKeyASecond();
    MixKeyAThird();
    MixSteps(0x8bb080d664fc0187, 0x8bb080d44a3e02de, 0x387eb1e3f518a86e, 0x387eb1e4face9410, 0xfbad90117a86fab0, 0xfbad90108dddda92);
  }

  lemma ReleasePartA()
    ensures Xor(0xfbad90108dddda92, 0x5062b8415ed7150d) == 0xabcf2851d30acf9f
  {
    hide Xor;
    XorZero(0x0);
    Eight(0x0, 0x0, 0x0, 3, 3, 2, 3, 2, 2, 3, 1, 1, 1, 0, 0, 1, 2, 0, 2,
          0xfbad, 0x5062, 0xabcf);
    Eight(0xfbad, 0x5062, 0xabcf, 2, 1, 0, 0, 0, 1, 0, 0, 2, 3, 2, 0, 1, 0, 0, 1,
          0xfbad9010, 0x5062b841, 0xabcf2851);
    Eight(0xfbad9010, 0x5062b841, 0xabcf2851, 2, 0, 3, 1, 3, 1, 3, 1, 1, 1, 3, 2, 3, 1, 1, 3,
          0xfbad90108ddd, 0x5062b8415ed7, 0xabcf2851d30a);
    Eight(0xfbad90108ddd, 0x5062b8415ed7, 0xabcf2851d30a, 3, 1, 2, 2, 2, 1, 0, 2, 0, 1, 1, 1, 0, 0, 3, 1,
          0xfbad90108dddda92, 0x5062b8415ed7150d, 0xabcf2851d30acf9f);
  }

  lemma TraceA()
    ensures Trace(Mix(2), A) == 0xabcf2851d30acf9f
  {
    hide Mix, Xor;
    MixDomain();
    MixPartA();
    AbsorbPartA();
    MixKeyA();
    ReleasePartA();
  }

  lemma MixPartBFirst()
    ensures Xor(0x34b3f31f02a82ea9, 0xd2cfcc7c) == 0x34b3f31fd067e2d5
  {
    hide Xor;
    XorZero(0x34b3f31f);
    Eight(0x34b3f31f, 0x0, 0x34b3f31f, 0, 0, 0, 2, 2, 2, 2, 0, 3, 1, 0, 2, 3, 0, 3, 3,
          0x34b3f31f02a8, 0xd2cf, 0x34b3f31fd067);
    Eight(0x34b3f31f02a8, 0xd2cf, 0x34b3f31fd067, 0, 2, 3, 2, 2, 2, 2, 1, 3, 0, 3, 0, 1, 3, 3, 0,
          0x34b3f31f02a82ea9, 0xd2cfcc7c, 0x34b3f31fd067e2d5);
  }

  lemma MixPartBSecond()
    ensures Xor(0x8203c870daaf74ed, 0x1040790e1b) == 0x8203c8609ad67af6
  {
    hide Xor;
    XorZero(0x8203);
    Eight(0x8203, 0x0, 0x8203, 3, 0, 2, 0, 1, 3, 0, 0, 0, 0, 0, 0, 0, 1, 0, 0,
          0x8203c870, 0x10, 0x8203c860);
    Eight(0x8203c870, 0x10, 0x8203c860, 3, 1, 2, 2, 2, 2, 3, 3, 1, 0, 0, 0, 1, 3, 2, 1,
          0x8203c870daaf, 0x104079, 0x8203c8609ad6);
    Eight(0x8203c870daaf, 0x104079, 0x8203c8609ad6, 1, 3, 1, 0, 3, 2, 3, 1, 0, 0, 3, 2, 0, 1, 2, 3,
          0x8203c870daaf74ed, 0x1040790e1b, 0x8203c8609ad67af6);
  }

  lemma MixPartBThird()
    ensures Xor(0x835ee0d62c2335d2, 0x106bdc1ac) == 0x835ee0d72a9ef47e
  {
    hide Xor;
    XorZero(0x835e);
    Eight(0x835e, 0x0, 0x835e, 3, 2, 0, 0, 3, 1, 1, 2, 0, 0, 0, 0, 0, 0, 0, 1,
          0x835ee0d6, 0x1, 0x835ee0d7);
    Eight(0x835ee0d6, 0x1, 0x835ee0d7, 0, 2, 3, 0, 0, 2, 0, 3, 0, 0, 1, 2, 2, 3, 3, 1,
          0x835ee0d62c23, 0x106bd, 0x835ee0d72a9e);
    Eight(0x835ee0d62c23, 0x106bd, 0x835ee0d72a9e, 0, 3, 1, 1, 3, 1, 0, 2, 3, 0, 0, 1, 2, 2, 3, 0,
          0x835ee0d62c2335d2, 0x106bdc1ac, 0x835ee0d72a9ef47e);
  }

  lemma MixPartB()
    ensures Mix(0x34b3f31f02a82ea9) == 0x835ee0d72a9ef47e
  {
    hide Mix, Xor;
    MixPartBFirst();
    MixPartBSecond();
    MixPartBThird();
    MixSteps(0x34b3f31f02a82ea9, 0x34b3f31fd067e2d5, 0x8203c870daaf74ed, 0x8203c8609ad67af6, 0x835ee0d62c2335d2, 0x835ee0d72a9ef47e);
  }

  lemma AbsorbPartB()
    ensures Xor(0xdbd238973a2b148a, 0x835ee0d72a9ef47e) == 0x588cd84010b5e0f4
  {
    hide Xor;
    XorZero(0x0);
    Eight(0x0, 0x0, 0x0, 3, 1, 2, 3, 3, 1, 0, 2, 2, 0, 0, 3, 1, 1, 3, 2,
          0xdbd2, 0x835e, 0x588c);
    Eight(0xdbd2, 0x835e, 0x588c, 0, 3, 2, 0, 2, 1, 1, 3, 3, 2, 0, 0, 3, 1, 1, 3,
          0xdbd23897, 0x835ee0d7, 0x588cd840);
    Eight(0xdbd23897, 0x835ee0d7, 0x588cd840, 0, 3, 2, 2, 0, 2, 2, 3, 0, 2, 2, 2, 2, 1, 3, 2,
          0xdbd238973a2b, 0x835ee0d72a9e, 0x588cd84010b5);
    Eight(0xdbd238973a2b, 0x835ee0d72a9e, 0x588cd84010b5, 0, 1, 1, 0, 2, 0, 2, 2, 3, 3, 1, 0, 1, 3, 3, 2,
          0xdbd238973a2b148a, 0x835ee0d72a9ef47e, 0x588cd84010b5e0f4);
  }

  lemma MixKeyBFirst()
    ensures Xor(0x588cd84010b5e0f4, 0x162336100) == 0x588cd841728681f4
  {
    hide Xor;
    XorZero(0x588c);
    Eight(0x588c, 0x0, 0x588c, 3, 1, 2, 0, 1, 0, 0, 0, 0, 0, 0, 0, 0, 0, 0, 1,
          0x588cd840, 0x1, 0x588cd841);
    Eight(0x588cd840, 0x1, 0x588cd841, 0, 1, 0, 0, 2, 3, 1, 1, 1, 2, 0, 2, 0, 3, 0, 3,
          0x588cd84010b5, 0x16233, 0x588cd8417286);
    Eight(0x588cd84010b5, 0x16233, 0x588cd8417286, 3, 2, 0, 0, 3, 3, 1, 0, 1, 2, 0, 1, 0, 0, 0, 0,
          0x588cd84010b5e0f4, 0x162336100, 0x588cd841728681f4);
  }

  lemma MixKeyBSecond()
    ensures Xor(0x873b89a482c32d54, 0x10e7713490) == 0x873b89b465b219c4
  {
    hide Xor;
    XorZero(0x873b);
    Eight(0x873b, 0x0, 0x873b, 2, 0, 2, 1, 2, 2, 1, 0, 0, 0, 0, 0, 0, 1, 0, 0,
          0x873b89a4, 0x10, 0x873b89b4);
    Eight(0x873b89a4, 0x10, 0x873b89b4, 2, 0, 0, 2, 3, 0, 0, 3, 3, 2, 1, 3, 1, 3, 0, 1,
          0x873b89a482c3, 0x10e771, 0x873b89b465b2);
    Eight(0x873b89a482c3, 0x10e771, 0x873b89b465b2, 0, 2, 3, 1, 1, 1, 1, 0, 0, 3, 1, 0, 2, 1, 0, 0,
          0x873b89a482c32d54, 0x10e7713490, 0x873b89b465b219c4);
  }

  lemma MixKeyBThird()
    ensures Xor(0x2891c886a8b7aaec, 0x5123910d) == 0x2891c886f9943be1
  {
    hide Xor;
    XorZero(0x2891c886);
    Eight(0x2891c886, 0x0, 0x2891c886, 2, 2, 2, 0, 2, 3, 1, 3, 1, 1, 0, 1, 0, 2, 0, 3,
          0x2891c886a8b7, 0x5123, 0x2891c886f994);
    Eight(0x2891c886a8b7, 0x5123, 0x2891c886f994, 2, 2, 2, 2, 3, 2, 3, 0, 2, 1, 0, 1, 0, 0, 3, 1,
          0x2891c886a8b7aaec, 0x5123910d, 0x2891c886f9943be1);
  }

  lemma MixKeyB()
    ensures Mix(0x588cd84010b5e0f4) == 0x2891c886f9943be1
  {
    hide Mix, Xor;
    MixKeyBFirst();
    MixKeyBSecond();
    MixKeyBThird();
    MixSteps(0x588cd84010b5e0f4, 0x588cd841728681f4, 0x873b89a482c32d54, 0x873b89b465b219c4, 0x2891c886a8b7aaec, 0x2891c886f9943be1);
  }

  lemma ReleasePartB()
    ensures Xor(0x2891c886f9943be1, 0x835ee0d72a9ef47e) == 0xabcf2851d30acf9f
  {
    hide Xor;
    XorZero(0x0);
    Eight(0x0, 0x0, 0x0, 0, 2, 2, 0, 2, 1, 0, 1, 2, 0, 0, 3, 1, 1, 3, 2,
          0x2891, 0x835e, 0xabcf);
    Eight(0x2891, 0x835e, 0xabcf, 3, 0, 2, 0, 2, 0, 1, 2, 3, 2, 0, 0, 3, 1, 1, 3,
          0x2891c886, 0x835ee0d7, 0xabcf2851);
    Eight(0x2891c886, 0x835ee0d7, 0xabcf2851, 3, 3, 2, 1, 2, 1, 1, 0, 0, 2, 2, 2, 2, 1, 3, 2,
          0x2891c886f994, 0x835ee0d72a9e, 0xabcf2851d30a);
    Eight(0x2891c886f994, 0x835ee0d72a9e, 0xabcf2851d30a, 0, 3, 2, 3, 3, 2, 0, 1, 3, 3, 1, 0, 1, 3, 3, 2,
          0x2891c886f9943be1, 0x835ee0d72a9ef47e, 0xabcf2851d30acf9f);
  }

  lemma TraceB()
    ensures Trace(Mix(2), B) == 0xabcf2851d30acf9f
  {
    hide Mix, Xor;
    MixDomain();
    MixPartB();
    AbsorbPartB();
    MixKeyB();
    ReleasePartB();
  }

  /** Two positive 64-bit identifiers that share the key of a deployment lock in either order. */
  lemma ReorderedPartsCollide()
    ensures A != B && 0 < A < TWO_TO_63 && 0 < B < TWO_TO_63
    ensures LockKey(Deployment, [A, B]) == LockKey(Deployment, [B, A])
  {
    hide LockKey, Trace, Mix;
    TraceA();
    TraceB();
    ReorderedPartsShareExactly(Deployment, A, B);
  }

  // ---------------------------------------------------------------------------
  // The keys of the three domains
  // ---------------------------------------------------------------------------

  lemma MixAuditDomainSecond()
    ensures Xor(0xbf58476d1ce4e5b9, 0x17eb08eda3) == 0xbf58477af7ec081a
  {
    hide Xor;
    XorZero(0xbf58);
    Eight(0xbf58, 0x0, 0xbf58, 1, 0, 1, 3, 1, 2, 3, 1, 0, 0, 0, 0, 0, 1, 1, 3,
          0xbf58476d, 0x17, 0xbf58477a);
    Eight(0xbf58476d, 0x17, 0xbf58477a, 0, 1, 3, 0, 3, 2, 1, 0, 3, 2, 2, 3, 0, 0, 2, 0,
          0xbf58476d1ce4, 0x17eb08, 0xbf58477af7ec);
    Eight(0xbf58476d1ce4, 0x17eb08, 0xbf58477af7ec, 3, 2, 1, 1, 2, 3, 2, 1, 3, 2, 3, 1, 2, 2, 0, 3,
          0xbf58476d1ce4e5b9, 0x17eb08eda3, 0xbf58477af7ec081a);
  }

  lemma MixAuditDomainThird()
    ensures Xor(0x5692161dbd2f29de, 0xad242c3b) == 0x5692161d100b05e5
  {
    hide Xor;
    XorZero(0x5692161d);
    Eight(0x5692161d, 0x0, 0x5692161d, 2, 3, 3, 1, 0, 2, 3, 3, 2, 2, 3, 1, 0, 2, 1, 0,
          0x5692161dbd2f, 0xad24, 0x5692161d100b);
    Eight(0x5692161dbd2f, 0xad24, 0x5692161d100b, 0, 2, 2, 1, 3, 1, 3, 2, 0, 2, 3, 0, 0, 3, 2, 3,
          0x5692161dbd2f29de, 0xad242c3b, 0x5692161d100b05e5);
  }

  lemma MixAuditDomain()
    ensures Mix(0x1) == 0x5692161d100b05e5
  {
    hide Mix, Xor;
    XorZero(0x1);
    MixAuditDomainSecond();
    MixAuditDomainThird();
    MixSteps(0x1, 0x1, 0xbf58476d1ce4e5b9, 0xbf58477af7ec081a, 0x5692161dbd2f29de, 0x5692161d100b05e5);
  }

  lemma MixSeedDomainSecond()
    ensures Xor(0x3e08d64756aeb12b, 0x7c11ac8ea) == 0x3e08d64097b479c1
  {
    hide Xor;
    XorZero(0x3e08);
    Eight(0x3e08, 0x0, 0x3e08, 3, 1, 1, 2, 1, 0, 1, 3, 0, 0, 0, 0, 0, 0, 1, 3,
          0x3e08d647, 0x7, 0x3e08d640);
    Eight(0x3e08d647, 0x7, 0x3e08d640, 1, 1, 1, 2, 2, 2, 3, 2, 3, 0, 0, 1, 0, 1, 2, 2,
          0x3e08d64756ae, 0x7c11a, 0x3e08d64097b4);
    Eight(0x3e08d64756ae, 0x7c11a, 0x3e08d64097b4, 2, 3, 0, 1, 0, 2, 2, 3, 3, 0, 2, 0, 3, 2, 2, 2,
          0x3e08d64756aeb12b, 0x7c11ac8ea, 0x3e08d64097b479c1);
  }

  lemma MixSeedDomainThird()
    ensures Xor(0x1e535eeddfb2952b, 0x3ca6bddb) == 0x1e535eede31428f0
  {
    hide Xor;
    XorZero(0x1e535eed);
    Eight(0x1e535eed, 0x0, 0x1e535eed, 3, 1, 3, 3, 2, 3, 0, 2, 0, 3, 3, 0, 2, 2, 1, 2,
          0x1e535eeddfb2, 0x3ca6, 0x1e535eede314);
    Eight(0x1e535eeddfb2, 0x3ca6, 0x1e535eede314, 2, 1, 1, 1, 0, 2, 2, 3, 2, 3, 3, 1, 3, 1, 2, 3,
          0x1e535eeddfb2952b, 0x3ca6bddb, 0x1e535eede31428f0);
  }

  lemma MixSeedDomain()
    ensures Mix(0x3) == 0x1e535eede31428f0
  {
    hide Mix, Xor;
    XorZero(0x3);
    MixSeedDomainSecond();
    MixSeedDomainThird();
    MixSteps(0x3, 0x3, 0x3e08d64756aeb12b, 0x3e08d64097b479c1, 0x1e535eeddfb2952b, 0x1e535eede31428f0);
  }

  lemma NothingAbsorbed(domain: Domain)
    ensures LockKey(domain, []) == AsSigned(Mix(DomainNumber(domain)))
  {
    hide Mix;
  }

  /** The words from which the keys of the audit chain, of the deployments and of the seeding start */
  lemma KeysOfTheDomains()
    ensures LockKey(AuditChain, []) == 0x5692161d100b05e5
    ensures LockKey(Deployment, []) == -0x242dc768c5d4eb76
    ensures LockKey(Seeding, []) == 0x1e535eede31428f0
  {
    hide Mix, LockKey;
    MixAuditDomain();
    MixDomain();
    MixSeedDomain();
    NothingAbsorbed(AuditChain);
    NothingAbsorbed(Deployment);
    NothingAbsorbed(Seeding);
  }
}
