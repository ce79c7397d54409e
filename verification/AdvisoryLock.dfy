/**
 Keys of PostgreSQL advisory locks: a 64-bit mix of a domain and the identifiers that bound it.
 As in the source, words are unbounded integers kept below 2^64 by explicit masking.
 */
module AdvisoryLock {

  const TWO_TO_64: int := 0x1_0000_0000_0000_0000
  const TWO_TO_63: int := 0x8000_0000_0000_0000
  const FACTOR_1: nat := 0xbf58476d1ce4e5b9
  const FACTOR_2: nat := 0x94d049bb133111eb
  const INVERSE_1: nat := 0x96de1b173f119089
  const INVERSE_2: nat := 0x319642b2d24d8ec3

  type Word = n: nat | n < TWO_TO_64

  datatype Domain = AuditChain | Deployment | Seeding

  function DomainNumber(d: Domain): int {
    match d
    case AuditChain => 1
    case Deployment => 2
    case Seeding => 3
  }

  /** `value & MASK_64`: the residue, also of a negative value. */
  function Masked(value: int): Word {
    value % TWO_TO_64
  }

  /** `a ^ b` */
  function Xor(a: nat, b: nat): nat
    decreases a + b
  {
    if a == 0 then b else if b == 0 then a else 2 * Xor(a / 2, b / 2) + (a % 2 + b % 2) % 2
  }

  /** `a >> s` */
  function Shr(a: nat, s: nat): (r: nat)
    ensures r <= a
    ensures s > 0 && a > 0 ==> r < a
  {
    if s == 0 then a else Shr(a / 2, s - 1)
  }

  function XorShift(a: Word, s: nat): Word {
    ShrBelow(a, s);
    XorBelow(a, Shr(a, s), 64);
    Xor(a, Shr(a, s))
  }

  function Times(a: Word, factor: nat): Word {
    (a * factor) % TWO_TO_64
  }

  /** splitmix64's finalizer */
  function Mix(value: int): Word {
    XorShift(Times(XorShift(Times(XorShift(Masked(value), 30), FACTOR_1), 27), FACTOR_2), 31)
  }

  /** `BigInt.asIntN(64, key)` */
  function AsSigned(key: Word): int {
    if key >= TWO_TO_63 then key - TWO_TO_64 else key
  }

  function XorWords(a: Word, b: Word): Word {
    XorBelow(a, b, 64);
    Xor(a, b)
  }

  function AbsorbAll(key: Word, parts: seq<int>): Word {
    if parts == [] then key
    else Mix(XorWords(AbsorbAll(key, parts[..|parts| - 1]), Mix(parts[|parts| - 1])))
  }

  function LockKey(domain: Domain, parts: seq<int>): int {
    AsSigned(AbsorbAll(Mix(DomainNumber(domain)), parts))
  }

  /** `advisoryLockKey` */
  method AdvisoryLockKey(domain: Domain, parts: seq<int>) returns (lockKey: int)
    ensures lockKey == LockKey(domain, parts)
    ensures -TWO_TO_63 <= lockKey < TWO_TO_63
  {
    hide Mix, Xor;
    var key := Mix(DomainNumber(domain));
    for i := 0 to |parts|
      invariant key == AbsorbAll(Mix(DomainNumber(domain)), parts[..i])
    {
      assert parts[..i + 1][..i] == parts[..i];
      key := Mix(XorWords(key, Mix(parts[i])));
    }
    assert parts[..|parts|] == parts;
    lockKey := AsSigned(key);
  }

  // ---------------------------------------------------------------------------
  // Exclusive or and shifts on naturals
  // ---------------------------------------------------------------------------

  function Pow2(k: nat): nat {
    if k == 0 then 1 else 2 * Pow2(k - 1)
  }

  lemma {:induction false} XorBounded(a: nat, b: nat, k: nat)
    requires a < Pow2(k) && b < Pow2(k)
    ensures Xor(a, b) < Pow2(k)
    decreases k
  {
    if a != 0 && b != 0 {
      XorBounded(a / 2, b / 2, k - 1);
    }
  }

  lemma PowerOfWord()
    ensures Pow2(64) == TWO_TO_64
  {
    assert Pow2(8) == 256;
    assert Pow2(16) == 65536;
    assert Pow2(24) == 0x100_0000;
    assert Pow2(32) == 0x1_0000_0000;
    assert Pow2(40) == 0x100_0000_0000;
    assert Pow2(48) == 0x1_0000_0000_0000;
    assert Pow2(56) == 0x100_0000_0000_0000;
  }

  lemma XorBelow(a: nat, b: nat, k: nat)
    requires a < TWO_TO_64 && b < TWO_TO_64 && k == 64
    ensures Xor(a, b) < TWO_TO_64
  {
    PowerOfWord();
    XorBounded(a, b, k);
  }

  lemma ShrBelow(a: Word, s: nat)
    ensures Shr(a, s) < TWO_TO_64
  {
  }

  lemma XorHalves(a: nat, b: nat)
    ensures Xor(a, b) / 2 == Xor(a / 2, b / 2)
    ensures Xor(a, b) % 2 == (a % 2 + b % 2) % 2
  {
  }

  lemma {:induction false} XorSelf(a: nat)
    ensures Xor(a, a) == 0
  {
    if a != 0 {
      XorSelf(a / 2);
    }
  }

  lemma {:induction false} XorCommutes(a: nat, b: nat)
    ensures Xor(a, b) == Xor(b, a)
    decreases a + b
  {
    if a != 0 && b != 0 {
      XorCommutes(a / 2, b / 2);
    }
  }

  lemma BitUndone(a: nat, b: nat)
    requires a < 2 && b < 2
    ensures ((a + b) % 2 + b) % 2 == a
  {
  }

  lemma {:induction false} XorUndone(a: nat, b: nat)
    ensures Xor(Xor(a, b), b) == a
    decreases a + b
  {
    if a == 0 {
      XorSelf(b);
    } else if b != 0 {
      XorUndone(a / 2, b / 2);
      HalvesUndone(a, b);
    }
  }

  lemma HalvesUndone(a: nat, b: nat)
    requires Xor(Xor(a / 2, b / 2), b / 2) == a / 2
    ensures Xor(Xor(a, b), b) == a
  {
    hide Xor;
    XorHalves(a, b);
    XorHalves(Xor(a, b), b);
    BitUndone(a % 2, b % 2);
    HalvesDecide(Xor(Xor(a, b), b), a);
  }

  /** Exclusive or with the same operand is undone by itself, on either side. */
  lemma XorTwice(a: nat, b: nat)
    ensures Xor(a, a) == 0
    ensures Xor(Xor(a, b), b) == a
    ensures Xor(b, Xor(b, a)) == a
  {
    XorSelf(a);
    XorUndone(a, b);
    XorCommutes(a, b);
    XorCommutes(b, Xor(b, a));
  }

  lemma {:induction false} ShrOfXor(a: nat, b: nat, s: nat)
    ensures Shr(Xor(a, b), s) == Xor(Shr(a, s), Shr(b, s))
    decreases s
  {
    if s > 0 {
      XorHalves(a, b);
      ShrOfXor(a / 2, b / 2, s - 1);
    }
  }

  lemma XorSeparates(a: nat, b: nat, c: nat)
    ensures Xor(a, c) == Xor(b, c) <==> a == b
    ensures Xor(c, a) == Xor(c, b) <==> a == b
  {
    XorTwice(a, c);
    XorTwice(b, c);
  }

  // ---------------------------------------------------------------------------
  // Mixing is a bijection on 64-bit words
  // ---------------------------------------------------------------------------

  /** The word whose xor-shift by s is y: its high part comes from the high part of y. */
  function UndoShift(y: nat, s: nat): nat
    requires s > 0
  {
    if y == 0 then 0 else Xor(y, UndoShift(Shr(y, s), s))
  }

  lemma {:induction false} ShrOfUndoShift(y: nat, s: nat)
    requires s > 0
    ensures Shr(UndoShift(y, s), s) == UndoShift(Shr(y, s), s)
    ensures Xor(UndoShift(y, s), Shr(UndoShift(y, s), s)) == y
  {
    if y == 0 {
      ShrOfZero(s);
    } else {
      var h := UndoShift(Shr(y, s), s);
      ShrOfUndoShift(Shr(y, s), s);
      ShrOfXor(y, h, s);
      XorTwice(Shr(y, s), Shr(h, s));
      XorTwice(h, Shr(h, s));
      XorTwice(y, h);
    }
  }

  lemma {:induction false} ShrOfZero(s: nat)
    ensures Shr(0, s) == 0
  {
    if s > 0 {
      ShrOfZero(s - 1);
    }
  }

  lemma {:induction false} UndoShiftOfXorShift(x: nat, s: nat)
    requires s > 0
    ensures UndoShift(Xor(x, Shr(x, s)), s) == x
    decreases x
  {
    ShrOfZero(s);
    if x != 0 {
      var y := Xor(x, Shr(x, s));
      UndoShiftOfXorShift(Shr(x, s), s);
      ShrOfXor(x, Shr(x, s), s);
      XorTwice(x, Shr(x, s));
      assert y == 0 ==> Shr(x, s) == x;
    }
  }

  lemma {:induction false} UndoShiftBelow(y: nat, s: nat)
    requires s > 0 && y < TWO_TO_64
    ensures UndoShift(y, s) < TWO_TO_64
  {
    if y != 0 {
      UndoShiftBelow(Shr(y, s), s);
      XorBelow(y, UndoShift(Shr(y, s), s), 64);
    }
  }

  /** An xor-shift is a bijection on words. */
  lemma XorShiftBijective(x: Word, s: nat)
    requires s > 0
    ensures UndoShift(x, s) < TWO_TO_64
    ensures UndoShift(XorShift(x, s), s) == x
    ensures XorShift(UndoShift(x, s), s) == x
  {
    UndoShiftOfXorShift(x, s);
    UndoShiftBelow(x, s);
    ShrOfUndoShift(x, s);
  }

  lemma UniqueResidue(n: int, r: Word, q: int)
    requires n == q * TWO_TO_64 + r
    ensures n % TWO_TO_64 == r
  {
  }

  /** Multiplying by an odd constant is undone by multiplying by its inverse modulo 2^64. */
  lemma TimesBijective(x: Word)
    ensures Times(Times(x, FACTOR_1), INVERSE_1) == x && Times(Times(x, INVERSE_1), FACTOR_1) == x
    ensures Times(Times(x, FACTOR_2), INVERSE_2) == x && Times(Times(x, INVERSE_2), FACTOR_2) == x
  {
    var t1, t2 := FACTOR_1 * INVERSE_1 / TWO_TO_64, FACTOR_2 * INVERSE_2 / TWO_TO_64;
    assert FACTOR_1 * INVERSE_1 == 1 + t1 * TWO_TO_64 && FACTOR_2 * INVERSE_2 == 1 + t2 * TWO_TO_64;
    var a, b := x * FACTOR_1 / TWO_TO_64, x * INVERSE_1 / TWO_TO_64;
    UniqueResidue(Times(x, FACTOR_1) * INVERSE_1, x, x * t1 - a * INVERSE_1);
    UniqueResidue(Times(x, INVERSE_1) * FACTOR_1, x, x * t1 - b * FACTOR_1);
    var c, d := x * FACTOR_2 / TWO_TO_64, x * INVERSE_2 / TWO_TO_64;
    UniqueResidue(Times(x, FACTOR_2) * INVERSE_2, x, x * t2 - c * INVERSE_2);
    UniqueResidue(Times(x, INVERSE_2) * FACTOR_2, x, x * t2 - d * FACTOR_2);
  }

  /** The word that mixes to the given one. */
  function Unmix(word: Word): Word {
    XorShiftBijective(word, 31);
    var z: Word := UndoShift(word, 31);
    XorShiftBijective(Times(z, INVERSE_2), 27);
    var y: Word := UndoShift(Times(z, INVERSE_2), 27);
    XorShiftBijective(Times(y, INVERSE_1), 30);
    UndoShift(Times(y, INVERSE_1), 30)
  }

  /** `Mix` is a bijection on 64-bit words. */
  lemma MixBijective(word: Word)
    ensures Unmix(Mix(word)) == word
    ensures Mix(Unmix(word)) == word
  {
    UnmixOfMix(word);
    MixOfUnmix(word);
  }

  lemma UnmixOfMix(word: Word)
    ensures Unmix(Mix(word)) == word
  {
    hide XorShift, Times, UndoShift;
    var a := XorShift(word, 30);
    var y := Times(a, FACTOR_1);
    var b := XorShift(y, 27);
    var z := Times(b, FACTOR_2);
    XorShiftBijective(z, 31);
    TimesBijective(b);
    XorShiftBijective(y, 27);
    TimesBijective(a);
    XorShiftBijective(word, 30);
  }

  lemma MixOfUnmix(word: Word)
    ensures Mix(Unmix(word)) == word
  {
    hide XorShift, Times, UndoShift;
    XorShiftBijective(word, 31);
    var z: Word := UndoShift(word, 31);
    TimesBijective(z);
    XorShiftBijective(Times(z, INVERSE_2), 27);
    var y: Word := UndoShift(Times(z, INVERSE_2), 27);
    TimesBijective(y);
    XorShiftBijective(Times(y, INVERSE_1), 30);
  }

  lemma MixIgnoresHighBits(a: int)
    ensures Mix(a) == Mix(Masked(a))
  {
    hide XorShift, Times;
  }

  /** Two integers mix alike exactly when they agree modulo 2^64. */
  lemma MixSeparates(a: int, b: int)
    ensures Mix(a) == Mix(b) <==> a % TWO_TO_64 == b % TWO_TO_64
  {
    hide Mix;
    MixIgnoresHighBits(a);
    MixIgnoresHighBits(b);
    UnmixOfMix(Masked(a));
    UnmixOfMix(Masked(b));
  }

  // ---------------------------------------------------------------------------
  // Lock keys
  // ---------------------------------------------------------------------------

  lemma WordsAreResidues(a: Word, b: Word)
    ensures a % TWO_TO_64 == a
    ensures Mix(a) == Mix(b) <==> a == b
  {
    hide Mix;
    MixSeparates(a, b);
  }

  lemma AbsorbSeparates(k: Word, l: Word, p: int, q: int)
    ensures Mix(XorWords(k, Mix(p))) == Mix(XorWords(l, Mix(p))) <==> k == l
    ensures Mix(XorWords(k, Mix(p))) == Mix(XorWords(k, Mix(q))) <==> p % TWO_TO_64 == q % TWO_TO_64
  {
    hide Mix, Xor;
    WordsAreResidues(XorWords(k, Mix(p)), XorWords(l, Mix(p)));
    WordsAreResidues(XorWords(k, Mix(p)), XorWords(k, Mix(q)));
    XorSeparates(k, l, Mix(p));
    XorSeparates(Mix(p), Mix(q), k);
    MixSeparates(p, q);
  }

  lemma {:induction false} AbsorbAllSeparatesKeys(k: Word, l: Word, parts: seq<int>)
    ensures AbsorbAll(k, parts) == AbsorbAll(l, parts) <==> k == l
  {
    if parts != [] {
      var n := |parts| - 1;
      AbsorbAllSeparatesKeys(k, l, parts[..n]);
      AbsorbSeparates(AbsorbAll(k, parts[..n]), AbsorbAll(l, parts[..n]), parts[n], parts[n]);
    }
  }

  /** The same identifiers under two domains never share a key. */
  lemma DomainsNeverShareKeys(d: Domain, e: Domain, parts: seq<int>)
    ensures LockKey(d, parts) == LockKey(e, parts) <==> d == e
  {
    hide Mix;
    MixSeparates(DomainNumber(d), DomainNumber(e));
    AbsorbAllSeparatesKeys(Mix(DomainNumber(d)), Mix(DomainNumber(e)), parts);
  }

  lemma {:induction false} OnePartDecides(key: Word, parts: seq<int>, i: nat, part: int)
    requires i < |parts|
    ensures AbsorbAll(key, parts[i := part]) == AbsorbAll(key, parts) <==> part % TWO_TO_64 == parts[i] % TWO_TO_64
    decreases |parts|
  {
    hide Mix, XorWords, Masked;
    var n := |parts| - 1;
    var changed := parts[i := part];
    if i < n {
      assert changed[..n] == parts[..n][i := part];
      OnePartDecides(key, parts[..n], i, part);
      AbsorbSeparates(AbsorbAll(key, parts[..n]), AbsorbAll(key, changed[..n]), parts[n], parts[n]);
    } else {
      assert changed[..n] == parts[..n];
      AbsorbSeparates(AbsorbAll(key, parts[..n]), 0, parts[n], part);
    }
  }

  /** Changing exactly one identifier changes the key, unless the two agree modulo 2^64. */
  lemma OnePartDecidesKey(d: Domain, parts: seq<int>, i: nat, part: int)
    requires i < |parts|
    ensures LockKey(d, parts[i := part]) == LockKey(d, parts) <==> part % TWO_TO_64 == parts[i] % TWO_TO_64
  {
    OnePartDecides(Mix(DomainNumber(d)), parts, i, part);
  }

  /** Database identifiers are signed 64-bit, so a one-part key belongs to one identifier. */
  lemma DatabaseIdsNeverShareKeys(d: Domain, a: int, b: int)
    requires -TWO_TO_63 <= a < TWO_TO_63 && -TWO_TO_63 <= b < TWO_TO_63
    ensures LockKey(d, [a]) == LockKey(d, [b]) <==> a == b
  {
    hide LockKey;
    OnePartDecidesKey(d, [a], 0, b);
    assert [a][0 := b] == [b];
  }

  // ---------------------------------------------------------------------------
  // Reordered identifiers
  // ---------------------------------------------------------------------------

  lemma XorZero(a: nat)
    ensures Xor(a, 0) == a && Xor(0, a) == a
  {
  }

  lemma BitsAssociate(a: nat, b: nat, c: nat)
    requires a < 2 && b < 2 && c < 2
    ensures ((a + b) % 2 + c) % 2 == (a + (b + c) % 2) % 2
  {
  }

  lemma {:induction false} XorAssociates(a: nat, b: nat, c: nat)
    ensures Xor(Xor(a, b), c) == Xor(a, Xor(b, c))
    decreases a + b + c
  {
    hide Xor;
    if a == 0 || b == 0 || c == 0 {
      XorZero(a);
      XorZero(b);
      XorZero(c);
      XorZero(Xor(a, b));
      XorZero(Xor(b, c));
    } else {
      XorAssociates(a / 2, b / 2, c / 2);
      XorHalves(a, b);
      XorHalves(b, c);
      XorHalves(Xor(a, b), c);
      XorHalves(a, Xor(b, c));
      BitsAssociate(a % 2, b % 2, c % 2);
      HalvesDecide(Xor(Xor(a, b), c), Xor(a, Xor(b, c)));
    }
  }

  lemma HalvesDecide(a: nat, b: nat)
    requires a / 2 == b / 2 && a % 2 == b % 2
    ensures a == b
  {
  }

  /** Moving one operand across an equation */
  lemma XorMoves(x: nat, b: nat, y: nat, a: nat)
    ensures Xor(x, b) == Xor(y, a) ==> Xor(x, a) == Xor(y, b)
  {
    hide Xor;
    if Xor(x, b) == Xor(y, a) {
      XorUndone(x, b);
      XorAssociates(Xor(y, a), b, a);
      XorAssociates(y, a, Xor(b, a));
      XorCommutes(b, a);
      XorTwice(b, a);
    }
  }

  /** What one identifier leaves of the key when it is both absorbed and taken out again. */
  function Trace(key: Word, part: int): Word {
    XorWords(Mix(XorWords(key, Mix(part))), Mix(part))
  }

  /** Two identifiers in either order share a key exactly when they leave the same trace on the domain's key. */
  lemma ReorderedPartsShareExactly(d: Domain, a: int, b: int)
    ensures LockKey(d, [a, b]) == LockKey(d, [b, a]) <==> Trace(Mix(DomainNumber(d)), a) == Trace(Mix(DomainNumber(d)), b)
  {
    hide Mix, Xor, XorWords;
    var k := Mix(DomainNumber(d));
    var x, y := Mix(XorWords(k, Mix(a))), Mix(XorWords(k, Mix(b)));
    AbsorbTwo(k, a, b);
    AbsorbTwo(k, b, a);
    MixSeparates(XorWords(x, Mix(b)), XorWords(y, Mix(a)));
    WordsAreResidues(XorWords(x, Mix(b)), XorWords(y, Mix(a)));
    XorWordsMove(x, Mix(b), y, Mix(a));
    XorWordsMove(x, Mix(a), y, Mix(b));
  }

  lemma AbsorbTwo(key: Word, a: int, b: int)
    ensures AbsorbAll(key, [a, b]) == Mix(XorWords(Mix(XorWords(key, Mix(a))), Mix(b)))
  {
    hide Mix, XorWords;
    var both, one: seq<int> := [a, b], [a];
    assert both[..|both| - 1] == one && one[..|one| - 1] == [];
    assert AbsorbAll(key, []) == key;
    assert AbsorbAll(key, one) == Mix(XorWords(key, Mix(a)));
  }

  lemma XorWordsMove(x: Word, b: Word, y: Word, a: Word)
    ensures XorWords(x, b) == XorWords(y, a) ==> XorWords(x, a) == XorWords(y, b)
  {
    XorMoves(x, b, y, a);
  }

  // ---------------------------------------------------------------------------
  // Keys of other domains
  // ---------------------------------------------------------------------------

  /** The one residue whose key in a domain is the given word */
  function PartFor(domain: Domain, key: Word): Word {
    Unmix(XorWords(Unmix(key), Mix(DomainNumber(domain))))
  }

  /** Whatever the parts are, in any domain: exactly one residue alone has their key in another domain. */
  lemma OnePartMeetsEveryKey(d: Domain, parts: seq<int>, e: Domain, part: int)
    ensures LockKey(e, [part]) == LockKey(d, parts)
       <==> Masked(part) == PartFor(e, AbsorbAll(Mix(DomainNumber(d)), parts))
  {
    hide Mix, Xor, XorWords, Unmix;
    var k, l := AbsorbAll(Mix(DomainNumber(d)), parts), Mix(DomainNumber(e));
    AbsorbOne(l, part);
    SignedSeparates(Mix(XorWords(l, Mix(part))), k);
    MeetsExactly(l, part, k);
  }

  lemma AbsorbOne(key: Word, part: int)
    ensures AbsorbAll(key, [part]) == Mix(XorWords(key, Mix(part)))
  {
    hide Mix, XorWords;
    var one: seq<int> := [part];
    assert one[..|one| - 1] == [];
    assert AbsorbAll(key, []) == key;
  }

  lemma SignedSeparates(a: Word, b: Word)
    ensures AsSigned(a) == AsSigned(b) <==> a == b
  {
  }

  lemma MeetsExactly(l: Word, part: int, k: Word)
    ensures Mix(XorWords(l, Mix(part))) == k <==> Masked(part) == Unmix(XorWords(Unmix(k), l))
  {
    hide Mix, Xor, Unmix;
    var p := Masked(part);
    MixIgnoresHighBits(part);
    UnmixOfMix(p);
    MixOfUnmix(k);
    UnmixOfMix(XorWords(l, Mix(p)));
    XorTwice(Unmix(k), l);
    XorTwice(Mix(p), l);
    XorCommutes(l, Mix(p));
    MixOfUnmix(XorWords(Unmix(k), l));
    XorCommutes(l, XorWords(Unmix(k), l));
  }
}
