/**
 * The register of the CRC is the remainder of a polynomial division over GF(2). A word is read as a
 * polynomial of degree below 32 whose coefficient of X^31 is its lowest bit; a polynomial is known by its
 * coefficients, and adding two of them is exclusive or coefficient by coefficient.
 */
module Crc32Polynomial {
  import opened Crc32
  import opened Crc32Theorems

  ghost function Halves(r: bv32, k: nat): bv32
    decreases k
  {
    if k == 0 then r else Halves(Half(r), k - 1)
  }

  ghost predicate Bit(r: bv32, j: nat) {
    Odd(Halves(r, j))
  }

  /** The coefficient of X^i in the polynomial of a word. */
  ghost predicate Coefficient(r: bv32, i: nat) {
    i < 32 && Bit(r, 31 - i)
  }

  /** The generator: its 32 low coefficients are the constant of the code. */
  ghost predicate Generator(i: nat) {
    i == 32 || Coefficient(POLYNOMIAL, i)
  }

  /** The coefficient of X^i in q * Generator, where q[k] is the coefficient of X^k. */
  ghost predicate Product(q: seq<bool>, i: nat)
    decreases |q|
  {
    q != [] && ((q[0] && Generator(i)) != (i > 0 && Product(q[1..], i - 1)))
  }

  /** The coefficient of X^i in c * X^n + M * X^32, for a message M of n bits, the first bit highest. */
  ghost predicate Dividend(c: bv32, bits: seq<bool>, i: nat) {
    var n := |bits|;
    (i >= n && Coefficient(c, i - n)) != (32 <= i < 32 + n && bits[n - 1 - (i - 32)])
  }

  /** r is what remains of the dividend after taking q times the generator away. */
  ghost predicate Divides(c: bv32, bits: seq<bool>, q: seq<bool>, r: bv32) {
    forall i: nat :: Dividend(c, bits, i) == (Product(q, i) != Coefficient(r, i))
  }

  // ---------------------------------------------------------------------------
  // Words and their bits
  // ---------------------------------------------------------------------------

  lemma EightHalves(r: bv32, k: nat)
    requires k >= 8
    ensures Halves(r, k) == Halves(r >> 8, k - 8)
  {
    assert Half(r) == r >> 1 && Half(r >> 1) == r >> 2 && Half(r >> 2) == r >> 3 && Half(r >> 3) == r >> 4;
    assert Half(r >> 4) == r >> 5 && Half(r >> 5) == r >> 6 && Half(r >> 6) == r >> 7 && Half(r >> 7) == r >> 8;
    hide Half;
    assert Halves(r, k) == Halves(r >> 1, k - 1) == Halves(r >> 2, k - 2) == Halves(r >> 3, k - 3);
    assert Halves(r >> 3, k - 3) == Halves(r >> 4, k - 4) == Halves(r >> 5, k - 5) == Halves(r >> 6, k - 6);
    assert Halves(r >> 6, k - 6) == Halves(r >> 7, k - 7) == Halves(r >> 8, k - 8);
  }

  lemma NothingAbove(r: bv32)
    ensures Halves(r, 32) == 0
  {
    assert r >> 8 >> 8 >> 8 >> 8 == 0;
    hide Half;
    EightHalves(r, 32);
    EightHalves(r >> 8, 24);
    EightHalves(r >> 8 >> 8, 16);
    EightHalves(r >> 8 >> 8 >> 8, 8);
  }

  lemma {:induction false} HalvesXor(a: bv32, b: bv32, k: nat)
    ensures Halves(Xor(a, b), k) == Xor(Halves(a, k), Halves(b, k))
    decreases k
  {
    hide Xor, Half;
    if k > 0 {
      HalfXor(a, b);
      HalvesXor(Half(a), Half(b), k - 1);
    }
  }

  lemma CoefficientXor(a: bv32, b: bv32, i: nat)
    ensures Coefficient(Xor(a, b), i) == (Coefficient(a, i) != Coefficient(b, i))
  {
    hide Xor, Half, Odd, Halves;
    if i < 32 {
      HalvesXor(a, b, 31 - i);
      OddXor(Halves(a, 31 - i), Halves(b, 31 - i));
    }
  }

  /** Shifting right multiplies by X, short of the term X^32. */
  lemma CoefficientHalf(r: bv32, i: nat)
    requires i < 32
    ensures Coefficient(Half(r), i) == (i > 0 && Coefficient(r, i - 1))
  {
    assert !Odd(0);
    hide Half, Odd;
    if i == 0 {
      NothingAbove(r);
    }
  }

  lemma CoefficientOne(b: bool, i: nat)
    ensures Coefficient(One(b), i) == (b && i == 31)
  {
    assert Odd(One(b)) == b && Half(One(b)) == 0 && !Odd(0) && Half(0) == 0;
    hide Half, Odd, One;
    if i < 31 {
      ZeroHalves(30 - i);
    }
  }

  lemma {:induction false} ZeroHalves(k: nat)
    ensures Halves(0, k) == 0
  {
    assert Half(0) == 0;
    hide Half;
    if k > 0 {
      ZeroHalves(k - 1);
    }
  }

  lemma HalfZero(r: bv32)
    requires Half(r) == 0 && !Odd(r)
    ensures r == 0
  {
  }

  lemma {:induction false} NoBitsNoWord(r: bv32, k: nat)
    requires Halves(r, k) == 0
    requires forall j: nat | j < k :: !Bit(r, j)
    ensures r == 0
    decreases k
  {
    hide Half, Odd;
    if k > 0 {
      assert !Bit(r, 0);
      forall j: nat | j < k - 1
        ensures !Bit(Half(r), j)
      {
        assert Bit(Half(r), j) == Bit(r, j + 1);
      }
      NoBitsNoWord(Half(r), k - 1);
      HalfZero(r);
    }
  }

  lemma XorEqual(a: bv32, b: bv32)
    requires Xor(a, b) == 0
    ensures a == b
  {
  }

  lemma CoefficientsDetermine(a: bv32, b: bv32)
    requires forall i: nat | i < 32 :: Coefficient(a, i) == Coefficient(b, i)
    ensures a == b
  {
    hide Xor, Half, Odd, Halves;
    var d := Xor(a, b);
    forall j: nat | j < 32
      ensures !Bit(d, j)
    {
      CoefficientXor(a, b, 31 - j);
    }
    NothingAbove(d);
    NoBitsNoWord(d, 32);
    XorEqual(a, b);
  }

  // ---------------------------------------------------------------------------
  // One bit is one step of long division
  // ---------------------------------------------------------------------------

  /** X * r + b * X^32, less the generator when its degree reaches 32. */
  lemma FeedDivides(r: bv32, b: bool, i: nat)
    ensures var taken := Odd(r) != b;
            (Coefficient(Feed(r, b), i) != (taken && Generator(i)))
            == ((i > 0 && Coefficient(r, i - 1)) != (b && i == 32))
  {
    var s := Xor(r, One(b));
    assert Odd(One(b)) == b;
    OddXor(r, One(b));
    hide Xor, Half, Odd, One, Halves;
    assert Odd(r) == Coefficient(r, 31);
    if i < 32 {
      CoefficientHalf(s, i);
      CoefficientXor(Half(s), POLYNOMIAL, i);
      if i > 0 {
        CoefficientXor(r, One(b), i - 1);
        CoefficientOne(b, i - 1);
      }
    }
  }

  /** The quotient grows by one low coefficient with every bit. */
  ghost function Quotient(c: bv32, bits: seq<bool>): seq<bool>
    decreases |bits|
  {
    if bits == [] then []
    else
      var front, b := bits[..|bits| - 1], bits[|bits| - 1];
      [Odd(FeedAll(c, front)) != b] + Quotient(c, front)
  }

  lemma DividendStep(c: bv32, bits: seq<bool>, b: bool, i: nat)
    ensures Dividend(c, bits + [b], i) == ((i > 0 && Dividend(c, bits, i - 1)) != (b && i == 32))
  {
    hide Coefficient;
  }

  lemma {:induction false} RegisterIsRemainder(c: bv32, bits: seq<bool>)
    ensures Divides(c, bits, Quotient(c, bits), FeedAll(c, bits))
    decreases |bits|
  {
    hide Coefficient, Generator, Feed, Odd;
    if bits != [] {
      var front, b := bits[..|bits| - 1], bits[|bits| - 1];
      assert bits == front + [b];
      RegisterIsRemainder(c, front);
      FeedAllAppend(c, front, [b]);
      var r := FeedAll(c, front);
      assert FeedAll(r, [b]) == Feed(r, b);
      forall i: nat
        ensures Dividend(c, bits, i) == (Product(Quotient(c, bits), i) != Coefficient(Feed(r, b), i))
      {
        DividendStep(c, front, b, i);
        FeedDivides(r, b, i);
        assert Quotient(c, bits)[1..] == Quotient(c, front);
      }
    }
  }

  // ---------------------------------------------------------------------------
  // There is only one remainder
  // ---------------------------------------------------------------------------

  lemma {:induction false} ProductLast(q: seq<bool>, b: bool, i: nat)
    ensures Product(q + [b], i) == (Product(q, i) != (b && i >= |q| && Generator(i - |q|)))
    decreases |q|
  {
    hide Generator;
    if q == [] {
      assert (q + [b])[1..] == [];
    } else {
      assert (q + [b])[1..] == q[1..] + [b];
      if i > 0 {
        ProductLast(q[1..], b, i - 1);
      }
    }
  }

  lemma {:induction false} ProductDegree(q: seq<bool>, i: nat)
    requires i >= |q| + 32
    ensures !Product(q, i)
    decreases |q|
  {
    hide Coefficient;
    if q != [] {
      assert !Coefficient(POLYNOMIAL, i) by { CoefficientDegree(POLYNOMIAL, i); }
      ProductDegree(q[1..], i - 1);
    }
  }

  lemma CoefficientDegree(r: bv32, i: nat)
    requires i >= 32
    ensures !Coefficient(r, i)
  {
  }

  /** Multiples of the generator that agree from X^32 upward are equal. */
  lemma {:induction false} HighPartDetermines(p: seq<bool>, q: seq<bool>)
    requires |p| == |q|
    requires forall i: nat | i >= 32 :: Product(p, i) == Product(q, i)
    ensures p == q
    decreases |p|
  {
    hide Coefficient, Product;
    if p != [] {
      var n := |p| - 1;
      var p', q' := p[..n], q[..n];
      assert p == p' + [p[n]] && q == q' + [q[n]];
      ProductLast(p', p[n], n + 32);
      ProductLast(q', q[n], n + 32);
      ProductDegree(p', n + 32);
      ProductDegree(q', n + 32);
      forall i: nat | i >= 32
        ensures Product(p', i) == Product(q', i)
      {
        ProductLast(p', p[n], i);
        ProductLast(q', q[n], i);
      }
      HighPartDetermines(p', q');
    }
  }

  ghost function Zeros(n: nat): (z: seq<bool>)
    ensures |z| == n
  {
    if n == 0 then [] else Zeros(n - 1) + [false]
  }

  lemma {:induction false} ProductPadded(q: seq<bool>, n: nat, i: nat)
    ensures Product(q + Zeros(n), i) == Product(q, i)
  {
    hide Generator, Product;
    if n == 0 {
      assert q + Zeros(0) == q;
    } else {
      assert q + Zeros(n) == q + Zeros(n - 1) + [false];
      ProductLast(q + Zeros(n - 1), false, i);
      ProductPadded(q, n - 1, i);
    }
  }

  lemma RemainderUnique(c: bv32, bits: seq<bool>, p: seq<bool>, r: bv32, q: seq<bool>, s: bv32)
    requires Divides(c, bits, p, r) && Divides(c, bits, q, s)
    ensures r == s
  {
    hide Coefficient, Product, Dividend;
    var p', q' := p + Zeros(|q|), q + Zeros(|p|);
    forall i: nat
      ensures Product(p', i) == Product(p, i) && Product(q', i) == Product(q, i)
    {
      ProductPadded(p, |q|, i);
      ProductPadded(q, |p|, i);
    }
    forall i: nat | i >= 32
      ensures Product(p', i) == Product(q', i)
    {
      CoefficientDegree(r, i);
      CoefficientDegree(s, i);
      assert Dividend(c, bits, i) == Dividend(c, bits, i);
    }
    HighPartDetermines(p', q');
    forall i: nat | i < 32
      ensures Coefficient(r, i) == Coefficient(s, i)
    {
      assert Product(p, i) == Product(q, i);
    }
    CoefficientsDetermine(r, s);
  }

  /** r is a remainder of c * X^n + M * X^32 modulo the generator. */
  ghost predicate IsRemainder(c: bv32, bits: seq<bool>, r: bv32) {
    exists q :: Divides(c, bits, q, r)
  }

  lemma RemainderIsRegister(c: bv32, bits: seq<bool>, r: bv32)
    ensures IsRemainder(c, bits, r) <==> r == FeedAll(c, bits)
  {
    hide Divides, FeedAll;
    RegisterIsRemainder(c, bits);
    if IsRemainder(c, bits, r) {
      var q :| Divides(c, bits, q, r);
      RemainderUnique(c, bits, q, r, Quotient(c, bits), FeedAll(c, bits));
    }
  }

  /** The complemented checksum is the one and only remainder of seed and message modulo the generator. */
  lemma CrcIsTheRemainder(c: bv32, buf: seq<bv8>, r: bv32)
    ensures IsRemainder(Not(c), Bits(buf), Not(r)) <==> r == Crc(c, buf)
  {
    NotXor(r);
    NotXor(FeedAll(Not(c), Bits(buf)));
    hide Not, IsRemainder, FeedAll, Bits;
    RemainderIsRegister(Not(c), Bits(buf), Not(r));
  }

  lemma {:induction false} BitOfPack(bits: seq<bool>, j: nat)
    requires j < |bits| <= 32
    ensures Bit(Pack(bits), j) == bits[j]
    decreases |bits|
  {
    hide Half, Odd, Below, TopClear;
    PackTopClear(bits[1..]);
    HalfBelow(Pack(bits[1..]), bits[0]);
    if j > 0 {
      BitOfPack(bits[1..], j - 1);
    }
  }

  /** The generator is the polynomial of section 8 of RFC 1952. */
  lemma GeneratorTerms(i: nat)
    ensures Generator(i) <==> i in {32, 26, 23, 22, 16, 12, 11, 10, 8, 7, 5, 4, 2, 1, 0}
  {
    var s := LittleEndian(POLYNOMIAL);
    assert s == [0x20, 0x83, 0xb8, 0xed];
    assert OctetBits(0x20) == [false, false, false, false, false, true, false, false];
    assert OctetBits(0x83) == [true, true, false, false, false, false, false, true];
    assert OctetBits(0xb8) == [false, false, false, true, true, true, false, true];
    assert OctetBits(0xed) == [true, false, true, true, false, true, true, true];
    hide Odd, Halves, OctetBits, LittleEndian;
    FourOctets(s);
    PackWord(POLYNOMIAL);
    if i < 32 {
      BitOfPack(Bits(s), 31 - i);
    }
  }
}
