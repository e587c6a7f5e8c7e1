/** The CRC-32 of hw2/src/crc32.c: a table-driven byte loop, specified one bit at a time. */
module Crc32 {

  /** The generator polynomial without its leading term, coefficient of X^31 in the low bit. */
  const POLYNOMIAL: bv32 := 0xedb88320

  // ---------------------------------------------------------------------------
  // Specification: the register consumes a stream of bits
  // ---------------------------------------------------------------------------

  function Xor(a: bv32, b: bv32): bv32 {
    a ^ b
  }

  function Not(a: bv32): bv32 {
    !a
  }

  function One(b: bool): bv32 {
    if b then 1 else 0
  }

  function BitStep(r: bv32): bv32 {
    if Odd(r) then Xor(Half(r), POLYNOMIAL) else Half(r)
  }

  function BitSteps(r: bv32, n: nat): bv32
    decreases n
  {
    if n == 0 then r else BitSteps(BitStep(r), n - 1)
  }

  function Feed(r: bv32, b: bool): bv32 {
    BitStep(Xor(r, One(b)))
  }

  function FeedAll(r: bv32, bits: seq<bool>): bv32
    decreases |bits|
  {
    if bits == [] then r else FeedAll(Feed(r, bits[0]), bits[1..])
  }

  predicate Has(o: bv8, mask: bv8) {
    o & mask != 0
  }

  /** The bits of an octet in the order in which they enter the register. */
  function OctetBits(o: bv8): (bits: seq<bool>)
    ensures |bits| == 8
  {
    [Has(o, 1), Has(o, 2), Has(o, 4), Has(o, 8), Has(o, 16), Has(o, 32), Has(o, 64), Has(o, 128)]
  }

  function Bits(buf: seq<bv8>): (bits: seq<bool>)
    ensures |bits| == 8 * |buf|
  {
    if buf == [] then [] else OctetBits(buf[0]) + Bits(buf[1..])
  }

  /** What rc_crc32 returns, stated without a table and without bytes. */
  function Crc(crc: bv32, buf: seq<bv8>): bv32 {
    Not(FeedAll(Not(crc), Bits(buf)))
  }

  lemma {:induction false} FeedAllAppend(r: bv32, x: seq<bool>, y: seq<bool>)
    ensures FeedAll(r, x + y) == FeedAll(FeedAll(r, x), y)
    decreases |x|
  {
    hide Feed;
    if x == [] {
      assert x + y == y;
    } else {
      assert (x + y)[1..] == x[1..] + y;
      FeedAllAppend(Feed(r, x[0]), x[1..], y);
    }
  }

  lemma {:induction false} BitsAppend(a: seq<bv8>, b: seq<bv8>)
    ensures Bits(a + b) == Bits(a) + Bits(b)
  {
    hide OctetBits;
    if a == [] {
      assert a + b == b;
    } else {
      assert (a + b)[1..] == a[1..] + b;
      BitsAppend(a[1..], b);
    }
  }

  // ---------------------------------------------------------------------------
  // Words
  // ---------------------------------------------------------------------------

  lemma XorZero(a: bv32)
    ensures Xor(a, 0) == a
  {
  }

  lemma XorSwap(a: bv32, b: bv32, c: bv32)
    ensures Xor(Xor(a, c), b) == Xor(Xor(a, b), c)
  {
  }

  lemma XorAssociative(a: bv32, b: bv32, c: bv32)
    ensures Xor(a, Xor(b, c)) == Xor(Xor(a, b), c)
  {
  }

  lemma XorTwice(a: bv32, c: bv32)
    ensures Xor(Xor(a, c), c) == a
  {
  }

  lemma XorBoth(a: bv32, b: bv32, c: bv32)
    ensures Xor(Xor(a, c), Xor(b, c)) == Xor(a, b)
  {
    hide Xor;
    XorAssociative(Xor(a, c), b, c);
    XorSwap(a, b, c);
    XorTwice(Xor(a, b), c);
  }

  lemma NotXor(a: bv32)
    ensures Not(a) == Xor(a, 0xffffffff)
    ensures Not(Not(a)) == a
  {
  }

  lemma XorCancel(a: bv32, b: bv32, c: bv32)
    requires Xor(a, b) == Xor(a, c)
    ensures b == c
  {
  }

  function Half(a: bv32): bv32 {
    a >> 1
  }

  predicate Odd(a: bv32) {
    a & 1 == 1
  }

  lemma HalfXor(a: bv32, b: bv32)
    ensures Half(Xor(a, b)) == Xor(Half(a), Half(b))
  {
  }

  lemma OddXor(a: bv32, b: bv32)
    ensures Odd(Xor(a, b)) == (Odd(a) != Odd(b))
  {
  }

  lemma BitStepLinear(a: bv32, b: bv32)
    ensures BitStep(Xor(a, b)) == Xor(BitStep(a), BitStep(b))
  {
    hide Xor, Half, Odd;
    HalfXor(a, b);
    OddXor(a, b);
    XorSwap(Half(a), Half(b), POLYNOMIAL);
    XorAssociative(Half(a), Half(b), POLYNOMIAL);
    XorBoth(Half(a), Half(b), POLYNOMIAL);
  }

  lemma BitStepInjective(a: bv32, b: bv32)
    requires BitStep(a) == BitStep(b)
    ensures a == b
  {
  }

  lemma {:induction false} BitStepsInjective(a: bv32, b: bv32, n: nat)
    requires BitSteps(a, n) == BitSteps(b, n)
    ensures a == b
    decreases n
  {
    hide BitStep;
    if n > 0 {
      BitStepsInjective(BitStep(a), BitStep(b), n - 1);
      BitStepInjective(a, b);
    }
  }

  lemma {:induction false} BitStepsLinear(a: bv32, b: bv32, n: nat)
    ensures BitSteps(Xor(a, b), n) == Xor(BitSteps(a, n), BitSteps(b, n))
    decreases n
  {
    hide BitStep, Xor;
    if n > 0 {
      BitStepLinear(a, b);
      BitStepsLinear(BitStep(a), BitStep(b), n - 1);
    }
  }

  /** A word that leaves room for one more bit. */
  predicate TopClear(p: bv32) {
    p < 0x80000000
  }

  /** One more bit below the others. */
  function Below(p: bv32, b: bool): bv32 {
    (p << 1) | One(b)
  }

  /** Up to 32 bits as a word, the first bit lowest. */
  function Pack(bits: seq<bool>): bv32 {
    if bits == [] then 0 else Below(Pack(bits[1..]), bits[0])
  }

  /** 2^(31-k) */
  function Halved(k: nat): bv32 {
    if k == 0 then 0x80000000 else Halved(k - 1) >> 1
  }

  predicate Less(p: bv32, q: bv32) {
    p < q
  }

  lemma {:induction false} HalvedPositive(k: nat)
    requires k <= 31
    ensures Less(0, Halved(k))
    decreases 31 - k
  {
    if k == 31 {
      assert Halved(7) == 0x0100_0000 && Halved(15) == 0x0001_0000 && Halved(23) == 0x0000_0100;
    } else {
      HalvedPositive(k + 1);
    }
  }

  lemma DoubleLess(p: bv32, q: bv32)
    requires p < (q >> 1)
    ensures (p << 1) | 1 < q && (p << 1) | 0 < q
  {
  }

  lemma BelowLess(p: bv32, k: nat, b: bool)
    requires Less(p, Halved(k + 1))
    ensures Less(Below(p, b), Halved(k))
  {
    DoubleLess(p, Halved(k));
  }

  /** Fewer than 32 bits leave the top of the word clear. */
  lemma {:induction false} PackBound(bits: seq<bool>, k: nat)
    requires |bits| + k <= 31
    ensures Less(Pack(bits), Halved(k))
    decreases |bits|
  {
    hide Below, Less, Halved;
    if bits == [] {
      HalvedPositive(k);
    } else {
      PackBound(bits[1..], k + 1);
      BelowLess(Pack(bits[1..]), k, bits[0]);
    }
  }

  lemma PackTopClear(bits: seq<bool>)
    requires |bits| <= 31
    ensures TopClear(Pack(bits))
  {
    hide Pack;
    PackBound(bits, 0);
  }

  lemma HalfBelow(p: bv32, b: bool)
    requires TopClear(p)
    ensures Half(Below(p, b)) == p && Odd(Below(p, b)) == b
  {
  }

  lemma BelowXor(r: bv32, p: bv32, b: bool)
    ensures Xor(r, Below(p, b)) == Xor(Xor(r, One(b)), Below(p, false))
  {
  }

  lemma FeedWord(r: bv32, p: bv32, b: bool)
    requires TopClear(p)
    ensures Xor(Feed(r, b), p) == BitStep(Xor(r, Below(p, b)))
  {
    hide Half, Odd, One, Xor, Below, TopClear;
    BelowXor(r, p, b);
    HalfBelow(p, false);
    assert BitStep(Below(p, false)) == p;
    BitStepLinear(Xor(r, One(b)), Below(p, false));
  }

  /** Feeding at most 32 bits one by one is the same as xoring them in at once. */
  lemma {:induction false} FeedAtOnce(r: bv32, bits: seq<bool>)
    requires |bits| <= 32
    ensures FeedAll(r, bits) == BitSteps(Xor(r, Pack(bits)), |bits|)
    decreases |bits|
  {
    hide BitStep, Feed, One, Xor, Below, TopClear;
    if bits == [] {
      XorZero(r);
    } else {
      FeedAtOnce(Feed(r, bits[0]), bits[1..]);
      PackTopClear(bits[1..]);
      FeedWord(r, Pack(bits[1..]), bits[0]);
    }
  }

  lemma BelowInjective(p: bv32, a: bool, q: bv32, b: bool)
    requires TopClear(p) && TopClear(q)
    requires Below(p, a) == Below(q, b)
    ensures p == q && a == b
  {
  }

  lemma {:induction false} PackInjective(x: seq<bool>, y: seq<bool>)
    requires |x| == |y| <= 32
    requires Pack(x) == Pack(y)
    ensures x == y
    decreases |x|
  {
    hide Below, TopClear;
    if x != [] {
      PackTopClear(x[1..]);
      PackTopClear(y[1..]);
      BelowInjective(Pack(x[1..]), x[0], Pack(y[1..]), y[0]);
      PackInjective(x[1..], y[1..]);
    }
  }

  // ---------------------------------------------------------------------------
  // The table-driven loop refines the bit loop
  // ---------------------------------------------------------------------------

  /** The table entry for an octet. */
  function Entry(o: bv8): bv32 {
    BitSteps(o as bv32, 8)
  }

  /** The octet with which one iteration of the byte loop indexes its table. */
  function Index(r: bv32, o: bv8): bv8 {
    (r & 0xff) as bv8 ^ o
  }

  function HighOctets(r: bv32): bv32 {
    r & 0xffffff00
  }

  function Drop8(r: bv32): bv32 {
    r >> 8
  }

  /** One iteration of the byte loop, over an ideal table. */
  function ByteStep(r: bv32, o: bv8): bv32 {
    Xor(Drop8(r), Entry(Index(r, o)))
  }

  /** Eight bits below a word of at most 24 bits. */
  function BelowEight(p: bv32, b: seq<bool>): bv32
    requires |b| == 8
  {
    Below(Below(Below(Below(Below(Below(Below(Below(p, b[7]), b[6]), b[5]), b[4]), b[3]), b[2]), b[1]), b[0])
  }

  lemma BelowHigh(p: bv32, o: bv8)
    ensures Below(Below(Below(Below(p, Has(o, 128)), Has(o, 64)), Has(o, 32)), Has(o, 16)) ==
            (p << 4) | (o >> 4) as bv32
  {
  }

  lemma BelowLow(p: bv32, o: bv8)
    ensures Below(Below(Below(Below(p, Has(o, 8)), Has(o, 4)), Has(o, 2)), Has(o, 1)) == (p << 4) | (o & 15) as bv32
  {
  }

  lemma JoinNibbles(p: bv32, o: bv8)
    ensures (((p << 4) | (o >> 4) as bv32) << 4) | (o & 15) as bv32 == (p << 8) | o as bv32
  {
  }

  lemma BelowOctet(p: bv32, o: bv8)
    ensures BelowEight(p, OctetBits(o)) == (p << 8) | o as bv32
  {
    hide Below, Has;
    BelowHigh(p, o);
    BelowLow((p << 4) | (o >> 4) as bv32, o);
    JoinNibbles(p, o);
  }

  lemma PackEight(b: seq<bool>)
    requires |b| >= 8
    ensures Pack(b) == BelowEight(Pack(b[8..]), b[..8])
  {
    hide Below;
    assert b[1..][1..] == b[2..] && b[2..][1..] == b[3..] && b[3..][1..] == b[4..];
    assert b[4..][1..] == b[5..] && b[5..][1..] == b[6..] && b[6..][1..] == b[7..] && b[7..][1..] == b[8..];
    assert Pack(b[7..]) == Below(Pack(b[8..]), b[7]);
    assert Pack(b[6..]) == Below(Pack(b[7..]), b[6]);
    assert Pack(b[5..]) == Below(Pack(b[6..]), b[5]);
    assert Pack(b[4..]) == Below(Pack(b[5..]), b[4]);
    assert Pack(b[3..]) == Below(Pack(b[4..]), b[3]);
    assert Pack(b[2..]) == Below(Pack(b[3..]), b[2]);
    assert Pack(b[1..]) == Below(Pack(b[2..]), b[1]);
  }

  lemma PackOctet(o: bv8, rest: seq<bool>)
    ensures Pack(OctetBits(o) + rest) == (Pack(rest) << 8) | o as bv32
  {
    BelowOctet(Pack(rest), o);
    hide BelowEight, Pack, OctetBits;
    var b := OctetBits(o) + rest;
    assert b[..8] == OctetBits(o) && b[8..] == rest;
    PackEight(b);
  }

  /** Eight steps on a word with an empty low octet only shift it. */
  lemma ShiftedOut(r: bv32)
    requires r & 0xff == 0
    ensures BitSteps(r, 8) == Drop8(r)
  {
    var r1 := r >> 1;
    var r2 := r >> 2;
    var r3 := r >> 3;
    var r4 := r >> 4;
    var r5 := r >> 5;
    var r6 := r >> 6;
    var r7 := r >> 7;
    assert BitStep(r) == r1 && BitStep(r1) == r2 && BitStep(r2) == r3 && BitStep(r3) == r4;
    assert BitStep(r4) == r5 && BitStep(r5) == r6 && BitStep(r6) == r7 && BitStep(r7) == r >> 8;
    assert BitSteps(r, 8) == BitSteps(r4, 4);
  }

  lemma SplitOctet(r: bv32, o: bv8)
    ensures Xor(HighOctets(Xor(r, o as bv32)), Index(r, o) as bv32) == Xor(r, o as bv32)
    ensures Drop8(HighOctets(Xor(r, o as bv32))) == Drop8(r)
    ensures HighOctets(Xor(r, o as bv32)) & 0xff == 0
  {
  }

  lemma OctetAlone(o: bv8)
    ensures (0 << 8) | o as bv32 == o as bv32
  {
  }

  lemma FeedOneOctet(r: bv32, o: bv8)
    ensures FeedAll(r, OctetBits(o)) == BitSteps(Xor(r, o as bv32), 8)
  {
    OctetAlone(o);
    assert Pack([]) == 0;
    hide Xor, Pack, OctetBits, BitSteps, FeedAll;
    assert OctetBits(o) + [] == OctetBits(o);
    PackOctet(o, []);
    FeedAtOnce(r, OctetBits(o));
  }

  /** A table lookup does the work of eight bit steps. */
  lemma ByteStepIsEightBitSteps(r: bv32, o: bv8)
    ensures FeedAll(r, OctetBits(o)) == ByteStep(r, o)
  {
    hide Xor, HighOctets, Drop8, Index, BitSteps, FeedAll, OctetBits;
    SplitOctet(r, o);
    ShiftedOut(HighOctets(Xor(r, o as bv32)));
    FeedOneOctet(r, o);
    BitStepsLinear(HighOctets(Xor(r, o as bv32)), Index(r, o) as bv32, 8);
  }

  /** The byte loop peels one octet off the bit stream. */
  lemma FeedOctet(r: bv32, buf: seq<bv8>)
    requires buf != []
    ensures FeedAll(r, Bits(buf)) == FeedAll(ByteStep(r, buf[0]), Bits(buf[1..]))
  {
    hide FeedAll, OctetBits, ByteStep;
    FeedAllAppend(r, OctetBits(buf[0]), Bits(buf[1..]));
    ByteStepIsEightBitSteps(r, buf[0]);
  }

  lemma FeedNothing(r: bv32)
    ensures FeedAll(r, Bits([])) == r
  {
  }

  lemma LookupStep(r: bv32, o: bv8, e: bv32)
    requires e == Entry((r & 0xff) as bv8 ^ o)
    ensures (r >> 8) ^ e == ByteStep(r, o)
  {
    hide BitSteps;
  }

  class Crc32Table {
    var table: array<bv32>
    var haveTable: bool

    ghost predicate Valid()
      reads this, table
    {
      && table.Length == 256
      && (haveTable ==> forall o: bv8 :: table[o as int] == Entry(o))
    }

    constructor ()
      ensures Valid() && !haveTable && fresh(table)
    {
      table := new bv32[256];
      haveTable := false;
    }

    method BuildTable()
      requires Valid()
      modifies this`haveTable, table
      ensures Valid() && haveTable
    {
      for i := 0 to 256
        invariant table.Length == 256 && table == old(table)
        invariant forall o: bv8 :: o as int < i ==> table[o as int] == Entry(o)
      {
        var octet := i as bv8;
        var rem := octet as bv32;
        for j := 0 to 8
          invariant BitSteps(rem, 8 - j) == Entry(octet)
        {
          if rem & 1 == 1 {
            rem := rem >> 1;
            rem := rem ^ POLYNOMIAL;
          } else {
            rem := rem >> 1;
          }
        }
        table[i] := rem;
      }
      haveTable := true;
    }

    /** The loop over the buffer. */
    method ByteLoop(start: bv32, buf: seq<bv8>) returns (r: bv32)
      requires Valid() && haveTable
      ensures r == FeedAll(start, Bits(buf))
    {
      hide Bits, FeedAll, BitSteps, ByteStep;
      r := start;
      for p := 0 to |buf|
        invariant FeedAll(r, Bits(buf[p..])) == FeedAll(start, Bits(buf))
      {
        var octet := buf[p];
        FeedOctet(r, buf[p..]);
        var index := (r & 0xff) as bv8 ^ octet;
        LookupStep(r, octet, table[index as int]);
        assert buf[p..][1..] == buf[p + 1..];
        r := (r >> 8) ^ table[index as int];
      }
      assert buf[|buf|..] == [];
      FeedNothing(r);
    }

    method RcCrc32(crc: bv32, buf: seq<bv8>) returns (r: bv32)
      requires Valid()
      modifies this`haveTable, table
      ensures Valid() && haveTable
      ensures r == Crc(crc, buf)
    {
      if !haveTable {
        BuildTable();
      }
      r := ByteLoop(!crc, buf);
      r := !r;
    }
  }
}
