/** What a CRC is for: the algebra of rc_crc32, its residue and the errors it must detect. */
module Crc32Theorems {
  import opened Crc32

  // ---------------------------------------------------------------------------
  // Checksumming in pieces
  // ---------------------------------------------------------------------------

  /** A buffer may be checksummed in pieces, passing each result on as the next seed. */
  lemma Compose(c: bv32, a: seq<bv8>, b: seq<bv8>)
    ensures Crc(Crc(c, a), b) == Crc(c, a + b)
  {
    hide Not, FeedAll, Bits;
    BitsAppend(a, b);
    FeedAllAppend(Not(c), Bits(a), Bits(b));
    NotXor(FeedAll(Not(c), Bits(a)));
  }

  // ---------------------------------------------------------------------------
  // Linearity
  // ---------------------------------------------------------------------------

  function XorBits(x: seq<bool>, y: seq<bool>): (z: seq<bool>)
    requires |x| == |y|
    ensures |z| == |x|
  {
    seq(|x|, i requires 0 <= i < |x| => x[i] != y[i])
  }

  function Xor8(a: bv8, b: bv8): bv8 {
    a ^ b
  }

  function XorBytes(a: seq<bv8>, b: seq<bv8>): (z: seq<bv8>)
    requires |a| == |b|
    ensures |z| == |a|
  {
    seq(|a|, i requires 0 <= i < |a| => Xor8(a[i], b[i]))
  }

  lemma OneXor(a: bool, b: bool)
    ensures One(a != b) == Xor(One(a), One(b))
  {
  }

  lemma FeedLinear(r: bv32, a: bool, s: bv32, b: bool)
    ensures Feed(Xor(r, s), a != b) == Xor(Feed(r, a), Feed(s, b))
  {
    hide Xor, One, BitStep;
    OneXor(a, b);
    BitStepLinear(Xor(r, One(a)), Xor(s, One(b)));
    XorAssociative(Xor(r, One(a)), s, One(b));
    XorSwap(r, s, One(a));
    XorAssociative(Xor(r, s), One(a), One(b));
  }

  lemma {:induction false} FeedAllLinear(r: bv32, x: seq<bool>, s: bv32, y: seq<bool>)
    requires |x| == |y|
    ensures FeedAll(Xor(r, s), XorBits(x, y)) == Xor(FeedAll(r, x), FeedAll(s, y))
    decreases |x|
  {
    hide Xor, Feed;
    if x != [] {
      FeedLinear(r, x[0], s, y[0]);
      assert XorBits(x, y)[1..] == XorBits(x[1..], y[1..]);
      FeedAllLinear(Feed(r, x[0]), x[1..], Feed(s, y[0]), y[1..]);
    }
  }

  lemma XorMasked(a: bv8, b: bv8)
    ensures Has(Xor8(a, b), 1) == (Has(a, 1) != Has(b, 1))
    ensures Has(Xor8(a, b), 2) == (Has(a, 2) != Has(b, 2))
    ensures Has(Xor8(a, b), 4) == (Has(a, 4) != Has(b, 4))
    ensures Has(Xor8(a, b), 8) == (Has(a, 8) != Has(b, 8))
    ensures Has(Xor8(a, b), 16) == (Has(a, 16) != Has(b, 16))
    ensures Has(Xor8(a, b), 32) == (Has(a, 32) != Has(b, 32))
    ensures Has(Xor8(a, b), 64) == (Has(a, 64) != Has(b, 64))
    ensures Has(Xor8(a, b), 128) == (Has(a, 128) != Has(b, 128))
  {
  }

  lemma XorOctetBits(a: bv8, b: bv8)
    ensures OctetBits(Xor8(a, b)) == XorBits(OctetBits(a), OctetBits(b))
  {
    XorMasked(a, b);
    hide Xor8, Has;
    XorEight(OctetBits(a), OctetBits(b));
  }

  lemma XorEight(x: seq<bool>, y: seq<bool>)
    requires |x| == |y| == 8
    ensures XorBits(x, y)
         == [x[0] != y[0], x[1] != y[1], x[2] != y[2], x[3] != y[3], x[4] != y[4], x[5] != y[5], x[6] != y[6],
             x[7] != y[7]]
  {
    Eight(XorBits(x, y));
  }

  lemma Eight(z: seq<bool>)
    requires |z| == 8
    ensures z == [z[0], z[1], z[2], z[3], z[4], z[5], z[6], z[7]]
  {
  }

  lemma {:induction false} BitsXor(a: seq<bv8>, b: seq<bv8>)
    requires |a| == |b|
    ensures Bits(XorBytes(a, b)) == XorBits(Bits(a), Bits(b))
  {
    hide OctetBits, Xor8;
    if a != [] {
      XorOctetBits(a[0], b[0]);
      assert XorBytes(a, b)[1..] == XorBytes(a[1..], b[1..]);
      BitsXor(a[1..], b[1..]);
    }
  }

  lemma NotXorXor(x: bv32, y: bv32, z: bv32)
    ensures Xor(Xor(Not(x), Not(y)), Not(z)) == Not(Xor(Xor(x, y), z))
  {
    NotXor(x);
    NotXor(y);
    NotXor(z);
    NotXor(Xor(Xor(x, y), z));
    hide Not, Xor;
    XorBoth(x, y, 0xffffffff);
    XorAssociative(Xor(x, y), z, 0xffffffff);
  }

  /** The checksum of the exclusive or of three buffers of one length is the exclusive or of their checksums. */
  lemma Affine(c: bv32, a: seq<bv8>, d: bv32, b: seq<bv8>, e: bv32, f: seq<bv8>)
    requires |a| == |b| == |f|
    ensures Crc(Xor(Xor(c, d), e), XorBytes(XorBytes(a, b), f)) == Xor(Xor(Crc(c, a), Crc(d, b)), Crc(e, f))
  {
    hide Not, Xor, FeedAll, Bits, XorBits, XorBytes;
    BitsXor(a, b);
    BitsXor(XorBytes(a, b), f);
    NotXorXor(c, d, e);
    FeedAllLinear(Not(c), Bits(a), Not(d), Bits(b));
    FeedAllLinear(Xor(Not(c), Not(d)), XorBits(Bits(a), Bits(b)), Not(e), Bits(f));
    NotXorXor(FeedAll(Not(c), Bits(a)), FeedAll(Not(d), Bits(b)), FeedAll(Not(e), Bits(f)));
  }

  // ---------------------------------------------------------------------------
  // The residue
  // ---------------------------------------------------------------------------

  /** A word as four octets, least significant first. */
  function LittleEndian(w: bv32): (s: seq<bv8>)
    ensures |s| == 4
  {
    [(w & 0xff) as bv8, ((w >> 8) & 0xff) as bv8, ((w >> 16) & 0xff) as bv8, (w >> 24) as bv8]
  }

  const RESIDUE: bv32 := 0x2144DF1C

  lemma JoinOctets(w: bv32)
    ensures var s := LittleEndian(w);
            ((((((((0 << 8) | s[3] as bv32) << 8) | s[2] as bv32) << 8) | s[1] as bv32) << 8) | s[0] as bv32) == w
  {
  }

  lemma FourOctets(s: seq<bv8>)
    requires |s| == 4
    ensures Bits(s) == OctetBits(s[0]) + (OctetBits(s[1]) + (OctetBits(s[2]) + OctetBits(s[3])))
  {
    hide OctetBits;
    assert s[1..][1..] == s[2..] && s[2..][1..] == s[3..] && s[3..][1..] == [];
    assert Bits(s[3..]) == OctetBits(s[3]);
    assert Bits(s[2..]) == OctetBits(s[2]) + Bits(s[3..]);
    assert Bits(s[1..]) == OctetBits(s[1]) + Bits(s[2..]);
  }

  lemma PackWord(w: bv32)
    ensures Pack(Bits(LittleEndian(w))) == w
  {
    var s := LittleEndian(w);
    JoinOctets(w);
    hide LittleEndian, OctetBits;
    FourOctets(s);
    hide Pack, Bits;
    var last := OctetBits(s[3]);
    assert last + [] == last;
    PackOctet(s[3], []);
    PackOctet(s[2], last);
    PackOctet(s[1], OctetBits(s[2]) + last);
    PackOctet(s[0], OctetBits(s[1]) + (OctetBits(s[2]) + last));
    PackNothing();
  }

  lemma PackNothing()
    ensures Pack([]) == 0
  {
  }

  lemma XorNot(r: bv32)
    ensures Xor(r, Not(r)) == 0xffffffff
  {
  }

  lemma AllOnes()
    ensures BitSteps(0xffffffff, 32) == Not(RESIDUE)
  {
    assert BitStep(0xffffffff) == 0x92477cdf;
    assert BitStep(0x92477cdf) == 0xa49b3d4f;
    assert BitStep(0xa49b3d4f) == 0xbff51d87;
    assert BitStep(0xbff51d87) == 0xb2420de3;
    assert BitStep(0xb2420de3) == 0xb49985d1;
    assert BitStep(0xb49985d1) == 0xb7f441c8;
    assert BitStep(0xb7f441c8) == 0x5bfa20e4;
    assert BitStep(0x5bfa20e4) == 0x2dfd1072;
    assert BitStep(0x2dfd1072) == 0x16fe8839;
    assert BitStep(0x16fe8839) == 0xe6c7c73c;
    assert BitStep(0xe6c7c73c) == 0x7363e39e;
    assert BitStep(0x7363e39e) == 0x39b1f1cf;
    assert BitStep(0x39b1f1cf) == 0xf1607bc7;
    assert BitStep(0xf1607bc7) == 0x9508bec3;
    assert BitStep(0x9508bec3) == 0xa73cdc41;
    assert BitStep(0xa73cdc41) == 0xbe26ed00;
    assert BitStep(0xbe26ed00) == 0x5f137680;
    assert BitStep(0x5f137680) == 0x2f89bb40;
    assert BitStep(0x2f89bb40) == 0x17c4dda0;
    assert BitStep(0x17c4dda0) == 0x0be26ed0;
    assert BitStep(0x0be26ed0) == 0x05f13768;
    assert BitStep(0x05f13768) == 0x02f89bb4;
    assert BitStep(0x02f89bb4) == 0x017c4dda;
    assert BitStep(0x017c4dda) == 0x00be26ed;
    assert BitStep(0x00be26ed) == 0xede79056;
    assert BitStep(0xede79056) == 0x76f3c82b;
    assert BitStep(0x76f3c82b) == 0xd6c16735;
    assert BitStep(0xd6c16735) == 0x86d830ba;
    assert BitStep(0x86d830ba) == 0x436c185d;
    assert BitStep(0x436c185d) == 0xcc0e8f0e;
    assert BitStep(0xcc0e8f0e) == 0x66074787;
    assert BitStep(0x66074787) == 0xdebb20e3;
    hide BitStep;
    assert BitSteps(0xffffffff, 32) == BitSteps(0x92477cdf, 31);
    assert BitSteps(0x92477cdf, 31) == BitSteps(0xa49b3d4f, 30);
    assert BitSteps(0xa49b3d4f, 30) == BitSteps(0xbff51d87, 29);
    assert BitSteps(0xbff51d87, 29) == BitSteps(0xb2420de3, 28);
    assert BitSteps(0xb2420de3, 28) == BitSteps(0xb49985d1, 27);
    assert BitSteps(0xb49985d1, 27) == BitSteps(0xb7f441c8, 26);
    assert BitSteps(0xb7f441c8, 26) == BitSteps(0x5bfa20e4, 25);
    assert BitSteps(0x5bfa20e4, 25) == BitSteps(0x2dfd1072, 24);
    assert BitSteps(0x2dfd1072, 24) == BitSteps(0x16fe8839, 23);
    assert BitSteps(0x16fe8839, 23) == BitSteps(0xe6c7c73c, 22);
    assert BitSteps(0xe6c7c73c, 22) == BitSteps(0x7363e39e, 21);
    assert BitSteps(0x7363e39e, 21) == BitSteps(0x39b1f1cf, 20);
    assert BitSteps(0x39b1f1cf, 20) == BitSteps(0xf1607bc7, 19);
    assert BitSteps(0xf1607bc7, 19) == BitSteps(0x9508bec3, 18);
    assert BitSteps(0x9508bec3, 18) == BitSteps(0xa73cdc41, 17);
    assert BitSteps(0xa73cdc41, 17) == BitSteps(0xbe26ed00, 16);
    assert BitSteps(0xbe26ed00, 16) == BitSteps(0x5f137680, 15);
    assert BitSteps(0x5f137680, 15) == BitSteps(0x2f89bb40, 14);
    assert BitSteps(0x2f89bb40, 14) == BitSteps(0x17c4dda0, 13);
    assert BitSteps(0x17c4dda0, 13) == BitSteps(0x0be26ed0, 12);
    assert BitSteps(0x0be26ed0, 12) == BitSteps(0x05f13768, 11);
    assert BitSteps(0x05f13768, 11) == BitSteps(0x02f89bb4, 10);
    assert BitSteps(0x02f89bb4, 10) == BitSteps(0x017c4dda, 9);
    assert BitSteps(0x017c4dda, 9) == BitSteps(0x00be26ed, 8);
    assert BitSteps(0x00be26ed, 8) == BitSteps(0xede79056, 7);
    assert BitSteps(0xede79056, 7) == BitSteps(0x76f3c82b, 6);
    assert BitSteps(0x76f3c82b, 6) == BitSteps(0xd6c16735, 5);
    assert BitSteps(0xd6c16735, 5) == BitSteps(0x86d830ba, 4);
    assert BitSteps(0x86d830ba, 4) == BitSteps(0x436c185d, 3);
    assert BitSteps(0x436c185d, 3) == BitSteps(0xcc0e8f0e, 2);
    assert BitSteps(0xcc0e8f0e, 2) == BitSteps(0x66074787, 1);
    assert BitSteps(0x66074787, 1) == BitSteps(0xdebb20e3, 0);
  }

  /** A message followed by its own checksum, least significant octet first, has a constant checksum. */
  lemma Residue(c: bv32, message: seq<bv8>)
    ensures Crc(c, message + LittleEndian(Crc(c, message))) == RESIDUE
  {
    var r := FeedAll(Not(c), Bits(message));
    var tail := LittleEndian(Not(r));
    hide Xor, Not, FeedAll, Bits, LittleEndian, BitSteps, Pack;
    BitsAppend(message, tail);
    FeedAllAppend(Not(c), Bits(message), Bits(tail));
    FeedAtOnce(r, Bits(tail));
    PackWord(Not(r));
    XorNot(r);
    AllOnes();
    NotXor(RESIDUE);
  }

  // ---------------------------------------------------------------------------
  // Error detection
  // ---------------------------------------------------------------------------

  lemma {:induction false} FeedAllInjective(r: bv32, s: bv32, bits: seq<bool>)
    requires FeedAll(r, bits) == FeedAll(s, bits)
    ensures r == s
    decreases |bits|
  {
    hide Xor, One, BitStep;
    if bits != [] {
      var b := bits[0];
      FeedAllInjective(Feed(r, b), Feed(s, b), bits[1..]);
      BitStepInjective(Xor(r, One(b)), Xor(s, One(b)));
      XorTwice(r, One(b));
      XorTwice(s, One(b));
    }
  }

  /** Two bit streams that differ only inside a window of 32 bits leave different registers. */
  lemma BurstDetected(r: bv32, before: seq<bool>, x: seq<bool>, y: seq<bool>, after: seq<bool>)
    requires |x| == |y| <= 32 && x != y
    ensures FeedAll(r, before + x + after) != FeedAll(r, before + y + after)
  {
    hide Xor, Feed, FeedAll, Pack, BitSteps;
    var s := FeedAll(r, before);
    FeedAllAppend(r, before + x, after);
    FeedAllAppend(r, before + y, after);
    FeedAllAppend(r, before, x);
    FeedAllAppend(r, before, y);
    FeedAtOnce(s, x);
    FeedAtOnce(s, y);
    if FeedAll(r, before + x + after) == FeedAll(r, before + y + after) {
      FeedAllInjective(FeedAll(s, x), FeedAll(s, y), after);
      BitStepsInjective(Xor(s, Pack(x)), Xor(s, Pack(y)), |x|);
      XorCancel(s, Pack(x), Pack(y));
      PackInjective(x, y);
    }
  }

  /**
   * Buffers of one length whose difference fits in 32 consecutive bits, at any bit offset, have different checksums.
   */
  lemma BitBurstChangesCrc(c: bv32, a: seq<bv8>, b: seq<bv8>, before: seq<bool>, x: seq<bool>, y: seq<bool>,
                           after: seq<bool>)
    requires Bits(a) == before + x + after && Bits(b) == before + y + after
    requires |x| == |y| <= 32 && a != b
    ensures Crc(c, a) != Crc(c, b)
  {
    if x == y {
      BitsInjective(a, b);
    }
    BurstDetected(Not(c), before, x, y, after);
    NotXor(FeedAll(Not(c), Bits(a)));
    NotXor(FeedAll(Not(c), Bits(b)));
  }

  lemma OctetBitsInjective(a: bv8, b: bv8)
    requires OctetBits(a) == OctetBits(b)
    ensures a == b
  {
    PackOctet(a, []);
    PackOctet(b, []);
    OctetAlone(a);
    OctetAlone(b);
  }

  lemma {:induction false} BitsInjective(a: seq<bv8>, b: seq<bv8>)
    requires Bits(a) == Bits(b)
    ensures a == b
  {
    hide OctetBits;
    assert |a| == |b|;
    if a != [] {
      assert Bits(a)[..8] == OctetBits(a[0]) && Bits(b)[..8] == OctetBits(b[0]);
      assert Bits(a)[8..] == Bits(a[1..]) && Bits(b)[8..] == Bits(b[1..]);
      OctetBitsInjective(a[0], b[0]);
      BitsInjective(a[1..], b[1..]);
    }
  }

  /** In particular, buffers that differ only inside four consecutive octets. */
  lemma FourOctetBurstChangesCrc(c: bv32, before: seq<bv8>, x: seq<bv8>, y: seq<bv8>, after: seq<bv8>)
    requires |x| == |y| <= 4 && x != y
    ensures Crc(c, before + x + after) != Crc(c, before + y + after)
  {
    BitsAppend(before + x, after);
    BitsAppend(before, x);
    BitsAppend(before + y, after);
    BitsAppend(before, y);
    assert before + x + after != before + y + after by {
      assert (before + x + after)[|before|..][..|x|] == x;
      assert (before + y + after)[|before|..][..|y|] == y;
    }
    BitBurstChangesCrc(c, before + x + after, before + y + after, Bits(before), Bits(x), Bits(y), Bits(after));
  }
}
