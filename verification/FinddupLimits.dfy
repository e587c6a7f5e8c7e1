/** Five real files on which comp1 is no order, and what finddup of hw2/src/finddup.c may then miss. */
module FinddupLimits {
  import Crc32
  import opened Prelude
  import opened FinddupFiles
  import opened FinddupSort
  import opened FinddupRegroup
  import opened FinddupReport
  import opened FinddupNaive
  import opened FinddupStages
  import opened FinddupTheorems

  // ---------------------------------------------------------------------------
  // Checksums of one-byte files
  // ---------------------------------------------------------------------------

  const OCTET_A: bv8 := 0x61
  const OCTET_B: bv8 := 0x62
  const OCTET_C: bv8 := 0x63

  lemma OneOctetCrc(o: bv8)
    ensures Crc32.Crc(0, [o]) == Crc32.Not(Crc32.ByteStep(0xffffffff, o))
  {
    NotZero();
    hide Crc32.ByteStep, Crc32.Not, Crc32.FeedAll, Crc32.Bits;
    Crc32.FeedOctet(0xffffffff, [o]);
    assert [o][1..] == [];
    Crc32.FeedNothing(Crc32.ByteStep(0xffffffff, o));
  }

  lemma NotZero()
    ensures Crc32.Not(0) == 0xffffffff
  {
  }

  lemma OneLine(o: bv8)
    requires o != 0 && o != NEWLINE
    ensures FileCrc([o]) == Crc32.Crc(0, [o]) as nat
  {
    hide *;
    FileCrcByLines([o], [], 1);
    assert [o] + [] == [o] && [o][..1] == [o];
    AsNatBelow(Crc32.Crc(0, [o]));
  }

  lemma AsNatBelow(w: bv32)
    ensures w as nat % 0x1_0000_0000 == w as nat
  {
  }

  lemma EntryA()
    ensures Crc32.Entry(0x9e) == 0x17b7be43
  {
    assert Crc32.BitStep(0x0000009e) == 0x0000004f;
    assert Crc32.BitStep(0x0000004f) == 0xedb88307;
    assert Crc32.BitStep(0xedb88307) == 0x9b64c2a3;
    assert Crc32.BitStep(0x9b64c2a3) == 0xa00ae271;
    assert Crc32.BitStep(0xa00ae271) == 0xbdbdf218;
    assert Crc32.BitStep(0xbdbdf218) == 0x5edef90c;
    assert Crc32.BitStep(0x5edef90c) == 0x2f6f7c86;
    assert Crc32.BitStep(0x2f6f7c86) == 0x17b7be43;
    hide Crc32.BitStep;
    assert Crc32.BitSteps(0x2f6f7c86, 1) == Crc32.BitSteps(0x17b7be43, 0);
    assert Crc32.BitSteps(0x5edef90c, 2) == Crc32.BitSteps(0x2f6f7c86, 1);
    assert Crc32.BitSteps(0xbdbdf218, 3) == Crc32.BitSteps(0x5edef90c, 2);
    assert Crc32.BitSteps(0xa00ae271, 4) == Crc32.BitSteps(0xbdbdf218, 3);
    assert Crc32.BitSteps(0x9b64c2a3, 5) == Crc32.BitSteps(0xa00ae271, 4);
    assert Crc32.BitSteps(0xedb88307, 6) == Crc32.BitSteps(0x9b64c2a3, 5);
    assert Crc32.BitSteps(0x0000004f, 7) == Crc32.BitSteps(0xedb88307, 6);
    assert Crc32.BitSteps(0x0000009e, 8) == Crc32.BitSteps(0x0000004f, 7);
  }

  lemma CrcA()
    ensures FileCrc([OCTET_A]) == 0xe8b7be43
  {
    OneLine(OCTET_A);
    OneOctetCrc(OCTET_A);
    hide FileCrc;
    EntryA();
    hide Crc32.Entry;
    assert Crc32.Index(0xffffffff, OCTET_A) == 0x9e;
    assert Crc32.Drop8(0xffffffff) == 0x00ffffff;
    assert Crc32.Xor(0x00ffffff, 0x17b7be43) == 0x174841bc;
    assert Crc32.Not(0x174841bc) == 0xe8b7be43;
  }

  lemma EntryB()
    ensures Crc32.Entry(0x9d) == 0x8ebeeff9
  {
    assert Crc32.BitStep(0x0000009d) == 0xedb8836e;
    assert Crc32.BitStep(0xedb8836e) == 0x76dc41b7;
    assert Crc32.BitStep(0x76dc41b7) == 0xd6d6a3fb;
    assert Crc32.BitStep(0xd6d6a3fb) == 0x86d3d2dd;
    assert Crc32.BitStep(0x86d3d2dd) == 0xaed16a4e;
    assert Crc32.BitStep(0xaed16a4e) == 0x5768b527;
    assert Crc32.BitStep(0x5768b527) == 0xc60cd9b3;
    assert Crc32.BitStep(0xc60cd9b3) == 0x8ebeeff9;
    hide Crc32.BitStep;
    assert Crc32.BitSteps(0xc60cd9b3, 1) == Crc32.BitSteps(0x8ebeeff9, 0);
    assert Crc32.BitSteps(0x5768b527, 2) == Crc32.BitSteps(0xc60cd9b3, 1);
    assert Crc32.BitSteps(0xaed16a4e, 3) == Crc32.BitSteps(0x5768b527, 2);
    assert Crc32.BitSteps(0x86d3d2dd, 4) == Crc32.BitSteps(0xaed16a4e, 3);
    assert Crc32.BitSteps(0xd6d6a3fb, 5) == Crc32.BitSteps(0x86d3d2dd, 4);
    assert Crc32.BitSteps(0x76dc41b7, 6) == Crc32.BitSteps(0xd6d6a3fb, 5);
    assert Crc32.BitSteps(0xedb8836e, 7) == Crc32.BitSteps(0x76dc41b7, 6);
    assert Crc32.BitSteps(0x0000009d, 8) == Crc32.BitSteps(0xedb8836e, 7);
  }

  lemma CrcB()
    ensures FileCrc([OCTET_B]) == 0x71beeff9
  {
    OneLine(OCTET_B);
    OneOctetCrc(OCTET_B);
    hide FileCrc;
    EntryB();
    hide Crc32.Entry;
    assert Crc32.Index(0xffffffff, OCTET_B) == 0x9d;
    assert Crc32.Drop8(0xffffffff) == 0x00ffffff;
    assert Crc32.Xor(0x00ffffff, 0x8ebeeff9) == 0x8e411006;
    assert Crc32.Not(0x8e411006) == 0x71beeff9;
  }

  lemma EntryC()
    ensures Crc32.Entry(0x9c) == 0xf9b9df6f
  {
    assert Crc32.BitStep(0x0000009c) == 0x0000004e;
    assert Crc32.BitStep(0x0000004e) == 0x00000027;
    assert Crc32.BitStep(0x00000027) == 0xedb88333;
    assert Crc32.BitStep(0xedb88333) == 0x9b64c2b9;
    assert Crc32.BitStep(0x9b64c2b9) == 0xa00ae27c;
    assert Crc32.BitStep(0xa00ae27c) == 0x5005713e;
    assert Crc32.BitStep(0x5005713e) == 0x2802b89f;
    assert Crc32.BitStep(0x2802b89f) == 0xf9b9df6f;
    hide Crc32.BitStep;
    assert Crc32.BitSteps(0x2802b89f, 1) == Crc32.BitSteps(0xf9b9df6f, 0);
    assert Crc32.BitSteps(0x5005713e, 2) == Crc32.BitSteps(0x2802b89f, 1);
    assert Crc32.BitSteps(0xa00ae27c, 3) == Crc32.BitSteps(0x5005713e, 2);
    assert Crc32.BitSteps(0x9b64c2b9, 4) == Crc32.BitSteps(0xa00ae27c, 3);
    assert Crc32.BitSteps(0xedb88333, 5) == Crc32.BitSteps(0x9b64c2b9, 4);
    assert Crc32.BitSteps(0x00000027, 6) == Crc32.BitSteps(0xedb88333, 5);
    assert Crc32.BitSteps(0x0000004e, 7) == Crc32.BitSteps(0x00000027, 6);
    assert Crc32.BitSteps(0x0000009c, 8) == Crc32.BitSteps(0x0000004e, 7);
  }

  lemma CrcC()
    ensures FileCrc([OCTET_C]) == 0x06b9df6f
  {
    OneLine(OCTET_C);
    OneOctetCrc(OCTET_C);
    hide FileCrc;
    EntryC();
    hide Crc32.Entry;
    assert Crc32.Index(0xffffffff, OCTET_C) == 0x9c;
    assert Crc32.Drop8(0xffffffff) == 0x00ffffff;
    assert Crc32.Xor(0x00ffffff, 0xf9b9df6f) == 0xf9462090;
    assert Crc32.Not(0xf9462090) == 0x06b9df6f;
  }

  // ---------------------------------------------------------------------------
  // The files
  // ---------------------------------------------------------------------------

  const FIVE: seq<File> := [File([OCTET_A], 0, 0), File([OCTET_A], 0, 1), File([OCTET_C], 0, 2),
                            File([OCTET_B], 0, 3), File([OCTET_A], 0, 4)]

  function EntryOf(crc: nat, k: nat): Entry {
    Entry(1, crc, 0, k, k, Flags(true, false, false))
  }

  const A0 := EntryOf(0xe8b7be43, 0)
  const A1 := EntryOf(0xe8b7be43, 1)
  const C2 := EntryOf(0x06b9df6f, 2)
  const B3 := EntryOf(0x71beeff9, 3)
  const A4 := EntryOf(0xe8b7be43, 4)

  /** The list that scan1 hands to qsort. */
  lemma FiveListed()
    ensures Listing(FIVE, {1}, 5) == [A0, A1, C2, B3, A4]
  {
    CrcA();
    CrcB();
    CrcC();
    hide FileCrc;
    assert Listing(FIVE, {1}, 1) == [A0];
    assert Listing(FIVE, {1}, 2) == [A0, A1];
    assert Listing(FIVE, {1}, 3) == [A0, A1, C2];
    assert Listing(FIVE, {1}, 4) == [A0, A1, C2, B3];
  }

  lemma FiveShared()
    ensures SharedOf(FIVE) == {1}
  {
    assert |FIVE[0].content| == 1 && 0 in Present(FIVE) && 1 in Present(FIVE);
    assert HasTwin(FIVE, 0);
    assert 1 in SharedOf(FIVE);
    forall n | n in SharedOf(FIVE)
      ensures n == 1
    {
    }
  }

  /** comp1 goes round in a circle on the files a, c and b. */
  lemma FiveCircle()
    ensures Comp1(C2, B3) < 0 && Comp1(B3, A4) < 0 && Comp1(A4, C2) < 0 && Comp1(C2, A4) > 0
  {
  }

  /** comp1 puts c before b, b before a and a before c; all else that finddup needs of its files holds. */
  lemma FiveUnsortable()
    ensures Consistent(FIVE) && Decides(FIVE) && SharedOf(FIVE) == {1}
    ensures Comp1(C2, B3) < 0 && Comp1(B3, A4) < 0 && Comp1(A4, C2) < 0
    ensures !Sortable(FIVE)
  {
    hide Listing, SharedOf, Comp1, Decides;
    SevenBitDecides(FIVE);
    FiveShared();
    FiveListed();
    FiveCircle();
    var s := Listing(FIVE, {1}, 5);
    assert s[2] == C2 && s[3] == B3 && s[4] == A4;
    assert NotAfter(C2, B3) && NotAfter(B3, A4) && !NotAfter(C2, A4);
  }

  /** In the order of their names comp1 finds no neighbours to exchange, though equal files are apart. */
  lemma FiveLookSorted()
    ensures var t := Listing(FIVE, {1}, 5);
            && |t| == 5 && (forall i | 0 <= i < 4 :: NotAfter(t[i], t[i + 1]))
            && !Arranged(t) && LinksMarked(t)
  {
    FiveListed();
    hide Listing;
    var t := Listing(FIVE, {1}, 5);
    assert t[1] == A1 && t[2] == C2 && t[4] == A4;
    assert !KeepsKey(t[1], t[2], t[4]);
  }

  /** Left in that order, the last file goes unnoticed: it is not flagged, and its group is printed without it. */
  lemma FiveMissed()
    ensures var u := Outer(FIVE, Listing(FIVE, {1}, 5), 0);
            && u == [A0, SetDup(A1), C2, B3, A4]
            && Content(FIVE, u[4]) == Content(FIVE, u[0])
            && !NaiveGrouping(Contents(FIVE), Present(FIVE), AllNamed(Names(u), DupGroups(u, true, 5)))
  {
    FiveListed();
    var t := [A0, A1, C2, B3, A4];
    var u := [A0, SetDup(A1), C2, B3, A4];
    FiveRegrouped(t, u);
    hide Outer, Listing;
    FiveGroups(u);
  }

  lemma FiveRegrouped(t: seq<Entry>, u: seq<Entry>)
    requires t == [A0, A1, C2, B3, A4] && u == [A0, SetDup(A1), C2, B3, A4]
    ensures Outer(FIVE, t, 0) == u
  {
    assert Matches(FIVE, A0, A1) by {
      FullCmpOfSevenBit([OCTET_A], [OCTET_A]);
    }
    hide Matches;
    assert Take(t, 1, 1) == u;
    hide Take;
    assert Inner(FIVE, u, 0, 2, 1) == (u, 1);
    assert Inner(FIVE, t, 0, 1, 1) == (u, 1);
    assert Inner(FIVE, u, 1, 2, 2) == (u, 2);
    assert Inner(FIVE, u, 2, 3, 3) == (u, 3);
    assert Inner(FIVE, u, 3, 4, 4) == (u, 4);
    assert Inner(FIVE, u, 4, 5, 5) == (u, 5);
    hide Inner;
    assert Outer(FIVE, u, 5) == u;
    assert Outer(FIVE, u, 4) == u;
    assert Outer(FIVE, u, 3) == u;
    assert Outer(FIVE, u, 2) == u;
    assert Outer(FIVE, u, 1) == u;
  }

  lemma FiveGroups(u: seq<Entry>)
    requires u == [A0, SetDup(A1), C2, B3, A4]
    ensures !NaiveGrouping(Contents(FIVE), Present(FIVE), AllNamed(Names(u), DupGroups(u, true, 5)))
  {
    var cont, show := DupConts(u), Shows(u, true);
    assert cont == [false, true, false, false, false] && forall j | 0 <= j < 5 :: show[j];
    assert Groups(cont, show, 1) == [Group(0, [])];
    assert [Group(0, [])][0 := Group(0, [1])] == [Group(0, [1])];
    assert cont[1] && show[1] && Group(0, []).(members := [] + [1]) == Group(0, [1]);
    assert Groups(cont, show, 2) == [Group(0, [1])];
    assert Groups(cont, show, 3) == [Group(0, [1]), Group(2, [])];
    assert Groups(cont, show, 4) == [Group(0, [1]), Group(2, []), Group(3, [])];
    var groups := Groups(cont, show, 5);
    assert groups == [Group(0, [1]), Group(2, []), Group(3, []), Group(4, [])];
    hide Groups;
    var named := AllNamed(Names(u), groups);
    var g := named[0];
    assert g == Group(0, [1]);
    assert 4 !in Listed(g) && 4 in Present(FIVE) && SameKey(Contents(FIVE), 4, 0);
    assert !ListsClass(Contents(FIVE), Present(FIVE), g);
  }
}
