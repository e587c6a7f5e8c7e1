/** comp1 of hw2/src/finddup.c, what qsort may make of it and what the scans need of the result. */
module FinddupSort {
  import opened Prelude
  import opened FinddupFiles

  // ---------------------------------------------------------------------------
  // comp1
  // ---------------------------------------------------------------------------

  /** comp1 as it is coded: each difference is cut to an int before it is looked at. */
  function Comp1(a: Entry, b: Entry): int {
    var l := ToInt32(a.length - b.length);
    var c := ToInt32(a.crc32 - b.crc32);
    var d := ToInt32(a.device - b.device);
    if l != 0 then l else if c != 0 then c else if d != 0 then d else ToInt32(a.inode - b.inode)
  }

  /** The order that comp1 is meant to be: lexicographic by length, crc, device and inode. */
  predicate Before(a: Entry, b: Entry) {
    a.length < b.length || (a.length == b.length &&
    (a.crc32 < b.crc32 || (a.crc32 == b.crc32 &&
    (a.device < b.device || (a.device == b.device && a.inode <= b.inode)))))
  }

  /** comp1 orders a and b as it is meant to, whichever comes first. */
  predicate Agrees(a: Entry, b: Entry) {
    && (Comp1(a, b) <= 0 <==> Before(a, b))
    && (Comp1(b, a) <= 0 <==> Before(b, a))
  }

  /** As long as the differences are ints, lengths decide, then checksums, then devices, then inodes. */
  lemma Comp1Decides(a: Entry, b: Entry)
    requires -0x8000_0000 <= a.length - b.length < 0x8000_0000 && -0x8000_0000 <= a.crc32 - b.crc32 < 0x8000_0000
    requires -0x8000_0000 <= a.device - b.device < 0x8000_0000 && -0x8000_0000 <= a.inode - b.inode < 0x8000_0000
    ensures a.length != b.length ==> Comp1(a, b) == a.length - b.length
    ensures a.length == b.length && a.crc32 != b.crc32 ==> Comp1(a, b) == a.crc32 - b.crc32
    ensures a.length == b.length && a.crc32 == b.crc32 && a.device != b.device ==> Comp1(a, b) == a.device - b.device
    ensures a.length == b.length && a.crc32 == b.crc32 && a.device == b.device ==> Comp1(a, b) == a.inode - b.inode
  {
    FitsInt(a.length - b.length);
    FitsInt(a.crc32 - b.crc32);
    FitsInt(a.device - b.device);
    FitsInt(a.inode - b.inode);
    hide ToInt32;
  }

  lemma FitsInt(d: int)
    requires -INT_LIMIT <= d < INT_LIMIT
    ensures ToInt32(d) == d
  {
  }

  /** The first of four numbers that is not zero. */
  function First(l: int, c: int, d: int, i: int): int {
    if l != 0 then l else if c != 0 then c else if d != 0 then d else i
  }

  /** The difference that should decide. */
  function Deciding(a: Entry, b: Entry): int {
    First(a.length - b.length, a.crc32 - b.crc32, a.device - b.device, a.inode - b.inode)
  }

  /** What is left of a difference that an int can not tell from zero. */
  function Surviving(d: int): int {
    if d % UINT_LIMIT == 0 then 0 else d
  }

  /** The difference that does decide. */
  function Decided(a: Entry, b: Entry): int {
    First(Surviving(a.length - b.length), Surviving(a.crc32 - b.crc32),
          Surviving(a.device - b.device), Surviving(a.inode - b.inode))
  }

  lemma ToInt32Zero(d: int)
    ensures ToInt32(d) == 0 <==> Surviving(d) == 0
    ensures ToInt32(Surviving(d)) == ToInt32(d)
    ensures Surviving(-d) == -Surviving(d)
  {
  }

  lemma Comp1Decided(a: Entry, b: Entry)
    ensures Comp1(a, b) == ToInt32(Decided(a, b))
    ensures Decided(b, a) == -Decided(a, b) && Deciding(b, a) == -Deciding(a, b)
  {
    ToInt32Zero(a.length - b.length);
    ToInt32Zero(a.crc32 - b.crc32);
    ToInt32Zero(a.device - b.device);
    ToInt32Zero(a.inode - b.inode);
    hide ToInt32, Surviving;
  }

  lemma BeforeDeciding(a: Entry, b: Entry)
    ensures Before(a, b) <==> Deciding(a, b) <= 0
    ensures Before(b, a) <==> Deciding(a, b) >= 0
  {
  }

  /**
   * comp1 is right about two keys exactly when they are equal or the low 32 bits of the difference that decides,
   * taken as an int in the direction of the difference that should decide, are positive.
   */
  lemma Comp1AgreesIff(a: Entry, b: Entry)
    ensures Agrees(a, b) <==>
            var d, e := Deciding(a, b), Decided(a, b);
            d == 0 || ToInt32(if d > 0 then e else -e) > 0
  {
    Comp1Decided(a, b);
    Comp1Decided(b, a);
    BeforeDeciding(a, b);
    var d, e := Deciding(a, b), Decided(a, b);
    hide Comp1, Before;
    if d == 0 {
      assert e == 0;
    }
    OppositeInts(e);
  }

  lemma OppositeInts(e: int)
    ensures ToInt32(e) > 0 ==> ToInt32(-e) < 0
    ensures ToInt32(0) == 0
  {
  }

  predicate Fits(d: int) {
    -INT_LIMIT < d < INT_LIMIT
  }

  predicate Below4G(d: int) {
    -UINT_LIMIT < d < UINT_LIMIT
  }

  /** For differences of less than 2^32: exactly when the difference that should decide fits an int. */
  lemma Comp1AgreesIffFits(a: Entry, b: Entry)
    requires Below4G(a.length - b.length) && Below4G(a.crc32 - b.crc32)
    requires Below4G(a.device - b.device) && Below4G(a.inode - b.inode)
    ensures Agrees(a, b) <==> Fits(Deciding(a, b))
  {
    Comp1AgreesIff(a, b);
    SmallSurvives(a.length - b.length);
    SmallSurvives(a.crc32 - b.crc32);
    SmallSurvives(a.device - b.device);
    SmallSurvives(a.inode - b.inode);
    var d := Deciding(a, b);
    assert Decided(a, b) == d && Below4G(d);
    hide *;
    SmallSurvives(d);
    SmallSurvives(-d);
  }

  lemma SmallSurvives(d: int)
    requires -UINT_LIMIT < d < UINT_LIMIT
    ensures Surviving(d) == d
    ensures d > 0 ==> (ToInt32(d) > 0 <==> Fits(d)) && (Fits(d) <==> Fits(-d))
  {
  }

  // ---------------------------------------------------------------------------
  // What qsort demands and what it promises
  // ---------------------------------------------------------------------------

  predicate NotAfter(a: Entry, b: Entry) {
    Comp1(a, b) <= 0
  }

  ghost predicate Opposite(a: Entry, b: Entry) {
    Comp1(a, b) < 0 <==> Comp1(b, a) > 0
  }

  /** comp1 is a total ordering of these entries; without that the C standard promises nothing of qsort. */
  ghost predicate Ordering(s: seq<Entry>) {
    && (forall a, b | a in s && b in s :: Opposite(a, b))
    && (forall a, b, c | a in s && b in s && c in s && NotAfter(a, b) && NotAfter(b, c) :: NotAfter(a, c))
  }

  /** What qsort may leave: a permutation in which comp1 puts no entry after a later one. */
  ghost predicate Ascending(t: seq<Entry>) {
    forall i, j | 0 <= i < j < |t| :: NotAfter(t[i], t[j])
  }

  lemma NotAfterOne(a: Entry, b: Entry, s: seq<Entry>)
    requires Ordering(s) && a in s && b in s
    ensures NotAfter(a, b) || NotAfter(b, a)
  {
    assert Opposite(a, b);
  }

  lemma OrderingOfPart(s: seq<Entry>, t: seq<Entry>)
    requires Ordering(s) && forall a | a in t :: a in s
    ensures Ordering(t)
  {
  }

  ghost function Without<T>(s: seq<T>, i: nat): (t: seq<T>)
    requires i < |s|
    ensures |t| == |s| - 1
  {
    s[..i] + s[i + 1..]
  }

  lemma RemoveOne<T>(s: seq<T>, i: nat)
    requires i < |s|
    ensures multiset(Without(s, i)) == multiset(s) - multiset{s[i]}
  {
    assert s == s[..i] + [s[i]] + s[i + 1..];
  }

  lemma IndexOf<T>(s: seq<T>, x: T) returns (i: nat)
    requires x in multiset(s)
    ensures i < |s| && s[i] == x
  {
    assert x in s;
    i :| 0 <= i < |s| && s[i] == x;
  }

  lemma Twice<T>(s: seq<T>, i: nat, j: nat)
    requires i < j < |s| && s[i] == s[j]
    ensures multiset(s)[s[i]] >= 2
  {
    assert s == s[..i] + [s[i]] + s[i + 1..j] + [s[j]] + s[j + 1..];
  }

  lemma RemoveName(s: seq<Entry>, i: nat)
    requires i < |s|
    ensures multiset(Names(s)) == multiset(Names(Without(s, i))) + multiset{s[i].nameloc}
  {
    assert Names(s[..i] + s[i + 1..]) == Names(s)[..i] + Names(s)[i + 1..];
    assert Names(s) == Names(s)[..i] + [s[i].nameloc] + Names(s)[i + 1..];
  }

  lemma {:induction false} SameMultisetSameNames(s: seq<Entry>, t: seq<Entry>)
    requires multiset(s) == multiset(t)
    ensures multiset(Names(s)) == multiset(Names(t))
    decreases |s|
  {
    if s == [] {
      assert t == [];
    } else {
      assert s[0] in multiset(s);
      var i := IndexOf(t, s[0]);
      RemoveOne(s, 0);
      RemoveOne(t, i);
      RemoveName(s, 0);
      RemoveName(t, i);
      hide Names, Without;
      SameMultisetSameNames(Without(s, 0), Without(t, i));
    }
  }

  lemma {:induction false} NoRepeatsOnce(s: seq<nat>)
    requires NoRepeats(s)
    ensures forall k | k in s :: multiset(s)[k] == 1
  {
    if s != [] {
      assert s == [s[0]] + s[1..];
      NoRepeatsOnce(s[1..]);
      assert s[0] !in s[1..];
      assert multiset(s) == multiset{s[0]} + multiset(s[1..]);
    }
  }

  lemma PermutedNoRepeats(s: seq<nat>, t: seq<nat>)
    requires NoRepeats(s) && multiset(s) == multiset(t)
    ensures NoRepeats(t)
    ensures forall k :: k in t <==> k in s
  {
    NoRepeatsOnce(s);
    forall k
      ensures k in t <==> k in s
    {
      assert k in t <==> k in multiset(t);
      assert k in s <==> k in multiset(s);
    }
    forall i, j | 0 <= i < j < |t|
      ensures t[i] != t[j]
    {
      assert t[i] in s;
      if t[i] == t[j] {
        Twice(t, i, j);
      }
    }
  }

  /** One way to sort: every entry goes in front of the first it does not come after. */
  function Insert(e: Entry, s: seq<Entry>): (t: seq<Entry>)
    ensures multiset(t) == multiset(s) + multiset{e}
  {
    if s == [] then [e]
    else if NotAfter(e, s[0]) then [e] + s
    else
      assert s == [s[0]] + s[1..];
      [s[0]] + Insert(e, s[1..])
  }

  function SortedCopy(s: seq<Entry>): (t: seq<Entry>)
    ensures multiset(t) == multiset(s)
  {
    if s == [] then []
    else
      assert s == [s[0]] + s[1..];
      Insert(s[0], SortedCopy(s[1..]))
  }

  lemma InsertedBehind(e: Entry, s: seq<Entry>, k: nat)
    requires s != [] && !NotAfter(e, s[0]) && k <= |s[1..]| && Insert(e, s[1..]) == s[1..][..k] + [e] + s[1..][k..]
    ensures Insert(e, s) == s[..k + 1] + [e] + s[k + 1..]
  {
    hide NotAfter;
    assert Insert(e, s) == [s[0]] + (s[1..][..k] + [e] + s[1..][k..]);
    hide *;
    assert s[..k + 1] == [s[0]] + s[1..][..k];
    assert s[k + 1..] == s[1..][k..];
  }

  lemma {:induction false} InsertAt(e: Entry, s: seq<Entry>) returns (k: nat)
    ensures k <= |s| && Insert(e, s) == s[..k] + [e] + s[k..]
    ensures forall i | 0 <= i < k :: !NotAfter(e, s[i])
    ensures k < |s| ==> NotAfter(e, s[k])
  {
    hide NotAfter;
    if s == [] || NotAfter(e, s[0]) {
      k := 0;
    } else {
      k := InsertAt(e, s[1..]);
      InsertedBehind(e, s, k);
      k := k + 1;
    }
  }

  lemma InsertAscends(e: Entry, s: seq<Entry>)
    requires Ordering([e] + s) && Ascending(s)
    ensures Ascending(Insert(e, s))
  {
    var k := InsertAt(e, s);
    var t := Insert(e, s);
    var all := [e] + s;
    assert forall x | x in s :: x in all;
    assert e in all;
    forall i | 0 <= i < |s|
      ensures i < k ==> NotAfter(s[i], e)
      ensures k <= i ==> NotAfter(e, s[i])
    {
      NotAfterOne(e, s[i], all);
      assert k < i ==> NotAfter(s[k], s[i]);
    }
    hide NotAfter, Insert;
  }

  lemma {:induction false} SortedCopyAscends(s: seq<Entry>)
    requires Ordering(s)
    ensures Ascending(SortedCopy(s))
  {
    hide Ordering, Ascending, NotAfter, Insert;
    if s != [] {
      OrderingOfPart(s, s[1..]);
      SortedCopyAscends(s[1..]);
      var t := SortedCopy(s[1..]);
      forall a | a in [s[0]] + t
        ensures a in s
      {
        SameMembers(s[1..], t, a);
      }
      OrderingOfPart(s, [s[0]] + t);
      InsertAscends(s[0], t);
    } else {
      assert Ascending([]) by {
        NothingAscends();
      }
    }
  }

  lemma NothingAscends()
    ensures Ascending([])
  {
  }

  lemma SameMembers<T>(s: seq<T>, t: seq<T>, x: T)
    requires multiset(s) == multiset(t)
    ensures x in s <==> x in t
  {
    assert x in s <==> x in multiset(s);
    assert x in t <==> x in multiset(t);
  }

  // ---------------------------------------------------------------------------
  // What the scans need
  // ---------------------------------------------------------------------------

  /** c, met between a and b, has the length that they share. */
  predicate KeepsLength(a: Entry, c: Entry, b: Entry) {
    a.length == b.length ==> c.length == a.length
  }

  /** c has the (length, crc) bucket and within that the inode that a and b share. */
  predicate KeepsKey(a: Entry, c: Entry, b: Entry) {
    && (SameBucket(a, b) ==> SameBucket(a, c))
    && (SameBucket(a, b) && SameInode(a, b) ==> SameInode(a, c))
  }

  /** scan1 looks at neighbours only: equal lengths must be contiguous. */
  ghost predicate LengthsTogether(t: seq<Entry>) {
    forall i, k, j | 0 <= i < k < j < |t| :: KeepsLength(t[i], t[k], t[j])
  }

  /** scan2 stops at the end of a run: equal buckets must be contiguous, and in a bucket equal inodes. */
  ghost predicate Arranged(t: seq<Entry>) {
    forall i, k, j | 0 <= i < k < j < |t| :: KeepsKey(t[i], t[k], t[j])
  }

  ghost predicate Between(a: Entry, c: Entry, b: Entry) {
    && a.nameloc != c.nameloc && c.nameloc != b.nameloc && a.nameloc != b.nameloc
    && NotAfter(a, c) && NotAfter(c, b)
  }

  ghost predicate UnmixedLengths(s: seq<Entry>) {
    forall a, c, b | a in s && c in s && b in s && Between(a, c, b) :: KeepsLength(a, c, b)
  }

  /** comp1 puts no entry between two that share a key it does not have. */
  ghost predicate Unmixed(s: seq<Entry>) {
    forall a, c, b | a in s && c in s && b in s && Between(a, c, b) :: KeepsKey(a, c, b)
  }

  lemma AscendingBetween(t: seq<Entry>, i: nat, k: nat, j: nat)
    requires Ascending(t) && NoRepeats(Names(t)) && i < k < j < |t|
    ensures Between(t[i], t[k], t[j])
  {
    assert Names(t)[i] != Names(t)[k] && Names(t)[k] != Names(t)[j] && Names(t)[i] != Names(t)[j];
  }

  lemma UnmixedLengthsTogether(s: seq<Entry>, t: seq<Entry>)
    requires UnmixedLengths(s) && Ascending(t) && NoRepeats(Names(t)) && forall a | a in t :: a in s
    ensures LengthsTogether(t)
  {
    hide Between, KeepsLength, Ascending, Names, NoRepeats;
    forall i, k, j | 0 <= i < k < j < |t|
      ensures KeepsLength(t[i], t[k], t[j])
    {
      AscendingBetween(t, i, k, j);
    }
  }

  lemma UnmixedArranged(s: seq<Entry>, t: seq<Entry>)
    requires Unmixed(s) && Ascending(t) && NoRepeats(Names(t)) && forall a | a in t :: a in s
    ensures Arranged(t)
  {
    hide Between, KeepsKey, Ascending, Names, NoRepeats;
    forall i, k, j | 0 <= i < k < j < |t|
      ensures KeepsKey(t[i], t[k], t[j])
    {
      AscendingBetween(t, i, k, j);
    }
  }

  // ---------------------------------------------------------------------------
  // When the sort serves the scans
  // ---------------------------------------------------------------------------

  lemma Extract(s: seq<Entry>, x: Entry) returns (rest: seq<Entry>)
    requires x in s
    ensures multiset(s) == multiset([x] + rest)
    ensures forall y | y in s && y != x :: y in rest
  {
    var i :| 0 <= i < |s| && s[i] == x;
    rest := Without(s, i);
    assert s == s[..i] + [x] + s[i + 1..];
    forall y | y in s && y != x
      ensures y in rest
    {
      var j :| 0 <= j < |s| && s[j] == y;
      assert j < i ==> rest[j] == y;
      assert i < j ==> rest[j - 1] == y;
    }
  }

  /** An entry goes in front of every one that it does not come after. */
  lemma InsertInFront(e: Entry, s: seq<Entry>, p: nat) returns (k: nat)
    requires p < |s| ==> NotAfter(e, s[p])
    requires p <= |s|
    ensures |Insert(e, s)| == |s| + 1 && k <= p && Insert(e, s)[k] == e
    ensures forall q | p <= q < |s| :: Insert(e, s)[q + 1] == s[q]
  {
    k := InsertAt(e, s);
    hide Insert, NotAfter;
  }

  /** Three entries that comp1 puts in a row come out in that row from some sort. */
  lemma Interleave(s: seq<Entry>, a: Entry, c: Entry, b: Entry) returns (t: seq<Entry>, i: nat, k: nat, j: nat)
    requires Ordering(s) && a in s && c in s && b in s && Between(a, c, b)
    ensures multiset(t) == multiset(s) && Ascending(t)
    ensures i < k < j < |t| && t[i] == a && t[k] == c && t[j] == b
  {
    var r1 := Extract(s, a);
    var r2 := Extract(r1, c);
    var r3 := Extract(r2, b);
    var row := [a] + ([c] + ([b] + r3));
    Triple(s, a, c, b, r1, r2, r3);
    t := SortedCopy(row);
    i, k, j := InARow(a, c, b, r3);
    hide Ordering, Ascending, SortedCopy;
    forall x | x in row
      ensures x in s
    {
      SameMembers(s, row, x);
    }
    OrderingOfPart(s, row);
    SortedCopyAscends(row);
  }

  lemma InARow(a: Entry, c: Entry, b: Entry, rest: seq<Entry>) returns (i: nat, k: nat, j: nat)
    requires NotAfter(a, c) && NotAfter(c, b)
    ensures var t := SortedCopy([a] + ([c] + ([b] + rest)));
            i < k < j < |t| && t[i] == a && t[k] == c && t[j] == b
  {
    SortedCopyFirst(b, rest);
    SortedCopyFirst(c, [b] + rest);
    SortedCopyFirst(a, [c] + ([b] + rest));
    var t0 := SortedCopy(rest);
    hide NotAfter, SortedCopy, Insert;
    var kb := InsertInFront(b, t0, |t0|);
    var t1 := Insert(b, t0);
    var kc := InsertInFront(c, t1, kb);
    var t2 := Insert(c, t1);
    var ka := InsertInFront(a, t2, kc);
    i, k, j := ka, kc + 1, kb + 2;
  }

  lemma SortedCopyFirst(e: Entry, s: seq<Entry>)
    ensures SortedCopy([e] + s) == Insert(e, SortedCopy(s))
  {
    assert ([e] + s)[1..] == s;
  }

  lemma Triple(s: seq<Entry>, a: Entry, c: Entry, b: Entry, r1: seq<Entry>, r2: seq<Entry>, r3: seq<Entry>)
    requires multiset(s) == multiset([a] + r1) && multiset(r1) == multiset([c] + r2)
             && multiset(r2) == multiset([b] + r3)
    ensures multiset([a] + ([c] + ([b] + r3))) == multiset(s)
  {
  }

  lemma PermutedNames(s: seq<Entry>, t: seq<Entry>)
    requires multiset(s) == multiset(t) && NoRepeats(Names(s))
    ensures NoRepeats(Names(t)) && forall a :: a in t <==> a in s
  {
    SameMultisetSameNames(s, t);
    PermutedNoRepeats(Names(s), Names(t));
    forall a: Entry
      ensures a in t <==> a in s
    {
      SameMembers(s, t, a);
    }
  }

  /**
   * Every sorted list keeps equal lengths together exactly when comp1 puts no length between two others that are equal.
   */
  lemma LengthsTogetherIff(s: seq<Entry>)
    requires Ordering(s) && NoRepeats(Names(s))
    ensures (forall t | multiset(t) == multiset(s) && Ascending(t) :: LengthsTogether(t)) <==> UnmixedLengths(s)
  {
    hide Ordering, Ascending, Names, NoRepeats;
    if UnmixedLengths(s) {
      forall t | multiset(t) == multiset(s) && Ascending(t)
        ensures LengthsTogether(t)
      {
        PermutedNames(s, t);
        UnmixedLengthsTogether(s, t);
      }
    } else {
      var a, c, b :| a in s && c in s && b in s && Between(a, c, b) && !KeepsLength(a, c, b);
      var t, i, k, j := Interleave(s, a, c, b);
      assert !KeepsLength(t[i], t[k], t[j]);
    }
  }

  /** And it is arranged as the scans need exactly when comp1 mixes no keys. */
  lemma ArrangedIff(s: seq<Entry>)
    requires Ordering(s) && NoRepeats(Names(s))
    ensures (forall t | multiset(t) == multiset(s) && Ascending(t) :: Arranged(t)) <==> Unmixed(s)
  {
    hide Ordering, Ascending, Names, NoRepeats;
    if Unmixed(s) {
      forall t | multiset(t) == multiset(s) && Ascending(t)
        ensures Arranged(t)
      {
        PermutedNames(s, t);
        UnmixedArranged(s, t);
      }
    } else {
      var a, c, b :| a in s && c in s && b in s && Between(a, c, b) && !KeepsKey(a, c, b);
      var t, i, k, j := Interleave(s, a, c, b);
      assert !KeepsKey(t[i], t[k], t[j]);
    }
  }

  /** Where comp1 is right about every two keys, it is an ordering and mixes none. */
  lemma AgreeingSuffices(s: seq<Entry>)
    requires forall a, b | a in s && b in s :: Agrees(a, b)
    ensures Ordering(s) && Unmixed(s) && UnmixedLengths(s)
  {
    forall a, b | a in s && b in s
      ensures Opposite(a, b)
      ensures NotAfter(a, b) <==> Before(a, b)
    {
      assert Agrees(a, b);
      AgreeingOpposite(a, b);
    }
    hide Comp1, Agrees;
    forall a, c, b | a in s && c in s && b in s && Between(a, c, b)
      ensures KeepsKey(a, c, b)
    {
      assert Before(a, c) && Before(c, b);
    }
  }

  lemma AgreeingOpposite(a: Entry, b: Entry)
    requires Agrees(a, b)
    ensures Opposite(a, b)
  {
    Comp1Decided(a, b);
    Comp1Decided(b, a);
    Comp1AgreesIff(a, b);
    BeforeDeciding(a, b);
    hide Comp1, Before;
    OppositeInts(Decided(a, b));
    OppositeInts(-Decided(a, b));
    assert Deciding(a, b) == 0 ==> Decided(a, b) == 0;
  }

  /** Two keys that differ by less than 2^32 in every field. */
  predicate Near(a: Entry, b: Entry) {
    && Below4G(a.length - b.length) && Below4G(a.crc32 - b.crc32)
    && Below4G(a.device - b.device) && Below4G(a.inode - b.inode)
  }

  lemma NearKept(a: Entry, c: Entry, b: Entry)
    requires Near(a, c) && Near(c, b) && Opposite(a, c)
    requires NotAfter(a, c) && NotAfter(c, b)
    ensures KeepsLength(a, c, b) && KeepsKey(a, c, b)
  {
    SmallSurvives(a.length - c.length);
    SmallSurvives(a.crc32 - c.crc32);
    SmallSurvives(a.device - c.device);
    SmallSurvives(a.inode - c.inode);
    ToInt32Zero(a.length - c.length);
    ToInt32Zero(a.crc32 - c.crc32);
    ToInt32Zero(a.device - c.device);
    ToInt32Zero(a.inode - c.inode);
    ToInt32Zero(c.length - a.length);
    ToInt32Zero(c.crc32 - a.crc32);
    ToInt32Zero(c.device - a.device);
    hide ToInt32, Surviving;
  }

  /** Among keys that are near one another a total ordering mixes none: what qsort asks for is all there is to ask. */
  lemma OrderingSuffices(s: seq<Entry>)
    requires Ordering(s) && forall a, b | a in s && b in s :: Near(a, b)
    ensures UnmixedLengths(s) && Unmixed(s)
  {
    forall a, c, b | a in s && c in s && b in s && Between(a, c, b)
      ensures KeepsLength(a, c, b) && KeepsKey(a, c, b)
    {
      assert Near(a, c) && Near(c, b);
      assert Opposite(a, c);
      NearKept(a, c, b);
    }
  }
}
