/**
 * The second half of scan2 of hw2/src/finddup.c, without its link shortcut: every entry of a
 * (length, crc) bucket is compared in full, and matching entries are rotated up behind the first.
 */
module FinddupRegroup {
  import opened Prelude
  import opened FinddupFiles
  import opened FinddupSort

  // ---------------------------------------------------------------------------
  // The loops as functions
  // ---------------------------------------------------------------------------

  predicate Matches(files: seq<File>, a: Entry, b: Entry) {
    FullCmp(Content(files, a), Content(files, b)) == 0
  }

  function SetDup(e: Entry): Entry {
    e.(flags := e.flags.(dup := true))
  }

  /** Entry hi moves to index lo; those from lo to hi - 1 move down by one. */
  function Rotate(s: seq<Entry>, lo: nat, hi: nat): (t: seq<Entry>)
    requires lo <= hi < |s|
    ensures |t| == |s|
  {
    s[..lo] + [s[hi]] + s[lo..hi] + s[hi + 1..]
  }

  /** A match at ix2: it is flagged, and moved unless it is where lastix points already. */
  function Take(s: seq<Entry>, ix2: nat, lastix: nat): (t: seq<Entry>)
    requires lastix <= ix2 < |s|
    ensures |t| == |s|
  {
    Rotate(s[ix2 := SetDup(s[ix2])], lastix, ix2)
  }

  /** The inner loop. Note that lastix is not advanced by a match that need not move. */
  function Inner(files: seq<File>, s: seq<Entry>, ix: nat, ix2: nat, lastix: nat): (r: (seq<Entry>, nat))
    requires ix < lastix <= ix2 <= |s|
    ensures |r.0| == |s| && lastix <= r.1 <= |s|
    decreases |s| - ix2
  {
    if ix2 < |s| && SameBucket(s[ix], s[ix2]) then
      if Matches(files, s[ix], s[ix2]) then
        Inner(files, Take(s, ix2, lastix), ix, ix2 + 1, if lastix != ix2 then lastix + 1 else lastix)
      else
        Inner(files, s, ix, ix2 + 1, lastix)
    else
      (s, lastix)
  }

  /** The outer loop; it always advances. */
  function Outer(files: seq<File>, s: seq<Entry>, ix: nat): (t: seq<Entry>)
    ensures |t| == |s|
    decreases |s| - ix
  {
    if ix < |s| then
      var r := Inner(files, s, ix, ix + 1, ix + 1);
      Outer(files, r.0, r.1)
    else s
  }

  // ---------------------------------------------------------------------------
  // What is known of the entries
  // ---------------------------------------------------------------------------

  /** The descriptor of a name, its FL_DUP flag aside: a function of the files, the shared lengths and the links. */
  ghost function Descriptor(files: seq<File>, shared: set<nat>, links: set<nat>, k: nat): Entry
    requires k < |files|
  {
    var c := files[k].content;
    Entry(|c|, if |c| in shared then FileCrc(c) else 0, files[k].device, files[k].inode, k,
          Flags(|c| in shared, false, k in links))
  }

  function ClearDup(e: Entry): Entry {
    e.(flags := e.flags.(dup := false))
  }

  ghost predicate Described(files: seq<File>, shared: set<nat>, links: set<nat>, e: Entry) {
    e.nameloc < |files| && ClearDup(e) == Descriptor(files, shared, links, e.nameloc)
  }

  /** Every entry describes its file, and no two describe one. */
  ghost predicate AllDescribed(files: seq<File>, shared: set<nat>, links: set<nat>, s: seq<Entry>) {
    && (forall i | 0 <= i < |s| :: Described(files, shared, links, s[i]))
    && (forall i, j | 0 <= i < j < |s| :: s[i].nameloc != s[j].nameloc)
  }

  /** Two files that scan2 may compare in full: one length, and one checksum if that has been computed. */
  predicate MayMeet(files: seq<File>, shared: set<nat>, j: nat, k: nat)
    requires j < |files| && k < |files|
  {
    var a, b := files[j].content, files[k].content;
    |a| == |b| && (|a| in shared ==> FileCrc(a) == FileCrc(b))
  }

  /** fullcmp is right about any two of them. */
  ghost predicate Comparable(files: seq<File>, shared: set<nat>) {
    forall j: nat, k: nat | j < |files| && k < |files| && j != k && MayMeet(files, shared, j, k) ::
      FullCmp(files[j].content, files[k].content) == 0 <==> files[j].content == files[k].content
  }

  /** Equal contents share their bucket. */
  lemma EqualShareBucket(files: seq<File>, shared: set<nat>, links: set<nat>, a: Entry, b: Entry)
    requires Described(files, shared, links, a) && Described(files, shared, links, b)
    requires Content(files, a) == Content(files, b)
    ensures SameBucket(a, b)
  {
    hide FileCrc;
    assert ClearDup(a).length == a.length && ClearDup(b).length == b.length;
    assert ClearDup(a).crc32 == a.crc32 && ClearDup(b).crc32 == b.crc32;
  }

  /** Inside a bucket the full comparison is exact. */
  lemma MatchIsEquality(files: seq<File>, shared: set<nat>, links: set<nat>, a: Entry, b: Entry)
    requires Comparable(files, shared) && a.nameloc != b.nameloc && SameBucket(a, b)
    requires Described(files, shared, links, a) && Described(files, shared, links, b)
    ensures Matches(files, a, b) <==> Content(files, a) == Content(files, b)
  {
    hide FileCrc, FullCmp;
    assert ClearDup(a).length == a.length && ClearDup(b).length == b.length;
    assert ClearDup(a).crc32 == a.crc32 && ClearDup(b).crc32 == b.crc32;
    assert MayMeet(files, shared, a.nameloc, b.nameloc);
  }

  lemma SameInodeSameContent(files: seq<File>, shared: set<nat>, links: set<nat>, a: Entry, b: Entry)
    requires Consistent(files)
    requires Described(files, shared, links, a) && Described(files, shared, links, b)
    requires SameInode(a, b)
    ensures Content(files, a) == Content(files, b)
  {
    hide FileCrc;
    assert ClearDup(a).device == a.device && ClearDup(b).device == b.device;
    assert ClearDup(a).inode == a.inode && ClearDup(b).inode == b.inode;
  }

  // ---------------------------------------------------------------------------
  // Invariants
  // ---------------------------------------------------------------------------

  /** Equal buckets are contiguous. */
  ghost predicate BucketsTogether(s: seq<Entry>) {
    forall i, k, j | 0 <= i < k < j < |s| && SameBucket(s[i], s[j]) :: SameBucket(s[i], s[k])
  }

  /** Entry j was marked as a link because the entry before it, from lo on, has its inode. */
  ghost predicate LinkFollows(s: seq<Entry>, lo: nat, j: nat)
    requires j < |s|
  {
    s[j].flags.lnk ==> j > lo && SameInode(s[j - 1], s[j])
  }

  /** Entry j has the content of the entry before it. */
  ghost predicate FollowsEqual(files: seq<File>, s: seq<Entry>, j: nat)
    requires j < |s|
  {
    j > 0 && Content(files, s[j - 1]) == Content(files, s[j])
  }

  /** Entry j has the inode of the entry before it. */
  predicate FollowsInode(s: seq<Entry>, j: nat)
    requires j < |s|
  {
    j > 0 && SameInode(s[j - 1], s[j])
  }

  /** The first h entries are grouped: equal contents are contiguous and FL_DUP says "same as the one before". */
  ghost predicate GroupedUpTo(files: seq<File>, s: seq<Entry>, h: nat)
    requires h <= |s|
  {
    && (forall i, j | 0 <= i < j < h && Content(files, s[i]) == Content(files, s[j]) :: FollowsEqual(files, s, j))
    && (forall j | 0 <= j < h :: s[j].flags.dup <==> FollowsEqual(files, s, j))
    && (forall j | 0 <= j < h :: s[j].flags.lnk ==> s[j].flags.dup)
  }

  /** No content of the first h entries occurs from k on. */
  ghost predicate Apart(files: seq<File>, s: seq<Entry>, h: nat, k: nat)
    requires h <= |s|
  {
    forall i, j | 0 <= i < h && k <= j < |s| :: Content(files, s[i]) != Content(files, s[j])
  }

  /** From h on nothing has been touched but the order. */
  ghost predicate Untouched(s: seq<Entry>, h: nat) {
    && (forall j | h <= j < |s| :: !s[j].flags.dup)
    && (forall j: nat | h <= j < |s| :: LinkFollows(s, h, j))
  }

  /**
   * Before an outer iteration: h is ix, or ix + 1 when entry ix is a duplicate left over from the class just
   * built, from which that class is about to be scanned again.
   */
  ghost predicate OuterInv(files: seq<File>, s: seq<Entry>, ix: nat, h: nat) {
    && ix <= h <= |s| && h <= ix + 1
    && (h == ix + 1 ==> s[ix].flags.dup)
    && BucketsTogether(s)
    && GroupedUpTo(files, s, h)
    && Apart(files, s, h, h)
    && Untouched(s, h)
  }

  /** Entries ix to e - 1 are the class of ix so far; e is lastix, or lastix + 1 after an adjacent first match. */
  ghost predicate ClassSoFar(files: seq<File>, s: seq<Entry>, ix: nat, e: nat)
    requires ix < e <= |s|
  {
    forall j | ix < j < e :: Content(files, s[j]) == Content(files, s[ix]) && s[j].flags.dup
  }

  /** Entries e to ix2 - 1 were scanned and differ from ix. */
  ghost predicate Passed(files: seq<File>, s: seq<Entry>, ix: nat, e: nat, ix2: nat)
    requires ix < e <= ix2 <= |s|
  {
    forall j | e <= j < ix2 :: Content(files, s[j]) != Content(files, s[ix])
  }

  /** Links among the entries outside the class; the one at ix2 follows the entry scanned last. */
  ghost predicate Links(files: seq<File>, s: seq<Entry>, ix: nat, e: nat, ix2: nat, lnkmatch: bool)
    requires ix < e <= ix2 <= |s|
  {
    && (forall j | e <= j < |s| :: !s[j].flags.dup)
    && (forall j: nat | e <= j < |s| && j != ix2 :: LinkFollows(s, e, j))
    && (ix2 < |s| && s[ix2].flags.lnk ==>
          if lnkmatch then Content(files, s[ix2]) == Content(files, s[ix])
          else ix2 > e && SameInode(s[ix2 - 1], s[ix2]))
  }

  ghost predicate InnerInv(files: seq<File>, s: seq<Entry>, ix: nat, ix2: nat, lastix: nat, e: nat, lnkmatch: bool) {
    && ix < lastix <= e <= lastix + 1 && e <= ix2 <= |s|
    && BucketsTogether(s)
    && GroupedUpTo(files, s, ix + 1)
    && Apart(files, s, ix, ix + 1)
    && ClassSoFar(files, s, ix, e)
    && Passed(files, s, ix, e, ix2)
    && Links(files, s, ix, e, ix2, lnkmatch)
  }

  // ---------------------------------------------------------------------------
  // The steps keep the invariants
  // ---------------------------------------------------------------------------

  lemma TakeAt(s: seq<Entry>, ix2: nat, lastix: nat, j: nat)
    requires lastix <= ix2 < |s| && j < |s|
    ensures Take(s, ix2, lastix)[j] ==
            if j == lastix then SetDup(s[ix2]) else if lastix < j <= ix2 then s[j - 1] else s[j]
  {
  }

  lemma TakeNames(s: seq<Entry>, ix2: nat, lastix: nat)
    requires lastix <= ix2 < |s|
    ensures multiset(Names(Take(s, ix2, lastix))) == multiset(Names(s))
  {
    var n := Names(s);
    var a, b, c, d := n[..lastix], n[lastix..ix2], [n[ix2]], n[ix2 + 1..];
    assert n == a + b + c + d;
    assert Names(Take(s, ix2, lastix)) == a + c + b + d;
  }

  lemma TakeDescribed(files: seq<File>, shared: set<nat>, links: set<nat>, s: seq<Entry>, ix2: nat, lastix: nat)
    requires lastix <= ix2 < |s|
    requires AllDescribed(files, shared, links, s)
    ensures AllDescribed(files, shared, links, Take(s, ix2, lastix))
  {
    hide Take, Descriptor;
    forall j | 0 <= j < |s|
      ensures Described(files, shared, links, Take(s, ix2, lastix)[j])
    {
      TakeAt(s, ix2, lastix, j);
      assert ClearDup(SetDup(s[ix2])) == ClearDup(s[ix2]);
    }
    TakeNames(s, ix2, lastix);
    DistinctNames(s, Take(s, ix2, lastix));
  }

  lemma DistinctNames(s: seq<Entry>, t: seq<Entry>)
    requires multiset(Names(s)) == multiset(Names(t))
    requires forall i, j | 0 <= i < j < |s| :: s[i].nameloc != s[j].nameloc
    ensures forall i, j | 0 <= i < j < |t| :: t[i].nameloc != t[j].nameloc
  {
    assert NoRepeats(Names(s));
    PermutedNoRepeats(Names(s), Names(t));
    forall i, j | 0 <= i < j < |t|
      ensures t[i].nameloc != t[j].nameloc
    {
      assert Names(t)[i] != Names(t)[j];
    }
  }

  lemma TakeOrder(s: seq<Entry>, ix: nat, ix2: nat, lastix: nat)
    requires ix < lastix <= ix2 < |s|
    requires BucketsTogether(s) && SameBucket(s[ix], s[ix2])
    ensures BucketsTogether(Take(s, ix2, lastix))
  {
    var t := Take(s, ix2, lastix);
    forall j | 0 <= j < |s|
      ensures SameBucket(t[j], s[j])
    {
      TakeAt(s, ix2, lastix, j);
      hide Take;
      assert lastix <= j < ix2 ==> SameBucket(s[ix], s[j]);
      assert lastix < j <= ix2 ==> j - 1 == ix || SameBucket(s[ix], s[j - 1]);
    }
    hide Take;
    SameBucketsTogether(s, t);
  }

  lemma SameBucketsTogether(s: seq<Entry>, t: seq<Entry>)
    requires |s| == |t| && BucketsTogether(s) && forall j | 0 <= j < |s| :: SameBucket(t[j], s[j])
    ensures BucketsTogether(t)
  {
    forall i, k, j | 0 <= i < k < j < |t| && SameBucket(t[i], t[j])
      ensures SameBucket(t[i], t[k])
    {
      assert SameBucket(t[i], s[i]) && SameBucket(t[k], s[k]) && SameBucket(t[j], s[j]);
      assert SameBucket(s[i], s[k]);
    }
  }

  lemma TakeContents(files: seq<File>, s: seq<Entry>, ix2: nat, lastix: nat)
    requires lastix <= ix2 < |s|
    ensures var e := Take(s, ix2, lastix)[lastix];
            e == SetDup(s[ix2]) && Content(files, e) == Content(files, s[ix2])
    ensures forall j | lastix < j <= ix2 :: Take(s, ix2, lastix)[j] == s[j - 1]
    ensures forall j | 0 <= j < lastix || ix2 < j < |s| :: Take(s, ix2, lastix)[j] == s[j]
  {
    forall j | 0 <= j < |s|
      ensures Take(s, ix2, lastix)[j] ==
              if j == lastix then SetDup(s[ix2]) else if lastix < j <= ix2 then s[j - 1] else s[j]
    {
      TakeAt(s, ix2, lastix, j);
    }
  }

  lemma SamePrefixGrouped(files: seq<File>, s: seq<Entry>, t: seq<Entry>, h: nat)
    requires h <= |s| == |t|
    requires forall j | 0 <= j < h :: t[j] == s[j]
    requires GroupedUpTo(files, s, h)
    ensures GroupedUpTo(files, t, h)
  {
    hide Content;
    forall i, j | 0 <= i < j < h && Content(files, t[i]) == Content(files, t[j])
      ensures FollowsEqual(files, t, j)
    {
      assert FollowsEqual(files, s, j);
    }
    forall j | 0 <= j < h
      ensures t[j].flags.dup <==> FollowsEqual(files, t, j)
    {
      assert s[j].flags.dup <==> FollowsEqual(files, s, j);
    }
  }

  lemma TakeGrouped(files: seq<File>, s: seq<Entry>, ix: nat, ix2: nat, lastix: nat)
    requires ix < lastix <= ix2 < |s|
    requires GroupedUpTo(files, s, ix + 1)
    ensures GroupedUpTo(files, Take(s, ix2, lastix), ix + 1)
  {
    var t := Take(s, ix2, lastix);
    forall j | 0 <= j < ix + 1
      ensures t[j] == s[j]
    {
      TakeAt(s, ix2, lastix, j);
    }
    hide Take;
    SamePrefixGrouped(files, s, t, ix + 1);
  }

  lemma TakeApart(files: seq<File>, s: seq<Entry>, ix: nat, ix2: nat, lastix: nat)
    requires ix < lastix <= ix2 < |s|
    requires Apart(files, s, ix, ix + 1)
    ensures Apart(files, Take(s, ix2, lastix), ix, ix + 1)
  {
    TakeContents(files, s, ix2, lastix);
    hide Take, Content;
  }

  lemma TakeClass(files: seq<File>, s: seq<Entry>, ix: nat, ix2: nat, lastix: nat, e: nat)
    requires ix < lastix <= e <= lastix + 1 && e <= ix2 < |s|
    requires ClassSoFar(files, s, ix, e) && Content(files, s[ix2]) == Content(files, s[ix])
    ensures ClassSoFar(files, Take(s, ix2, lastix), ix, e + 1)
  {
    TakeContents(files, s, ix2, lastix);
    hide Take, Content;
  }

  lemma TakePassed(files: seq<File>, s: seq<Entry>, ix: nat, ix2: nat, lastix: nat, e: nat)
    requires ix < lastix <= e <= lastix + 1 && e <= ix2 < |s|
    requires Passed(files, s, ix, e, ix2)
    ensures Passed(files, Take(s, ix2, lastix), ix, e + 1, ix2 + 1)
  {
    TakeContents(files, s, ix2, lastix);
    hide Take, Content;
  }

  lemma TakeLinks(files: seq<File>, shared: set<nat>, links: set<nat>,
                  s: seq<Entry>, ix: nat, ix2: nat, lastix: nat, e: nat, lnkmatch: bool)
    requires ix < lastix <= e <= lastix + 1 && e <= ix2 < |s|
    requires Consistent(files) && AllDescribed(files, shared, links, s)
    requires Links(files, s, ix, e, ix2, lnkmatch) && Content(files, s[ix2]) == Content(files, s[ix])
    ensures Links(files, Take(s, ix2, lastix), ix, e + 1, ix2 + 1, true)
  {
    var t := Take(s, ix2, lastix);
    TakeContents(files, s, ix2, lastix);
    hide Take, Content, Descriptor;
    forall j | e + 1 <= j < |t|
      ensures !t[j].flags.dup
    {
    }
    var e' := e + 1;
    forall j: nat | e' <= j < |t|
      ensures j != ix2 + 1 ==> LinkFollows(t, e', j)
    {
      if j <= ix2 {
        assert LinkFollows(s, e, j - 1);
      } else if j > ix2 + 1 {
        assert LinkFollows(s, e, j);
      }
    }
    if ix2 + 1 < |s| && s[ix2 + 1].flags.lnk {
      assert LinkFollows(s, e, ix2 + 1);
      SameInodeSameContent(files, shared, links, s[ix2], s[ix2 + 1]);
    }
  }

  /** A match extends the class by one; what was scanned and passed over stays in order behind it. */
  lemma InnerMatch(files: seq<File>, shared: set<nat>, links: set<nat>,
                   s: seq<Entry>, ix: nat, ix2: nat, lastix: nat, e: nat, lnkmatch: bool)
    requires Consistent(files) && AllDescribed(files, shared, links, s)
    requires InnerInv(files, s, ix, ix2, lastix, e, lnkmatch)
    requires ix2 < |s| && SameBucket(s[ix], s[ix2])
    requires Content(files, s[ix]) == Content(files, s[ix2])
    ensures InnerInv(files, Take(s, ix2, lastix), ix, ix2 + 1, if lastix != ix2 then lastix + 1 else lastix, e + 1,
                     true)
  {
    hide BucketsTogether, GroupedUpTo, Apart, ClassSoFar, Passed, Links, AllDescribed, Consistent;
    TakeOrder(s, ix, ix2, lastix);
    TakeGrouped(files, s, ix, ix2, lastix);
    TakeApart(files, s, ix, ix2, lastix);
    TakeClass(files, s, ix, ix2, lastix, e);
    TakePassed(files, s, ix, ix2, lastix, e);
    TakeLinks(files, shared, links, s, ix, ix2, lastix, e, lnkmatch);
  }

  lemma InnerMiss(files: seq<File>, s: seq<Entry>, ix: nat, ix2: nat, lastix: nat, e: nat, lnkmatch: bool)
    requires InnerInv(files, s, ix, ix2, lastix, e, lnkmatch)
    requires ix2 < |s| && Content(files, s[ix]) != Content(files, s[ix2])
    ensures InnerInv(files, s, ix, ix2 + 1, lastix, e, false)
  {
    hide BucketsTogether, GroupedUpTo, Apart;
    assert Links(files, s, ix, e, ix2 + 1, false) by {
      assert LinkFollows(s, e, ix2);
      if ix2 + 1 < |s| {
        assert LinkFollows(s, e, ix2 + 1);
      }
    }
  }

  lemma OtherBuckets(files: seq<File>, shared: set<nat>, links: set<nat>, s: seq<Entry>, ix: nat, ix2: nat)
    requires AllDescribed(files, shared, links, s)
    requires ix < ix2 <= |s| && BucketsTogether(s)
    requires ix2 == |s| || !SameBucket(s[ix], s[ix2])
    ensures forall j | ix2 <= j < |s| :: Content(files, s[j]) != Content(files, s[ix])
  {
    hide Described, Content;
    forall j | ix2 <= j < |s|
      ensures Content(files, s[j]) != Content(files, s[ix])
    {
      assert !SameBucket(s[ix], s[j]);
      if Content(files, s[j]) == Content(files, s[ix]) {
        EqualShareBucket(files, shared, links, s[ix], s[j]);
      }
    }
  }

  lemma ClassGrouped(files: seq<File>, s: seq<Entry>, ix: nat, e: nat)
    requires ix < e <= |s|
    requires GroupedUpTo(files, s, ix + 1) && Apart(files, s, ix, ix + 1) && ClassSoFar(files, s, ix, e)
    ensures GroupedUpTo(files, s, e)
  {
    hide Content;
    forall j | ix < j < e
      ensures s[j].flags.dup && FollowsEqual(files, s, j)
    {
      assert j == ix + 1 || Content(files, s[j - 1]) == Content(files, s[ix]);
    }
  }

  lemma ClassApart(files: seq<File>, s: seq<Entry>, ix: nat, e: nat)
    requires ix < e <= |s|
    requires Apart(files, s, ix, ix + 1) && ClassSoFar(files, s, ix, e)
    requires forall j | e <= j < |s| :: Content(files, s[j]) != Content(files, s[ix])
    ensures Apart(files, s, e, e)
  {
    hide Content;
  }

  /** When the scan leaves the bucket, the class is complete. */
  lemma InnerExit(files: seq<File>, shared: set<nat>, links: set<nat>,
                  s: seq<Entry>, ix: nat, ix2: nat, lastix: nat, e: nat, lnkmatch: bool)
    requires AllDescribed(files, shared, links, s)
    requires InnerInv(files, s, ix, ix2, lastix, e, lnkmatch)
    requires ix2 == |s| || !SameBucket(s[ix], s[ix2])
    ensures OuterInv(files, s, lastix, e)
  {
    hide AllDescribed, GroupedUpTo, Apart, BucketsTogether, Content;
    OtherBuckets(files, shared, links, s, ix, ix2);
    ClassGrouped(files, s, ix, e);
    ClassApart(files, s, ix, e);
    forall j: nat | e <= j < |s|
      ensures LinkFollows(s, e, j)
    {
    }
  }

  lemma EnterLinks(files: seq<File>, shared: set<nat>, links: set<nat>, s: seq<Entry>, ix: nat, h: nat)
    requires Consistent(files) && AllDescribed(files, shared, links, s)
    requires ix <= h <= ix + 1 && h <= |s| && ix < |s|
    requires Untouched(s, h)
    ensures Links(files, s, ix, ix + 1, ix + 1, true)
  {
    hide Described, Content;
    var e := ix + 1;
    forall j: nat | e < j < |s|
      ensures LinkFollows(s, e, j)
    {
      assert LinkFollows(s, h, j);
    }
    if ix + 1 < |s| && s[ix + 1].flags.lnk {
      assert LinkFollows(s, h, ix + 1);
      SameInodeSameContent(files, shared, links, s[ix], s[ix + 1]);
    }
  }

  lemma OuterEnter(files: seq<File>, shared: set<nat>, links: set<nat>, s: seq<Entry>, ix: nat, h: nat)
    requires Consistent(files) && AllDescribed(files, shared, links, s)
    requires OuterInv(files, s, ix, h) && ix < |s|
    ensures InnerInv(files, s, ix, ix + 1, ix + 1, ix + 1, true)
  {
    hide BucketsTogether, Described, Links, Content, GroupedUpTo, Apart, ClassSoFar, Passed, Untouched;
    EnterLinks(files, shared, links, s, ix, h);
    EnterGrouped(files, s, ix, h);
    Alone(files, s, ix);
  }

  lemma EnterGrouped(files: seq<File>, s: seq<Entry>, ix: nat, h: nat)
    requires ix <= h <= ix + 1 && h <= |s| && ix < |s|
    requires GroupedUpTo(files, s, h) && Apart(files, s, h, h) && Untouched(s, h)
    ensures GroupedUpTo(files, s, ix + 1) && Apart(files, s, ix, ix + 1)
  {
    hide Content;
    if h == ix {
      assert LinkFollows(s, h, ix);
    }
  }

  lemma Alone(files: seq<File>, s: seq<Entry>, ix: nat)
    requires ix < |s|
    ensures ClassSoFar(files, s, ix, ix + 1) && Passed(files, s, ix, ix + 1, ix + 1)
  {
  }

  // ---------------------------------------------------------------------------
  // The result
  // ---------------------------------------------------------------------------

  lemma {:induction false} InnerKeeps(files: seq<File>, shared: set<nat>, links: set<nat>,
                                      s: seq<Entry>, ix: nat, ix2: nat, lastix: nat, e: nat, lnkmatch: bool)
    returns (h: nat)
    requires Consistent(files) && Comparable(files, shared) && AllDescribed(files, shared, links, s)
    requires InnerInv(files, s, ix, ix2, lastix, e, lnkmatch)
    ensures var (t, last) := Inner(files, s, ix, ix2, lastix);
            && OuterInv(files, t, last, h)
            && AllDescribed(files, shared, links, t)
            && multiset(Names(t)) == multiset(Names(s))
    decreases |s| - ix2
  {
    hide InnerInv, OuterInv, Comparable, Consistent, Take, Matches;
    assert ix < lastix <= e <= lastix + 1 && e <= ix2 <= |s| by { InnerBounds(files, s, ix, ix2, lastix, e, lnkmatch); }
    if ix2 < |s| && SameBucket(s[ix], s[ix2]) {
      MatchIsEquality(files, shared, links, s[ix], s[ix2]);
      if Matches(files, s[ix], s[ix2]) {
        InnerMatch(files, shared, links, s, ix, ix2, lastix, e, lnkmatch);
        TakeDescribed(files, shared, links, s, ix2, lastix);
        TakeNames(s, ix2, lastix);
        h := InnerKeeps(files, shared, links, Take(s, ix2, lastix), ix, ix2 + 1,
                        if lastix != ix2 then lastix + 1 else lastix, e + 1, true);
      } else {
        InnerMiss(files, s, ix, ix2, lastix, e, lnkmatch);
        h := InnerKeeps(files, shared, links, s, ix, ix2 + 1, lastix, e, false);
      }
    } else {
      InnerExit(files, shared, links, s, ix, ix2, lastix, e, lnkmatch);
      h := e;
    }
  }

  lemma InnerBounds(files: seq<File>, s: seq<Entry>, ix: nat, ix2: nat, lastix: nat, e: nat, lnkmatch: bool)
    requires InnerInv(files, s, ix, ix2, lastix, e, lnkmatch)
    ensures ix < lastix <= e <= lastix + 1 && e <= ix2 <= |s|
  {
  }

  /** From any reachable point the outer loop ends with equal contents contiguous and flagged. */
  lemma {:induction false} OuterGroups(files: seq<File>, shared: set<nat>, links: set<nat>, s: seq<Entry>, ix: nat,
                                       h: nat)
    requires Consistent(files) && Comparable(files, shared) && AllDescribed(files, shared, links, s)
    requires OuterInv(files, s, ix, h)
    ensures var t := Outer(files, s, ix);
            && GroupedUpTo(files, t, |t|)
            && AllDescribed(files, shared, links, t)
            && multiset(Names(t)) == multiset(Names(s))
    decreases |s| - ix
  {
    hide AllDescribed, Comparable, Consistent, Inner, InnerInv, Content;
    if ix < |s| {
      OuterEnter(files, shared, links, s, ix, h);
      var h' := InnerKeeps(files, shared, links, s, ix, ix + 1, ix + 1, ix + 1, true);
      var (t, last) := Inner(files, s, ix, ix + 1, ix + 1);
      assert last > ix;
      OuterGroups(files, shared, links, t, last, h');
    }
  }

  /** The result of link marking: the second of two neighbours with one inode is a link. */
  ghost predicate LinksMarked(s: seq<Entry>) {
    forall j: nat | j < |s| :: s[j].flags.lnk <==> FollowsInode(s, j)
  }

  /**
   * On an arranged list with links marked and no duplicate yet flagged, the loops yield a permutation in which
   * files of equal content are contiguous and FL_DUP is set exactly on those that follow an equal file.
   */
  lemma RegroupGroups(files: seq<File>, shared: set<nat>, links: set<nat>, s: seq<Entry>)
    requires Consistent(files) && Comparable(files, shared) && AllDescribed(files, shared, links, s)
    requires Arranged(s) && LinksMarked(s)
    requires forall j | 0 <= j < |s| :: !s[j].flags.dup
    ensures var t := Outer(files, s, 0);
            && GroupedUpTo(files, t, |t|)
            && AllDescribed(files, shared, links, t)
            && multiset(Names(t)) == multiset(Names(s))
  {
    assert OuterInv(files, s, 0, 0) by {
      forall j: nat | j < |s|
        ensures LinkFollows(s, 0, j)
      {
        assert s[j].flags.lnk <==> FollowsInode(s, j);
      }
    }
    OuterGroups(files, shared, links, s, 0, 0);
  }

  /**
   * The link shortcut of scan2 never changes the outcome of the comparison: a link met while the entry scanned
   * before it matched has the inode of that entry, also after rotations and when scanning from a left-over duplicate.
   */
  lemma LinkShortcutSound(files: seq<File>, shared: set<nat>, links: set<nat>,
                          s: seq<Entry>, ix: nat, ix2: nat, lastix: nat, e: nat, lnkmatch: bool)
    requires Comparable(files, shared) && AllDescribed(files, shared, links, s)
    requires InnerInv(files, s, ix, ix2, lastix, e, lnkmatch)
    requires ix2 < |s| && SameBucket(s[ix], s[ix2])
    ensures (s[ix2].flags.lnk && lnkmatch) || Matches(files, s[ix], s[ix2]) <==> Matches(files, s[ix], s[ix2])
    ensures Matches(files, s[ix], s[ix2]) <==> Content(files, s[ix]) == Content(files, s[ix2])
  {
    hide Comparable, Matches, Content, BucketsTogether, GroupedUpTo, Apart, ClassSoFar, Passed, Described;
    MatchIsEquality(files, shared, links, s[ix], s[ix2]);
  }

  lemma TakeInPlace(s: seq<Entry>, ix2: nat)
    requires ix2 < |s|
    ensures Take(s, ix2, ix2) == s[ix2 := SetDup(s[ix2])]
  {
  }

  /** The inner loop has come from start to s, and what remains of it is Inner. */
  ghost predicate Scanning(files: seq<File>, shared: set<nat>, links: set<nat>, start: seq<Entry>,
                           s: seq<Entry>, ix: nat, ix2: nat, lastix: nat, e: nat, lnkmatch: bool) {
    && Consistent(files) && Comparable(files, shared) && AllDescribed(files, shared, links, s)
    && InnerInv(files, s, ix, ix2, lastix, e, lnkmatch)
    && ix < lastix <= ix2 <= |s| == |start|
    && Inner(files, s, ix, ix2, lastix) == Inner(files, start, ix, ix + 1, ix + 1)
  }

  lemma ScanStart(files: seq<File>, shared: set<nat>, links: set<nat>, s: seq<Entry>, ix: nat, h: nat)
    requires Consistent(files) && Comparable(files, shared) && AllDescribed(files, shared, links, s)
    requires ix < |s| && OuterInv(files, s, ix, h)
    ensures Scanning(files, shared, links, s, s, ix, ix + 1, ix + 1, ix + 1, true)
  {
    hide Comparable, Consistent, AllDescribed, InnerInv, OuterInv, Inner;
    OuterEnter(files, shared, links, s, ix, h);
  }

  lemma ScanBounds(files: seq<File>, shared: set<nat>, links: set<nat>, start: seq<Entry>,
                   s: seq<Entry>, ix: nat, ix2: nat, lastix: nat, e: nat, lnkmatch: bool)
    requires Scanning(files, shared, links, start, s, ix, ix2, lastix, e, lnkmatch)
    ensures ix < lastix <= ix2 <= |s| == |start|
    ensures ix2 == |s| || !SameBucket(s[ix], s[ix2]) ==> (s, lastix) == Inner(files, start, ix, ix + 1, ix + 1)
    ensures ix2 < |s| && SameBucket(s[ix], s[ix2]) ==>
              ((s[ix2].flags.lnk && lnkmatch) || Matches(files, s[ix], s[ix2]) <==> Matches(files, s[ix], s[ix2]))
  {
    hide Comparable, Consistent, AllDescribed, InnerInv, Matches;
    if ix2 < |s| && SameBucket(s[ix], s[ix2]) {
      LinkShortcutSound(files, shared, links, s, ix, ix2, lastix, e, lnkmatch);
    }
  }

  lemma ScanMatch(files: seq<File>, shared: set<nat>, links: set<nat>, start: seq<Entry>,
                  s: seq<Entry>, ix: nat, ix2: nat, lastix: nat, e: nat, lnkmatch: bool)
    requires Scanning(files, shared, links, start, s, ix, ix2, lastix, e, lnkmatch)
    requires ix2 < |s| && SameBucket(s[ix], s[ix2]) && Matches(files, s[ix], s[ix2])
    ensures lastix <= ix2
    ensures lastix != ix2 ==>
              Scanning(files, shared, links, start, Take(s, ix2, lastix), ix, ix2 + 1, lastix + 1, e + 1, true)
    ensures lastix == ix2 ==>
              Scanning(files, shared, links, start, s[ix2 := SetDup(s[ix2])], ix, ix2 + 1, lastix, e + 1, true)
  {
    hide Comparable, Consistent, AllDescribed, InnerInv, Matches, Take;
    LinkShortcutSound(files, shared, links, s, ix, ix2, lastix, e, lnkmatch);
    InnerMatch(files, shared, links, s, ix, ix2, lastix, e, lnkmatch);
    TakeDescribed(files, shared, links, s, ix2, lastix);
    TakeInPlace(s, ix2);
  }

  lemma ScanMiss(files: seq<File>, shared: set<nat>, links: set<nat>, start: seq<Entry>,
                 s: seq<Entry>, ix: nat, ix2: nat, lastix: nat, e: nat, lnkmatch: bool)
    requires Scanning(files, shared, links, start, s, ix, ix2, lastix, e, lnkmatch)
    requires ix2 < |s| && SameBucket(s[ix], s[ix2]) && !Matches(files, s[ix], s[ix2])
    ensures Scanning(files, shared, links, start, s, ix, ix2 + 1, lastix, e, false)
  {
    hide Comparable, Consistent, AllDescribed, InnerInv, Matches, Take;
    LinkShortcutSound(files, shared, links, s, ix, ix2, lastix, e, lnkmatch);
    InnerMiss(files, s, ix, ix2, lastix, e, lnkmatch);
  }
}
