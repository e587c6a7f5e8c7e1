/** sf_malloc and sf_free of hw3/src/sfmm.c on a fixed arena, and what every run of them keeps. */
module SfAlloc {
  import opened Prelude
  import opened SfLists
  import opened SfHeap
  import opened SfFlush
  import opened SfFlushIff

  // ---------------------------------------------------------------------------
  // Rounding a request
  // ---------------------------------------------------------------------------

  function Rounded(size: nat): nat {
    var m := if size + 8 < MIN_BLOCK then MIN_BLOCK else size + 8;
    (m + 15) / 16 * 16
  }

  /** The block size is the least multiple of 16 with room for the header and for the links of a free block. */
  lemma RoundedLeast(size: nat, m: nat)
    requires m % 16 == 0 && m >= size + 8 && m >= MIN_BLOCK
    ensures Rounded(size) % 16 == 0 && size + 8 <= Rounded(size) && MIN_BLOCK <= Rounded(size) <= m
  {
  }

  // ---------------------------------------------------------------------------
  // sf_malloc
  // ---------------------------------------------------------------------------

  function SizeAt(mem: map<nat, Header>, a: nat): nat {
    if a in mem then mem[a].size else 0
  }

  /** The first quick list from i on whose top block has exactly the size. */
  function QuickFit(mem: map<nat, Header>, quick: seq<seq<nat>>, size: nat, i: nat): Option<nat>
    requires i <= |quick|
    decreases |quick| - i
  {
    if i == |quick| then None
    else if quick[i] != [] && SizeAt(mem, quick[i][0]) == size then Some(i)
    else QuickFit(mem, quick, size, i + 1)
  }

  /** The first block of a list that is large enough. */
  function ListFit(mem: map<nat, Header>, l: seq<nat>, size: nat): Option<nat> {
    if l == [] then None
    else if SizeAt(mem, l[0]) >= size then Some(l[0])
    else ListFit(mem, l[1..], size)
  }

  /** The first block found in the lists from i on. */
  function FirstFit(mem: map<nat, Header>, free: seq<seq<nat>>, size: nat, i: nat): Option<nat>
    requires i <= |free|
    decreases |free| - i
  {
    if i == |free| then None
    else if ListFit(mem, free[i], size).Some? then ListFit(mem, free[i], size)
    else FirstFit(mem, free, size, i + 1)
  }

  ghost function TakeQuick(st: State, c: nat): State
    requires c < |st.quick| && st.quick[c] != [] && st.quick[c][0] in st.mem
  {
    var a := st.quick[c][0];
    State(st.mem[a := Header(st.mem[a].size, Live)], st.free, st.quick[c := st.quick[c][1..]])
  }

  /** A free block is handed out; what is left over becomes a block if it is large enough. */
  ghost function Carve(st: State, a: nat, size: nat): State
    requires a in st.mem && size <= st.mem[a].size
  {
    var left := st.mem[a].size - size;
    if left >= MIN_BLOCK && |st.free| == NUM_FREE_LISTS then
      State(st.mem[a := Header(size, Live)][a + size := Header(left, Free)],
            Push<nat>(Remove<nat>(st.free, a), SizeClass(left), a + size), st.quick)
    else
      State(st.mem[a := Header(st.mem[a].size, Live)], Remove<nat>(st.free, a), st.quick)
  }

  /** The block handed out for a block size, and the heap afterwards; None when the heap would have to grow. */
  ghost function Malloc(st: State, size: nat): (Option<nat>, State) {
    match QuickFit(st.mem, st.quick, size, 0)
    case Some(c) =>
      if c < |st.quick| && st.quick[c] != [] && st.quick[c][0] in st.mem then (Some(st.quick[c][0]), TakeQuick(st, c))
      else (None, st)
    case None =>
      match FirstFit(st.mem, st.free, size, 0)
      case Some(a) => if a in st.mem && size <= st.mem[a].size then (Some(a), Carve(st, a, size)) else (None, st)
      case None => (None, st)
  }

  // ---------------------------------------------------------------------------
  // sf_free
  // ---------------------------------------------------------------------------

  /** The block is on no list and belongs to nobody. */
  ghost function Freed(st: State, a: nat): State
    requires a in st.mem
  {
    State(st.mem[a := Header(st.mem[a].size, Quick)], st.free, st.quick)
  }

  /** A block goes on its quick list, which is flushed first if it is full, or is coalesced at once. */
  ghost function Release(st: State, a: nat): State
    requires a in st.mem && |st.quick| == NUM_QUICK_LISTS && |st.free| == NUM_FREE_LISTS
  {
    var freed := Freed(st, a);
    match QuickIndex(st.mem[a].size)
    case Some(c) =>
      if c >= |st.quick| then st
      else if |st.quick[c]| == QUICK_LIST_MAX then Flush(freed.(quick := st.quick[c := [a]]), st.quick[c])
      else freed.(quick := Push(st.quick, c, a))
    case None => Flush(freed, [a])
  }

  /** If releasing a flushes a list, the flush is safe. */
  ghost predicate SafeRelease(st: State, a: nat) {
    a in st.mem ==>
      match QuickIndex(st.mem[a].size)
      case Some(c) => c < |st.quick| && |st.quick[c]| == QUICK_LIST_MAX ==> FlushSafe(Freed(st, a).mem, st.quick[c])
      case None => true
  }

  // ---------------------------------------------------------------------------
  // The search
  // ---------------------------------------------------------------------------

  lemma {:induction false} ListFitFinds(mem: map<nat, Header>, l: seq<nat>, size: nat)
    ensures var r := ListFit(mem, l, size);
            && (r.Some? ==> r.value in l && SizeAt(mem, r.value) >= size)
            && (r.None? ==> forall a: nat | a in l :: SizeAt(mem, a) < size)
  {
    if l != [] {
      ListFitFinds(mem, l[1..], size);
      assert l == [l[0]] + l[1..];
    }
  }

  lemma {:induction false} FirstFitFinds(mem: map<nat, Header>, free: seq<seq<nat>>, size: nat, i: nat)
    requires i <= |free|
    ensures var r := FirstFit(mem, free, size, i);
            && (r.Some? ==> exists c: nat ::
                  i <= c < |free| && r.value in free[c] && SizeAt(mem, r.value) >= size
                  && forall d: nat, a: nat | i <= d < c && a in free[d] :: SizeAt(mem, a) < size)
            && (r.None? ==> forall d: nat, a: nat | i <= d < |free| && a in free[d] :: SizeAt(mem, a) < size)
    decreases |free| - i
  {
    if i < |free| {
      ListFitFinds(mem, free[i], size);
      if ListFit(mem, free[i], size).None? {
        FirstFitFinds(mem, free, size, i + 1);
        var r := FirstFit(mem, free, size, i + 1);
        if r.Some? {
          var c: nat :| i + 1 <= c < |free| && r.value in free[c]
            && forall d: nat, a: nat | i + 1 <= d < c && a in free[d] :: SizeAt(mem, a) < size;
          assert forall d: nat, a: nat | i <= d < c && a in free[d] :: SizeAt(mem, a) < size;
        }
      }
    }
  }

  /**
   * The search finds a block exactly when some free block is large enough, and then one of the lowest class
   * that holds such a block.
   */
  lemma FirstFitIsLowestClass(st: State, n: nat, size: nat)
    requires Inv(st, n)
    ensures var r := FirstFit(st.mem, st.free, size, 0);
            && (r.Some? <==> exists b: nat :: IsFree(st.mem, b) && st.mem[b].size >= size)
            && (r.Some? ==> (
                  && IsFree(st.mem, r.value) && st.mem[r.value].size >= size
                  && forall b: nat | IsFree(st.mem, b) && st.mem[b].size >= size ::
                       SizeClass(st.mem[r.value].size) <= SizeClass(st.mem[b].size)))
  {
    hide Tiles, NoAdjacentFree, QuickListsOk, FirstFit;
    FirstFitFinds(st.mem, st.free, size, 0);
    var r := FirstFit(st.mem, st.free, size, 0);
    var c: nat := NUM_FREE_LISTS;
    if r.Some? {
      c :| c < |st.free| && r.value in st.free[c] && SizeAt(st.mem, r.value) >= size
        && forall d: nat, a: nat | d < c && a in st.free[d] :: SizeAt(st.mem, a) < size;
      assert OnFreeList(st.mem, r.value, c);
      assert IsFree(st.mem, r.value);
    }
    forall b: nat | IsFree(st.mem, b) && st.mem[b].size >= size
      ensures r.Some? && c <= SizeClass(st.mem[b].size)
    {
      assert OnFreeList(st.mem, b, SizeClass(st.mem[b].size));
      assert b in st.free[SizeClass(st.mem[b].size)];
      assert SizeAt(st.mem, b) >= size;
    }
  }

  lemma {:induction false} ListFitFirst(mem: map<nat, Header>, l: seq<nat>, size: nat) returns (j: nat)
    requires ListFit(mem, l, size).Some?
    ensures j < |l| && ListFit(mem, l, size) == Some(l[j]) && SizeAt(mem, l[j]) >= size
    ensures forall k | 0 <= k < j :: SizeAt(mem, l[k]) < size
  {
    j := 0;
    if SizeAt(mem, l[0]) < size {
      j := ListFitFirst(mem, l[1..], size);
      j := j + 1;
    }
  }

  /** The block found comes first: in its list, and that list among those with a block large enough. */
  lemma {:induction false} FirstFitFirst(mem: map<nat, Header>, free: seq<seq<nat>>, size: nat, i: nat)
    returns (c: nat, j: nat)
    requires i <= |free| && FirstFit(mem, free, size, i).Some?
    ensures i <= c < |free| && j < |free[c]| && FirstFit(mem, free, size, i) == Some(free[c][j])
    ensures SizeAt(mem, free[c][j]) >= size && forall k | 0 <= k < j :: SizeAt(mem, free[c][k]) < size
    ensures forall d: nat, a: nat | i <= d < c && a in free[d] :: SizeAt(mem, a) < size
    decreases |free| - i
  {
    ListFitFinds(mem, free[i], size);
    if ListFit(mem, free[i], size).Some? {
      c := i;
      j := ListFitFirst(mem, free[i], size);
    } else {
      c, j := FirstFitFirst(mem, free, size, i + 1);
    }
  }

  // ---------------------------------------------------------------------------
  // sf_malloc keeps the invariant
  // ---------------------------------------------------------------------------

  lemma RestatusNoAdjacent(mem: map<nat, Header>, a: nat, s: Status)
    requires NoAdjacentFree(mem) && a in mem && !s.Free?
    ensures NoAdjacentFree(mem[a := Header(mem[a].size, s)])
  {
    var mem' := mem[a := Header(mem[a].size, s)];
    forall b: nat | b in mem' && mem'[b].status.Free?
      ensures !FreeAfter(mem', b)
    {
      assert !FreeAfter(mem, b);
    }
  }

  lemma RestatusFreeLists(mem: map<nat, Header>, free: seq<seq<nat>>, a: nat, s: Status)
    requires FreeListsOk(mem, free, {}) && a in mem && !mem[a].status.Free? && !s.Free?
    ensures FreeListsOk(mem[a := Header(mem[a].size, s)], free, {})
  {
    hide SizeClass;
    var mem' := mem[a := Header(mem[a].size, s)];
    forall c: nat, x: nat | c < NUM_FREE_LISTS
      ensures x in free[c] <==> OnFreeList(mem', x, c)
    {
      assert x in free[c] <==> OnFreeList(mem, x, c);
    }
  }

  lemma {:induction false} QuickFitFinds(mem: map<nat, Header>, quick: seq<seq<nat>>, size: nat, i: nat)
    requires i <= |quick|
    ensures var r := QuickFit(mem, quick, size, i);
            && (r.Some? ==> r.value < |quick| && quick[r.value] != [] && SizeAt(mem, quick[r.value][0]) == size)
            && (r.None? ==> forall c | i <= c < |quick| && quick[c] != [] :: SizeAt(mem, quick[c][0]) != size)
    decreases |quick| - i
  {
    if i < |quick| {
      QuickFitFinds(mem, quick, size, i + 1);
    }
  }

  lemma TakeQuickLists(mem: map<nat, Header>, quick: seq<seq<nat>>, c: nat)
    requires QuickListsOk(mem, quick, {}) && c < NUM_QUICK_LISTS && quick[c] != [] && quick[c][0] in mem
    ensures var a := quick[c][0];
            QuickListsOk(mem[a := Header(mem[a].size, Live)], quick[c := quick[c][1..]], {})
  {
    hide QuickIndex;
    var a := quick[c][0];
    var mem' := mem[a := Header(mem[a].size, Live)];
    var quick' := quick[c := quick[c][1..]];
    assert quick[c] == [a] + quick[c][1..];
    assert OnQuickList(mem, {}, a, c);
    forall d: nat, x: nat | d < NUM_QUICK_LISTS
      ensures x in quick'[d] <==> OnQuickList(mem', {}, x, d)
    {
      assert x in quick[d] <==> OnQuickList(mem, {}, x, d);
      assert a in quick[d] <==> OnQuickList(mem, {}, a, d);
    }
  }

  /** Taking the top of a quick list makes it live again; nothing else changes hands. */
  lemma TakeQuickKeeps(st: State, n: nat, c: nat)
    requires Inv(st, n) && c < NUM_QUICK_LISTS && st.quick[c] != []
    ensures var a := st.quick[c][0];
            && a in st.mem && a !in LiveBlocks(st)
            && Inv(TakeQuick(st, c), n)
            && LiveBlocks(TakeQuick(st, c)) == LiveBlocks(st)[a := st.mem[a].size]
  {
    var a := st.quick[c][0];
    assert a in st.quick[c];
    assert OnQuickList(st.mem, {}, a, c);
    hide Tiles, NoAdjacentFree, FreeListsOk, QuickListsOk;
    SameTiles(st.mem, st.mem[a := Header(st.mem[a].size, Live)], n);
    RestatusNoAdjacent(st.mem, a, Live);
    RestatusFreeLists(st.mem, st.free, a, Live);
    TakeQuickLists(st.mem, st.quick, c);
  }

  /** Cutting block a in two. */
  ghost function Split(mem: map<nat, Header>, a: nat, size: nat): map<nat, Header>
    requires a in mem && size <= mem[a].size
  {
    mem[a := Header(size, Live)][a + size := Header(mem[a].size - size, Free)]
  }

  lemma SplitAt(mem: map<nat, Header>, n: nat, a: nat, size: nat)
    requires AllFit(mem, n) && NoOverlap(mem) && a in mem && MIN_BLOCK <= size && size + MIN_BLOCK <= mem[a].size
    ensures a + size !in mem
    ensures var mem' := Split(mem, a, size);
            && (forall x: nat :: x in mem' <==> x in mem || x == a + size)
            && (forall x: nat | x in mem' && x != a && x != a + size :: mem'[x] == mem[x])
            && mem'[a] == Header(size, Live) && mem'[a + size] == Header(mem[a].size - size, Free)
  {
  }

  lemma SplitFits(mem: map<nat, Header>, n: nat, a: nat, size: nat)
    requires AllFit(mem, n) && NoOverlap(mem) && a in mem && size % 16 == 0
    requires MIN_BLOCK <= size && size + MIN_BLOCK <= mem[a].size
    ensures AllFit(Split(mem, a, size), n)
  {
    var mem' := Split(mem, a, size);
    SplitAt(mem, n, a, size);
    hide Split, NoOverlap;
    assert Fits(mem, n, a);
    forall b: nat | b in mem'
      ensures Fits(mem', n, b)
    {
      if b != a + size {
        assert Fits(mem, n, b);
      }
    }
  }

  lemma SplitPrev(mem: map<nat, Header>, n: nat, a: nat, size: nat)
    requires AllFit(mem, n) && NoOverlap(mem) && AllHavePrev(mem) && a in mem
    requires MIN_BLOCK <= size && size + MIN_BLOCK <= mem[a].size
    ensures AllHavePrev(Split(mem, a, size))
  {
    var mem' := Split(mem, a, size);
    SplitAt(mem, n, a, size);
    hide Split, NoOverlap, AllFit;
    forall b: nat | b in mem' && b > 0
      ensures HasPrev(mem', b)
    {
      if b == a + size {
        assert IsPrev(mem', a, b);
      } else {
        assert HasPrev(mem, b);
        var p: nat :| IsPrev(mem, p, b);
        assert IsPrev(mem', if p == a then a + size else p, b);
      }
    }
  }

  lemma SplitNoOverlap(mem: map<nat, Header>, n: nat, a: nat, size: nat)
    requires AllFit(mem, n) && NoOverlap(mem) && a in mem
    requires MIN_BLOCK <= size && size + MIN_BLOCK <= mem[a].size
    ensures NoOverlap(Split(mem, a, size))
  {
    var mem' := Split(mem, a, size);
    SplitAt(mem, n, a, size);
    hide Split;
    forall x: nat, y: nat | x in mem' && y in mem' && x < y
      ensures x + mem'[x].size <= y
    {
      if x != a + size {
        assert Fits(mem, n, x);
      }
    }
  }

  lemma SplitTiles(mem: map<nat, Header>, n: nat, a: nat, size: nat)
    requires Tiles(mem, n) && a in mem && size % 16 == 0
    requires MIN_BLOCK <= size && size + MIN_BLOCK <= mem[a].size
    ensures Tiles(Split(mem, a, size), n)
  {
    SplitFits(mem, n, a, size);
    SplitPrev(mem, n, a, size);
    SplitNoOverlap(mem, n, a, size);
    hide AllFit, AllHavePrev, NoOverlap;
  }

  lemma SplitLive(st: State, n: nat, a: nat, size: nat, free: seq<seq<nat>>)
    requires Tiles(st.mem, n) && IsFree(st.mem, a)
    requires MIN_BLOCK <= size && size + MIN_BLOCK <= st.mem[a].size
    ensures LiveBlocks(State(Split(st.mem, a, size), free, st.quick)) == LiveBlocks(st)[a := size]
  {
    SplitAt(st.mem, n, a, size);
    hide Split, Tiles;
  }

  lemma SplitNoAdjacent(mem: map<nat, Header>, n: nat, a: nat, size: nat)
    requires AllFit(mem, n) && NoOverlap(mem) && NoAdjacentFree(mem) && IsFree(mem, a)
    requires MIN_BLOCK <= size && size + MIN_BLOCK <= mem[a].size
    ensures NoAdjacentFree(Split(mem, a, size))
  {
    var mem' := Split(mem, a, size);
    SplitAt(mem, n, a, size);
    hide Split;
    forall b: nat | b in mem' && mem'[b].status.Free?
      ensures !FreeAfter(mem', b)
    {
      if b == a + size {
        assert !FreeAfter(mem, a) && Fits(mem, n, a);
      } else {
        assert !FreeAfter(mem, b) && Fits(mem, n, b);
        assert b + mem[b].size == a + size ==> b < a;
      }
    }
  }

  lemma SplitFreeLists(mem: map<nat, Header>, n: nat, free: seq<seq<nat>>, a: nat, size: nat)
    requires AllFit(mem, n) && NoOverlap(mem) && FreeListsOk(mem, free, {}) && IsFree(mem, a)
    requires MIN_BLOCK <= size && size + MIN_BLOCK <= mem[a].size
    ensures FreeListsOk(Split(mem, a, size), Push<nat>(Remove<nat>(free, a), SizeClass(mem[a].size - size), a + size),
                        {})
  {
    var mem' := Split(mem, a, size);
    var k := SizeClass(mem[a].size - size);
    SplitAt(mem, n, a, size);
    StripNone(mem, free, {});
    StripOne(free, free, {}, a);
    hide SizeClass, Split, Push, Remove;
    var without := Remove<nat>(free, a);
    forall c: nat, x: nat | c < NUM_FREE_LISTS
      ensures x in without[c] <==> x in free[c] && x != a
      ensures x in free[c] <==> OnFreeList(mem, x, c)
    {
      assert StrippedAt(free[c], without[c], {} + {a}, x);
    }
    PushMembers<nat>(without, k, a + size);
    forall c: nat, x: nat | c < NUM_FREE_LISTS
      ensures x in Push(without, k, a + size)[c] <==> OnFreeList(mem', x, c)
    {
      assert x in free[c] <==> OnFreeList(mem, x, c);
    }
  }

  lemma SplitQuickLists(mem: map<nat, Header>, n: nat, quick: seq<seq<nat>>, a: nat, size: nat)
    requires AllFit(mem, n) && NoOverlap(mem) && QuickListsOk(mem, quick, {}) && IsFree(mem, a)
    requires MIN_BLOCK <= size && size + MIN_BLOCK <= mem[a].size
    ensures QuickListsOk(Split(mem, a, size), quick, {})
  {
    hide QuickIndex;
    var mem' := Split(mem, a, size);
    SplitAt(mem, n, a, size);
    hide Split;
    forall c: nat, x: nat | c < NUM_QUICK_LISTS
      ensures x in quick[c] <==> OnQuickList(mem', {}, x, c)
    {
      assert x in quick[c] <==> OnQuickList(mem, {}, x, c);
    }
  }

  /** A block handed out whole leaves its list. */
  lemma WholeFreeLists(mem: map<nat, Header>, free: seq<seq<nat>>, a: nat)
    requires FreeListsOk(mem, free, {}) && IsFree(mem, a)
    ensures FreeListsOk(mem[a := Header(mem[a].size, Live)], Remove<nat>(free, a), {})
  {
    var mem' := mem[a := Header(mem[a].size, Live)];
    StripNone(mem, free, {});
    StripOne(free, free, {}, a);
    hide SizeClass, Remove;
    forall c: nat, x: nat | c < NUM_FREE_LISTS
      ensures x in Remove<nat>(free, a)[c] <==> OnFreeList(mem', x, c)
    {
      assert StrippedAt(free[c], Remove<nat>(free, a)[c], {} + {a}, x);
      assert x in free[c] <==> OnFreeList(mem, x, c);
    }
  }

  lemma WholeQuickLists(mem: map<nat, Header>, quick: seq<seq<nat>>, a: nat)
    requires QuickListsOk(mem, quick, {}) && IsFree(mem, a)
    ensures QuickListsOk(mem[a := Header(mem[a].size, Live)], quick, {})
  {
    hide QuickIndex;
    var mem' := mem[a := Header(mem[a].size, Live)];
    forall c: nat, x: nat | c < NUM_QUICK_LISTS
      ensures x in quick[c] <==> OnQuickList(mem', {}, x, c)
    {
      assert x in quick[c] <==> OnQuickList(mem, {}, x, c);
    }
  }

  lemma CarveWholeKeeps(st: State, n: nat, a: nat, size: nat)
    requires Inv(st, n) && IsFree(st.mem, a) && size <= st.mem[a].size < size + MIN_BLOCK
    ensures Inv(Carve(st, a, size), n)
    ensures LiveBlocks(Carve(st, a, size)) == LiveBlocks(st)[a := st.mem[a].size]
  {
    hide Tiles, NoAdjacentFree, FreeListsOk, QuickListsOk, Remove, Push;
    SameTiles(st.mem, st.mem[a := Header(st.mem[a].size, Live)], n);
    RestatusNoAdjacent(st.mem, a, Live);
    WholeFreeLists(st.mem, st.free, a);
    WholeQuickLists(st.mem, st.quick, a);
  }

  lemma CarveSplitKeeps(st: State, n: nat, a: nat, size: nat)
    requires Inv(st, n) && IsFree(st.mem, a) && size % 16 == 0
    requires MIN_BLOCK <= size && size + MIN_BLOCK <= st.mem[a].size
    requires |st.free| == NUM_FREE_LISTS
    ensures Inv(Carve(st, a, size), n)
    ensures LiveBlocks(Carve(st, a, size)) == LiveBlocks(st)[a := size]
  {
    hide AllFit, NoOverlap, AllHavePrev, NoAdjacentFree, FreeListsOk, QuickListsOk, Remove, Push, SizeClass, LiveBlocks;
    SplitTiles(st.mem, n, a, size);
    SplitNoAdjacent(st.mem, n, a, size);
    SplitFreeLists(st.mem, n, st.free, a, size);
    SplitQuickLists(st.mem, n, st.quick, a, size);
    SplitLive(st, n, a, size, Push<nat>(Remove<nat>(st.free, a), SizeClass(st.mem[a].size - size), a + size));
    assert Carve(st, a, size).mem == Split(st.mem, a, size);
    hide Split;
  }

  /** Block a of s bytes, for a request of size, is live in after and was not in before; nothing else differs. */
  ghost predicate Granted(before: map<nat, nat>, after: map<nat, nat>, a: nat, size: nat, s: nat) {
    a !in before && size <= s <= size + 16 && after == before[a := s]
  }

  /** Carving hands out the front of a free block, leaves at most 16 bytes unsplit and keeps the invariant. */
  lemma CarveKeeps(st: State, n: nat, a: nat, size: nat) returns (s: nat)
    requires Inv(st, n) && IsFree(st.mem, a) && size <= st.mem[a].size && size % 16 == 0 && MIN_BLOCK <= size
    ensures Inv(Carve(st, a, size), n)
    ensures Granted(LiveBlocks(st), LiveBlocks(Carve(st, a, size)), a, size, s)
  {
    hide Inv, Carve, LiveBlocks;
    CarveReady(st, n, a);
    NotLive(st, a);
    if size + MIN_BLOCK <= st.mem[a].size {
      CarveSplitKeeps(st, n, a, size);
      s := size;
    } else {
      CarveWholeKeeps(st, n, a, size);
      s := st.mem[a].size;
    }
  }

  lemma CarveReady(st: State, n: nat, a: nat)
    requires Inv(st, n) && IsFree(st.mem, a)
    ensures |st.free| == NUM_FREE_LISTS && st.mem[a].size % 16 == 0
  {
    assert Fits(st.mem, n, a);
  }

  lemma NotLive(st: State, a: nat)
    requires a in st.mem && !st.mem[a].status.Live?
    ensures a !in LiveBlocks(st)
  {
  }

  /**
   * sf_malloc on its lists: the invariant is kept, and either one block of the requested size, or up to 16 bytes
   * more, comes to life that was not live before, or no block on a list can serve the request and nothing changes.
   */
  lemma MallocKeeps(st: State, n: nat, size: nat)
    requires Inv(st, n) && size % 16 == 0 && MIN_BLOCK <= size
    ensures var (r, st') := Malloc(st, size);
            && Inv(st', n)
            && (r.Some? ==> exists s: nat :: Granted(LiveBlocks(st), LiveBlocks(st'), r.value, size, s))
            && (r.None? ==> st' == st && forall b: nat | IsFree(st.mem, b) :: st.mem[b].size < size)
  {
    assert |st.quick| == NUM_QUICK_LISTS;
    hide Tiles, NoAdjacentFree, FreeListsOk, QuickListsOk, InvPending, LiveBlocks, Carve, TakeQuick, FirstFit, QuickFit;
    QuickFitFinds(st.mem, st.quick, size, 0);
    FirstFitIsLowestClass(st, n, size);
    match QuickFit(st.mem, st.quick, size, 0)
    case Some(c) =>
      TakeQuickKeeps(st, n, c);
      assert Granted(LiveBlocks(st), LiveBlocks(TakeQuick(st, c)), st.quick[c][0], size, size);
    case None =>
      match FirstFit(st.mem, st.free, size, 0) {
        case Some(a) =>
          var s := CarveKeeps(st, n, a, size);
        case None =>
      }
  }

  // ---------------------------------------------------------------------------
  // sf_free keeps the invariant
  // ---------------------------------------------------------------------------

  lemma FreedQuickLists(mem: map<nat, Header>, quick: seq<seq<nat>>, a: nat)
    requires QuickListsOk(mem, quick, {}) && a in mem && mem[a].status.Live?
    ensures QuickListsOk(mem[a := Header(mem[a].size, Quick)], quick, {a})
    ensures forall c: nat | c < NUM_QUICK_LISTS :: a !in quick[c]
  {
    hide QuickIndex;
    var mem' := mem[a := Header(mem[a].size, Quick)];
    forall c: nat, x: nat | c < NUM_QUICK_LISTS
      ensures x in quick[c] <==> OnQuickList(mem', {a}, x, c)
      ensures a !in quick[c]
    {
      assert x in quick[c] <==> OnQuickList(mem, {}, x, c);
      assert a in quick[c] <==> OnQuickList(mem, {}, a, c);
    }
  }

  lemma FreedKeeps(st: State, n: nat, a: nat)
    requires Inv(st, n) && a in st.mem && st.mem[a].status.Live?
    ensures InvPending(Freed(st, a), n, {a})
    ensures LiveBlocks(Freed(st, a)) == LiveBlocks(st) - {a}
    ensures forall c: nat | c < |st.quick| :: a !in st.quick[c]
  {
    hide Tiles, NoAdjacentFree, FreeListsOk;
    SameTiles(st.mem, st.mem[a := Header(st.mem[a].size, Quick)], n);
    RestatusNoAdjacent(st.mem, a, Quick);
    RestatusFreeLists(st.mem, st.free, a, Quick);
    FreedQuickLists(st.mem, st.quick, a);
  }

  /** The freed block goes on top of its quick list. */
  lemma PushQuickLists(mem: map<nat, Header>, quick: seq<seq<nat>>, c: nat, a: nat)
    requires QuickListsOk(mem, quick, {a}) && c < NUM_QUICK_LISTS && |quick[c]| < QUICK_LIST_MAX
    requires a in mem && QuickIndex(mem[a].size) == Some(c)
    requires forall d: nat | d < |quick| :: a !in quick[d]
    ensures QuickListsOk(mem, Push(quick, c, a), {})
  {
    hide QuickIndex;
    var quick' := Push(quick, c, a);
    forall d: nat, x: nat | d < NUM_QUICK_LISTS
      ensures x in quick'[d] <==> OnQuickList(mem, {}, x, d)
    {
      assert x in quick[d] <==> OnQuickList(mem, {a}, x, d);
    }
    assert NoRepeats(quick'[c]);
  }

  /** A full list is emptied but for the freed block; its former blocks wait to be coalesced. */
  lemma FlushQuickLists(mem: map<nat, Header>, quick: seq<seq<nat>>, c: nat, a: nat)
    requires QuickListsOk(mem, quick, {a}) && c < NUM_QUICK_LISTS
    requires a in mem && QuickIndex(mem[a].size) == Some(c)
    requires forall d: nat | d < |quick| :: a !in quick[d]
    ensures QuickListsOk(mem, quick[c := [a]], Elements(quick[c]))
  {
    hide QuickIndex;
    var quick' := quick[c := [a]];
    var pending := Elements(quick[c]);
    forall d: nat, x: nat | d < NUM_QUICK_LISTS
      ensures x in quick[d] <==> OnQuickList(mem, {a}, x, d)
      ensures x in quick'[d] <==> OnQuickList(mem, pending, x, d)
    {
      assert x in quick[d] <==> OnQuickList(mem, {a}, x, d);
      assert x in quick[c] <==> OnQuickList(mem, {a}, x, c);
    }
    forall x: nat | x in pending
      ensures x in mem && mem[x].status.Quick?
    {
      assert OnQuickList(mem, {a}, x, c);
    }
  }

  lemma ReleaseToQuick(st: State, n: nat, a: nat, c: nat)
    requires Inv(st, n) && a in st.mem && st.mem[a].status.Live? && QuickIndex(st.mem[a].size) == Some(c)
    requires c < |st.quick| == NUM_QUICK_LISTS && |st.free| == NUM_FREE_LISTS && |st.quick[c]| < QUICK_LIST_MAX
    ensures Inv(Release(st, a), n) && LiveBlocks(Release(st, a)) == LiveBlocks(st) - {a}
  {
    hide Tiles, NoAdjacentFree, FreeListsOk, QuickListsOk, QuickIndex, Push;
    FreedKeeps(st, n, a);
    var st1 := Freed(st, a);
    PushQuickLists(st1.mem, st.quick, c, a);
  }

  /** The state in which the flush of a full list starts. */
  lemma FlushPending(st: State, n: nat, a: nat, c: nat)
    requires Inv(st, n) && a in st.mem && st.mem[a].status.Live? && QuickIndex(st.mem[a].size) == Some(c)
    requires c < |st.quick| == NUM_QUICK_LISTS
    ensures NoRepeats(st.quick[c])
    ensures var st' := Freed(st, a).(quick := st.quick[c := [a]]);
            InvPending(st', n, Elements(st.quick[c])) && LiveBlocks(st') == LiveBlocks(st) - {a}
  {
    assert NoRepeats(st.quick[c]);
    hide Tiles, NoAdjacentFree, FreeListsOk, QuickListsOk, QuickIndex, Elements;
    FreedKeeps(st, n, a);
    FlushQuickLists(Freed(st, a).mem, st.quick, c, a);
  }

  lemma ReleaseWithFlush(st: State, n: nat, a: nat, c: nat)
    requires Inv(st, n) && a in st.mem && st.mem[a].status.Live? && QuickIndex(st.mem[a].size) == Some(c)
    requires c < |st.quick| == NUM_QUICK_LISTS && |st.free| == NUM_FREE_LISTS && |st.quick[c]| == QUICK_LIST_MAX
    ensures Inv(Release(st, a), n) <==> SafeRelease(st, a)
    ensures SafeRelease(st, a) ==> LiveBlocks(Release(st, a)) == LiveBlocks(st) - {a}
  {
    hide Inv, InvPending, QuickIndex, Flush, FlushSafe, LiveBlocks, Elements, NoRepeats, Freed;
    FlushPending(st, n, a, c);
    FlushIff(Freed(st, a).(quick := st.quick[c := [a]]), n, st.quick[c]);
  }

  lemma ReleaseToLists(st: State, n: nat, a: nat)
    requires Inv(st, n) && a in st.mem && st.mem[a].status.Live? && QuickIndex(st.mem[a].size).None?
    requires |st.quick| == NUM_QUICK_LISTS && |st.free| == NUM_FREE_LISTS
    ensures Inv(Release(st, a), n) && LiveBlocks(Release(st, a)) == LiveBlocks(st) - {a}
  {
    hide Tiles, NoAdjacentFree, FreeListsOk, QuickListsOk, QuickIndex, Flush, FlushSafe, LiveBlocks;
    FreedKeeps(st, n, a);
    SingleSafe(Freed(st, a).mem, n, a);
    assert Elements([a]) == {a};
    FlushIff(Freed(st, a), n, [a]);
  }

  /**
   * sf_free of a live block keeps the invariant exactly when it flushes no list or the flush is safe, and then
   * exactly that block stops being live.
   */
  lemma ReleaseKeepsIff(st: State, n: nat, a: nat)
    requires Inv(st, n) && a in LiveBlocks(st)
    ensures a in st.mem && |st.quick| == NUM_QUICK_LISTS && |st.free| == NUM_FREE_LISTS
    ensures Inv(Release(st, a), n) <==> SafeRelease(st, a)
    ensures SafeRelease(st, a) ==> LiveBlocks(Release(st, a)) == LiveBlocks(st) - {a}
  {
    assert |st.quick| == NUM_QUICK_LISTS && |st.free| == NUM_FREE_LISTS;
    QuickIndexBound(st.mem[a].size);
    match QuickIndex(st.mem[a].size)
    case Some(c) =>
      assert |st.quick[c]| <= QUICK_LIST_MAX;
      hide Inv, Release, LiveBlocks, FlushSafe;
      if |st.quick[c]| == QUICK_LIST_MAX {
        ReleaseWithFlush(st, n, a, c);
      } else {
        ReleaseToQuick(st, n, a, c);
      }
    case None =>
      hide Inv, Release, LiveBlocks;
      ReleaseToLists(st, n, a);
  }

  /** Quick list i takes the blocks of exactly 32 + 16i bytes. */
  lemma QuickIndexBound(size: nat)
    ensures QuickIndex(size).Some? ==>
            QuickIndex(size).value < NUM_QUICK_LISTS && size == 32 + 16 * QuickIndex(size).value
    ensures QuickIndex(size).None? ==> forall i: nat | i < NUM_QUICK_LISTS :: size != 32 + 16 * i
  {
  }
}
