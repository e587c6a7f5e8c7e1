/**
 * sf_flush_quick_list of hw3/src/sfmm.c: the blocks of a full quick list are all marked free before the first is
 * coalesced. What that leaves, and exactly when it leaves a heap in order.
 */
module SfFlush {
  import opened Prelude
  import opened SfLists
  import opened SfHeap

  // ---------------------------------------------------------------------------
  // The flush
  // ---------------------------------------------------------------------------

  /** The first loop: the headers of the collected blocks say free. */
  function Marked(mem: map<nat, Header>, l: seq<nat>): map<nat, Header> {
    map a: nat | a in mem :: if a in l then Header(mem[a].size, Free) else mem[a]
  }

  /** The blocks, and the headers of blocks that others have joined: their words stay in memory as they were. */
  datatype Flushing = Flushing(st: State, stale: map<nat, Header>)

  function HeaderAt(f: Flushing, a: nat): Header {
    if a in f.st.mem then f.st.mem[a]
    else if a in f.stale then f.stale[a]
    else Header(0, Live)
  }

  function FreeHeaderAt(f: Flushing, a: nat): Option<nat> {
    if HeaderAt(f, a).status.Free? then Some(HeaderAt(f, a).size) else None
  }

  /** One call of sf_coalesce in the second loop. It does not ask whether a is still a block. */
  ghost function CoalesceAt(f: Flushing, a: nat): (r: Flushing)
    requires |f.st.free| == NUM_FREE_LISTS
    ensures |r.st.free| == NUM_FREE_LISTS && r.st.quick == f.st.quick
  {
    var size := HeaderAt(f, a).size;
    var st := Join(f.st, a, size, FreeBefore(f.st.mem, a), FreeHeaderAt(f, a + size));
    Flushing(st, f.stale + (map x: nat | x in f.st.mem && x !in st.mem :: f.st.mem[x]))
  }

  ghost function CoalesceInTurn(f: Flushing, l: seq<nat>): (r: Flushing)
    requires |f.st.free| == NUM_FREE_LISTS
    ensures r.st.quick == f.st.quick
    decreases |l|
  {
    if l == [] then f else CoalesceInTurn(CoalesceAt(f, l[0]), l[1..])
  }

  /** The whole flush of the blocks l, which have left their list. */
  ghost function Flush(st: State, l: seq<nat>): State
    requires |st.free| == NUM_FREE_LISTS
  {
    CoalesceInTurn(Flushing(State(Marked(st.mem, l), st.free, st.quick), map[]), l).st
  }

  // ---------------------------------------------------------------------------
  // The condition
  // ---------------------------------------------------------------------------

  /** All blocks from b to c are free. */
  ghost predicate FreeThrough(mem: map<nat, Header>, b: nat, c: nat) {
    forall x: nat | x in mem && b <= x <= c :: mem[x].status.Free?
  }

  ghost function Elements(l: seq<nat>): set<nat> {
    set x: nat | x in l
  }

  /**
   * If the block just after a is flushed too, a free block stands before a, and no block further on that is joined
   * to a by free blocks is still waiting when a is coalesced.
   */
  ghost predicate SafeAt(marked: map<nat, Header>, done: set<nat>, waiting: set<nat>, a: nat) {
    a in marked && a + marked[a].size in done + waiting ==>
      && FreeBefore(marked, a).Some?
      && forall c: nat | c in waiting && c > a :: !FreeThrough(marked, a, c)
  }

  ghost predicate FlushSafe(mem: map<nat, Header>, l: seq<nat>) {
    forall i | 0 <= i < |l| :: SafeAt(Marked(mem, l), Elements(l[..i]), Elements(l[i..]), l[i])
  }

  // ---------------------------------------------------------------------------
  // In the middle of a flush
  // ---------------------------------------------------------------------------

  /** Of two neighbouring free blocks one is flushed. */
  ghost predicate Scattered(marked: map<nat, Header>, flushed: set<nat>) {
    && (forall a: nat | a in flushed :: IsFree(marked, a))
    && (forall a: nat {:trigger FreeAfter(marked, a)} | IsFree(marked, a) && FreeAfter(marked, a) ::
          a in flushed || a + marked[a].size in flushed)
  }

  /** Block x has joined the one before it: both are free, and one of them has been coalesced. */
  ghost predicate Joined(marked: map<nat, Header>, done: set<nat>, x: nat) {
    && IsFree(marked, x)
    && FreeBefore(marked, x).Some?
    && (x in done || FreeBefore(marked, x).value in done)
  }

  ghost predicate Kept(marked: map<nat, Header>, mem: map<nat, Header>, done: set<nat>) {
    && (forall x: nat :: x in mem <==> x in marked && !Joined(marked, done, x))
    && (forall x: nat | x in mem && x in marked && !marked[x].status.Free? :: mem[x] == marked[x])
    && (forall x: nat | x in mem && x in marked && marked[x].status.Free? :: mem[x].status.Free?)
  }

  /** Waiting blocks that nothing has joined are on no list. */
  ghost function Unlisted(marked: map<nat, Header>, mem: map<nat, Header>, waiting: set<nat>): set<nat> {
    set x: nat | x in waiting && x in mem && x in marked && mem[x].size == marked[x].size
  }

  ghost predicate Mid(marked: map<nat, Header>, st: State, n: nat, done: set<nat>, waiting: set<nat>) {
    && Tiles(st.mem, n)
    && Kept(marked, st.mem, done)
    && waiting <= st.mem.Keys
    && FreeListsOk(st.mem, st.free, Unlisted(marked, st.mem, waiting))
  }

  /** The block does not swallow one that waits, and is not put on a list a second time. */
  ghost predicate Good(marked: map<nat, Header>, mem: map<nat, Header>, waiting: set<nat>, a: nat)
    requires a in marked && a in mem
  {
    && a + mem[a].size !in waiting
    && (mem[a].size != marked[a].size ==> FreeBefore(mem, a).Some?)
  }

  lemma PrevIs(mem: map<nat, Header>, n: nat, p: nat, a: nat)
    requires Tiles(mem, n) && IsPrev(mem, p, a)
    ensures FreeBefore(mem, a) == if IsFree(mem, p) then Some(p) else None
  {
    if FreeBefore(mem, a).Some? {
      PrevUnique(mem, n, p, FreeBefore(mem, a).value, a);
    }
  }

  /** A block only grows, over blocks that have joined. */
  lemma Grows(marked: map<nat, Header>, mem: map<nat, Header>, n: nat, done: set<nat>, a: nat)
    requires Tiles(marked, n) && Tiles(mem, n) && Kept(marked, mem, done) && a in mem
    ensures a in marked && marked[a].size <= mem[a].size
    ensures var x := a + marked[a].size;
            mem[a].size == marked[a].size <==> !(x in marked && Joined(marked, done, x))
  {
    hide Joined;
    var x := a + marked[a].size;
    assert Fits(mem, n, a) && Fits(marked, n, a);
    assert x < a + mem[a].size ==> x !in mem;
    assert x in marked ==> Fits(marked, n, x);
  }

  /** The last block of the marked heap within a block: it is that block, or has joined. */
  lemma LastPart(marked: map<nat, Header>, mem: map<nat, Header>, n: nat, done: set<nat>, q: nat, a: nat)
    returns (p: nat)
    requires Tiles(marked, n) && Tiles(mem, n) && Kept(marked, mem, done) && IsPrev(mem, q, a) && a in marked
    ensures IsPrev(marked, p, a) && q <= p
    ensures IsFree(mem, q) <==> IsFree(marked, p)
    ensures p == q || Joined(marked, done, p)
  {
    hide Joined;
    assert Fits(mem, n, q);
    assert HasPrev(marked, a);
    p :| IsPrev(marked, p, a);
    assert Fits(marked, n, p) && Fits(marked, n, q);
    JoinedFree(marked, done, p);
    if !IsFree(mem, q) {
      PrevUnique(marked, n, p, q, a);
    }
    assert q < p ==> p !in mem;
  }

  lemma JoinedFree(marked: map<nat, Header>, done: set<nat>, x: nat)
    ensures Joined(marked, done, x) ==> IsFree(marked, x)
  {
  }

  /** A block has a free block before it exactly when it had one before the flush. */
  lemma BeforeAgrees(marked: map<nat, Header>, mem: map<nat, Header>, n: nat, done: set<nat>, a: nat)
    requires Tiles(marked, n) && Tiles(mem, n) && Kept(marked, mem, done) && a in mem
    ensures FreeBefore(mem, a).Some? <==> FreeBefore(marked, a).Some?
  {
    hide Joined;
    if a == 0 {
      NothingBeforeZero(marked, n);
      NothingBeforeZero(mem, n);
    } else {
      assert HasPrev(mem, a);
      var q: nat :| IsPrev(mem, q, a);
      var p := LastPart(marked, mem, n, done, q, a);
      hide Tiles, Kept;
      PrevIs(mem, n, q, a);
      PrevIs(marked, n, p, a);
    }
  }

  lemma NothingBeforeZero(mem: map<nat, Header>, n: nat)
    requires Tiles(mem, n)
    ensures FreeBefore(mem, 0).None?
  {
    forall p: nat | p in mem
      ensures p + mem[p].size > 0
    {
      assert Fits(mem, n, p);
    }
  }

  /** Where one free block follows another and neither has been coalesced, one is waiting. */
  lemma OneWaits(marked: map<nat, Header>, n: nat, done: set<nat>, waiting: set<nat>, p: nat, y: nat)
    requires Tiles(marked, n) && Scattered(marked, done + waiting)
    requires IsPrev(marked, p, y) && IsFree(marked, p) && IsFree(marked, y) && !Joined(marked, done, y)
    ensures p in waiting || y in waiting
  {
    PrevIs(marked, n, p, y);
    hide Tiles;
    assert FreeAfter(marked, p);
  }

  /** A free block just after one that has grown is waiting. */
  lemma GrownEnds(marked: map<nat, Header>, mem: map<nat, Header>, n: nat, done: set<nat>, waiting: set<nat>, a: nat)
    requires Tiles(marked, n) && Tiles(mem, n) && Kept(marked, mem, done) && waiting <= mem.Keys
    requires Scattered(marked, done + waiting)
    requires a in mem && a in marked && mem[a].size != marked[a].size && IsFree(mem, a + mem[a].size)
    ensures a + mem[a].size in waiting
  {
    hide Tiles, Joined, Scattered, FreeBefore;
    var y := a + mem[a].size;
    assert y in marked && IsFree(marked, y) && !Joined(marked, done, y);
    var p := LastPart(marked, mem, n, done, a, y);
    assert p != a;
    JoinedFree(marked, done, p);
    OneWaits(marked, n, done, waiting, p, y);
  }

  /** What a block has grown over is free. */
  lemma FreeUpToEnd(marked: map<nat, Header>, mem: map<nat, Header>, n: nat, done: set<nat>, a: nat)
    requires Tiles(mem, n) && Kept(marked, mem, done)
    requires IsFree(mem, a) && IsFree(mem, a + mem[a].size)
    ensures FreeThrough(marked, a, a + mem[a].size)
  {
    hide Joined;
    forall x: nat | x in marked && a <= x <= a + mem[a].size
      ensures marked[x].status.Free?
    {
      JoinedFree(marked, done, x);
    }
  }

  /** Where a block ends before one it is joined to by free blocks, a free block begins. */
  lemma FreeAtEnd(marked: map<nat, Header>, mem: map<nat, Header>, n: nat, done: set<nat>, a: nat, c: nat)
    requires Tiles(marked, n) && Tiles(mem, n) && Kept(marked, mem, done)
    requires a in mem && c in mem && a < c && FreeThrough(marked, a, c)
    ensures IsFree(mem, a + mem[a].size)
  {
    hide Joined;
    assert Fits(mem, n, a) && Fits(mem, n, c);
  }

  /** A waiting block has grown exactly when the one just after it has been coalesced. */
  lemma GrownIff(marked: map<nat, Header>, mem: map<nat, Header>, n: nat, done: set<nat>, waiting: set<nat>, a: nat)
    requires Tiles(marked, n) && Tiles(mem, n) && Kept(marked, mem, done)
    requires Scattered(marked, done + waiting) && a in waiting && a in mem && done !! waiting
    ensures a in marked
    ensures mem[a].size != marked[a].size <==> a + marked[a].size in done
  {
    Grows(marked, mem, n, done, a);
    PrevIs(marked, n, a, a + marked[a].size);
    hide Tiles, FreeBefore;
  }

  lemma WaitingBlock(marked: map<nat, Header>, mem: map<nat, Header>, n: nat, done: set<nat>, waiting: set<nat>, a: nat)
    requires Tiles(mem, n) && Kept(marked, mem, done) && waiting <= mem.Keys
    requires Scattered(marked, done + waiting) && a in waiting
    ensures a in marked && a in mem && mem[a].size > 0 && IsFree(mem, a)
  {
    assert a in marked && IsFree(marked, a) && Fits(mem, n, a);
    hide FreeBefore;
  }

  /** The ways in which the condition and the step are tied together. */
  lemma GoodFacts(marked: map<nat, Header>, mem: map<nat, Header>, n: nat, done: set<nat>, waiting: set<nat>, a: nat)
    requires Tiles(marked, n) && Tiles(mem, n) && Kept(marked, mem, done) && waiting <= mem.Keys
    requires Scattered(marked, done + waiting) && a in waiting && done !! waiting
    ensures a in marked && a in mem && mem[a].size > 0
    ensures a + mem[a].size in waiting ==> FreeThrough(marked, a, a + mem[a].size)
    ensures forall c: nat | c in waiting && c > a && FreeThrough(marked, a, c) && mem[a].size != marked[a].size ::
              a + mem[a].size in waiting
  {
    hide *;
    WaitingBlock(marked, mem, n, done, waiting, a);
    var y := a + mem[a].size;
    if y in waiting {
      WaitingBlock(marked, mem, n, done, waiting, y);
      FreeUpToEnd(marked, mem, n, done, a);
    }
    forall c: nat | c in waiting && c > a && FreeThrough(marked, a, c) && mem[a].size != marked[a].size
      ensures y in waiting
    {
      FreeAtEnd(marked, mem, n, done, a, c);
      GrownEnds(marked, mem, n, done, waiting, a);
    }
  }

  /** A coalescing step is good exactly when the condition holds at its block. */
  lemma GoodIff(marked: map<nat, Header>, mem: map<nat, Header>, n: nat, done: set<nat>, waiting: set<nat>, a: nat)
    requires Tiles(marked, n) && Tiles(mem, n) && Kept(marked, mem, done) && waiting <= mem.Keys
    requires Scattered(marked, done + waiting) && a in waiting && done !! waiting
    ensures a in marked && a in mem
    ensures Good(marked, mem, waiting, a) <==> SafeAt(marked, done, waiting, a)
  {
    hide Tiles, FreeBefore, FreeThrough, Kept, Scattered;
    GoodFacts(marked, mem, n, done, waiting, a);
    GrownIff(marked, mem, n, done, waiting, a);
    BeforeAgrees(marked, mem, n, done, a);
  }

  // ---------------------------------------------------------------------------
  // A good step
  // ---------------------------------------------------------------------------

  /** In a tiled heap the blocks that join are neighbours. */
  lemma JoinFills(mem: map<nat, Header>, n: nat, a: nat)
    requires Tiles(mem, n) && a in mem
    ensures var past, next := FreeBefore(mem, a), FreeAt(mem, a + mem[a].size);
            var size := JoinSize(mem, mem[a].size, past, next);
            Tiles(Merge(mem, JoinBlocks(a, mem[a].size, past, next), JoinStart(a, past), size), n)
  {
    hide AllFit, AllHavePrev, NoOverlap, Fills, Merge;
    var past, next := FreeBefore(mem, a), FreeAt(mem, a + mem[a].size);
    var start := JoinStart(a, past);
    FillsOne(mem, n, start);
    var d, size, last := {start}, mem[start].size, start;
    if past.Some? {
      FillsNext(mem, n, d, start, size, last);
      d, size, last := d + {a}, size + mem[a].size, a;
    }
    if next.Some? {
      FillsNext(mem, n, d, start, size, last);
      last := start + size;
      d, size := d + {last}, size + mem[last].size;
    }
    assert d == JoinBlocks(a, mem[a].size, past, next);
    MergeTiles(mem, n, d, start, size, last);
  }

  /** Coalescing a makes x join the block before it. */
  ghost predicate Joins(marked: map<nat, Header>, a: nat, x: nat) {
    IsFree(marked, x) && FreeBefore(marked, x).Some? && (x == a || FreeBefore(marked, x).value == a)
  }

  lemma JoinedMore(marked: map<nat, Header>, done: set<nat>, a: nat, x: nat)
    ensures Joined(marked, done + {a}, x) <==> Joined(marked, done, x) || Joins(marked, a, x)
  {
    hide FreeBefore;
  }

  lemma KeptFree(marked: map<nat, Header>, mem: map<nat, Header>, done: set<nat>, x: nat)
    requires Kept(marked, mem, done) && x in mem
    ensures x in marked && !Joined(marked, done, x)
    ensures IsFree(mem, x) <==> IsFree(marked, x)
  {
    hide Joined;
  }

  /** In a good step a block that joins the one after it has not grown yet. */
  lemma NotGrown(marked: map<nat, Header>, mem: map<nat, Header>, n: nat, done: set<nat>, waiting: set<nat>, a: nat)
    requires Tiles(marked, n) && Tiles(mem, n) && Kept(marked, mem, done) && waiting <= mem.Keys
    requires Scattered(marked, done + waiting) && a in waiting && a in mem && a in marked
    requires Good(marked, mem, waiting, a) && IsFree(mem, a + mem[a].size)
    ensures mem[a].size == marked[a].size
  {
    hide Tiles, Kept, Scattered, IsFree;
    if mem[a].size != marked[a].size {
      GrownEnds(marked, mem, n, done, waiting, a);
    }
  }

  /** Only the block just after a finds a before it. */
  lemma BehindIs(marked: map<nat, Header>, n: nat, a: nat, x: nat)
    requires Tiles(marked, n) && IsFree(marked, a)
    ensures FreeBefore(marked, x).Some? && FreeBefore(marked, x).value == a <==> x == a + marked[a].size
  {
    if x == a + marked[a].size {
      PrevIs(marked, n, a, x);
    }
  }

  /** The blocks that join the one before them are those that the step takes. */
  lemma JoinsIs(marked: map<nat, Header>, mem: map<nat, Header>, n: nat, done: set<nat>, waiting: set<nat>, a: nat,
                x: nat)
    requires Tiles(marked, n) && Tiles(mem, n) && Kept(marked, mem, done) && waiting <= mem.Keys
    requires Scattered(marked, done + waiting) && a in waiting && a in mem && a in marked
    requires Good(marked, mem, waiting, a) && x in mem
    ensures Joins(marked, a, x) <==>
            (x == a && FreeBefore(mem, a).Some?) || (x == a + mem[a].size && FreeAt(mem, x).Some?)
  {
    hide Tiles, FreeBefore, Kept, Scattered, Good, Joined;
    WaitingBlock(marked, mem, n, done, waiting, a);
    KeptFree(marked, mem, done, a);
    KeptFree(marked, mem, done, x);
    if x == a {
      BeforeAgrees(marked, mem, n, done, a);
    } else {
      BehindIs(marked, n, a, x);
      if x == a + mem[a].size && IsFree(mem, x) {
        NotGrown(marked, mem, n, done, waiting, a);
      }
      Grows(marked, mem, n, done, a);
    }
  }

  lemma JoinShape(mem: map<nat, Header>, n: nat, a: nat)
    requires Tiles(mem, n) && IsFree(mem, a)
    ensures var past, next := FreeBefore(mem, a), FreeAt(mem, a + mem[a].size);
            var d, start := JoinBlocks(a, mem[a].size, past, next), JoinStart(a, past);
            && start in d && start <= a
            && (forall x: nat | x in d :: IsFree(mem, x))
            && (forall x: nat :: x in d && x != start <==>
                  (x == a && past.Some?) || (x == a + mem[a].size && FreeAt(mem, x).Some?))
  {
    hide Tiles, FreeBefore;
    Positive(mem, n, a);
    if FreeBefore(mem, a).Some? {
      Positive(mem, n, FreeBefore(mem, a).value);
    }
  }

  lemma Positive(mem: map<nat, Header>, n: nat, a: nat)
    requires Tiles(mem, n) && a in mem
    ensures mem[a].size > 0
  {
    assert Fits(mem, n, a);
  }

  lemma MergeKept(marked: map<nat, Header>, mem: map<nat, Header>, done: set<nat>, a: nat, d: set<nat>, start: nat,
                  size: nat)
    requires Kept(marked, mem, done) && start in d && forall x: nat | x in d :: IsFree(mem, x)
    requires forall x: nat | x in mem :: x in d && x != start <==> Joins(marked, a, x)
    ensures Kept(marked, Merge(mem, d, start, size), done + {a})
  {
    var mem' := Merge(mem, d, start, size);
    MergeAt(mem, d, start, size);
    hide Merge, Joined, Joins;
    forall x: nat
      ensures x in mem' <==> x in marked && !Joined(marked, done + {a}, x)
    {
      JoinedMore(marked, done, a, x);
    }
  }

  /** What a good step keeps of the relation to the marked heap. */
  lemma StepKept(marked: map<nat, Header>, mem: map<nat, Header>, n: nat, done: set<nat>, waiting: set<nat>, a: nat)
    requires Tiles(marked, n) && Tiles(mem, n) && Kept(marked, mem, done) && waiting <= mem.Keys
    requires Scattered(marked, done + waiting) && a in waiting && a in mem && a in marked
    requires Good(marked, mem, waiting, a)
    ensures var past, next := FreeBefore(mem, a), FreeAt(mem, a + mem[a].size);
            var d, start := JoinBlocks(a, mem[a].size, past, next), JoinStart(a, past);
            Kept(marked, Merge(mem, d, start, JoinSize(mem, mem[a].size, past, next)), done + {a})
  {
    var past, next := FreeBefore(mem, a), FreeAt(mem, a + mem[a].size);
    var d, start := JoinBlocks(a, mem[a].size, past, next), JoinStart(a, past);
    var size := JoinSize(mem, mem[a].size, past, next);
    hide *;
    WaitingBlock(marked, mem, n, done, waiting, a);
    JoinShape(mem, n, a);
    forall x: nat | x in mem
      ensures x in d && x != start <==> Joins(marked, a, x)
    {
      JoinsIs(marked, mem, n, done, waiting, a, x);
    }
    MergeKept(marked, mem, done, a, d, start, size);
  }

  /** A block on no list leaves none. */
  lemma StripAbsent(mem: map<nat, Header>, free: seq<seq<nat>>, off: set<nat>, a: nat)
    requires FreeListsOk(mem, free, off) && a in off
    ensures Stripped(free, free, {a})
  {
    StripNone(mem, free, off);
    forall c: nat, x: nat | c < NUM_FREE_LISTS
      ensures StrippedAt(free[c], free[c], {a}, x)
    {
      assert a in free[c] <==> OnFreeList(mem, a, c) && a !in off;
    }
  }

  lemma StripTwo(mem: map<nat, Header>, free: seq<seq<nat>>, off: set<nat>, a: nat, b: nat)
    requires FreeListsOk(mem, free, off)
    ensures Stripped(free, Remove<nat>(Remove<nat>(free, a), b), {a, b})
  {
    hide FreeListsOk, Stripped, Remove;
    StripNone(mem, free, off);
    StripOne(free, free, {}, a);
    StripOne(free, Remove<nat>(free, a), {} + {a}, b);
    assert {} + {a} + {b} == {a, b};
  }

  lemma StripThree(mem: map<nat, Header>, free: seq<seq<nat>>, off: set<nat>, a: nat, b: nat, c: nat)
    requires FreeListsOk(mem, free, off)
    ensures Stripped(free, Remove<nat>(Remove<nat>(Remove<nat>(free, a), b), c), {b, a, c})
  {
    hide FreeListsOk, Stripped, Remove;
    StripTwo(mem, free, off, a, b);
    StripOne(free, Remove<nat>(Remove<nat>(free, a), b), {a, b}, c);
    assert {a, b} + {c} == {b, a, c};
  }

  lemma JoinStrips(mem: map<nat, Header>, free: seq<seq<nat>>, off: set<nat>, a: nat, size: nat,
                   past: Option<nat>, next: Option<nat>)
    requires FreeListsOk(mem, free, off) && (past.None? && next.None? ==> a in off)
    ensures Stripped(free, JoinRest(free, a, size, past, next), JoinBlocks(a, size, past, next))
  {
    hide FreeListsOk, Stripped, Remove;
    var d := JoinBlocks(a, size, past, next);
    match (past, next)
    case (None, None) =>
      assert d == {a};
      StripAbsent(mem, free, off, a);
    case (Some(p), None) =>
      assert d == {a, p};
      StripTwo(mem, free, off, a, p);
    case (None, Some(s)) =>
      assert d == {a, a + size};
      StripTwo(mem, free, off, a, a + size);
    case (Some(p), Some(s)) =>
      assert d == {p, a, a + size};
      StripThree(mem, free, off, a, p, a + size);
  }

  /** Each block that joins leaves its list, and the result is put on its own. */
  lemma JoinLists(st: State, off: set<nat>, a: nat, size: nat, past: Option<nat>, next: Option<nat>)
    requires FreeListsOk(st.mem, st.free, off) && (past.Some? ==> past.value in st.mem)
    requires past.None? && next.None? ==> a in off
    ensures |st.free| == NUM_FREE_LISTS
    ensures var st' := Join(st, a, size, past, next);
            FreeListsOk(st'.mem, st'.free, off - JoinBlocks(a, size, past, next))
  {
    assert |st.free| == NUM_FREE_LISTS;
    hide FreeListsOk, Stripped, JoinRest, Push, Merge, SizeClass;
    JoinStrips(st.mem, st.free, off, a, size, past, next);
    MergeFreeLists(st.mem, st.free, off, JoinRest(st.free, a, size, past, next), JoinBlocks(a, size, past, next),
                   JoinStart(a, past), JoinSize(st.mem, size, past, next));
  }

  /** Which waiting blocks are still on no list. */
  lemma UnlistedStep(marked: map<nat, Header>, mem: map<nat, Header>, waiting: set<nat>, a: nat,
                     d: set<nat>, start: nat, size: nat)
    requires a in d && start in d && (start != a && start in marked ==> size > marked[start].size)
    requires forall x: nat | x in d && x in waiting :: x == a || x == start
    requires waiting <= mem.Keys
    ensures var mem' := Merge(mem, d, start, size);
            && Unlisted(marked, mem', waiting - {a}) == Unlisted(marked, mem, waiting) - d
            && waiting - {a} <= mem'.Keys
  {
    MergeAt(mem, d, start, size);
    hide Merge;
    var mem' := Merge(mem, d, start, size);
    forall x: nat
      ensures x in Unlisted(marked, mem', waiting - {a}) <==> x in Unlisted(marked, mem, waiting) - d
    {
    }
  }

  /** The sizes that the step relies on. */
  lemma StepSizes(marked: map<nat, Header>, mem: map<nat, Header>, n: nat, done: set<nat>, waiting: set<nat>, a: nat)
    requires Tiles(marked, n) && Tiles(mem, n) && Kept(marked, mem, done) && a in mem && a in marked
    requires Good(marked, mem, waiting, a)
    ensures var past, next := FreeBefore(mem, a), FreeAt(mem, a + mem[a].size);
            var d, start := JoinBlocks(a, mem[a].size, past, next), JoinStart(a, past);
            var size := JoinSize(mem, mem[a].size, past, next);
            && (start != a && start in marked ==> size > marked[start].size)
            && (forall x: nat | x in d && x in waiting :: x == a || x == start)
            && (past.None? && next.None? && a in waiting ==> a in Unlisted(marked, mem, waiting))
  {
    hide Tiles, Kept, FreeBefore;
    Positive(mem, n, a);
    Grows(marked, mem, n, done, JoinStart(a, FreeBefore(mem, a)));
  }

  lemma CoalesceIs(st: State, a: nat)
    requires a in st.mem && |st.free| == NUM_FREE_LISTS
    ensures var size := st.mem[a].size;
            var past, next := FreeBefore(st.mem, a), FreeAt(st.mem, a + size);
            && (past.Some? ==> past.value in st.mem)
            && Coalesce(st, a) == Join(st, a, size, past, next)
            && Coalesce(st, a).mem ==
               Merge(st.mem, JoinBlocks(a, size, past, next), JoinStart(a, past), JoinSize(st.mem, size, past, next))
  {
    hide FreeBefore, FreeAt, Merge, Push, JoinBlocks, JoinStart, JoinSize, JoinRest, SizeClass;
  }

  /** What a good step establishes, piece by piece. */
  lemma GoodStepParts(marked: map<nat, Header>, st: State, n: nat, done: set<nat>, waiting: set<nat>, a: nat)
    requires Tiles(marked, n) && Tiles(st.mem, n) && Kept(marked, st.mem, done) && waiting <= st.mem.Keys
    requires Scattered(marked, done + waiting) && a in waiting && a in st.mem && a in marked
    requires FreeListsOk(st.mem, st.free, Unlisted(marked, st.mem, waiting)) && Good(marked, st.mem, waiting, a)
    requires |st.free| == NUM_FREE_LISTS
    ensures var st' := Coalesce(st, a);
            && Tiles(st'.mem, n) && Kept(marked, st'.mem, done + {a}) && waiting - {a} <= st'.mem.Keys
            && FreeListsOk(st'.mem, st'.free, Unlisted(marked, st'.mem, waiting - {a}))
  {
    hide *;
    var size := st.mem[a].size;
    var past, next := FreeBefore(st.mem, a), FreeAt(st.mem, a + size);
    var d, start := JoinBlocks(a, size, past, next), JoinStart(a, past);
    CoalesceIs(st, a);
    WaitingBlock(marked, st.mem, n, done, waiting, a);
    JoinFills(st.mem, n, a);
    JoinShape(st.mem, n, a);
    JoinHas(a, size, past, next);
    StepKept(marked, st.mem, n, done, waiting, a);
    StepSizes(marked, st.mem, n, done, waiting, a);
    JoinLists(st, Unlisted(marked, st.mem, waiting), a, size, past, next);
    UnlistedStep(marked, st.mem, waiting, a, d, start, JoinSize(st.mem, size, past, next));
  }

  /** A good step leads to the middle of the flush again, with one more block done. */
  lemma GoodStep(marked: map<nat, Header>, st: State, n: nat, done: set<nat>, waiting: set<nat>, a: nat)
    requires Tiles(marked, n) && Scattered(marked, done + waiting) && a in waiting
    requires Mid(marked, st, n, done, waiting) && a in st.mem && a in marked && Good(marked, st.mem, waiting, a)
    ensures |st.free| == NUM_FREE_LISTS
    ensures Mid(marked, Coalesce(st, a), n, done + {a}, waiting - {a})
  {
    assert |st.free| == NUM_FREE_LISTS;
    hide Tiles, Kept, FreeListsOk, Unlisted, Scattered, Good, Coalesce;
    GoodStepParts(marked, st, n, done, waiting, a);
  }

  lemma JoinHas(a: nat, size: nat, past: Option<nat>, next: Option<nat>)
    ensures a in JoinBlocks(a, size, past, next)
  {
  }

  /** What is known of the headers left behind. */
  ghost predicate StaleOk(marked: map<nat, Header>, f: Flushing) {
    f.stale.Keys <= marked.Keys && forall x: nat | x in f.stale :: f.stale[x].size > 0
  }

  lemma NextIs(marked: map<nat, Header>, f: Flushing, n: nat, a: nat)
    requires Tiles(marked, n) && Tiles(f.st.mem, n) && StaleOk(marked, f) && a in f.st.mem
    ensures FreeHeaderAt(f, a + f.st.mem[a].size) == FreeAt(f.st.mem, a + f.st.mem[a].size)
  {
    var next := a + f.st.mem[a].size;
    assert Fits(f.st.mem, n, a);
    assert next in marked ==> Fits(marked, n, next);
    hide Tiles;
  }

  lemma StaleStays(marked: map<nat, Header>, f: Flushing, n: nat, done: set<nat>, a: nat)
    requires Tiles(f.st.mem, n) && Kept(marked, f.st.mem, done) && StaleOk(marked, f) && |f.st.free| == NUM_FREE_LISTS
    ensures StaleOk(marked, CoalesceAt(f, a))
  {
    hide Tiles, Joined, Join, FreeBefore, FreeHeaderAt;
    forall x: nat | x in f.st.mem
      ensures f.st.mem[x].size > 0
    {
      Positive(f.st.mem, n, x);
    }
  }

  /** As long as the blocks tile the arena, the flush sees no header that was left behind. */
  lemma InTurnIs(marked: map<nat, Header>, f: Flushing, n: nat, a: nat)
    requires Tiles(marked, n) && Tiles(f.st.mem, n) && StaleOk(marked, f)
    requires a in f.st.mem && |f.st.free| == NUM_FREE_LISTS
    ensures CoalesceAt(f, a).st == Coalesce(f.st, a)
  {
    hide Tiles, Join, FreeBefore, FreeAt, FreeHeaderAt;
    NextIs(marked, f, n, a);
  }

  // ---------------------------------------------------------------------------
  // The ends of a flush
  // ---------------------------------------------------------------------------

  lemma MarkedAt(mem: map<nat, Header>, l: seq<nat>)
    ensures var marked := Marked(mem, l);
            && marked.Keys == mem.Keys
            && (forall a: nat | a in mem && a in l :: marked[a] == Header(mem[a].size, Free))
            && (forall a: nat | a in mem && a !in l :: marked[a] == mem[a])
  {
  }

  lemma MarkedScattered(mem: map<nat, Header>, l: seq<nat>)
    requires NoAdjacentFree(mem) && forall a: nat | a in l :: a in mem
    ensures Scattered(Marked(mem, l), Elements(l))
  {
    MarkedAt(mem, l);
    var marked := Marked(mem, l);
    hide Marked;
    forall a: nat | IsFree(marked, a) && FreeAfter(marked, a)
      ensures a in Elements(l) || a + marked[a].size in Elements(l)
    {
      assert IsFree(mem, a) ==> !FreeAfter(mem, a);
    }
  }

  lemma MarkedFreeLists(mem: map<nat, Header>, free: seq<seq<nat>>, l: seq<nat>)
    requires FreeListsOk(mem, free, {}) && forall a: nat | a in l :: a in mem && !mem[a].status.Free?
    ensures FreeListsOk(Marked(mem, l), free, Elements(l))
  {
    MarkedAt(mem, l);
    var marked := Marked(mem, l);
    hide Marked, SizeClass;
    forall c: nat, a: nat | c < NUM_FREE_LISTS
      ensures a in free[c] <==> OnFreeList(marked, a, c) && a !in Elements(l)
    {
      assert a in free[c] <==> OnFreeList(mem, a, c);
    }
  }

  lemma MarkedQuickLists(mem: map<nat, Header>, quick: seq<seq<nat>>, l: seq<nat>)
    requires QuickListsOk(mem, quick, Elements(l))
    ensures QuickListsOk(Marked(mem, l), quick, {})
  {
    MarkedAt(mem, l);
    var marked := Marked(mem, l);
    hide Marked, QuickIndex;
    forall c: nat, a: nat | c < NUM_QUICK_LISTS
      ensures a in quick[c] <==> OnQuickList(marked, {}, a, c)
    {
      assert a in quick[c] <==> OnQuickList(mem, Elements(l), a, c);
    }
  }

  lemma MarkedKept(mem: map<nat, Header>, l: seq<nat>)
    requires forall a: nat | a in l :: a in mem
    ensures var marked := Marked(mem, l);
            Kept(marked, marked, {}) && Elements(l) <= marked.Keys
            && Unlisted(marked, marked, Elements(l)) == Elements(l)
  {
    hide FreeBefore;
  }

  /** Marking the blocks is the beginning of the middle. */
  lemma FlushBegins(st: State, n: nat, l: seq<nat>)
    requires InvPending(st, n, Elements(l))
    ensures var marked := Marked(st.mem, l);
            && Tiles(marked, n) && Scattered(marked, Elements(l))
            && Mid(marked, State(marked, st.free, st.quick), n, {}, Elements(l))
            && QuickListsOk(marked, st.quick, {})
  {
    assert forall a: nat | a in l :: a in Elements(l);
    assert forall a: nat | a in l :: a in st.mem && st.mem[a].status.Quick?;
    hide Tiles, NoAdjacentFree, FreeListsOk, QuickListsOk, Elements, Kept, Scattered, Unlisted;
    MarkedAt(st.mem, l);
    SameTiles(st.mem, Marked(st.mem, l), n);
    MarkedScattered(st.mem, l);
    MarkedFreeLists(st.mem, st.free, l);
    MarkedQuickLists(st.mem, st.quick, l);
    MarkedKept(st.mem, l);
    hide Marked;
  }

  lemma EndNoAdjacent(marked: map<nat, Header>, mem: map<nat, Header>, n: nat, done: set<nat>)
    requires Tiles(marked, n) && Tiles(mem, n) && Kept(marked, mem, done) && Scattered(marked, done)
    ensures NoAdjacentFree(mem)
  {
    hide Tiles, Kept, Scattered, FreeBefore, Joined;
    forall a: nat | a in mem && mem[a].status.Free?
      ensures !FreeAfter(mem, a)
    {
      var y := a + mem[a].size;
      if IsFree(mem, y) {
        KeptFree(marked, mem, done, y);
        var p := LastPart(marked, mem, n, done, a, y);
        assert done + {} == done;
        OneWaits(marked, n, done, {}, p, y);
      }
    }
  }

  lemma EndQuickLists(marked: map<nat, Header>, mem: map<nat, Header>, quick: seq<seq<nat>>, done: set<nat>)
    requires QuickListsOk(marked, quick, {}) && Kept(marked, mem, done)
    ensures QuickListsOk(mem, quick, {})
  {
    hide QuickIndex, FreeBefore;
    forall c: nat, a: nat | c < NUM_QUICK_LISTS
      ensures a in quick[c] <==> OnQuickList(mem, {}, a, c)
    {
      assert a in quick[c] <==> OnQuickList(marked, {}, a, c);
    }
  }

  lemma EndLive(marked: map<nat, Header>, mem: map<nat, Header>, done: set<nat>)
    requires Kept(marked, mem, done)
    ensures forall a: nat :: a in mem && mem[a].status.Live? <==> a in marked && marked[a].status.Live?
    ensures forall a: nat | a in mem && mem[a].status.Live? :: a in marked && mem[a] == marked[a]
  {
    hide FreeBefore;
  }

  /** When no block waits any more the heap is in order. */
  lemma FlushEnds(marked: map<nat, Header>, st: State, n: nat, done: set<nat>)
    requires Tiles(marked, n) && Scattered(marked, done) && QuickListsOk(marked, st.quick, {})
    requires Mid(marked, st, n, done, {})
    ensures Inv(st, n)
  {
    assert Unlisted(marked, st.mem, {}) == {};
    hide Tiles, Kept, FreeListsOk, QuickListsOk, Scattered, NoAdjacentFree, Unlisted;
    EndNoAdjacent(marked, st.mem, n, done);
    EndQuickLists(marked, st.mem, st.quick, done);
  }
}
