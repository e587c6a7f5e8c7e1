/** Every run of sf_malloc and sf_free on a fixed arena. */
module SfRuns {
  import opened Prelude
  import opened SfLists
  import opened SfPointers
  import opened SfQuickLists
  import opened SfHeap
  import opened SfFlush
  import opened SfAlloc
  import opened SfMalloc

  datatype Op = DoMalloc(size: nat) | DoFree(block: nat)

  /** One call: any request, or the release of a live block. */
  ghost predicate Step(s: State, op: Op, t: State) {
    match op
    case DoMalloc(size) => t == Request(s, size).1
    case DoFree(block) =>
      block in LiveBlocks(s) && |s.quick| == NUM_QUICK_LISTS && |s.free| == NUM_FREE_LISTS && t == Release(s, block)
  }

  ghost predicate IsRun(states: seq<State>, ops: seq<Op>) {
    && |states| == |ops| + 1
    && forall i | 0 <= i < |ops| :: Step(states[i], ops[i], states[i + 1])
  }

  lemma RoundedLegal(size: nat)
    ensures Rounded(size) % 16 == 0 && MIN_BLOCK <= Rounded(size)
  {
    RoundedLeast(size, (size + 40) * 16);
  }

  /** Every flush that the call asks for is safe. */
  ghost predicate Safe(s: State, op: Op) {
    op.DoFree? ==> SafeRelease(s, op.block)
  }

  ghost predicate SafeUpTo(states: seq<State>, ops: seq<Op>, i: nat)
    requires i <= |ops| < |states|
  {
    forall k | 0 <= k < i :: Safe(states[k], ops[k])
  }

  ghost predicate SameBut(before: map<nat, nat>, after: map<nat, nat>, op: Op) {
    forall a: nat | a in before && op != DoFree(a) :: a in after && after[a] == before[a]
  }

  /**
   * A call keeps the invariant exactly when it makes no unsafe flush, and then a block that is live and not released
   * stays live with its size.
   */
  lemma StepKeepsIff(s: State, op: Op, t: State, n: nat)
    requires Inv(s, n) && Step(s, op, t)
    ensures Inv(t, n) <==> Safe(s, op)
    ensures Safe(s, op) ==> SameBut(LiveBlocks(s), LiveBlocks(t), op)
  {
    hide Inv, LiveBlocks, Malloc, Release, SafeRelease, Rounded, ToInt32;
    match op
    case DoMalloc(size) =>
      RoundedLegal(size);
      MallocKeeps(s, n, Rounded(size));
      var (r, st') := Malloc(s, Rounded(size));
      if r.Some? {
        var k: nat :| Granted(LiveBlocks(s), LiveBlocks(st'), r.value, Rounded(size), k);
      }
    case DoFree(block) =>
      ReleaseKeepsIff(s, n, block);
  }

  /** All the states of a run satisfy the invariant if and only if it makes no unsafe flush. */
  lemma {:induction false} RunKeepsIff(states: seq<State>, ops: seq<Op>, n: nat, i: nat)
    requires IsRun(states, ops) && Inv(states[0], n) && i < |states|
    ensures (forall k | 0 <= k <= i :: Inv(states[k], n)) <==> SafeUpTo(states, ops, i)
  {
    hide Inv, Step, Safe;
    if i > 0 {
      RunKeepsIff(states, ops, n, i - 1);
      assert Step(states[i - 1], ops[i - 1], states[i]);
      if Inv(states[i - 1], n) {
        StepKeepsIff(states[i - 1], ops[i - 1], states[i], n);
      }
    }
  }

  /** A block that is live at one point of a run and not released before another is still there, with its size. */
  lemma {:induction false} LiveBlocksStay(states: seq<State>, ops: seq<Op>, n: nat, i: nat, j: nat, a: nat)
    requires IsRun(states, ops) && Inv(states[0], n) && i <= j < |states| && SafeUpTo(states, ops, j)
    requires a in LiveBlocks(states[i]) && forall k | i <= k < j :: ops[k] != DoFree(a)
    ensures a in LiveBlocks(states[j]) && LiveBlocks(states[j])[a] == LiveBlocks(states[i])[a]
    decreases j
  {
    hide Inv, Step, Safe, LiveBlocks;
    if i < j {
      LiveBlocksStay(states, ops, n, i, j - 1, a);
      RunKeepsIff(states, ops, n, j - 1);
      StepKeepsIff(states[j - 1], ops[j - 1], states[j], n);
    }
  }

  /** Live blocks never overlap and stay inside the arena. */
  lemma LiveBlocksDisjoint(states: seq<State>, ops: seq<Op>, n: nat, i: nat, a: nat, b: nat)
    requires IsRun(states, ops) && Inv(states[0], n) && i < |states| && SafeUpTo(states, ops, i)
    requires a in LiveBlocks(states[i]) && b in LiveBlocks(states[i]) && a < b
    ensures a + LiveBlocks(states[i])[a] <= b && b + LiveBlocks(states[i])[b] <= n
  {
    RunKeepsIff(states, ops, n, i);
    hide Step, Safe;
    assert Inv(states[i], n);
    assert Fits(states[i].mem, n, b);
  }

  // ---------------------------------------------------------------------------
  // The quick lists are used
  // ---------------------------------------------------------------------------

  /** Quick list c holds blocks of one size, so the search for that size stops there. */
  lemma QuickFitIs(st: State, n: nat, size: nat, c: nat)
    requires Inv(st, n) && c < NUM_QUICK_LISTS && st.quick[c] != [] && SizeAt(st.mem, st.quick[c][0]) == size
    ensures QuickFit(st.mem, st.quick, size, 0) == Some(c)
  {
    QuickFitFinds(st.mem, st.quick, size, 0);
    hide Tiles, NoAdjacentFree, FreeListsOk, QuickFit;
    forall d: nat | d < NUM_QUICK_LISTS && st.quick[d] != []
      ensures SizeAt(st.mem, st.quick[d][0]) == 32 + 16 * d
    {
      assert st.quick[d][0] in st.quick[d];
      assert OnQuickList(st.mem, {}, st.quick[d][0], d);
      QuickIndexBound(st.mem[st.quick[d][0]].size);
    }
  }

  lemma ReleasePushes(st: State, n: nat, a: nat) returns (c: nat)
    requires Inv(st, n) && a in LiveBlocks(st)
    requires exists c: nat :: c < 10 && LiveBlocks(st)[a] == 32 + 16 * c && c < |st.quick| && |st.quick[c]| < 5
    ensures |st.quick| == NUM_QUICK_LISTS && |st.free| == NUM_FREE_LISTS && c < NUM_QUICK_LISTS && a in st.mem
    ensures var st' := Release(st, a);
            && Inv(st', n) && |st'.quick| == NUM_QUICK_LISTS
            && st'.quick[c] != [] && st'.quick[c][0] == a && a in st'.mem && SizeAt(st'.mem, a) == st.mem[a].size
            && TakeQuick(st', c) == st
  {
    assert |st.quick| == NUM_QUICK_LISTS && |st.free| == NUM_FREE_LISTS;
    assert a in st.mem && st.mem[a].status.Live?;
    QuickIndexBound(st.mem[a].size);
    c := QuickIndex(st.mem[a].size).value;
    hide Inv, FlushSafe, Flush, QuickIndex, LiveBlocks;
    ReleaseKeepsIff(st, n, a);
    PushedAndTaken(st, a, c);
  }

  lemma PushedAndTaken(st: State, a: nat, c: nat)
    requires |st.quick| == NUM_QUICK_LISTS && |st.free| == NUM_FREE_LISTS && c < NUM_QUICK_LISTS
    requires a in st.mem && st.mem[a].status.Live?
    requires QuickIndex(st.mem[a].size) == Some(c) && |st.quick[c]| < QUICK_LIST_MAX
    ensures var st' := Release(st, a);
            && |st'.quick| == NUM_QUICK_LISTS
            && st'.quick[c] != [] && st'.quick[c][0] == a && a in st'.mem && SizeAt(st'.mem, a) == st.mem[a].size
            && TakeQuick(st', c) == st
  {
    hide FlushSafe, Flush, QuickIndex;
    var st' := Release(st, a);
    assert st'.quick == Push(st.quick, c, a);
    assert st'.quick[c][1..] == st.quick[c];
    assert TakeQuick(st', c).mem == st.mem;
  }

  /**
   * Releasing a block whose quick list has room and then asking for as much again gives the same block, and leaves
   * everything as it was before the release.
   */
  lemma ReleaseThenRequest(st: State, n: nat, a: nat, size: nat)
    requires Inv(st, n) && a in LiveBlocks(st) && 0 < size < 0x8000_0000 && Rounded(size) == LiveBlocks(st)[a]
    requires exists c: nat :: c < 10 && LiveBlocks(st)[a] == 32 + 16 * c && c < |st.quick| && |st.quick[c]| < 5
    ensures |st.quick| == NUM_QUICK_LISTS && |st.free| == NUM_FREE_LISTS
    ensures Request(Release(st, a), size) == (Served(a), st)
  {
    hide Inv, Release, Flush, QuickFit, FirstFit, Rounded;
    var c := ReleasePushes(st, n, a);
    QuickFitIs(Release(st, a), n, st.mem[a].size, c);
  }

  /**
   * A request for the size of the block on top of a quick list is served with such a block, and nothing is cut or
   * joined.
   */
  lemma QuickServed(st: State, n: nat, size: nat, c: nat)
    requires Inv(st, n) && 0 < size < 0x8000_0000
    requires c < |st.quick| && st.quick[c] != [] && SizeAt(st.mem, st.quick[c][0]) == Rounded(size)
    ensures var (r, st') := Request(st, size);
            && r == Served(st.quick[c][0])
            && st'.free == st.free && st'.quick == st.quick[c := st.quick[c][1..]]
            && st'.mem.Keys == st.mem.Keys && forall x: nat | x in st.mem :: st'.mem[x].size == st.mem[x].size
  {
    assert |st.quick| == NUM_QUICK_LISTS;
    assert st.quick[c][0] in st.mem by {
      assert st.quick[c][0] in st.quick[c];
      assert OnQuickList(st.mem, {}, st.quick[c][0], c);
    }
    hide Inv, QuickFit, FirstFit, Rounded;
    QuickFitIs(st, n, Rounded(size), c);
  }

  /** What a request comes to. */
  lemma RequestOutcome(st: State, n: nat, size: nat)
    requires Inv(st, n)
    ensures var r := Request(st, size).0;
            && (r == Null <==> size == 0)
            && (r == NoMemory <==> size > 0 && size % 0x1_0000_0000 >= 0x8000_0000)
            && (r == MustGrow <==>
                  && size > 0 && size % 0x1_0000_0000 < 0x8000_0000
                  && (forall c | 0 <= c < |st.quick| && st.quick[c] != [] ::
                      SizeAt(st.mem, st.quick[c][0]) != Rounded(size))
                  && (forall b: nat | IsFree(st.mem, b) :: st.mem[b].size < Rounded(size)))
  {
    hide Inv, QuickFit, FirstFit, Rounded, Carve, TakeQuick, LiveBlocks, SizeClass;
    RoundedLegal(size);
    MallocKeeps(st, n, Rounded(size));
    FirstFitIsLowestClass(st, n, Rounded(size));
    QuickFitFinds(st.mem, st.quick, Rounded(size), 0);
    ListsKnown(st, n);
  }

  /** Every byte of the arena belongs to a block. */
  lemma {:induction false} TilesCover(mem: map<nat, Header>, n: nat, x: nat) returns (a: nat)
    requires Tiles(mem, n) && x < n
    ensures a in mem && a <= x < a + mem[a].size
    ensures forall b: nat | b in mem && b <= x < b + mem[b].size :: b == a
  {
    if x == 0 {
      a := 0;
      assert Fits(mem, n, 0);
    } else {
      a := TilesCover(mem, n, x - 1);
      assert Fits(mem, n, a);
      if x == a + mem[a].size {
        a := x;
        assert Fits(mem, n, x);
      }
    }
  }

  /** A request that a list can serve is granted as a block that is new, large enough and apart from every live one. */
  lemma RequestServed(s: State, n: nat, size: nat, a: nat)
    requires Inv(s, n) && Request(s, size).0 == Served(a)
    ensures var t := Request(s, size).1;
            && a !in LiveBlocks(s) && a in LiveBlocks(t)
            && size + 8 <= LiveBlocks(t)[a]
            && (forall b: nat | b in LiveBlocks(s) ::
                  b + LiveBlocks(s)[b] <= a || a + LiveBlocks(t)[a] <= b)
  {
    RoundedLeast(size, (size + 40) * 16);
    RoundedLegal(size);
    var t := Request(s, size).1;
    MallocKeeps(s, n, Rounded(size));
    var k: nat :| Granted(LiveBlocks(s), LiveBlocks(t), a, Rounded(size), k);
    hide Malloc, Rounded, Request, AllFit, AllHavePrev, NoAdjacentFree, FreeListsOk, QuickListsOk;
    assert Inv(t, n);
    forall b: nat | b in LiveBlocks(s)
      ensures b + LiveBlocks(s)[b] <= a || a + LiveBlocks(t)[a] <= b
    {
      assert b in LiveBlocks(t) && LiveBlocks(t)[b] == LiveBlocks(s)[b];
      assert b in t.mem && a in t.mem;
    }
  }

  /** The heap that sf_init_first_page sets up: one free block of 4080 bytes on list 7. */
  lemma FirstPage()
    ensures SizeClass(4080) == 7
    ensures Inv(State(map[0 := Header(4080, Free)],
                      [[], [], [], [], [], [], [], [0], [], []], [[], [], [], [], [], [], [], [], [], []]), 4080)
  {
    var mem: map<nat, Header> := map[0 := Header(4080, Free)];
    assert Fits(mem, 4080, 0);
    var free: seq<seq<nat>> := [[], [], [], [], [], [], [], [0], [], []];
    forall c: nat, a: nat | c < NUM_FREE_LISTS
      ensures a in free[c] <==> OnFreeList(mem, a, c)
    {
    }
  }

  // ---------------------------------------------------------------------------
  // The allocator with its link words takes these steps
  // ---------------------------------------------------------------------------

  method Perform(heap: Allocator, op: Op, ghost t: State)
    requires heap.Valid() && Step(heap.Now(), op, t) && Safe(heap.Now(), op)
    modifies heap.Repr()
    ensures heap.Valid() && heap.Now() == t
  {
    hide Request, Release, SafeRelease, LiveBlocks, Inv, FreeLists.Valid, QuickLists.Valid;
    match op
    case DoMalloc(size) =>
      var _ := heap.Malloc(size);
    case DoFree(block) =>
      heap.Free(block);
  }

  /**
   * Any run without an unsafe flush is carried out on the link words: lists stay rings, stacks stay chains, and the
   * state is that of the run.
   */
  method PerformAll(heap: Allocator, ops: seq<Op>, ghost states: seq<State>)
    requires IsRun(states, ops) && heap.Valid() && heap.Now() == states[0] && SafeUpTo(states, ops, |ops|)
    modifies heap.Repr()
    ensures heap.Valid() && heap.Now() == states[|ops|]
  {
    hide Step, Safe, Inv, FreeLists.Valid, QuickLists.Valid;
    for i := 0 to |ops|
      invariant heap.Valid() && heap.Now() == states[i]
    {
      Perform(heap, ops[i], states[i + 1]);
    }
  }
}
