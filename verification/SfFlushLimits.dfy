/** A run of fourteen calls after which two live blocks overlap: five neighbours are released in falling order. */
module SfFlushLimits {
  import opened Prelude
  import opened SfLists
  import opened SfHeap
  import opened SfFlush
  import opened SfFlushIff
  import opened SfAlloc
  import opened SfMalloc
  import opened SfRuns

  /** Ten empty lists. */
  function NoLists(): (r: seq<seq<nat>>)
    ensures |r| == 10 && forall c | 0 <= c < 10 :: r[c] == []
  {
    seq(10, _ => [])
  }

  // ---------------------------------------------------------------------------
  // Up to the flush
  // ---------------------------------------------------------------------------

  const CUTS: set<nat> := {0, 32, 64, 96, 128, 160, 192}

  /**
   * The first page with k blocks of 32 bytes cut off at its start, of which those of q wait on the first quick list.
   */
  function Page(k: nat, q: seq<nat>): map<nat, Header>
    requires k <= 6
  {
    map a: nat | a in CUTS && a <= 32 * k ::
      if a == 32 * k then Header(4080 - 32 * k, Free) else Header(32, if a in q then Quick else Live)
  }

  function Heap(k: nat, q: seq<nat>): State
    requires k <= 6
  {
    State(Page(k, q), NoLists()[7 := [32 * k]], NoLists()[0 := q])
  }

  /** Where the quick lists are of no use, the search of the free lists decides. */
  lemma MallocCarves(s: State, size: nat, a: nat)
    requires 0 < size < 4080 && |s.quick| == NUM_QUICK_LISTS && |s.free| == NUM_FREE_LISTS
    requires forall c | 0 <= c < |s.quick| && s.quick[c] != [] :: SizeAt(s.mem, s.quick[c][0]) != Rounded(size)
    requires FirstFit(s.mem, s.free, Rounded(size), 0) == Some(a) && a in s.mem && Rounded(size) <= s.mem[a].size
    ensures Step(s, DoMalloc(size), Carve(s, a, Rounded(size)))
  {
    hide QuickFit, FirstFit, Carve, Rounded;
    QuickFitFinds(s.mem, s.quick, Rounded(size), 0);
  }

  /** The only block on the free lists is the one found. */
  lemma OnlyBlock(mem: map<nat, Header>, free: seq<seq<nat>>, c: nat, a: nat, size: nat)
    requires c < |free| == NUM_FREE_LISTS && free == NoLists()[c := [a]] && SizeAt(mem, a) >= size
    ensures FirstFit(mem, free, size, 0) == Some(a)
  {
    FirstFitFinds(mem, free, size, 0);
    hide FirstFit, SizeAt;
    assert a in free[c];
    assert forall d: nat, x: nat | d < |free| && x in free[d] :: x == a;
  }

  lemma CarvePage(k: nat)
    requires k < 6
    ensures 32 * k in Page(k, []) && Carve(Heap(k, []), 32 * k, 32) == Heap(k + 1, [])
  {
    var s := Heap(k, []);
    var a: nat := 32 * k;
    RemoveAt<nat>(s.free, a, 7);
    assert Without<nat>([a], a) == [];
    hide Remove, Without;
    assert s.mem[a].size == 4080 - a;
    assert SizeClass(4048 - a) == 7;
    hide SizeClass;
    assert Carve(s, a, 32).mem == Page(k + 1, []);
    assert [a + 32] + [] == [a + 32];
    assert Carve(s, a, 32).free == NoLists()[7 := [a + 32]];
  }

  lemma MallocStep(k: nat)
    requires k < 6
    ensures Step(Heap(k, []), DoMalloc(24), Heap(k + 1, []))
  {
    var s := Heap(k, []);
    var a: nat := 32 * k;
    assert Rounded(24) == 32 && SizeAt(s.mem, a) == 4080 - a;
    OnlyBlock(s.mem, s.free, 7, a, 32);
    MallocCarves(s, 24, a);
    CarvePage(k);
    hide FirstFit, Carve;
  }

  lemma FreeStep(q: seq<nat>, a: nat)
    requires |q| < QUICK_LIST_MAX && a in CUTS && a < 192 && a !in q
    ensures Step(Heap(6, q), DoFree(a), Heap(6, [a] + q))
  {
    var s := Heap(6, q);
    assert s.mem[a] == Header(32, Live);
    assert Release(s, a).mem == Heap(6, [a] + q).mem;
    assert Release(s, a).quick == Heap(6, [a] + q).quick;
  }

  // ---------------------------------------------------------------------------
  // The flush
  // ---------------------------------------------------------------------------

  /** The free lists that matter here: those of 64, 128 and 256 bytes. The rest of the page is on the list of 4096. */
  function Lists(small: seq<nat>, middle: seq<nat>, large: seq<nat>): seq<seq<nat>> {
    NoLists()[1 := small][2 := middle][3 := large][7 := [192]]
  }

  function Left(blocks: set<nat>): map<nat, Header> {
    map a: nat | a in blocks :: Header(32, Free)
  }

  const MEM0: map<nat, Header> :=
    map[0 := Header(32, Free), 32 := Header(32, Free), 64 := Header(32, Free), 96 := Header(32, Free),
        128 := Header(32, Free), 160 := Header(32, Quick), 192 := Header(3888, Free)]
  const MEM1: map<nat, Header> :=
    map[0 := Header(64, Free), 64 := Header(32, Free), 96 := Header(32, Free), 128 := Header(32, Free),
        160 := Header(32, Quick), 192 := Header(3888, Free)]
  const MEM2: map<nat, Header> :=
    map[0 := Header(64, Free), 32 := Header(64, Free), 96 := Header(32, Free), 128 := Header(32, Free),
        160 := Header(32, Quick), 192 := Header(3888, Free)]
  const MEM3: map<nat, Header> :=
    map[0 := Header(128, Free), 32 := Header(64, Free), 128 := Header(32, Free), 160 := Header(32, Quick),
        192 := Header(3888, Free)]
  const MEM4: map<nat, Header> :=
    map[0 := Header(128, Free), 32 := Header(128, Free), 160 := Header(32, Quick), 192 := Header(3888, Free)]
  const MEM5: map<nat, Header> :=
    map[0 := Header(160, Free), 32 := Header(128, Free), 160 := Header(32, Quick), 192 := Header(3888, Free)]

  /** The state after i turns of the flush. */
  function Turned(mem: map<nat, Header>, free: seq<seq<nat>>, left: set<nat>): Flushing {
    Flushing(State(mem, free, NoLists()[0 := [160]]), Left(left))
  }

  lemma BeforeIsNone(mem: map<nat, Header>, a: nat)
    requires forall p: nat | p in mem :: p + mem[p].size != a
    ensures FreeBefore(mem, a) == None
  {
  }

  lemma BeforeIsSome(mem: map<nat, Header>, a: nat, p: nat)
    requires IsFree(mem, p) && p + mem[p].size == a
    requires forall q: nat | q in mem && q != p :: q + mem[q].size != a
    ensures FreeBefore(mem, a) == Some(p)
  {
    assert IsPrev(mem, p, a);
  }

  lemma Takes(f: Flushing, a: nat, size: nat, past: Option<nat>, next: Option<nat>, g: Flushing)
    requires |f.st.free| == NUM_FREE_LISTS && HeaderAt(f, a).size == size
    requires FreeBefore(f.st.mem, a) == past && FreeHeaderAt(f, a + size) == next
    requires Merge(f.st.mem, JoinBlocks(a, size, past, next), JoinStart(a, past),
                   JoinSize(f.st.mem, size, past, next)) == g.st.mem
    requires Push<nat>(JoinRest(f.st.free, a, size, past, next), SizeClass(JoinSize(f.st.mem, size, past, next)),
                       JoinStart(a, past)) == g.st.free
    requires g.st.quick == f.st.quick
    requires g.stale.Keys == f.stale.Keys + (f.st.mem.Keys - g.st.mem.Keys)
    requires forall x: nat | x in g.stale ::
               g.stale[x] == if x in f.st.mem && x !in g.st.mem then f.st.mem[x] else f.stale[x]
    ensures CoalesceAt(f, a) == g
  {
    hide FreeBefore, FreeHeaderAt, HeaderAt, Merge, Push, JoinRest, JoinBlocks, JoinStart, JoinSize, SizeClass;
    assert CoalesceAt(f, a).stale == g.stale;
  }

  lemma ListsAre(small: seq<nat>, middle: seq<nat>, large: seq<nat>)
    ensures var l := Lists(small, middle, large);
            |l| == 10 && l[1] == small && l[2] == middle && l[3] == large && l[7] == [192]
            && forall c | 0 <= c < 10 && c != 1 && c != 2 && c != 3 && c != 7 :: l[c] == []
  {
  }

  lemma Gone(small: seq<nat>, middle: seq<nat>, large: seq<nat>, x: nat)
    requires x !in small && x !in middle && x !in large && x != 192
    ensures Remove<nat>(Lists(small, middle, large), x) == Lists(small, middle, large)
  {
    ListsAre(small, middle, large);
    hide Lists;
    RemoveAbsent<nat>(Lists(small, middle, large), x);
  }

  lemma FromSmall(small: seq<nat>, middle: seq<nat>, large: seq<nat>, x: nat)
    requires x in small
    ensures Remove<nat>(Lists(small, middle, large), x) == Lists(Without<nat>(small, x), middle, large)
  {
    ListsAre(small, middle, large);
    ListsAre(Without<nat>(small, x), middle, large);
    hide Lists;
    RemoveAt<nat>(Lists(small, middle, large), x, 1);
  }

  lemma FromMiddle(small: seq<nat>, middle: seq<nat>, large: seq<nat>, x: nat)
    requires x !in small && x in middle
    ensures Remove<nat>(Lists(small, middle, large), x) == Lists(small, Without<nat>(middle, x), large)
  {
    ListsAre(small, middle, large);
    ListsAre(small, Without<nat>(middle, x), large);
    hide Lists;
    RemoveAt<nat>(Lists(small, middle, large), x, 2);
  }

  lemma Put(small: seq<nat>, middle: seq<nat>, large: seq<nat>, x: nat)
    ensures Push<nat>(Lists(small, middle, large), 1, x) == Lists([x] + small, middle, large)
    ensures Push<nat>(Lists(small, middle, large), 2, x) == Lists(small, [x] + middle, large)
    ensures Push<nat>(Lists(small, middle, large), 3, x) == Lists(small, middle, [x] + large)
  {
    ListsAre(small, middle, large);
  }

  lemma Free1()
    ensures Push<nat>(JoinRest(Lists([], [], []), 0, 32, None, Some(32)), 1, 0) == Lists([0], [], [])
  {
    hide Lists, Push, Remove;
    Gone([], [], [], 0);
    Gone([], [], [], 32);
    Put([], [], [], 0);
    assert [0] + [] == [0];
  }

  lemma Mem1()
    ensures Merge(MEM0, JoinBlocks(0, 32, None, Some(32)), 0, 64) == MEM1
  {
  }

  lemma Headers1()
    ensures var f, g := Turned(MEM0, Lists([], [], []), {}), Turned(MEM1, Lists([0], [], []), {32});
            && HeaderAt(f, 0).size == 32 && FreeHeaderAt(f, 32) == Some(32)
            && g.stale.Keys == f.stale.Keys + (f.st.mem.Keys - g.st.mem.Keys)
            && forall x: nat | x in g.stale ::
                 g.stale[x] == if x in f.st.mem && x !in g.st.mem then f.st.mem[x] else f.stale[x]
  {
    hide Lists;
  }

  lemma Past1()
    ensures FreeBefore(MEM0, 0) == None
  {
    hide FreeBefore;
    BeforeIsNone(MEM0, 0);
  }

  /** The first block swallows the second, which still waits. */
  lemma Turn1()
    ensures CoalesceAt(Turned(MEM0, Lists([], [], []), {}), 0) ==
            Turned(MEM1, Lists([0], [], []), {32})
  {
    hide FreeBefore, Push, JoinRest, Lists, CoalesceAt, Merge, HeaderAt, FreeHeaderAt, JoinBlocks;
    Past1();
    Free1();
    Mem1();
    Headers1();
    ListsAre([], [], []);
    Takes(Turned(MEM0, Lists([], [], []), {}), 0, 32, None, Some(32),
          Turned(MEM1, Lists([0], [], []), {32}));
  }

  lemma Free2()
    ensures Push<nat>(JoinRest(Lists([0], [], []), 32, 32, None, Some(32)), 1, 32) == Lists([32, 0], [], [])
  {
    hide Lists, Push, Remove;
    Gone([0], [], [], 32);
    Gone([0], [], [], 64);
    Put([0], [], [], 32);
    assert [32] + [0] == [32, 0];
  }

  lemma Mem2()
    ensures Merge(MEM1, JoinBlocks(32, 32, None, Some(32)), 32, 64) == MEM2
  {
  }

  lemma Headers2()
    ensures var f, g := Turned(MEM1, Lists([0], [], []), {32}), Turned(MEM2, Lists([32, 0], [], []), {32, 64});
            && HeaderAt(f, 32).size == 32 && FreeHeaderAt(f, 64) == Some(32)
            && g.stale.Keys == f.stale.Keys + (f.st.mem.Keys - g.st.mem.Keys)
            && forall x: nat | x in g.stale ::
                 g.stale[x] == if x in f.st.mem && x !in g.st.mem then f.st.mem[x] else f.stale[x]
  {
    hide Lists;
  }

  lemma Past2()
    ensures FreeBefore(MEM1, 32) == None
  {
    hide FreeBefore;
    BeforeIsNone(MEM1, 32);
  }

  /** The second is coalesced with the size it had, and swallows the third. */
  lemma Turn2()
    ensures CoalesceAt(Turned(MEM1, Lists([0], [], []), {32}), 32) ==
            Turned(MEM2, Lists([32, 0], [], []), {32, 64})
  {
    hide FreeBefore, Push, JoinRest, Lists, CoalesceAt, Merge, HeaderAt, FreeHeaderAt, JoinBlocks;
    Past2();
    Free2();
    Mem2();
    Headers2();
    ListsAre([0], [], []);
    Takes(Turned(MEM1, Lists([0], [], []), {32}), 32, 32, None, Some(32),
          Turned(MEM2, Lists([32, 0], [], []), {32, 64}));
  }

  lemma Free3()
    ensures Push<nat>(JoinRest(Lists([32, 0], [], []), 64, 32, Some(0), Some(32)), 2, 0) == Lists([32], [0], [])
  {
    hide Lists, Push, Remove;
    Gone([32, 0], [], [], 64);
    FromSmall([32, 0], [], [], 0);
    assert Without<nat>([32, 0], 0) == [32];
    Gone([32], [], [], 96);
    Put([32], [], [], 0);
    assert [0] + [] == [0];
  }

  lemma Mem3()
    ensures Merge(MEM2, JoinBlocks(64, 32, Some(0), Some(32)), 0, 128) == MEM3
  {
  }

  lemma Headers3()
    ensures var f, g := Turned(MEM2, Lists([32, 0], [], []), {32, 64}),
                        Turned(MEM3, Lists([32], [0], []), {32, 64, 96});
            && HeaderAt(f, 64).size == 32 && FreeHeaderAt(f, 96) == Some(32)
            && g.stale.Keys == f.stale.Keys + (f.st.mem.Keys - g.st.mem.Keys)
            && forall x: nat | x in g.stale ::
                 g.stale[x] == if x in f.st.mem && x !in g.st.mem then f.st.mem[x] else f.stale[x]
  {
    hide Lists;
  }

  lemma Past3()
    ensures FreeBefore(MEM2, 64) == Some(0)
  {
    hide FreeBefore;
    BeforeIsSome(MEM2, 64, 0);
  }

  /** The third finds the first before it. */
  lemma Turn3()
    ensures CoalesceAt(Turned(MEM2, Lists([32, 0], [], []), {32, 64}), 64) ==
            Turned(MEM3, Lists([32], [0], []), {32, 64, 96})
  {
    hide FreeBefore, Push, JoinRest, Lists, CoalesceAt, Merge, HeaderAt, FreeHeaderAt, JoinBlocks;
    Past3();
    Free3();
    Mem3();
    Headers3();
    ListsAre([32, 0], [], []);
    assert MEM2[0].size == 64;
    Takes(Turned(MEM2, Lists([32, 0], [], []), {32, 64}), 64, 32, Some(0), Some(32),
          Turned(MEM3, Lists([32], [0], []), {32, 64, 96}));
  }

  lemma Free4()
    ensures Push<nat>(JoinRest(Lists([32], [0], []), 96, 32, Some(32), Some(32)), 2, 32) == Lists([], [32, 0], [])
  {
    hide Lists, Push, Remove;
    Gone([32], [0], [], 96);
    FromSmall([32], [0], [], 32);
    assert Without<nat>([32], 32) == [];
    Gone([], [0], [], 128);
    Put([], [0], [], 32);
    assert [32] + [0] == [32, 0];
  }

  lemma Mem4()
    ensures Merge(MEM3, JoinBlocks(96, 32, Some(32), Some(32)), 32, 128) == MEM4
  {
  }

  lemma Headers4()
    ensures var f, g := Turned(MEM3, Lists([32], [0], []), {32, 64, 96}),
                        Turned(MEM4, Lists([], [32, 0], []), {32, 64, 96, 128});
            && HeaderAt(f, 96).size == 32 && FreeHeaderAt(f, 128) == Some(32)
            && g.stale.Keys == f.stale.Keys + (f.st.mem.Keys - g.st.mem.Keys)
            && forall x: nat | x in g.stale ::
                 g.stale[x] == if x in f.st.mem && x !in g.st.mem then f.st.mem[x] else f.stale[x]
  {
    hide Lists;
  }

  lemma Past4()
    ensures FreeBefore(MEM3, 96) == Some(32)
  {
    hide FreeBefore;
    BeforeIsSome(MEM3, 96, 32);
  }

  /** The fourth finds the second before it. */
  lemma Turn4()
    ensures CoalesceAt(Turned(MEM3, Lists([32], [0], []), {32, 64, 96}), 96) ==
            Turned(MEM4, Lists([], [32, 0], []), {32, 64, 96, 128})
  {
    hide FreeBefore, Push, JoinRest, Lists, CoalesceAt, Merge, HeaderAt, FreeHeaderAt, JoinBlocks;
    Past4();
    Free4();
    Mem4();
    Headers4();
    ListsAre([32], [0], []);
    assert MEM3[32].size == 64;
    Takes(Turned(MEM3, Lists([32], [0], []), {32, 64, 96}), 96, 32, Some(32), Some(32),
          Turned(MEM4, Lists([], [32, 0], []), {32, 64, 96, 128}));
  }

  lemma Free5()
    ensures Push<nat>(JoinRest(Lists([], [32, 0], []), 128, 32, Some(0), None), 3, 0) == Lists([], [32], [0])
  {
    hide Lists, Push, Remove;
    Gone([], [32, 0], [], 128);
    FromMiddle([], [32, 0], [], 0);
    assert Without<nat>([32, 0], 0) == [32];
    Put([], [32], [], 0);
    assert [0] + [] == [0];
  }

  lemma Mem5()
    ensures Merge(MEM4, JoinBlocks(128, 32, Some(0), None), 0, 160) == MEM5
  {
  }

  lemma Headers5()
    ensures var f, g := Turned(MEM4, Lists([], [32, 0], []), {32, 64, 96, 128}),
                        Turned(MEM5, Lists([], [32], [0]), {32, 64, 96, 128});
            && HeaderAt(f, 128).size == 32 && FreeHeaderAt(f, 160) == None
            && g.stale.Keys == f.stale.Keys + (f.st.mem.Keys - g.st.mem.Keys)
            && forall x: nat | x in g.stale ::
                 g.stale[x] == if x in f.st.mem && x !in g.st.mem then f.st.mem[x] else f.stale[x]
  {
    hide Lists;
  }

  lemma Past5()
    ensures FreeBefore(MEM4, 128) == Some(0)
  {
    hide FreeBefore;
    BeforeIsSome(MEM4, 128, 0);
  }

  /** The fifth is within the second, and joins the first. */
  lemma Turn5()
    ensures CoalesceAt(Turned(MEM4, Lists([], [32, 0], []), {32, 64, 96, 128}), 128) ==
            Turned(MEM5, Lists([], [32], [0]), {32, 64, 96, 128})
  {
    hide FreeBefore, Push, JoinRest, Lists, CoalesceAt, Merge, HeaderAt, FreeHeaderAt, JoinBlocks;
    Past5();
    Free5();
    Mem5();
    Headers5();
    ListsAre([], [32, 0], []);
    assert MEM4[0].size == 128;
    Takes(Turned(MEM4, Lists([], [32, 0], []), {32, 64, 96, 128}), 128, 32, Some(0), None,
          Turned(MEM5, Lists([], [32], [0]), {32, 64, 96, 128}));
  }

  const FIVE: seq<nat> := [0, 32, 64, 96, 128]

  /** The flush leaves one block of 160 bytes and, inside it, one of 128. */
  lemma AllTurns()
    ensures CoalesceInTurn(Turned(MEM0, Lists([], [], []), {}), FIVE).st ==
            State(MEM5, Lists([], [32], [0]), NoLists()[0 := [160]])
  {
    hide CoalesceAt, Lists;
    ListsAre([], [], []);
    var f0, f1, f2 := Turned(MEM0, Lists([], [], []), {}), Turned(MEM1, Lists([0], [], []), {32}),
        Turned(MEM2, Lists([32, 0], [], []), {32, 64});
    var f3, f4 := Turned(MEM3, Lists([32], [0], []), {32, 64, 96}),
        Turned(MEM4, Lists([], [32, 0], []), {32, 64, 96, 128});
    var f5 := Turned(MEM5, Lists([], [32], [0]), {32, 64, 96, 128});
    assert FIVE[0..] == FIVE && FIVE[5..] == [];
    InTurnSteps(f0, FIVE, 0);
    Turn1();
    InTurnSteps(f1, FIVE, 1);
    Turn2();
    InTurnSteps(f2, FIVE, 2);
    Turn3();
    InTurnSteps(f3, FIVE, 3);
    Turn4();
    InTurnSteps(f4, FIVE, 4);
    Turn5();
    InTurnSteps(f5, FIVE, 5);
  }

  lemma FlushStarts()
    ensures 160 in Page(6, FIVE) && Page(6, FIVE)[160] == Header(32, Live)
    ensures 0 in Page(6, FIVE) && Page(6, FIVE)[0].size == 32 && 32 in Page(6, FIVE)
    ensures Marked(Page(6, FIVE)[160 := Header(32, Quick)], FIVE) == MEM0
    ensures NoLists()[7 := [192]] == Lists([], [], [])
  {
  }

  lemma FlushStep()
    ensures Step(Heap(6, FIVE), DoFree(160), State(MEM5, Lists([], [32], [0]), NoLists()[0 := [160]]))
  {
    hide Marked, CoalesceInTurn, Page, Lists;
    var s := Heap(6, FIVE);
    FlushStarts();
    assert s.quick[0 := [160]] == NoLists()[0 := [160]];
    AllTurns();
  }

  lemma MallocInside()
    ensures Step(State(MEM5, Lists([], [32], [0]), NoLists()[0 := [160]]), DoMalloc(120),
                 State(MEM5[32 := Header(128, Live)], Lists([], [], [0]), NoLists()[0 := [160]]))
  {
    var s := State(MEM5, Lists([], [32], [0]), NoLists()[0 := [160]]);
    ListsAre([], [32], [0]);
    hide Lists;
    FirstFitFinds(s.mem, s.free, 128, 0);
    assert 32 in s.free[2] && SizeAt(s.mem, 32) == 128;
    assert FirstFit(s.mem, s.free, 128, 0) == Some(32);
    MallocCarves(s, 120, 32);
    FromMiddle([], [32], [0], 32);
    assert Without<nat>([32], 32) == [];
    hide FirstFit, Without, Remove;
  }

  lemma MallocAround()
    ensures Step(State(MEM5[32 := Header(128, Live)], Lists([], [], [0]), NoLists()[0 := [160]]), DoMalloc(152),
                 State(MEM5[32 := Header(128, Live)][0 := Header(160, Live)], Remove<nat>(Lists([], [], [0]), 0),
                       NoLists()[0 := [160]]))
  {
    var s := State(MEM5[32 := Header(128, Live)], Lists([], [], [0]), NoLists()[0 := [160]]);
    ListsAre([], [], [0]);
    hide Lists;
    FirstFitFinds(s.mem, s.free, 160, 0);
    assert 0 in s.free[3] && SizeAt(s.mem, 0) == 160;
    assert FirstFit(s.mem, s.free, 160, 0) == Some(0);
    MallocCarves(s, 152, 0);
    hide FirstFit, Remove;
  }

  // ---------------------------------------------------------------------------
  // The run
  // ---------------------------------------------------------------------------

  /** Six requests, the release of the five first blocks from the last to the first, of the sixth, and two requests. */
  function OpAt(i: nat): Op {
    if i < 6 then DoMalloc(24)
    else if i < 11 then DoFree(32 * (10 - i))
    else if i == 11 then DoFree(160)
    else if i == 12 then DoMalloc(120)
    else DoMalloc(152)
  }

  /** What waits on the quick list when i calls have been made. */
  function Waits(i: nat): seq<nat>
    requires i <= 11
  {
    if i <= 6 then [] else [32 * (11 - i)] + Waits(i - 1)
  }

  lemma {:induction false} WaitsBehind(i: nat)
    requires 6 <= i <= 11
    ensures |Waits(i)| == i - 6 && forall x: nat | x in Waits(i) :: 32 * (11 - i) <= x
  {
    if i > 6 {
      WaitsBehind(i - 1);
    }
  }

  lemma FiveWait()
    ensures Waits(11) == FIVE
  {
    assert Waits(7) == [128];
    assert Waits(8) == [96, 128];
    assert Waits(9) == [64, 96, 128];
    assert Waits(10) == [32, 64, 96, 128];
  }

  ghost function StateAt(i: nat): State {
    if i <= 6 then Heap(i, [])
    else if i <= 11 then Heap(6, Waits(i))
    else if i == 12 then State(MEM5, Lists([], [32], [0]), NoLists()[0 := [160]])
    else if i == 13 then State(MEM5[32 := Header(128, Live)], Lists([], [], [0]), NoLists()[0 := [160]])
    else State(MEM5[32 := Header(128, Live)][0 := Header(160, Live)], Remove<nat>(Lists([], [], [0]), 0),
               NoLists()[0 := [160]])
  }

  lemma StepAt(i: nat)
    requires i < 14
    ensures Step(StateAt(i), OpAt(i), StateAt(i + 1))
  {
    hide Step, Lists, NoLists, Heap, Remove;
    if i < 6 {
      MallocStep(i);
    } else if i < 11 {
      WaitsBehind(i);
      FreeStep(Waits(i), 32 * (10 - i));
    } else if i == 11 {
      FiveWait();
      FlushStep();
    } else if i == 12 {
      MallocInside();
    } else {
      MallocAround();
    }
  }

  lemma StartInOrder()
    ensures StateAt(0).mem == map[0 := Header(4080, Free)] && Inv(StateAt(0), 4080)
  {
    var s := StateAt(0);
    assert Fits(s.mem, 4080, 0);
    assert forall c: nat, a: nat | c < NUM_FREE_LISTS :: a in s.free[c] <==> OnFreeList(s.mem, a, c);
  }

  lemma SafeBefore(i: nat)
    requires i < 11
    ensures Safe(StateAt(i), OpAt(i))
  {
    hide FlushSafe;
    if 6 <= i {
      WaitsBehind(i);
    }
  }

  lemma NotSafe()
    requires Tiles(Heap(6, FIVE).mem, 4080)
    ensures !Safe(Heap(6, FIVE), DoFree(160))
  {
    hide FlushSafe, Tiles, Page, Marked, Lists;
    var mem := Heap(6, FIVE).mem;
    FlushStarts();
    SameTiles(mem, mem[160 := Header(32, Quick)], 4080);
    EarlierBeforeUnsafe(mem[160 := Header(32, Quick)], 4080, FIVE, 0, 1);
  }

  lemma TwelfthNotSafe()
    ensures Inv(StateAt(11), 4080) ==> !Safe(StateAt(11), OpAt(11))
  {
    FiveWait();
    hide Safe, Remove, Lists, Heap, Waits, Tiles, NoAdjacentFree, FreeListsOk, QuickListsOk;
    if Inv(StateAt(11), 4080) {
      NotSafe();
    }
  }

  lemma OneWithinTheOther()
    ensures LiveBlocks(StateAt(14)) == map[0 := 160, 32 := 128]
  {
    hide Remove, Lists, Heap, Waits, NoLists;
  }

  ghost function States(): (r: seq<State>)
    ensures |r| == 15 && forall i | 0 <= i < 15 :: r[i] == StateAt(i)
  {
    seq(15, i requires 0 <= i => StateAt(i))
  }

  function Ops(): (r: seq<Op>)
    ensures |r| == 14 && forall i | 0 <= i < 14 :: r[i] == OpAt(i)
  {
    seq(14, i requires 0 <= i => OpAt(i))
  }

  lemma RunsSafely()
    ensures IsRun(States(), Ops()) && SafeUpTo(States(), Ops(), 11)
  {
    hide Step, Safe, StateAt, OpAt, States, Ops;
    forall i: nat | i < 14
      ensures Step(StateAt(i), OpAt(i), StateAt(i + 1))
    {
      StepAt(i);
    }
    forall i: nat | i < 11
      ensures Safe(StateAt(i), OpAt(i))
    {
      SafeBefore(i);
    }
  }

  /**
   * A run on the first page. All is well for eleven calls; the flush in the twelfth is not safe, and the two requests
   * after it are served with blocks one of which lies within the other.
   */
  lemma OverlapRun()
    ensures IsRun(States(), Ops()) && Inv(States()[0], 4080) && States()[0].mem == map[0 := Header(4080, Free)]
    ensures (forall i | 0 <= i <= 11 :: Inv(States()[i], 4080)) && !Inv(States()[12], 4080)
    ensures SafeUpTo(States(), Ops(), 11) && !Safe(States()[11], Ops()[11])
    ensures LiveBlocks(States()[14]) == map[0 := 160, 32 := 128]
  {
    hide Inv, Safe, Step, StateAt, OpAt, States, Ops, LiveBlocks, SafeUpTo;
    StartInOrder();
    RunsSafely();
    RunKeepsIff(States(), Ops(), 4080, 11);
    TwelfthNotSafe();
    assert Step(States()[11], Ops()[11], States()[12]);
    StepKeepsIff(States()[11], Ops()[11], States()[12], 4080);
    OneWithinTheOther();
  }
}
