/** A flush leaves the heap in order exactly under the condition of SfFlush: what goes wrong is never put right. */
module SfFlushIff {
  import opened Prelude
  import opened SfLists
  import opened SfHeap
  import opened SfFlush

  // ---------------------------------------------------------------------------
  // What goes wrong
  // ---------------------------------------------------------------------------

  /** An address strictly inside a block. */
  ghost predicate Covers(mem: map<nat, Header>, c: nat, w: nat) {
    c in mem && c < w < c + mem[c].size
  }

  /** A block, or one that will be coalesced as if it were one, begins inside a block. */
  ghost predicate Buried(mem: map<nat, Header>, waiting: set<nat>) {
    exists c, w :: Covers(mem, c, w) && (w in mem || w in waiting)
  }

  /** How often each block is on the lists. */
  ghost function Entries(lists: seq<seq<nat>>): multiset<nat> {
    if lists == [] then multiset{} else multiset(lists[0]) + Entries(lists[1..])
  }

  /** Block x is listed twice, or listed although it lies inside another. */
  ghost predicate Spoiled(st: State, x: nat) {
    || (x in st.mem && Entries(st.free)[x] >= 2)
    || (x !in st.mem && Entries(st.free)[x] >= 1 && exists c :: Covers(st.mem, c, x))
  }

  ghost predicate Doomed(st: State, waiting: set<nat>) {
    Buried(st.mem, waiting) || exists x :: x !in waiting && Spoiled(st, x)
  }

  /** No header has size zero. */
  ghost predicate Sized(f: Flushing, waiting: set<nat>) {
    && (forall x: nat | x in f.st.mem :: f.st.mem[x].size > 0)
    && (forall x: nat | x in f.stale :: f.stale[x].size > 0)
    && waiting <= f.st.mem.Keys + f.stale.Keys
  }

  // ---------------------------------------------------------------------------
  // Counting entries
  // ---------------------------------------------------------------------------

  lemma {:induction false} WithoutEntries(s: seq<nat>, x: nat)
    ensures multiset(Without(s, x)) == multiset(s) - multiset{x}
  {
    if s != [] {
      assert s == [s[0]] + s[1..];
      if s[0] != x {
        WithoutEntries(s[1..], x);
        assert Without(s, x) == [s[0]] + Without(s[1..], x);
      }
    }
  }

  lemma {:induction false} RemoveEntries(lists: seq<seq<nat>>, x: nat)
    ensures Entries(Remove<nat>(lists, x)) == Entries(lists) - multiset{x}
  {
    if lists != [] {
      if x in lists[0] {
        WithoutEntries(lists[0], x);
        assert Remove<nat>(lists, x)[1..] == lists[1..];
      } else {
        RemoveEntries(lists[1..], x);
        assert Remove<nat>(lists, x)[1..] == Remove<nat>(lists[1..], x);
      }
    }
  }

  lemma {:induction false} PushEntries(lists: seq<seq<nat>>, i: nat, x: nat)
    requires i < |lists|
    ensures Entries(Push<nat>(lists, i, x)) == Entries(lists) + multiset{x}
  {
    if i == 0 {
      assert Push<nat>(lists, 0, x)[1..] == lists[1..];
      assert Push<nat>(lists, 0, x)[0] == [x] + lists[0];
    } else {
      PushEntries(lists[1..], i - 1, x);
      assert Push<nat>(lists, i, x)[1..] == Push<nat>(lists[1..], i - 1, x);
    }
  }

  lemma OneEntry(s: seq<nat>, x: nat)
    requires NoRepeats(s)
    ensures multiset(s)[x] <= 1
    decreases |s|
  {
    if s != [] {
      assert s == [s[0]] + s[1..];
      OneEntry(s[1..], x);
    }
  }

  /** Lists without repetitions that share nothing hold each element once. */
  lemma {:induction false} EntriesOnce(lists: seq<seq<nat>>, x: nat)
    requires AllNoRepeats(lists) && Disjoint(lists)
    ensures Entries(lists)[x] <= 1
    ensures Entries(lists)[x] >= 1 ==> exists c: nat :: c < |lists| && x in lists[c]
  {
    if lists != [] {
      OneEntry(lists[0], x);
      EntriesOnce(lists[1..], x);
      if Entries(lists[1..])[x] >= 1 {
        var c: nat :| c < |lists[1..]| && x in lists[1..][c];
        assert x in lists[c + 1];
      }
    }
  }

  lemma {:induction false} Listed(lists: seq<seq<nat>>, c: nat, x: nat)
    requires c < |lists| && x in lists[c]
    ensures Entries(lists)[x] >= 1
    decreases c
  {
    if c > 0 {
      Listed(lists[1..], c - 1, x);
    }
  }

  lemma RemoveCount(lists: seq<seq<nat>>, y: nat, x: nat)
    ensures Entries(Remove<nat>(lists, y))[x] + (if x == y then 1 else 0) >= Entries(lists)[x]
  {
    hide Remove, Entries;
    RemoveEntries(lists, y);
  }

  lemma RestCount(free: seq<seq<nat>>, a: nat, size: nat, past: Option<nat>, next: Option<nat>, x: nat)
    requires x != a && (past.Some? && next.Some? ==> past.value != a + size)
    ensures Entries(JoinRest(free, a, size, past, next))[x] + (if x in JoinBlocks(a, size, past, next) then 1 else 0)
            >= Entries(free)[x]
  {
    hide Remove, Entries;
    RemoveCount(free, a, x);
    match (past, next)
    case (None, None) =>
    case (Some(p), None) => RemoveCount(Remove<nat>(free, a), p, x);
    case (None, Some(_)) => RemoveCount(Remove<nat>(free, a), a + size, x);
    case (Some(p), Some(_)) =>
      RemoveCount(Remove<nat>(free, a), p, x);
      RemoveCount(Remove<nat>(Remove<nat>(free, a), p), a + size, x);
  }

  /** What a step leaves of the entries of a block other than its own. */
  lemma JoinCount(st: State, a: nat, size: nat, past: Option<nat>, next: Option<nat>, x: nat)
    requires |st.free| == NUM_FREE_LISTS && (past.Some? ==> past.value in st.mem)
    requires x != a && (past.Some? && next.Some? ==> past.value != a + size)
    ensures Entries(Join(st, a, size, past, next).free)[x] + (if x in JoinBlocks(a, size, past, next) then 1 else 0)
            >= Entries(st.free)[x] + (if x == JoinStart(a, past) then 1 else 0)
  {
    hide Push, Entries, JoinRest, JoinBlocks, Merge, SizeClass;
    RestCount(st.free, a, size, past, next, x);
    PushEntries(JoinRest(st.free, a, size, past, next), SizeClass(JoinSize(st.mem, size, past, next)),
                JoinStart(a, past));
  }

  // ---------------------------------------------------------------------------
  // It stays wrong
  // ---------------------------------------------------------------------------

  /** A step of the flush: the blocks of d, which lie one behind the other, become one from start to end. */
  ghost predicate Spans(mem: map<nat, Header>, d: set<nat>, start: nat, end: nat, a: nat) {
    && start in d && a in d && start <= a < end
    && (forall x: nat | x in d :: start <= x < end)
    && (forall x: nat | x in d && x in mem :: x + mem[x].size <= end)
    && (forall c: nat, w: nat | c in d && w in d :: !Covers(mem, c, w))
  }

  lemma CoverStays(mem: map<nat, Header>, d: set<nat>, start: nat, end: nat, a: nat, c: nat, w: nat)
    requires Spans(mem, d, start, end, a) && Covers(mem, c, w) && w !in d
    ensures var mem' := Merge(mem, d, start, end - start);
            Covers(mem', c, w) || Covers(mem', start, w)
  {
    MergeAt(mem, d, start, end - start);
    hide Merge;
  }

  /** A block that reaches into the new one from outside overlaps it. */
  lemma CoverMeets(mem: map<nat, Header>, d: set<nat>, start: nat, end: nat, a: nat, c: nat, w: nat)
    requires Spans(mem, d, start, end, a) && Covers(mem, c, w) && w in d
    ensures var mem' := Merge(mem, d, start, end - start);
            (Covers(mem', c, start) && start in mem') || (Covers(mem', start, c) && c in mem')
  {
    MergeAt(mem, d, start, end - start);
    hide Merge;
  }

  lemma BuriedStays(mem: map<nat, Header>, waiting: set<nat>, d: set<nat>, start: nat, end: nat, a: nat)
    requires Spans(mem, d, start, end, a) && Buried(mem, waiting)
    ensures Buried(Merge(mem, d, start, end - start), waiting - {a})
  {
    var mem' := Merge(mem, d, start, end - start);
    var c: nat, w: nat :| Covers(mem, c, w) && (w in mem || w in waiting);
    if w in d {
      CoverMeets(mem, d, start, end, a, c, w);
    } else {
      CoverStays(mem, d, start, end, a, c, w);
      MergeAt(mem, d, start, end - start);
      assert w in mem' || w in waiting - {a};
    }
    hide Merge;
  }

  /** The block taken by a step, with its neighbours as the flush finds them. */
  ghost function Past(f: Flushing, a: nat): Option<nat> {
    FreeBefore(f.st.mem, a)
  }

  ghost function Next(f: Flushing, a: nat): Option<nat> {
    FreeHeaderAt(f, a + HeaderAt(f, a).size)
  }

  ghost function Blocks(f: Flushing, a: nat): set<nat> {
    JoinBlocks(a, HeaderAt(f, a).size, Past(f, a), Next(f, a))
  }

  ghost function End(f: Flushing, a: nat): nat {
    JoinStart(a, Past(f, a)) + JoinSize(f.st.mem, HeaderAt(f, a).size, Past(f, a), Next(f, a))
  }

  lemma StepSpans(f: Flushing, waiting: set<nat>, a: nat)
    requires Sized(f, waiting) && a in waiting
    ensures Spans(f.st.mem, Blocks(f, a), JoinStart(a, Past(f, a)), End(f, a), a)
  {
    hide FreeBefore;
    assert HeaderAt(f, a).size > 0;
  }

  lemma StepMem(f: Flushing, a: nat)
    requires |f.st.free| == NUM_FREE_LISTS
    ensures var start := JoinStart(a, Past(f, a));
            start <= End(f, a) && CoalesceAt(f, a).st.mem == Merge(f.st.mem, Blocks(f, a), start, End(f, a) - start)
  {
    hide FreeBefore, Merge, Push, JoinRest, JoinBlocks, SizeClass;
  }

  lemma StepCount(f: Flushing, waiting: set<nat>, a: nat, x: nat)
    requires Sized(f, waiting) && a in waiting && x != a && |f.st.free| == NUM_FREE_LISTS
    ensures Entries(CoalesceAt(f, a).st.free)[x] + (if x in Blocks(f, a) then 1 else 0)
            >= Entries(f.st.free)[x] + (if x == JoinStart(a, Past(f, a)) then 1 else 0)
  {
    hide FreeBefore, Merge, Push, JoinRest, JoinBlocks, SizeClass, Entries, FreeHeaderAt, Join;
    assert HeaderAt(f, a).size > 0;
    JoinCount(f.st, a, HeaderAt(f, a).size, Past(f, a), Next(f, a), x);
  }

  /** What is spoiled stays so, or something begins inside a block. */
  lemma SpoiledStays(mem: map<nat, Header>, free: seq<seq<nat>>, free': seq<seq<nat>>, quick: seq<seq<nat>>,
                     waiting: set<nat>,
                     d: set<nat>, start: nat, end: nat, a: nat, x: nat)
    requires Spans(mem, d, start, end, a) && Spoiled(State(mem, free, quick), x) && x != a
    requires Entries(free')[x] + (if x in d then 1 else 0) >= Entries(free)[x] + (if x == start then 1 else 0)
    ensures var mem' := Merge(mem, d, start, end - start);
            Spoiled(State(mem', free', quick), x) || Buried(mem', waiting)
  {
    var mem' := Merge(mem, d, start, end - start);
    MergeAt(mem, d, start, end - start);
    hide Merge, Entries;
    if x !in mem {
      var c: nat :| Covers(mem, c, x);
      if x in d {
        CoverMeets(mem, d, start, end, a, c, x);
      } else {
        CoverStays(mem, d, start, end, a, c, x);
      }
    } else if x in d && x != start {
      assert Covers(mem', start, x);
    }
  }

  lemma SizedStays(f: Flushing, waiting: set<nat>, a: nat)
    requires Sized(f, waiting) && a in waiting && |f.st.free| == NUM_FREE_LISTS
    ensures Sized(CoalesceAt(f, a), waiting - {a})
  {
    var f' := CoalesceAt(f, a);
    StepSpans(f, waiting, a);
    StepMem(f, a);
    var start := JoinStart(a, Past(f, a));
    MergeAt(f.st.mem, Blocks(f, a), start, End(f, a) - start);
    assert f'.stale == f.stale + (map x: nat | x in f.st.mem && x !in f'.st.mem :: f.st.mem[x]);
    hide Merge, CoalesceAt, Blocks, Past, End;
  }

  lemma DoomedStays(f: Flushing, waiting: set<nat>, a: nat)
    requires Sized(f, waiting) && a in waiting && |f.st.free| == NUM_FREE_LISTS && Doomed(f.st, waiting)
    ensures Doomed(CoalesceAt(f, a).st, waiting - {a})
  {
    var f' := CoalesceAt(f, a);
    var d, start, end := Blocks(f, a), JoinStart(a, Past(f, a)), End(f, a);
    hide Sized, Merge, CoalesceAt, Blocks, Past, End, Buried, Spoiled, Spans;
    StepSpans(f, waiting, a);
    StepMem(f, a);
    if Buried(f.st.mem, waiting) {
      BuriedStays(f.st.mem, waiting, d, start, end, a);
    } else {
      var x: nat :| x !in waiting && Spoiled(f.st, x);
      StepCount(f, waiting, a, x);
      SpoiledStays(f.st.mem, f.st.free, f'.st.free, f'.st.quick, waiting - {a}, d, start, end, a, x);
      assert f.st == State(f.st.mem, f.st.free, f.st.quick);
      assert f'.st == State(f'.st.mem, f'.st.free, f'.st.quick);
      assert Spoiled(f'.st, x) ==> x !in waiting - {a};
    }
  }

  lemma NothingBuried(mem: map<nat, Header>)
    requires NoOverlap(mem)
    ensures !Buried(mem, {})
  {
  }

  lemma DoomedNotInv(st: State, n: nat)
    requires Doomed(st, {})
    ensures !Inv(st, n)
  {
    hide Buried, Entries, NoOverlap, AllFit, AllHavePrev, NoAdjacentFree, FreeListsOk, QuickListsOk;
    if NoOverlap(st.mem) {
      NothingBuried(st.mem);
    }
    if FreeListsOk(st.mem, st.free, {}) {
      forall x: nat
        ensures Entries(st.free)[x] <= 1 && (Entries(st.free)[x] >= 1 ==> x in st.mem)
      {
        ListedOnce(st, x);
      }
    }
  }

  lemma ListedOnce(st: State, x: nat)
    requires FreeListsOk(st.mem, st.free, {})
    ensures Entries(st.free)[x] <= 1 && (Entries(st.free)[x] >= 1 ==> x in st.mem)
  {
    FreeListsDisjoint(st.mem, st.free, {});
    EntriesOnce(st.free, x);
    if c: nat :| c < |st.free| && x in st.free[c] {
      assert OnFreeList(st.mem, x, c);
    }
  }

  /** Once doomed, a flush ends in disorder. */
  lemma {:induction false} DoomedForever(f: Flushing, l: seq<nat>, n: nat)
    requires NoRepeats(l) && Sized(f, Elements(l)) && Doomed(f.st, Elements(l)) && |f.st.free| == NUM_FREE_LISTS
    ensures !Inv(CoalesceInTurn(f, l).st, n)
    decreases |l|
  {
    hide Sized, Doomed, Inv, CoalesceAt;
    if l == [] {
      assert Elements(l) == {};
      DoomedNotInv(f.st, n);
    } else {
      assert l == [l[0]] + l[1..];
      assert l[0] !in l[1..];
      assert Elements(l) - {l[0]} == Elements(l[1..]);
      SizedStays(f, Elements(l), l[0]);
      DoomedStays(f, Elements(l), l[0]);
      DoomedForever(CoalesceAt(f, l[0]), l[1..], n);
    }
  }

  // ---------------------------------------------------------------------------
  // The first bad step, and the theorem
  // ---------------------------------------------------------------------------

  /** A step that swallows a waiting block. */
  lemma Swallows(f: Flushing, waiting: set<nat>, a: nat)
    requires Sized(f, waiting) && a in waiting && a in f.st.mem && |f.st.free| == NUM_FREE_LISTS
    requires var y := a + f.st.mem[a].size; y in waiting && IsFree(f.st.mem, y)
    ensures Buried(CoalesceAt(f, a).st.mem, waiting - {a})
  {
    var y := a + f.st.mem[a].size;
    var start, end := JoinStart(a, Past(f, a)), End(f, a);
    StepSpans(f, waiting, a);
    StepMem(f, a);
    assert y in Blocks(f, a);
    MergeAt(f.st.mem, Blocks(f, a), start, end - start);
    hide Merge, CoalesceAt, Blocks, Past, End;
    assert Covers(CoalesceAt(f, a).st.mem, start, y);
  }

  /** A block that joins nothing is put on its list, whether or not it is there. */
  lemma Alone(f: Flushing, a: nat)
    requires a in f.st.mem && Past(f, a).None? && Next(f, a).None? && |f.st.free| == NUM_FREE_LISTS
    ensures var st' := CoalesceAt(f, a).st;
            a in st'.mem && st'.free == Push<nat>(f.st.free, SizeClass(f.st.mem[a].size), a)
  {
    hide Push, SizeClass, FreeBefore, FreeHeaderAt;
  }

  lemma OnListOnce(mem: map<nat, Header>, free: seq<seq<nat>>, off: set<nat>, a: nat)
    requires IsFree(mem, a) && FreeListsOk(mem, free, off) && a !in off
    ensures Entries(free)[a] >= 1
  {
    var c := SizeClass(mem[a].size);
    assert OnFreeList(mem, a, c);
    Listed(free, c, a);
    hide Entries, SizeClass;
  }

  /** A step that puts a block on a list for the second time. */
  lemma ListsAgain(f: Flushing, off: set<nat>, a: nat)
    requires IsFree(f.st.mem, a) && FreeListsOk(f.st.mem, f.st.free, off) && a !in off
    requires Past(f, a).None? && Next(f, a).None? && |f.st.free| == NUM_FREE_LISTS
    ensures Spoiled(CoalesceAt(f, a).st, a)
  {
    hide Entries, Push, SizeClass, FreeListsOk, FreeBefore, FreeHeaderAt, Past, Next, CoalesceAt;
    Alone(f, a);
    OnListOnce(f.st.mem, f.st.free, off, a);
    PushEntries(f.st.free, SizeClass(f.st.mem[a].size), a);
  }

  lemma AllSized(marked: map<nat, Header>, f: Flushing, n: nat, waiting: set<nat>)
    requires Tiles(f.st.mem, n) && StaleOk(marked, f) && waiting <= f.st.mem.Keys
    ensures Sized(f, waiting)
  {
    hide Tiles;
    forall x: nat | x in f.st.mem
      ensures f.st.mem[x].size > 0
    {
      Positive(f.st.mem, n, x);
    }
  }

  lemma NothingNext(marked: map<nat, Header>, f: Flushing, n: nat, done: set<nat>, waiting: set<nat>, a: nat)
    requires Tiles(marked, n) && Scattered(marked, done + waiting) && StaleOk(marked, f) && waiting <= f.st.mem.Keys
    requires Tiles(f.st.mem, n) && Kept(marked, f.st.mem, done) && a in f.st.mem && a in marked
    requires f.st.mem[a].size != marked[a].size && a + f.st.mem[a].size !in waiting
    ensures Next(f, a).None?
  {
    hide Tiles, Kept, Scattered, StaleOk, FreeHeaderAt;
    NextIs(marked, f, n, a);
    if IsFree(f.st.mem, a + f.st.mem[a].size) {
      GrownEnds(marked, f.st.mem, n, done, waiting, a);
    }
  }

  lemma NotUnlisted(marked: map<nat, Header>, mem: map<nat, Header>, waiting: set<nat>, a: nat)
    requires a in mem && a in marked && mem[a].size != marked[a].size
    ensures a !in Unlisted(marked, mem, waiting)
  {
  }

  lemma DoomedBy(st: State, waiting: set<nat>, x: nat)
    ensures Buried(st.mem, waiting) ==> Doomed(st, waiting)
    ensures x !in waiting && Spoiled(st, x) ==> Doomed(st, waiting)
  {
    hide Buried, Spoiled;
  }

  lemma BadSwallow(marked: map<nat, Header>, f: Flushing, n: nat, done: set<nat>, waiting: set<nat>, a: nat)
    requires Tiles(f.st.mem, n) && Kept(marked, f.st.mem, done) && waiting <= f.st.mem.Keys && StaleOk(marked, f)
    requires Scattered(marked, done + waiting) && a in waiting && |f.st.free| == NUM_FREE_LISTS
    requires a in f.st.mem && a + f.st.mem[a].size in waiting
    ensures Doomed(CoalesceAt(f, a).st, waiting - {a})
  {
    hide *;
    AllSized(marked, f, n, waiting);
    WaitingBlock(marked, f.st.mem, n, done, waiting, a + f.st.mem[a].size);
    Swallows(f, waiting, a);
    DoomedBy(CoalesceAt(f, a).st, waiting - {a}, a);
  }

  lemma BadAgain(marked: map<nat, Header>, f: Flushing, n: nat, done: set<nat>, waiting: set<nat>, a: nat)
    requires Tiles(marked, n) && Scattered(marked, done + waiting) && StaleOk(marked, f) && a in waiting
    requires Tiles(f.st.mem, n) && Kept(marked, f.st.mem, done) && waiting <= f.st.mem.Keys
    requires FreeListsOk(f.st.mem, f.st.free, Unlisted(marked, f.st.mem, waiting)) && |f.st.free| == NUM_FREE_LISTS
    requires a in f.st.mem && a in marked && f.st.mem[a].size != marked[a].size && Past(f, a).None?
    requires a + f.st.mem[a].size !in waiting
    ensures Doomed(CoalesceAt(f, a).st, waiting - {a})
  {
    hide *;
    WaitingBlock(marked, f.st.mem, n, done, waiting, a);
    NothingNext(marked, f, n, done, waiting, a);
    NotUnlisted(marked, f.st.mem, waiting, a);
    ListsAgain(f, Unlisted(marked, f.st.mem, waiting), a);
    DoomedBy(CoalesceAt(f, a).st, waiting - {a}, a);
  }

  /** A step that is not good goes wrong. */
  lemma BadStep(marked: map<nat, Header>, f: Flushing, n: nat, done: set<nat>, waiting: set<nat>, a: nat)
    requires Tiles(marked, n) && Scattered(marked, done + waiting) && StaleOk(marked, f) && a in waiting
    requires Tiles(f.st.mem, n) && Kept(marked, f.st.mem, done) && waiting <= f.st.mem.Keys
    requires FreeListsOk(f.st.mem, f.st.free, Unlisted(marked, f.st.mem, waiting)) && |f.st.free| == NUM_FREE_LISTS
    requires a in f.st.mem && a in marked && !Good(marked, f.st.mem, waiting, a)
    ensures Sized(f, waiting) && Doomed(CoalesceAt(f, a).st, waiting - {a})
  {
    hide Tiles, Scattered, StaleOk, Kept, FreeListsOk, Unlisted, Sized, Doomed, CoalesceAt, FreeBefore;
    AllSized(marked, f, n, waiting);
    if a + f.st.mem[a].size in waiting {
      BadSwallow(marked, f, n, done, waiting, a);
    } else {
      BadAgain(marked, f, n, done, waiting, a);
    }
  }

  ghost predicate SameLive(mem: map<nat, Header>, mem': map<nat, Header>) {
    && (forall a: nat :: a in mem && mem[a].status.Live? <==> a in mem' && mem'[a].status.Live?)
    && (forall a: nat | a in mem && mem[a].status.Live? :: a in mem' && mem[a] == mem'[a])
  }

  lemma SplitElements(l: seq<nat>, i: nat)
    requires i <= |l| && NoRepeats(l)
    ensures Elements(l[..i]) + Elements(l[i..]) == Elements(l) && Elements(l[..i]) !! Elements(l[i..])
    ensures i < |l| ==> l[i] in Elements(l[i..])
    ensures i < |l| ==>
              Elements(l[..i]) + {l[i]} == Elements(l[..i + 1]) && Elements(l[i..]) - {l[i]} == Elements(l[i + 1..])
  {
    assert l == l[..i] + l[i..];
    if i < |l| {
      assert l[i..] == [l[i]] + l[i + 1..];
      assert l[..i + 1] == l[..i] + [l[i]];
    }
  }

  ghost predicate SafeFrom(marked: map<nat, Header>, l: seq<nat>, i: nat) {
    forall k | i <= k < |l| :: SafeAt(marked, Elements(l[..k]), Elements(l[k..]), l[k])
  }

  lemma SafeNext(marked: map<nat, Header>, l: seq<nat>, i: nat)
    requires i < |l|
    ensures SafeFrom(marked, l, i) <==>
            SafeAt(marked, Elements(l[..i]), Elements(l[i..]), l[i]) && SafeFrom(marked, l, i + 1)
  {
    hide SafeAt, Elements;
  }

  /** In the middle of the flush of l, with i blocks done. */
  ghost predicate Turn(marked: map<nat, Header>, f: Flushing, n: nat, l: seq<nat>, i: nat)
    requires i <= |l|
  {
    && NoRepeats(l) && Tiles(marked, n) && Scattered(marked, Elements(l))
    && QuickListsOk(marked, f.st.quick, {}) && StaleOk(marked, f)
    && Mid(marked, f.st, n, Elements(l[..i]), Elements(l[i..]))
    && |f.st.free| == NUM_FREE_LISTS
  }

  lemma LastTurn(marked: map<nat, Header>, f: Flushing, n: nat, l: seq<nat>)
    requires Turn(marked, f, n, l, |l|)
    ensures Inv(f.st, n) && SameLive(marked, f.st.mem)
  {
    hide Tiles, Kept, FreeListsOk, Scattered, QuickListsOk, StaleOk, NoRepeats, Unlisted, Inv, FreeBefore;
    assert l[..|l|] == l && Elements(l[|l|..]) == {};
    hide Elements;
    FlushEnds(marked, f.st, n, Elements(l));
    EndLive(marked, f.st.mem, Elements(l));
  }

  /** A turn whose block meets the condition leads to the next one; another leads to disorder. */
  lemma NextTurn(marked: map<nat, Header>, f: Flushing, n: nat, l: seq<nat>, i: nat)
    requires i < |l| && Turn(marked, f, n, l, i)
    ensures |f.st.free| == NUM_FREE_LISTS
    ensures SafeAt(marked, Elements(l[..i]), Elements(l[i..]), l[i]) ==> Turn(marked, CoalesceAt(f, l[i]), n, l, i + 1)
    ensures !SafeAt(marked, Elements(l[..i]), Elements(l[i..]), l[i]) ==>
              !Inv(CoalesceInTurn(CoalesceAt(f, l[i]), l[i + 1..]).st, n)
  {
    hide Tiles, Scattered, QuickListsOk, StaleOk, Elements, SafeAt, CoalesceAt, CoalesceInTurn, Inv, Kept, FreeListsOk;
    hide Good, Sized, Doomed, Coalesce, Unlisted, NoRepeats;
    var a, done, waiting := l[i], Elements(l[..i]), Elements(l[i..]);
    SplitElements(l, i);
    GoodIff(marked, f.st.mem, n, done, waiting, a);
    if Good(marked, f.st.mem, waiting, a) {
      GoodStep(marked, f.st, n, done, waiting, a);
      InTurnIs(marked, f, n, a);
      StaleStays(marked, f, n, done, a);
    } else {
      BadStep(marked, f, n, done, waiting, a);
      SizedStays(f, waiting, a);
      TailNoRepeats(l, i + 1);
      DoomedForever(CoalesceAt(f, a), l[i + 1..], n);
    }
  }

  lemma TailNoRepeats(l: seq<nat>, i: nat)
    requires i <= |l| && NoRepeats(l)
    ensures NoRepeats(l[i..])
  {
  }

  lemma InTurnSteps(f: Flushing, l: seq<nat>, i: nat)
    requires i <= |l| && |f.st.free| == NUM_FREE_LISTS
    ensures i == |l| ==> CoalesceInTurn(f, l[i..]) == f
    ensures i < |l| ==> CoalesceInTurn(f, l[i..]) == CoalesceInTurn(CoalesceAt(f, l[i]), l[i + 1..])
  {
    hide CoalesceAt;
    assert i < |l| ==> l[i..][0] == l[i] && l[i..][1..] == l[i + 1..];
  }

  /** From the middle of a flush on: it ends in order exactly when the condition holds at every block to come. */
  lemma {:induction false} TurnsIff(marked: map<nat, Header>, f: Flushing, n: nat, l: seq<nat>, i: nat)
    requires i <= |l| && Turn(marked, f, n, l, i) && |f.st.free| == NUM_FREE_LISTS
    ensures var st' := CoalesceInTurn(f, l[i..]).st;
            && (Inv(st', n) <==> SafeFrom(marked, l, i))
            && (Inv(st', n) ==> SameLive(marked, st'.mem))
    decreases |l| - i
  {
    InTurnSteps(f, l, i);
    if i == |l| {
      LastTurn(marked, f, n, l);
    } else {
      SafeNext(marked, l, i);
      NextTurn(marked, f, n, l, i);
      hide Inv, Turn, SafeAt, SafeFrom, SameLive, CoalesceAt, CoalesceInTurn;
      if SafeAt(marked, Elements(l[..i]), Elements(l[i..]), l[i]) {
        TurnsIff(marked, CoalesceAt(f, l[i]), n, l, i + 1);
      }
    }
  }

  lemma LiveAsMarked(st: State, st': State, l: seq<nat>)
    requires SameLive(Marked(st.mem, l), st'.mem) && forall a: nat | a in l :: a in st.mem && !st.mem[a].status.Live?
    ensures LiveBlocks(st') == LiveBlocks(st)
  {
    MarkedAt(st.mem, l);
    hide Marked;
  }

  lemma FirstTurn(st: State, n: nat, l: seq<nat>)
    requires NoRepeats(l) && InvPending(st, n, Elements(l))
    ensures var marked := Marked(st.mem, l);
            Turn(marked, Flushing(State(marked, st.free, st.quick), map[]), n, l, 0)
    ensures forall a: nat | a in l :: a in st.mem && !st.mem[a].status.Live?
  {
    assert forall a: nat | a in l :: a in Elements(l);
    assert forall a: nat | a in l :: a in st.mem && st.mem[a].status.Quick?;
    assert |st.free| == NUM_FREE_LISTS;
    assert Elements(l[..0]) == {} && l[0..] == l;
    hide Tiles, Scattered, QuickListsOk, Mid, Elements, Marked, InvPending, NoRepeats;
    FlushBegins(st, n, l);
  }

  /** The flush leaves the heap in order exactly under its condition, and then no live block is touched. */
  lemma FlushIff(st: State, n: nat, l: seq<nat>)
    requires NoRepeats(l) && InvPending(st, n, Elements(l))
    ensures |st.free| == NUM_FREE_LISTS
    ensures Inv(Flush(st, l), n) <==> FlushSafe(st.mem, l)
    ensures FlushSafe(st.mem, l) ==> LiveBlocks(Flush(st, l)) == LiveBlocks(st)
  {
    assert |st.free| == NUM_FREE_LISTS;
    hide Tiles, QuickListsOk, FreeListsOk, NoAdjacentFree, Elements, Marked, NoRepeats, SafeAt, Turn, SameLive;
    hide LiveBlocks, CoalesceInTurn, Inv;
    FirstTurn(st, n, l);
    var marked := Marked(st.mem, l);
    var f := Flushing(State(marked, st.free, st.quick), map[]);
    TurnsIff(marked, f, n, l, 0);
    assert l[0..] == l;
    if Inv(Flush(st, l), n) {
      LiveAsMarked(st, Flush(st, l), l);
    }
  }

  // ---------------------------------------------------------------------------
  // Cases
  // ---------------------------------------------------------------------------

  lemma NotBeforeFlushed(marked: map<nat, Header>, l: seq<nat>, i: nat)
    requires i < |l| && l[i] in marked && l[i] + marked[l[i]].size !in l
    ensures SafeAt(marked, Elements(l[..i]), Elements(l[i..]), l[i])
  {
    hide FreeBefore, FreeThrough;
    SplitAll(l, i);
    assert l[i] + marked[l[i]].size !in Elements(l);
    hide Elements;
  }

  /** No flushed block stands directly before another: the flush is safe. */
  lemma ApartSafe(mem: map<nat, Header>, l: seq<nat>)
    requires forall i | 0 <= i < |l| :: l[i] in mem && l[i] + mem[l[i]].size !in l
    ensures FlushSafe(mem, l)
  {
    MarkedAt(mem, l);
    hide Marked, SafeAt, Elements;
    var marked := Marked(mem, l);
    forall i | 0 <= i < |l|
      ensures SafeAt(marked, Elements(l[..i]), Elements(l[i..]), l[i])
    {
      NotBeforeFlushed(marked, l, i);
    }
  }

  /** A flushed block stands directly before one that is later on the list: the flush is not safe. */
  lemma EarlierBeforeUnsafe(mem: map<nat, Header>, n: nat, l: seq<nat>, i: nat, j: nat)
    requires Tiles(mem, n) && i < j < |l| && l[i] in mem && l[j] in mem && l[j] == l[i] + mem[l[i]].size
    ensures !FlushSafe(mem, l)
  {
    MarkedAt(mem, l);
    hide Marked, FreeBefore;
    var marked := Marked(mem, l);
    Positive(mem, n, l[i]);
    assert l[i..][j - i] == l[j];
    assert FreeThrough(marked, l[i], l[j]) by {
      assert l[i] in l && l[j] in l;
    }
    assert !SafeAt(marked, Elements(l[..i]), Elements(l[i..]), l[i]);
  }

  /** With nothing free before it, a flushed block directly before another makes the flush unsafe in every order. */
  lemma FirstOfRunUnsafe(mem: map<nat, Header>, n: nat, l: seq<nat>, i: nat, j: nat)
    requires Tiles(mem, n) && i < |l| && j < |l| && l[i] in mem && l[j] in mem && l[j] == l[i] + mem[l[i]].size
    requires forall p: nat | IsPrev(mem, p, l[i]) :: !IsFree(mem, p) && p !in l
    ensures !FlushSafe(mem, l)
  {
    MarkedAt(mem, l);
    var marked := Marked(mem, l);
    hide Marked;
    forall p: nat | IsPrev(marked, p, l[i])
      ensures !IsFree(marked, p)
    {
      assert IsPrev(mem, p, l[i]);
    }
    assert FreeBefore(marked, l[i]).None?;
    SplitAll(l, i);
    assert !SafeAt(marked, Elements(l[..i]), Elements(l[i..]), l[i]);
  }

  lemma SplitAll(l: seq<nat>, i: nat)
    requires i <= |l|
    ensures Elements(l[..i]) + Elements(l[i..]) == Elements(l)
  {
    assert l == l[..i] + l[i..];
  }

  /** A block that is freed alone is always safe. */
  lemma SingleSafe(mem: map<nat, Header>, n: nat, a: nat)
    requires Tiles(mem, n) && a in mem
    ensures FlushSafe(mem, [a])
  {
    Positive(mem, n, a);
    ApartSafe(mem, [a]);
  }
}
