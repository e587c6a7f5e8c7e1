/**
 * The blocks of hw3/src/sfmm.c: headers at addresses that tile a fixed arena, ten segregated free lists and
 * ten quick lists, and what sf_malloc, sf_free and sf_coalesce do to them.
 */
module SfHeap {
  import opened Prelude
  import opened SfLists

  const MIN_BLOCK := 32

  /** A block on a quick list is marked as allocated, but belongs to no caller. */
  datatype Status = Free | Live | Quick

  datatype Header = Header(size: nat, status: Status)

  datatype State = State(mem: map<nat, Header>, free: seq<seq<nat>>, quick: seq<seq<nat>>)

  // ---------------------------------------------------------------------------
  // Classes
  // ---------------------------------------------------------------------------

  /** The thresholds of sf_put_in_free_list. */
  function SizeClass(size: nat): (c: nat)
    ensures c < NUM_FREE_LISTS
  {
    if size <= 32 then 0
    else if size <= 64 then 1
    else if size <= 128 then 2
    else if size <= 256 then 3
    else if size <= 512 then 4
    else if size <= 1024 then 5
    else if size <= 2048 then 6
    else if size <= 4096 then 7
    else if size <= 8192 then 8
    else 9
  }

  /** The tests of sf_put_in_quick_list. */
  function QuickIndex(size: nat): Option<nat> {
    if size == 32 then Some(0)
    else if size == 48 then Some(1)
    else if size == 64 then Some(2)
    else if size == 80 then Some(3)
    else if size == 96 then Some(4)
    else if size == 112 then Some(5)
    else if size == 128 then Some(6)
    else if size == 144 then Some(7)
    else if size == 160 then Some(8)
    else if size == 176 then Some(9)
    else None
  }

  /** Class boundaries double: a block in a higher class is larger than any in a lower one. */
  lemma SizeClassMonotonic(a: nat, b: nat)
    ensures a <= b ==> SizeClass(a) <= SizeClass(b)
    ensures SizeClass(a) < SizeClass(b) ==> a < b
  {
  }

  /** 32 doubled c times. */
  function Doubled(c: nat): nat {
    if c == 0 then 32 else 2 * Doubled(c - 1)
  }

  /** Class c ends at 32 doubled c times, and the last class has no end. */
  lemma SizeClassIs(size: nat)
    ensures var c := SizeClass(size);
            (c < 9 ==> size <= Doubled(c)) && (c > 0 ==> Doubled(c - 1) < size) && c <= 9
  {
    assert Doubled(2) == 128 && Doubled(4) == 512 && Doubled(6) == 2048 && Doubled(8) == 8192;
  }

  // ---------------------------------------------------------------------------
  // The invariant
  // ---------------------------------------------------------------------------

  ghost predicate IsPrev(mem: map<nat, Header>, p: nat, a: nat) {
    p in mem && p + mem[p].size == a
  }

  ghost predicate HasPrev(mem: map<nat, Header>, a: nat) {
    exists p :: IsPrev(mem, p, a)
  }

  /** Block a has a legal size and is followed by a block or by the end of the arena. */
  ghost predicate Fits(mem: map<nat, Header>, n: nat, a: nat)
    requires a in mem
  {
    var s := mem[a].size;
    s >= MIN_BLOCK && s % 16 == 0 && a + s <= n && (a + s == n || a + s in mem)
  }

  ghost predicate AllFit(mem: map<nat, Header>, n: nat) {
    forall a: nat {:trigger Fits(mem, n, a)} | a in mem :: Fits(mem, n, a)
  }

  ghost predicate AllHavePrev(mem: map<nat, Header>) {
    forall a: nat {:trigger HasPrev(mem, a)} | a in mem && a > 0 :: HasPrev(mem, a)
  }

  ghost predicate NoOverlap(mem: map<nat, Header>) {
    forall a: nat, b: nat | a in mem && b in mem && a < b :: a + mem[a].size <= b
  }

  /** The blocks tile the arena from 0 to n exactly. */
  ghost predicate Tiles(mem: map<nat, Header>, n: nat) {
    0 in mem && AllFit(mem, n) && AllHavePrev(mem) && NoOverlap(mem)
  }

  ghost predicate IsFree(mem: map<nat, Header>, a: nat) {
    a in mem && mem[a].status.Free?
  }

  /** A free block ends where a free block begins. */
  ghost predicate FreeAfter(mem: map<nat, Header>, a: nat)
    requires a in mem
  {
    IsFree(mem, a + mem[a].size)
  }

  ghost predicate NoAdjacentFree(mem: map<nat, Header>) {
    forall a: nat {:trigger FreeAfter(mem, a)} | a in mem && mem[a].status.Free? :: !FreeAfter(mem, a)
  }

  ghost predicate OnFreeList(mem: map<nat, Header>, a: nat, c: nat) {
    IsFree(mem, a) && SizeClass(mem[a].size) == c
  }

  /** Each free block that is not in off is on the list of its class, once, and nothing else is. */
  ghost predicate FreeListsOk(mem: map<nat, Header>, free: seq<seq<nat>>, off: set<nat>) {
    && |free| == NUM_FREE_LISTS
    && AllNoRepeats(free)
    && (forall c: nat, a: nat | c < NUM_FREE_LISTS :: a in free[c] <==> OnFreeList(mem, a, c) && a !in off)
  }

  ghost predicate OnQuickList(mem: map<nat, Header>, pending: set<nat>, a: nat, c: nat) {
    a in mem && mem[a].status.Quick? && a !in pending && QuickIndex(mem[a].size) == Some(c)
  }

  /** Quick list c is a stack of at most five blocks of size 32 + 16c; pending blocks have left theirs. */
  ghost predicate QuickListsOk(mem: map<nat, Header>, quick: seq<seq<nat>>, pending: set<nat>) {
    && |quick| == NUM_QUICK_LISTS
    && AllNoRepeats(quick)
    && (forall c: nat, a: nat | c < NUM_QUICK_LISTS :: a in quick[c] <==> OnQuickList(mem, pending, a, c))
    && (forall c | 0 <= c < NUM_QUICK_LISTS :: |quick[c]| <= QUICK_LIST_MAX)
    && (forall a: nat | a in mem && mem[a].status.Quick? :: a in pending || QuickIndex(mem[a].size).Some?)
    && (forall a: nat | a in pending :: a in mem && mem[a].status.Quick?)
  }

  /** The invariant while the blocks in pending wait to be coalesced. */
  ghost predicate InvPending(st: State, n: nat, pending: set<nat>) {
    && Tiles(st.mem, n)
    && NoAdjacentFree(st.mem)
    && FreeListsOk(st.mem, st.free, {})
    && QuickListsOk(st.mem, st.quick, pending)
  }

  ghost predicate Inv(st: State, n: nat) {
    InvPending(st, n, {})
  }

  /** What callers hold: the size of the block at each live address. */
  ghost function LiveBlocks(st: State): map<nat, nat> {
    map a: nat | a in st.mem && st.mem[a].status.Live? :: st.mem[a].size
  }

  // ---------------------------------------------------------------------------
  // sf_coalesce
  // ---------------------------------------------------------------------------

  /** The free block just before a, if there is one. */
  ghost function FreeBefore(mem: map<nat, Header>, a: nat): (r: Option<nat>)
    ensures r.Some? ==> IsPrev(mem, r.value, a) && IsFree(mem, r.value)
    ensures r.None? ==> forall p: nat | IsPrev(mem, p, a) :: !IsFree(mem, p)
  {
    if p :| IsPrev(mem, p, a) && IsFree(mem, p) then Some(p) else None
  }

  /** The blocks of d make way for one free block. */
  function Merge(mem: map<nat, Header>, d: set<nat>, start: nat, size: nat): map<nat, Header> {
    (mem - d)[start := Header(size, Free)]
  }

  /**
   * A block of the given size at a is joined by the free block past before it and by the free block of next bytes
   * after it, where there is one: the blocks that become one, where that begins, and its size.
   */
  ghost function JoinBlocks(a: nat, size: nat, past: Option<nat>, next: Option<nat>): set<nat> {
    {a} + (if past.Some? then {past.value} else {}) + (if next.Some? then {a + size} else {})
  }

  function JoinStart(a: nat, past: Option<nat>): nat {
    if past.Some? then past.value else a
  }

  function JoinSize(mem: map<nat, Header>, size: nat, past: Option<nat>, next: Option<nat>): nat
    requires past.Some? ==> past.value in mem
  {
    size + (if past.Some? then mem[past.value].size else 0) + (if next.Some? then next.value else 0)
  }

  /** All blocks that join leave their lists; a block that joins nothing is not looked for. */
  function JoinRest(free: seq<seq<nat>>, a: nat, size: nat, past: Option<nat>, next: Option<nat>): (r: seq<seq<nat>>)
    ensures |r| == |free|
  {
    match (past, next)
    case (None, None) => free
    case (Some(p), None) => Remove<nat>(Remove<nat>(free, a), p)
    case (None, Some(_)) => Remove<nat>(Remove<nat>(free, a), a + size)
    case (Some(p), Some(_)) => Remove<nat>(Remove<nat>(Remove<nat>(free, a), p), a + size)
  }

  /** The four cases of sf_coalesce; the result goes on the list of its class. */
  ghost function Join(st: State, a: nat, size: nat, past: Option<nat>, next: Option<nat>): (r: State)
    requires |st.free| == NUM_FREE_LISTS && (past.Some? ==> past.value in st.mem)
    ensures |r.free| == NUM_FREE_LISTS && r.quick == st.quick
  {
    var start, newSize := JoinStart(a, past), JoinSize(st.mem, size, past, next);
    State(Merge(st.mem, JoinBlocks(a, size, past, next), start, newSize),
          Push<nat>(JoinRest(st.free, a, size, past, next), SizeClass(newSize), start), st.quick)
  }

  /** The size of the free block at an address, if there is one. */
  function FreeAt(mem: map<nat, Header>, a: nat): Option<nat> {
    if a in mem && mem[a].status.Free? then Some(mem[a].size) else None
  }

  /** Block a joins the free neighbours that it has among the blocks. */
  ghost function Coalesce(st: State, a: nat): (r: State)
    requires a in st.mem && |st.free| == NUM_FREE_LISTS
    ensures |r.free| == NUM_FREE_LISTS && r.quick == st.quick
  {
    Join(st, a, st.mem[a].size, FreeBefore(st.mem, a), FreeAt(st.mem, a + st.mem[a].size))
  }

  // ---------------------------------------------------------------------------
  // Merging keeps the invariant
  // ---------------------------------------------------------------------------

  /** The blocks of d fill the arena from start to start + size. */
  ghost predicate Fills(mem: map<nat, Header>, d: set<nat>, start: nat, size: nat, last: nat) {
    && start in d && last in d && d <= mem.Keys
    && last + mem[last].size == start + size
    && (forall x: nat | x in d :: start <= x && x + mem[x].size <= start + size)
    && (forall b: nat | b in mem && b !in d :: b + mem[b].size <= start || start + size <= b)
  }

  lemma MergeAt(mem: map<nat, Header>, d: set<nat>, start: nat, size: nat)
    ensures var mem' := Merge(mem, d, start, size);
            && (forall x: nat :: x in mem' <==> x == start || (x in mem && x !in d))
            && (forall x: nat | x in mem' && x != start :: mem'[x] == mem[x])
            && mem'[start] == Header(size, Free)
  {
  }

  lemma MergeFits(mem: map<nat, Header>, n: nat, d: set<nat>, start: nat, size: nat, last: nat)
    requires AllFit(mem, n) && Fills(mem, d, start, size, last) && size % 16 == 0
    ensures AllFit(Merge(mem, d, start, size), n)
  {
    MergeAt(mem, d, start, size);
    var mem' := Merge(mem, d, start, size);
    hide Merge;
    assert Fits(mem, n, start) && Fits(mem, n, last);
    forall a: nat | a in mem'
      ensures Fits(mem', n, a)
    {
      if a != start {
        assert Fits(mem, n, a);
        var next := a + mem[a].size;
        assert next in mem ==> Fits(mem, n, next);
      } else {
        var next := start + size;
        assert next in mem ==> Fits(mem, n, next);
      }
    }
  }

  lemma MergePrev(mem: map<nat, Header>, n: nat, d: set<nat>, start: nat, size: nat, last: nat)
    requires AllFit(mem, n) && AllHavePrev(mem) && Fills(mem, d, start, size, last)
    ensures AllHavePrev(Merge(mem, d, start, size))
  {
    MergeAt(mem, d, start, size);
    var mem' := Merge(mem, d, start, size);
    hide Merge;
    forall b: nat | b in mem' && b > 0
      ensures HasPrev(mem', b)
    {
      assert HasPrev(mem, b) && Fits(mem, n, b);
      var p: nat :| IsPrev(mem, p, b);
      assert Fits(mem, n, p);
      if p in d {
        assert IsPrev(mem', start, b);
      } else {
        assert IsPrev(mem', p, b);
      }
    }
  }

  lemma MergeNoOverlap(mem: map<nat, Header>, n: nat, d: set<nat>, start: nat, size: nat, last: nat)
    requires AllFit(mem, n) && NoOverlap(mem) && Fills(mem, d, start, size, last)
    ensures NoOverlap(Merge(mem, d, start, size))
  {
    MergeAt(mem, d, start, size);
    var mem' := Merge(mem, d, start, size);
    hide Merge;
    assert Fits(mem, n, start);
    forall a: nat, b: nat | a in mem' && b in mem' && a < b
      ensures a + mem'[a].size <= b
    {
      if a == start {
        assert Fits(mem, n, b);
      }
    }
  }

  lemma MergeTiles(mem: map<nat, Header>, n: nat, d: set<nat>, start: nat, size: nat, last: nat)
    requires Tiles(mem, n) && Fills(mem, d, start, size, last) && size % 16 == 0
    ensures Tiles(Merge(mem, d, start, size), n)
  {
    MergeFits(mem, n, d, start, size, last);
    MergePrev(mem, n, d, start, size, last);
    MergeNoOverlap(mem, n, d, start, size, last);
    hide AllFit, AllHavePrev, NoOverlap;
  }

  lemma FreeListsDisjoint(mem: map<nat, Header>, free: seq<seq<nat>>, off: set<nat>)
    requires FreeListsOk(mem, free, off)
    ensures Disjoint(free)
  {
    forall c: nat, d: nat, x: nat | c < d < |free| && x in free[c]
      ensures x !in free[d]
    {
      assert OnFreeList(mem, x, c);
    }
  }

  ghost predicate StrippedAt(l: seq<nat>, stripped: seq<nat>, d: set<nat>, x: nat) {
    x in stripped <==> x in l && x !in d
  }

  /** The lists hold what they held, without the blocks of d. */
  ghost predicate Stripped(free: seq<seq<nat>>, stripped: seq<seq<nat>>, d: set<nat>) {
    && |stripped| == |free| == NUM_FREE_LISTS
    && AllNoRepeats(stripped) && Disjoint(stripped)
    && (forall c: nat, x: nat | c < NUM_FREE_LISTS :: StrippedAt(free[c], stripped[c], d, x))
  }

  lemma StripNone(mem: map<nat, Header>, free: seq<seq<nat>>, off: set<nat>)
    requires FreeListsOk(mem, free, off)
    ensures Stripped(free, free, {})
  {
    FreeListsDisjoint(mem, free, off);
  }

  lemma StripOne(free: seq<seq<nat>>, stripped: seq<seq<nat>>, d: set<nat>, x: nat)
    requires Stripped(free, stripped, d)
    ensures Stripped(free, Remove<nat>(stripped, x), d + {x})
  {
    RemoveMembers<nat>(stripped, x);
    hide Remove;
    forall c: nat, y: nat | c < NUM_FREE_LISTS
      ensures StrippedAt(free[c], Remove<nat>(stripped, x)[c], d + {x}, y)
    {
      assert StrippedAt(free[c], stripped[c], d, y);
    }
  }

  /** The blocks of d have left their lists, and what they became is put on its own. */
  lemma MergeFreeLists(mem: map<nat, Header>, free: seq<seq<nat>>, off: set<nat>, stripped: seq<seq<nat>>,
                       d: set<nat>, start: nat, size: nat)
    requires FreeListsOk(mem, free, off) && Stripped(free, stripped, d) && start in d
    ensures FreeListsOk(Merge(mem, d, start, size), Push<nat>(stripped, SizeClass(size), start), off - d)
  {
    MergeAt(mem, d, start, size);
    hide SizeClass, Merge, Push;
    var mem' := Merge(mem, d, start, size);
    var k := SizeClass(size);
    forall c: nat | c < NUM_FREE_LISTS
      ensures start !in stripped[c]
    {
      assert StrippedAt(free[c], stripped[c], d, start);
    }
    PushMembers<nat>(stripped, k, start);
    forall c: nat, a: nat | c < NUM_FREE_LISTS
      ensures a in Push(stripped, k, start)[c] <==> OnFreeList(mem', a, c) && a !in off - d
    {
      assert StrippedAt(free[c], stripped[c], d, a);
      assert a in free[c] <==> OnFreeList(mem, a, c) && a !in off;
      assert a in Push(stripped, k, start)[c] <==> a in stripped[c] || (c == k && a == start);
    }
  }

  lemma FillsOne(mem: map<nat, Header>, n: nat, a: nat)
    requires AllFit(mem, n) && NoOverlap(mem) && a in mem
    ensures Fills(mem, {a}, a, mem[a].size, a) && mem[a].size % 16 == 0
  {
    assert Fits(mem, n, a);
  }

  /** A run of blocks is extended by the block after it. */
  lemma FillsNext(mem: map<nat, Header>, n: nat, d: set<nat>, start: nat, size: nat, last: nat)
    requires AllFit(mem, n) && NoOverlap(mem) && Fills(mem, d, start, size, last)
    requires start + size in mem
    ensures Fills(mem, d + {start + size}, start, size + mem[start + size].size, start + size)
    ensures mem[start + size].size % 16 == 0
  {
    var next := start + size;
    assert Fits(mem, n, next);
    forall b: nat | b in mem && b !in d + {next}
      ensures b + mem[b].size <= start || next + mem[next].size <= b
    {
      assert b < next || next < b;
      assert Fits(mem, n, b);
    }
  }

  lemma PrevUnique(mem: map<nat, Header>, n: nat, p: nat, q: nat, a: nat)
    requires Tiles(mem, n) && IsPrev(mem, p, a) && IsPrev(mem, q, a)
    ensures p == q
  {
    assert Fits(mem, n, p) && Fits(mem, n, q);
  }

  /** Tiling is a matter of addresses and sizes only. */
  lemma SameTiles(mem: map<nat, Header>, mem': map<nat, Header>, n: nat)
    requires Tiles(mem, n) && mem'.Keys == mem.Keys
    requires forall a: nat | a in mem :: mem'[a].size == mem[a].size
    ensures Tiles(mem', n)
  {
    forall a: nat | a in mem'
      ensures Fits(mem', n, a)
    {
      assert Fits(mem, n, a);
    }
    forall b: nat | b in mem' && b > 0
      ensures HasPrev(mem', b)
    {
      assert HasPrev(mem, b);
      var p: nat :| IsPrev(mem, p, b);
      assert IsPrev(mem', p, b);
    }
  }
}
