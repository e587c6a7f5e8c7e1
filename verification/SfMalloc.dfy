/** sf_malloc, sf_free and sf_coalesce of hw3/src/sfmm.c, with their search loops, on a fixed arena. */
module SfMalloc {
  import opened Prelude
  import opened SfLists
  import opened SfPointers
  import opened SfQuickLists
  import opened SfHeap
  import opened SfFlush
  import opened SfFlushIff
  import opened SfAlloc

  /** MustGrow stands for the part of sf_malloc that asks for another page. */
  datatype Outcome = Null | NoMemory | Served(block: nat) | MustGrow

  /** What sf_malloc returns for a request, and the heap afterwards. */
  ghost function Request(st: State, size: nat): (Outcome, State) {
    if size == 0 then (Null, st)
    else if ToInt32(size) < 0 then (NoMemory, st)
    else
      var (r, st') := Malloc(st, Rounded(size));
      (if r.Some? then Served(r.value) else MustGrow, st')
  }

  class Allocator {
    const n: nat
    const lists: FreeLists
    const stacks: QuickLists
    var mem: map<nat, Header>

    ghost function Now(): State
      reads this, lists, stacks
    {
      State(mem, lists.lists, stacks.stacks)
    }

    ghost function Repr(): set<object> {
      {this, lists, lists.next, lists.prev, stacks, stacks.next, stacks.first, stacks.length}
    }

    /** The link words are those of lists and stacks of blocks of the arena. */
    ghost predicate Linked()
      reads Repr()
    {
      && lists.Valid() && stacks.Valid()
      && lists.base == n && stacks.next.Length == n
      && lists.next !in StackWords() && lists.prev !in StackWords()
    }

    ghost function StackWords(): set<object> {
      {stacks.next, stacks.first, stacks.length}
    }

    ghost predicate Valid()
      reads Repr()
    {
      Linked() && Inv(Now(), n)
    }

    /** The fresh arena: one free block on the list of its class. */
    constructor (n: nat)
      requires n >= MIN_BLOCK && n % 16 == 0
      ensures Valid() && fresh(Repr()) && this.n == n && LiveBlocks(Now()) == map[]
      ensures mem == map[0 := Header(n, Status.Free)]
    {
      this.n := n;
      var l := new FreeLists(n);
      var s := new QuickLists(n);
      l.InitFirstPage(0, SizeClass(n));
      lists, stacks := l, s;
      mem := map[0 := Header(n, Status.Free)];
      new;
      FreshArena(Now(), n);
    }

    /** The two loops that compute blockSize. */
    method RoundUp(size: nat) returns (blockSize: nat)
      ensures blockSize == Rounded(size)
    {
      blockSize := size + 8;
      var paddingSz := 0;
      while blockSize % 16 != 0
        invariant size + 8 <= blockSize <= Rounded(size) && blockSize == size + 8 + paddingSz
        invariant blockSize <= (size + 8 + 15) / 16 * 16
        decreases Rounded(size) - blockSize
      {
        blockSize := blockSize + 1;
        paddingSz := paddingSz + 1;
      }
      var payloadSz := size + paddingSz;
      while blockSize % 16 != 0 || payloadSz < 24
        invariant size + 8 <= blockSize <= Rounded(size) && blockSize == payloadSz + 8
        decreases Rounded(size) - blockSize
      {
        blockSize := blockSize + 1;
        payloadSz := payloadSz + 1;
      }
    }

    /** Walking one free list from its sentinel to the first block that is large enough. */
    method SearchList(i: nat, blockSize: nat) returns (r: Option<nat>, ghost j: nat)
      requires Linked() && i < NUM_FREE_LISTS && i < |lists.lists|
      ensures r == ListFit(mem, lists.lists[i], blockSize)
      ensures r.Some? ==> j < |lists.lists[i]| && lists.lists[i][j] == r.value
    {
      hide AreRings;
      ghost var l := lists.lists[i];
      ghost var next: seq<nat>, prev: seq<nat> := lists.next[..], lists.prev[..];
      RingsCount(next, prev, n, lists.lists);
      var head: nat := n + i;
      var curBlock: nat := head;
      j := 0;
      Walk(next, prev, n, lists.lists, i, j);
      assert l[0..] == l;
      while lists.next[curBlock] != head
        invariant j <= |l| && curBlock == Node(head, l, j) && curBlock < |next|
        invariant next[curBlock] == head <==> j == |l|
        invariant ListFit(mem, l[j..], blockSize) == ListFit(mem, l, blockSize)
        decreases |l| - j
      {
        Walk(next, prev, n, lists.lists, i, j);
        assert l[j..][1..] == l[j + 1..];
        Walk(next, prev, n, lists.lists, i, j + 1);
        curBlock := lists.next[curBlock];
        if SizeAt(mem, curBlock) >= blockSize {
          return Some(curBlock), j;
        }
        j := j + 1;
      }
      assert l[|l|..] == [];
      r := None;
    }

    /** Splitting off what is not needed, or taking the whole block. */
    method Serve(curBlock: nat, blockSize: nat, ghost i: nat, ghost j: nat)
      requires Linked() && curBlock in mem && blockSize <= mem[curBlock].size
      requires i < |lists.lists| && j < |lists.lists[i]| && lists.lists[i][j] == curBlock < n
      requires mem[curBlock].size - blockSize >= MIN_BLOCK ==>
               curBlock + blockSize < n && lists.Absent(curBlock + blockSize)
      modifies Repr()
      ensures Linked() && |old(lists.lists)| == NUM_FREE_LISTS && Now() == Carve(old(Now()), curBlock, blockSize)
    {
      hide FreeLists.Valid, QuickLists.Valid, Remove, Push, SizeClass;
      lists.Count();
      var curListBlockSz := mem[curBlock].size;
      if curListBlockSz - blockSize >= MIN_BLOCK {
        var splitBlock := curBlock + blockSize;
        lists.Unlink(curBlock, i, j);
        lists.PutInFreeList(splitBlock, SizeClass(curListBlockSz - blockSize));
        mem := mem[curBlock := Header(blockSize, Live)][splitBlock := Header(curListBlockSz - blockSize, Status.Free)];
      } else {
        lists.RemoveFromFreeList(curBlock);
        mem := mem[curBlock := Header(curListBlockSz, Live)];
      }
    }

    /** The quick lists: the first whose top block has exactly the size. */
    method TakeFromQuickLists(blockSize: nat) returns (r: Option<nat>)
      requires Valid()
      modifies Repr()
      ensures Linked() && TakenFromQuick(old(Now()), blockSize, r, Now())
    {
      ghost var st := Now();
      ListsKnown(st, n);
      hide Inv, AreRings, AreStacks, SizeAt;
      for i := 0 to NUM_QUICK_LISTS
        invariant Linked() && Now() == st
                  && QuickFit(mem, st.quick, blockSize, i) == QuickFit(mem, st.quick, blockSize, 0)
      {
        stacks.TopIs(i);
        if stacks.length[i] > 0 {
          if SizeAt(mem, stacks.first[i]) == blockSize {
            TakenQuick(st, i);
            var retBlock := stacks.Pop(i);
            mem := mem[retBlock := Header(mem[retBlock].size, Live)];
            PoppedIs(st.quick, stacks.stacks, i, retBlock);
            return Some(retBlock);
          }
        }
      }
      r := None;
    }

    /** The free lists: the first block on the first list that has one large enough. */
    method TakeFromFreeLists(blockSize: nat) returns (r: Option<nat>)
      requires Valid() && MIN_BLOCK <= blockSize
      modifies Repr()
      ensures Linked() && TakenFromFree(old(Now()), blockSize, r, Now())
    {
      hide Inv, AreRings, AreStacks, FreeLists.Valid, QuickLists.Valid, SizeAt, Carve, ListFit;
      ghost var st := Now();
      ListsKnown(st, n);
      for i := 0 to NUM_FREE_LISTS
        invariant Linked() && Now() == st
                  && FirstFit(mem, st.free, blockSize, i) == FirstFit(mem, st.free, blockSize, 0)
      {
        var found, j := SearchList(i, blockSize);
        if found.Some? {
          FoundFits(mem, st.free[i], blockSize);
          ServeReady(st, n, i, j, blockSize);
          Serve(found.value, blockSize, i, j);
          return found;
        }
      }
      r := None;
    }

    /** sf_malloc up to the point where the heap would grow. */
    method Malloc(size: nat) returns (r: Outcome)
      requires Valid()
      modifies Repr()
      ensures Valid() && (r, Now()) == Request(old(Now()), size)
    {
      hide Inv, AreRings, AreStacks, TakeQuick, Carve, QuickFit, FirstFit, Rounded, FreeLists.Valid, QuickLists.Valid;
      RequestKeeps(Now(), n, size);
      RoundedLarge(size);
      if size == 0 {
        return Null;
      }
      if ToInt32(size) < 0 {
        return NoMemory;
      }
      var blockSize := RoundUp(size);
      var block := TakeFromQuickLists(blockSize);
      if block.Some? {
        return Served(block.value);
      }
      block := TakeFromFreeLists(blockSize);
      if block.Some? {
        return Served(block.value);
      }
      r := MustGrow;
    }

    /** The free block just before another, which the source finds by its footer. */
    method PastFree(middleBlock: nat) returns (pastBlock: Option<nat>)
      requires Tiles(mem, n) && middleBlock in mem
      ensures pastBlock == FreeBefore(mem, middleBlock)
      ensures pastBlock.Some? ==> pastBlock.value in mem
    {
      hide Tiles;
      pastBlock := None;
      if p: nat :| p in mem && p + mem[p].size == middleBlock && mem[p].status.Free? {
        pastBlock := Some(p);
      }
      BeforeIs(mem, n, middleBlock, pastBlock);
    }

    method MergeOne(middleBlock: nat, blockSz: nat)
      requires Linked() && middleBlock < n && lists.Absent(middleBlock)
      modifies this`mem, lists`lists, lists.next, lists.prev
      ensures Linked() && mem == Merge(old(mem), {middleBlock}, middleBlock, blockSz)
              && |old(lists.lists)| == NUM_FREE_LISTS
      ensures lists.lists == Push<nat>(old(lists.lists), SizeClass(blockSz), middleBlock)
    {
      hide FreeLists.Valid, QuickLists.Valid, FreeLists.Absent, Remove, Push, SizeClass, Merge;
      mem := Merge(mem, {middleBlock}, middleBlock, blockSz);
      lists.PutInFreeList(middleBlock, SizeClass(blockSz));
    }

    /** Two neighbours leave their lists and become one block, at start. */
    method MergeTwo(middleBlock: nat, other: nat, start: nat, newSize: nat)
      requires Linked() && middleBlock < n && other < n && (start == middleBlock || start == other)
      modifies this`mem, lists`lists, lists.next, lists.prev
      ensures Linked() && mem == Merge(old(mem), {other, middleBlock}, start, newSize)
              && |old(lists.lists)| == NUM_FREE_LISTS
      ensures lists.lists ==
              Push<nat>(Remove<nat>(Remove<nat>(old(lists.lists), middleBlock), other), SizeClass(newSize), start)
    {
      hide FreeLists.Valid, QuickLists.Valid, FreeLists.Absent, Remove, Push, SizeClass, Merge;
      lists.RemoveFromFreeList(middleBlock);
      lists.RemoveFromFreeList(other);
      mem := Merge(mem, {other, middleBlock}, start, newSize);
      lists.PutInFreeList(start, SizeClass(newSize));
    }

    method MergeThree(middleBlock: nat, pastBlock: nat, nextBlock: nat, newSize: nat)
      requires Linked() && middleBlock < n && pastBlock < n && nextBlock < n
      modifies this`mem, lists`lists, lists.next, lists.prev
      ensures Linked() && |old(lists.lists)| == NUM_FREE_LISTS
      ensures mem == Merge(old(mem), {pastBlock, middleBlock, nextBlock}, pastBlock, newSize)
      ensures lists.lists ==
              Push<nat>(Remove<nat>(Remove<nat>(Remove<nat>(old(lists.lists), middleBlock), pastBlock), nextBlock),
                                       SizeClass(newSize), pastBlock)
    {
      hide FreeLists.Valid, QuickLists.Valid, FreeLists.Absent, Remove, Push, SizeClass, Merge;
      lists.RemoveFromFreeList(middleBlock);
      lists.RemoveFromFreeList(pastBlock);
      lists.RemoveFromFreeList(nextBlock);
      mem := Merge(mem, {pastBlock, middleBlock, nextBlock}, pastBlock, newSize);
      lists.PutInFreeList(pastBlock, SizeClass(newSize));
    }

    /** sf_coalesce. A block that has no free neighbour must not be on a list yet, since it is not looked for. */
    method Coalesce(middleBlock: nat)
      requires Linked() && Tiles(mem, n) && middleBlock in mem
      requires Joinable(Now(), middleBlock) || lists.Absent(middleBlock)
      modifies this`mem, lists`lists, lists.next, lists.prev
      ensures Linked() && |old(lists.lists)| == NUM_FREE_LISTS
      ensures Now() == SfHeap.Coalesce(old(Now()), middleBlock)
    {
      hide SfHeap.Coalesce, Tiles, Remove, Push, SizeClass, Merge, FreeBefore;
      hide FreeLists.Valid, QuickLists.Valid, FreeLists.Absent;
      lists.Count();
      BlocksInside(mem, n);
      CoalesceCases(Now(), middleBlock);
      var pastBlock := PastFree(middleBlock);
      var blockSz := mem[middleBlock].size;
      var nextBlock := middleBlock + blockSz;
      var nextFree := nextBlock in mem && mem[nextBlock].status.Free?;
      if pastBlock.None? && !nextFree {
        MergeOne(middleBlock, blockSz);
      } else if pastBlock.Some? && !nextFree {
        MergeTwo(middleBlock, pastBlock.value, pastBlock.value, blockSz + mem[pastBlock.value].size);
      } else if pastBlock.None? {
        MergeTwo(middleBlock, nextBlock, middleBlock, blockSz + mem[nextBlock].size);
      } else {
        var newSize := blockSz + mem[pastBlock.value].size + mem[nextBlock].size;
        MergeThree(middleBlock, pastBlock.value, nextBlock, newSize);
      }
    }

    /** The first loop of sf_flush_quick_list: the headers of the collected blocks say free. */
    method MarkFree(blockArray: seq<nat>)
      requires forall a: nat | a in blockArray :: a in mem
      modifies this`mem
      ensures mem == Marked(old(mem), blockArray)
    {
      for i := 0 to |blockArray|
        invariant mem == Marked(old(mem), blockArray[..i])
      {
        mem := mem[blockArray[i] := Header(mem[blockArray[i]].size, Status.Free)];
        assert blockArray[..i + 1] == blockArray[..i] + [blockArray[i]];
      }
      assert blockArray[..|blockArray|] == blockArray;
    }

    /** The second loop: the blocks are coalesced in the order of the list. */
    method CoalesceFlushed(blockArray: seq<nat>)
      requires Linked() && |lists.lists| == NUM_FREE_LISTS
      requires Turn(mem, Flushing(Now(), map[]), n, blockArray, 0) && SafeFrom(mem, blockArray, 0)
      modifies this`mem, lists`lists, lists.next, lists.prev
      ensures Linked() && Now() == CoalesceInTurn(Flushing(old(Now()), map[]), blockArray).st
    {
      hide FreeLists.Valid, QuickLists.Valid, FreeLists.Absent, SfHeap.Coalesce, CoalesceInTurn, CoalesceAt, Turn;
      hide SafeFrom, SafeAt, Joinable;
      hide Tiles, Elements;
      ghost var marked := mem;
      ghost var f := Flushing(Now(), map[]);
      ghost var begun := f;
      assert blockArray[0..] == blockArray;
      for i := 0 to |blockArray|
        invariant Linked() && f.st == Now() && |f.st.free| == NUM_FREE_LISTS
        invariant Turn(marked, f, n, blockArray, i) && SafeFrom(marked, blockArray, i)
        invariant CoalesceInTurn(f, blockArray[i..]) == CoalesceInTurn(begun, blockArray)
      {
        TurnReady(marked, f, n, blockArray, i);
        SafeNext(marked, blockArray, i);
        NextTurn(marked, f, n, blockArray, i);
        InTurnSteps(f, blockArray, i);
        if !Joinable(Now(), blockArray[i]) {
          lists.AbsentIs(blockArray[i]);
        }
        Coalesce(blockArray[i]);
        f := CoalesceAt(f, blockArray[i]);
      }
      InTurnSteps(f, blockArray, |blockArray|);
    }

    /** sf_free of a live block, where a flush that it asks for is safe. */
    method Free(curBlock: nat)
      requires Valid() && curBlock in LiveBlocks(Now()) && SafeRelease(Now(), curBlock)
      modifies Repr()
      ensures curBlock in old(mem) && |old(stacks.stacks)| == NUM_QUICK_LISTS && |old(lists.lists)| == NUM_FREE_LISTS
      ensures Valid() && Now() == Release(old(Now()), curBlock)
    {
      hide FreeLists.Valid, QuickLists.Valid, CoalesceInTurn, Inv, LiveBlocks, QuickIndex, Release, SafeRelease;
      hide Turn, SafeFrom, Marked;
      FreeReady(Now(), n, curBlock);
      var curBlockSz := mem[curBlock].size;
      var c := QuickIndex(curBlockSz);
      mem := mem[curBlock := Header(curBlockSz, Quick)];
      if c.Some? {
        var blockArray := stacks.PutInQuickList(curBlock, c.value);
        if blockArray != [] {
          MarkFree(blockArray);
          CoalesceFlushed(blockArray);
        }
      } else {
        MarkFree([curBlock]);
        CoalesceFlushed([curBlock]);
      }
    }
  }

  /** The block has a free neighbour. */
  ghost predicate Joinable(st: State, a: nat)
    requires a in st.mem
  {
    FreeBefore(st.mem, a).Some? || FreeAt(st.mem, a + st.mem[a].size).Some?
  }

  lemma BlocksInside(mem: map<nat, Header>, n: nat)
    requires Tiles(mem, n)
    ensures forall b: nat | b in mem :: b < n
  {
    forall b: nat | b in mem
      ensures b < n
    {
      assert Fits(mem, n, b);
    }
  }

  /** What a turn of a flush relies on. */
  lemma TurnReady(marked: map<nat, Header>, f: Flushing, n: nat, l: seq<nat>, i: nat)
    requires i < |l| && Turn(marked, f, n, l, i) && SafeFrom(marked, l, i)
    ensures |f.st.free| == NUM_FREE_LISTS && Tiles(f.st.mem, n) && l[i] in f.st.mem
    ensures CoalesceAt(f, l[i]).st == SfHeap.Coalesce(f.st, l[i])
    ensures Joinable(f.st, l[i]) || forall c | 0 <= c < |f.st.free| :: l[i] !in f.st.free[c]
  {
    hide Tiles, Scattered, QuickListsOk, StaleOk, Elements, SafeAt, CoalesceAt, Kept, NoRepeats, FreeBefore, FreeAt;
    hide SfHeap.Coalesce;
    var done, waiting := Elements(l[..i]), Elements(l[i..]);
    SplitElements(l, i);
    GoodIff(marked, f.st.mem, n, done, waiting, l[i]);
    InTurnIs(marked, f, n, l[i]);
    SafeNext(marked, l, i);
    if !Joinable(f.st, l[i]) {
      StripAbsent(f.st.mem, f.st.free, Unlisted(marked, f.st.mem, waiting), l[i]);
    }
  }

  /** What freeing a live block relies on, and what it amounts to. */
  lemma FreeReady(st: State, n: nat, a: nat)
    requires Inv(st, n) && a in LiveBlocks(st) && SafeRelease(st, a)
    ensures a in st.mem && |st.quick| == NUM_QUICK_LISTS && |st.free| == NUM_FREE_LISTS && a < n
    ensures forall c | 0 <= c < |st.quick| :: a !in st.quick[c]
    ensures Inv(Release(st, a), n)
    ensures var c := QuickIndex(st.mem[a].size);
            && (c.None? ==> FlushReady(Freed(st, a), n, [a]) && Release(st, a) == Flush(Freed(st, a), [a]))
            && (c.Some? ==>
                  && c.value < NUM_QUICK_LISTS
                  && (|st.quick[c.value]| == QUICK_LIST_MAX ==>
                        var freed := Freed(st, a).(quick := st.quick[c.value := [a]]);
                        FlushReady(freed, n, st.quick[c.value]) && Release(st, a) == Flush(freed, st.quick[c.value]))
                  && (|st.quick[c.value]| != QUICK_LIST_MAX ==>
                        Release(st, a) == Freed(st, a).(quick := Push(st.quick, c.value, a))))
  {
    ListsKnown(st, n);
    ReleaseKeepsIff(st, n, a);
    FreedKeeps(st, n, a);
    BlocksInside(st.mem, n);
    QuickIndexBound(st.mem[a].size);
    var c := QuickIndex(st.mem[a].size);
    hide Inv, InvPending, Flush, FlushSafe, QuickIndex, Elements, FlushReady;
    if c.Some? && |st.quick[c.value]| == QUICK_LIST_MAX {
      FlushPending(st, n, a, c.value);
      ReadyToFlush(Freed(st, a).(quick := st.quick[c.value := [a]]), n, st.quick[c.value]);
    } else if c.None? {
      assert Elements([a]) == {a};
      SingleSafe(Freed(st, a).mem, n, a);
      ReadyToFlush(Freed(st, a), n, [a]);
    }
  }

  ghost predicate FlushReady(st: State, n: nat, l: seq<nat>) {
    var marked := Marked(st.mem, l);
    && |st.free| == NUM_FREE_LISTS
    && (forall a: nat | a in l :: a in st.mem)
    && Turn(marked, Flushing(State(marked, st.free, st.quick), map[]), n, l, 0)
    && SafeFrom(marked, l, 0)
  }

  /** A safe flush can be carried out. */
  lemma ReadyToFlush(st: State, n: nat, l: seq<nat>)
    requires NoRepeats(l) && InvPending(st, n, Elements(l)) && FlushSafe(st.mem, l)
    ensures FlushReady(st, n, l)
  {
    assert |st.free| == NUM_FREE_LISTS;
    hide InvPending, Turn, SafeAt, Elements, Marked, NoRepeats;
    FirstTurn(st, n, l);
  }

  /** The quick-list part of the specification. */
  ghost predicate TakenFromQuick(st: State, size: nat, r: Option<nat>, st': State) {
    match QuickFit(st.mem, st.quick, size, 0)
    case Some(c) =>
      && c < |st.quick| && st.quick[c] != [] && st.quick[c][0] in st.mem
      && r == Some(st.quick[c][0]) && st' == TakeQuick(st, c)
    case None => r == None && st' == st
  }

  /** The free-list part. */
  ghost predicate TakenFromFree(st: State, size: nat, r: Option<nat>, st': State) {
    match FirstFit(st.mem, st.free, size, 0)
    case Some(a) =>
      a in st.mem && size <= st.mem[a].size && |st.free| == NUM_FREE_LISTS && r == Some(a) && st' == Carve(st, a, size)
    case None => r == None && st' == st
  }

  lemma FoundFits(mem: map<nat, Header>, l: seq<nat>, size: nat)
    ensures ListFit(mem, l, size).Some? ==> SizeAt(mem, ListFit(mem, l, size).value) >= size
  {
    ListFitFinds(mem, l, size);
  }

  lemma RoundedLarge(size: nat)
    ensures MIN_BLOCK <= Rounded(size)
  {
    RoundedLeast(size, (size + 40) * 16);
  }

  lemma FreshArena(st: State, n: nat)
    requires n >= MIN_BLOCK && n % 16 == 0
    requires st.mem == map[0 := Header(n, Status.Free)] && st.quick == seq(NUM_QUICK_LISTS, _ => [])
    requires st.free == Push(seq(NUM_FREE_LISTS, _ => []), SizeClass(n), 0)
    ensures Inv(st, n) && LiveBlocks(st) == map[]
  {
    assert Fits(st.mem, n, 0);
    assert forall c: nat, a: nat | c < NUM_FREE_LISTS :: a in st.free[c] <==> OnFreeList(st.mem, a, c);
  }

  lemma RequestKeeps(st: State, n: nat, size: nat)
    requires Inv(st, n)
    ensures Inv(Request(st, size).1, n)
  {
    RoundedLeast(size, (size + 40) * 16);
    hide Inv, Malloc;
    MallocKeeps(st, n, Rounded(size));
  }

  lemma PoppedIs(quick: seq<seq<nat>>, quick': seq<seq<nat>>, i: nat, b: nat)
    requires i < |quick| == |quick'| && quick[i] == [b] + quick'[i] && quick' == quick[i := quick'[i]]
    ensures quick[i] != [] && quick[i][0] == b && quick' == quick[i := quick[i][1..]]
  {
    assert quick[i][1..] == quick'[i];
  }

  /** What serving a block found on a list relies on. */
  lemma ServeReady(st: State, n: nat, i: nat, j: nat, size: nat)
    requires Inv(st, n) && i < |st.free| && j < |st.free[i]| && SizeAt(st.mem, st.free[i][j]) >= size
    requires MIN_BLOCK <= size
    ensures var a := st.free[i][j];
            && a in st.mem && size <= st.mem[a].size && a < n
            && (st.mem[a].size - size >= MIN_BLOCK ==>
                  a + size < n && forall c | 0 <= c < |st.free| :: a + size !in st.free[c])
  {
    var a := st.free[i][j];
    assert a in st.free[i] && OnFreeList(st.mem, a, i);
    assert Fits(st.mem, n, a);
    if st.mem[a].size - size >= MIN_BLOCK {
      assert a + size !in st.mem by {
        SplitAt(st.mem, n, a, size);
      }
      NotListed(st, n, a + size);
    }
  }

  lemma NotListed(st: State, n: nat, a: nat)
    requires Inv(st, n) && !IsFree(st.mem, a)
    ensures forall c | 0 <= c < |st.free| :: a !in st.free[c]
  {
    forall c: nat | c < |st.free|
      ensures a !in st.free[c]
    {
      assert !OnFreeList(st.mem, a, c);
    }
  }

  /** The four cases of sf_coalesce. */
  lemma CoalesceCases(st: State, a: nat)
    requires a in st.mem && |st.free| == NUM_FREE_LISTS
    ensures var size := st.mem[a].size;
            var next := a + size;
            var st' := SfHeap.Coalesce(st, a);
            var past := FreeBefore(st.mem, a);
            var nextFree := next in st.mem && st.mem[next].status.Free?;
            st' ==
            if past.None? && !nextFree then
              State(Merge(st.mem, {a}, a, size), Push<nat>(st.free, SizeClass(size), a), st.quick)
            else if past.Some? && !nextFree then
              var newSize := size + st.mem[past.value].size;
              State(Merge(st.mem, {past.value, a}, past.value, newSize),
                    Push<nat>(Remove<nat>(Remove<nat>(st.free, a), past.value), SizeClass(newSize), past.value),
                    st.quick)
            else if past.None? then
              var newSize := size + st.mem[next].size;
              State(Merge(st.mem, {next, a}, a, newSize),
                    Push<nat>(Remove<nat>(Remove<nat>(st.free, a), next), SizeClass(newSize), a), st.quick)
            else
              var newSize := size + st.mem[past.value].size + st.mem[next].size;
              State(Merge(st.mem, {past.value, a, next}, past.value, newSize),
                    Push<nat>(Remove<nat>(Remove<nat>(Remove<nat>(st.free, a), past.value), next), SizeClass(newSize),
                              past.value),
                    st.quick)
  {
    hide Remove, Push, SizeClass, Merge, FreeBefore;
    var size := st.mem[a].size;
    var past, next := FreeBefore(st.mem, a), FreeAt(st.mem, a + size);
    var d := JoinBlocks(a, size, past, next);
    match (past, next)
    case (None, None) => assert d == {a};
    case (Some(p), None) => assert d == {p, a};
    case (None, Some(s)) => assert d == {a + size, a};
    case (Some(p), Some(s)) => assert d == {p, a, a + size};
  }

  /** There is at most one block before another, so the search finds the one the specification means. */
  lemma BeforeIs(mem: map<nat, Header>, n: nat, a: nat, r: Option<nat>)
    requires Tiles(mem, n)
    requires r.Some? ==> IsPrev(mem, r.value, a) && IsFree(mem, r.value)
    requires r.None? ==> forall p: nat :: !(p in mem && p + mem[p].size == a && mem[p].status.Free?)
    ensures r == FreeBefore(mem, a)
  {
    var b := FreeBefore(mem, a);
    if r.Some? && b.Some? {
      PrevUnique(mem, n, r.value, b.value, a);
    }
  }

  /** Under the invariant every block on a list has a header. */
  lemma ListsKnown(st: State, n: nat)
    requires Inv(st, n)
    ensures |st.free| == NUM_FREE_LISTS && |st.quick| == NUM_QUICK_LISTS
    ensures forall c: nat, a: nat | c < NUM_FREE_LISTS && a in st.free[c] :: a in st.mem
    ensures forall c: nat, a: nat | c < NUM_QUICK_LISTS && a in st.quick[c] :: a in st.mem
  {
    forall c: nat, a: nat | c < NUM_FREE_LISTS && a in st.free[c]
      ensures a in st.mem
    {
      assert OnFreeList(st.mem, a, c);
    }
    forall c: nat, a: nat | c < NUM_QUICK_LISTS && a in st.quick[c]
      ensures a in st.mem
    {
      assert OnQuickList(st.mem, {}, a, c);
    }
  }

  lemma TakenQuick(st: State, c: nat)
    requires c < |st.quick| && st.quick[c] != [] && st.quick[c][0] in st.mem
    ensures var a := st.quick[c][0];
            TakeQuick(st, c) == State(st.mem[a := Header(st.mem[a].size, Live)], st.free,
                                      st.quick[c := st.quick[c][1..]])
  {
  }
}
