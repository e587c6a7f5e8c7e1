/** The quick lists of hw3/src/sfmm.c: bounded stacks chained through the next word of their blocks. */
module SfQuickLists {
  import opened Prelude
  import opened SfLists

  const NULL := -1

  /** From b the next words run through l to NULL. */
  ghost predicate Chain(next: seq<int>, b: int, l: seq<nat>)
    decreases |l|
  {
    if l == [] then b == NULL
    else b == l[0] && l[0] < |next| && Chain(next, next[l[0]], l[1..])
  }

  ghost predicate AreStacks(next: seq<int>, first: seq<int>, length: seq<int>, stacks: seq<seq<nat>>) {
    && |first| == |length| == |stacks| == NUM_QUICK_LISTS
    && (forall i | 0 <= i < |stacks| :: Chain(next, first[i], stacks[i]))
    && (forall i | 0 <= i < |stacks| :: length[i] == |stacks[i]| <= QUICK_LIST_MAX)
  }

  lemma {:induction false} ChainFrame(next: seq<int>, b: int, l: seq<nat>, x: nat, v: int)
    requires Chain(next, b, l) && x < |next| && x !in l
    ensures Chain(next[x := v], b, l)
    decreases |l|
  {
    if l != [] {
      ChainFrame(next, next[l[0]], l[1..], x, v);
    }
  }

  lemma StacksFrame(next: seq<int>, first: seq<int>, length: seq<int>, stacks: seq<seq<nat>>, x: nat, v: int,
                    i: nat, l: seq<nat>)
    requires AreStacks(next, first, length, stacks) && i < NUM_QUICK_LISTS
    requires x < |next| && forall c | 0 <= c < |stacks| && c != i :: x !in stacks[c]
    requires Chain(next[x := v], x, l) && |l| <= QUICK_LIST_MAX
    ensures AreStacks(next[x := v], first[i := x], length[i := |l|], stacks[i := l])
  {
    var first', stacks' := first[i := x], stacks[i := l];
    forall c: nat | c < |stacks'|
      ensures Chain(next[x := v], first'[c], stacks'[c])
    {
      if c != i {
        ChainFrame(next, first[c], stacks[c], x, v);
      }
    }
  }

  class QuickLists {
    const next: array<int>
    const first: array<int>
    const length: array<int>
    ghost var stacks: seq<seq<nat>>

    ghost predicate Valid()
      reads this, next, first, length
    {
      && next != first && next != length && first != length
      && AreStacks(next[..], first[..], length[..], stacks)
    }

    constructor (blocks: nat)
      ensures Valid() && stacks == seq(NUM_QUICK_LISTS, _ => [])
      ensures fresh(next) && fresh(first) && fresh(length) && next.Length == blocks
    {
      next := new int[blocks];
      first := new int[NUM_QUICK_LISTS](_ => NULL);
      length := new int[NUM_QUICK_LISTS](_ => 0);
      stacks := seq(NUM_QUICK_LISTS, _ => []);
    }

    /** What the head of a list shows. */
    lemma TopIs(i: nat)
      requires Valid() && i < NUM_QUICK_LISTS
      ensures |stacks| == NUM_QUICK_LISTS && i < length.Length && i < first.Length
      ensures length[i] > 0 <==> stacks[i] != []
      ensures stacks[i] != [] ==> first[i] == stacks[i][0] && 0 <= first[i] < next.Length
    {
      assert Chain(next[..], first[..][i], stacks[i]);
      assert length[..][i] == |stacks[i]|;
    }

    /** sf_flush_quick_list up to its loop: the blocks of the list, and the list left with curBlock alone. */
    method Flush(curBlock: nat, listIdx: nat) returns (blockArray: seq<nat>)
      requires Valid() && listIdx < NUM_QUICK_LISTS && |stacks[listIdx]| == QUICK_LIST_MAX
      requires curBlock < next.Length && forall c | 0 <= c < |stacks| :: curBlock !in stacks[c]
      modifies this`stacks, next, first, length
      ensures Valid() && stacks == old(stacks)[listIdx := [curBlock]]
      ensures blockArray == old(stacks)[listIdx]
    {
      ghost var l := stacks[listIdx];
      blockArray := [];
      var head := first[listIdx];
      while head != NULL
        invariant |blockArray| <= |l| && blockArray == l[..|blockArray|]
        invariant Chain(next[..], head, l[|blockArray|..])
        decreases |l| - |blockArray|
      {
        assert l[|blockArray|..][1..] == l[|blockArray| + 1..];
        blockArray := blockArray + [head];
        head := next[head];
      }
      assert Chain(next[..][curBlock := NULL], curBlock, [curBlock]);
      StacksFrame(next[..], first[..], length[..], stacks, curBlock, NULL, listIdx, [curBlock]);
      ghost var n, f, len := next[..], first[..], length[..];
      hide AreStacks;
      next[curBlock] := NULL;
      length[listIdx] := 1;
      first[listIdx] := curBlock;
      assert next[..] == n[curBlock := NULL] && first[..] == f[listIdx := curBlock] && length[..] == len[listIdx := 1];
      stacks := stacks[listIdx := [curBlock]];
    }

    /** sf_put_in_quick_list_helper: push, or flush a full list first; flushed holds what left the list. */
    method PutInQuickList(curBlock: nat, curIdx: nat) returns (flushed: seq<nat>)
      requires Valid() && curIdx < NUM_QUICK_LISTS
      requires curBlock < next.Length && forall c | 0 <= c < |stacks| :: curBlock !in stacks[c]
      modifies this`stacks, next, first, length
      ensures Valid()
      ensures |old(stacks)[curIdx]| == QUICK_LIST_MAX ==>
                flushed == old(stacks)[curIdx] && stacks == old(stacks)[curIdx := [curBlock]]
      ensures |old(stacks)[curIdx]| != QUICK_LIST_MAX ==>
                flushed == [] && stacks == Push(old(stacks), curIdx, curBlock)
    {
      if length[curIdx] == QUICK_LIST_MAX {
        flushed := Flush(curBlock, curIdx);
        return;
      }
      flushed := [];
      ghost var l := [curBlock] + stacks[curIdx];
      ghost var n, f, len := next[..], first[..], length[..];
      assert l[1..] == stacks[curIdx];
      ChainFrame(n, f[curIdx], stacks[curIdx], curBlock, f[curIdx]);
      StacksFrame(n, f, len, stacks, curBlock, f[curIdx], curIdx, l);
      if first[curIdx] != NULL {
        length[curIdx] := length[curIdx] + 1;
        var oldFirst := first[curIdx];
        next[curBlock] := oldFirst;
        first[curIdx] := curBlock;
      } else {
        length[curIdx] := length[curIdx] + 1;
        next[curBlock] := NULL;
        first[curIdx] := curBlock;
      }
      assert next[..] == n[curBlock := f[curIdx]] && first[..] == f[curIdx := curBlock];
      assert length[..] == len[curIdx := |l|];
      stacks := Push(stacks, curIdx, curBlock);
    }

    /** The quick-list path of sf_malloc: the block pushed last is taken off. */
    method Pop(i: nat) returns (retBlock: nat)
      requires Valid() && i < NUM_QUICK_LISTS && stacks[i] != []
      modifies this`stacks, first, length
      ensures Valid() && old(stacks)[i] == [retBlock] + stacks[i]
      ensures stacks == old(stacks)[i := stacks[i]]
    {
      length[i] := length[i] - 1;
      retBlock := first[i];
      first[i] := next[retBlock];
      stacks := stacks[i := stacks[i][1..]];
    }
  }
}
