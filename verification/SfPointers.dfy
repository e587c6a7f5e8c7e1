/**
 * The circular free lists of hw3/src/sfmm.c as link words in memory. A block is known by its
 * address, a number below base; the sentinels sf_free_list_heads follow from base on.
 */
module SfPointers {
  import opened Prelude
  import opened SfLists

  // ---------------------------------------------------------------------------
  // One ring
  // ---------------------------------------------------------------------------

  /** The node at distance j from the sentinel, going round. */
  function Node(head: nat, l: seq<nat>, j: nat): nat {
    if 1 <= j <= |l| then l[j - 1] else head
  }

  /**
   * From the sentinel the next words run through l and back, and the prev word of every element is its
   * predecessor. The prev word of the sentinel is not constrained.
   */
  ghost predicate Ring(next: seq<nat>, prev: seq<nat>, head: nat, l: seq<nat>) {
    && |next| == |prev|
    && (forall j: nat | j <= |l| :: Node(head, l, j) < |next| && next[Node(head, l, j)] == Node(head, l, j + 1))
    && (forall j: nat | 1 <= j <= |l| :: prev[Node(head, l, j)] == Node(head, l, j - 1))
    && NoRepeats(l)
    && head !in l
  }

  /** Ten rings, acyclic but for their sentinels and pairwise disjoint. */
  ghost predicate AreRings(next: seq<nat>, prev: seq<nat>, base: nat, lists: seq<seq<nat>>) {
    && |lists| == NUM_FREE_LISTS
    && Disjoint(lists)
    && (forall i, b | 0 <= i < |lists| && b in lists[i] :: b < base)
    && (forall i: nat | i < |lists| :: Ring(next, prev, base + i, lists[i]))
  }

  /** A ring is not affected by changes outside it; the prev word of its sentinel may change too. */
  lemma RingFrame(next: seq<nat>, prev: seq<nat>, next': seq<nat>, prev': seq<nat>, head: nat, l: seq<nat>)
    requires Ring(next, prev, head, l)
    requires |next'| == |prev'| == |next|
    requires forall b | b == head || b in l :: b < |next| && next'[b] == next[b]
    requires forall b | b in l :: b < |prev| && prev'[b] == prev[b]
    ensures Ring(next', prev', head, l)
  {
    forall j: nat | j <= |l|
      ensures Node(head, l, j) < |next'| && next'[Node(head, l, j)] == Node(head, l, j + 1)
      ensures 1 <= j ==> prev'[Node(head, l, j)] == Node(head, l, j - 1)
    {
      assert j >= 1 ==> l[j - 1] in l;
    }
  }

  lemma RingInsert(next: seq<nat>, prev: seq<nat>, head: nat, l: seq<nat>, b: nat)
    requires Ring(next, prev, head, l) && b < |next| && b != head && b !in l
    ensures head < |next| && next[head] < |next|
    ensures var first := next[head];
            Ring(next[b := first][head := b], prev[first := b][b := head], head, [b] + l)
  {
    assert Node(head, l, 0) == head && Node(head, l, 1) < |next|;
    var first := next[head];
    var next', prev' := next[b := first][head := b], prev[first := b][b := head];
    var l' := [b] + l;
    assert first == Node(head, l, 1);
    forall j: nat | j <= |l'|
      ensures Node(head, l', j) < |next'| && next'[Node(head, l', j)] == Node(head, l', j + 1)
      ensures 1 <= j ==> prev'[Node(head, l', j)] == Node(head, l', j - 1)
    {
      if j >= 2 {
        assert Node(head, l', j) == Node(head, l, j - 1) == l[j - 2];
        assert Node(head, l', j + 1) == Node(head, l, j);
        assert j >= 3 ==> l[j - 2] != l[0];
        assert Node(head, l', j - 1) == if j == 2 then b else Node(head, l, j - 2);
        assert prev[Node(head, l, j - 1)] == Node(head, l, j - 2);
      }
    }
  }

  /** Positions after removing the element at position j. */
  lemma NodeWithout(head: nat, l: seq<nat>, j: nat, k: nat)
    requires j < |l|
    ensures Node(head, l[..j] + l[j + 1..], k) == Node(head, l, if k <= j then k else k + 1)
  {
    var l' := l[..j] + l[j + 1..];
    if 1 <= k <= |l'| {
      assert l'[k - 1] == if k - 1 < j then l[k - 1] else l[k];
    }
  }

  /** Unlinking the element at position j. */
  lemma RingUnlink(next: seq<nat>, prev: seq<nat>, head: nat, l: seq<nat>, j: nat)
    requires Ring(next, prev, head, l) && j < |l|
    ensures l[j] < |next| && next[l[j]] < |next| && prev[l[j]] < |next|
    ensures var b := l[j];
            Ring(next[prev[b] := next[b]], prev[next[b] := prev[b]], head, l[..j] + l[j + 1..])
  {
    assert Node(head, l, j + 1) == l[j];
    assert Node(head, l, j) < |next| && Node(head, l, j + 2) < |next| by {
      assert j + 2 > |l| ==> Node(head, l, j + 2) == Node(head, l, 0);
    }
    var b := l[j];
    var p, n := prev[b], next[b];
    assert p == Node(head, l, j) && n == Node(head, l, j + 2);
    var next', prev' := next[p := n], prev[n := p];
    var l' := l[..j] + l[j + 1..];
    forall k: nat | k <= |l'|
      ensures Node(head, l', k) < |next'| && next'[Node(head, l', k)] == Node(head, l', k + 1)
      ensures 1 <= k ==> prev'[Node(head, l', k)] == Node(head, l', k - 1)
    {
      var o := if k <= j then k else k + 1;
      NodeWithout(head, l, j, k);
      NodeWithout(head, l, j, k + 1);
      if k >= 1 {
        NodeWithout(head, l, j, k - 1);
      }
      assert next[Node(head, l, o)] == Node(head, l, o + 1);
      assert 1 <= o ==> prev[Node(head, l, o)] == Node(head, l, o - 1);
    }
  }

  // ---------------------------------------------------------------------------
  // All rings
  // ---------------------------------------------------------------------------

  lemma RingHead(next: seq<nat>, prev: seq<nat>, head: nat, l: seq<nat>)
    requires Ring(next, prev, head, l)
    ensures |next| == |prev| && head < |next| && next[head] < |next|
    ensures next[head] == if l == [] then head else l[0]
  {
    assert Node(head, l, 0) == head;
    assert Node(head, l, 1) < |next|;
  }

  lemma RingBounds(next: seq<nat>, prev: seq<nat>, head: nat, l: seq<nat>)
    requires Ring(next, prev, head, l)
    ensures forall b | b in l :: b < |next|
  {
    forall b | b in l
      ensures b < |next|
    {
      var j :| 0 <= j < |l| && l[j] == b;
      assert Node(head, l, j + 1) == b;
    }
  }

  lemma RingNode(next: seq<nat>, prev: seq<nat>, head: nat, l: seq<nat>, b: nat)
    requires Ring(next, prev, head, l) && b in l
    ensures b < |next| == |prev| && next[b] < |next| && prev[b] < |next|
    ensures (next[b] == head || next[b] in l) && (prev[b] == head || prev[b] in l)
    ensures next[b] != b && prev[b] != b
  {
    var j :| 0 <= j < |l| && l[j] == b;
    RingUnlink(next, prev, head, l, j);
    assert Node(head, l, j + 1) == b;
    assert next[b] == Node(head, l, j + 2) && prev[b] == Node(head, l, j);
  }

  /** Words of other nodes may change: each is a block on no list, or on another, or another sentinel. */
  lemma OtherRing(next: seq<nat>, prev: seq<nat>, next': seq<nat>, prev': seq<nat>, base: nat, l: seq<nat>, c: nat,
                  x: nat, y: nat)
    requires Ring(next, prev, base + c, l) && forall b | b in l :: b < base
    requires |next'| == |prev'| == |next|
    requires x != base + c && x !in l && y != base + c && y !in l
    requires forall b | 0 <= b < |next| && b != x && b != y :: next'[b] == next[b]
    requires forall b | 0 <= b < |next| && b < base && b in l :: prev'[b] == prev[b]
    ensures Ring(next', prev', base + c, l)
  {
    RingHead(next, prev, base + c, l);
    RingBounds(next, prev, base + c, l);
    hide Ring;
    RingFrame(next, prev, next', prev', base + c, l);
  }

  lemma Apart(lists: seq<seq<nat>>, base: nat, i: nat, c: nat, b: nat)
    requires Disjoint(lists) && i < |lists| && c < |lists| && c != i
    requires forall d, x | 0 <= d < |lists| && x in lists[d] :: x < base
    requires b == base + i || b in lists[i]
    ensures b != base + c && b !in lists[c]
  {
  }

  lemma InsertOther(next: seq<nat>, prev: seq<nat>, base: nat, lists: seq<seq<nat>>, i: nat, b: nat, c: nat)
    requires AreRings(next, prev, base, lists) && i < NUM_FREE_LISTS && c < NUM_FREE_LISTS && c != i
    requires b < base && b < |next| && b !in lists[c]
    requires base + i < |next| == |prev| && next[base + i] < |next|
    ensures var first := next[base + i];
            Ring(next[b := first][base + i := b], prev[first := b][b := base + i], base + c, lists[c])
  {
    var head := base + i;
    assert Ring(next, prev, head, lists[i]) && Ring(next, prev, base + c, lists[c]);
    RingHead(next, prev, head, lists[i]);
    var first := next[head];
    assert first == head || first in lists[i];
    Apart(lists, base, i, c, head);
    Apart(lists, base, i, c, first);
    hide Ring, Disjoint;
    OtherRing(next, prev, next[b := first][head := b], prev[first := b][b := head], base, lists[c], c, b, head);
  }

  /** Insertion is cons on one list and leaves the others alone. */
  lemma InsertRings(next: seq<nat>, prev: seq<nat>, base: nat, lists: seq<seq<nat>>, i: nat, b: nat)
    requires AreRings(next, prev, base, lists) && i < NUM_FREE_LISTS
    requires b < base && b < |next| && forall c | 0 <= c < |lists| :: b !in lists[c]
    ensures base + i < |next| == |prev| && next[base + i] < |next|
    ensures var first := next[base + i];
            AreRings(next[b := first][base + i := b], prev[first := b][b := base + i], base, Push(lists, i, b))
  {
    var head := base + i;
    assert Ring(next, prev, head, lists[i]);
    RingHead(next, prev, head, lists[i]);
    RingInsert(next, prev, head, lists[i], b);
    PushDisjoint(lists, i, b);
    hide Ring, Disjoint;
    var first := next[head];
    var next', prev' := next[b := first][head := b], prev[first := b][b := head];
    forall c: nat | c < |lists|
      ensures Ring(next', prev', base + c, Push(lists, i, b)[c])
    {
      if c != i {
        InsertOther(next, prev, base, lists, i, b, c);
      }
    }
  }

  /** The first block of an empty list needs no change to the prev word of the sentinel. */
  lemma FirstInRing(next: seq<nat>, prev: seq<nat>, base: nat, lists: seq<seq<nat>>, i: nat, b: nat)
    requires AreRings(next, prev, base, lists) && i < NUM_FREE_LISTS && lists[i] == []
    requires b < base && base + i < |next| == |prev| && forall c | 0 <= c < |lists| :: b !in lists[c]
    ensures AreRings(next[base + i := b][b := base + i], prev[b := base + i], base, Push(lists, i, b))
  {
    hide Disjoint;
    var head := base + i;
    var next', prev' := next[head := b][b := head], prev[b := head];
    assert Ring(next, prev, head, lists[i]);
    assert Ring(next', prev', head, [b]);
    hide Ring;
    forall c: nat | c < |lists|
      ensures Ring(next', prev', base + c, Push(lists, i, b)[c])
    {
      if c != i {
        assert Ring(next, prev, base + c, lists[c]);
        OtherRing(next, prev, next', prev', base, lists[c], c, b, head);
      }
    }
    PushDisjoint(lists, i, b);
  }

  lemma Elsewhere(lists: seq<seq<nat>>, i: nat, c: nat, b: nat)
    requires Disjoint(lists) && i < |lists| && c < |lists| && c != i && b in lists[i]
    ensures b !in lists[c]
  {
  }

  lemma PushDisjoint(lists: seq<seq<nat>>, i: nat, b: nat)
    requires i < |lists| && Disjoint(lists)
    requires forall c | 0 <= c < |lists| :: b !in lists[c]
    ensures Disjoint(Push(lists, i, b))
  {
  }

  lemma SmallerDisjoint(lists: seq<seq<nat>>, i: nat, l: seq<nat>)
    requires i < |lists| && Disjoint(lists) && forall x | x in l :: x in lists[i]
    ensures Disjoint(lists[i := l])
  {
  }

  lemma UnlinkOther(next: seq<nat>, prev: seq<nat>, base: nat, lists: seq<seq<nat>>, i: nat, b: nat, c: nat)
    requires AreRings(next, prev, base, lists) && i < NUM_FREE_LISTS && c < NUM_FREE_LISTS && c != i && b in lists[i]
    ensures b < |next| == |prev| && next[b] < |next| && prev[b] < |next|
    ensures Ring(next[prev[b] := next[b]], prev[next[b] := prev[b]], base + c, lists[c])
  {
    assert Ring(next, prev, base + i, lists[i]) && Ring(next, prev, base + c, lists[c]);
    RingNode(next, prev, base + i, lists[i], b);
    Apart(lists, base, i, c, prev[b]);
    Apart(lists, base, i, c, next[b]);
    hide Ring, Disjoint;
    OtherRing(next, prev, next[prev[b] := next[b]], prev[next[b] := prev[b]], base, lists[c], c, prev[b], prev[b]);
  }

  /** Unlinking position j of list i deletes exactly that block. */
  lemma UnlinkRings(next: seq<nat>, prev: seq<nat>, base: nat, lists: seq<seq<nat>>, i: nat, j: nat)
    requires AreRings(next, prev, base, lists) && i < NUM_FREE_LISTS && j < |lists[i]|
    ensures var b := lists[i][j];
            && b < |next| == |prev| && next[b] < |next| && prev[b] < |next|
            && next[b] != b && prev[b] != b
            && AreRings(next[prev[b] := next[b]], prev[next[b] := prev[b]], base, Remove<nat>(lists, b))
            && Remove<nat>(lists, b) == lists[i := lists[i][..j] + lists[i][j + 1..]]
  {
    var b := lists[i][j];
    RingOf(next, prev, base, lists, i);
    RemovedIs(next, prev, base, lists, i, j);
    hide AreRings, Ring, Disjoint, Remove;
    assert b in lists[i];
    RingNode(next, prev, base + i, lists[i], b);
    RingUnlink(next, prev, base + i, lists[i], j);
    var l := lists[i][..j] + lists[i][j + 1..];
    var next', prev' := next[prev[b] := next[b]], prev[next[b] := prev[b]];
    forall c: nat | c < |lists| && c != i
      ensures Ring(next', prev', base + c, lists[c])
    {
      UnlinkOther(next, prev, base, lists, i, b, c);
    }
    Reassemble(next, prev, next', prev', base, lists, i, l);
  }

  lemma RingOf(next: seq<nat>, prev: seq<nat>, base: nat, lists: seq<seq<nat>>, i: nat)
    requires AreRings(next, prev, base, lists) && i < NUM_FREE_LISTS
    ensures |lists| == NUM_FREE_LISTS && Ring(next, prev, base + i, lists[i])
  {
  }

  lemma Reassemble(next: seq<nat>, prev: seq<nat>, next': seq<nat>, prev': seq<nat>, base: nat,
                   lists: seq<seq<nat>>, i: nat, l: seq<nat>)
    requires AreRings(next, prev, base, lists) && i < NUM_FREE_LISTS
    requires Disjoint(lists[i := l]) && forall x | x in l :: x in lists[i]
    requires Ring(next', prev', base + i, l)
    requires forall c: nat | c < |lists| && c != i :: Ring(next', prev', base + c, lists[c])
    ensures AreRings(next', prev', base, lists[i := l])
  {
    hide Ring, Disjoint;
  }

  lemma RemovedIs(next: seq<nat>, prev: seq<nat>, base: nat, lists: seq<seq<nat>>, i: nat, j: nat)
    requires AreRings(next, prev, base, lists) && i < NUM_FREE_LISTS && j < |lists[i]|
    ensures var l := lists[i][..j] + lists[i][j + 1..];
            Remove<nat>(lists, lists[i][j]) == lists[i := l] && Disjoint(lists[i := l])
  {
    var b := lists[i][j];
    assert b in lists[i] && Ring(next, prev, base + i, lists[i]);
    WithoutSplit(lists[i], j);
    SmallerDisjoint(lists, i, lists[i][..j] + lists[i][j + 1..]);
    hide Ring;
    forall c | 0 <= c < i
      ensures b !in lists[c]
    {
      Elsewhere(lists, i, c, b);
    }
    hide Disjoint;
    RemoveAt(lists, b, i);
  }

  lemma RingsCount(next: seq<nat>, prev: seq<nat>, base: nat, lists: seq<seq<nat>>)
    requires AreRings(next, prev, base, lists)
    ensures |lists| == NUM_FREE_LISTS && |next| == |prev| && base + NUM_FREE_LISTS <= |next|
  {
    assert Ring(next, prev, base + 9, lists[9]);
    assert Node(base + 9, lists[9], 0) == base + 9;
  }

  lemma AbsentAfter(next: seq<nat>, prev: seq<nat>, base: nat, lists: seq<seq<nat>>, b: nat)
    requires AreRings(next, prev, base, lists)
    ensures forall c | 0 <= c < |lists| :: b !in Remove<nat>(lists, b)[c]
    ensures forall x: nat, c | 0 <= c < |lists| && x !in lists[c] :: x !in Remove<nat>(lists, b)[c]
  {
    forall c: nat | c < |lists|
      ensures NoRepeats(lists[c])
    {
      assert Ring(next, prev, base + c, lists[c]);
    }
    RemoveMembers(lists, b);
  }

  /** Following next from the node at distance j. */
  lemma Walk(next: seq<nat>, prev: seq<nat>, base: nat, lists: seq<seq<nat>>, i: nat, j: nat)
    requires AreRings(next, prev, base, lists) && i < NUM_FREE_LISTS
    requires |lists| == NUM_FREE_LISTS && j <= |lists[i]|
    ensures Node(base + i, lists[i], j) < |next| && next[Node(base + i, lists[i], j)] == Node(base + i, lists[i], j + 1)
    ensures Node(base + i, lists[i], j + 1) == base + i <==> j == |lists[i]|
    ensures 0 < j ==> Node(base + i, lists[i], j) == lists[i][j - 1]
  {
    assert Ring(next, prev, base + i, lists[i]);
    assert j < |lists[i]| ==> lists[i][j] in lists[i];
  }

  // ---------------------------------------------------------------------------
  // The operations
  // ---------------------------------------------------------------------------

  class FreeLists {
    const base: nat
    const next: array<nat>
    const prev: array<nat>
    ghost var lists: seq<seq<nat>>

    ghost predicate Valid()
      reads this, next, prev
    {
      next != prev && AreRings(next[..], prev[..], base, lists)
    }

    /** sf_init_lists: every sentinel points to itself. */
    constructor (base: nat)
      ensures Valid() && lists == seq(NUM_FREE_LISTS, _ => []) && this.base == base
      ensures fresh(next) && fresh(prev)
    {
      this.base := base;
      next := new nat[base + NUM_FREE_LISTS];
      prev := new nat[base + NUM_FREE_LISTS];
      lists := seq(NUM_FREE_LISTS, _ => []);
      new;
      for i := 0 to NUM_FREE_LISTS
        invariant next.Length == prev.Length == base + NUM_FREE_LISTS
        invariant lists == seq(NUM_FREE_LISTS, _ => [])
        invariant forall h | base <= h < base + i :: next[h] == prev[h] == h
      {
        prev[base + i] := base + i;
        next[base + i] := base + i;
      }
      forall i: nat | i < |lists|
        ensures Ring(next[..], prev[..], base + i, lists[i])
      {
      }
    }

    /** No list holds the block. */
    ghost predicate Absent(b: nat)
      reads this
    {
      forall c | 0 <= c < |lists| :: b !in lists[c]
    }

    lemma Count()
      requires Valid()
      ensures |lists| == NUM_FREE_LISTS
    {
    }

    lemma AbsentIs(b: nat)
      requires forall c | 0 <= c < |lists| :: b !in lists[c]
      ensures Absent(b)
    {
    }

    /** The links that sf_init_first_page sets for the first page; the prev word of the sentinel stays as it was. */
    method InitFirstPage(pgBlock: nat, curIdx: nat)
      requires Valid() && curIdx < NUM_FREE_LISTS && |lists| == NUM_FREE_LISTS && lists[curIdx] == []
      requires pgBlock < base && Absent(pgBlock)
      modifies this`lists, next, prev
      ensures Valid() && lists == Push(old(lists), curIdx, pgBlock)
      ensures base + curIdx < prev.Length && prev[base + curIdx] == old(prev[base + curIdx])
    {
      RingsCount(next[..], prev[..], base, lists);
      FirstInRing(next[..], prev[..], base, lists, curIdx, pgBlock);
      ghost var n: seq<nat>, p: seq<nat> := next[..], prev[..];
      hide AreRings;
      var head := base + curIdx;
      next[head] := pgBlock;
      prev[pgBlock] := head;
      next[pgBlock] := head;
      assert next[..] == n[head := pgBlock][pgBlock := head] && prev[..] == p[pgBlock := head];
      lists := Push(lists, curIdx, pgBlock);
    }

    /** sf_put_in_free_list_helper. */
    method PutInFreeList(splitBlock: nat, curIdx: nat)
      requires Valid() && curIdx < NUM_FREE_LISTS
      requires splitBlock < base && Absent(splitBlock)
      modifies this`lists, next, prev
      ensures Valid() && |old(lists)| == NUM_FREE_LISTS && lists == Push(old(lists), curIdx, splitBlock)
    {
      RingsCount(next[..], prev[..], base, lists);
      InsertRings(next[..], prev[..], base, lists, curIdx, splitBlock);
      ghost var n: seq<nat>, p: seq<nat> := next[..], prev[..];
      hide AreRings;
      var head := base + curIdx;
      var oldNext := next[head];
      prev[oldNext] := splitBlock;
      next[splitBlock] := oldNext;
      prev[splitBlock] := head;
      next[head] := splitBlock;
      assert next[..] == n[splitBlock := oldNext][head := splitBlock];
      assert prev[..] == p[oldNext := splitBlock][splitBlock := head];
      lists := Push(lists, curIdx, splitBlock);
    }

    /** Taking a block out by its own links, as sf_malloc does when it splits one. */
    method Unlink(curBlock: nat, ghost i: nat, ghost j: nat)
      requires Valid() && i < |lists| && j < |lists[i]| && curBlock == lists[i][j]
      modifies this`lists, next, prev
      ensures Valid() && lists == Remove<nat>(old(lists), curBlock)
      ensures Absent(curBlock) && forall b: nat | old(Absent(b)) :: Absent(b)
    {
      ghost var n: seq<nat>, p: seq<nat> := next[..], prev[..];
      AbsentAfter(n, p, base, lists, curBlock);
      RingsCount(n, p, base, lists);
      UnlinkRings(n, p, base, lists, i, j);
      hide AreRings;
      lists := Remove<nat>(lists, curBlock);
      var newPrev := prev[curBlock];
      var newNext := next[curBlock];
      next[newPrev] := newNext;
      prev[newNext] := newPrev;
      assert prev[..] == p[n[curBlock] := p[curBlock]];
      assert next[..] == n[p[curBlock] := n[curBlock]];
    }

    /** sf_remove_from_free_list: look for the block list by list, element by element, and unlink it. */
    method RemoveFromFreeList(removedBlock: nat)
      requires Valid() && removedBlock < base
      modifies this`lists, next, prev
      ensures Valid() && lists == Remove<nat>(old(lists), removedBlock)
      ensures Absent(removedBlock) && forall b: nat | old(Absent(b)) :: Absent(b)
    {
      hide AreRings, Ring;
      ghost var n: seq<nat>, p: seq<nat> := next[..], prev[..];
      RingsCount(n, p, base, lists);
      AbsentAfter(n, p, base, lists, removedBlock);
      for i := 0 to NUM_FREE_LISTS
        invariant next != prev && AreRings(n, p, base, lists) && next[..] == n && prev[..] == p && lists == old(lists)
        invariant |lists| == NUM_FREE_LISTS && forall c | 0 <= c < i :: removedBlock !in lists[c]
      {
        ghost var l := lists[i];
        var head: nat := base + i;
        var curBlock: nat := head;
        ghost var j: nat := 0;
        Walk(n, p, base, lists, i, j);
        while next[curBlock] != head
          invariant next != prev && AreRings(n, p, base, lists) && next[..] == n && prev[..] == p && lists == old(lists)
          invariant j <= |l| && curBlock == Node(head, l, j) && curBlock < |n|
          invariant n[curBlock] == head <==> j == |l|
          invariant removedBlock !in l[..j]
          decreases |l| - j
        {
          Walk(n, p, base, lists, i, j);
          j := j + 1;
          Walk(n, p, base, lists, i, j);
          curBlock := next[curBlock];
          if curBlock == removedBlock {
            UnlinkRings(n, p, base, lists, i, j - 1);
            lists := Remove<nat>(lists, removedBlock);
            var tempBlock := next[curBlock];
            prev[next[curBlock]] := prev[curBlock];
            next[prev[curBlock]] := tempBlock;
            assert prev[..] == p[n[curBlock] := p[curBlock]];
            assert next[..] == n[p[curBlock] := n[curBlock]];
            return;
          }
          assert l[..j] == l[..j - 1] + [curBlock];
        }
        assert l[..j] == l;
      }
      RemoveAbsent(lists, removedBlock);
    }
  }
}
