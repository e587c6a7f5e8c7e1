/** Lists of blocks segregated by class: what sf_put_in_free_list and sf_remove_from_free_list compute. */
module SfLists {
  import opened Prelude

  const NUM_FREE_LISTS := 10
  const NUM_QUICK_LISTS := 10
  const QUICK_LIST_MAX := 5

  ghost predicate AllNoRepeats<T>(lists: seq<seq<T>>) {
    forall c | 0 <= c < |lists| :: NoRepeats(lists[c])
  }

  /** No element is on two lists. */
  ghost predicate Disjoint<T>(lists: seq<seq<T>>) {
    forall c, d, x | 0 <= c < d < |lists| && x in lists[c] :: x !in lists[d]
  }

  /** Insertion at the head of list i. */
  function Push<T>(lists: seq<seq<T>>, i: nat, x: T): (r: seq<seq<T>>)
    requires i < |lists|
    ensures |r| == |lists|
  {
    lists[i := [x] + lists[i]]
  }

  /** A list without the first occurrence of x. */
  function Without<T(==)>(s: seq<T>, x: T): seq<T> {
    if s == [] then []
    else if s[0] == x then s[1..]
    else [s[0]] + Without(s[1..], x)
  }

  /** The lists without x, which is looked for list by list. */
  function Remove<T(==)>(lists: seq<seq<T>>, x: T): (r: seq<seq<T>>)
    ensures |r| == |lists|
  {
    if lists == [] then []
    else if x in lists[0] then [Without(lists[0], x)] + lists[1..]
    else [lists[0]] + Remove(lists[1..], x)
  }

  lemma {:induction false} WithoutMembers<T>(s: seq<T>, x: T)
    requires NoRepeats(s)
    ensures NoRepeats(Without(s, x))
    ensures forall y :: y in Without(s, x) <==> y in s && y != x
  {
    if s != [] {
      assert s == [s[0]] + s[1..];
      assert s[0] !in s[1..];
      if s[0] != x {
        WithoutMembers(s[1..], x);
      }
    }
  }

  lemma {:induction false} WithoutSplit<T>(s: seq<T>, j: nat)
    requires j < |s| && s[j] !in s[..j]
    ensures Without(s, s[j]) == s[..j] + s[j + 1..]
  {
    if j > 0 {
      assert s[0] in s[..j];
      assert s[1..][..j - 1] == s[..j][1..];
      WithoutSplit(s[1..], j - 1);
    }
  }

  /** Removal touches the first list that holds x and no other. */
  lemma {:induction false} RemoveAt<T>(lists: seq<seq<T>>, x: T, i: nat)
    requires i < |lists| && x in lists[i]
    requires forall c | 0 <= c < i :: x !in lists[c]
    ensures Remove(lists, x) == lists[i := Without(lists[i], x)]
  {
    if i > 0 {
      RemoveAt(lists[1..], x, i - 1);
    }
  }

  /** Removal of an absent element is a no-op. */
  lemma {:induction false} RemoveAbsent<T>(lists: seq<seq<T>>, x: T)
    requires forall c | 0 <= c < |lists| :: x !in lists[c]
    ensures Remove(lists, x) == lists
  {
    if lists != [] {
      RemoveAbsent(lists[1..], x);
    }
  }

  /** Removal deletes exactly x. */
  lemma RemoveMembers<T(!new)>(lists: seq<seq<T>>, x: T)
    requires AllNoRepeats(lists) && Disjoint(lists)
    ensures AllNoRepeats(Remove(lists, x)) && Disjoint(Remove(lists, x))
    ensures forall c, y | 0 <= c < |lists| :: y in Remove(lists, x)[c] <==> y in lists[c] && y != x
  {
    if i :| 0 <= i < |lists| && x in lists[i] {
      RemoveAt(lists, x, i);
      WithoutMembers(lists[i], x);
    } else {
      RemoveAbsent(lists, x);
    }
  }

  /** Insertion adds exactly x, in front. */
  lemma PushMembers<T(!new)>(lists: seq<seq<T>>, i: nat, x: T)
    requires i < |lists| && AllNoRepeats(lists) && Disjoint(lists)
    requires forall c | 0 <= c < |lists| :: x !in lists[c]
    ensures AllNoRepeats(Push(lists, i, x)) && Disjoint(Push(lists, i, x))
    ensures forall c, y | 0 <= c < |lists| :: y in Push(lists, i, x)[c] <==> y in lists[c] || (c == i && y == x)
  {
  }

  /** Removing what was just inserted gives the lists back. */
  lemma RemovePush<T(!new)>(lists: seq<seq<T>>, i: nat, x: T)
    requires i < |lists| && forall c | 0 <= c < |lists| :: x !in lists[c]
    ensures Remove(Push(lists, i, x), x) == lists
  {
    RemoveAt(Push(lists, i, x), x, i);
  }
}
