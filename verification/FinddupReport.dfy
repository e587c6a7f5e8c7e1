/** What finddup prints: headers, and for each group a leader followed by its members. */
module FinddupReport {

  datatype Line =
    | ZeroHeader | ZeroLength(name: nat)
    | LinkHeader | LinkFile(name: nat) | Link(name: nat)
    | DupHeader | DupFile(name: nat) | Dup(name: nat)

  /** One block of the report; leader and members are indices of a list, or names after Named. */
  datatype Group = Group(leader: nat, members: seq<nat>)

  /** How a kind of group is printed. */
  datatype Style = LinkStyle | DupStyle {
    function Header(): Line {
      if LinkStyle? then LinkHeader else DupHeader
    }
    function Leader(k: nat): Line {
      if LinkStyle? then LinkFile(k) else DupFile(k)
    }
    function Member(k: nat): Line {
      if LinkStyle? then Link(k) else Dup(k)
    }
  }

  /** The members of a group; a group without members leaves no trace. */
  ghost function GroupLines(style: Style, names: seq<nat>, g: Group): seq<Line>
    decreases |g.members|
  {
    if g.members == [] then []
    else GroupLines(style, names, g.(members := g.members[..|g.members| - 1]))
         + (if |g.members| == 1 then [style.Leader(At(names, g.leader))] else [])
         + [style.Member(At(names, g.members[|g.members| - 1]))]
  }

  ghost function At(names: seq<nat>, i: nat): nat {
    if i < |names| then names[i] else 0
  }

  ghost function Lines(style: Style, names: seq<nat>, groups: seq<Group>): seq<Line> {
    if groups == [] then []
    else Lines(style, names, groups[..|groups| - 1]) + GroupLines(style, names, groups[|groups| - 1])
  }

  /** The blocks under one header, which is absent when there is nothing to show. */
  ghost function Report(style: Style, names: seq<nat>, groups: seq<Group>): seq<Line> {
    var lines := Lines(style, names, groups);
    if lines == [] then [] else [style.Header()] + lines
  }

  /** The groups formed by the first n entries: cont[j] puts entry j into the group of entry j - 1. */
  ghost function Groups(cont: seq<bool>, show: seq<bool>, n: nat): (g: seq<Group>)
    requires n <= |cont| == |show|
    ensures n > 0 ==> g != []
  {
    if n == 0 then []
    else
      var g := Groups(cont, show, n - 1);
      if cont[n - 1] && g != [] then
        var last := g[|g| - 1];
        g[|g| - 1 := if show[n - 1] then last.(members := last.members + [n - 1]) else last]
      else g + [Group(n - 1, [])]
  }

  // ---------------------------------------------------------------------------
  // Growing the report by one entry
  // ---------------------------------------------------------------------------

  lemma LinesNewGroup(style: Style, names: seq<nat>, groups: seq<Group>, k: nat)
    ensures Lines(style, names, groups + [Group(k, [])]) == Lines(style, names, groups)
  {
    assert (groups + [Group(k, [])])[..|groups|] == groups;
  }

  lemma LinesNewMember(style: Style, names: seq<nat>, groups: seq<Group>, k: nat)
    requires groups != []
    ensures var last := groups[|groups| - 1];
            Lines(style, names, groups[|groups| - 1 := last.(members := last.members + [k])])
            == Lines(style, names, groups)
               + (if last.members == [] then [style.Leader(At(names, last.leader))] else [])
               + [style.Member(At(names, k))]
  {
    var last := groups[|groups| - 1];
    var last' := last.(members := last.members + [k]);
    hide Lines, GroupLines;
    GroupLinesMore(style, names, last, k);
    LinesLast(style, names, groups, last');
    LinesLast(style, names, groups, last);
    assert groups[|groups| - 1 := last] == groups;
  }

  lemma GroupLinesMore(style: Style, names: seq<nat>, g: Group, k: nat)
    ensures GroupLines(style, names, g.(members := g.members + [k]))
         == GroupLines(style, names, g)
            + (if g.members == [] then [style.Leader(At(names, g.leader))] else [])
            + [style.Member(At(names, k))]
  {
    var g' := g.(members := g.members + [k]);
    assert g'.members[..|g.members|] == g.members;
    assert g'.(members := g.members) == g;
  }

  lemma LinesLast(style: Style, names: seq<nat>, groups: seq<Group>, g: Group)
    requires groups != []
    ensures Lines(style, names, groups[|groups| - 1 := g])
         == Lines(style, names, groups[..|groups| - 1]) + GroupLines(style, names, g)
  {
    hide GroupLines;
    assert groups[|groups| - 1 := g][..|groups| - 1] == groups[..|groups| - 1];
  }

  /** The last group takes entry k as a member. */
  ghost function AddMember(groups: seq<Group>, k: nat): seq<Group>
    requires groups != []
  {
    var last := groups[|groups| - 1];
    groups[|groups| - 1 := last.(members := last.members + [k])]
  }

  /** The report after one more member. */
  lemma ReportNewMember(style: Style, names: seq<nat>, groups: seq<Group>, k: nat)
    requires groups != [] && k < |names| && groups[|groups| - 1].leader < |names|
    ensures var last := groups[|groups| - 1];
            Report(style, names, AddMember(groups, k))
            == (if Lines(style, names, groups) == [] then [style.Header()] else Report(style, names, groups))
               + (if last.members == [] then [style.Leader(names[last.leader])] else [])
               + [style.Member(names[k])]
    ensures Lines(style, names, groups) == [] ==> Report(style, names, groups) == []
    ensures Lines(style, names, AddMember(groups, k)) != []
  {
    LinesNewMember(style, names, groups, k);
    hide Lines;
  }

  lemma ReportNewGroup(style: Style, names: seq<nat>, groups: seq<Group>, k: nat)
    ensures Report(style, names, groups + [Group(k, [])]) == Report(style, names, groups)
    ensures Lines(style, names, groups + [Group(k, [])]) == Lines(style, names, groups)
  {
    LinesNewGroup(style, names, groups, k);
  }

  // ---------------------------------------------------------------------------
  // What a report shows
  // ---------------------------------------------------------------------------

  /** How many lines the groups take: a leader and its members, and nothing for a group without members. */
  function Room(groups: seq<Group>): nat {
    if groups == [] then 0
    else
      var members := groups[|groups| - 1].members;
      Room(groups[..|groups| - 1]) + if members == [] then 0 else 1 + |members|
  }

  lemma {:induction false} GroupLinesAre(style: Style, names: seq<nat>, g: Group)
    ensures g.members == [] ==> GroupLines(style, names, g) == []
    ensures g.members != [] ==>
              var lines := GroupLines(style, names, g);
              && |lines| == 1 + |g.members|
              && lines[0] == (if style.LinkStyle? then LinkFile(At(names, g.leader)) else DupFile(At(names, g.leader)))
              && forall i | 0 <= i < |g.members| ::
                   lines[1 + i] == if style.LinkStyle? then Link(At(names, g.members[i])) else Dup(At(names,
                                                                                                      g.members[i]))
    decreases |g.members|
  {
    if |g.members| > 1 {
      GroupLinesAre(style, names, g.(members := g.members[..|g.members| - 1]));
    }
  }

  lemma {:induction false} LinesLength(style: Style, names: seq<nat>, groups: seq<Group>)
    ensures |Lines(style, names, groups)| == Room(groups)
  {
    if groups != [] {
      LinesLength(style, names, groups[..|groups| - 1]);
      GroupLinesAre(style, names, groups[|groups| - 1]);
      hide GroupLines;
    }
  }

  lemma {:induction false} LinesSplit(style: Style, names: seq<nat>, groups: seq<Group>,
                                      k: nat) returns (rest: seq<Line>)
    requires k < |groups|
    ensures Lines(style, names, groups) == Lines(style, names, groups[..k]) + GroupLines(style, names, groups[k]) + rest
    decreases |groups|
  {
    hide GroupLines;
    var front := groups[..|groups| - 1];
    if k < |front| {
      rest := LinesSplit(style, names, front, k);
      assert front[..k] == groups[..k];
      rest := rest + GroupLines(style, names, groups[|groups| - 1]);
    } else {
      rest := [];
    }
  }

  lemma Within<T>(h: T, a: seq<T>, b: seq<T>, c: seq<T>, i: nat)
    requires i < |b|
    ensures ([h] + (a + b + c))[1 + |a| + i] == b[i]
  {
  }

  /** A report has a header and the lines of its groups, or nothing. */
  lemma ReportLength(style: Style, names: seq<nat>, groups: seq<Group>)
    ensures var r := Report(style, names, groups);
            && |r| == (if Room(groups) == 0 then 0 else 1 + Room(groups))
            && (r != [] ==> r[0] == if style.LinkStyle? then LinkHeader else DupHeader)
  {
    LinesLength(style, names, groups);
    hide Lines, Room;
  }

  lemma ReportLine(style: Style, names: seq<nat>, groups: seq<Group>, k: nat, i: nat)
    requires k < |groups| && i < |GroupLines(style, names, groups[k])|
    ensures var r, p := Report(style, names, groups), 1 + Room(groups[..k]) + i;
            p < |r| && r[p] == GroupLines(style, names, groups[k])[i]
  {
    LinesLength(style, names, groups[..k]);
    var rest := LinesSplit(style, names, groups, k);
    hide Lines, GroupLines, Room;
    Within(style.Header(), Lines(style, names, groups[..k]), GroupLines(style, names, groups[k]), rest, i);
  }

  /** Group by group it has the leader and then the members, in order; a group without members has no lines. */
  lemma ReportAt(style: Style, names: seq<nat>, groups: seq<Group>, k: nat, i: nat)
    requires k < |groups| && i < |groups[k].members|
    ensures var r, p := Report(style, names, groups), 1 + Room(groups[..k]);
            var leader, member := At(names, groups[k].leader), At(names, groups[k].members[i]);
            && p + 1 + i < |r|
            && r[p] == (if style.LinkStyle? then LinkFile(leader) else DupFile(leader))
            && r[p + 1 + i] == if style.LinkStyle? then Link(member) else Dup(member)
  {
    GroupLinesAre(style, names, groups[k]);
    ReportLine(style, names, groups, k, 0);
    ReportLine(style, names, groups, k, 1 + i);
    hide Report, GroupLines, Room;
  }

  // ---------------------------------------------------------------------------
  // Groups are the classes of a key
  // ---------------------------------------------------------------------------

  /** cont says "the key of the entry before", and equal keys are contiguous. */
  ghost predicate Contiguous<K>(keys: seq<K>, cont: seq<bool>)
    requires |keys| == |cont|
  {
    && (forall j | 0 <= j < |keys| && cont[j] :: j > 0 && keys[j - 1] == keys[j])
    && (forall i, j | 0 <= i < j < |keys| && keys[i] == keys[j] :: cont[j])
  }

  ghost predicate Increasing(s: seq<nat>) {
    forall i, j | 0 <= i < j < |s| :: s[i] < s[j]
  }

  /** Group g holds, of the first n entries, its leader and every shown entry after it with the leader's key. */
  ghost predicate IsClass<K>(keys: seq<K>, cont: seq<bool>, show: seq<bool>, n: nat, g: Group)
    requires n <= |keys| == |cont| == |show|
  {
    && g.leader < n && !cont[g.leader]
    && (forall j :: j in g.members <==> g.leader < j < n && show[j] && keys[j] == keys[g.leader])
    && Increasing(g.members)
  }

  ghost predicate SameKey<K>(keys: seq<K>, i: nat, j: nat) {
    i < |keys| && j < |keys| && keys[i] == keys[j]
  }

  ghost predicate EachIsClass<K>(keys: seq<K>, cont: seq<bool>, show: seq<bool>, n: nat, groups: seq<Group>)
    requires n <= |keys| == |cont| == |show|
  {
    forall a | 0 <= a < |groups| :: IsClass(keys, cont, show, n, groups[a])
  }

  ghost predicate Distinct<K>(keys: seq<K>, groups: seq<Group>) {
    forall a, b | 0 <= a < b < |groups| :: !SameKey(keys, groups[a].leader, groups[b].leader)
  }

  ghost predicate Covered<K>(keys: seq<K>, groups: seq<Group>, j: nat) {
    exists a :: 0 <= a < |groups| && SameKey(keys, groups[a].leader, j)
  }

  ghost predicate Covers<K>(keys: seq<K>, n: nat, groups: seq<Group>) {
    forall j: nat | j < n :: Covered(keys, groups, j)
  }

  /** One group for each key among the first n entries. */
  ghost predicate AreClasses<K>(keys: seq<K>, cont: seq<bool>, show: seq<bool>, n: nat, groups: seq<Group>)
    requires n <= |keys| == |cont| == |show|
  {
    && EachIsClass(keys, cont, show, n, groups)
    && Distinct(keys, groups)
    && Covers(keys, n, groups)
    && (n > 0 ==> groups != [] && SameKey(keys, groups[|groups| - 1].leader, n - 1))
  }

  lemma {:induction false} GroupsAreClasses<K>(keys: seq<K>, cont: seq<bool>, show: seq<bool>, n: nat)
    requires n <= |keys| == |cont| == |show|
    requires Contiguous(keys, cont)
    ensures AreClasses(keys, cont, show, n, Groups(cont, show, n))
  {
    if n > 0 {
      hide AreClasses;
      GroupsAreClasses(keys, cont, show, n - 1);
      if cont[n - 1] {
        ContinueClass(keys, cont, show, n, Groups(cont, show, n - 1));
      } else {
        NewClass(keys, cont, show, n, Groups(cont, show, n - 1));
      }
    }
  }

  lemma GrowClass<K>(keys: seq<K>, cont: seq<bool>, show: seq<bool>, n: nat, g: Group)
    requires 0 < n <= |keys| == |cont| == |show|
    requires IsClass(keys, cont, show, n - 1, g) && keys[g.leader] == keys[n - 1]
    ensures IsClass(keys, cont, show, n, if show[n - 1] then g.(members := g.members + [n - 1]) else g)
  {
    if show[n - 1] {
      var m := g.members + [n - 1];
      assert forall i | 0 <= i < |g.members| :: g.members[i] in g.members;
      forall i, j | 0 <= i < j < |m|
        ensures m[i] < m[j]
      {
        assert m[i] == g.members[i];
      }
      assert forall j :: j in m <==> j in g.members || j == n - 1;
    }
  }

  lemma KeepClass<K>(keys: seq<K>, cont: seq<bool>, show: seq<bool>, n: nat, g: Group)
    requires 0 < n <= |keys| == |cont| == |show|
    requires IsClass(keys, cont, show, n - 1, g) && keys[g.leader] != keys[n - 1]
    ensures IsClass(keys, cont, show, n, g)
  {
  }

  lemma ContinueClass<K>(keys: seq<K>, cont: seq<bool>, show: seq<bool>, n: nat, groups: seq<Group>)
    requires 0 < n <= |keys| == |cont| == |show|
    requires Contiguous(keys, cont) && cont[n - 1]
    requires AreClasses(keys, cont, show, n - 1, groups)
    ensures groups != []
    ensures var last := groups[|groups| - 1];
            AreClasses(keys, cont, show, n,
                       groups[|groups| - 1 := if show[n - 1] then last.(members := last.members + [n - 1]) else last])
  {
    var z := |groups| - 1;
    var last := groups[z];
    var last' := if show[n - 1] then last.(members := last.members + [n - 1]) else last;
    assert SameKey(keys, last.leader, n - 1);
    GrowClass(keys, cont, show, n, last);
    hide IsClass, Contiguous;
    assert EachIsClass(keys, cont, show, n, groups[z := last']) by {
      forall a | 0 <= a < z
        ensures IsClass(keys, cont, show, n, groups[a])
      {
        assert !SameKey(keys, groups[a].leader, last.leader);
        LeaderBound(keys, cont, show, n - 1, groups[a]);
        KeepClass(keys, cont, show, n, groups[a]);
      }
    }
    SameLeaders(keys, n - 1, groups, last');
    CoverOne(keys, n - 1, groups[z := last'], z);
  }

  lemma SameLeaders<K>(keys: seq<K>, n: nat, groups: seq<Group>, g: Group)
    requires groups != [] && g.leader == groups[|groups| - 1].leader
    requires Distinct(keys, groups) && Covers(keys, n, groups)
    ensures Distinct(keys, groups[|groups| - 1 := g]) && Covers(keys, n, groups[|groups| - 1 := g])
  {
    hide SameKey;
    var groups' := groups[|groups| - 1 := g];
    assert forall a | 0 <= a < |groups| :: groups'[a].leader == groups[a].leader;
    forall j: nat | j < n
      ensures Covered(keys, groups', j)
    {
      assert Covered(keys, groups, j);
      var a :| 0 <= a < |groups| && SameKey(keys, groups[a].leader, j);
      assert SameKey(keys, groups'[a].leader, j);
    }
  }

  lemma CoverOne<K>(keys: seq<K>, n: nat, groups: seq<Group>, a: nat)
    requires Covers(keys, n, groups)
    requires a < |groups| && SameKey(keys, groups[a].leader, n)
    ensures Covers(keys, n + 1, groups)
  {
    hide SameKey;
    forall j: nat | j < n + 1
      ensures Covered(keys, groups, j)
    {
      if j == n {
        assert SameKey(keys, groups[a].leader, j);
      }
    }
  }

  lemma LeaderBound<K>(keys: seq<K>, cont: seq<bool>, show: seq<bool>, n: nat, g: Group)
    requires n <= |keys| == |cont| == |show|
    requires IsClass(keys, cont, show, n, g)
    ensures g.leader < n && !cont[g.leader]
  {
  }

  lemma NewKey<K>(keys: seq<K>, cont: seq<bool>, n: nat, i: nat)
    requires i < n < |keys| == |cont|
    requires Contiguous(keys, cont) && !cont[n]
    ensures !SameKey(keys, i, n)
  {
  }

  lemma NewClass<K>(keys: seq<K>, cont: seq<bool>, show: seq<bool>, n: nat, groups: seq<Group>)
    requires 0 < n <= |keys| == |cont| == |show|
    requires Contiguous(keys, cont) && !cont[n - 1]
    requires AreClasses(keys, cont, show, n - 1, groups)
    ensures AreClasses(keys, cont, show, n, groups + [Group(n - 1, [])])
  {
    var g := Group(n - 1, []);
    var groups' := groups + [g];
    NewIsClass(keys, cont, show, n);
    hide IsClass, Contiguous;
    forall a | 0 <= a < |groups|
      ensures IsClass(keys, cont, show, n, groups[a])
      ensures !SameKey(keys, groups[a].leader, n - 1)
    {
      LeaderBound(keys, cont, show, n - 1, groups[a]);
      NewKey(keys, cont, n - 1, groups[a].leader);
      KeepClass(keys, cont, show, n, groups[a]);
    }
    hide SameKey;
    forall j: nat | j < n - 1
      ensures Covered(keys, groups', j)
    {
      assert Covered(keys, groups, j);
      var a :| 0 <= a < |groups| && SameKey(keys, groups[a].leader, j);
      assert groups'[a] == groups[a];
    }
    assert SameKey(keys, groups'[|groups|].leader, n - 1) by { SameKeySelf(keys, n - 1); }
    CoverOne(keys, n - 1, groups', |groups|);
  }

  lemma SameKeySelf<K>(keys: seq<K>, i: nat)
    requires i < |keys|
    ensures SameKey(keys, i, i)
  {
  }

  lemma NewIsClass<K>(keys: seq<K>, cont: seq<bool>, show: seq<bool>, n: nat)
    requires 0 < n <= |keys| == |cont| == |show| && !cont[n - 1]
    ensures IsClass(keys, cont, show, n, Group(n - 1, []))
  {
  }
}
