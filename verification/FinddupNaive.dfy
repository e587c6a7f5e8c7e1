/** The naive grouping that finddup's index must agree with, and the step from list positions to files. */
module FinddupNaive {
  import opened Prelude
  import opened FinddupFiles
  import opened FinddupRegroup
  import opened FinddupReport

  ghost function Contents(files: seq<File>): (c: seq<seq<bv8>>)
    ensures |c| == |files|
  {
    seq(|files|, k requires 0 <= k < |files| => files[k].content)
  }

  ghost function Inodes(files: seq<File>): (c: seq<(nat, nat)>)
    ensures |c| == |files|
  {
    seq(|files|, k requires 0 <= k < |files| => (files[k].device, files[k].inode))
  }

  /** The files finddup compares: those that are not empty. */
  ghost function Present(files: seq<File>): set<nat> {
    set k | 0 <= k < |files| && files[k].content != []
  }

  ghost function Listed(g: Group): seq<nat> {
    [g.leader] + g.members
  }

  /** The files with the key of k. */
  ghost predicate InClass<K>(key: seq<K>, present: set<nat>, k: nat, j: nat) {
    j in present && SameKey(key, j, k)
  }

  /** A printed group lists exactly the files that share its leader's key, each once. */
  ghost predicate ListsClass<K>(key: seq<K>, present: set<nat>, g: Group) {
    && NoRepeats(Listed(g))
    && forall j :: j in Listed(g) <==> InClass(key, present, g.leader, j)
  }

  /** Some printed group has the key of k. */
  ghost predicate IsPrinted<K>(key: seq<K>, groups: seq<Group>, k: nat) {
    exists a :: 0 <= a < |groups| && groups[a].members != [] && SameKey(key, groups[a].leader, k)
  }

  /** The groups that are printed are the classes of two or more files, each once. */
  ghost predicate NaiveGrouping<K>(key: seq<K>, present: set<nat>, groups: seq<Group>) {
    && (forall a | 0 <= a < |groups| && groups[a].members != [] :: ListsClass(key, present, groups[a]))
    && Distinct(key, groups)
    && (forall j, k | j in present && k in present && j != k && SameKey(key, j, k) :: IsPrinted(key, groups, k))
  }

  ghost predicate OneInode(files: seq<File>, j: nat, k: nat) {
    SameKey(Inodes(files), j, k)
  }

  ghost predicate HasInodeOf(files: seq<File>, s: seq<nat>, k: nat) {
    exists i :: 0 <= i < |s| && OneInode(files, s[i], k)
  }

  /** A printed group lists one name for each inode that has its leader's content. */
  ghost predicate ListsInodes(files: seq<File>, present: set<nat>, g: Group) {
    && (forall j | j in Listed(g) :: InClass(Contents(files), present, g.leader, j))
    && (forall i, j | 0 <= i < j < |Listed(g)| :: !OneInode(files, Listed(g)[i], Listed(g)[j]))
    && (forall k | InClass(Contents(files), present, g.leader, k) :: HasInodeOf(files, Listed(g), k))
  }

  /** With links hidden, the groups that are printed are the contents held by two or more inodes. */
  ghost predicate NaiveWithoutLinks(files: seq<File>, present: set<nat>, groups: seq<Group>) {
    && (forall a | 0 <= a < |groups| && groups[a].members != [] :: ListsInodes(files, present, groups[a]))
    && Distinct(Contents(files), groups)
    && (forall j, k | j in present && k in present && SameKey(Contents(files), j, k) && !OneInode(files, j, k) ::
          IsPrinted(Contents(files), groups, k))
  }

  // ---------------------------------------------------------------------------
  // From positions to files
  // ---------------------------------------------------------------------------

  /** The list holds each present file once. */
  ghost predicate Enumerates(names: seq<nat>, present: set<nat>) {
    && NoRepeats(names)
    && (forall i | 0 <= i < |names| :: names[i] in present)
    && (forall k | k in present :: k in names)
  }

  ghost function Named(names: seq<nat>, g: Group): Group {
    Group(At(names, g.leader), seq(|g.members|, i requires 0 <= i < |g.members| => At(names, g.members[i])))
  }

  ghost function AllNamed(names: seq<nat>, groups: seq<Group>): (r: seq<Group>)
    ensures |r| == |groups|
  {
    seq(|groups|, a requires 0 <= a < |groups| => Named(names, groups[a]))
  }

  /** The key of each position. */
  ghost predicate KeysOf<K>(keys: seq<K>, names: seq<nat>, key: seq<K>) {
    && |keys| == |names|
    && (forall i | 0 <= i < |names| :: names[i] < |key| && keys[i] == key[names[i]])
  }

  lemma NamedLists<K>(keys: seq<K>, cont: seq<bool>, show: seq<bool>, names: seq<nat>, g: Group)
    requires |keys| == |cont| == |show| == |names|
    requires IsClass(keys, cont, show, |keys|, g)
    requires NoRepeats(names)
    ensures NoRepeats(Listed(Named(names, g)))
    ensures forall i | 0 <= i < |Listed(g)| ::
            Listed(g)[i] < |names| && Listed(Named(names, g))[i] == names[Listed(g)[i]]
  {
    var l := Listed(g);
    forall i | 0 <= i < |l|
      ensures l[i] < |names| && (i > 0 ==> g.leader < l[i])
    {
      assert i > 0 ==> l[i] in g.members;
    }
    var m := Listed(Named(names, g));
    assert forall i | 0 <= i < |l| :: m[i] == names[l[i]];
    forall i, j | 0 <= i < j < |m|
      ensures m[i] != m[j]
    {
      assert l[i] < l[j];
    }
  }

  lemma NamedIsClass<K>(keys: seq<K>, cont: seq<bool>, show: seq<bool>, names: seq<nat>,
                        key: seq<K>, present: set<nat>, g: Group)
    requires |keys| == |cont| == |show| == |names|
    requires IsClass(keys, cont, show, |keys|, g) && Contiguous(keys, cont)
    requires Enumerates(names, present) && KeysOf(keys, names, key)
    requires forall j | 0 <= j < |show| :: show[j]
    ensures ListsClass(key, present, Named(names, g))
  {
    NamedLists(keys, cont, show, names, g);
    var l, m := Listed(g), Listed(Named(names, g));
    forall k
      ensures k in m <==> InClass(key, present, m[0], k)
    {
      if k in m {
        var i :| 0 <= i < |m| && m[i] == k;
        assert i > 0 ==> l[i] in g.members;
      }
      if InClass(key, present, m[0], k) {
        var j :| 0 <= j < |names| && names[j] == k;
        InLaterPart(keys, cont, g.leader, j);
        if j != g.leader {
          assert j in g.members;
          var i :| 0 <= i < |g.members| && g.members[i] == j;
          assert l[i + 1] == j;
        }
      }
    }
  }

  /** A position with the key of one that continues nothing comes after it. */
  lemma InLaterPart<K>(keys: seq<K>, cont: seq<bool>, leader: nat, j: nat)
    requires |keys| == |cont| && leader < |keys| && j < |keys|
    requires Contiguous(keys, cont) && !cont[leader] && keys[j] == keys[leader]
    ensures leader <= j
  {
  }

  lemma NamedDistinct<K>(keys: seq<K>, names: seq<nat>, key: seq<K>, groups: seq<Group>)
    requires KeysOf(keys, names, key) && Distinct(keys, groups)
    requires forall a | 0 <= a < |groups| :: groups[a].leader < |names|
    ensures Distinct(key, AllNamed(names, groups))
  {
    forall a, b | 0 <= a < b < |groups|
      ensures !SameKey(key, AllNamed(names, groups)[a].leader, AllNamed(names, groups)[b].leader)
    {
      assert !SameKey(keys, groups[a].leader, groups[b].leader);
    }
  }

  /** Classes of positions, all members shown, are the naive grouping of the files. */
  lemma ClassesAreNaive<K>(keys: seq<K>, cont: seq<bool>, show: seq<bool>, names: seq<nat>,
                           key: seq<K>, present: set<nat>, groups: seq<Group>)
    requires |keys| == |cont| == |show| == |names|
    requires AreClasses(keys, cont, show, |keys|, groups) && Contiguous(keys, cont)
    requires Enumerates(names, present) && KeysOf(keys, names, key)
    requires forall j | 0 <= j < |show| :: show[j]
    ensures NaiveGrouping(key, present, AllNamed(names, groups))
  {
    var named := AllNamed(names, groups);
    forall a | 0 <= a < |groups|
      ensures groups[a].leader < |names|
      ensures ListsClass(key, present, named[a])
    {
      LeaderBound(keys, cont, show, |keys|, groups[a]);
      NamedIsClass(keys, cont, show, names, key, present, groups[a]);
    }
    hide ListsClass, ListsInodes, IsClass, Enumerates, KeysOf, Contiguous, AllNamed;
    NamedDistinct(keys, names, key, groups);
    forall j, k | j in present && k in present && j != k && SameKey(key, j, k)
      ensures IsPrinted(key, named, k)
    {
      var a := GroupOf(keys, cont, show, names, key, present, groups, k);
      PairHasMember(key, present, named[a], j, k);
    }
  }

  lemma GroupOf<K>(keys: seq<K>, cont: seq<bool>, show: seq<bool>, names: seq<nat>,
                   key: seq<K>, present: set<nat>, groups: seq<Group>, k: nat)
    returns (a: nat)
    requires |keys| == |cont| == |show| == |names|
    requires Covers(keys, |keys|, groups)
    requires Enumerates(names, present) && KeysOf(keys, names, key)
    requires k in present
    ensures a < |groups| && SameKey(key, AllNamed(names, groups)[a].leader, k)
  {
    var y :| 0 <= y < |names| && names[y] == k;
    assert Covered(keys, groups, y);
    a :| 0 <= a < |groups| && SameKey(keys, groups[a].leader, y);
  }

  lemma PairHasMember<K>(key: seq<K>, present: set<nat>, g: Group, j: nat, k: nat)
    requires ListsClass(key, present, g)
    requires j in present && k in present && j != k && SameKey(key, j, k) && SameKey(key, g.leader, k)
    ensures g.members != []
  {
    assert InClass(key, present, g.leader, j) && InClass(key, present, g.leader, k);
    assert j in Listed(g) && k in Listed(g);
  }

  // ---------------------------------------------------------------------------
  // Links
  // ---------------------------------------------------------------------------

  /** Of the names of each inode, exactly one is not marked as a link. */
  ghost predicate OneUnlinked(files: seq<File>, present: set<nat>, links: set<nat>) {
    && (forall j, k | j in present && k in present && j != k && j !in links && k !in links :: !OneInode(files, j, k))
    && (forall k | k in present :: exists r :: r in present && r !in links && OneInode(files, r, k))
  }

  lemma OneInodeOneContent(files: seq<File>, j: nat, k: nat)
    requires Consistent(files) && OneInode(files, j, k)
    ensures SameKey(Contents(files), j, k)
  {
    assert Inodes(files)[j] == Inodes(files)[k];
  }

  lemma UnlinkedInodesDiffer(files: seq<File>, present: set<nat>, links: set<nat>, s: seq<nat>)
    requires OneUnlinked(files, present, links)
    requires NoRepeats(s) && forall i | 0 <= i < |s| :: s[i] in present && s[i] !in links
    ensures forall i, j | 0 <= i < j < |s| :: !OneInode(files, s[i], s[j])
  {
    hide OneInode;
  }

  lemma RepresentativeListed(keys: seq<seq<bv8>>, cont: seq<bool>, show: seq<bool>, names: seq<nat>,
                             files: seq<File>, present: set<nat>, links: set<nat>, g: Group, k: nat)
    requires |keys| == |cont| == |show| == |names|
    requires IsClass(keys, cont, show, |keys|, g) && Contiguous(keys, cont)
    requires Enumerates(names, present) && KeysOf(keys, names, Contents(files))
    requires Consistent(files) && OneUnlinked(files, present, links)
    requires forall j | 0 <= j < |show| :: show[j] <==> names[j] !in links
    requires InClass(Contents(files), present, At(names, g.leader), k)
    ensures HasInodeOf(files, Listed(Named(names, g)), k)
  {
    NamedLists(keys, cont, show, names, g);
    var l, m := Listed(g), Listed(Named(names, g));
    var r :| r in present && r !in links && OneInode(files, r, k);
    OneInodeOneContent(files, r, k);
    var j :| 0 <= j < |names| && names[j] == r;
    hide OneInode, Contents;
    InLaterPart(keys, cont, g.leader, j);
    if j == g.leader {
      assert OneInode(files, m[0], k);
    } else {
      assert j in g.members;
      var i :| 0 <= i < |g.members| && g.members[i] == j;
      assert l[i + 1] == j;
      assert OneInode(files, m[i + 1], k);
    }
  }

  lemma NamedIsInodes(keys: seq<seq<bv8>>, cont: seq<bool>, show: seq<bool>, names: seq<nat>,
                      files: seq<File>, present: set<nat>, links: set<nat>, g: Group)
    requires |keys| == |cont| == |show| == |names|
    requires IsClass(keys, cont, show, |keys|, g) && Contiguous(keys, cont)
    requires Enumerates(names, present) && KeysOf(keys, names, Contents(files))
    requires Consistent(files) && OneUnlinked(files, present, links)
    requires forall j | 0 <= j < |show| :: show[j] <==> names[j] !in links
    requires show[g.leader]
    ensures ListsInodes(files, present, Named(names, g))
  {
    NamedLists(keys, cont, show, names, g);
    var key := Contents(files);
    var l, m := Listed(g), Listed(Named(names, g));
    hide OneInode, Contents, Contiguous, Consistent, OneUnlinked;
    forall i | 0 <= i < |m|
      ensures m[i] in present && m[i] !in links && SameKey(key, m[i], m[0])
    {
      assert i > 0 ==> l[i] in g.members;
    }
    UnlinkedInodesDiffer(files, present, links, m);
    forall k | InClass(key, present, m[0], k)
      ensures HasInodeOf(files, m, k)
    {
      RepresentativeListed(keys, cont, show, names, files, present, links, g, k);
    }
  }

  /** Classes of positions, links not shown, are the naive grouping of the inodes. */
  lemma ClassesAreNaiveWithoutLinks(keys: seq<seq<bv8>>, cont: seq<bool>, show: seq<bool>, names: seq<nat>,
                                    files: seq<File>, present: set<nat>, links: set<nat>, groups: seq<Group>)
    requires |keys| == |cont| == |show| == |names|
    requires AreClasses(keys, cont, show, |keys|, groups) && Contiguous(keys, cont)
    requires Enumerates(names, present) && KeysOf(keys, names, Contents(files))
    requires Consistent(files) && OneUnlinked(files, present, links)
    requires forall j | 0 <= j < |show| :: show[j] <==> names[j] !in links
    requires forall j | 0 <= j < |show| && !cont[j] :: show[j]
    ensures NaiveWithoutLinks(files, present, AllNamed(names, groups))
  {
    var named := AllNamed(names, groups);
    var key := Contents(files);
    forall a | 0 <= a < |groups|
      ensures groups[a].leader < |names|
      ensures ListsInodes(files, present, named[a])
    {
      LeaderBound(keys, cont, show, |keys|, groups[a]);
      NamedIsInodes(keys, cont, show, names, files, present, links, groups[a]);
    }
    hide ListsClass, ListsInodes, IsClass, Enumerates, KeysOf, Contiguous, AllNamed;
    NamedDistinct(keys, names, key, groups);
    forall j, k | j in present && k in present && SameKey(key, j, k) && !OneInode(files, j, k)
      ensures IsPrinted(key, named, k)
    {
      var a := GroupOf(keys, cont, show, names, key, present, groups, k);
      PairOfInodesHasMember(files, present, named[a], j, k);
    }
  }

  lemma PairOfInodesHasMember(files: seq<File>, present: set<nat>, g: Group, j: nat, k: nat)
    requires ListsInodes(files, present, g)
    requires j in present && k in present && SameKey(Contents(files), j, k) && !OneInode(files, j, k)
    requires SameKey(Contents(files), g.leader, k)
    ensures g.members != []
  {
    assert InClass(Contents(files), present, g.leader, j) && InClass(Contents(files), present, g.leader, k);
    assert HasInodeOf(files, Listed(g), j) && HasInodeOf(files, Listed(g), k);
    var i :| 0 <= i < |Listed(g)| && OneInode(files, Listed(g)[i], j);
    var i' :| 0 <= i' < |Listed(g)| && OneInode(files, Listed(g)[i'], k);
    assert i != i';
  }
}
