/** From the list that the stages leave to the naive grouping that the report must show. */
module FinddupTheorems {
  import opened Prelude
  import opened FinddupFiles
  import opened FinddupSort
  import opened FinddupRegroup
  import opened FinddupReport
  import opened FinddupNaive
  import opened FinddupStages

  // ---------------------------------------------------------------------------
  // After link marking
  // ---------------------------------------------------------------------------

  ghost function LinkNames(t: seq<Entry>): set<nat> {
    set j | 0 <= j < |t| && t[j].flags.lnk :: t[j].nameloc
  }

  lemma DescribedFields(files: seq<File>, shared: set<nat>, links: set<nat>, e: Entry)
    requires Described(files, shared, links, e)
    ensures e.nameloc < |files|
    ensures var f := files[e.nameloc];
            && Content(files, e) == f.content
            && e.length == |f.content| && e.device == f.device && e.inode == f.inode
            && e.flags.crc == (|f.content| in shared) && e.flags.lnk == (e.nameloc in links)
            && e.crc32 == if |f.content| in shared then FileCrc(f.content) else 0
  {
    hide FileCrc;
    var d := ClearDup(e);
    assert d.length == e.length && d.device == e.device && d.inode == e.inode && d.crc32 == e.crc32;
    assert d.flags.crc == e.flags.crc && d.flags.lnk == e.flags.lnk;
  }

  lemma MarkedNames(s: seq<Entry>, t: seq<Entry>)
    requires MarkedUpTo(s, t, |s|)
    ensures Names(t) == Names(s)
    ensures forall j: nat | j < |t| :: t[j] == MarkLink(s, j)
  {
  }

  lemma MarkedDescribedAt(files: seq<File>, shared: set<nat>, s: seq<Entry>, t: seq<Entry>, j: nat)
    requires MarkedUpTo(s, t, |s|) && j < |t| == |s|
    requires Described(files, shared, {}, s[j]) && !s[j].flags.dup && NoRepeats(Names(s))
    ensures Described(files, shared, LinkNames(t), t[j]) && !t[j].flags.dup
    ensures t[j].flags.lnk <==> FollowsInode(s, j)
  {
    MarkedNames(s, t);
    DescribedFields(files, shared, {}, s[j]);
    hide MarkedUpTo, FileCrc, FollowsInode;
    assert t[j].flags.lnk <==> FollowsInode(s, j);
    if t[j].nameloc in LinkNames(t) {
      var i :| 0 <= i < |t| && t[i].flags.lnk && t[i].nameloc == t[j].nameloc;
      assert Names(t)[i] == Names(t)[j];
    }
  }

  lemma MarkedDescribed(files: seq<File>, shared: set<nat>, s: seq<Entry>, t: seq<Entry>)
    requires AllDescribed(files, shared, {}, s) && NoDup(s) && Arranged(s)
    requires MarkedUpTo(s, t, |s|) && NoRepeats(Names(s))
    ensures AllDescribed(files, shared, LinkNames(t), t) && NoDup(t) && Arranged(t) && LinksMarked(t)
    ensures Names(t) == Names(s)
  {
    MarkedNames(s, t);
    MarkedArranged(s, t);
    hide MarkedUpTo, Described, NoRepeats, LinkNames, MarkLink, Arranged, FollowsInode;
    forall j: nat | j < |t|
      ensures Described(files, shared, LinkNames(t), t[j]) && !t[j].flags.dup
      ensures t[j].flags.lnk <==> FollowsInode(t, j)
    {
      MarkedDescribedAt(files, shared, s, t, j);
      MarkedFollows(s, t, j);
    }
    forall i, j | 0 <= i < j < |t|
      ensures t[i].nameloc != t[j].nameloc
    {
      assert Names(t)[i] == Names(s)[i] && Names(t)[j] == Names(s)[j];
    }
  }

  lemma MarkedArranged(s: seq<Entry>, t: seq<Entry>)
    requires Arranged(s) && MarkedUpTo(s, t, |s|)
    ensures Arranged(t)
  {
    MarkedNames(s, t);
    forall i, k, j | 0 <= i < k < j < |t|
      ensures KeepsKey(t[i], t[k], t[j])
    {
      assert KeepsKey(s[i], s[k], s[j]);
      assert t[i] == MarkLink(s, i) && t[k] == MarkLink(s, k) && t[j] == MarkLink(s, j);
    }
  }

  lemma MarkedFollows(s: seq<Entry>, t: seq<Entry>, j: nat)
    requires MarkedUpTo(s, t, |s|) && j < |t| == |s|
    ensures FollowsInode(t, j) <==> FollowsInode(s, j)
  {
    MarkedNames(s, t);
    assert t[j] == MarkLink(s, j);
    assert j > 0 ==> t[j - 1] == MarkLink(s, j - 1);
  }

  /** In an arranged list the names of one inode are contiguous. */
  lemma InodeContiguous(files: seq<File>, shared: set<nat>, links: set<nat>, s: seq<Entry>, i: nat, j: nat)
    requires Consistent(files) && AllDescribed(files, shared, links, s) && Arranged(s)
    requires i < j < |s| && SameInode(s[i], s[j])
    ensures FollowsInode(s, j)
  {
    DescribedFields(files, shared, links, s[i]);
    DescribedFields(files, shared, links, s[j]);
    assert i < j - 1 ==> KeepsKey(s[i], s[j - 1], s[j]);
  }

  ghost function InodeKeys(s: seq<Entry>): (k: seq<(nat, nat)>)
    ensures |k| == |s|
  {
    seq(|s|, j requires 0 <= j < |s| => (s[j].device, s[j].inode))
  }

  lemma LinksContiguous(files: seq<File>, shared: set<nat>, links: set<nat>, s: seq<Entry>)
    requires Consistent(files) && AllDescribed(files, shared, links, s) && Arranged(s)
    ensures Contiguous(InodeKeys(s), InodeConts(s))
  {
    forall i, j | 0 <= i < j < |s| && InodeKeys(s)[i] == InodeKeys(s)[j]
      ensures InodeConts(s)[j]
    {
      InodeContiguous(files, shared, links, s, i, j);
    }
    forall j | 0 <= j < |s| && InodeConts(s)[j]
      ensures j > 0 && InodeKeys(s)[j - 1] == InodeKeys(s)[j]
    {
      assert FollowsInode(s, j);
    }
  }

  lemma InodeKeysOf(files: seq<File>, shared: set<nat>, links: set<nat>, s: seq<Entry>)
    requires AllDescribed(files, shared, links, s)
    ensures KeysOf(InodeKeys(s), Names(s), Inodes(files))
  {
    forall j | 0 <= j < |s|
      ensures s[j].nameloc < |files| && InodeKeys(s)[j] == Inodes(files)[s[j].nameloc]
    {
      DescribedFields(files, shared, links, s[j]);
    }
  }

  /** The hard link summary shows the naive grouping by inode. */
  lemma LinkSummaryIsNaive(files: seq<File>, shared: set<nat>, links: set<nat>, s: seq<Entry>)
    requires Consistent(files) && AllDescribed(files, shared, links, s) && Arranged(s)
    requires Enumerates(Names(s), Present(files))
    ensures NaiveGrouping(Inodes(files), Present(files), AllNamed(Names(s), LinkGroups(s, |s|)))
  {
    hide AllDescribed, Arranged, Enumerates, Consistent, Contiguous, KeysOf, AreClasses, Names, InodeKeys, InodeConts;
    hide Groups;
    LinksContiguous(files, shared, links, s);
    InodeKeysOf(files, shared, links, s);
    GroupsAreClasses(InodeKeys(s), InodeConts(s), All(|s|), |s|);
    ClassesAreNaive(InodeKeys(s), InodeConts(s), All(|s|), Names(s), Inodes(files), Present(files), LinkGroups(s, |s|));
  }

  /** Walking back from a link one comes to an entry of its inode that is not a link. */
  lemma {:induction false} Representative(s: seq<Entry>, j: nat) returns (r: nat)
    requires LinksMarked(s) && j < |s|
    ensures r <= j && !s[r].flags.lnk && SameInode(s[r], s[j])
  {
    assert s[j].flags.lnk <==> FollowsInode(s, j);
    if s[j].flags.lnk {
      r := Representative(s, j - 1);
    } else {
      r := j;
    }
  }

  lemma UnlinkedOnce(files: seq<File>, shared: set<nat>, links: set<nat>, s: seq<Entry>, i: nat, j: nat)
    requires Consistent(files) && AllDescribed(files, shared, links, s) && Arranged(s) && LinksMarked(s)
    requires i < j < |s| && s[i].nameloc !in links && s[j].nameloc !in links
    ensures !OneInode(files, s[i].nameloc, s[j].nameloc)
  {
    DescribedFields(files, shared, links, s[i]);
    DescribedFields(files, shared, links, s[j]);
    assert s[j].flags.lnk <==> FollowsInode(s, j);
    if OneInode(files, s[i].nameloc, s[j].nameloc) {
      InodeContiguous(files, shared, links, s, i, j);
    }
  }

  lemma UnlinkedExists(files: seq<File>, shared: set<nat>, links: set<nat>, s: seq<Entry>, present: set<nat>, k: nat)
    requires AllDescribed(files, shared, links, s) && LinksMarked(s)
    requires Enumerates(Names(s), present) && k in present
    ensures exists r :: r in present && r !in links && OneInode(files, r, k)
  {
    var j :| 0 <= j < |s| && Names(s)[j] == k;
    var i := Representative(s, j);
    DescribedFields(files, shared, links, s[i]);
    DescribedFields(files, shared, links, s[j]);
    var r := Names(s)[i];
    assert r in present && r !in links && OneInode(files, r, k);
  }

  lemma MarkedOneUnlinked(files: seq<File>, shared: set<nat>, links: set<nat>, s: seq<Entry>, present: set<nat>)
    requires Consistent(files) && AllDescribed(files, shared, links, s) && Arranged(s) && LinksMarked(s)
    requires Enumerates(Names(s), present)
    ensures OneUnlinked(files, present, links)
  {
    hide AllDescribed, Arranged, Consistent, LinksMarked, OneInode;
    forall j, k | j in present && k in present && j != k && j !in links && k !in links
      ensures !OneInode(files, j, k)
    {
      var x :| 0 <= x < |s| && Names(s)[x] == j;
      var y :| 0 <= y < |s| && Names(s)[y] == k;
      if x < y {
        UnlinkedOnce(files, shared, links, s, x, y);
      } else {
        UnlinkedOnce(files, shared, links, s, y, x);
        OneInodeSymmetric(files, j, k);
      }
    }
    forall k | k in present
      ensures exists r :: r in present && r !in links && OneInode(files, r, k)
    {
      UnlinkedExists(files, shared, links, s, present, k);
    }
  }

  lemma OneInodeSymmetric(files: seq<File>, j: nat, k: nat)
    ensures OneInode(files, j, k) <==> OneInode(files, k, j)
  {
  }

  // ---------------------------------------------------------------------------
  // After regrouping
  // ---------------------------------------------------------------------------

  ghost function ContentKeys(files: seq<File>, s: seq<Entry>): (k: seq<seq<bv8>>)
    ensures |k| == |s|
  {
    seq(|s|, j requires 0 <= j < |s| => Content(files, s[j]))
  }

  lemma DupsContiguous(files: seq<File>, s: seq<Entry>)
    requires GroupedUpTo(files, s, |s|)
    ensures Contiguous(ContentKeys(files, s), DupConts(s))
  {
    hide Content;
    forall i, j | 0 <= i < j < |s| && ContentKeys(files, s)[i] == ContentKeys(files, s)[j]
      ensures DupConts(s)[j]
    {
      assert FollowsEqual(files, s, j);
    }
    forall j | 0 <= j < |s| && DupConts(s)[j]
      ensures j > 0 && ContentKeys(files, s)[j - 1] == ContentKeys(files, s)[j]
    {
      assert FollowsEqual(files, s, j);
    }
  }

  lemma ContentKeysOf(files: seq<File>, shared: set<nat>, links: set<nat>, s: seq<Entry>)
    requires AllDescribed(files, shared, links, s)
    ensures KeysOf(ContentKeys(files, s), Names(s), Contents(files))
  {
    forall j | 0 <= j < |s|
      ensures s[j].nameloc < |files| && ContentKeys(files, s)[j] == Contents(files)[s[j].nameloc]
    {
      DescribedFields(files, shared, links, s[j]);
    }
  }

  /** With links shown, the report shows the naive grouping by content. */
  lemma DuplicatesAreNaive(files: seq<File>, shared: set<nat>, links: set<nat>, s: seq<Entry>)
    requires AllDescribed(files, shared, links, s) && GroupedUpTo(files, s, |s|)
    requires Enumerates(Names(s), Present(files))
    ensures NaiveGrouping(Contents(files), Present(files), AllNamed(Names(s), DupGroups(s, true, |s|)))
  {
    assert forall j | 0 <= j < |s| :: Shows(s, true)[j];
    hide AllDescribed, GroupedUpTo, Enumerates, Contiguous, KeysOf, AreClasses, Names, ContentKeys, DupConts, Shows;
    hide Groups;
    DupsContiguous(files, s);
    ContentKeysOf(files, shared, links, s);
    GroupsAreClasses(ContentKeys(files, s), DupConts(s), Shows(s, true), |s|);
    ClassesAreNaive(ContentKeys(files, s), DupConts(s), Shows(s, true), Names(s),
                    Contents(files), Present(files), DupGroups(s, true, |s|));
  }

  lemma UnlinkedShown(files: seq<File>, shared: set<nat>, links: set<nat>, s: seq<Entry>)
    requires AllDescribed(files, shared, links, s) && GroupedUpTo(files, s, |s|)
    ensures forall j | 0 <= j < |s| :: Shows(s, false)[j] <==> Names(s)[j] !in links
    ensures forall j | 0 <= j < |s| && !DupConts(s)[j] :: Shows(s, false)[j]
  {
    hide Content;
    forall j | 0 <= j < |s|
      ensures s[j].flags.lnk == (s[j].nameloc in links)
    {
      DescribedFields(files, shared, links, s[j]);
    }
  }

  /** With links hidden, it shows one name for each inode of every content held by several inodes. */
  lemma DuplicatesAreNaiveWithoutLinks(files: seq<File>, shared: set<nat>, links: set<nat>, s: seq<Entry>)
    requires Consistent(files) && OneUnlinked(files, Present(files), links)
    requires AllDescribed(files, shared, links, s) && GroupedUpTo(files, s, |s|)
    requires Enumerates(Names(s), Present(files))
    ensures NaiveWithoutLinks(files, Present(files), AllNamed(Names(s), DupGroups(s, false, |s|)))
  {
    UnlinkedShown(files, shared, links, s);
    hide AllDescribed, GroupedUpTo, Enumerates, Contiguous, KeysOf, AreClasses, Names, ContentKeys, DupConts, Shows;
    hide Groups;
    hide Consistent, OneUnlinked;
    DupsContiguous(files, s);
    ContentKeysOf(files, shared, links, s);
    GroupsAreClasses(ContentKeys(files, s), DupConts(s), Shows(s, false), |s|);
    ClassesAreNaiveWithoutLinks(ContentKeys(files, s), DupConts(s), Shows(s, false), Names(s),
                                files, Present(files), links, DupGroups(s, false, |s|));
  }

  // ---------------------------------------------------------------------------
  // Leaders have no flag but FL_CRC
  // ---------------------------------------------------------------------------

  /** Every length held by two present files is among the shared ones. */
  ghost predicate SharedComplete(files: seq<File>, present: set<nat>, shared: set<nat>) {
    forall j, k | j in present && k in present && j != k && j < |files| && k < |files|
                  && |files[j].content| == |files[k].content| :: |files[j].content| in shared
  }

  lemma LengthShared(s: seq<Entry>, i: nat, j: nat)
    requires LengthsTogether(s) && i < j < |s| && s[i].length == s[j].length
    ensures s[i].length in SharedLengths(s)
  {
    assert i + 1 < j ==> KeepsLength(s[i], s[i + 1], s[j]);
    assert NextSame(s, i);
  }

  lemma LengthsComplete(files: seq<File>, s: seq<Entry>, present: set<nat>)
    requires LengthsTogether(s) && AllDescribed(files, {}, {}, s) && Enumerates(Names(s), present)
    ensures SharedComplete(files, present, SharedLengths(s))
  {
    forall j, k | j in present && k in present && j != k && j < |files| && k < |files|
                  && |files[j].content| == |files[k].content|
      ensures |files[j].content| in SharedLengths(s)
    {
      var x :| 0 <= x < |s| && Names(s)[x] == j;
      var y :| 0 <= y < |s| && Names(s)[y] == k;
      DescribedFields(files, {}, {}, s[x]);
      DescribedFields(files, {}, {}, s[y]);
      hide AllDescribed, LengthsTogether, SharedLengths, Enumerates;
      if x < y {
        LengthShared(s, x, y);
      } else {
        LengthShared(s, y, x);
      }
    }
  }

  lemma LeaderPlain(files: seq<File>, shared: set<nat>, links: set<nat>, s: seq<Entry>, j: nat)
    requires 0 < j < |s| && Described(files, shared, links, s[j - 1]) && Described(files, shared, links, s[j])
    requires Content(files, s[j - 1]) == Content(files, s[j])
    requires Enumerates(Names(s), Present(files)) && SharedComplete(files, Present(files), shared)
    ensures s[j - 1].flags.crc
  {
    DescribedFields(files, shared, links, s[j - 1]);
    DescribedFields(files, shared, links, s[j]);
    hide Described, Present, FileCrc;
    var a, b := Names(s)[j - 1], Names(s)[j];
    assert a != b && a in Present(files) && b in Present(files);
  }

  lemma GroupedLeadersPlain(files: seq<File>, shared: set<nat>, links: set<nat>, s: seq<Entry>)
    requires AllDescribed(files, shared, links, s) && GroupedUpTo(files, s, |s|)
    requires Enumerates(Names(s), Present(files)) && SharedComplete(files, Present(files), shared)
    ensures LeadersPlain(s)
  {
    hide Described, Content, Enumerates, SharedComplete, Names, Present;
    forall j: nat | j < |s| && s[j].flags.dup
      ensures j > 0 && (!s[j - 1].flags.dup ==> s[j - 1].flags == Flags(true, false, false))
    {
      assert FollowsEqual(files, s, j);
      LeaderPlain(files, shared, links, s, j);
    }
  }

  // ---------------------------------------------------------------------------
  // A report in terms of files
  // ---------------------------------------------------------------------------

  ghost function Ids(n: nat): (s: seq<nat>)
    ensures |s| == n
  {
    seq(n, k requires 0 <= k < n => k)
  }

  lemma {:induction false} GroupLinesNamed(style: Style, names: seq<nat>, g: Group, n: nat)
    requires forall i | 0 <= i < |names| :: names[i] < n
    requires g.leader < |names| && forall i | 0 <= i < |g.members| :: g.members[i] < |names|
    ensures GroupLines(style, names, g) == GroupLines(style, Ids(n), Named(names, g))
    decreases |g.members|
  {
    if g.members != [] {
      var g' := g.(members := g.members[..|g.members| - 1]);
      GroupLinesNamed(style, names, g', n);
      assert Named(names, g') == Named(names, g).(members := Named(names, g).members[..|g.members| - 1]);
    }
  }

  lemma {:induction false} ReportNamed(style: Style, names: seq<nat>, groups: seq<Group>, n: nat)
    requires forall i | 0 <= i < |names| :: names[i] < n
    requires forall a | 0 <= a < |groups| :: groups[a].leader < |names| &&
               forall i | 0 <= i < |groups[a].members| :: groups[a].members[i] < |names|
    ensures Lines(style, names, groups) == Lines(style, Ids(n), AllNamed(names, groups))
    ensures Report(style, names, groups) == Report(style, Ids(n), AllNamed(names, groups))
  {
    hide GroupLines, Named;
    if groups != [] {
      var front := groups[..|groups| - 1];
      GroupLinesNamed(style, names, groups[|groups| - 1], n);
      ReportNamed(style, names, front, n);
      assert AllNamed(names, groups)[..|groups| - 1] == AllNamed(names, front);
    }
  }

  lemma {:induction false} GroupsInRange(cont: seq<bool>, show: seq<bool>, n: nat)
    requires n <= |cont| == |show|
    ensures forall a | 0 <= a < |Groups(cont, show, n)| ::
              Groups(cont, show, n)[a].leader < n &&
              forall i | 0 <= i < |Groups(cont, show, n)[a].members| :: Groups(cont, show, n)[a].members[i] < n
  {
    if n > 0 {
      GroupsInRange(cont, show, n - 1);
    }
  }

  lemma LinkReportNamed(files: seq<File>, s: seq<Entry>)
    requires Enumerates(Names(s), Present(files))
    ensures Report(LinkStyle, Names(s), LinkGroups(s, |s|))
         == Report(LinkStyle, Ids(|files|), AllNamed(Names(s), LinkGroups(s, |s|)))
  {
    hide Report, AllNamed, InodeConts, Groups;
    GroupsInRange(InodeConts(s), All(|s|), |s|);
    ReportNamed(LinkStyle, Names(s), LinkGroups(s, |s|), |files|);
  }

  lemma DupReportNamed(files: seq<File>, s: seq<Entry>, linkflag: bool)
    requires Enumerates(Names(s), Present(files))
    ensures Report(DupStyle, Names(s), DupGroups(s, linkflag, |s|))
         == Report(DupStyle, Ids(|files|), AllNamed(Names(s), DupGroups(s, linkflag, |s|)))
  {
    hide Report, AllNamed, DupConts, Shows, Groups;
    GroupsInRange(DupConts(s), Shows(s, linkflag), |s|);
    ReportNamed(DupStyle, Names(s), DupGroups(s, linkflag, |s|), |files|);
  }

  /** The duplicate report shows the naive grouping, by content or, with links hidden, by content and inode. */
  ghost predicate ShowsNaive(files: seq<File>, linkflag: bool, dups: seq<Group>) {
    if linkflag then NaiveGrouping(Contents(files), Present(files), dups)
    else NaiveWithoutLinks(files, Present(files), dups)
  }

  /** The list is s before link marking and t after; what is printed for it, and what regrouping may rely on. */
  lemma MarkingEstablishes(files: seq<File>, shared: set<nat>, s: seq<Entry>, t: seq<Entry>)
    requires Consistent(files) && AllDescribed(files, shared, {}, s) && NoDup(s) && Arranged(s)
    requires Enumerates(Names(s), Present(files))
    requires MarkedUpTo(s, t, |s|)
    ensures AllDescribed(files, shared, LinkNames(t), t) && NoDup(t) && Arranged(t) && LinksMarked(t)
    ensures Names(t) == Names(s)
    ensures OneUnlinked(files, Present(files), LinkNames(t))
    ensures var links := AllNamed(Names(s), LinkGroups(s, |s|));
            && NaiveGrouping(Inodes(files), Present(files), links)
            && Report(LinkStyle, Names(s), LinkGroups(s, |s|)) == Report(LinkStyle, Ids(|files|), links)
  {
    hide Consistent, AllDescribed, NoDup, Arranged, MarkedUpTo, LinksMarked, OneUnlinked, NaiveGrouping, AllNamed;
    hide Names, Present, LinkNames, LinkGroups, Report;
    MarkedDescribed(files, shared, s, t);
    MarkedOneUnlinked(files, shared, LinkNames(t), t, Present(files));
    LinkSummaryIsNaive(files, shared, {}, s);
    LinkReportNamed(files, s);
  }

  /** After regrouping, the list prints as the naive grouping. */
  lemma RegroupingEstablishes(files: seq<File>, shared: set<nat>, links: set<nat>, t: seq<Entry>, linkflag: bool)
    requires Consistent(files) && Comparable(files, shared)
    requires AllDescribed(files, shared, links, t) && NoDup(t) && Arranged(t) && LinksMarked(t)
    requires OneUnlinked(files, Present(files), links) && SharedComplete(files, Present(files), shared)
    requires Enumerates(Names(t), Present(files))
    ensures var u := Outer(files, t, 0);
            var dups := AllNamed(Names(u), DupGroups(u, linkflag, |u|));
            && LeadersPlain(u)
            && ShowsNaive(files, linkflag, dups)
            && Report(DupStyle, Names(u), DupGroups(u, linkflag, |u|)) == Report(DupStyle, Ids(|files|), dups)
  {
    var u := Outer(files, t, 0);
    assert forall j | 0 <= j < |t| :: !t[j].flags.dup;
    hide Consistent, Comparable, AllDescribed, NoDup, Arranged, LinksMarked, OneUnlinked, SharedComplete, GroupedUpTo;
    hide LeadersPlain;
    hide NaiveGrouping, NaiveWithoutLinks, AllNamed, Names, Present, DupGroups, Report, Outer;
    RegroupGroups(files, shared, links, t);
    SameNamesEnumerate(t, u, Present(files));
    GroupedLeadersPlain(files, shared, links, u);
    DupReportNamed(files, u, linkflag);
    if linkflag {
      DuplicatesAreNaive(files, shared, links, u);
    } else {
      DuplicatesAreNaiveWithoutLinks(files, shared, links, u);
    }
  }

  // ---------------------------------------------------------------------------
  // What the files must be like
  // ---------------------------------------------------------------------------

  ghost predicate HasTwin(files: seq<File>, j: nat)
    requires j < |files|
  {
    exists k: nat :: k < |files| && k != j && k in Present(files) && |files[k].content| == |files[j].content|
  }

  /** The lengths of two or more non-empty files. */
  ghost function SharedOf(files: seq<File>): set<nat> {
    set j: nat | j < |files| && j in Present(files) && HasTwin(files, j) :: |files[j].content|
  }

  /** The entries that are sorted: those of the non-empty files, with a checksum if the length is shared. */
  ghost function Listing(files: seq<File>, shared: set<nat>, n: nat): seq<Entry>
    requires n <= |files|
  {
    if n == 0 then []
    else if files[n - 1].content == [] then Listing(files, shared, n - 1)
    else Listing(files, shared, n - 1) + [Descriptor(files, shared, {}, n - 1)]
  }

  lemma {:induction false} InListing(files: seq<File>, shared: set<nat>, n: nat, k: nat)
    requires k < n <= |files| && files[k].content != []
    ensures Descriptor(files, shared, {}, k) in Listing(files, shared, n)
  {
    hide Descriptor;
    if k < n - 1 {
      InListing(files, shared, n - 1, k);
    }
  }

  /**
   * comp1 is a total ordering of the list each time it is sorted, which is all that qsort asks for, and mixes
   * neither lengths in the first sort nor keys in the second.
   */
  ghost predicate Sortable(files: seq<File>) {
    var plain, summed := Listing(files, {}, |files|), Listing(files, SharedOf(files), |files|);
    Ordering(plain) && UnmixedLengths(plain) && Ordering(summed) && Unmixed(summed)
  }

  /** Lengths, devices and inodes are below 2^32. */
  ghost predicate AllSmall(files: seq<File>) {
    forall k | 0 <= k < |files| ::
      |files[k].content| < UINT_LIMIT && files[k].device < UINT_LIMIT && files[k].inode < UINT_LIMIT
  }

  lemma CrcBelow(s: seq<bv8>)
    ensures FileCrc(s) < UINT_LIMIT
  {
  }

  lemma {:induction false} SmallListing(files: seq<File>, shared: set<nat>, n: nat)
    requires AllSmall(files) && n <= |files|
    ensures forall e | e in Listing(files, shared, n) ::
              e.length < UINT_LIMIT && e.crc32 < UINT_LIMIT && e.device < UINT_LIMIT && e.inode < UINT_LIMIT
  {
    if n > 0 {
      SmallListing(files, shared, n - 1);
      hide FileCrc;
      assert FileCrc(files[n - 1].content) < UINT_LIMIT by {
        CrcBelow(files[n - 1].content);
      }
    }
  }

  /** If all are below 2^32, comp1 must be a total ordering of the entries, and no more is asked. */
  lemma SortableIff(files: seq<File>)
    requires AllSmall(files)
    ensures Sortable(files) <==>
            Ordering(Listing(files, {}, |files|)) && Ordering(Listing(files, SharedOf(files), |files|))
  {
    hide Ordering, UnmixedLengths, Unmixed, Listing, SharedOf;
    SmallListing(files, {}, |files|);
    SmallListing(files, SharedOf(files), |files|);
    if Ordering(Listing(files, {}, |files|)) {
      OrderingSuffices(Listing(files, {}, |files|));
    }
    if Ordering(Listing(files, SharedOf(files), |files|)) {
      OrderingSuffices(Listing(files, SharedOf(files), |files|));
    }
  }

  /** Any two non-empty files of one length and one checksum are such that fullcmp is right about them. */
  ghost predicate Decides(files: seq<File>) {
    forall j: nat, k: nat | j < |files| && k < |files| && j in Present(files) && k in Present(files) && j != k
                            && |files[j].content| == |files[k].content|
                            && FileCrc(files[j].content) == FileCrc(files[k].content) ::
      Decidable(files[j].content, files[k].content)
  }

  lemma DecidesComparable(files: seq<File>, shared: set<nat>)
    requires Decides(files) && SharedComplete(files, Present(files), shared)
    ensures Comparable(files, shared)
  {
    hide FileCrc, FullCmp, Decidable;
    forall j: nat, k: nat | j < |files| && k < |files| && j != k && MayMeet(files, shared, j, k)
      ensures FullCmp(files[j].content, files[k].content) == 0 <==> files[j].content == files[k].content
    {
      FullCmpRightIff(files[j].content, files[k].content);
      if files[j].content != [] {
        assert j in Present(files) && k in Present(files);
      } else {
        FullCmpOfSevenBit([], files[k].content);
      }
    }
  }

  /** Files of 7-bit bytes qualify. */
  lemma SevenBitDecides(files: seq<File>)
    requires forall k | 0 <= k < |files| :: SevenBit(files[k].content)
    ensures Decides(files)
  {
    hide FileCrc, SevenBit, Decidable;
    forall j: nat, k: nat | j < |files| && k < |files| && |files[j].content| == |files[k].content|
      ensures Decidable(files[j].content, files[k].content)
    {
      SevenBitDecidable(files[j].content, files[k].content);
    }
  }

  // ---------------------------------------------------------------------------
  // The two sorts
  // ---------------------------------------------------------------------------

  lemma AllListed(files: seq<File>, shared: set<nat>, s: seq<Entry>)
    requires AllDescribed(files, shared, {}, s) && NoDup(s) && Enumerates(Names(s), Present(files))
    ensures forall e | e in s :: e in Listing(files, shared, |files|)
    ensures NoRepeats(Names(s))
  {
    hide Descriptor, Listing;
    forall e | e in s
      ensures e in Listing(files, shared, |files|)
    {
      var i :| 0 <= i < |s| && s[i] == e;
      assert ClearDup(e) == e;
      assert Names(s)[i] in Present(files);
      InListing(files, shared, |files|, e.nameloc);
    }
  }

  /**
   * After the first sort equal lengths are contiguous, and the lengths that neighbours share are those that files
   * share.
   */
  lemma FirstSort(files: seq<File>, s: seq<Entry>)
    requires Sortable(files) && AllDescribed(files, {}, {}, s) && NoDup(s) && Ascending(s)
    requires Enumerates(Names(s), Present(files))
    ensures LengthsTogether(s) && SharedComplete(files, Present(files), SharedLengths(s))
    ensures SharedLengths(s) == SharedOf(files)
  {
    hide Ordering, UnmixedLengths, Unmixed, Listing, Ascending, LengthsTogether, SharedLengths, AllDescribed, NoDup;
    hide SharedOf;
    hide Present, SharedComplete, Enumerates, NoRepeats, Names;
    AllListed(files, {}, s);
    UnmixedLengthsTogether(Listing(files, {}, |files|), s);
    LengthsComplete(files, s, Present(files));
    SharedLengthsAre(files, s);
  }

  lemma SharedLengthsAre(files: seq<File>, s: seq<Entry>)
    requires AllDescribed(files, {}, {}, s) && Enumerates(Names(s), Present(files))
    requires SharedComplete(files, Present(files), SharedLengths(s))
    ensures SharedLengths(s) == SharedOf(files)
  {
    forall n | n in SharedLengths(s)
      ensures n in SharedOf(files)
    {
      var i :| 0 <= i < |s| && NextSame(s, i) && s[i].length == n;
      DescribedFields(files, {}, {}, s[i]);
      DescribedFields(files, {}, {}, s[i + 1]);
      hide FileCrc, Described;
      var j, k := Names(s)[i], Names(s)[i + 1];
      assert j in Present(files) && k in Present(files) && j != k;
      assert HasTwin(files, j);
    }
  }

  /** After the second sort, or without one when no length is shared, the list is arranged as scan2 needs. */
  lemma SecondSort(files: seq<File>, shared: set<nat>, s: seq<Entry>)
    requires Sortable(files) && shared == SharedOf(files)
    requires AllDescribed(files, shared, {}, s) && NoDup(s) && Ascending(s) && Enumerates(Names(s), Present(files))
    ensures Arranged(s)
  {
    hide Ordering, UnmixedLengths, Unmixed, Listing, Ascending, Arranged, AllDescribed, NoDup, SharedOf;
    hide Present, Enumerates, NoRepeats, Names;
    AllListed(files, shared, s);
    UnmixedArranged(Listing(files, shared, |files|), s);
  }

  lemma NothingSharedArranged(s: seq<Entry>)
    requires LengthsTogether(s) && forall j | 0 <= j < |s| :: !NextSame(s, j)
    ensures Arranged(s)
  {
    forall i, j | 0 <= i < j < |s|
      ensures s[i].length != s[j].length
    {
      assert !NextSame(s, i);
      assert i + 1 < j ==> KeepsLength(s[i], s[i + 1], s[j]);
    }
  }

  /** The list that is to be sorted satisfies what qsort demands. */
  lemma QsortDemand(files: seq<File>, shared: set<nat>, s: seq<Entry>)
    requires Sortable(files) && (shared == {} || shared == SharedOf(files))
    requires AllDescribed(files, shared, {}, s) && NoDup(s) && Enumerates(Names(s), Present(files))
    ensures Ordering(s)
  {
    hide Ordering, UnmixedLengths, Unmixed, Listing, AllDescribed, NoDup, SharedOf, Present, Enumerates, NoRepeats;
    hide Names;
    AllListed(files, shared, s);
    OrderingOfPart(Listing(files, shared, |files|), s);
  }
}
