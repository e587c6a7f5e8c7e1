/** What each stage of finddup of hw2/src/finddup.c does to the list and to the output. */
module FinddupStages {
  import opened Prelude
  import opened FinddupFiles
  import opened FinddupSort
  import opened FinddupRegroup
  import opened FinddupReport
  import opened FinddupNaive

  // ---------------------------------------------------------------------------
  // Stages
  // ---------------------------------------------------------------------------

  ghost predicate Increasing(s: seq<nat>) {
    forall i, j | 0 <= i < j < |s| :: s[i] < s[j]
  }

  /** The names below n of the files that are empty. */
  ghost predicate AreZero(files: seq<File>, names: seq<nat>, n: nat)
    requires n <= |files|
  {
    Increasing(names) && forall k: nat :: k in names <==> k < n && files[k].content == []
  }

  /** The names below n of the files that are not empty. */
  ghost predicate AreListed(files: seq<File>, names: seq<nat>, n: nat)
    requires n <= |files|
  {
    Increasing(names) && forall k: nat :: k in names <==> k < n && files[k].content != []
  }

  ghost function ZeroNames(names: seq<nat>): (r: seq<Line>)
    ensures |r| == |names| && forall i | 0 <= i < |names| :: r[i] == ZeroLength(names[i])
  {
    seq(|names|, i requires 0 <= i < |names| => ZeroLength(names[i]))
  }

  ghost function ZeroLines(names: seq<nat>): seq<Line> {
    if names == [] then [] else [ZeroHeader] + ZeroNames(names)
  }

  ghost predicate NoDup(s: seq<Entry>) {
    forall j | 0 <= j < |s| :: !s[j].flags.dup
  }

  /** The lengths that two neighbours share. */
  ghost function SharedLengths(s: seq<Entry>): set<nat> {
    set i | 0 <= i < |s| && NextSame(s, i) :: s[i].length
  }

  function Checksummed(files: seq<File>, e: Entry): Entry {
    e.(crc32 := FileCrc(Content(files, e)), flags := e.flags.(crc := true))
  }

  predicate NextSame(s: seq<Entry>, j: int) {
    0 <= j < |s| - 1 && s[j].length == s[j + 1].length
  }

  lemma SameMultisetDescribed(files: seq<File>, shared: set<nat>, links: set<nat>, s: seq<Entry>, t: seq<Entry>)
    requires multiset(s) == multiset(t) && AllDescribed(files, shared, links, s) && NoDup(s)
    ensures AllDescribed(files, shared, links, t) && NoDup(t)
  {
    hide Described;
    forall j | 0 <= j < |t|
      ensures Described(files, shared, links, t[j]) && !t[j].flags.dup
    {
      SameMembers(s, t, t[j]);
    }
    SameMultisetSameNames(s, t);
    DistinctNames(s, t);
  }

  /** The names on the list are those of the present files, each once. */
  lemma ListedEnumerate(files: seq<File>, names: seq<nat>)
    requires forall i, j | 0 <= i < j < |names| :: names[i] < names[j]
    requires forall k: nat :: k in names <==> k < |files| && files[k].content != []
    ensures Enumerates(names, Present(files))
  {
    forall i | 0 <= i < |names|
      ensures names[i] in Present(files)
    {
      assert names[i] in names;
    }
  }

  lemma SameNamesEnumerate(s: seq<Entry>, t: seq<Entry>, present: set<nat>)
    requires multiset(Names(s)) == multiset(Names(t)) && Enumerates(Names(s), present)
    ensures Enumerates(Names(t), present)
  {
    PermutedNoRepeats(Names(s), Names(t));
    forall i | 0 <= i < |t|
      ensures Names(t)[i] in present
    {
      assert Names(t)[i] in Names(t);
    }
  }

  // ---------------------------------------------------------------------------
  // scan1
  // ---------------------------------------------------------------------------

  /** Entry j after the first k - 1 pairs of neighbours have been looked at. */
  ghost function Scanned(files: seq<File>, s: seq<Entry>, k: int, j: int): Entry
    requires 0 <= j < |s|
  {
    if (NextSame(s, j) && j + 1 < k) || (NextSame(s, j - 1) && j < k) then Checksummed(files, s[j]) else s[j]
  }

  lemma Unscanned(files: seq<File>, s: seq<Entry>)
    requires AllDescribed(files, {}, {}, s)
    ensures forall j | 0 <= j < |s| :: !s[j].flags.crc
  {
    forall j | 0 <= j < |s|
      ensures !s[j].flags.crc
    {
      assert Described(files, {}, {}, s[j]);
      assert ClearDup(s[j]).flags.crc == s[j].flags.crc;
    }
  }

  lemma ScannedStep(files: seq<File>, s: seq<Entry>, k: nat, j: nat)
    requires 0 < k && j < |s|
    requires !s[j].flags.crc
    ensures Scanned(files, s, k + 1, j)
         == if NextSame(s, k - 1) && k - 1 <= j <= k then Checksummed(files, s[j]) else Scanned(files, s, k, j)
    ensures !Scanned(files, s, k, j).flags.crc ==> Scanned(files, s, k, j) == s[j]
    ensures Scanned(files, s, k, j).flags.crc ==> Scanned(files, s, k, j) == Checksummed(files, s[j])
    ensures Scanned(files, s, k, j).length == s[j].length
  {
    hide FileCrc;
  }

  /** The list in the middle of the scan. */
  ghost predicate ScannedUpTo(files: seq<File>, s: seq<Entry>, t: seq<Entry>, k: int) {
    |t| == |s| && forall j | 0 <= j < |s| :: t[j] == Scanned(files, s, k, j)
  }

  function Summed(files: seq<File>, e: Entry): Entry {
    if e.flags.crc then e else Checksummed(files, e)
  }

  lemma ScanRound(files: seq<File>, s: seq<Entry>, t: seq<Entry>, ix: nat)
    requires 1 <= ix <= |s| && ScannedUpTo(files, s, t, ix) && forall j | 0 <= j < |s| :: !s[j].flags.crc
    ensures ix < |s| && t[ix - 1].length == t[ix].length <==> NextSame(s, ix - 1)
    ensures NextSame(s, ix - 1) ==>
              ScannedUpTo(files, s, t[ix - 1 := Summed(files, t[ix - 1])][ix := Summed(files, t[ix])], ix + 1)
    ensures !NextSame(s, ix - 1) ==> ScannedUpTo(files, s, t, ix + 1)
  {
    forall j: nat | j < |s|
      ensures Scanned(files, s, ix + 1, j)
           == if NextSame(s, ix - 1) && ix - 1 <= j <= ix then Checksummed(files, s[j]) else Scanned(files, s, ix, j)
      ensures Summed(files, t[j]) == Checksummed(files, s[j]) && t[j].length == s[j].length
    {
      ScannedStep(files, s, ix, j);
      hide Scanned, Checksummed;
    }
    hide Scanned, Checksummed, Summed;
  }

  lemma ScanNone(files: seq<File>, s: seq<Entry>)
    ensures ScannedUpTo(files, s, s, 1)
  {
  }

  lemma ScanAll(files: seq<File>, s: seq<Entry>, t: seq<Entry>)
    requires ScannedUpTo(files, s, t, |s| + 1)
    ensures forall j | 0 <= j < |s| :: t[j] == Scanned(files, s, |s|, j)
  {
  }

  lemma SharedIffNeighbour(s: seq<Entry>, j: nat)
    requires LengthsTogether(s) && j < |s|
    ensures s[j].length in SharedLengths(s) <==> NextSame(s, j) || NextSame(s, j - 1)
  {
    if s[j].length in SharedLengths(s) {
      var i :| 0 <= i < |s| && NextSame(s, i) && s[i].length == s[j].length;
      if i + 1 < j {
        assert i + 1 < j - 1 ==> KeepsLength(s[i + 1], s[j - 1], s[j]);
      } else if j < i {
        assert j + 1 < i ==> KeepsLength(s[j], s[j + 1], s[i]);
      }
    }
  }

  /** Scanning gives each entry the descriptor in which exactly the shared lengths have a checksum. */
  lemma ScannedDescribed(files: seq<File>, s: seq<Entry>, t: seq<Entry>)
    requires LengthsTogether(s) && AllDescribed(files, {}, {}, s) && NoDup(s)
    requires |t| == |s| && forall j | 0 <= j < |s| :: t[j] == Scanned(files, s, |s|, j)
    ensures AllDescribed(files, SharedLengths(s), {}, t) && NoDup(t)
    ensures Names(t) == Names(s)
  {
    forall j | 0 <= j < |s|
      ensures Described(files, SharedLengths(s), {}, t[j]) && !t[j].flags.dup && t[j].nameloc == s[j].nameloc
    {
      SharedIffNeighbour(s, j);
      assert Described(files, {}, {}, s[j]);
      assert ClearDup(s[j]) == s[j];
      hide SharedLengths, FileCrc;
      assert ClearDup(t[j]) == t[j];
    }
  }

  // ---------------------------------------------------------------------------
  // Links
  // ---------------------------------------------------------------------------

  function MarkLink(s: seq<Entry>, j: nat): Entry
    requires j < |s|
  {
    if FollowsInode(s, j) then s[j].(flags := s[j].flags.(lnk := true)) else s[j]
  }

  ghost function InodeConts(s: seq<Entry>): (c: seq<bool>)
    ensures |c| == |s|
  {
    seq(|s|, j requires 0 <= j < |s| => FollowsInode(s, j))
  }

  ghost function All(n: nat): (c: seq<bool>)
    ensures |c| == n
  {
    seq(n, j requires 0 <= j < n => true)
  }

  /** What the first n entries add to the hard link summary. */
  ghost function LinkGroups(s: seq<Entry>, n: nat): seq<Group>
    requires n <= |s|
  {
    Groups(InodeConts(s), All(|s|), n)
  }

  lemma LinkGroupsStep(s: seq<Entry>, n: nat)
    requires n < |s|
    ensures FollowsInode(s, n) && n > 0 ==>
              LinkGroups(s, n) != [] && LinkGroups(s, n + 1) == AddMember(LinkGroups(s, n), n)
    ensures !FollowsInode(s, n) ==> LinkGroups(s, n + 1) == LinkGroups(s, n) + [Group(n, [])]
  {
  }

  /** The hard link summary of the first n entries has been printed after before. */
  ghost predicate Summarised(s: seq<Entry>, n: nat, linkflag: bool, out: seq<Line>, needHdr: bool, before: seq<Line>)
    requires n <= |s|
  {
    && (needHdr <==> !linkflag || Lines(LinkStyle, Names(s), LinkGroups(s, n)) == [])
    && out == before + (if linkflag then Report(LinkStyle, Names(s), LinkGroups(s, n)) else [])
  }

  /** Entry ix leads the group to which entry n - 1 belongs. */
  ghost predicate Leads(s: seq<Entry>, ix: nat, n: nat, linkflag: bool, inmatch: bool)
    requires n <= |s|
  {
    && ix < n
    && LinkGroups(s, n) != []
    && var last := LinkGroups(s, n)[|LinkGroups(s, n)| - 1];
       last.leader == ix && (linkflag ==> (last.members == [] <==> !inmatch))
  }

  /** What one iteration of the inner loop prints. */
  lemma PrintNext(s: seq<Entry>, ix: nat, ix2: nat, linkflag: bool, out: seq<Line>, needHdr: bool, inmatch: bool,
                  before: seq<Line>)
    requires ix < ix2 < |s| && FollowsInode(s, ix2)
    requires Summarised(s, ix2, linkflag, out, needHdr, before) && Leads(s, ix, ix2, linkflag, inmatch)
    ensures linkflag ==>
              var out1 := if needHdr then out + [LinkHeader] else out;
              var out2 := if inmatch then out1 else out1 + [LinkFile(s[ix].nameloc)];
              Summarised(s, ix2 + 1, linkflag, out2 + [Link(s[ix2].nameloc)], false, before)
                  && Leads(s, ix, ix2 + 1, linkflag, true)
    ensures !linkflag ==>
            Summarised(s, ix2 + 1, linkflag, out, needHdr, before) && Leads(s, ix, ix2 + 1, linkflag, inmatch)
  {
    hide Report, Lines, LinkGroups, FollowsInode;
    LinkGroupsStep(s, ix2);
    ReportNewMember(LinkStyle, Names(s), LinkGroups(s, ix2), ix2);
  }

  lemma NewLeader(s: seq<Entry>, ix: nat, linkflag: bool, out: seq<Line>, needHdr: bool, before: seq<Line>)
    requires ix < |s| && !FollowsInode(s, ix)
    requires Summarised(s, ix, linkflag, out, needHdr, before)
    ensures Summarised(s, ix + 1, linkflag, out, needHdr, before) && Leads(s, ix, ix + 1, linkflag, false)
  {
    LinkGroupsStep(s, ix);
    ReportNewGroup(LinkStyle, Names(s), LinkGroups(s, ix), ix);
    hide Report, Lines, LinkGroups;
  }

  /** The entries of s before n have been marked in t. */
  ghost predicate MarkedUpTo(s: seq<Entry>, t: seq<Entry>, n: nat) {
    |t| == |s| && forall j: nat | j < |s| :: t[j] == if j < n then MarkLink(s, j) else s[j]
  }

  lemma MarkedAt(s: seq<Entry>, t: seq<Entry>, n: nat)
    requires MarkedUpTo(s, t, n)
    ensures |t| == |s|
    ensures n < |s| ==> t[n] == s[n]
  {
  }

  lemma MarkedAlike(s: seq<Entry>, t: seq<Entry>, n: nat, j: nat)
    requires MarkedUpTo(s, t, n) && j < |s|
    ensures |t| == |s| && t[j].nameloc == s[j].nameloc && t[j].device == s[j].device && t[j].inode == s[j].inode
  {
  }

  lemma MarkNext(s: seq<Entry>, t: seq<Entry>, n: nat)
    requires MarkedUpTo(s, t, n) && n < |s| && FollowsInode(s, n)
    ensures |t| == |s|
    ensures MarkedUpTo(s, t[n := t[n].(flags := t[n].flags.(lnk := true))], n + 1)
  {
  }

  lemma MarkNone(s: seq<Entry>, t: seq<Entry>, n: nat)
    requires MarkedUpTo(s, t, n) && n < |s| && !FollowsInode(s, n)
    ensures MarkedUpTo(s, t, n + 1)
  {
  }

  // ---------------------------------------------------------------------------
  // scan3
  // ---------------------------------------------------------------------------

  /** A leader's flags are exactly FL_CRC. */
  ghost predicate LeadersPlain(s: seq<Entry>) {
    forall j: nat | j < |s| && s[j].flags.dup ::
      j > 0 && (!s[j - 1].flags.dup ==> s[j - 1].flags == Flags(true, false, false))
  }

  ghost function DupConts(s: seq<Entry>): (c: seq<bool>)
    ensures |c| == |s|
  {
    seq(|s|, j requires 0 <= j < |s| => s[j].flags.dup)
  }

  ghost function Shows(s: seq<Entry>, linkflag: bool): (c: seq<bool>)
    ensures |c| == |s|
  {
    seq(|s|, j requires 0 <= j < |s| => linkflag || !s[j].flags.lnk)
  }

  /** The duplicate groups among the first n entries. */
  ghost function DupGroups(s: seq<Entry>, linkflag: bool, n: nat): seq<Group>
    requires n <= |s|
  {
    Groups(DupConts(s), Shows(s, linkflag), n)
  }

  lemma DupGroupsStep(s: seq<Entry>, linkflag: bool, n: nat)
    requires n < |s|
    ensures s[n].flags.dup && n > 0 ==>
              DupGroups(s, linkflag, n) != []
              && DupGroups(s, linkflag, n + 1)
                 == if linkflag || !s[n].flags.lnk then AddMember(DupGroups(s, linkflag, n), n)
                    else DupGroups(s, linkflag, n)
    ensures !s[n].flags.dup ==> DupGroups(s, linkflag, n + 1) == DupGroups(s, linkflag, n) + [Group(n, [])]
  {
    var last := DupGroups(s, linkflag, n);
    assert last != [] ==> last[|last| - 1 := last[|last| - 1]] == last;
  }

  /** The duplicates among the first n entries have been printed after before. */
  ghost predicate Reported(s: seq<Entry>, linkflag: bool, n: nat, out: seq<Line>, needHdr: bool, before: seq<Line>)
    requires n <= |s|
  {
    && (needHdr <==> Lines(DupStyle, Names(s), DupGroups(s, linkflag, n)) == [])
    && out == before + Report(DupStyle, Names(s), DupGroups(s, linkflag, n))
  }

  /** headfn holds the leader of the open group as long as it is still to be printed. */
  ghost predicate HeadKnown(s: seq<Entry>, linkflag: bool, n: nat, inmatch: bool, headfn: Option<nat>)
    requires n <= |s|
  {
    n > 0 ==>
      && DupGroups(s, linkflag, n) != []
      && var last := DupGroups(s, linkflag, n)[|DupGroups(s, linkflag, n)| - 1];
         if s[n - 1].flags.dup then
           inmatch && last.leader < |s| && headfn == (if last.members == [] then Some(s[last.leader].nameloc) else None)
         else
           last == Group(n - 1, []) && (n < |s| && s[n].flags.dup ==> !inmatch)
  }

  /** headfn when entry n, a duplicate, is about to be shown. */
  function HeadAt(s: seq<Entry>, n: nat, inmatch: bool, headfn: Option<nat>): Option<nat>
    requires 0 < n < |s|
  {
    if !inmatch then Some(s[n - 1].nameloc) else headfn
  }

  lemma HeadIsLeader(s: seq<Entry>, linkflag: bool, n: nat, inmatch: bool, headfn: Option<nat>)
    requires n < |s| && LeadersPlain(s) && s[n].flags.dup
    requires HeadKnown(s, linkflag, n, inmatch, headfn)
    ensures n > 0 && DupGroups(s, linkflag, n) != []
    ensures var last := DupGroups(s, linkflag, n)[|DupGroups(s, linkflag, n)| - 1];
            last.leader < |s|
            && HeadAt(s, n, inmatch, headfn) == if last.members == [] then Some(s[last.leader].nameloc) else None
  {
    hide DupGroups;
  }

  /** What one iteration prints for a duplicate that is shown. */
  lemma ReportShown(s: seq<Entry>, linkflag: bool, n: nat, out: seq<Line>, needHdr: bool,
                    inmatch: bool, headfn: Option<nat>, before: seq<Line>)
    requires n < |s| && LeadersPlain(s) && s[n].flags.dup && (linkflag || !s[n].flags.lnk)
    requires Reported(s, linkflag, n, out, needHdr, before) && HeadKnown(s, linkflag, n, inmatch, headfn)
    ensures n > 0
    ensures var head := HeadAt(s, n, inmatch, headfn);
            var out1 := if needHdr then out + [DupHeader] else out;
            var out2 := if head.Some? then out1 + [DupFile(head.value)] else out1;
            && Reported(s, linkflag, n + 1, out2 + [Dup(s[n].nameloc)], false, before)
            && HeadKnown(s, linkflag, n + 1, true, None)
  {
    hide LeadersPlain, DupGroups, Report, Lines;
    HeadIsLeader(s, linkflag, n, inmatch, headfn);
    DupGroupsStep(s, linkflag, n);
    ReportNewMember(DupStyle, Names(s), DupGroups(s, linkflag, n), n);
  }

  /** A duplicate that is a hidden link changes nothing but the state. */
  lemma ReportHidden(s: seq<Entry>, linkflag: bool, n: nat, out: seq<Line>, needHdr: bool,
                     inmatch: bool, headfn: Option<nat>, before: seq<Line>)
    requires n < |s| && LeadersPlain(s) && s[n].flags.dup && !(linkflag || !s[n].flags.lnk)
    requires Reported(s, linkflag, n, out, needHdr, before) && HeadKnown(s, linkflag, n, inmatch, headfn)
    ensures n > 0
    ensures Reported(s, linkflag, n + 1, out, needHdr, before)
    ensures HeadKnown(s, linkflag, n + 1, true, HeadAt(s, n, inmatch, headfn))
  {
    hide LeadersPlain, DupGroups, Report, Lines;
    HeadIsLeader(s, linkflag, n, inmatch, headfn);
    DupGroupsStep(s, linkflag, n);
  }

  /** Any other entry opens a group; if that group is going to have members, inmatch is reset. */
  lemma ReportOther(s: seq<Entry>, linkflag: bool, n: nat, out: seq<Line>, needHdr: bool,
                    inmatch: bool, headfn: Option<nat>, before: seq<Line>)
    requires n < |s| && LeadersPlain(s) && !s[n].flags.dup
    requires Reported(s, linkflag, n, out, needHdr, before)
    ensures Reported(s, linkflag, n + 1, out, needHdr, before)
    ensures HeadKnown(s, linkflag, n + 1, inmatch && s[n].flags != Flags(true, false, false), headfn)
  {
    DupGroupsStep(s, linkflag, n);
    ReportNewGroup(DupStyle, Names(s), DupGroups(s, linkflag, n), n);
    hide DupGroups, Report, Lines;
    assert n + 1 < |s| && s[n + 1].flags.dup ==> s[(n + 1) - 1].flags == Flags(true, false, false);
  }

  lemma NoDupGroups(s: seq<Entry>, linkflag: bool, before: seq<Line>)
    ensures Reported(s, linkflag, 0, before, true, before) && HeadKnown(s, linkflag, 0, true, None)
  {
  }

  lemma ReportedAll(s: seq<Entry>, linkflag: bool, out: seq<Line>, needHdr: bool, before: seq<Line>)
    requires Reported(s, linkflag, |s|, out, needHdr, before)
    ensures out == before + Report(DupStyle, Names(s), DupGroups(s, linkflag, |s|))
  {
  }

  lemma OuterStart(files: seq<File>, s: seq<Entry>)
    requires Arranged(s) && LinksMarked(s) && NoDup(s)
    ensures OuterInv(files, s, 0, 0)
  {
    forall j: nat | j < |s|
      ensures LinkFollows(s, 0, j)
    {
      assert s[j].flags.lnk <==> FollowsInode(s, j);
    }
  }

  lemma InnerKeepsFrom(files: seq<File>, shared: set<nat>, links: set<nat>, s: seq<Entry>, ix: nat, h: nat)
    returns (h': nat)
    requires Consistent(files) && Comparable(files, shared) && AllDescribed(files, shared, links, s)
    requires OuterInv(files, s, ix, h) && ix < |s|
    ensures var (t, last) := Inner(files, s, ix, ix + 1, ix + 1);
            && ix < last
            && OuterInv(files, t, last, h')
            && AllDescribed(files, shared, links, t)
            && Outer(files, s, ix) == Outer(files, t, last)
  {
    hide Comparable, Consistent, AllDescribed, InnerInv, OuterInv, Inner;
    OuterEnter(files, shared, links, s, ix, h);
    h' := InnerKeeps(files, shared, links, s, ix, ix + 1, ix + 1, ix + 1, true);
  }

  lemma NextInRun(s: seq<Entry>, ix: nat, ix2: nat)
    requires ix < ix2 <= |s|
    ensures SameInode(s[ix], s[ix])
    ensures ix2 < |s| && SameInode(s[ix], s[ix2 - 1]) ==> (SameInode(s[ix], s[ix2]) <==> FollowsInode(s, ix2))
  {
  }

  lemma NoLinkGroups(s: seq<Entry>)
    ensures LinkGroups(s, 0) == []
    ensures Lines(LinkStyle, Names(s), []) == [] && Report(LinkStyle, Names(s), []) == []
  {
  }

  /** The report of the empty files: one header and then every name, or nothing at all. */
  lemma ZeroLinesAre(names: seq<nat>, i: nat)
    requires i <= |names|
    ensures names == [] ==> ZeroLines(names) == []
    ensures names != [] ==> |ZeroLines(names)| == |names| + 1
    ensures names != [] ==> ZeroLines(names)[i] == if i == 0 then ZeroHeader else ZeroLength(names[i - 1])
  {
    hide ZeroNames;
  }

  lemma NothingListed(files: seq<File>)
    ensures AreZero(files, [], 0) && AreListed(files, [], 0)
  {
  }

  /** When all files have been looked at. */
  lemma AllSorted(files: seq<File>, zeros: seq<nat>, names: seq<nat>)
    requires AreZero(files, zeros, |files|) && AreListed(files, names, |files|)
    ensures forall i, j | 0 <= i < j < |zeros| :: zeros[i] < zeros[j]
    ensures forall k: nat :: k in zeros <==> k < |files| && files[k].content == []
    ensures forall i, j | 0 <= i < j < |names| :: names[i] < names[j]
    ensures forall k: nat :: k in names <==> k < |files| && files[k].content != []
  {
  }

  /** One file more, which is empty or goes on the list. */
  lemma ListedMore(files: seq<File>, zeros: seq<nat>, names: seq<nat>, k: nat)
    requires k < |files| && AreZero(files, zeros, k) && AreListed(files, names, k)
    ensures files[k].content == [] ==> AreZero(files, zeros + [k], k + 1) && AreListed(files, names, k + 1)
    ensures files[k].content != [] ==> AreZero(files, zeros, k + 1) && AreListed(files, names + [k], k + 1)
  {
    assert forall i | 0 <= i < |zeros| :: zeros[i] in zeros;
    assert forall i | 0 <= i < |names| :: names[i] in names;
  }

  lemma Undescribed(files: seq<File>, k: nat)
    requires k < |files|
    ensures var f := files[k];
            Described(files, {}, {}, Entry(|f.content|, 0, f.device, f.inode, k, Flags(false, false, false)))
  {
  }

  lemma ZeroLinesGrow(names: seq<nat>, k: nat)
    ensures ZeroLines(names + [k]) == (if names == [] then [ZeroHeader] else ZeroLines(names)) + [ZeroLength(k)]
  {
  }
}
