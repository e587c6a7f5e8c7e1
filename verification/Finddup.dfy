/** finddup of hw2/src/finddup.c: build the list, sort, checksum, mark links, regroup in place, report. */
module Finddup {
  import opened Prelude
  import opened FinddupFiles
  import opened FinddupSort
  import opened FinddupRegroup
  import opened FinddupReport
  import opened FinddupNaive
  import opened FinddupStages
  import opened FinddupTheorems

  class Finder {
    const files: seq<File>
    const linkflag: bool
    var filelist: array<Entry>
    var out: seq<Line>

    constructor (files: seq<File>, linkflag: bool)
      ensures this.files == files && this.linkflag == linkflag && out == []
      ensures fresh(filelist)
    {
      this.files := files;
      this.linkflag := linkflag;
      filelist := new Entry[0];
      out := [];
    }

    /** The build loop: empty files are printed and dropped, the others are listed. */
    method Build() returns (ghost zeros: seq<nat>)
      modifies this
      ensures fresh(filelist)
      ensures forall i, j | 0 <= i < j < |zeros| :: zeros[i] < zeros[j]
      ensures forall k: nat :: k in zeros <==> k < |files| && files[k].content == []
      ensures out == old(out) + ZeroLines(zeros)
      ensures var names := Names(filelist[..]);
              && (forall i, j | 0 <= i < j < |names| :: names[i] < names[j])
              && (forall k: nat :: k in names <==> k < |files| && files[k].content != [])
      ensures AllDescribed(files, {}, {}, filelist[..]) && NoDup(filelist[..])
    {
      hide Described, FileCrc, ZeroLines, AreZero, AreListed;
      var list: seq<Entry> := [];
      zeros := [];
      ZeroLinesAre([], 0);
      NothingListed(files);
      var zlHdr := true;
      for k := 0 to |files|
        invariant AreZero(files, zeros, k) && (zlHdr <==> zeros == [])
        invariant out == old(out) + ZeroLines(zeros)
        invariant AreListed(files, Names(list), k)
        invariant AllDescribed(files, {}, {}, list) && NoDup(list)
        invariant forall i | 0 <= i < |list| :: list[i].nameloc < k
      {
        var f := files[k];
        ListedMore(files, zeros, Names(list), k);
        if f.content == [] {
          if zlHdr {
            zlHdr := false;
            out := out + [ZeroHeader];
          }
          out := out + [ZeroLength(k)];
          ZeroLinesGrow(zeros, k);
          zeros := zeros + [k];
          assert out == old(out) + ZeroLines(zeros);
        } else {
          var e := Entry(|f.content|, 0, f.device, f.inode, k, Flags(false, false, false));
          Undescribed(files, k);
          assert Names(list + [e]) == Names(list) + [k];
          list := list + [e];
        }
      }
      filelist := new Entry[|list|](i requires 0 <= i < |list| => list[i]);
      assert filelist[..] == list;
      AllSorted(files, zeros, Names(list));
    }

    /** qsort with comp1, which must be a total ordering of the list: some ascending permutation. */
    method Sort()
      requires Ordering(filelist[..])
      modifies filelist
      ensures Ascending(filelist[..])
      ensures multiset(filelist[..]) == multiset(old(filelist[..]))
    {
      hide Ordering, Ascending, SortedCopy;
      SortedCopyAscends(filelist[..]);
      var t := SortedCopy(filelist[..]);
      assert |t| == filelist.Length by {
        assert |multiset(t)| == |multiset(filelist[..])|;
      }
      forall i | 0 <= i < filelist.Length {
        filelist[i] := t[i];
      }
      assert filelist[..] == t;
    }

    /** The loop of scan1: a checksum for every file whose length is that of a neighbour. */
    method ChecksumNeighbours() returns (needsort: bool)
      requires forall j | 0 <= j < filelist.Length :: !filelist[j].flags.crc
      modifies filelist
      ensures forall j | 0 <= j < filelist.Length ::
                filelist[j] == Scanned(files, old(filelist[..]), filelist.Length, j)
      ensures !needsort ==> forall j | 0 <= j < filelist.Length :: !NextSame(old(filelist[..]), j)
    {
      ghost var s := filelist[..];
      hide Scanned, Checksummed, ScannedUpTo, NextSame;
      ScanNone(files, s);
      var n := filelist.Length;
      needsort := false;
      // The entry at n_files counts as having a length of its own.
      for ix := 1 to n + 1
        invariant ScannedUpTo(files, s, filelist[..], ix)
        invariant !needsort ==> forall j | 0 <= j < ix - 1 :: !NextSame(s, j)
      {
        ghost var t := filelist[..];
        ScanRound(files, s, t, ix);
        if ix < n && filelist[ix - 1].length == filelist[ix].length {
          if !filelist[ix - 1].flags.crc {
            filelist[ix - 1] := Checksummed(files, filelist[ix - 1]);
          }
          if !filelist[ix].flags.crc {
            filelist[ix] := Checksummed(files, filelist[ix]);
          }
          needsort := true;
          assert filelist[..] == t[ix - 1 := Summed(files, t[ix - 1])][ix := Summed(files, t[ix])];
        }
      }
      ScanAll(files, s, filelist[..]);
    }

    /** scan1, which sorts again when it has found a checksum. */
    method Scan1()
      requires Sortable(files) && SharedLengths(filelist[..]) == SharedOf(files)
      requires LengthsTogether(filelist[..]) && Enumerates(Names(filelist[..]), Present(files))
      requires AllDescribed(files, {}, {}, filelist[..]) && NoDup(filelist[..])
      modifies filelist
      ensures Arranged(filelist[..])
      ensures AllDescribed(files, SharedOf(files), {}, filelist[..]) && NoDup(filelist[..])
      ensures multiset(Names(filelist[..])) == multiset(Names(old(filelist[..])))
    {
      ghost var s := filelist[..];
      Unscanned(files, s);
      var needsort := ChecksumNeighbours();
      ghost var t := filelist[..];
      ScannedDescribed(files, s, t);
      if needsort {
        hide *;
        QsortDemand(files, SharedOf(files), t);
        Sort();
        SameMultisetDescribed(files, SharedOf(files), {}, t, filelist[..]);
        SameMultisetSameNames(t, filelist[..]);
        SameNamesEnumerate(t, filelist[..], Present(files));
        SecondSort(files, SharedOf(files), filelist[..]);
      } else {
        assert t == s;
        hide *;
        NothingSharedArranged(s);
      }
    }

    /** The inner loop: the entries after ix that have its inode. */
    method MarkRun(ghost s: seq<Entry>, ix: nat, needHdr: bool, ghost before: seq<Line>)
      returns (ix2: nat, needHdr': bool)
      requires ix < |s| && !FollowsInode(s, ix)
      requires MarkedUpTo(s, filelist[..], ix) && Summarised(s, ix, linkflag, out, needHdr, before)
      modifies this`out, filelist
      ensures ix < ix2 <= |s| && (ix2 < |s| ==> !FollowsInode(s, ix2))
      ensures MarkedUpTo(s, filelist[..], ix2) && Summarised(s, ix2, linkflag, out, needHdr', before)
    {
      hide Summarised, Leads, FollowsInode, MarkedUpTo;
      MarkedAt(s, filelist[..], ix);
      var n := filelist.Length;
      var p1 := filelist[ix];
      var inmatch := false;
      NewLeader(s, ix, linkflag, out, needHdr, before);
      MarkNone(s, filelist[..], ix);
      ix2, needHdr' := ix + 1, needHdr;
      while ix2 < n && SameInode(p1, filelist[ix2])
        invariant ix < ix2 <= n == |s| && MarkedUpTo(s, filelist[..], ix2)
        invariant SameInode(s[ix], s[ix2 - 1])
        invariant Summarised(s, ix2, linkflag, out, needHdr', before) && Leads(s, ix, ix2, linkflag, inmatch)
      {
        MarkedAlike(s, filelist[..], ix2, ix);
        MarkedAt(s, filelist[..], ix2);
        NextInRun(s, ix, ix2);
        MarkNext(s, filelist[..], ix2);
        PrintNext(s, ix, ix2, linkflag, out, needHdr', inmatch, before);
        filelist[ix2] := filelist[ix2].(flags := filelist[ix2].flags.(lnk := true));
        if linkflag {
          if needHdr' {
            needHdr' := false;
            out := out + [LinkHeader];
          }
          if !inmatch {
            inmatch := true;
            out := out + [LinkFile(filelist[ix].nameloc)];
          }
          out := out + [Link(filelist[ix2].nameloc)];
        }
        ix2 := ix2 + 1;
      }
      if ix2 < n {
        MarkedAt(s, filelist[..], ix2);
        NextInRun(s, ix, ix2);
      }
    }

    /** The first half of scan2: mark links and print the hard link summary. */
    method MarkLinks()
      modifies this`out, filelist
      ensures MarkedUpTo(old(filelist[..]), filelist[..], filelist.Length)
      ensures var s := old(filelist[..]);
              out == old(out) + (if linkflag then Report(LinkStyle, Names(s), LinkGroups(s, |s|)) else [])
    {
      ghost var s := filelist[..];
      NoLinkGroups(s);
      hide Report, Lines, LinkGroups, Names;
      var ix := 0;
      var needHdr := true;
      while ix < filelist.Length
        invariant ix <= filelist.Length && (ix < |s| ==> !FollowsInode(s, ix))
        invariant MarkedUpTo(s, filelist[..], ix) && Summarised(s, ix, linkflag, out, needHdr, old(out))
      {
        ix, needHdr := MarkRun(s, ix, needHdr, old(out));
      }
    }

    /** The rotation: wkdesc travels up to lastix. */
    method MoveUp(lastix: nat, ix2: nat)
      requires lastix <= ix2 < filelist.Length
      modifies filelist
      ensures filelist[..] == Rotate(old(filelist[..]), lastix, ix2)
    {
      ghost var s := filelist[..];
      var wkdesc := filelist[ix2];
      var n1 := ix2;
      while n1 > lastix
        invariant lastix <= n1 <= ix2
        invariant forall j | n1 < j <= ix2 :: filelist[j] == s[j - 1]
        invariant forall j | 0 <= j <= n1 || ix2 < j < filelist.Length :: filelist[j] == s[j]
      {
        filelist[n1] := filelist[n1 - 1];
        n1 := n1 - 1;
      }
      filelist[lastix] := wkdesc;
      assert filelist[..] == Rotate(s, lastix, ix2);
    }

    /** The second half of scan2, with its link shortcut, does what the full comparisons alone would do. */
    method RegroupDuplicates(ghost shared: set<nat>, ghost links: set<nat>)
      requires Consistent(files) && Comparable(files, shared)
      requires AllDescribed(files, shared, links, filelist[..]) && NoDup(filelist[..])
      requires Arranged(filelist[..]) && LinksMarked(filelist[..])
      modifies filelist
      ensures filelist[..] == Outer(files, old(filelist[..]), 0)
    {
      var n := filelist.Length;
      ghost var s0 := filelist[..];
      ghost var h: nat := 0;
      OuterStart(files, s0);
      hide Comparable, Consistent, AllDescribed, InnerInv, OuterInv, Matches, LinksMarked, Arranged, NoDup;
      var ix := 0;
      while ix < n
        invariant ix <= n == |s0| && OuterInv(files, filelist[..], ix, h)
        invariant AllDescribed(files, shared, links, filelist[..])
        invariant Outer(files, filelist[..], ix) == Outer(files, s0, 0)
      {
        ghost var start := filelist[..];
        var lastix := RegroupFrom(shared, links, ix, h);
        h := InnerKeepsFrom(files, shared, links, start, ix, h);
        ix := lastix;
      }
    }

    /** One iteration of the outer loop: gather the class of entry ix. */
    method RegroupFrom(ghost shared: set<nat>, ghost links: set<nat>, ix: nat, ghost h: nat) returns (lastix: nat)
      requires Consistent(files) && Comparable(files, shared) && AllDescribed(files, shared, links, filelist[..])
      requires ix < filelist.Length && OuterInv(files, filelist[..], ix, h)
      modifies filelist
      ensures (filelist[..], lastix) == Inner(files, old(filelist[..]), ix, ix + 1, ix + 1)
    {
      hide Comparable, Consistent, AllDescribed, OuterInv, Scanning, Matches, Inner;
      var n := filelist.Length;
      ghost var start := filelist[..];
      ScanStart(files, shared, links, start, ix, h);
      ghost var e: nat := ix + 1;
      lastix := ix + 1;
      var ix2 := ix + 1;
      var lnkmatch := true;
      ScanBounds(files, shared, links, start, filelist[..], ix, ix2, lastix, e, lnkmatch);
      while ix2 < n && SameBucket(filelist[ix], filelist[ix2])
        invariant ix < lastix <= ix2 <= n == |start|
        invariant Scanning(files, shared, links, start, filelist[..], ix, ix2, lastix, e, lnkmatch)
      {
        ghost var s := filelist[..];
        ScanBounds(files, shared, links, start, s, ix, ix2, lastix, e, lnkmatch);
        if (filelist[ix2].flags.lnk && lnkmatch) || Matches(files, filelist[ix], filelist[ix2]) {
          ScanMatch(files, shared, links, start, s, ix, ix2, lastix, e, lnkmatch);
          filelist[ix2] := SetDup(filelist[ix2]);
          assert filelist[..] == s[ix2 := SetDup(s[ix2])];
          if lastix != ix2 {
            MoveUp(lastix, ix2);
            lastix := lastix + 1;
          }
          e := e + 1;
          lnkmatch := true;
        } else {
          ScanMiss(files, shared, links, start, s, ix, ix2, lastix, e, lnkmatch);
          lnkmatch := false;
        }
        ix2 := ix2 + 1;
      }
      ScanBounds(files, shared, links, start, filelist[..], ix, ix2, lastix, e, lnkmatch);
    }

    /** scan3: print the duplicates. */
    method Scan3()
      requires LeadersPlain(filelist[..])
      modifies this`out
      ensures var s := filelist[..];
              out == old(out) + Report(DupStyle, Names(s), DupGroups(s, linkflag, |s|))
    {
      ghost var s := filelist[..];
      var needHdr := true;
      var headfn: Option<nat> := None;
      var inmatch := true;
      NoDupGroups(s, linkflag, out);
      hide LeadersPlain, Reported, HeadKnown;
      for ix := 0 to filelist.Length
        invariant |s| == filelist.Length && s == filelist[..]
        invariant Reported(s, linkflag, ix, out, needHdr, old(out)) && HeadKnown(s, linkflag, ix, inmatch, headfn)
      {
        if !filelist[ix].flags.dup {
          ReportOther(s, linkflag, ix, out, needHdr, inmatch, headfn, old(out));
        } else if linkflag || !filelist[ix].flags.lnk {
          ReportShown(s, linkflag, ix, out, needHdr, inmatch, headfn, old(out));
        } else {
          ReportHidden(s, linkflag, ix, out, needHdr, inmatch, headfn, old(out));
        }
        if filelist[ix].flags == Flags(true, false, false) {
          inmatch := false;
        }
        if filelist[ix].flags.dup {
          if !inmatch {
            headfn := Some(filelist[ix - 1].nameloc);
          }
          inmatch := true;
          if linkflag || !filelist[ix].flags.lnk {
            if needHdr {
              needHdr := false;
              out := out + [DupHeader];
            }
            if headfn.Some? {
              out := out + [DupFile(headfn.value)];
              headfn := None;
            }
            out := out + [Dup(filelist[ix].nameloc)];
          }
        }
      }
      ReportedAll(s, linkflag, out, needHdr, old(out));
    }

    /**
     * The whole program: empty files, then the hard link summary, then the duplicates. The summary shows the
     * naive grouping by inode and the rest the naive grouping by content, whatever order the sort gives equal keys.
     */
    method Run() returns (ghost zeros: seq<nat>, ghost links: seq<Group>, ghost dups: seq<Group>)
      requires Consistent(files) && Sortable(files) && Decides(files)
      modifies this
      ensures NaiveGrouping(Inodes(files), Present(files), links)
      ensures ShowsNaive(files, linkflag, dups)
      ensures forall i, j | 0 <= i < j < |zeros| :: zeros[i] < zeros[j]
      ensures forall k: nat :: k in zeros <==> k < |files| && files[k].content == []
      ensures out == old(out) + ZeroLines(zeros)
                   + (if linkflag then Report(LinkStyle, Ids(|files|), links) else [])
                   + Report(DupStyle, Ids(|files|), dups)
    {
      hide *;
      zeros := Build();
      ghost var s0 := filelist[..];
      ListedEnumerate(files, Names(s0));
      QsortDemand(files, {}, s0);
      Sort();
      ghost var s1 := filelist[..];
      SameMultisetDescribed(files, {}, {}, s0, s1);
      SameMultisetSameNames(s0, s1);
      SameNamesEnumerate(s0, s1, Present(files));
      FirstSort(files, s1);
      ghost var shared := SharedOf(files);
      DecidesComparable(files, shared);
      Scan1();
      ghost var s2 := filelist[..];
      SameNamesEnumerate(s1, s2, Present(files));
      MarkLinks();
      ghost var s3 := filelist[..];
      MarkingEstablishes(files, shared, s2, s3);
      links := AllNamed(Names(s2), LinkGroups(s2, |s2|));
      RegroupDuplicates(shared, LinkNames(s3));
      ghost var s4 := filelist[..];
      RegroupingEstablishes(files, shared, LinkNames(s3), s3, linkflag);
      dups := AllNamed(Names(s4), DupGroups(s4, linkflag, |s4|));
      Scan3();
    }
  }
}
