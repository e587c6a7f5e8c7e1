/** The option scanner of hw2/src/getopt.c, and the command lines that it decodes. */
module Getopt {
  import opened Prelude

  /** The character of a C string at a position, up to and including its end. */
  function At(s: string, i: nat): char {
    if i < |s| then s[i] else NUL
  }

  // ---------------------------------------------------------------------------
  // Option strings
  // ---------------------------------------------------------------------------

  datatype Kind = Illegal | Flag | WithArgument

  /** strchr: the first position of a character, or the length. */
  function Find(opts: string, c: char): (i: nat)
    ensures i <= |opts| && (i < |opts| ==> opts[i] == c) && c !in opts[..i]
  {
    if opts == [] || opts[0] == c then 0
    else
      var i := Find(opts[1..], c);
      assert opts[..i + 1] == [opts[0]] + opts[1..][..i];
      i + 1
  }

  function KindOf(opts: string, c: char): Kind {
    if c == ':' || Find(opts, c) == |opts| then Illegal
    else if At(opts, Find(opts, c) + 1) == ':' then WithArgument
    else Flag
  }

  /**
   * A letter is legal if it is in the option string and no colon, and takes an argument if a colon follows its first
   * occurrence there.
   */
  lemma KindIs(opts: string, c: char)
    ensures KindOf(opts, c) == Illegal <==> c == ':' || c !in opts
    ensures KindOf(opts, c) == WithArgument <==>
            c != ':' && exists i :: 0 <= i < |opts| - 1 && opts[i] == c && c !in opts[..i] && opts[i + 1] == ':'
  {
    if i :| 0 <= i < |opts| - 1 && opts[i] == c && c !in opts[..i] && opts[i + 1] == ':' {
      FoundAt(opts, c, i);
    }
    assert c in opts ==> Find(opts, c) < |opts| by {
      assert opts[..|opts|] == opts;
    }
  }

  lemma {:induction false} FoundAt(opts: string, c: char, i: nat)
    requires i < |opts| && opts[i] == c && c !in opts[..i]
    ensures Find(opts, c) == i
  {
    if i > 0 {
      assert opts[0] in opts[..i];
      assert opts[1..][..i - 1] == opts[..i][1..];
      FoundAt(opts[1..], c, i - 1);
    }
  }

  // ---------------------------------------------------------------------------
  // What a command line says
  // ---------------------------------------------------------------------------

  datatype Item = Plain(c: char) | WithValue(c: char, value: string) | Unknown(c: char) | MissingValue(c: char)

  /** The scanner has nothing more to say at the start of a word. */
  predicate Stops(argv: seq<string>, i: nat) {
    i >= |argv| || At(argv[i], 0) != '-' || At(argv[i], 1) == NUL || argv[i] == "--"
  }

  /** A position inside the argument list where an option letter stands. */
  predicate Inside(argv: seq<string>, i: nat, sp: nat) {
    1 <= sp && i < |argv| && sp < |argv[i]|
  }

  datatype Position = Position(optind: nat, sp: nat)

  /** Past one letter of a word. */
  function Beyond(argv: seq<string>, i: nat, sp: nat): Position
    requires Inside(argv, i, sp)
  {
    if sp + 1 < |argv[i]| then Position(i, sp + 1) else Position(i + 1, 1)
  }

  function ItemAt(argv: seq<string>, opts: string, i: nat, sp: nat): (Item, Position)
    requires Inside(argv, i, sp)
  {
    var word, c := argv[i], argv[i][sp];
    match KindOf(opts, c)
    case Illegal => (Unknown(c), Beyond(argv, i, sp))
    case Flag => (Plain(c), Beyond(argv, i, sp))
    case WithArgument =>
      if sp + 1 < |word| then (WithValue(c, word[sp + 1..]), Position(i + 1, 1))
      else if i + 1 >= |argv| then (MissingValue(c), Position(i + 1, 1))
      else (WithValue(c, argv[i + 1]), Position(i + 2, 1))
  }

  /** All that follows a position: the options, and where the operands begin. */
  function Decode(argv: seq<string>, opts: string, i: nat, sp: nat): (seq<Item>, nat)
    decreases |argv| - i, if i < |argv| then |argv[i]| - sp else 0
  {
    if sp == 1 && Stops(argv, i) then ([], if i < |argv| && argv[i] == "--" then i + 1 else i)
    else if !Inside(argv, i, sp) then ([], i)
    else
      var (item, next) := ItemAt(argv, opts, i, sp);
      var (items, end) := Decode(argv, opts, next.optind, next.sp);
      ([item] + items, end)
  }

  /** C strings hold no NUL. */
  predicate AreCStrings(argv: seq<string>) {
    forall s | s in argv :: NUL !in s
  }

  lemma Ends(argv: seq<string>, i: nat)
    requires AreCStrings(argv) && i < |argv|
    ensures forall j: nat {:trigger At(argv[i], j)} :: At(argv[i], j) == NUL <==> j >= |argv[i]|
  {
    assert argv[i] in argv;
  }

  /** The words at which the options end. */
  lemma StopsIs(argv: seq<string>, i: nat)
    requires AreCStrings(argv)
    ensures Stops(argv, i) <==>
            i >= |argv| || argv[i] == "" || argv[i][0] != '-' || argv[i] == "-" || argv[i] == "--"
  {
    if i < |argv| {
      Ends(argv, i);
      hide AreCStrings;
      assert At(argv[i], 1) == NUL <==> 1 >= |argv[i]|;
      assert |argv[i]| == 1 && argv[i][0] == '-' ==> argv[i] == "-";
    }
  }

  // ---------------------------------------------------------------------------
  // The scanner
  // ---------------------------------------------------------------------------

  datatype Returned = EOF | Character(c: char)

  /** What ERR writes about an item. */
  function Complaint(argv: seq<string>, item: Item): string {
    var program := if argv == [] then "" else argv[0];
    match item
    case Unknown(c) => program + ": illegal option -- " + [c, '\n']
    case MissingValue(c) => program + ": option requires an argument -- " + [c, '\n']
    case _ => ""
  }

  function Complaints(argv: seq<string>, items: seq<Item>): string {
    if items == [] then "" else Complaints(argv, items[..|items| - 1]) + Complaint(argv, items[|items| - 1])
  }

  class Scanner {
    const argv: seq<string>
    const opts: string
    var optind: nat
    var sp: nat
    var optopt: char
    var optarg: Option<string>
    var opterr: bool
    var stderr: string

    /** Between words, or at a letter of a word: never at the NUL that ends it. */
    predicate Valid()
      reads this
    {
      && AreCStrings(argv)
      && (sp == 1 || Inside(argv, optind, sp))
    }

    constructor (argv: seq<string>, opts: string)
      requires AreCStrings(argv)
      ensures Valid() && this.argv == argv && this.opts == opts && optind == 1 && sp == 1
      ensures opterr && stderr == ""
    {
      this.argv, this.opts := argv, opts;
      optind, sp, optopt, optarg := 1, 1, NUL, None;
      opterr, stderr := true, "";
    }

    /** ERR: a message, unless the caller has asked for silence. */
    method Err(message: string, c: char)
      requires argv != []
      modifies this`stderr
      ensures stderr == if opterr then old(stderr) + (argv[0] + message + [c, '\n']) else old(stderr)
    {
      if opterr {
        stderr := stderr + argv[0];
        stderr := stderr + message;
        stderr := stderr + [c, '\n'];
      }
    }

    /** att_getopt from the point where it looks at a letter. */
    method Letter() returns (r: char)
      requires Valid() && Inside(argv, optind, sp)
      modifies this`optind, this`sp, this`optopt, this`optarg, this`stderr
      ensures var (item, next) := ItemAt(argv, opts, old(optind), old(sp));
              && Position(optind, sp) == next
              && ReturnsItem(item, r, optopt, optarg, old(optarg))
              && stderr == (if opterr then old(stderr) + Complaint(argv, item) else old(stderr))
              && (opterr && item.Unknown? ==>
                  stderr == old(stderr) + (argv[0] + ": illegal option -- " + [item.c, '\n']))
              && (opterr && item.MissingValue? ==>
                    stderr == old(stderr) + (argv[0] + ": option requires an argument -- " + [item.c, '\n']))
      ensures Valid()
    {
      Ends(argv, optind);
      ghost var was := stderr;
      var c := At(argv[optind], sp);
      optopt := c;
      var cp := Find(opts, c);
      if c == ':' || cp == |opts| {
        Err(": illegal option -- ", c);
        sp := sp + 1;
        if At(argv[optind], sp) == NUL {
          optind := optind + 1;
          sp := 1;
        }
        return '?';
      }
      assert was + "" == was;
      cp := cp + 1;
      if At(opts, cp) == ':' {
        if At(argv[optind], sp + 1) != NUL {
          optarg := Some(argv[optind][sp + 1..]);
          optind := optind + 1;
        } else {
          optind := optind + 1;
          if optind >= |argv| {
            Err(": option requires an argument -- ", c);
            sp := 1;
            return '?';
          } else {
            optarg := Some(argv[optind]);
            optind := optind + 1;
          }
        }
        sp := 1;
      } else {
        sp := sp + 1;
        if At(argv[optind], sp) == NUL {
          sp := 1;
          optind := optind + 1;
        }
        optarg := None;
      }
      r := c;
    }

    /** att_getopt */
    method Next() returns (r: Returned, ghost item: Option<Item>)
      requires Valid()
      modifies this`optind, this`sp, this`optopt, this`optarg, this`stderr
      ensures Valid()
      ensures r == EOF <==> item == None
      ensures r == EOF <==>
              && old(sp) == 1
              && (old(optind) >= |argv| || argv[old(optind)] == "" || argv[old(optind)][0] != '-'
                  || argv[old(optind)] == "-" || argv[old(optind)] == "--")
      ensures r == EOF ==> optind == old(optind) + if old(optind) < |argv| && argv[old(optind)] == "--" then 1 else 0
      ensures r == EOF ==> sp == 1 && optopt == old(optopt) && optarg == old(optarg) && stderr == old(stderr)
                           && Decode(argv, opts, old(optind), old(sp)) == ([], optind)
      ensures r != EOF ==> old(optind) < optind || (old(optind) == optind && old(sp) < sp)
      ensures r != EOF ==> old(optind) < |argv|
      ensures r != EOF ==>
                var (items, end) := Decode(argv, opts, optind, sp);
                Decode(argv, opts, old(optind), old(sp)) == ([item.value] + items, end)
      ensures r != EOF ==> ReturnsItem(item.value, r.c, optopt, optarg, old(optarg))
      ensures r != EOF ==> stderr == if opterr then old(stderr) + Complaint(argv, item.value) else old(stderr)
    {
      hide KindOf, Complaint, AreCStrings;
      StopsIs(argv, optind);
      if sp == 1 {
        if optind >= |argv| || At(argv[optind], 0) != '-' || At(argv[optind], 1) == NUL {
          return EOF, None;
        } else if argv[optind] == "--" {
          optind := optind + 1;
          return EOF, None;
        }
      }
      OnLetter(argv, optind, sp);
      item := Some(ItemAt(argv, opts, optind, sp).0);
      var c := Letter();
      r := Character(c);
    }

    /** The caller's loop: until EOF. */
    method All() returns (ghost items: seq<Item>, returned: seq<(char, Option<string>)>)
      requires Valid()
      modifies this`optind, this`sp, this`optopt, this`optarg, this`stderr
      ensures Valid() && sp == 1
      ensures (items, optind) == Decode(argv, opts, old(optind), old(sp))
      ensures stderr == if opterr then old(stderr) + Complaints(argv, items) else old(stderr)
      ensures |returned| == |items|
      ensures forall k | 0 <= k < |items| :: Returns(items[k], returned[k])
    {
      hide Decode, Complaint, Complaints, AreCStrings, Stops;
      ghost var was := stderr;
      items, returned := [], [];
      ghost var whole := Decode(argv, opts, optind, sp);
      NoComplaint(argv);
      assert [] + whole.0 == whole.0 && was + "" == was;
      while true
        invariant Valid()
        invariant whole.0 == items + Decode(argv, opts, optind, sp).0
        invariant whole.1 == Decode(argv, opts, optind, sp).1
        invariant |returned| == |items|
        invariant forall k | 0 <= k < |items| :: Returns(items[k], returned[k])
        invariant stderr == if opterr then was + Complaints(argv, items) else was
        decreases |argv| - optind, if optind < |argv| then |argv[optind]| - sp else 0
      {
        var r, item := Next();
        if r == EOF {
          assert items + [] == items;
          return;
        }
        ComplainMore(argv, was, items, item.value);
        assert items + ([item.value] + Decode(argv, opts, optind, sp).0) ==
               items + [item.value] + Decode(argv, opts, optind, sp).0;
        items, returned := items + [item.value], returned + [(r.c, optarg)];
      }
    }
  }

  lemma OnLetter(argv: seq<string>, i: nat, sp: nat)
    requires sp == 1 || Inside(argv, i, sp)
    requires sp == 1 ==> !Stops(argv, i)
    ensures Inside(argv, i, sp)
  {
  }

  lemma NoComplaint(argv: seq<string>)
    ensures Complaints(argv, []) == ""
  {
  }

  lemma ComplainMore(argv: seq<string>, was: string, items: seq<Item>, item: Item)
    ensures was + Complaints(argv, items) + Complaint(argv, item) == was + Complaints(argv, items + [item])
  {
    hide Complaint;
    assert (items + [item])[..|items|] == items;
  }

  /** The character returned and the two variables set for an item. */
  ghost predicate ReturnsItem(item: Item, r: char, optopt: char, optarg: Option<string>, before: Option<string>) {
    optopt == item.c &&
    match item
    case Plain(c) => r == c && optarg == None
    case WithValue(c, value) => r == c && optarg == Some(value)
    case Unknown(c) => r == '?' && optarg == before
    case MissingValue(c) => r == '?' && optarg == before
  }

  /** What the caller sees of an item. */
  ghost predicate Returns(item: Item, seen: (char, Option<string>)) {
    match item
    case Plain(c) => seen == (c, None)
    case WithValue(c, value) => seen == (c, Some(value))
    case Unknown(_) => seen.0 == '?'
    case MissingValue(_) => seen.0 == '?'
  }
}
