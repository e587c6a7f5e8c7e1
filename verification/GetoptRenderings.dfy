/**
 * Command lines as renderings of option lists, legal or not: att_getopt decodes every rendering letter by letter, and
 * every command line is one.
 */
module GetoptRenderings {
  import opened Prelude
  import opened Getopt

  // ---------------------------------------------------------------------------
  // Renderings
  // ---------------------------------------------------------------------------

  /**
   * How a word of options ends: with a letter that takes no argument, or with one whose argument is attached, or is
   * the next word, or is missing.
   */
  datatype Last = Bare | Attached(c: char, value: string) | Separate(c: char, value: string) | Missing(c: char)

  /** A group of letters behind one hyphen. */
  datatype Word = Word(flags: string, last: Last)

  function Tail(last: Last): string {
    match last
    case Bare => ""
    case Attached(c, value) => [c] + value
    case Separate(c, _) => [c]
    case Missing(c) => [c]
  }

  function Text(w: Word): string {
    "-" + (w.flags + Tail(w.last))
  }

  function Args(w: Word): seq<string> {
    if w.last.Separate? then [Text(w), w.last.value] else [Text(w)]
  }

  /** Each letter in its place: an illegal one is reported, and takes nothing else with it. */
  function Letters(opts: string, flags: string): seq<Item> {
    if flags == [] then []
    else [if KindOf(opts, flags[0]) == Flag then Plain(flags[0]) else Unknown(flags[0])] + Letters(opts, flags[1..])
  }

  function LastItem(last: Last): seq<Item> {
    match last
    case Bare => []
    case Missing(c) => [MissingValue(c)]
    case _ => [WithValue(last.c, last.value)]
  }

  function Items(opts: string, w: Word): seq<Item> {
    Letters(opts, w.flags) + LastItem(w.last)
  }

  /** Letter by letter, an option comes out as it is and anything else as unknown. */
  lemma {:induction false} LettersAt(opts: string, flags: string, k: nat)
    requires k < |flags| && KindOf(opts, flags[k]) != WithArgument
    ensures |Letters(opts, flags)| == |flags|
    ensures Letters(opts, flags)[k] ==
            if flags[k] != ':' && flags[k] in opts then Plain(flags[k]) else Unknown(flags[k])
    decreases |flags|
  {
    KindIs(opts, flags[k]);
    hide KindOf;
    if k > 0 {
      LettersAt(opts, flags[1..], k - 1);
    } else if |flags| > 1 {
      LettersLength(opts, flags[1..]);
    }
  }

  lemma {:induction false} LettersLength(opts: string, flags: string)
    ensures |Letters(opts, flags)| == |flags|
  {
    if flags != [] {
      LettersLength(opts, flags[1..]);
    }
  }

  /** The letters in front take no argument, the last one does, and an attached argument is not empty. */
  ghost predicate Shape(opts: string, flags: string, last: Last) {
    && (forall f | f in flags :: KindOf(opts, f) != WithArgument)
    && (last == Bare ==> flags != [])
    && (last != Bare ==> KindOf(opts, last.c) == WithArgument)
    && (last.Attached? ==> last.value != [])
  }

  /** No word is the terminator. */
  ghost predicate WellFormed(opts: string, w: Word) {
    Shape(opts, w.flags, w.last) && Text(w) != "--" && (w.flags + Tail(w.last))[..1] != [NUL]
  }

  /** An argument is missing only at the end of everything. */
  ghost predicate AllWellFormed(opts: string, ws: seq<Word>, tail: seq<string>) {
    && (forall w | w in ws :: WellFormed(opts, w))
    && (forall k | 0 <= k < |ws| && ws[k].last.Missing? :: k == |ws| - 1 && tail == [])
  }

  function Line(ws: seq<Word>): seq<string> {
    if ws == [] then [] else Args(ws[0]) + Line(ws[1..])
  }

  function AllItems(opts: string, ws: seq<Word>): seq<Item> {
    if ws == [] then [] else Items(opts, ws[0]) + AllItems(opts, ws[1..])
  }

  // ---------------------------------------------------------------------------
  // Every rendering is decoded
  // ---------------------------------------------------------------------------

  /** The rest of an argument list is the rest of a word, its argument if that is separate, and more. */
  ghost predicate Remains(argv: seq<string>, i: nat, sp: nat, flags: string, last: Last) {
    && Inside(argv, i, sp) && (sp == 1 ==> !Stops(argv, i))
    && argv[i][sp..] == flags + Tail(last)
    && (last.Separate? ==> i + 1 < |argv| && argv[i + 1] == last.value)
    && (last.Missing? ==> i + 1 >= |argv|)
  }

  function Width(last: Last): nat {
    if last.Separate? then 2 else 1
  }

  lemma FlagStep(argv: seq<string>, opts: string, i: nat, sp: nat, flags: string, last: Last)
    requires Remains(argv, i, sp, flags, last) && Shape(opts, flags, last) && flags != []
    ensures ItemAt(argv, opts, i, sp) == (Letters(opts, flags)[0], Beyond(argv, i, sp))
    ensures sp + 1 < |argv[i]| <==> flags[1..] + Tail(last) != []
    ensures sp + 1 < |argv[i]| ==> Remains(argv, i, sp + 1, flags[1..], last) && Shape(opts, flags[1..], last)
  {
    hide KindOf, Stops;
    assert flags[0] in flags;
    FirstFlag(flags, Tail(last));
    TailStep(argv[i], sp, flags[0], flags[1..] + Tail(last));
    assert forall f | f in flags[1..] :: f in flags;
  }

  lemma FirstFlag(flags: string, more: string)
    requires flags != []
    ensures flags + more == [flags[0]] + (flags[1..] + more)
  {
  }

  lemma LastStep(argv: seq<string>, opts: string, i: nat, sp: nat, last: Last)
    requires Remains(argv, i, sp, [], last) && Shape(opts, [], last)
    ensures last != Bare && ItemAt(argv, opts, i, sp) == (LastItem(last)[0], Position(i + Width(last), 1))
  {
    hide KindOf, Stops;
    var value := if last.Attached? then last.value else [];
    assert [] + Tail(last) == [last.c] + value;
    TailStep(argv[i], sp, last.c, value);
  }

  lemma TailStep(word: string, sp: nat, c: char, more: string)
    requires sp < |word| && word[sp..] == [c] + more
    ensures word[sp] == c && word[sp + 1..] == more && (sp + 1 < |word| <==> more != [])
  {
    assert word[sp] == word[sp..][0];
    assert word[sp + 1..] == word[sp..][1..];
  }

  lemma DecodeStep(argv: seq<string>, opts: string, i: nat, sp: nat)
    requires Inside(argv, i, sp) && (sp == 1 ==> !Stops(argv, i))
    ensures var (item, next) := ItemAt(argv, opts, i, sp);
            Decode(argv, opts, i, sp).0 == [item] + Decode(argv, opts, next.optind, next.sp).0
            && Decode(argv, opts, i, sp).1 == Decode(argv, opts, next.optind, next.sp).1
  {
  }

  lemma {:induction false} DecodesRestOfWord(argv: seq<string>, opts: string, i: nat, sp: nat, flags: string,
                                             last: Last)
    requires Remains(argv, i, sp, flags, last) && Shape(opts, flags, last)
    ensures Decode(argv, opts, i, sp).0 ==
            Letters(opts, flags) + LastItem(last) + Decode(argv, opts, i + Width(last), 1).0
    ensures Decode(argv, opts, i, sp).1 == Decode(argv, opts, i + Width(last), 1).1
    decreases |flags|
  {
    hide *;
    if flags == [] {
      LastDecodes(argv, opts, i, sp, last);
    } else {
      var more := Decode(argv, opts, i + Width(last), 1).0;
      FlagDecodes(argv, opts, i, sp, flags, last);
      LettersStep(opts, flags, LastItem(last), more);
      if flags[1..] + Tail(last) != [] {
        DecodesRestOfWord(argv, opts, i, sp + 1, flags[1..], last);
      } else {
        NoLast(last);
      }
    }
  }

  lemma LastDecodes(argv: seq<string>, opts: string, i: nat, sp: nat, last: Last)
    requires Remains(argv, i, sp, [], last) && Shape(opts, [], last)
    ensures Decode(argv, opts, i, sp).0 == Letters(opts, []) + LastItem(last) + Decode(argv, opts, i + Width(last), 1).0
    ensures Decode(argv, opts, i, sp).1 == Decode(argv, opts, i + Width(last), 1).1
  {
    hide Decode, ItemAt, KindOf, Stops, Tail;
    DecodeStep(argv, opts, i, sp);
    LastStep(argv, opts, i, sp, last);
  }

  lemma FlagDecodes(argv: seq<string>, opts: string, i: nat, sp: nat, flags: string, last: Last)
    requires Remains(argv, i, sp, flags, last) && Shape(opts, flags, last) && flags != []
    ensures var next := if flags[1..] + Tail(last) != [] then Position(i, sp + 1) else Position(i + Width(last), 1);
            && Decode(argv, opts, i, sp).0 == [Letters(opts, flags)[0]] + Decode(argv, opts, next.optind, next.sp).0
            && Decode(argv, opts, i, sp).1 == Decode(argv, opts, next.optind, next.sp).1
    ensures flags[1..] + Tail(last) != [] ==>
            Remains(argv, i, sp + 1, flags[1..], last) && Shape(opts, flags[1..], last)
    ensures flags[1..] + Tail(last) == [] ==> flags[1..] == [] && last == Bare
  {
    hide Decode, ItemAt, KindOf, Stops;
    DecodeStep(argv, opts, i, sp);
    FlagStep(argv, opts, i, sp, flags, last);
  }

  lemma LettersStep(opts: string, flags: string, last: seq<Item>, more: seq<Item>)
    requires flags != []
    ensures Letters(opts, flags) + last + more == [Letters(opts, flags)[0]] + (Letters(opts, flags[1..]) + last + more)
    ensures Letters(opts, []) == []
  {
    Regroup([Letters(opts, flags)[0]], Letters(opts, flags[1..]), last, more);
  }

  lemma NoLast(last: Last)
    ensures last == Bare ==> LastItem(last) == []
  {
  }

  lemma Regroup<T>(a: seq<T>, b: seq<T>, c: seq<T>, d: seq<T>)
    ensures a + b + c + d == a + (b + c + d)
  {
  }

  lemma WordRemains(argv: seq<string>, opts: string, i: nat, w: Word)
    requires WellFormed(opts, w) && i + |Args(w)| <= |argv| && argv[i..i + |Args(w)|] == Args(w)
    requires w.last.Missing? ==> i + 1 >= |argv|
    ensures !Stops(argv, i) && Remains(argv, i, 1, w.flags, w.last) && |Args(w)| == Width(w.last)
  {
    hide KindOf;
    assert argv[i] == argv[i..i + |Args(w)|][0] == Text(w);
    assert w.last.Separate? ==> argv[i + 1] == argv[i..i + |Args(w)|][1];
    assert Text(w)[1..] == w.flags + Tail(w.last) != [];
    assert (w.flags + Tail(w.last))[..1] == [Text(w)[1]];
  }

  /** A rendering of options, then operands or the terminator, decodes to those options. */
  lemma {:induction false} DecodesRendering(argv: seq<string>, opts: string, i: nat, ws: seq<Word>, tail: seq<string>)
    requires AllWellFormed(opts, ws, tail)
    requires i <= |argv| && argv[i..] == Line(ws) + tail && Stops(tail, 0)
    ensures Decode(argv, opts, i, 1).0 == AllItems(opts, ws)
    ensures Decode(argv, opts, i, 1).1 == i + |Line(ws)| + if tail != [] && tail[0] == "--" then 1 else 0
    decreases |ws|
  {
    hide *;
    if ws == [] {
      Nothing(opts, tail);
      DecodesEnd(argv, opts, i, tail);
    } else {
      Unfold(opts, ws, tail);
      LineSplits(argv, i, ws[0], Line(ws[1..]) + tail, ws, tail);
      OneWord(ws[0]);
      WordDecodes(argv, opts, i, ws[0]);
      DecodesRendering(argv, opts, i + |Args(ws[0])|, ws[1..], tail);
    }
  }

  lemma Nothing(opts: string, tail: seq<string>)
    ensures Line([]) + tail == tail && Line([]) == [] && AllItems(opts, []) == []
  {
  }

  lemma DecodesEnd(argv: seq<string>, opts: string, i: nat, tail: seq<string>)
    requires i <= |argv| && argv[i..] == tail && Stops(tail, 0)
    ensures Decode(argv, opts, i, 1) == ([], i + if tail != [] && tail[0] == "--" then 1 else 0)
  {
    assert tail != [] ==> argv[i] == tail[0];
  }

  lemma Unfold(opts: string, ws: seq<Word>, tail: seq<string>)
    requires ws != [] && AllWellFormed(opts, ws, tail)
    ensures WellFormed(opts, ws[0]) && AllWellFormed(opts, ws[1..], tail)
    ensures ws[0].last.Missing? ==> Line(ws[1..]) + tail == []
    ensures Line(ws) == Args(ws[0]) + Line(ws[1..])
    ensures AllItems(opts, ws) == Items(opts, ws[0]) + AllItems(opts, ws[1..])
  {
    assert ws[0] in ws;
    forall x | x in ws[1..] ensures x in ws { }
  }

  lemma OneWord(w: Word)
    ensures w.last.Missing? ==> |Args(w)| == 1
  {
  }

  lemma WordDecodes(argv: seq<string>, opts: string, i: nat, w: Word)
    requires WellFormed(opts, w) && i + |Args(w)| <= |argv| && argv[i..i + |Args(w)|] == Args(w)
    requires w.last.Missing? ==> i + 1 >= |argv|
    ensures Decode(argv, opts, i, 1).0 == Items(opts, w) + Decode(argv, opts, i + |Args(w)|, 1).0
    ensures Decode(argv, opts, i, 1).1 == Decode(argv, opts, i + |Args(w)|, 1).1
  {
    hide Decode, Shape, Text, Args, Remains;
    WordRemains(argv, opts, i, w);
    DecodesRestOfWord(argv, opts, i, 1, w.flags, w.last);
  }

  lemma LineSplits(argv: seq<string>, i: nat, w: Word, rest: seq<string>, ws: seq<Word>, tail: seq<string>)
    requires i <= |argv| && ws != [] && w == ws[0] && rest == Line(ws[1..]) + tail && argv[i..] == Line(ws) + tail
    ensures i + |Args(w)| <= |argv| && argv[i..i + |Args(w)|] == Args(w) && argv[i + |Args(w)|..] == rest
  {
    hide Args;
    assert Line(ws) == Args(w) + Line(ws[1..]);
    hide *;
    Associates(Args(w), Line(ws[1..]), tail);
    SplitAt(argv, i, Args(w), rest);
  }

  lemma Associates<T>(a: seq<T>, b: seq<T>, c: seq<T>)
    ensures a + b + c == a + (b + c)
  {
  }

  lemma SplitAt<T>(s: seq<T>, i: nat, a: seq<T>, b: seq<T>)
    requires i <= |s| && s[i..] == a + b
    ensures i + |a| <= |s| && s[i..i + |a|] == a && s[i + |a|..] == b
  {
    assert s[i..][..|a|] == s[i..i + |a|];
    assert s[i..][|a|..] == s[i + |a|..];
  }

  // ---------------------------------------------------------------------------
  // Every command line is a rendering
  // ---------------------------------------------------------------------------

  /** From a position on, a word has the shape of the end of a word of a rendering. */
  lemma {:induction false} RestOfWordExplained(argv: seq<string>, opts: string, i: nat, sp: nat)
    returns (flags: string, last: Last)
    requires Inside(argv, i, sp) && (sp == 1 ==> !Stops(argv, i))
    ensures Remains(argv, i, sp, flags, last) && Shape(opts, flags, last)
    decreases |argv[i]| - sp
  {
    hide Find, KindOf;
    var word, c := argv[i], argv[i][sp];
    assert word[sp..] == [c] + word[sp + 1..];
    if KindOf(opts, c) != WithArgument {
      if sp + 1 < |word| {
        hide Stops;
        flags, last := RestOfWordExplained(argv, opts, i, sp + 1);
        LetterBefore(argv, opts, i, sp, flags, last);
        flags := [c] + flags;
      } else {
        flags, last := [c], Bare;
      }
    } else {
      flags := [];
      last := if sp + 1 < |word| then Attached(c, word[sp + 1..])
              else if i + 1 >= |argv| then Missing(c)
              else Separate(c, argv[i + 1]);
    }
  }

  lemma LetterBefore(argv: seq<string>, opts: string, i: nat, sp: nat, flags: string, last: Last)
    requires Inside(argv, i, sp) && (sp == 1 ==> !Stops(argv, i)) && KindOf(opts, argv[i][sp]) != WithArgument
    requires Remains(argv, i, sp + 1, flags, last) && Shape(opts, flags, last)
    ensures Remains(argv, i, sp, [argv[i][sp]] + flags, last) && Shape(opts, [argv[i][sp]] + flags, last)
  {
    var c := argv[i][sp];
    assert argv[i][sp..] == [c] + argv[i][sp + 1..];
    assert [c] + (flags + Tail(last)) == [c] + flags + Tail(last);
    forall f | f in [c] + flags
      ensures KindOf(opts, f) != WithArgument
    {
      assert f == c || f in flags;
    }
  }

  /** Whatever the arguments are, legal or not, they are words and then operands or the terminator. */
  lemma {:induction false} EveryLineIsRendering(argv: seq<string>, opts: string, i: nat)
    returns (ws: seq<Word>, tail: seq<string>)
    requires i <= |argv|
    ensures AllWellFormed(opts, ws, tail) && Stops(tail, 0) && argv[i..] == Line(ws) + tail
    ensures Decode(argv, opts, i, 1).0 == AllItems(opts, ws)
    ensures Decode(argv, opts, i, 1).1 == i + |Line(ws)| + if tail != [] && tail[0] == "--" then 1 else 0
    decreases |argv| - i
  {
    if Stops(argv, i) {
      ws, tail := [], argv[i..];
      assert i < |argv| ==> argv[i] == tail[0];
    } else {
      assert Inside(argv, i, 1);
      var flags, last := RestOfWordExplained(argv, opts, i, 1);
      var w := Word(flags, last);
      WordExplained(argv, opts, i, w);
      var j := i + |Args(w)|;
      ws, tail := EveryLineIsRendering(argv, opts, j);
      LineOfMore(argv, i, w, ws, tail);
      WordInFront(argv, opts, i, w, ws, tail);
      ws := [w] + ws;
    }
    hide *;
    DecodesRendering(argv, opts, i, ws, tail);
  }

  lemma WordInFront(argv: seq<string>, opts: string, i: nat, w: Word, ws: seq<Word>, tail: seq<string>)
    requires WellFormed(opts, w) && AllWellFormed(opts, ws, tail) && i + |Args(w)| <= |argv|
    requires argv[i + |Args(w)|..] == Line(ws) + tail
    requires w.last.Missing? ==> i + 1 >= |argv|
    ensures AllWellFormed(opts, [w] + ws, tail)
  {
    if w.last.Missing? {
      assert Line(ws) + tail == [];
      assert ws == [] && tail == [];
    }
    hide WellFormed;
    var all := [w] + ws;
    assert forall x | x in all :: x == w || x in ws;
    forall k | 0 <= k < |all| && all[k].last.Missing?
      ensures k == |all| - 1 && tail == []
    {
      assert k > 0 ==> all[k] == ws[k - 1];
    }
  }

  lemma WordExplained(argv: seq<string>, opts: string, i: nat, w: Word)
    requires Remains(argv, i, 1, w.flags, w.last) && Shape(opts, w.flags, w.last)
    ensures WellFormed(opts, w) && |Args(w)| == Width(w.last)
    ensures i + |Args(w)| <= |argv| && argv[i..i + |Args(w)|] == Args(w)
    ensures w.last.Missing? ==> i + 1 >= |argv|
  {
    hide Shape;
    assert argv[i] == [argv[i][0]] + argv[i][1..];
    assert argv[i] == Text(w);
  }

  lemma LineOfMore(argv: seq<string>, i: nat, w: Word, ws: seq<Word>, tail: seq<string>)
    requires i + |Args(w)| <= |argv| && argv[i..i + |Args(w)|] == Args(w)
    requires argv[i + |Args(w)|..] == Line(ws) + tail
    ensures argv[i..] == Line([w] + ws) + tail
  {
    LineCons(w, ws);
    hide *;
    Rejoin(argv, i, Args(w), Line(ws), tail);
  }

  lemma LineCons(w: Word, ws: seq<Word>)
    ensures Line([w] + ws) == Args(w) + Line(ws)
  {
    assert ([w] + ws)[1..] == ws;
  }

  lemma Rejoin<T>(s: seq<T>, i: nat, a: seq<T>, b: seq<T>, c: seq<T>)
    requires i + |a| <= |s| && s[i..i + |a|] == a && s[i + |a|..] == b + c
    ensures s[i..] == a + b + c
  {
    assert s[i..] == s[i..i + |a|] + s[i + |a|..];
  }

  // ---------------------------------------------------------------------------
  // What is decoded without error
  // ---------------------------------------------------------------------------

  ghost predicate Clean(items: seq<Item>) {
    forall item | item in items :: item.Plain? || item.WithValue?
  }

  /** Every letter is legal and no argument is missing. */
  ghost predicate Faultless(opts: string, w: Word) {
    !w.last.Missing? && forall f | f in w.flags :: KindOf(opts, f) == Flag
  }

  lemma CleanBoth(a: seq<Item>, b: seq<Item>)
    ensures Clean(a + b) <==> Clean(a) && Clean(b)
  {
    assert forall x | x in a :: x in a + b;
    assert forall x | x in b :: x in a + b;
  }

  lemma {:induction false} LettersClean(opts: string, flags: string)
    requires forall f | f in flags :: KindOf(opts, f) != WithArgument
    ensures Clean(Letters(opts, flags)) <==> forall f | f in flags :: KindOf(opts, f) == Flag
  {
    hide KindOf;
    if flags != [] {
      assert flags[0] in flags && forall f | f in flags[1..] :: f in flags;
      assert forall f | f in flags :: f == flags[0] || f in flags[1..];
      LettersClean(opts, flags[1..]);
      var first := Letters(opts, flags)[0];
      CleanBoth([first], Letters(opts, flags[1..]));
      assert Clean([first]) <==> first.Plain? by {
        assert first in [first];
      }
    }
  }

  lemma WordClean(opts: string, w: Word)
    requires WellFormed(opts, w)
    ensures Clean(Items(opts, w)) <==> Faultless(opts, w)
  {
    hide KindOf;
    LettersClean(opts, w.flags);
    CleanBoth(Letters(opts, w.flags), LastItem(w.last));
    if w.last.Missing? {
      assert LastItem(w.last)[0] in LastItem(w.last);
    }
  }

  /** A rendering decodes without error exactly when all its letters are legal and no argument is missing. */
  lemma {:induction false} CleanIff(opts: string, ws: seq<Word>)
    requires forall w | w in ws :: WellFormed(opts, w)
    ensures Clean(AllItems(opts, ws)) <==> forall w | w in ws :: Faultless(opts, w)
  {
    hide WellFormed, Faultless, Clean, Items;
    if ws == [] {
      NothingUnclean();
    } else {
      assert ws[0] in ws && forall w | w in ws[1..] :: w in ws;
      assert forall w | w in ws :: w == ws[0] || w in ws[1..];
      WordClean(opts, ws[0]);
      CleanIff(opts, ws[1..]);
      CleanBoth(Items(opts, ws[0]), AllItems(opts, ws[1..]));
    }
  }

  lemma NothingUnclean()
    ensures Clean([])
  {
  }

  /** If no error is reported, what was decoded is a faultless rendering of the options reported. */
  lemma CleanIsRendering(argv: seq<string>, opts: string, i: nat) returns (ws: seq<Word>, tail: seq<string>)
    requires i <= |argv| && Clean(Decode(argv, opts, i, 1).0)
    ensures AllWellFormed(opts, ws, tail) && Stops(tail, 0) && argv[i..] == Line(ws) + tail
    ensures forall w | w in ws :: Faultless(opts, w)
    ensures Decode(argv, opts, i, 1).0 == AllItems(opts, ws)
  {
    hide Decode, Clean, WellFormed, Faultless, Stops;
    ws, tail := EveryLineIsRendering(argv, opts, i);
    CleanIff(opts, ws);
  }

  // ---------------------------------------------------------------------------
  // All renderings of one option list are equal
  // ---------------------------------------------------------------------------

  lemma DecodesLine(prog: string, opts: string, ws: seq<Word>, tail: seq<string>)
    requires AllWellFormed(opts, ws, tail) && Stops(tail, 0)
    ensures Decode([prog] + Line(ws) + tail, opts, 1, 1)
         == (AllItems(opts, ws), 1 + |Line(ws)| + if tail != [] && tail[0] == "--" then 1 else 0)
  {
    hide *;
    BehindFirst(prog, Line(ws), tail);
    DecodesRendering([prog] + Line(ws) + tail, opts, 1, ws, tail);
  }

  lemma BehindFirst<T>(x: T, a: seq<T>, b: seq<T>)
    ensures ([x] + a + b)[1..] == a + b
  {
  }

  /** Grouping flags, and attaching arguments, changes nothing. */
  lemma RenderingsAgree(prog: string, opts: string, vs: seq<Word>, ws: seq<Word>, tail: seq<string>)
    requires AllWellFormed(opts, vs, tail) && AllWellFormed(opts, ws, tail) && Stops(tail, 0)
    requires AllItems(opts, vs) == AllItems(opts, ws)
    ensures Decode([prog] + Line(vs) + tail, opts, 1, 1).0 == Decode([prog] + Line(ws) + tail, opts, 1, 1).0
  {
    hide *;
    DecodesLine(prog, opts, vs, tail);
    DecodesLine(prog, opts, ws, tail);
  }

  /** The scanner itself, run until EOF on a rendering: it complains of what is at fault and of nothing else. */
  method ScanRendering(prog: string, opts: string, ws: seq<Word>, tail: seq<string>)
    returns (returned: seq<(char, Option<string>)>, optind: nat, stderr: string)
    requires AllWellFormed(opts, ws, tail) && Stops(tail, 0)
    requires AreCStrings([prog] + Line(ws) + tail)
    ensures |returned| == |AllItems(opts, ws)|
    ensures forall k | 0 <= k < |returned| ::
              match AllItems(opts, ws)[k]
              case Plain(c) => returned[k] == (c, None)
              case WithValue(c, value) => returned[k] == (c, Some(value))
              case _ => returned[k].0 == '?'
    ensures optind == 1 + |Line(ws)| + if tail != [] && tail[0] == "--" then 1 else 0
    ensures stderr == Complaints([prog] + Line(ws) + tail, AllItems(opts, ws))
    ensures (forall w | w in ws :: Faultless(opts, w)) ==> stderr == ""
  {
    hide AllWellFormed, Stops, AreCStrings, Line, AllItems, Complaints, Faultless;
    var argv := [prog] + Line(ws) + tail;
    var scanner := new Scanner(argv, opts);
    ghost var items;
    items, returned := scanner.All();
    DecodesLine(prog, opts, ws, tail);
    if forall w | w in ws :: Faultless(opts, w) {
      WordsWellFormed(opts, ws, tail);
      CleanIff(opts, ws);
      NoComplaints(argv, AllItems(opts, ws));
    }
    optind, stderr := scanner.optind, scanner.stderr;
    assert "" + Complaints(argv, items) == Complaints(argv, items);
  }

  lemma WordsWellFormed(opts: string, ws: seq<Word>, tail: seq<string>)
    requires AllWellFormed(opts, ws, tail)
    ensures forall w | w in ws :: WellFormed(opts, w)
  {
  }

  lemma {:induction false} NoComplaints(argv: seq<string>, items: seq<Item>)
    requires Clean(items)
    ensures Complaints(argv, items) == ""
  {
    if items != [] {
      var front, item := items[..|items| - 1], items[|items| - 1];
      assert item in items && forall x | x in front :: x in items;
      NoComplaints(argv, front);
    }
  }
}
