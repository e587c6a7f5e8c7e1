/** Tone generation of hw1/src/dtmf.c without noise: from lines of text to a file of samples. */
module Dtmf {
  // ---------------------------------------------------------------------------
  // Symbols
  // ---------------------------------------------------------------------------

  /** getCurFreqColRow: the row and the column frequency of a symbol. */
  function Frequencies(symbol: char): (real, real) {
    match symbol
    case '1' => (697.0, 1209.0)
    case '2' => (697.0, 1336.0)
    case '3' => (697.0, 1477.0)
    case 'A' => (697.0, 1633.0)
    case '4' => (770.0, 1209.0)
    case '5' => (770.0, 1336.0)
    case '6' => (770.0, 1477.0)
    case 'B' => (770.0, 1633.0)
    case '7' => (852.0, 1209.0)
    case '8' => (852.0, 1336.0)
    case '9' => (852.0, 1477.0)
    case 'C' => (852.0, 1633.0)
    case '*' => (941.0, 1209.0)
    case '0' => (941.0, 1336.0)
    case '#' => (941.0, 1477.0)
    case 'D' => (941.0, 1633.0)
    case _ => (0.0, 0.0)
  }

  /** The tables of hw1/include/dtmf_static.h. */
  const FREQUENCIES: seq<real> := [697.0, 770.0, 852.0, 941.0, 1209.0, 1336.0, 1477.0, 1633.0]
  const SYMBOLS: seq<string> := ["123A", "456B", "789C", "*0#D"]

  /** The switch and the tables name the same frequencies. */
  lemma SwitchIsTable(row: nat, col: nat)
    requires row < 4 && col < 4
    ensures |SYMBOLS[row]| == 4
    ensures Frequencies(SYMBOLS[row][col]) == (FREQUENCIES[row], FREQUENCIES[4 + col])
  {
    var s := SYMBOLS[row];
    assert row == 0 || row == 1 || row == 2 || row == 3;
    assert col == 0 || col == 1 || col == 2 || col == 3;
  }

  /** The keys of a telephone, row by row. */
  lemma KeypadIs(row: nat, col: nat)
    requires row < 4 && col < 4
    ensures Frequencies("123A456B789C*0#D"[4 * row + col]) ==
            ([697.0, 770.0, 852.0, 941.0][row], [1209.0, 1336.0, 1477.0, 1633.0][col])
  {
    assert row == 0 || row == 1 || row == 2 || row == 3;
    assert col == 0 || col == 1 || col == 2 || col == 3;
  }

  // ---------------------------------------------------------------------------
  // The timeline
  // ---------------------------------------------------------------------------

  datatype Event = Event(start: nat, end: nat, symbol: char)

  /** The sample of a row and a column frequency at an index. */
  type Tone = ((real, real), int) -> bv16

  predicate Holds(e: Event, i: int) {
    e.start <= i < e.end
  }

  /** The sample promised at an index: the tone of the event that holds there, or zero. */
  function SampleAt(events: seq<Event>, tone: Tone, i: int): bv16 {
    if events == [] then 0
    else if Holds(events[0], i) then tone(Frequencies(events[0].symbol), i)
    else SampleAt(events[1..], tone, i)
  }

  /** No event ends before it starts, or starts before the one before it ends. */
  ghost predicate Ordered(events: seq<Event>) {
    && (forall k | 0 <= k < |events| :: events[k].start <= events[k].end)
    && (forall k | 0 < k < |events| :: PreviousEnd(events, k) <= events[k].start)
  }

  function PreviousEnd(events: seq<Event>, k: nat): nat
    requires k <= |events|
  {
    if k == 0 then 0 else events[k - 1].end
  }

  ghost predicate AllEndBy(events: seq<Event>, n: int) {
    forall e | e in events :: e.end <= n
  }

  lemma {:induction false} SampleOfMore(events: seq<Event>, e: Event, tone: Tone, i: int)
    ensures !Holds(e, i) ==> SampleAt(events + [e], tone, i) == SampleAt(events, tone, i)
    ensures Holds(e, i) && AllEndBy(events, e.start) ==>
              SampleAt(events + [e], tone, i) == tone(Frequencies(e.symbol), i)
  {
    if events == [] {
      assert events + [e] == [e] && [e][1..] == [];
    } else {
      assert (events + [e])[1..] == events[1..] + [e];
      SampleOfMore(events[1..], e, tone, i);
      assert events[0] in events;
      assert forall x | x in events[1..] :: x in events;
    }
  }

  lemma {:induction false} SampleBeyond(events: seq<Event>, tone: Tone, n: int, i: int)
    requires AllEndBy(events, n) && n <= i
    ensures SampleAt(events, tone, i) == 0
  {
    if events != [] {
      assert events[0] in events;
      assert forall x | x in events[1..] :: x in events;
      SampleBeyond(events[1..], tone, n, i);
    }
  }

  /** In an ordered list no two events hold at one index, so the promise is the tone of the only one that does. */
  lemma {:induction false} SampleOfEvent(events: seq<Event>, tone: Tone, k: nat, i: int)
    requires Ordered(events) && k < |events| && Holds(events[k], i)
    ensures SampleAt(events, tone, i) == tone(Frequencies(events[k].symbol), i)
    ensures forall j | 0 <= j < |events| && Holds(events[j], i) :: j == k
  {
    forall j | 0 <= j < |events|
      ensures j < k ==> events[j].end <= events[k].start
      ensures k < j ==> events[k].end <= events[j].start
    {
      if j < k {
        OrderedApart(events, j, k);
      } else if k < j {
        OrderedApart(events, k, j);
      }
    }
    FirstHolding(events, tone, k, i);
  }

  /** Where no event holds there is silence. */
  lemma {:induction false} SampleOfNone(events: seq<Event>, tone: Tone, i: int)
    requires forall e | e in events :: !(e.start <= i < e.end)
    ensures SampleAt(events, tone, i) == 0
  {
    if events != [] {
      assert events[0] in events && forall e | e in events[1..] :: e in events;
      SampleOfNone(events[1..], tone, i);
    }
  }

  lemma {:induction false} OrderedApart(events: seq<Event>, j: nat, k: nat)
    requires Ordered(events) && j < k < |events|
    ensures events[j].end <= events[k].start
    decreases k
  {
    assert PreviousEnd(events, k) <= events[k].start;
    if j < k - 1 {
      OrderedApart(events, j, k - 1);
    }
  }

  /** Ordered events are those that end no sooner than they start, and before every later one starts. */
  lemma OrderedIff(events: seq<Event>)
    ensures Ordered(events) <==>
            && (forall k | 0 <= k < |events| :: events[k].start <= events[k].end)
            && (forall j, k | 0 <= j < k < |events| :: events[j].end <= events[k].start)
  {
    if Ordered(events) {
      forall j, k | 0 <= j < k < |events|
        ensures events[j].end <= events[k].start
      {
        OrderedApart(events, j, k);
      }
    }
  }

  lemma {:induction false} FirstHolding(events: seq<Event>, tone: Tone, k: nat, i: int)
    requires k < |events| && Holds(events[k], i) && forall j | 0 <= j < k :: !Holds(events[j], i)
    ensures SampleAt(events, tone, i) == tone(Frequencies(events[k].symbol), i)
    decreases k
  {
    if k > 0 {
      assert !Holds(events[0], i);
      FirstHolding(events[1..], tone, k - 1, i);
    }
  }
}
