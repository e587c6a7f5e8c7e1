/** dtmf_generate of hw1/src/dtmf.c: event lines in, an audio file out, and that file read back. */
module DtmfGenerate {
  import opened Prelude
  import opened Audio
  import opened Dtmf
  import Sio

  // ---------------------------------------------------------------------------
  // Event lines
  // ---------------------------------------------------------------------------

  predicate IsDigit(c: char) {
    '0' <= c <= '9'
  }

  /** The number of digits in front. */
  function DigitRun(s: string): (n: nat)
    ensures n <= |s| && (forall k | 0 <= k < n :: IsDigit(s[k])) && (n < |s| ==> !IsDigit(s[n]))
  {
    if s == [] || !IsDigit(s[0]) then 0 else 1 + DigitRun(s[1..])
  }

  /** The number that digits stand for. */
  function Decimal(s: string): nat {
    var v := Sio.Value(s, 10);
    if v.Some? then v.value else 0
  }

  lemma {:induction false} DecimalStep(s: string, k: nat)
    requires k < |s| && forall j | 0 <= j <= k :: IsDigit(s[j])
    ensures Decimal(s[..k + 1]) == 10 * Decimal(s[..k]) + (s[k] as int - 48)
    ensures Sio.Value(s[..k], 10).Some? && Sio.Value(s[..k + 1], 10).Some?
  {
    assert s[..k + 1][..k] == s[..k];
    if k > 0 {
      DecimalStep(s, k - 1);
    }
  }

  /** What get_txt_idx makes of a number, with ints that wrap round: it holds ten times the value before dividing. */
  function Misread(v: nat): int {
    Quotient(ToInt32(10 * v), 10)
  }

  /** It is the number itself exactly when ten times the number is an int. */
  lemma MisreadIff(v: nat)
    ensures Misread(v) == v <==> 10 * v < INT_LIMIT
  {
  }

  lemma Congruent(a: int, b: int)
    requires (a - b) % UINT_LIMIT == 0
    ensures ToInt32(a) == ToInt32(b)
  {
  }

  lemma WrapStep(v: int, d: int)
    ensures ToInt32(ToInt32(ToInt32(10 * v) + d) * 10) == ToInt32(10 * (10 * v + d))
  {
    var p := ToInt32(10 * v);
    var q := ToInt32(p + d);
    var m, n := (p - 10 * v) / UINT_LIMIT, (q - (p + d)) / UINT_LIMIT;
    assert p == 10 * v + m * UINT_LIMIT && q == p + d + n * UINT_LIMIT;
    hide ToInt32;
    assert q * 10 - 10 * (10 * v + d) == 10 * (m + n) * UINT_LIMIT;
    Congruent(q * 10, 10 * (10 * v + d));
  }

  /** get_txt_idx: the leading digits, and their value as far as an int can hold ten times that. */
  method GetTxtIdx(valPtr: string) returns (count: nat, currVal: int)
    ensures count == DigitRun(valPtr) && currVal == Misread(Decimal(valPtr[..count]))
  {
    hide Decimal, ToInt32;
    currVal, count := 0, 0;
    NoDigits(valPtr);
    while count < |valPtr| && IsDigit(valPtr[count])
      invariant count <= DigitRun(valPtr)
      invariant currVal == ToInt32(10 * Decimal(valPtr[..count]))
    {
      DecimalStep(valPtr, count);
      WrapStep(Decimal(valPtr[..count]), valPtr[count] as int - 48);
      currVal := ToInt32(currVal + (valPtr[count] as int - 48));
      currVal := ToInt32(currVal * 10);
      count := count + 1;
    }
    currVal := Quotient(currVal, 10);
  }

  lemma NoDigits(s: string)
    ensures Decimal(s[..0]) == 0 && ToInt32(0) == 0
  {
  }

  function Digits(n: nat): string {
    Sio.Text(n, 10)
  }

  /** An event as a line of text. */
  function LineOf(e: Event): string {
    Digits(e.start) + ("\t" + (Digits(e.end) + ("\t" + [e.symbol, '\n'])))
  }

  /** The start, the end and the symbol, with tabs between them. */
  lemma LineOfIs(e: Event)
    ensures LineOf(e) == Sio.Text(e.start, 10) + "\t" + Sio.Text(e.end, 10) + "\t" + [e.symbol] + "\n"
  {
    hide Sio.Text;
  }

  lemma {:induction false} DigitsAreDigits(n: nat)
    ensures forall k | 0 <= k < |Digits(n)| :: IsDigit(Digits(n)[k])
    ensures Decimal(Digits(n)) == n
  {
    Sio.ValueOfDigits(n, 10);
    Sio.QuoRem(n, 10);
    Sio.DigitsFirst(n, 10);
    var q, c := Quotient(n, 10), Sio.DigitChar(Sio.Rem(n, 10));
    assert IsDigit(c);
    hide Sio.Digits, Sio.Reversed, Quotient, Sio.Rem, Sio.DigitChar;
    if q > 0 {
      DigitsAreDigits(q);
      assert Digits(n) == Digits(q) + [c];
    } else {
      assert Digits(n) == [c];
    }
  }

  lemma {:induction false} RunOfDigits(d: string, rest: string)
    requires forall k | 0 <= k < |d| :: IsDigit(d[k])
    requires rest != [] && !IsDigit(rest[0])
    ensures DigitRun(d + rest) == |d| && (d + rest)[..|d|] == d && (d + rest)[|d| + 1..] == rest[1..]
  {
    if d == [] {
      assert d + rest == rest;
    } else {
      assert (d + rest)[1..] == d[1..] + rest;
      RunOfDigits(d[1..], rest);
    }
  }

  /** The indices are small enough for get_txt_idx. */
  predicate Small(e: Event) {
    10 * e.start < INT_LIMIT && 10 * e.end < INT_LIMIT
  }

  /** The head of the loop of dtmf_generate: one line taken apart. */
  method ParseLine(line: string, ghost e: Event) returns (start: int, end: int, symbol: char)
    requires line == LineOf(e)
    ensures start == Misread(e.start) && end == Misread(e.end) && symbol == e.symbol
    ensures Small(e) ==> start == e.start && end == e.end
  {
    MisreadIff(e.start);
    MisreadIff(e.end);
    ghost var tail := "\t" + [e.symbol, '\n'];
    ghost var rest := "\t" + (Digits(e.end) + tail);
    DigitsAreDigits(e.start);
    DigitsAreDigits(e.end);
    RunOfDigits(Digits(e.start), rest);
    RunOfDigits(Digits(e.end), tail);
    hide Digits, DigitRun, Decimal;
    assert rest[1..] == Digits(e.end) + tail;
    assert tail[1..] == [e.symbol, '\n'];
    var strLineBuf := line;
    var buffOffset;
    buffOffset, start := GetTxtIdx(strLineBuf);
    strLineBuf := strLineBuf[buffOffset + 1..];
    buffOffset, end := GetTxtIdx(strLineBuf);
    strLineBuf := strLineBuf[buffOffset + 1..];
    symbol := strLineBuf[0];
  }

  // ---------------------------------------------------------------------------
  // The samples
  // ---------------------------------------------------------------------------

  /** The size of the data as a 32-bit word, and that word as an int, halved: where the last padding ends. */
  function DataSize(length: nat): nat {
    length * 2 % UINT_LIMIT
  }

  function Stop(length: nat): int {
    (if DataSize(length) < INT_LIMIT then DataSize(length) else DataSize(length) - UINT_LIMIT) / 2
  }

  function NewHeader(length: nat): Header {
    Header(AUDIO_MAGIC, AUDIO_DATA_OFFSET, DataSize(length) as bv32, PCM16_ENCODING, AUDIO_FRAME_RATE, AUDIO_CHANNELS)
  }

  /** The 24 octets of the header of a new file: magic number, offset, size, encoding, rate and channels. */
  lemma NewHeaderOctets(length: nat)
    ensures var s := HeaderOctets(NewHeader(length));
            && s[..8] == [0x2e, 0x73, 0x6e, 0x64, 0, 0, 0, 24]
            && s[8..12] == Octets(DataSize(length) as bv32)
            && s[12..] == [0, 0, 0, 3, 0, 0, 0x1f, 0x40, 0, 0, 0, 1]
  {
    hide DataSize;
    var h := NewHeader(length);
    assert Octets(0x2e73_6e64) == [0x2e, 0x73, 0x6e, 0x64] && Octets(24) == [0, 0, 0, 24];
    assert Octets(3) == [0, 0, 0, 3] && Octets(8000) == [0, 0, 0x1f, 0x40] && Octets(1) == [0, 0, 0, 1];
    hide Octets;
    Six(Octets(h.magicNumber), Octets(h.dataOffset), Octets(h.dataSize),
        Octets(h.encoding), Octets(h.sampleRate), Octets(h.channels));
  }

  /** The samples from index 0 on are those promised. */
  ghost predicate IsTimeline(xs: seq<bv16>, events: seq<Event>, tone: Tone) {
    forall i | 0 <= i < |xs| :: xs[i] == SampleAt(events, tone, i)
  }

  function Zeros(n: int): seq<bv16> {
    seq(if n > 0 then n else 0, _ => 0)
  }

  function Tones(frequencies: (real, real), tone: Tone, start: nat, end: nat): seq<bv16> {
    seq(if start < end then end - start else 0, k => tone(frequencies, start + k))
  }

  /** The loop of dtmf_generate after an event and after the last one: silence. */
  method WriteZeros(out: Stream, start: int, end: int)
    modifies out`data
    ensures out.data == old(out.data) + Encode(Zeros(end - start))
  {
    hide SampleOctets, Encode;
    EncodeNothing();
    assert Zeros(0) == [];
    var i := start;
    while i < end
      invariant start <= i && (i <= end || i == start)
      invariant out.data == old(out.data) + Encode(Zeros(i - start))
    {
      EncodeAppend(Zeros(i - start), 0);
      assert Zeros(i + 1 - start) == Zeros(i - start) + [0];
      WriteSample(out, 0);
      i := i + 1;
    }
    assert Zeros(i - start) == Zeros(end - start);
  }

  lemma EncodeNothing()
    ensures Encode([]) == []
  {
  }

  method WriteTone(out: Stream, start: nat, end: nat, frequencies: (real, real), tone: Tone)
    modifies out`data
    ensures out.data == old(out.data) + Encode(Tones(frequencies, tone, start, end))
  {
    hide SampleOctets, Encode;
    EncodeNothing();
    assert Tones(frequencies, tone, start, start) == [];
    var i := start;
    while i < end
      invariant start <= i && (i <= end || i == start)
      invariant out.data == old(out.data) + Encode(Tones(frequencies, tone, start, i))
    {
      EncodeAppend(Tones(frequencies, tone, start, i), tone(frequencies, i));
      assert Tones(frequencies, tone, start, i + 1) == Tones(frequencies, tone, start, i) + [tone(frequencies, i)];
      WriteSample(out, tone(frequencies, i));
      i := i + 1;
    }
    assert Tones(frequencies, tone, start, i) == Tones(frequencies, tone, start, end);
  }

  lemma {:induction false} EncodeJoin(xs: seq<bv16>, ys: seq<bv16>)
    ensures Encode(xs + ys) == Encode(xs) + Encode(ys)
  {
    hide SampleOctets;
    if xs == [] {
      assert xs + ys == ys;
    } else {
      assert (xs + ys)[1..] == xs[1..] + ys;
      EncodeJoin(xs[1..], ys);
    }
  }

  /** How many samples a list of events and a length give. */
  function Count(events: seq<Event>, length: nat): nat {
    if events == [] then
      if Stop(length) + 1 > 0 then Stop(length) + 1 else 0
    else
      var last := events[|events| - 1].end;
      if Stop(length) > last then Stop(length) else last
  }

  /** All the events so far, up to the end of the last of them. */
  ghost predicate Written(xs: seq<bv16>, events: seq<Event>, tone: Tone) {
    && Ordered(events)
    && |xs| == PreviousEnd(events, |events|)
    && AllEndBy(events, |xs|)
    && IsTimeline(xs, events, tone)
  }

  lemma WrittenMore(xs: seq<bv16>, events: seq<Event>, e: Event, tone: Tone)
    requires Written(xs, events, tone) && |xs| <= e.start <= e.end
    ensures Written(xs + Zeros(e.start - |xs|) + Tones(Frequencies(e.symbol), tone, e.start, e.end), events + [e], tone)
  {
    hide SampleAt;
    var more := events + [e];
    var ys := xs + Zeros(e.start - |xs|) + Tones(Frequencies(e.symbol), tone, e.start, e.end);
    forall k | 0 < k < |more|
      ensures PreviousEnd(more, k) <= more[k].start
    {
      assert k < |events| ==> PreviousEnd(events, k) <= events[k].start;
    }
    assert |ys| == e.end;
    forall i | 0 <= i < |ys|
      ensures ys[i] == SampleAt(more, tone, i)
    {
      SampleOfMore(events, e, tone, i);
      assert AllEndBy(events, e.start);
      if |xs| <= i < e.start {
        SampleBeyond(events, tone, |xs|, i);
      }
    }
  }

  /** Silence after the last event. */
  lemma WrittenToTheEnd(xs: seq<bv16>, events: seq<Event>, tone: Tone, n: int)
    requires Written(xs, events, tone)
    ensures IsTimeline(xs + Zeros(n), events, tone)
  {
    forall i | 0 <= i < |xs + Zeros(n)|
      ensures (xs + Zeros(n))[i] == SampleAt(events, tone, i)
    {
      if |xs| <= i {
        SampleBeyond(events, tone, |xs|, i);
      }
    }
  }

  // ---------------------------------------------------------------------------
  // dtmf_generate
  // ---------------------------------------------------------------------------

  method Generate(lines: seq<string>, out: Stream, length: nat, tone: Tone, ghost events: seq<Event>)
    returns (r: int, ghost samples: seq<bv16>)
    requires length < UINT_LIMIT
    requires |lines| == |events| && forall k | 0 <= k < |lines| :: lines[k] == LineOf(events[k]) && Small(events[k])
    modifies out`data
    ensures r == if Ordered(events) then 0 else -1
    ensures r == 0 ==> out.data == old(out.data) + HeaderOctets(NewHeader(length)) + Encode(samples)
    ensures r == 0 ==> |samples| == Count(events, length) && IsTimeline(samples, events, tone)
  {
    hide Encode, HeaderOctets, LineOf, Written, SampleAt, Frequencies, NewHeader, Ordered, Misread, SampleOctets, Zeros;
    hide Tones, IsTimeline, Count;
    WriteHeader(out, NewHeader(length));
    ghost var base := out.data;
    var curDataSz := if DataSize(length) < INT_LIMIT then DataSize(length) else DataSize(length) - UINT_LIMIT;
    var prevStrIdx, prevEndIdx := -1, -1;
    var prevValChangeOnce := true;
    samples := [];
    EncodeNothing();
    NothingWritten(tone);
    assert events[..0] == [];
    for k := 0 to |lines|
      invariant k == 0 ==> prevStrIdx == -1 && prevEndIdx == -1 && prevValChangeOnce
      invariant k > 0 ==> prevStrIdx == events[k - 1].start && prevEndIdx == events[k - 1].end
      invariant out.data == base + Encode(samples)
      invariant Written(samples, events[..k], tone) && |samples| == PreviousEnd(events, k)
    {
      ghost var e := events[k];
      var curStrIdx, curEndIdx, curDTMF := ParseLine(lines[k], e);
      var frequencies := Frequencies(curDTMF);
      if curEndIdx < curStrIdx {
        NotOrdered(events, k);
        return -1, samples;
      }
      if prevStrIdx != -1 && prevEndIdx != -1 {
        if curStrIdx < prevEndIdx {
          NotOrdered(events, k);
          return -1, samples;
        }
      } else if prevValChangeOnce && curStrIdx > 0 {
        prevStrIdx := 0;
        prevEndIdx := 0;
        prevValChangeOnce := false;
      }
      EventWritten(base, samples, events, k, tone);
      if prevStrIdx != -1 && prevEndIdx != -1 {
        WriteZeros(out, prevEndIdx, curStrIdx);
      }
      WriteTone(out, curStrIdx, curEndIdx, frequencies, tone);
      samples := samples + Zeros(e.start - |samples|) + Tones(frequencies, tone, e.start, e.end);
      prevStrIdx := curStrIdx;
      prevEndIdx := curEndIdx;
    }
    assert events[..|lines|] == events;
    curDataSz := curDataSz / 2;
    Padded(base, samples, events, length, tone, prevEndIdx);
    WriteZeros(out, prevEndIdx, curDataSz);
    samples := samples + Zeros(curDataSz - prevEndIdx);
    r := 0;
  }

  /** The silence at the end. */
  lemma Padded(base: seq<bv8>, xs: seq<bv16>, events: seq<Event>, length: nat, tone: Tone, last: int)
    requires Written(xs, events, tone) && last == if events == [] then -1 else events[|events| - 1].end
    ensures var rest := Zeros(Stop(length) - last);
            && Ordered(events) && |xs + rest| == Count(events, length) && IsTimeline(xs + rest, events, tone)
            && base + Encode(xs) + Encode(rest) == base + Encode(xs + rest)
  {
    hide Encode, Stop, IsTimeline, SampleAt;
    WrittenToTheEnd(xs, events, tone, Stop(length) - last);
    EncodeJoin(xs, Zeros(Stop(length) - last));
  }

  /** One event more, after the silence before it. */
  lemma EventWritten(base: seq<bv8>, xs: seq<bv16>, events: seq<Event>, k: nat, tone: Tone)
    requires k < |events| && Written(xs, events[..k], tone) && |xs| == PreviousEnd(events, k)
    requires |xs| <= events[k].start <= events[k].end
    ensures var e := events[k];
            var gap, sound := Zeros(e.start - |xs|), Tones(Frequencies(e.symbol), tone, e.start, e.end);
            && Written(xs + gap + sound, events[..k + 1], tone) && |xs + gap + sound| == PreviousEnd(events, k + 1)
            && base + Encode(xs) + Encode(gap) + Encode(sound) == base + Encode(xs + gap + sound)
            && (e.start == |xs| ==> base + Encode(xs) + Encode(gap) == base + Encode(xs))
  {
    hide Written, Encode, Frequencies;
    var e := events[k];
    var gap, sound := Zeros(e.start - |xs|), Tones(Frequencies(e.symbol), tone, e.start, e.end);
    EncodeJoin(xs, gap);
    EncodeJoin(xs + gap, sound);
    EncodeNothing();
    WrittenMore(xs, events[..k], e, tone);
    assert events[..k + 1] == events[..k] + [e];
    WrittenLength(xs + gap + sound, events, k + 1, tone);
    assert e.start == |xs| ==> gap == [];
    hide Zeros, Tones;
  }

  lemma NothingWritten(tone: Tone)
    ensures Written([], [], tone)
  {
  }

  lemma NotOrdered(events: seq<Event>, k: nat)
    requires k < |events|
    requires events[k].end < events[k].start || (k > 0 && events[k].start < PreviousEnd(events, k))
    ensures !Ordered(events)
  {
  }

  lemma WrittenLength(xs: seq<bv16>, events: seq<Event>, k: nat, tone: Tone)
    requires k <= |events| && Written(xs, events[..k], tone)
    ensures |xs| == PreviousEnd(events, k) && Ordered(events[..k])
  {
  }

  // ---------------------------------------------------------------------------
  // How many samples, and reading them back
  // ---------------------------------------------------------------------------

  /**
   * The number of samples is the length asked for, exactly when there is an event, none runs past the length and
   * twice the length is an int.
   */
  lemma CountRightIff(events: seq<Event>, length: nat)
    requires length < UINT_LIMIT && forall e | e in events :: Small(e)
    ensures Count(events, length) == length <==>
            events != [] && events[|events| - 1].end <= length && length < 0x4000_0000
    ensures events == [] && length < 0x4000_0000 ==> Count(events, length) == length + 1
  {
    if events != [] {
      assert events[|events| - 1] in events;
    }
  }

  /** What was generated reads back: the header, and every sample. */
  method GenerateAndRead(lines: seq<string>, length: nat, tone: Tone, ghost events: seq<Event>)
    returns (h: Header, xs: seq<bv16>)
    requires length < 0x4000_0000 && events != [] && Ordered(events) && AllEndBy(events, length)
    requires |lines| == |events| && forall k | 0 <= k < |lines| :: lines[k] == LineOf(events[k]) && Small(events[k])
    ensures h == NewHeader(length)
    ensures |xs| == length && IsTimeline(xs, events, tone)
  {
    var file := new Stream([]);
    var r;
    ghost var samples;
    r, samples := Generate(lines, file, length, tone, events);
    forall e | e in events
      ensures Small(e)
    {
      var k :| 0 <= k < |events| && events[k] == e;
    }
    assert events[|events| - 1] in events;
    CountRightIff(events, length);
    var input := new Stream(file.data);
    hide Encode, HeaderOctets, LineOf, SampleAt, NewHeader, Ordered;
    HeaderRoundTrip([], NewHeader(length), Encode(samples));
    assert input.data == [] + HeaderOctets(NewHeader(length)) + Encode(samples);
    NewHeaderAcceptable(length);
    r, h := ReadHeader(input);
    xs := ReadSamples(input, samples);
  }

  lemma NewHeaderAcceptable(length: nat)
    ensures Acceptable(NewHeader(length)) && Annotation(NewHeader(length)) == 0
  {
  }
}
