/** The Sun audio files of hw1/src/audio.c: header words and 16-bit samples, most significant octet first. */
module Audio {
  import opened Prelude

  /** A file: what has been written to it, and how far it has been read. */
  class Stream {
    var data: seq<bv8>
    var pos: nat

    constructor (data: seq<bv8>)
      ensures this.data == data && pos == 0
    {
      this.data, pos := data, 0;
    }

    /** fprintf of one "%c" */
    method Put(octet: bv8)
      modifies this`data
      ensures data == old(data) + [octet]
    {
      data := data + [octet];
    }

    /** fgetc: the next octet, or EOF. */
    method Get() returns (c: int)
      modifies this`pos
      ensures old(pos) < |data| ==> c == data[old(pos)] as int && pos == old(pos) + 1
      ensures old(pos) >= |data| ==> c == -1 && pos == old(pos)
    {
      if pos < |data| {
        c := data[pos] as int;
        pos := pos + 1;
      } else {
        c := -1;
      }
    }
  }

  // ---------------------------------------------------------------------------
  // Words
  // ---------------------------------------------------------------------------

  function Octet(v: bv32): bv8 {
    (v & 0xFF) as bv8
  }

  function Octets(v: bv32): (s: seq<bv8>)
    ensures |s| == 4
  {
    [Octet(v >> 24), Octet(v >> 16), Octet(v >> 8), Octet(v)]
  }

  function Join(a: bv32, b: bv32, c: bv32, d: bv32): bv32 {
    (((((a << 8) ^ b) << 8) ^ c) << 8) ^ d
  }

  /** What fgetc yields at a position, as a 32-bit word: EOF is all ones. */
  function Fetched(data: seq<bv8>, pos: nat): bv32 {
    if pos < |data| then data[pos] as bv32 else 0xFFFF_FFFF
  }

  function WordAt(data: seq<bv8>, pos: nat): bv32 {
    Join(Fetched(data, pos), Fetched(data, pos + 1), Fetched(data, pos + 2), Fetched(data, pos + 3))
  }

  lemma JoinOctets(v: bv32)
    ensures Join(Octet(v >> 24) as bv32, Octet(v >> 16) as bv32, Octet(v >> 8) as bv32, Octet(v) as bv32) == v
  {
  }

  /** The octets of a word, the highest first. */
  lemma OctetsAre(v: bv32)
    ensures var o := Octets(v);
            v == ((o[0] as bv32) << 24) | ((o[1] as bv32) << 16) | ((o[2] as bv32) << 8) | o[3] as bv32
  {
  }

  /** Past the end of a file a word reads as the four times repeated EOF leaves it. */
  lemma NoWord(data: seq<bv8>, pos: nat)
    requires pos >= |data|
    ensures WordAt(data, pos) == 0x00FF_00FF
  {
  }

  /** A word reads back as what was written. */
  lemma WordRoundTrip(data: seq<bv8>, pos: nat, v: bv32)
    requires pos + 4 <= |data| && data[pos..pos + 4] == Octets(v)
    ensures WordAt(data, pos) == v
  {
    var w := data[pos..pos + 4];
    assert data[pos] == w[0] && data[pos + 1] == w[1] && data[pos + 2] == w[2] && data[pos + 3] == w[3];
    JoinOctets(v);
  }

  /** A shift by 8 times count bits. */
  function Shifted(v: bv32, count: nat): bv32
    requires count < 4
  {
    match count
    case 0 => v
    case 1 => v >> 8
    case 2 => v >> 16
    case _ => v >> 24
  }

  lemma ShiftedOctet(v: bv32, count: nat)
    requires count < 4
    ensures Octet(Shifted(v, count)) == Octets(v)[3 - count]
  {
    hide Octet;
  }

  /** helper_audio_write_header */
  method WriteWord(out: Stream, v: bv32)
    modifies out`data
    ensures out.data == old(out.data) + Octets(v)
  {
    hide Octet;
    var count := 3;
    while count > -1
      invariant -1 <= count <= 3
      invariant out.data == old(out.data) + Octets(v)[..3 - count]
    {
      ShiftedOctet(v, count);
      out.Put(Octet(Shifted(v, count)));
      assert Octets(v)[..3 - count + 1] == Octets(v)[..3 - count] + [Octets(v)[3 - count]];
      count := count - 1;
    }
    assert Octets(v)[..4] == Octets(v);
  }

  /** One octet of traverse_audio_file_header: fgetc's int as a 32-bit word. */
  method GetWordOctet(input: Stream) returns (c: bv32)
    modifies input`pos
    ensures c == Fetched(input.data, old(input.pos))
    ensures input.pos == if old(input.pos) < |input.data| then old(input.pos) + 1 else old(input.pos)
  {
    c := Fetched(input.data, input.pos);
    var _ := input.Get();
  }

  /** traverse_audio_file_header */
  method ReadWord(input: Stream) returns (v: bv32)
    requires input.pos <= |input.data|
    modifies input`pos
    ensures v == WordAt(input.data, old(input.pos))
    ensures input.pos == Min(old(input.pos) + 4, |input.data|)
  {
    hide Join;
    ghost var p, n := input.pos, |input.data|;
    var a := GetWordOctet(input);
    var b := GetWordOctet(input);
    var c := GetWordOctet(input);
    var d := GetWordOctet(input);
    v := Join(a, b, c, d);
  }

  // ---------------------------------------------------------------------------
  // Headers
  // ---------------------------------------------------------------------------

  const AUDIO_MAGIC: bv32 := 0x2e736e64
  const PCM16_ENCODING: bv32 := 3
  const AUDIO_FRAME_RATE: bv32 := 8000
  const AUDIO_CHANNELS: bv32 := 1
  const AUDIO_DATA_OFFSET: bv32 := 24
  const HEADER := 24

  datatype Header = Header(magicNumber: bv32, dataOffset: bv32, dataSize: bv32, encoding: bv32, sampleRate: bv32,
                           channels: bv32)

  function HeaderOctets(h: Header): (s: seq<bv8>)
    ensures |s| == HEADER
  {
    Octets(h.magicNumber) + Octets(h.dataOffset) + Octets(h.dataSize)
    + Octets(h.encoding) + Octets(h.sampleRate) + Octets(h.channels)
  }

  function HeaderAt(data: seq<bv8>, pos: nat): Header {
    Header(WordAt(data, pos), WordAt(data, Min(pos + 4, |data|)), WordAt(data, Min(pos + 8, |data|)),
           WordAt(data, Min(pos + 12, |data|)), WordAt(data, Min(pos + 16, |data|)),
               WordAt(data, Min(pos + 20, |data|)))
  }

  /** check_audio_header */
  predicate Acceptable(h: Header) {
    && h.magicNumber == AUDIO_MAGIC
    && h.dataOffset >= AUDIO_DATA_OFFSET
    && h.encoding == PCM16_ENCODING
    && h.sampleRate == AUDIO_FRAME_RATE
    && h.channels == AUDIO_CHANNELS
  }

  /** Octets of annotation to skip, for an offset of the data: the difference as an int. */
  function ToSkip(dataOffset: int): int {
    ToInt32(dataOffset - 24)
  }

  /** What is skipped lies between the six words and the data, unless that is too far for an int. */
  lemma ToSkipIs(dataOffset: int)
    requires 0 <= dataOffset < 0x1_0000_0000
    ensures 0 < dataOffset - 24 < 0x8000_0000 ==> ToSkip(dataOffset) == dataOffset - 24
    ensures dataOffset <= 24 || dataOffset - 24 >= 0x8000_0000 ==> ToSkip(dataOffset) <= 0
  {
  }

  function Annotation(h: Header): int {
    ToSkip(h.dataOffset as int)
  }

  lemma AcceptableIff(h: Header)
    ensures Acceptable(h) <==>
            && h.magicNumber == 0x2e73_6e64 && h.dataOffset >= 24
            && h.encoding == 3 && h.sampleRate == 8000 && h.channels == 1
  {
  }

  /** audio_write_header */
  method WriteHeader(out: Stream, h: Header)
    modifies out`data
    ensures out.data == old(out.data) + HeaderOctets(h)
  {
    hide Octets;
    WriteWord(out, h.magicNumber);
    WriteWord(out, h.dataOffset);
    WriteWord(out, h.dataSize);
    WriteWord(out, h.encoding);
    WriteWord(out, h.sampleRate);
    WriteWord(out, h.channels);
  }

  /** The loop of audio_read_header over the annotation. */
  method Skip(input: Stream, headerOffset: int)
    requires input.pos <= |input.data|
    modifies input`pos
    ensures input.pos == Min(old(input.pos) + (if headerOffset > 0 then headerOffset else 0), |input.data|)
  {
    ghost var start := input.pos;
    var i := 0;
    while i < headerOffset
      invariant if headerOffset < 0 then i == 0 else 0 <= i <= headerOffset
      invariant input.pos == Min(start + i, |input.data|)
    {
      var _ := input.Get();
      i := i + 1;
    }
  }

  /** audio_read_header */
  method ReadHeader(input: Stream) returns (r: int, h: Header)
    requires input.pos <= |input.data|
    modifies input`pos
    ensures h == HeaderAt(input.data, old(input.pos))
    ensures r == if Acceptable(h) then 0 else -1
    ensures r == -1 ==> input.pos == Min(old(input.pos) + HEADER, |input.data|)
    ensures r == 0 ==>
              input.pos == Min(old(input.pos) + HEADER + (if Annotation(h) > 0 then Annotation(h) else 0), |input.data|)
  {
    hide WordAt, Acceptable;
    var magicNumber := ReadWord(input);
    var dataOffset := ReadWord(input);
    var dataSize := ReadWord(input);
    var encoding := ReadWord(input);
    var sampleRate := ReadWord(input);
    var channels := ReadWord(input);
    h := Header(magicNumber, dataOffset, dataSize, encoding, sampleRate, channels);
    if !Acceptable(h) {
      return -1, h;
    }
    hide Annotation;
    Skip(input, Annotation(h));
    r := 0;
  }

  /** A header reads back as what was written. */
  lemma HeaderRoundTrip(before: seq<bv8>, h: Header, after: seq<bv8>)
    ensures HeaderAt(before + HeaderOctets(h) + after, |before|) == h
  {
    hide WordAt, Octets;
    var data, p, s := before + HeaderOctets(h) + after, |before|, HeaderOctets(h);
    Six(Octets(h.magicNumber), Octets(h.dataOffset), Octets(h.dataSize),
        Octets(h.encoding), Octets(h.sampleRate), Octets(h.channels));
    hide HeaderOctets;
    WordWithin(before, s, after, 0, h.magicNumber);
    WordWithin(before, s, after, 4, h.dataOffset);
    WordWithin(before, s, after, 8, h.dataSize);
    WordWithin(before, s, after, 12, h.encoding);
    WordWithin(before, s, after, 16, h.sampleRate);
    WordWithin(before, s, after, 20, h.channels);
  }

  lemma WordWithin(before: seq<bv8>, s: seq<bv8>, after: seq<bv8>, k: nat, v: bv32)
    requires k + 4 <= |s| && s[k..k + 4] == Octets(v)
    ensures WordAt(before + s + after, |before| + k) == v
  {
    hide WordAt, Octets;
    var data, p := before + s + after, |before| + k;
    assert data[p..p + 4] == s[k..k + 4];
    WordRoundTrip(data, p, v);
  }

  lemma Six(a: seq<bv8>, b: seq<bv8>, c: seq<bv8>, d: seq<bv8>, e: seq<bv8>, f: seq<bv8>)
    requires |a| == |b| == |c| == |d| == |e| == |f| == 4
    ensures (a + b + c + d + e + f)[0..4] == a && (a + b + c + d + e + f)[4..8] == b
    ensures (a + b + c + d + e + f)[8..12] == c && (a + b + c + d + e + f)[12..16] == d
    ensures (a + b + c + d + e + f)[16..20] == e && (a + b + c + d + e + f)[20..24] == f
  {
    var s2, s3, s4, s5 := a + b, a + b + c, a + b + c + d, a + b + c + d + e;
    assert s2[0..4] == a && s2[4..8] == b;
    assert s3[0..8] == s2 && s3[8..12] == c;
    assert s4[0..12] == s3 && s4[12..16] == d;
    assert s5[0..16] == s4 && s5[16..20] == e;
    var s6 := s5 + f;
    assert s6[0..20] == s5 && s6[20..24] == f;
    assert s6[0..4] == s5[0..4] == s4[0..4] == s3[0..4] == s2[0..4];
    assert s6[4..8] == s5[4..8] == s4[4..8] == s3[4..8] == s2[4..8];
    assert s6[8..12] == s5[8..12] == s4[8..12] == s3[8..12];
    assert s6[12..16] == s5[12..16] == s4[12..16];
  }

  // ---------------------------------------------------------------------------
  // Samples
  // ---------------------------------------------------------------------------

  function SampleOctets(x: bv16): (s: seq<bv8>)
    ensures |s| == 2
  {
    [((x & 0xFF00) >> 8) as bv8, (x & 0x00FF) as bv8]
  }

  function JoinSample(a: bv8, b: bv8): bv16 {
    ((a as bv16) << 8) ^ (b as bv16)
  }

  /** The octets of a sample, the high one first. */
  lemma SampleOctetsAre(x: bv16)
    ensures x == ((SampleOctets(x)[0] as bv16) << 8) | SampleOctets(x)[1] as bv16
  {
  }

  lemma SampleRoundTrip(x: bv16)
    ensures JoinSample(SampleOctets(x)[0], SampleOctets(x)[1]) == x
  {
  }

  function Encode(xs: seq<bv16>): (s: seq<bv8>)
    ensures |s| == 2 * |xs|
  {
    if xs == [] then [] else SampleOctets(xs[0]) + Encode(xs[1..])
  }

  lemma {:induction false} EncodeAppend(xs: seq<bv16>, x: bv16)
    ensures Encode(xs + [x]) == Encode(xs) + SampleOctets(x)
  {
    hide SampleOctets;
    if xs == [] {
      assert xs + [x] == [x] && [x][1..] == [];
    } else {
      assert (xs + [x])[1..] == xs[1..] + [x];
      EncodeAppend(xs[1..], x);
    }
  }

  /** audio_write_sample */
  method WriteSample(out: Stream, x: bv16)
    modifies out`data
    ensures out.data == old(out.data) + SampleOctets(x)
  {
    out.Put(((x & 0xFF00) >> 8) as bv8);
    out.Put((x & 0x00FF) as bv8);
  }

  /**
   * audio_read_sample: the sample found, or EOF with -1 in its place if there is none and the old value if it is cut.
   */
  method ReadSample(input: Stream, current: bv16) returns (r: int, x: bv16)
    requires input.pos <= |input.data|
    modifies input`pos
    ensures input.pos == Min(old(input.pos) + 2, |input.data|)
    ensures r == if old(input.pos) + 2 <= |input.data| then 0 else -1
    ensures r == 0 ==> x == JoinSample(input.data[old(input.pos)], input.data[old(input.pos) + 1])
    ensures r == -1 ==> x == if old(input.pos) == |input.data| then 0xFFFF else current
  {
    x := current;
    ghost var p := input.pos;
    var high := if input.pos < |input.data| then input.data[input.pos] else 0;
    var c := input.Get();
    if c == -1 {
      return -1, 0xFFFF;
    }
    var low := if input.pos < |input.data| then input.data[input.pos] else 0;
    c := input.Get();
    if c == -1 {
      return -1, x;
    }
    x := JoinSample(high, low);
    r := 0;
  }

  /** All the samples up to EOF: exactly those that were written. */
  method ReadSamples(input: Stream, ghost written: seq<bv16>) returns (xs: seq<bv16>)
    requires input.pos <= |input.data| && input.data[input.pos..] == Encode(written)
    modifies input`pos
    ensures xs == written && input.pos == |input.data|
  {
    hide JoinSample, SampleOctets;
    xs := [];
    ghost var todo := written;
    while true
      invariant input.pos <= |input.data| && input.data[input.pos..] == Encode(todo)
      invariant written == xs + todo
      decreases |todo|
    {
      ghost var p := input.pos;
      var r, x := ReadSample(input, 0);
      if r == -1 {
        assert todo == [];
        return;
      }
      NextSample(input.data, p, todo);
      xs, todo := xs + [x], todo[1..];
    }
  }

  lemma NextSample(data: seq<bv8>, p: nat, xs: seq<bv16>)
    requires p + 2 <= |data| && data[p..] == Encode(xs)
    ensures xs != [] && JoinSample(data[p], data[p + 1]) == xs[0] && data[p + 2..] == Encode(xs[1..])
    ensures xs == [xs[0]] + xs[1..]
  {
    SampleRoundTrip(xs[0]);
    hide SampleOctets, JoinSample;
    assert data[p..][0] == data[p] && data[p..][1] == data[p + 1];
    assert data[p..][2..] == data[p + 2..];
  }
}
