/** The files finddup looks at, the descriptors it sorts and the two comparisons it makes (hw2/src/finddup.c). */
module FinddupFiles {
  import opened Prelude
  import Crc32

  datatype File = File(content: seq<bv8>, device: nat, inode: nat)

  /** FL_CRC, FL_DUP and FL_LNK. */
  datatype Flags = Flags(crc: bool, dup: bool, lnk: bool)

  /** A file descriptor; nameloc identifies the file. */
  datatype Entry = Entry(length: nat, crc32: nat, device: nat, inode: nat, nameloc: nat, flags: Flags)

  function Content(files: seq<File>, e: Entry): seq<bv8> {
    if e.nameloc < |files| then files[e.nameloc].content else []
  }

  predicate SameInode(a: Entry, b: Entry) {
    a.device == b.device && a.inode == b.inode
  }

  predicate SameBucket(a: Entry, b: Entry) {
    a.length == b.length && a.crc32 == b.crc32
  }

  function Names(s: seq<Entry>): (n: seq<nat>)
    ensures |n| == |s|
  {
    seq(|s|, i requires 0 <= i < |s| => s[i].nameloc)
  }

  /** Names of one inode see one content. */
  ghost predicate Consistent(files: seq<File>) {
    forall i, j | 0 <= i < |files| && 0 <= j < |files| && files[i].device == files[j].device
                     && files[i].inode == files[j].inode ::
      files[i].content == files[j].content
  }

  // ---------------------------------------------------------------------------
  // get_crc: the sum of the checksums of the lines
  // ---------------------------------------------------------------------------

  const NEWLINE: bv8 := 10

  /** The length of the first line, its newline included. */
  function LineLength(s: seq<bv8>): (n: nat)
    ensures n <= |s| && (s != [] ==> n > 0)
  {
    if s == [] then 0 else if s[0] == NEWLINE then 1 else 1 + LineLength(s[1..])
  }

  /** strlen stops at the first NUL. */
  function UpToNul(s: seq<bv8>): seq<bv8> {
    if s == [] || s[0] == 0 then [] else [s[0]] + UpToNul(s[1..])
  }

  /** The sum is kept in 32 bits. */
  function FileCrc(s: seq<bv8>): nat {
    if s == [] then 0
    else (Crc32.Crc(0, UpToNul(s[..LineLength(s)])) as nat + FileCrc(s[LineLength(s)..])) % UINT_LIMIT
  }

  lemma {:induction false} FirstLine(line: seq<bv8>, rest: seq<bv8>)
    requires line != [] && forall i | 0 <= i < |line| - 1 :: line[i] != 10
    requires line[|line| - 1] == 10 || rest == []
    ensures LineLength(line + rest) == |line|
  {
    assert (line + rest)[1..] == line[1..] + rest;
    if |line| > 1 {
      assert line[0] != 10;
      FirstLine(line[1..], rest);
    }
  }

  lemma {:induction false} FirstNul(s: seq<bv8>, n: nat)
    requires n <= |s| && (forall i | 0 <= i < n :: s[i] != 0) && (n == |s| || s[n] == 0)
    ensures UpToNul(s) == s[..n]
  {
    if n > 0 {
      FirstNul(s[1..], n - 1);
      assert s[..n] == [s[0]] + s[1..][..n - 1];
    }
  }

  lemma FirstPart<T>(a: seq<T>, b: seq<T>)
    ensures (a + b)[..|a|] == a && (a + b)[|a|..] == b
  {
  }

  /**
   * The checksum of a file is that of its first line, up to the first zero byte in it, plus that of the rest; lines
   * end behind a byte 10 or with the file.
   */
  lemma FileCrcByLines(line: seq<bv8>, rest: seq<bv8>, n: nat)
    requires line != [] && forall i | 0 <= i < |line| - 1 :: line[i] != 10
    requires line[|line| - 1] == 10 || rest == []
    requires n <= |line| && (forall i | 0 <= i < n :: line[i] != 0) && (n == |line| || line[n] == 0)
    ensures FileCrc([]) == 0
    ensures FileCrc(line + rest) == (Crc32.Crc(0, line[..n]) as nat + FileCrc(rest)) % 0x1_0000_0000
  {
    hide Crc32.Crc, LineLength, UpToNul;
    FirstLine(line, rest);
    FirstNul(line, n);
    FirstPart(line, rest);
  }

  // ---------------------------------------------------------------------------
  // fullcmp: a byte-by-byte comparison through a signed char
  // ---------------------------------------------------------------------------

  const EOF: int := -1

  /** A byte read by getc and stored in a char. */
  function SignedChar(b: bv8): int {
    if b < 0x80 then b as int else b as int - 256
  }

  /** What getc returns next. */
  function Getc(s: seq<bv8>): int {
    if s == [] then EOF else s[0] as int
  }

  /** fullcmp: zero means equal. */
  function FullCmp(a: seq<bv8>, b: seq<bv8>): int {
    if a == [] then 0
    else
      var ch := SignedChar(a[0]);
      if ch == EOF then 0
      else if ch - Getc(b) != 0 then 1
      else FullCmp(a[1..], if b == [] then [] else b[1..])
  }

  ghost predicate SevenBit(s: seq<bv8>) {
    forall i | 0 <= i < |s| :: s[i] < 0x80
  }

  lemma SevenBitChar(b: bv8)
    ensures b < 0x80 ==> SignedChar(b) == b as int && SignedChar(b) != EOF
    ensures b >= 0x80 ==> SignedChar(b) < 0
    ensures SignedChar(b) == EOF ==> b == 0xff
    ensures 0 <= b as int < 256
  {
  }

  lemma AsIntInjective(a: bv8, b: bv8)
    requires a as int == b as int
    ensures a == b
  {
  }

  lemma {:induction false} FullCmpOfSevenBit(a: seq<bv8>, b: seq<bv8>)
    requires |a| == |b| && SevenBit(a)
    ensures FullCmp(a, b) == 0 <==> a == b
  {
    if a != [] {
      assert a[0] < 0x80;
      SevenBitChar(a[0]);
      SevenBitChar(b[0]);
      hide SignedChar;
      assert a == [a[0]] + a[1..] && b == [b[0]] + b[1..];
      forall i | 0 <= i < |a[1..]|
        ensures a[1..][i] < 0x80
      {
        assert a[1..][i] == a[i + 1];
      }
      FullCmpOfSevenBit(a[1..], b[1..]);
      if a[0] as int == b[0] as int {
        AsIntInjective(a[0], b[0]);
      }
    }
  }

  /** A file on which fullcmp errs: it denies that the file equals itself, or accepts one that differs. */
  ghost function Misjudged(a: seq<bv8>): (b: seq<bv8>)
    ensures |b| == |a|
  {
    if a == [] then []
    else if a[0] < 0x80 then [a[0]] + Misjudged(a[1..])
    else if a[0] == 0xff then [0] + a[1..]
    else a
  }

  lemma SevenBitTail(a: seq<bv8>)
    requires a != [] && a[0] < 0x80 && SevenBit(a[1..])
    ensures SevenBit(a)
  {
    assert forall i | 1 <= i < |a| :: a[i] == a[1..][i - 1];
  }

  lemma {:induction false} FullCmpMisjudges(a: seq<bv8>)
    requires !SevenBit(a)
    ensures FullCmp(a, Misjudged(a)) == 0 <==> a != Misjudged(a)
  {
    SevenBitChar(a[0]);
    hide SignedChar;
    if a[0] < 0x80 {
      if SevenBit(a[1..]) {
        SevenBitTail(a);
      }
      FullCmpMisjudges(a[1..]);
      assert Misjudged(a)[1..] == Misjudged(a[1..]);
      assert a == [a[0]] + a[1..];
    } else if a[0] == 0xff {
      assert SignedChar(0xff) == EOF;
      assert Misjudged(a)[0] != a[0];
    }
  }

  /** fullcmp decides equality with every file of the same length exactly when the file has no byte above 0x7f. */
  lemma FullCmpExactIffSevenBit(a: seq<bv8>)
    ensures (forall b: seq<bv8> | |b| == |a| :: FullCmp(a, b) == 0 <==> a == b) <==> SevenBit(a)
  {
    if SevenBit(a) {
      forall b: seq<bv8> | |b| == |a|
        ensures FullCmp(a, b) == 0 <==> a == b
      {
        FullCmpOfSevenBit(a, b);
      }
    } else {
      FullCmpMisjudges(a);
    }
  }

  /** How many bytes come before the first that has the high bit set. */
  function SevenBitLength(a: seq<bv8>): (n: nat)
    ensures n <= |a|
  {
    if a == [] || a[0] >= 0x80 then 0 else 1 + SevenBitLength(a[1..])
  }

  lemma {:induction false} SevenBitLengthIs(a: seq<bv8>)
    ensures var n := SevenBitLength(a);
            SevenBit(a[..n]) && (n < |a| ==> a[n] >= 0x80)
  {
    if a != [] && a[0] < 0x80 {
      SevenBitLengthIs(a[1..]);
      var n := SevenBitLength(a[1..]);
      assert a[..n + 1][1..] == a[1..][..n];
      SevenBitTail(a[..n + 1]);
    }
  }

  lemma SevenBitBytes(a: seq<bv8>, k: nat)
    requires k <= |a| && SevenBit(a[..k])
    ensures forall i | 0 <= i < k :: a[i] < 0x80
  {
    assert forall i | 0 <= i < k :: a[i] == a[..k][i];
  }

  /** The files agree up to k, where the first one ends or has a byte 0xff. */
  ghost predicate AgreeUpTo(a: seq<bv8>, b: seq<bv8>, k: nat)
    requires |a| == |b|
  {
    k <= |a| && a[..k] == b[..k] && (k == |a| || a[k] == 0xff)
  }

  lemma AgreeTail(a: seq<bv8>, b: seq<bv8>, k: nat)
    requires |a| == |b| && a != []
    ensures AgreeUpTo(a, b, k + 1) <==> a[0] == b[0] && AgreeUpTo(a[1..], b[1..], k)
  {
    if k < |a| {
      assert a[..k + 1] == [a[0]] + a[1..][..k] && b[..k + 1] == [b[0]] + b[1..][..k];
      assert a[..k + 1] == b[..k + 1] ==> a[..k + 1][0] == b[..k + 1][0] && a[..k + 1][1..] == b[..k + 1][1..];
    }
  }

  lemma {:induction false} FullCmpZero(a: seq<bv8>, b: seq<bv8>)
    requires |a| == |b|
    ensures FullCmp(a, b) == 0 <==> AgreeUpTo(a, b, SevenBitLength(a))
  {
    if a != [] {
      SevenBitChar(a[0]);
      SevenBitChar(b[0]);
      assert SignedChar(0xff) == EOF;
      hide SignedChar;
      if a[0] < 0x80 {
        FullCmpZero(a[1..], b[1..]);
        AgreeTail(a, b, SevenBitLength(a[1..]));
        if a[0] as int == b[0] as int {
          AsIntInjective(a[0], b[0]);
        }
      }
    }
  }

  /**
   * Two files of one length compare as equal exactly when they agree in 7-bit bytes up to the end or up to a byte
   * 0xff of the first one.
   */
  lemma FullCmpZeroIff(a: seq<bv8>, b: seq<bv8>)
    requires |a| == |b|
    ensures FullCmp(a, b) == 0 <==> exists k: nat :: AgreeUpTo(a, b, k) && SevenBit(a[..k])
  {
    var n := SevenBitLength(a);
    FullCmpZero(a, b);
    SevenBitLengthIs(a);
    hide FullCmp, SevenBitLength;
    SevenBitBytes(a, n);
    if k: nat :| AgreeUpTo(a, b, k) && SevenBit(a[..k]) {
      SevenBitBytes(a, k);
    }
  }

  /**
   * What a caller can check of two files of one length: the first byte with the high bit, if there is one, must not
   * be a 0xff where they differ only from there on, nor another in a file compared with its equal.
   */
  predicate Decidable(a: seq<bv8>, b: seq<bv8>)
    requires |a| == |b|
  {
    var n := SevenBitLength(a);
    n == |a| || (if a[n] == 0xff then a == b || a[..n] != b[..n] else a != b)
  }

  /** fullcmp is right about two files of one length exactly when they pass this check. */
  lemma FullCmpRightIff(a: seq<bv8>, b: seq<bv8>)
    requires |a| == |b|
    ensures (FullCmp(a, b) == 0 <==> a == b) <==> Decidable(a, b)
  {
    FullCmpZero(a, b);
    hide FullCmp, SevenBitLength;
    assert a[..|a|] == a && b[..|b|] == b;
  }

  lemma SevenBitDecidable(a: seq<bv8>, b: seq<bv8>)
    requires |a| == |b| && SevenBit(a)
    ensures Decidable(a, b)
  {
    SevenBitLengthIs(a);
    hide SevenBitLength;
  }
}
