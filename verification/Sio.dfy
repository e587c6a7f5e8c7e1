/** sio_ltoa and sio_reverse of hw5/src/csapp.c: a long as text in a base, and back. */
module Sio {
  import opened Prelude

  const LONG_MIN: int := -0x8000_0000_0000_0000
  const LONG_MAX: int := 0x7FFF_FFFF_FFFF_FFFF

  // ---------------------------------------------------------------------------
  // The text of a number
  // ---------------------------------------------------------------------------

  /** The remainder of division toward zero. */
  function Rem(v: int, b: int): (c: int)
    requires b > 0
    ensures -b < c < b && (v >= 0 ==> c >= 0) && (v <= 0 ==> c <= 0)
  {
    if v >= 0 then v % b else -(-v % b)
  }

  lemma QuoRem(v: int, b: int)
    requires v >= 0 && b >= 2
    ensures v == Quotient(v, b) * b + Rem(v, b)
    ensures 0 <= Quotient(v, b) <= v && (v > 0 ==> Quotient(v, b) < v)
  {
    var q := v / b;
    TwiceAtMost(q, b);
  }

  lemma TwiceAtMost(q: int, b: int)
    requires q >= 0 && b >= 2
    ensures q * 2 <= q * b
  {
  }

  /** Negation in two's complement: the least number is its own negative. */
  function Negated(v: int): int {
    if v == LONG_MIN then v else -v
  }

  function DigitChar(c: int): char
    requires -36 < c < 36
  {
    if c < 10 then (48 + c) as char else (c - 10 + 97) as char
  }

  /** The digits, last one first. */
  function Digits(v: int, b: int): (ds: seq<char>)
    requires 2 <= b <= 36
    ensures ds != [] && NUL !in ds
    decreases if v > 0 then v else 0
  {
    assert v >= 0 ==> Quotient(v, b) <= v && (v > 0 ==> Quotient(v, b) < v) by {
      if v >= 0 {
        QuoRem(v, b);
      }
    }
    [DigitChar(Rem(v, b))] + if Quotient(v, b) > 0 then Digits(Quotient(v, b), b) else []
  }

  function Reversed<T>(s: seq<T>): (r: seq<T>)
    ensures |r| == |s|
  {
    if s == [] then [] else Reversed(s[1..]) + [s[0]]
  }

  function Text(v: int, b: int): string
    requires 2 <= b <= 36
  {
    if v < 0 then "-" + Reversed(Digits(Negated(v), b)) else Reversed(Digits(v, b))
  }

  // ---------------------------------------------------------------------------
  // Reading it back
  // ---------------------------------------------------------------------------

  function DigitValue(c: char): Option<nat> {
    if '0' <= c <= '9' then Some(c as int - 48)
    else if 'a' <= c <= 'z' then Some(c as int - 97 + 10)
    else None
  }

  function Value(s: string, b: int): Option<nat>
    requires b >= 0
  {
    if s == [] then Some(0)
    else
      var n, d := Value(s[..|s| - 1], b), DigitValue(s[|s| - 1]);
      if n.Some? && d.Some? && d.value < b then Some(n.value * b + d.value) else None
  }

  /** The number a text stands for, if it is one. */
  function Number(s: string, b: int): Option<int>
    requires b >= 0
  {
    var digits := if s != [] && s[0] == '-' then s[1..] else s;
    if digits == [] || Value(digits, b).None? then None
    else
      var n: int := Value(digits, b).value;
      Some(if digits == s then n else -n)
  }

  lemma {:induction false} ValueOfDigits(v: nat, b: int)
    requires 2 <= b <= 36
    ensures Value(Reversed(Digits(v, b)), b) == Some(v)
    ensures '-' !in Reversed(Digits(v, b))
    decreases v
  {
    QuoRem(v, b);
    DigitsFirst(v, b);
    var c, q := Rem(v, b), Quotient(v, b);
    hide *;
    if q > 0 {
      ValueOfDigits(q, b);
      ValueStep(Reversed(Digits(q, b)), q, c, b);
    } else {
      ValueStep([], 0, c, b);
    }
  }

  lemma ValueStep(s: string, n: nat, c: nat, b: int)
    requires c < b <= 36 && '-' !in s && (Value(s, b) == Some(n) || (s == [] && n == 0))
    ensures Value(s + [DigitChar(c)], b) == Some(n * b + c) && '-' !in s + [DigitChar(c)]
  {
    assert (s + [DigitChar(c)])[..|s|] == s;
    assert DigitValue(DigitChar(c)) == Some(c);
  }

  lemma DigitsFirst(v: nat, b: int)
    requires 2 <= b <= 36
    ensures Reversed(Digits(v, b)) ==
            (if Quotient(v, b) > 0 then Reversed(Digits(Quotient(v, b), b)) else []) + [DigitChar(Rem(v, b))]
  {
    hide Quotient, Rem;
    var ds := Digits(v, b);
    assert ds[1..] == if Quotient(v, b) > 0 then Digits(Quotient(v, b), b) else [];
    assert ds[0] == DigitChar(Rem(v, b));
  }

  /** A text of digits has no leading zero, but zero itself. */
  lemma {:induction false} NoLeadingZero(v: nat, b: int)
    requires 2 <= b <= 36
    ensures Reversed(Digits(v, b))[0] == '0' <==> v == 0
    ensures v == 0 ==> Reversed(Digits(v, b)) == "0"
    decreases v
  {
    QuoRem(v, b);
    DigitsFirst(v, b);
    hide Digits, Reversed;
    if Quotient(v, b) > 0 {
      NoLeadingZero(Quotient(v, b), b);
    }
  }

  lemma DigitCharIs(c: nat)
    requires c < 36
    ensures DigitChar(c) == "0123456789abcdefghijklmnopqrstuvwxyz"[c]
  {
  }

  /** The last character of a text is its lowest digit, in front of it stands the rest of the number, and of a sign. */
  lemma TextIs(v: nat, b: int)
    requires 2 <= b <= 36
    ensures Text(v, b) == (if v < b then "" else Text(v / b, b)) + ["0123456789abcdefghijklmnopqrstuvwxyz"[v % b]]
    ensures 0 < v <= LONG_MAX ==> Text(-(v as int), b) == "-" + Text(v, b)
  {
    DigitsFirst(v, b);
    QuoRem(v, b);
    DigitCharIs(v % b);
    assert v / b > 0 <==> v >= b by {
      QuotientPositive(v, b);
    }
    hide Digits, Reversed;
  }

  lemma QuotientPositive(v: nat, b: int)
    requires b >= 2
    ensures v / b > 0 <==> v >= b
  {
  }

  /** The text reads back as the number for every long but the least one. */
  lemma RoundTripIff(v: int, b: int)
    requires 2 <= b <= 36 && LONG_MIN <= v <= LONG_MAX
    ensures Number(Text(v, b), b) == Some(v) <==> v != LONG_MIN
  {
    if v == LONG_MIN {
      LeastText(b);
    } else {
      var n := if v < 0 then -v else v;
      ValueOfDigits(n, b);
      SignRead(Reversed(Digits(n, b)), n, v < 0, b);
    }
  }

  lemma SignRead(digits: string, n: nat, negative: bool, b: int)
    requires b >= 0 && digits != [] && '-' !in digits && Value(digits, b) == Some(n)
    ensures Number(if negative then "-" + digits else digits, b) == Some(if negative then -(n as int) else n)
  {
    hide Value;
    assert ("-" + digits)[1..] == digits;
    assert digits[0] in digits;
  }

  /** The least number comes out as a minus sign and one character: a zero, or no digit at all. */
  lemma LeastText(b: int)
    requires 2 <= b <= 36
    ensures Text(LONG_MIN, b) == ['-', DigitChar(Rem(LONG_MIN, b))]
    ensures Number(Text(LONG_MIN, b), b) != Some(LONG_MIN)
  {
    var c := Rem(LONG_MIN, b);
    var ds := Digits(LONG_MIN, b);
    assert ds == [DigitChar(c)] && ds[1..] == [];
    assert Reversed(ds) == [DigitChar(c)];
    var s := Text(LONG_MIN, b);
    assert s[1..] == [DigitChar(c)];
    assert s[1..][..0] == [];
    assert Value(s[1..], b).Some? ==> Value(s[1..], b).value < b;
  }

  // ---------------------------------------------------------------------------
  // Room for the text
  // ---------------------------------------------------------------------------

  function Pow2(k: nat): nat {
    if k == 0 then 1 else 2 * Pow2(k - 1)
  }

  lemma {:induction false} DigitsShort(v: nat, b: int, k: nat)
    requires 2 <= b <= 36 && v < Pow2(k) && k >= 1
    ensures |Digits(v, b)| <= k
    decreases k
  {
    QuoRem(v, b);
    assert k == 1 ==> Pow2(k) == 2;
    if Quotient(v, b) > 0 {
      TwiceAtMost(Quotient(v, b), b);
      DigitsShort(Quotient(v, b), b, k - 1);
    }
  }

  lemma {:induction false} Pow2Adds(a: nat, b: nat)
    ensures Pow2(a + b) == Pow2(a) * Pow2(b)
  {
    if a > 0 {
      Pow2Adds(a - 1, b);
      assert Pow2(a - 1 + b) * 2 == 2 * Pow2(a - 1) * Pow2(b);
    }
  }

  /** Every long fits in a buffer of 66 characters, sign and terminator included. */
  lemma TextFits(v: int, b: int)
    requires 2 <= b <= 36 && LONG_MIN <= v <= LONG_MAX
    ensures |Text(v, b)| < 66 && NUL !in Text(v, b)
  {
    var n := if v < 0 then Negated(v) else v;
    Pow2Of64();
    if v == LONG_MIN {
      LeastText(b);
    } else {
      DigitsShort(n, b, 64);
    }
    hide Digits;
    ReversedContents(Digits(n, b));
  }

  lemma Pow2Of64()
    ensures Pow2(64) == 0x1_0000_0000_0000_0000
  {
    assert Pow2(8) == 256;
    Pow2Adds(8, 8);
    Pow2Adds(16, 16);
    Pow2Adds(32, 32);
  }

  lemma {:induction false} ReversedContents<T>(s: seq<T>)
    ensures multiset(Reversed(s)) == multiset(s)
    ensures forall x :: x in Reversed(s) <==> x in s
  {
    if s != [] {
      ReversedContents(s[1..]);
      assert s == [s[0]] + s[1..];
    }
  }

  lemma {:induction false} ReversedAt<T>(s: seq<T>, k: nat)
    requires k < |s|
    ensures Reversed(s)[k] == s[|s| - 1 - k]
  {
    if k < |s| - 1 {
      ReversedAt(s[1..], k);
    }
  }

  // ---------------------------------------------------------------------------
  // The functions
  // ---------------------------------------------------------------------------

  /** A C string of n characters at the front of a buffer. */
  ghost predicate CString(s: seq<char>, n: nat) {
    n < |s| && s[n] == NUL && NUL !in s[..n]
  }

  method StrLen(s: array<char>) returns (n: nat)
    requires NUL in s[..]
    ensures CString(s[..], n)
  {
    n := 0;
    while s[n] != NUL
      invariant n < s.Length && NUL !in s[..n] && NUL in s[n..]
      decreases s.Length - n
    {
      n := n + 1;
    }
  }

  lemma CStringUnique(s: seq<char>, m: nat, n: nat)
    requires CString(s, m) && CString(s, n)
    ensures m == n
  {
    if m < n {
      NotBefore(s, m, n);
    } else if n < m {
      NotBefore(s, n, m);
    }
  }

  lemma NotBefore(s: seq<char>, m: nat, n: nat)
    requires CString(s, n) && m < n
    ensures s[m] != NUL
  {
    assert s[..n][m] == s[m];
  }

  /** sio_reverse */
  method SioReverse(s: array<char>, ghost n: nat)
    requires CString(s[..], n)
    modifies s
    ensures s[..] == Reversed(old(s[..n])) + old(s[n..])
  {
    var length := StrLen(s);
    CStringUnique(s[..], length, n);
    ghost var was := s[..];
    var i, j := 0, length - 1;
    while i < j
      invariant 0 <= i <= length && j == length - 1 - i && i <= j + 2
      invariant s.Length == |was|
      invariant forall k | 0 <= k < i :: s[k] == was[length - 1 - k] && s[length - 1 - k] == was[k]
      invariant forall k | i <= k <= j :: s[k] == was[k]
      invariant forall k | length <= k < s.Length :: s[k] == was[k]
    {
      s[i], s[j] := s[j], s[i];
      i, j := i + 1, j - 1;
    }
    forall k | 0 <= k < length
      ensures s[k] == Reversed(was[..length])[k]
    {
      ReversedAt(was[..length], k);
    }
    assert s[..] == Reversed(was[..length]) + was[length..];
  }

  /** The digit loop of sio_ltoa. */
  method StoreDigits(value: int, s: array<char>, b: int) returns (i: nat)
    requires 2 <= b <= 36 && |Digits(value, b)| < s.Length
    modifies s
    ensures i == |Digits(value, b)| && s[..] == Digits(value, b) + old(s[i..])
  {
    hide Quotient, Rem, Digits;
    var v := value;
    ghost var digits, was := Digits(v, b), s[..];
    i := 0;
    while true
      invariant i < |digits| < s.Length == |was|
      invariant s[..] == digits[..i] + was[i..] && digits[i..] == Digits(v, b)
      decreases |digits| - i
    {
      DigitsStep(v, b);
      var c := Rem(v, b);
      StoreNext(digits[..i], was, DigitChar(c));
      s[i] := DigitChar(c);
      assert digits[..i] + [DigitChar(c)] == digits[..i + 1];
      i := i + 1;
      v := Quotient(v, b);
      if v <= 0 {
        break;
      }
    }
    assert digits[..i] == digits;
  }

  lemma StoreNext(text: string, was: string, c: char)
    requires |text| < |was|
    ensures (text + was[|text|..])[|text| := c] == text + [c] + was[|text| + 1..]
  {
  }

  /** sio_ltoa */
  method SioLtoa(value: int, s: array<char>, b: int)
    requires 2 <= b <= 36 && LONG_MIN <= value <= LONG_MAX && |Text(value, b)| < s.Length
    modifies s
    ensures s[..] == Text(value, b) + [NUL] + old(s[|Text(value, b)| + 1..])
  {
    hide Quotient, Rem, Digits, Text, Reversed;
    ghost var was := s[..];
    var v := value;
    var neg := v < 0;
    if neg {
      v := Negated(v);
    }
    ghost var text := Digits(v, b);
    TextReversed(value, b, text);
    var i := StoreDigits(v, s, b);
    if neg {
      StoreNext(text, was, '-');
      s[i] := '-';
      i := i + 1;
      text := text + "-";
    }
    assert s[..] == text + was[i..];
    StoreNext(text, was, NUL);
    s[i] := NUL;
    Terminated(text, was[i + 1..]);
    SioReverse(s, i);
    Regroup(Reversed(text), [NUL], was[i + 1..]);
  }

  lemma Terminated(text: string, more: string)
    requires NUL !in text
    ensures CString(text + [NUL] + more, |text|)
    ensures (text + [NUL] + more)[..|text|] == text && (text + [NUL] + more)[|text|..] == [NUL] + more
  {
    assert text + [NUL] + more == text + ([NUL] + more);
  }

  lemma Regroup<T>(a: seq<T>, b: seq<T>, c: seq<T>)
    ensures a + (b + c) == a + b + c
  {
  }

  lemma DigitsStep(v: int, b: int)
    requires 2 <= b <= 36
    ensures Digits(v, b)[0] == DigitChar(Rem(v, b))
    ensures Digits(v, b)[1..] == if Quotient(v, b) > 0 then Digits(Quotient(v, b), b) else []
  {
  }

  /** The text is what the loop stores, sign last, read backward. */
  lemma TextReversed(v: int, b: int, digits: string)
    requires 2 <= b <= 36 && digits == Digits(if v < 0 then Negated(v) else v, b)
    ensures Text(v, b) == Reversed(if v < 0 then digits + "-" else digits)
    ensures |Text(v, b)| == |digits| + if v < 0 then 1 else 0
    ensures NUL !in digits
  {
    ReversedAppend(digits, '-');
  }

  lemma {:induction false} ReversedAppend<T>(s: seq<T>, x: T)
    ensures Reversed(s + [x]) == [x] + Reversed(s)
  {
    if s == [] {
      assert s + [x] == [x] && [x][1..] == [];
    } else {
      assert (s + [x])[1..] == s[1..] + [x];
      ReversedAppend(s[1..], x);
    }
  }
}
