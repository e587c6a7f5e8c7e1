/** Buffered reading of hw5/src/csapp.c: rio_read, rio_readnb and rio_readlineb over one internal buffer. */
module RioBuffered {
  import opened Prelude
  import opened Rio

  const RIO_BUFSIZE := 8192
  const NEWLINE: byte := 10

  /** How many bytes rio_readlineb takes from a stream: through the first newline, at most limit. */
  function LineLength(s: seq<byte>, limit: nat): (k: nat)
    ensures k <= |s| && k <= limit
    decreases limit
  {
    if s == [] || limit == 0 then 0
    else if s[0] == NEWLINE then 1
    else 1 + LineLength(s[1..], limit - 1)
  }

  /** A line ends at the first newline, at the limit or at the end of the stream, and nowhere else. */
  ghost predicate IsLine(s: seq<byte>, limit: nat, k: nat) {
    && k <= |s| && k <= limit
    && (forall i | 0 <= i < k - 1 :: s[i] != 10)
    && (k == limit || k == |s| || (k > 0 && s[k - 1] == 10))
  }

  lemma {:induction false} LineLengthIs(s: seq<byte>, limit: nat)
    ensures IsLine(s, limit, LineLength(s, limit))
    decreases limit
  {
    if s != [] && limit > 0 && s[0] != NEWLINE {
      LineLengthIs(s[1..], limit - 1);
      var k := LineLength(s, limit);
      forall i | 0 <= i < k - 1
        ensures s[i] != NEWLINE
      {
        assert i > 0 ==> s[i] == s[1..][i - 1];
      }
      assert k > 1 ==> s[k - 1] == s[1..][k - 2];
    }
  }

  lemma LineLengthOnly(s: seq<byte>, limit: nat, k: nat)
    ensures IsLine(s, limit, k) <==> k == LineLength(s, limit)
  {
    LineLengthIs(s, limit);
  }

  lemma {:induction false} LineLengthStep(s: seq<byte>, limit: nat, i: nat)
    requires i < |s| && i < limit && forall j | 0 <= j < i :: s[j] != NEWLINE
    ensures LineLength(s, limit) == i + LineLength(s[i..], limit - i)
    ensures s[i] == NEWLINE ==> LineLength(s, limit) == i + 1
    decreases i
  {
    if i > 0 {
      assert s[0] != NEWLINE;
      assert s[1..][i - 1..] == s[i..];
      LineLengthStep(s[1..], limit - 1, i - 1);
    }
  }

  /** Without a newline in reach the line has the length of the stream or of the limit. */
  lemma {:induction false} LineLengthWhole(s: seq<byte>, limit: nat, i: nat)
    requires (i == |s| && i <= limit) || (i == limit && i <= |s|)
    requires forall j | 0 <= j < i :: s[j] != NEWLINE
    ensures LineLength(s, limit) == i
    decreases i
  {
    if i > 0 {
      assert s[0] != NEWLINE;
      LineLengthWhole(s[1..], limit - 1, i - 1);
    }
  }

  class Reader {
    const fd: Descriptor
    const buf: array<byte>
    var cnt: int
    var bufptr: nat

    ghost predicate Valid()
      reads this
    {
      buf.Length == RIO_BUFSIZE && (cnt > 0 ==> bufptr + cnt <= buf.Length)
    }

    /** The bytes not yet handed out: those left in the buffer, then those still in the kernel. */
    ghost function Pending(): seq<byte>
      requires Valid()
      reads this, buf, fd
    {
      (if cnt > 0 then buf[bufptr..bufptr + cnt] else []) + fd.input
    }

    /** rio_readinitb */
    constructor (fd: Descriptor)
      ensures Valid() && this.fd == fd && fresh(buf) && Pending() == fd.input
    {
      this.fd := fd;
      buf := new byte[RIO_BUFSIZE];
      cnt := 0;
      bufptr := 0;
    }

    /** The refill loop of rio_read: false when it must return early, at the end of the stream or on failure. */
    method Refill() returns (r: int)
      requires Valid()
      modifies this, buf, fd
      ensures Valid() && fd.output == old(fd.output) && Later(old(fd.schedule), fd.schedule)
      ensures Pending() == old(Pending())
      ensures r == 1 || r == 0 || r == -1
      ensures r == 1 ==> cnt > 0
      ensures r == 0 ==> Pending() == []
      ensures r == -1 ==> CanFail(old(fd.schedule))
    {
      hide Later, CanFail;
      ghost var s0 := fd.schedule;
      LaterSelf(s0);
      while cnt <= 0
        invariant Valid() && fd.output == old(fd.output) && Later(s0, fd.schedule)
        invariant Pending() == old(Pending())
        decreases |fd.schedule|, if cnt <= 0 then 1 else 0
      {
        ghost var s1, i1, b1 := fd.schedule, fd.input, buf[..];
        cnt := fd.Read(buf, 0, buf.Length);
        LaterTransitive(s0, s1, fd.schedule);
        if cnt < 0 {
          if fd.errno != EINTR {
            return -1;
          }
        } else if cnt == 0 {
          return 0;
        } else {
          bufptr := 0;
          DeliveredFront(i1, fd.input, b1, buf[..], cnt);
        }
      }
      r := 1;
    }

    /** rio_read: between one and n bytes at usrbuf[off..], zero at the end of the stream, or -1. */
    method Read(usrbuf: array<byte>, off: nat, n: nat) returns (r: int)
      requires Valid() && usrbuf != buf && 0 < n && off + n <= usrbuf.Length
      modifies this, buf, fd, usrbuf
      ensures Valid() && fd.output == old(fd.output) && Later(old(fd.schedule), fd.schedule)
      ensures r == -1 || 0 <= r <= n
      ensures r == -1 ==> CanFail(old(fd.schedule))
      ensures r == 0 ==> old(Pending()) == []
      ensures r >= 0 ==> Delivered(old(Pending()), Pending(), old(usrbuf[..]), usrbuf[..], off, r)
    {
      hide Delivered, Later, CanFail, Stored;
      var ready := Refill();
      if ready <= 0 {
        DeliveredNone(Pending(), usrbuf[..], off);
        return ready;
      }
      ghost var p0, u0, front := Pending(), usrbuf[..], buf[bufptr..bufptr + cnt];
      var k := n;
      if cnt < n {
        k := cnt;
      }
      forall i | 0 <= i < k {
        usrbuf[off + i] := buf[bufptr + i];
      }
      StoredIs(u0, usrbuf[..], off, p0[..k]);
      bufptr := bufptr + k;
      cnt := cnt - k;
      assert Pending() == p0[k..] by {
        RestOfFront(front, fd.input, k);
        assert front[k..] == buf[bufptr..bufptr + cnt];
      }
      DeliveredBy(p0, u0, off, k);
      r := k;
    }
  }

  lemma RestOfFront(front: seq<byte>, input: seq<byte>, k: nat)
    requires k <= |front|
    ensures (front + input)[k..] == front[k..] + input
  {
  }

  lemma DeliveredBy(p: seq<byte>, u: seq<byte>, off: nat, k: nat)
    requires k <= |p| && off + k <= |u|
    ensures Delivered(p, p[k..], u, Stored(u, off, p[..k]), off, k)
  {
  }

  // ---------------------------------------------------------------------------
  // The two readers
  // ---------------------------------------------------------------------------

  /** rio_readnb: the next n bytes, or what there is before the end of the stream. */
  method ReadNB(rp: Reader, usrbuf: array<byte>, n: nat) returns (r: int)
    requires rp.Valid() && usrbuf != rp.buf && n <= usrbuf.Length
    modifies rp, rp.buf, rp.fd, usrbuf
    ensures rp.Valid() && rp.fd.output == old(rp.fd.output) && Later(old(rp.fd.schedule), rp.fd.schedule)
    ensures r == -1 ==> CanFail(old(rp.fd.schedule))
    ensures r != -1 ==>
              r == Min(n, |old(rp.Pending())|)
              && Delivered(old(rp.Pending()), rp.Pending(), old(usrbuf[..]), usrbuf[..], 0, r)
  {
    hide Delivered, Later, CanFail;
    ghost var p0, u0, s0 := rp.Pending(), usrbuf[..], rp.fd.schedule;
    LaterSelf(s0);
    DeliveredNone(p0, u0, 0);
    var nleft := n;
    while nleft > 0
      invariant 0 <= nleft <= n
      invariant rp.Valid() && rp.fd.output == old(rp.fd.output) && Later(s0, rp.fd.schedule)
      invariant Delivered(p0, rp.Pending(), u0, usrbuf[..], 0, n - nleft)
      decreases nleft
    {
      ghost var p1, u1, s1 := rp.Pending(), usrbuf[..], rp.fd.schedule;
      var nread := rp.Read(usrbuf, n - nleft, nleft);
      LaterTransitive(s0, s1, rp.fd.schedule);
      if nread < 0 {
        return -1;
      }
      DeliveredMore(p0, p1, rp.Pending(), u0, u1, usrbuf[..], 0, n - nleft, nread);
      if nread == 0 {
        DeliveredAll(p1, rp.Pending(), u1, usrbuf[..], n - nleft, 0);
        break;
      }
      nleft := nleft - nread;
    }
    DeliveredAll(p0, rp.Pending(), u0, usrbuf[..], 0, n - nleft);
    r := n - nleft;
  }

  /** How many bytes of text rio_readlineb takes at most; a maxlen of zero is as good as one. */
  function LineLimit(maxlen: nat): nat {
    if maxlen == 0 then 0 else maxlen - 1
  }

  /** The text that it leaves in the user buffer: the line, and a NUL unless there was nothing to read. */
  ghost function LineStored(p: seq<byte>, u: seq<byte>, limit: nat): seq<byte>
    requires LineLength(p, limit) < |u|
  {
    var k := LineLength(p, limit);
    if p == [] && limit > 0 then u else Stored(u, 0, p[..k] + [0])
  }

  /**
   * rio_readlineb: the next line without its excess over maxlen - 1 bytes, and a NUL; the user buffer has room for
   * them.
   */
  method ReadLineB(rp: Reader, usrbuf: array<byte>, maxlen: nat) returns (r: int)
    requires rp.Valid() && usrbuf != rp.buf && LineLength(rp.Pending(), LineLimit(maxlen)) < usrbuf.Length
    modifies rp, rp.buf, rp.fd, usrbuf
    ensures rp.Valid() && rp.fd.output == old(rp.fd.output) && Later(old(rp.fd.schedule), rp.fd.schedule)
    ensures r == -1 ==> CanFail(old(rp.fd.schedule))
    ensures r != -1 ==>
              r == LineLength(old(rp.Pending()), LineLimit(maxlen))
              && rp.Pending() == old(rp.Pending())[r..]
              && usrbuf[..] == LineStored(old(rp.Pending()), old(usrbuf[..]), LineLimit(maxlen))
  {
    hide Later, CanFail, Delivered, LineLength, LineSoFar, LineStored, Stored;
    ghost var p0, u0, s0 := rp.Pending(), usrbuf[..], rp.fd.schedule;
    LaterSelf(s0);
    ghost var limit := LineLimit(maxlen);
    LineStart(p0, u0);
    var c := new byte[1];
    var n := 1;
    while n < maxlen
      invariant 1 <= n <= limit + 1
      invariant rp.Valid() && rp.fd.output == old(rp.fd.output) && Later(s0, rp.fd.schedule)
      invariant LineSoFar(p0, rp.Pending(), u0, usrbuf[..], n - 1)
      decreases maxlen - n
    {
      ghost var s1, p1, u1, c1 := rp.fd.schedule, rp.Pending(), usrbuf[..], c[..];
      var rc := rp.Read(c, 0, 1);
      LaterTransitive(s0, s1, rp.fd.schedule);
      if rc == 1 {
        LineNext(p0, p1, rp.Pending(), u0, u1, n - 1, c1, c[..], limit);
        usrbuf[n - 1] := c[0];
        assert usrbuf[..] == u1[n - 1 := c[0]];
        if c[0] == NEWLINE {
          usrbuf[n] := 0;
          assert usrbuf[..] == u1[n - 1 := c[0]][n := 0];
          return n;
        }
        n := n + 1;
      } else if rc == 0 {
        LineEnd(p0, p1, u0, u1, n - 1, limit);
        DeliveredAll(p1, rp.Pending(), c1, c[..], 0, 0);
        if n == 1 {
          return 0;
        }
        usrbuf[n - 1] := 0;
        assert usrbuf[..] == u1[n - 1 := 0];
        return n - 1;
      } else {
        return -1;
      }
    }
    ghost var u1 := usrbuf[..];
    LineEnd(p0, rp.Pending(), u0, u1, n - 1, limit);
    usrbuf[n - 1] := 0;
    assert usrbuf[..] == u1[n - 1 := 0];
    r := n - 1;
  }

  /**
   * What rio_readlineb takes and leaves: a line of at most maxlen - 1 bytes and a NUL behind it, the rest of the buffer
   * as it was; at the end of the stream the buffer is as it was, unless no byte was to be read.
   */
  lemma LineReadIs(p: seq<byte>, u: seq<byte>, maxlen: nat)
    requires LineLength(p, LineLimit(maxlen)) < |u|
    ensures var k := LineLength(p, LineLimit(maxlen));
            && IsLine(p, if maxlen == 0 then 0 else maxlen - 1, k)
            && LineStored(p, u, LineLimit(maxlen)) == if p == [] && maxlen > 1 then u else p[..k] + [0] + u[k + 1..]
  {
    LineLengthIs(p, LineLimit(maxlen));
    hide LineLength, IsLine;
    StoredFirst(u, p[..LineLength(p, LineLimit(maxlen))] + [0]);
  }

  lemma StoredFirst(u: seq<byte>, data: seq<byte>)
    requires |data| <= |u|
    ensures Stored(u, 0, data) == data + u[|data|..]
  {
  }

  /** The first i bytes of the stream are in the user buffer, and none is a newline. */
  ghost predicate LineSoFar(p0: seq<byte>, p: seq<byte>, u0: seq<byte>, u: seq<byte>, i: nat) {
    && i <= |p0| && i <= |u0|
    && p == p0[i..]
    && u == Stored(u0, 0, p0[..i])
    && forall j | 0 <= j < i :: p0[j] != NEWLINE
  }

  lemma LineStart(p0: seq<byte>, u0: seq<byte>)
    ensures LineSoFar(p0, p0, u0, u0, 0)
  {
  }

  lemma LineNext(p0: seq<byte>, p: seq<byte>, p': seq<byte>, u0: seq<byte>, u: seq<byte>, i: nat,
                 c: seq<byte>, c': seq<byte>, limit: nat)
    requires LineSoFar(p0, p, u0, u, i) && Delivered(p, p', c, c', 0, 1) && |c'| == 1
    requires i < limit && LineLength(p0, limit) < |u0|
    ensures i < LineLength(p0, limit) && |u| == |u0|
    ensures c'[0] != NEWLINE ==> LineSoFar(p0, p', u0, u[i := c'[0]], i + 1)
    ensures c'[0] == NEWLINE ==>
              && LineLength(p0, limit) == i + 1
              && p' == p0[i + 1..]
              && u[i := c'[0]][i + 1 := 0] == LineStored(p0, u0, limit)
  {
    assert c'[0] == p0[i];
    LineLengthStep(p0, limit, i);
    assert LineLength(p0[i..], limit - i) > 0;
    var u1 := u[i := c'[0]];
    assert u1 == Stored(u0, 0, p0[..i + 1]);
    hide LineLength;
    StoredNul(u0, p0, i + 1);
  }

  lemma LineEnd(p0: seq<byte>, p: seq<byte>, u0: seq<byte>, u: seq<byte>, i: nat, limit: nat)
    requires LineSoFar(p0, p, u0, u, i) && i <= limit && LineLength(p0, limit) < |u0|
    requires p == [] || i == limit
    ensures |u| == |u0|
    ensures LineLength(p0, limit) == i && p == p0[i..]
    ensures if p0 == [] && limit > 0 then u == LineStored(p0, u0, limit) else u[i := 0] == LineStored(p0, u0, limit)
    ensures i == 0 && p == [] ==> p0 == []
  {
    LineLengthWhole(p0, limit, i);
    hide LineLength;
    StoredNul(u0, p0, i);
  }

  lemma StoredNul(u: seq<byte>, p: seq<byte>, k: nat)
    requires k <= |p| && k < |u|
    ensures Stored(u, 0, p[..k])[k := 0] == Stored(u, 0, p[..k] + [0])
  {
  }

  /** What lands at the front of a buffer. */
  lemma DeliveredFront(i: seq<byte>, i': seq<byte>, b: seq<byte>, b': seq<byte>, r: nat)
    requires Delivered(i, i', b, b', 0, r)
    ensures r <= |b'| && b'[..r] + i' == i
  {
  }
}
