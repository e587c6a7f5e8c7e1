/**
 * The robust I/O functions of hw5/src/csapp.c over a kernel that moves as few bytes as it likes and may be
 * interrupted at any call.
 */
module Rio {
  import opened Prelude

  newtype byte = x: int | 0 <= x < 256

  // ---------------------------------------------------------------------------
  // The kernel
  // ---------------------------------------------------------------------------

  /**
   * What the next system call does: move at most limit bytes, be interrupted, or fail. A read moves at least one
   * byte if there is one; a write with a limit of zero returns zero and leaves errno as it was.
   */
  datatype Event = Transfer(limit: nat) | Interrupt | Failure

  datatype Errno = NoError | EINTR | OtherError

  /** How many bytes a call moves. */
  function Moved(e: Event, n: nat, available: nat): nat {
    match e
    case Transfer(limit) => Min(Min(if limit == 0 then 1 else limit, n), available)
    case Interrupt => 0
    case Failure => 0
  }

  class Descriptor {
    var input: seq<byte>
    var output: seq<byte>
    var schedule: seq<Event>
    var errno: Errno

    constructor (input: seq<byte>, schedule: seq<Event>)
      ensures this.input == input && this.schedule == schedule && output == []
    {
      this.input, this.schedule, output, errno := input, schedule, [], NoError;
    }

    /** The next event; once the schedule is used up every call moves all it can. */
    method NextEvent(n: nat) returns (e: Event)
      modifies this`schedule
      ensures old(schedule) == [] ==> e == Transfer(n) && schedule == []
      ensures old(schedule) != [] ==> e == old(schedule)[0] && schedule == old(schedule)[1..]
    {
      if schedule == [] {
        e := Transfer(n);
      } else {
        e := schedule[0];
        schedule := schedule[1..];
      }
    }

    /** read: the number of bytes stored at buf[off..], zero at the end of the stream, or -1. */
    method Read(buf: array<byte>, off: nat, n: nat) returns (r: int)
      requires 0 < n && off + n <= buf.Length
      modifies this, buf
      ensures output == old(output)
      ensures Later(old(schedule), schedule)
      ensures r == -1 || 0 <= r <= n
      ensures r == -1 ==>
                errno != NoError && input == old(input) && buf[..] == old(buf[..]) && old(schedule) != []
                && |schedule| < |old(schedule)| && (errno != EINTR ==> CanFail(old(schedule)))
      ensures r == 0 ==> old(input) == []
      ensures r == 0 ==> input == [] && buf[..] == old(buf[..])
      ensures r >= 0 ==> Delivered(old(input), input, old(buf[..]), buf[..], off, r)
    {
      var e := NextEvent(n);
      if e == Interrupt {
        errno := EINTR;
        return -1;
      }
      if e == Failure {
        errno := OtherError;
        return -1;
      }
      var k := Moved(e, n, |input|);
      forall i | 0 <= i < k {
        buf[off + i] := input[i];
      }
      StoredIs(old(buf[..]), buf[..], off, input[..k]);
      input := input[k..];
      r := k;
    }

    /** write: the number of bytes accepted, at least one, or -1. */
    method Write(data: seq<byte>) returns (r: int)
      requires data != []
      modifies this
      ensures input == old(input)
      ensures Later(old(schedule), schedule)
      ensures r == -1 || 0 <= r <= |data|
      ensures r == 0 ==> output == old(output) && |schedule| < |old(schedule)| && CanRefuse(old(schedule))
      ensures r == -1 ==>
                errno != NoError && output == old(output) && |schedule| < |old(schedule)|
                && (errno != EINTR ==> CanRefuse(old(schedule)))
      ensures r > 0 ==> output == old(output) + data[..r]
    {
      var e := NextEvent(|data|);
      if e == Interrupt {
        errno := EINTR;
        return -1;
      }
      if e == Failure {
        errno := OtherError;
        return -1;
      }
      if e == Transfer(0) {
        return 0;
      }
      var k := Moved(e, |data|, |data|);
      output := output + data[..k];
      r := k;
    }
  }

  /** Some call may fail for good. */
  ghost predicate CanFail(s: seq<Event>) {
    Failure in s
  }

  /** Some write may fail for good, or accept nothing. */
  ghost predicate CanRefuse(s: seq<Event>) {
    Failure in s || Transfer(0) in s
  }

  /** Some events have been used up. */
  ghost predicate Later(before: seq<Event>, after: seq<Event>) {
    |after| <= |before| && after == before[|before| - |after|..]
  }

  lemma LaterTransitive(a: seq<Event>, b: seq<Event>, c: seq<Event>)
    requires Later(a, b) && Later(b, c)
    ensures Later(a, c)
    ensures CanFail(b) ==> CanFail(a)
    ensures CanRefuse(b) ==> CanRefuse(a)
  {
  }

  /** A buffer with data stored from off on. */
  ghost function Stored(buf: seq<byte>, off: nat, data: seq<byte>): seq<byte>
    requires off + |data| <= |buf|
  {
    buf[..off] + data + buf[off + |data|..]
  }

  /** The first r bytes of the stream have moved to the buffer at off. */
  ghost predicate Delivered(input: seq<byte>, input': seq<byte>, buf: seq<byte>, buf': seq<byte>, off: nat, r: int) {
    && 0 <= r <= |input| && off + r <= |buf|
    && input' == input[r..]
    && buf' == Stored(buf, off, input[..r])
  }

  lemma DeliveredMore(i0: seq<byte>, i1: seq<byte>, i2: seq<byte>, b0: seq<byte>, b1: seq<byte>, b2: seq<byte>,
                      off: nat, r: nat, k: nat)
    requires Delivered(i0, i1, b0, b1, off, r) && Delivered(i1, i2, b1, b2, off + r, k)
    ensures Delivered(i0, i2, b0, b2, off, r + k)
  {
    assert i0[..r + k] == i0[..r] + i0[r..][..k];
    assert i0[r..][k..] == i0[r + k..];
  }

  lemma StoredIs(u: seq<byte>, u': seq<byte>, off: nat, data: seq<byte>)
    requires off + |data| <= |u| == |u'|
    requires forall i | 0 <= i < |data| :: u'[off + i] == data[i]
    requires forall i | 0 <= i < off || off + |data| <= i < |u| :: u'[i] == u[i]
    ensures u' == Stored(u, off, data)
  {
  }

  lemma PrefixMore(s: seq<byte>, i: nat, k: nat)
    requires i + k <= |s|
    ensures s[..i + k] == s[..i] + s[i..][..k]
  {
  }

  lemma LaterSelf(s: seq<Event>)
    ensures Later(s, s)
  {
  }

  /** A stream that is exhausted has delivered everything. */
  lemma DeliveredAll(i: seq<byte>, i': seq<byte>, b: seq<byte>, b': seq<byte>, off: nat, r: int)
    requires Delivered(i, i', b, b', off, r)
    ensures 0 <= r <= |i| && (i' == [] <==> r == |i|)
  {
  }

  lemma DeliveredNone(i: seq<byte>, b: seq<byte>, off: nat)
    requires off <= |b|
    ensures Delivered(i, i, b, b, off, 0)
  {
  }

  // ---------------------------------------------------------------------------
  // Unbuffered functions
  // ---------------------------------------------------------------------------

  /** rio_readn: all n bytes, or as many as there are before the end of the stream. */
  method ReadN(fd: Descriptor, usrbuf: array<byte>, n: nat) returns (r: int)
    requires n <= usrbuf.Length
    modifies fd, usrbuf
    ensures fd.output == old(fd.output) && Later(old(fd.schedule), fd.schedule)
    ensures r == -1 ==> CanFail(old(fd.schedule))
    ensures r != -1 ==>
              r == Min(n, |old(fd.input)|) && Delivered(old(fd.input), fd.input, old(usrbuf[..]), usrbuf[..], 0, r)
  {
    hide Delivered, Later, CanFail;
    ghost var i0, b0, s0 := fd.input, usrbuf[..], fd.schedule;
    var nleft := n;
    DeliveredNone(i0, b0, 0);
    LaterSelf(s0);
    while nleft > 0
      invariant 0 <= nleft <= n
      invariant fd.output == old(fd.output) && Later(s0, fd.schedule)
      invariant Delivered(i0, fd.input, b0, usrbuf[..], 0, n - nleft)
      decreases nleft, |fd.schedule|
    {
      ghost var i1, b1, s1 := fd.input, usrbuf[..], fd.schedule;
      var nread := fd.Read(usrbuf, n - nleft, nleft);
      LaterTransitive(s0, s1, fd.schedule);
      if nread < 0 {
        if fd.errno == EINTR {
          nread := 0;
        } else {
          return -1;
        }
      } else if nread == 0 {
        break;
      } else {
        DeliveredMore(i0, i1, fd.input, b0, b1, usrbuf[..], 0, n - nleft, nread);
      }
      nleft := nleft - nread;
    }
    DeliveredAll(i0, fd.input, b0, usrbuf[..], 0, n - nleft);
    r := n - nleft;
  }

  /** rio_writen: all the bytes. */
  method WriteN(fd: Descriptor, usrbuf: seq<byte>) returns (r: int)
    modifies fd
    ensures fd.input == old(fd.input) && Later(old(fd.schedule), fd.schedule)
    ensures r == -1 ==> CanRefuse(old(fd.schedule))
    ensures r != -1 ==> r == |usrbuf| && fd.output == old(fd.output) + usrbuf
  {
    hide Later, CanRefuse;
    ghost var s0 := fd.schedule;
    var n := |usrbuf|;
    var nleft := n;
    LaterSelf(s0);
    while nleft > 0
      invariant 0 <= nleft <= n
      invariant fd.input == old(fd.input) && Later(s0, fd.schedule)
      invariant fd.output == old(fd.output) + usrbuf[..n - nleft]
      decreases nleft, |fd.schedule|
    {
      ghost var s1 := fd.schedule;
      var nwritten := fd.Write(usrbuf[n - nleft..]);
      LaterTransitive(s0, s1, fd.schedule);
      if nwritten <= 0 {
        if fd.errno == EINTR {
          nwritten := 0;
        } else {
          return -1;
        }
      } else {
        PrefixMore(usrbuf, n - nleft, nwritten);
      }
      nleft := nleft - nwritten;
    }
    assert usrbuf[..n] == usrbuf;
    r := n;
  }
}
