/** Any interleaving of the buffered readers of hw5/src/csapp.c: the stream is cut into consecutive pieces. */
module RioSession {
  import opened Prelude
  import opened Rio
  import opened RioBuffered

  /** A call of rio_readnb for n bytes, or of rio_readlineb with maxlen one more than limit. */
  datatype Request = GetBytes(n: nat) | GetLine(limit: nat)

  /** How much of a stream a request takes. */
  function Taken(q: Request, s: seq<byte>): (k: nat)
    ensures k <= |s|
  {
    match q
    case GetBytes(n) => Min(n, |s|)
    case GetLine(limit) => LineLength(s, limit)
  }

  function Pieces(qs: seq<Request>, s: seq<byte>): (ps: seq<seq<byte>>)
    ensures |ps| == |qs|
  {
    if qs == [] then [] else [s[..Taken(qs[0], s)]] + Pieces(qs[1..], s[Taken(qs[0], s)..])
  }

  function Rest(qs: seq<Request>, s: seq<byte>): seq<byte> {
    if qs == [] then s else Rest(qs[1..], s[Taken(qs[0], s)..])
  }

  function Concat(ps: seq<seq<byte>>): seq<byte> {
    if ps == [] then [] else ps[0] + Concat(ps[1..])
  }

  /** Nothing is lost, repeated or reordered. */
  lemma {:induction false} PiecesAreTheStream(qs: seq<Request>, s: seq<byte>)
    ensures Concat(Pieces(qs, s)) + Rest(qs, s) == s
  {
    if qs != [] {
      var k := Taken(qs[0], s);
      PiecesAreTheStream(qs[1..], s[k..]);
      assert Pieces(qs, s)[1..] == Pieces(qs[1..], s[k..]);
      assert s == s[..k] + s[k..];
    }
  }

  /** Reading on is the same as reading it all in one session. */
  lemma {:induction false} SessionsJoin(qs: seq<Request>, rs: seq<Request>, s: seq<byte>)
    ensures Pieces(qs + rs, s) == Pieces(qs, s) + Pieces(rs, Rest(qs, s))
    ensures Rest(qs + rs, s) == Rest(rs, Rest(qs, s))
  {
    if qs == [] {
      assert qs + rs == rs;
    } else {
      assert (qs + rs)[1..] == qs[1..] + rs;
      SessionsJoin(qs[1..], rs, s[Taken(qs[0], s)..]);
    }
  }

  /** One request, with a user buffer of the size the caller announces. */
  method Serve(rp: Reader, q: Request) returns (ok: bool, piece: seq<byte>)
    requires rp.Valid()
    modifies rp, rp.buf, rp.fd
    ensures rp.Valid() && rp.fd.output == old(rp.fd.output) && Later(old(rp.fd.schedule), rp.fd.schedule)
    ensures !ok ==> CanFail(old(rp.fd.schedule))
    ensures ok ==>
              var k := Taken(q, old(rp.Pending()));
              piece == old(rp.Pending())[..k] && rp.Pending() == old(rp.Pending())[k..]
  {
    hide Later, CanFail, Delivered, LineLength, LineStored;
    ghost var p0 := rp.Pending();
    match q
    case GetBytes(n) =>
      var usrbuf := new byte[n];
      ghost var u0 := usrbuf[..];
      var r := ReadNB(rp, usrbuf, n);
      if r < 0 {
        return false, [];
      }
      BytesTaken(p0, rp.Pending(), u0, usrbuf[..], r);
      return true, usrbuf[..r];
    case GetLine(limit) =>
      var usrbuf := new byte[limit + 1];
      ghost var u0 := usrbuf[..];
      var r := ReadLineB(rp, usrbuf, limit + 1);
      if r < 0 {
        return false, [];
      }
      LineTaken(p0, u0, limit);
      return true, usrbuf[..r];
  }

  lemma BytesTaken(p: seq<byte>, p': seq<byte>, u: seq<byte>, u': seq<byte>, r: nat)
    requires Delivered(p, p', u, u', 0, r)
    ensures r <= |p| && r <= |u'| && u'[..r] == p[..r] && p' == p[r..]
  {
  }

  lemma LineTaken(p: seq<byte>, u: seq<byte>, limit: nat)
    requires |u| == limit + 1
    ensures var k := LineLength(p, limit); k <= |LineStored(p, u, limit)| && LineStored(p, u, limit)[..k] == p[..k]
  {
  }

  /** The pieces are the same under every schedule of short reads and interruptions. */
  method Session(rp: Reader, qs: seq<Request>) returns (ok: bool, ps: seq<seq<byte>>)
    requires rp.Valid()
    modifies rp, rp.buf, rp.fd
    ensures rp.Valid() && rp.fd.output == old(rp.fd.output) && Later(old(rp.fd.schedule), rp.fd.schedule)
    ensures !CanFail(old(rp.fd.schedule)) ==> ok
    ensures ok ==> ps == Pieces(qs, old(rp.Pending())) && rp.Pending() == Rest(qs, old(rp.Pending()))
    ensures ok ==> Concat(ps) + rp.Pending() == old(rp.Pending())
  {
    hide Later, CanFail, Taken;
    ghost var p0, s0 := rp.Pending(), rp.fd.schedule;
    LaterSelf(s0);
    ps := [];
    assert qs[..0] == [];
    for i := 0 to |qs|
      invariant rp.Valid() && rp.fd.output == old(rp.fd.output) && Later(s0, rp.fd.schedule)
      invariant ps == Pieces(qs[..i], p0) && rp.Pending() == Rest(qs[..i], p0)
    {
      ghost var p1, s1 := rp.Pending(), rp.fd.schedule;
      var done, piece := Serve(rp, qs[i]);
      LaterTransitive(s0, s1, rp.fd.schedule);
      if !done {
        return false, [];
      }
      SessionsJoin(qs[..i], [qs[i]], p0);
      assert qs[..i + 1] == qs[..i] + [qs[i]];
      ps := ps + [piece];
    }
    assert qs[..|qs|] == qs;
    PiecesAreTheStream(qs, p0);
    ok := true;
  }
}
