/** The Jeux packets of hw5/src/protocol.c over the unbuffered functions of hw5/src/csapp.c. */
module Protocol {
  import opened Prelude
  import opened Rio

  /** sizeof(JEUX_PACKET_HEADER): three octets, padding, a 16-bit size, padding and two 32-bit time stamps. */
  const HEADER := 16

  /** The 16-bit size field in the octets 4 and 5 says how long the payload is, the high octet first. */
  datatype Packet = Packet(header: seq<byte>, payload: seq<byte>) {
    ghost predicate WellFormed() {
      |header| == HEADER && header[4] as nat * 256 + header[5] as nat == |payload|
    }
  }

  /** The payloads that a packet can carry, and the two octets that announce each. */
  lemma WellFormedIff(p: Packet)
    ensures p.WellFormed() <==>
            && |p.header| == 16 && |p.payload| < 65536
            && p.header[4] as nat == |p.payload| / 256 && p.header[5] as nat == |p.payload| % 256
  {
  }

  ghost predicate AllWellFormed(ps: seq<Packet>) {
    forall p | p in ps :: p.WellFormed()
  }

  /** What a list of packets looks like on the wire. */
  function Wire(ps: seq<Packet>): seq<byte> {
    if ps == [] then [] else ps[0].header + ps[0].payload + Wire(ps[1..])
  }

  lemma {:induction false} WireAppend(ps: seq<Packet>, p: Packet)
    ensures Wire(ps + [p]) == Wire(ps) + (p.header + p.payload)
  {
    if ps == [] {
      assert Wire([]) == [] && [p][1..] == [];
      assert p.header + p.payload + [] == p.header + p.payload;
    } else {
      assert (ps + [p])[1..] == ps[1..] + [p];
      WireAppend(ps[1..], p);
    }
  }

  /** The head of the wire decides the first packet. */
  lemma FirstPacket(p: Packet, rest: seq<byte>, s: seq<byte>)
    requires p.WellFormed() && s == p.header + p.payload + rest
    ensures |s| >= HEADER + |p.payload|
    ensures s[..HEADER] == p.header
    ensures s[HEADER..HEADER + |p.payload|] == p.payload
    ensures s[HEADER + |p.payload|..] == rest
  {
  }

  lemma WireNonempty(ps: seq<Packet>)
    requires AllWellFormed(ps)
    ensures ps != [] ==> |Wire(ps)| >= HEADER
  {
    if ps != [] {
      assert ps[0] in ps;
    }
  }

  /** No two lists of packets look alike on the wire. */
  lemma {:induction false} WireInjective(ps: seq<Packet>, qs: seq<Packet>)
    requires AllWellFormed(ps) && AllWellFormed(qs) && Wire(ps) == Wire(qs)
    ensures ps == qs
  {
    WireNonempty(ps);
    WireNonempty(qs);
    if ps != [] && qs != [] {
      assert ps[0] in ps && qs[0] in qs;
      FirstPacket(ps[0], Wire(ps[1..]), Wire(ps));
      FirstPacket(qs[0], Wire(qs[1..]), Wire(ps));
      WireInjective(ps[1..], qs[1..]);
      assert ps == [ps[0]] + ps[1..] && qs == [qs[0]] + qs[1..];
    }
  }

  /** proto_send_packet: the header and as many bytes of data as the header says. */
  method SendPacket(fd: Descriptor, hdr: seq<byte>, data: seq<byte>) returns (r: int)
    requires |hdr| == 16 && hdr[4] as nat * 256 + hdr[5] as nat <= |data|
    modifies fd
    ensures fd.input == old(fd.input) && Later(old(fd.schedule), fd.schedule)
    ensures r == 0 || r == -1
    ensures r == -1 ==> CanRefuse(old(fd.schedule))
    ensures r == 0 ==> fd.output == old(fd.output) + (hdr + data[..hdr[4] as nat * 256 + hdr[5] as nat])
  {
    hide Later, CanRefuse;
    ghost var s0 := fd.schedule;
    var payloadSize := hdr[4] as nat * 256 + hdr[5] as nat;
    var n := WriteN(fd, hdr);
    if n == -1 {
      return -1;
    }
    if payloadSize > 0 {
      ghost var s1 := fd.schedule;
      n := WriteN(fd, data[..payloadSize]);
      LaterTransitive(s0, s1, fd.schedule);
      if n == -1 {
        return -1;
      }
    }
    r := 0;
  }

  /** The header, or what there is of it, has been copied to the caller's storage. */
  ghost predicate HeaderStored(s: seq<byte>, h: seq<byte>, h': seq<byte>) {
    Delivered(s, s[Min(HEADER, |s|)..], h, h', 0, Min(HEADER, |s|))
  }

  /** A packet has been received: what the stream has of the header, and of a payload of the size it names. */
  ghost predicate Received(s: seq<byte>, s': seq<byte>, h: seq<byte>, h': seq<byte>, payload: seq<byte>) {
    && |h'| == HEADER && s != [] && HeaderStored(s, h, h')
    && |payload| == h'[4] as nat * 256 + h'[5] as nat
    && if payload == [] then
         s' == s[Min(HEADER, |s|)..]
       else
         && |s| > HEADER
         && var k := Min(|payload|, |s| - HEADER); payload[..k] == s[HEADER..][..k] && s' == s[HEADER..][k..]
  }

  /** The stream has nothing that could be a packet. */
  ghost predicate NoPacket(s: seq<byte>, h: seq<byte>, h': seq<byte>) {
    && |h'| == HEADER && HeaderStored(s, h, h')
    && (s == [] || (|s| <= HEADER && (h'[4] != 0 || h'[5] != 0)))
  }

  /** proto_recv_packet: the header goes to the caller's storage, a payload to new storage. */
  method RecvPacket(fd: Descriptor, hdr: array<byte>, current: array?<byte>) returns (r: int, payload: array?<byte>)
    requires hdr.Length == HEADER
    modifies fd, hdr
    ensures fd.output == old(fd.output) && Later(old(fd.schedule), fd.schedule)
    ensures r == 0 || r == -1
    ensures r == -1 ==> CanFail(old(fd.schedule)) || (NoPacket(old(fd.input), old(hdr[..]), hdr[..]) && fd.input == [])
    ensures r == 0 && hdr[4] == hdr[5] == 0 ==> payload == current
    ensures r == 0 && (hdr[4] != 0 || hdr[5] != 0) ==>
              payload != null && fresh(payload) && payload.Length == hdr[4] as nat * 256 + hdr[5] as nat
    ensures r == 0 ==> Received(old(fd.input), fd.input, old(hdr[..]), hdr[..],
                                if hdr[4] == hdr[5] == 0 then [] else payload[..])
  {
    hide Later, CanFail, Delivered, Stored;
    ghost var s0, i0, h0 := fd.schedule, fd.input, hdr[..];
    payload := current;
    var n := ReadN(fd, hdr, HEADER);
    if n >= 0 {
      DeliveredRest(i0, fd.input, h0, hdr[..], n);
    }
    if n <= 0 {
      return -1, payload;
    }
    ghost var h1 := hdr[..];
    var payLoadSize := hdr[4] as nat * 256 + hdr[5] as nat;
    if payLoadSize != 0 {
      payload := new byte[payLoadSize];
      ghost var s1, i1, b1 := fd.schedule, fd.input, payload[..];
      var k := ReadN(fd, payload, payLoadSize);
      LaterTransitive(s0, s1, fd.schedule);
      assert hdr[..] == h1;
      if k >= 0 {
        DeliveredRest(i1, fd.input, b1, payload[..], k);
      }
      if k <= 0 {
        return -1, payload;
      }
    }
    r := 0;
  }

  lemma DeliveredRest(i: seq<byte>, i': seq<byte>, b: seq<byte>, b': seq<byte>, r: nat)
    requires Delivered(i, i', b, b', 0, r)
    ensures r <= |i| && r <= |b'| && b'[..r] == i[..r] && i' == i[r..]
  {
  }

  lemma ReceivedOrNot(s: seq<byte>, s': seq<byte>, h: seq<byte>, h': seq<byte>, payload: seq<byte>)
    requires Received(s, s', h, h', payload)
    ensures !NoPacket(s, h, h')
  {
  }

  const ZEROED: seq<byte> := seq(HEADER, _ => 0)

  /** When a stream that ends inside a packet is nevertheless reported as a packet, given zeroed header storage. */
  lemma CutPacketAccepted(p: Packet, n: nat, h': seq<byte>)
    requires p.WellFormed() && n < HEADER + |p.payload|
    requires HeaderStored((p.header + p.payload)[..n], ZEROED, h')
    ensures !NoPacket((p.header + p.payload)[..n], ZEROED, h') <==>
            || HEADER < n
            || 0 < n < 5
            || (n == 5 && p.header[4] == 0)
            || (5 < n < HEADER && p.payload == [])
  {
    var s := (p.header + p.payload)[..n];
    var k := Min(HEADER, n);
    assert s[..k] == p.header[..k];
    assert h' == ZEROED[..0] + s[..k] + ZEROED[k..];
    assert ZEROED[..0] + s[..k] == s[..k];
    assert h' == p.header[..k] + ZEROED[k..];
    assert h'[4] == if 4 < k then p.header[4] else 0;
    assert h'[5] == if 5 < k then p.header[5] else 0;
  }

  /** Receiving from a stream that ends inside a packet, as the server does: with zeroed header storage. */
  method RecvCut(fd: Descriptor, p: Packet, n: nat) returns (r: int)
    requires p.WellFormed() && n < HEADER + |p.payload| && fd.input == (p.header + p.payload)[..n]
    requires !CanFail(fd.schedule)
    modifies fd
    ensures r == 0 <==>
            || HEADER < n
            || 0 < n < 5
            || (n == 5 && p.header[4] == 0)
            || (5 < n < HEADER && p.payload == [])
    ensures r == 0 || r == -1
  {
    hide Later, CanFail, HeaderStored;
    var hdr := new byte[HEADER](_ => 0);
    assert hdr[..] == ZEROED;
    ghost var s := fd.input;
    var payload;
    r, payload := RecvPacket(fd, hdr, null);
    if r == 0 {
      ReceivedOrNot(s, fd.input, ZEROED, hdr[..], if hdr[4] == hdr[5] == 0 then [] else payload[..]);
    }
    CutPacketAccepted(p, n, hdr[..]);
  }

  // ---------------------------------------------------------------------------
  // A whole conversation
  // ---------------------------------------------------------------------------

  method SendAll(fd: Descriptor, ps: seq<Packet>) returns (r: int)
    requires AllWellFormed(ps)
    modifies fd
    ensures fd.input == old(fd.input)
    ensures r == 0 || r == -1
    ensures r == -1 ==> CanRefuse(old(fd.schedule))
    ensures r == 0 ==> fd.output == old(fd.output) + Wire(ps)
  {
    hide Later, CanRefuse, CanFail, Wire;
    ghost var s0, out := fd.schedule, fd.output;
    LaterSelf(s0);
    NothingSent(out);
    assert ps[..0] == [];
    for i := 0 to |ps|
      invariant fd.input == old(fd.input) && Later(s0, fd.schedule)
      invariant fd.output == out + Wire(ps[..i])
    {
      assert ps[i] in ps;
      ghost var s1 := fd.schedule;
      var sent := SendPacket(fd, ps[i].header, ps[i].payload);
      LaterTransitive(s0, s1, fd.schedule);
      if sent == -1 {
        return -1;
      }
      SentMore(out, ps, i);
    }
    assert ps[..|ps|] == ps;
    r := 0;
  }

  lemma NothingSent(out: seq<byte>)
    ensures out + Wire([]) == out
  {
  }

  lemma SentMore(out: seq<byte>, ps: seq<Packet>, i: nat)
    requires i < |ps| && ps[i].WellFormed()
    ensures out + Wire(ps[..i]) +
            (ps[i].header + ps[i].payload[..ps[i].header[4] as nat * 256 + ps[i].header[5] as nat]) ==
                out + Wire(ps[..i + 1])
  {
    WireAppend(ps[..i], ps[i]);
    assert ps[..i + 1] == ps[..i] + [ps[i]];
    assert ps[i].payload[..ps[i].header[4] as nat * 256 + ps[i].header[5] as nat] == ps[i].payload;
  }

  /** One packet off the wire. */
  lemma ReceiveStep(ps: seq<Packet>, s': seq<byte>, h: seq<byte>, h': seq<byte>, payload: seq<byte>)
    requires AllWellFormed(ps) && Received(Wire(ps), s', h, h', payload)
    ensures ps != [] && ps[0] == Packet(h', payload) && s' == Wire(ps[1..]) && AllWellFormed(ps[1..])
  {
    assert ps[0] in ps;
    FirstPacket(ps[0], Wire(ps[1..]), Wire(ps));
    assert h' == ps[0].header;
    hide Wire;
    assert |payload| > 0 ==> payload == payload[..|payload|];
  }

  lemma ReceiveEnd(ps: seq<Packet>, h: seq<byte>, h': seq<byte>)
    requires AllWellFormed(ps) && NoPacket(Wire(ps), h, h')
    ensures ps == []
  {
    if ps != [] {
      assert ps[0] in ps;
      FirstPacket(ps[0], Wire(ps[1..]), Wire(ps));
    }
  }

  /** Receiving until proto_recv_packet gives -1. */
  method ReceiveAll(fd: Descriptor, ghost sent: seq<Packet>) returns (got: seq<Packet>)
    requires AllWellFormed(sent) && fd.input == Wire(sent)
    modifies fd
    ensures fd.output == old(fd.output) && Later(old(fd.schedule), fd.schedule)
    ensures got <= sent
    ensures !CanFail(old(fd.schedule)) ==> got == sent && fd.input == []
  {
    hide Later, CanFail, Wire, Received, NoPacket, AllWellFormed;
    ghost var s0, todo := fd.schedule, sent;
    LaterSelf(s0);
    got := [];
    while true
      invariant fd.output == old(fd.output) && Later(s0, fd.schedule)
      invariant sent == got + todo && AllWellFormed(todo) && fd.input == Wire(todo)
      decreases |todo|
    {
      var hdr := new byte[HEADER];
      ghost var h1, s1 := hdr[..], fd.schedule;
      var r, payload := RecvPacket(fd, hdr, null);
      LaterTransitive(s0, s1, fd.schedule);
      if r == -1 {
        if !CanFail(s1) {
          ReceiveEnd(todo, h1, hdr[..]);
          assert got + [] == got;
        }
        return;
      }
      var p := Packet(hdr[..], if payload == null then [] else payload[..]);
      ReceiveStep(todo, fd.input, h1, hdr[..], p.payload);
      MoveFirst(got, todo);
      got, todo := got + [p], todo[1..];
    }
  }

  lemma MoveFirst<T>(got: seq<T>, todo: seq<T>)
    requires todo != []
    ensures got + todo == got + [todo[0]] + todo[1..]
  {
  }

  /** Sent over a stream that neither side sees fail, the packets arrive, and then the stream ends. */
  method Converse(ps: seq<Packet>, sending: seq<Event>, receiving: seq<Event>) returns (got: seq<Packet>, next: int)
    requires forall p | p in ps ::
               && |p.header| == 16 && |p.payload| < 65536
               && p.header[4] as nat == |p.payload| / 256 && p.header[5] as nat == |p.payload| % 256
    requires !CanRefuse(sending) && !CanFail(receiving)
    ensures got == ps && next == -1
  {
    forall p | p in ps
      ensures p.WellFormed()
    {
      WellFormedIff(p);
    }
    hide Later, CanFail, CanRefuse, Wire, HeaderStored;
    var writer := new Descriptor([], sending);
    var r := SendAll(writer, ps);
    assert writer.output == Wire(ps);
    var reader := new Descriptor(writer.output, receiving);
    got := ReceiveAll(reader, ps);
    LaterTransitive(receiving, reader.schedule, reader.schedule);
    var hdr := new byte[HEADER];
    var payload;
    next, payload := RecvPacket(reader, hdr, null);
  }
}
