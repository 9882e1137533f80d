/** The relay that forwards opaque packets between clients by overlay address, and the client's side
    of its framing. */
module Relay {
  import opened Net
  import opened Packet
  import W = Wire
  import R = RoundTrip

  type Port = nat

  const REGISTER: byte := 1
  const DATA: byte := 2

  /** Datagrams are read into 1500 bytes; what does not fit is cut off. */
  const BUFFER := 1500

  type Clients = map<Addr, Port>

  datatype Sent = Sent(to: Port, frame: seq<byte>)

  // ----- the relay -----

  function HandleClients(cs: Clients, pkt: seq<byte>, src: Port): Clients {
    match Speaker(pkt)
    case None => cs
    case Some(ip) => cs[ip := src]
  }

  /** The overlay address a packet speaks as, if it is one of ours. */
  function Speaker(pkt: seq<byte>): Option<Addr> {
    if |pkt| >= 5 && pkt[0] == REGISTER then Some(AddrAt(pkt, 1))
    else if |pkt| >= 9 && pkt[0] == DATA then Some(AddrAt(pkt, 1))
    else None
  }

  /** What is forwarded, and where: a data packet whose destination is known, without it. */
  function HandleSent(cs: Clients, pkt: seq<byte>, src: Port): Option<Sent> {
    if |pkt| >= 9 && pkt[0] == DATA && AddrAt(pkt, 5) in HandleClients(cs, pkt, src)
    then Some(Sent(HandleClients(cs, pkt, src)[AddrAt(pkt, 5)], [DATA] + Enc32(AddrAt(pkt, 1)) + pkt[9..]))
    else None
  }

  function Read(datagram: seq<byte>): seq<byte> { if |datagram| > BUFFER then datagram[..BUFFER] else datagram }

  class Relay {
    var clients: Clients

    constructor ()
      ensures clients == map[]
    {
      clients := map[];
    }

    method Handle(pkt: seq<byte>, src: Port) returns (sent: Option<Sent>)
      modifies this
      ensures clients == HandleClients(old(clients), pkt, src)
      ensures sent == HandleSent(old(clients), pkt, src)
    {
      sent := None;
      if |pkt| < 1 { return; }
      if pkt[0] == REGISTER {
        if |pkt| < 5 { return; }
        clients := clients[AddrAt(pkt, 1) := src];
      } else if pkt[0] == DATA {
        if |pkt| < 9 { return; }
        var srcIP, dstIP := AddrAt(pkt, 1), AddrAt(pkt, 5);
        var payload := pkt[9..];
        clients := clients[srcIP := src];
        if dstIP !in clients { return; }
        var out: seq<byte> := [DATA];
        out := out + Enc32(srcIP);
        out := out + payload;
        sent := Some(Sent(clients[dstIP], out));
      }
    }
  }

  /** A packet as it arrived: its bytes and where from. */
  datatype Arrival = Arrival(datagram: seq<byte>, src: Port)

  function After(history: seq<Arrival>): Clients {
    if history == [] then map[]
    else HandleClients(After(history[..|history| - 1]), Read(history[|history| - 1].datagram),
        history[|history| - 1].src)
  }

  /** The k-th packet is the last one that spoke as ip. */
  predicate SpokeLast(history: seq<Arrival>, ip: Addr, k: nat) {
    && k < |history| && Speaker(Read(history[k].datagram)) == Some(ip)
    && forall j :: k < j < |history| ==> Speaker(Read(history[j].datagram)) != Some(ip)
  }

  /** After any history, the relay knows an overlay address exactly if someone spoke as it, and then
      by the port that did so last. */
  lemma {:induction false} KnowsLastSpeaker(history: seq<Arrival>, ip: Addr)
    ensures ip in After(history) <==> exists k: nat :: SpokeLast(history, ip, k)
    ensures forall k: nat :: SpokeLast(history, ip, k) ==> ip in After(history) && After(history)[ip] == history[k].src
  {
    hide Speaker, Read;
    if history != [] {
      var front, n := history[..|history| - 1], |history| - 1;
      KnowsLastSpeaker(front, ip);
      if Speaker(Read(history[n].datagram)) == Some(ip) {
        assert SpokeLast(history, ip, n);
        forall k: nat | SpokeLast(history, ip, k) ensures k == n {}
      } else {
        forall k: nat ensures SpokeLast(history, ip, k) <==> SpokeLast(front, ip, k) {
          assert forall j :: 0 <= j < n ==> front[j] == history[j];
        }
      }
    }
  }

  /** Registering is speaking, so a registered node can be reached. */
  lemma {:induction false} RegisteringSpeaks(history: seq<Arrival>, self: Addr, from: Port)
    ensures var all := history + [Arrival(RegisterFrame(self), from)];
      && SpokeLast(all, self, |history|)
      && After(all) == After(history)[self := from]
  {
    var f, s := RegisterFrame(self), Enc32(self);
    assert f[1] == s[0] && f[2] == s[1] && f[3] == s[2] && f[4] == s[3];
    assert AddrAt(f, 1) == self && Read(f) == f;
    assert (history + [Arrival(f, from)])[..|history|] == history;
  }

  // ----- which packets count -----

  /** Only registrations of five bytes and data packets of nine speak, for the address in their first
      four bytes after the type; everything else is ignored. */
  lemma {:induction false} SpeakerIff(pkt: seq<byte>, ip: Addr)
    ensures Speaker(pkt) == Some(ip) <==>
      ((|pkt| >= 5 && pkt[0] == 1) || (|pkt| >= 9 && pkt[0] == 2)) && ip == W.Number(pkt[1..5])
  {
    if |pkt| >= 5 { W.AddressIsNumber(pkt, 1); }
  }

  /** Only data packets are forwarded: to whoever speaks as their destination, in a frame of their type,
      source and payload. */
  lemma {:induction false} SentIff(cs: Clients, pkt: seq<byte>, src: Port, sent: Sent)
    ensures HandleSent(cs, pkt, src) == Some(sent) <==>
      && |pkt| >= 9 && pkt[0] == 2
      && (var to := W.Number(pkt[5..9]);
          if to == W.Number(pkt[1..5]) then sent.to == src else to in cs && cs[to] == sent.to)
      && sent.frame == [2] + pkt[1..5] + pkt[9..]
  {
    if |pkt| >= 9 {
      W.AddressIsNumber(pkt, 1);
      W.AddressIsNumber(pkt, 5);
      R.AddressDecodes(pkt, 1);
    }
  }

  // ----- the client -----

  /** A registration or keepalive. */
  function RegisterFrame(self: Addr): seq<byte> { [REGISTER] + Enc32(self) }

  function DataFrame(self: Addr, to: Addr, payload: seq<byte>): seq<byte> { [DATA] + Enc32(self) + Enc32(to) + payload }

  /** One frame per buffer. */
  method Send(self: Addr, to: Addr, bufs: seq<seq<byte>>) returns (frames: seq<seq<byte>>)
    ensures |frames| == |bufs| && forall i :: 0 <= i < |bufs| ==> frames[i] == DataFrame(self, to, bufs[i])
  {
    frames := [];
    for i := 0 to |bufs|
      invariant |frames| == i && forall j :: 0 <= j < i ==> frames[j] == DataFrame(self, to, bufs[j])
    {
      var frame: seq<byte> := [DATA];
      frame := frame + Enc32(self);
      frame := frame + Enc32(to);
      frame := frame + bufs[i];
      frames := frames + [frame];
    }
  }

  /** What Receive yields for a datagram. */
  function Delivered(frame: seq<byte>): Option<(Addr, seq<byte>)> {
    if |frame| >= 5 && frame[0] == DATA then Some((AddrAt(frame, 1), frame[5..])) else None
  }

  /** One datagram of n bytes sits in the buffer. A data frame is shifted to the front in place, its
      source and overlapping target five bytes apart; anything else is skipped. */
  method Receive(buf: array<byte>, n: nat) returns (got: Option<(Addr, nat)>)
    requires n <= buf.Length
    modifies buf
    ensures got.Some? <==> n >= 5 && old(buf[..])[0] == DATA
    ensures got.Some? ==> got.value == (AddrAt(old(buf[..]), 1), n - 5) && buf[..n - 5] == old(buf[..])[5..n]
    ensures Delivered(old(buf[..n])) == match got case None => None case Some((src, len)) => Some((src, buf[..len]))
    ensures got.None? ==> buf[..] == old(buf[..])
    ensures forall i :: n - 5 <= i < buf.Length && 0 <= i ==> buf[i] == old(buf[i])
  {
    if n < 5 || buf[0] != DATA { return None; }
    var src := AddrAt(buf[..], 1);
    var i := 0;
    while i < n - 5
      invariant 0 <= i <= n - 5
      invariant forall j :: 0 <= j < i ==> buf[j] == old(buf[j + 5])
      invariant forall j :: i <= j < buf.Length ==> buf[j] == old(buf[j])
    {
      buf[i] := buf[i + 5];
      i := i + 1;
    }
    assert buf[..n - 5] == old(buf[..])[5..n];
    got := Some((src, n - 5));
  }

  lemma {:induction false} FrameParts(self: Addr, to: Addr, payload: seq<byte>)
    ensures var f := DataFrame(self, to, payload);
      |f| == 9 + |payload| && f[0] == DATA && AddrAt(f, 1) == self && AddrAt(f, 5) == to && f[9..] == payload
  {
    var f, s, t := DataFrame(self, to, payload), Enc32(self), Enc32(to);
    assert f[1] == s[0] && f[2] == s[1] && f[3] == s[2] && f[4] == s[3];
    assert f[5] == t[0] && f[6] == t[1] && f[7] == t[2] && f[8] == t[3];
  }

  /** The part of a payload that fits the relay's buffer. */
  function Fits(payload: seq<byte>): seq<byte> { if |payload| <= 1491 then payload else payload[..1491] }

  lemma {:induction false} ReadCutsPayload(self: Addr, to: Addr, payload: seq<byte>)
    ensures Read(DataFrame(self, to, payload)) == DataFrame(self, to, Fits(payload))
  {
    FrameParts(self, to, payload);
    var f := DataFrame(self, to, payload);
    assert f == f[..9] + payload && DataFrame(self, to, Fits(payload)) == f[..9] + Fits(payload);
  }

  lemma {:induction false} Forwarded(cs: Clients, self: Addr, to: Addr, payload: seq<byte>, from: Port)
    ensures HandleSent(cs, DataFrame(self, to, payload), from)
         == if to in cs[self := from] then Some(Sent(cs[self := from][to], [DATA] + Enc32(self) + payload)) else None
    ensures HandleClients(cs, DataFrame(self, to, payload), from) == cs[self := from]
  {
    FrameParts(self, to, payload);
  }

  lemma {:induction false} Unframed(self: Addr, payload: seq<byte>)
    ensures Delivered([DATA] + Enc32(self) + payload) == Some((self, payload))
  {
    var f, s := [DATA] + Enc32(self) + payload, Enc32(self);
    assert f[1] == s[0] && f[2] == s[1] && f[3] == s[2] && f[4] == s[3];
    assert f[5..] == payload;
  }

  /** End to end, for a receiver that has spoken: what arrives is the sender's overlay address and as
      much of the payload as fits, at the port the receiver last spoke from; so the payload arrives
      whole exactly when it is no longer than 1491 bytes. */
  lemma {:induction false} EndToEnd(history: seq<Arrival>, self: Addr, to: Addr, from: Port, payload: seq<byte>, k: nat)
    requires SpokeLast(history + [Arrival(DataFrame(self, to, payload), from)], to, k)
    ensures var sent := HandleSent(After(history), Read(DataFrame(self, to, payload)), from);
      && sent.Some? && sent.value.to == (history + [Arrival(DataFrame(self, to, payload), from)])[k].src
      && Delivered(sent.value.frame) == Some((self, Fits(payload)))
      && (Delivered(sent.value.frame) == Some((self, payload)) <==> |payload| <= 1491)
  {
    var all := history + [Arrival(DataFrame(self, to, payload), from)];
    assert all[..|all| - 1] == history;
    KnowsLastSpeaker(all, to);
    ReadCutsPayload(self, to, payload);
    Forwarded(After(history), self, to, Fits(payload), from);
    Unframed(self, Fits(payload));
    hide DataFrame, Read, HandleClients, HandleSent, Delivered, SpokeLast, Enc32;
    assert Fits(payload) == payload <==> |payload| <= 1491;
  }

  /** To an address nobody has spoken as, nothing is sent. */
  lemma {:induction false} UnknownIsDropped(history: seq<Arrival>, self: Addr, to: Addr, from: Port, payload: seq<byte>)
    requires forall k: nat :: !SpokeLast(history + [Arrival(DataFrame(self, to, payload), from)], to, k)
    ensures HandleSent(After(history), Read(DataFrame(self, to, payload)), from) == None
  {
    var all := history + [Arrival(DataFrame(self, to, payload), from)];
    assert all[..|all| - 1] == history;
    KnowsLastSpeaker(all, to);
    ReadCutsPayload(self, to, payload);
    Forwarded(After(history), self, to, Fits(payload), from);
  }
}
