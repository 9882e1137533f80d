/** What the translator makes of one IPv4 packet, as a function of its bytes and of the address
    mapping in force. The in-place procedure that computes it is in Device.dfy. */
module Packet {
  import opened Net
  import opened Checksum

  const ICMP: byte := 1
  const TCP: byte := 6
  const UDP: byte := 17

  function Get16(p: seq<byte>, i: nat): uint16
    requires i + 2 <= |p|
  {
    Word(p[i], p[i + 1])
  }

  /** A word as two bytes, big end first: the high byte counts the 256s, the low
      byte is what is left. */
  function Enc16(v: uint16): (b: seq<byte>)
    ensures |b| == 2 && Get16(b, 0) == v && WordSum(b) == v
  {
    if v < 0x100 then
      var b := [0, v];
      assert b[2..] == [];
      b
    else
      var below := Enc16(v - 0x100);
      assert below[2..] == [];
      var b := [below[0] + 1, below[1]];
      assert b[2..] == [];
      b
  }

  function AddrAt(p: seq<byte>, i: nat): Addr
    requires i + 4 <= |p|
  {
    Get16(p, i) * 0x1_0000 + Get16(p, i + 2)
  }

  function Enc32(a: Addr): (b: seq<byte>)
    ensures |b| == 4 && AddrAt(b, 0) == a
  {
    Enc16(a / 0x1_0000) + Enc16(a % 0x1_0000)
  }

  function Put16(p: seq<byte>, i: nat, v: uint16): (r: seq<byte>)
    requires i + 2 <= |p|
    ensures |r| == |p|
  {
    Splice(p, i, Enc16(v))
  }

  function Ihl(p: seq<byte>): nat
    requires p != []
  {
    (p[0] % 0x10) * 4
  }

  /** A complete IPv4 header. */
  predicate HeaderOk(p: seq<byte>) {
    |p| >= 20 && p[0] / 0x10 == 4 && 20 <= Ihl(p) <= |p|
  }

  function Header(p: seq<byte>): (h: seq<byte>)
    requires HeaderOk(p)
    ensures |h| == Ihl(p)
  {
    p[..Ihl(p)]
  }

  function Payload(p: seq<byte>): (l4: seq<byte>)
    requires HeaderOk(p)
    ensures |l4| == |p| - Ihl(p)
  {
    p[Ihl(p)..]
  }

  /** Source and destination as they stand in the header. */
  function Pair(p: seq<byte>): (b: seq<byte>)
    requires |p| >= 20
    ensures |b| == 8
  {
    p[12..20]
  }

  /** The translated pair, when both addresses have a mapping. */
  function NewPair(p: seq<byte>, m: map<Addr, Addr>): (r: Option<seq<byte>>)
    requires |p| >= 20
    ensures r.Some? ==> |r.value| == 8
  {
    if AddrAt(p, 12) in m && AddrAt(p, 16) in m
    then Some(Enc32(m[AddrAt(p, 12)]) + Enc32(m[AddrAt(p, 16)]))
    else None
  }

  /** The fragment offset, in units of eight bytes: the low 13 bits of the word behind the three flags. */
  function FragmentOffset(p: seq<byte>): nat
    requires |p| >= 20
  {
    Get16(p, 6) % 0x2000
  }

  predicate LaterFragment(p: seq<byte>)
    requires |p| >= 20
  {
    p[6] % 0x20 != 0 || p[7] != 0
  }

  /** A header with a new pair and its checksum at offset 10 carried over. */
  function FixHeader(h: seq<byte>, updated: seq<byte>): (r: seq<byte>)
    requires |h| >= 20 && |updated| == 8
    ensures |r| == |h|
  {
    Put16(Splice(h, 12, updated), 10, Rfc1624(Get16(h, 10), Pair(h), updated))
  }

  /** UDP spells a checksum of zero 0xffff, because zero means "not computed". */
  function UdpForm(cs: uint16): uint16 { if cs == 0 then 0xffff else cs }

  function FixTransport(proto: byte, l4: seq<byte>, old_: seq<byte>, updated: seq<byte>,
                        m: map<Addr, Addr>): (r: seq<byte>)
    requires |old_| == |updated| == 8
    ensures |r| == |l4|
  {
    if proto == TCP && |l4| >= 18 then
      Put16(l4, 16, Rfc1624(Get16(l4, 16), old_, updated))
    else if proto == UDP && |l4| >= 8 && Get16(l4, 6) != 0 then
      Put16(l4, 6, UdpForm(Rfc1624(Get16(l4, 6), old_, updated)))
    else if proto == ICMP then
      FixQuote(l4, m)
    else
      l4
  }

  /** An ICMP error that quotes at least an IPv4 header's fixed part. */
  predicate Quotes(icmp: seq<byte>) {
    |icmp| >= 28 && (icmp[0] == 3 || icmp[0] == 11 || icmp[0] == 12) && icmp[8] / 0x10 == 4
  }

  predicate QuoteChanges(icmp: seq<byte>, m: map<Addr, Addr>) {
    Quotes(icmp) && NewPair(icmp[8..], m).Some? && NewPair(icmp[8..], m).value != Pair(icmp[8..])
  }

  function FixQuote(icmp: seq<byte>, m: map<Addr, Addr>): (r: seq<byte>)
    ensures |r| == |icmp|
  {
    if QuoteChanges(icmp, m) then RewriteQuote(icmp, NewPair(icmp[8..], m).value) else icmp
  }

  function RewriteQuote(icmp: seq<byte>, updated: seq<byte>): (r: seq<byte>)
    requires Quotes(icmp) && |updated| == 8
    ensures |r| == |icmp|
  {
    var inner := icmp[8..];
    var cs := Rfc1624(Get16(icmp, 2), Pair(inner), updated);
    if HeaderOk(inner) then
      var before := Get16(inner, 10);
      var after := Rfc1624(before, Pair(inner), updated);
      Put16(icmp[..8], 2, Rfc1624(cs, Enc16(before), Enc16(after))) + FixHeader(inner, updated)
    else
      Put16(icmp[..8], 2, cs) + Splice(inner, 12, updated)
  }

  /** The whole translation: None when the packet is refused. */
  function Rewrite(p: seq<byte>, m: map<Addr, Addr>): (r: Option<seq<byte>>)
    ensures r.Some? ==> |r.value| == |p|
  {
    if !HeaderOk(p) || NewPair(p, m).None? then None
    else
      var updated := NewPair(p, m).value;
      if updated == Pair(p) then Some(p)
      else if LaterFragment(p) then Some(FixHeader(Header(p), updated) + Payload(p))
      else Some(FixHeader(Header(p), updated) + FixTransport(p[9], Payload(p), Pair(p), updated, m))
  }
}
