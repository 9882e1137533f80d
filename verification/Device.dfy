/** The translating layer in front of a TUN device. */
module Device {
  import opened Net
  import opened Checksum
  import opened Packet
  import opened PacketLaws
  import opened Integrity
  import opened Learning
  import T = Table

  /** A window onto a buffer: writes through it land in the buffer. */
  datatype Slice = Slice(arr: array<byte>, off: nat, len: nat) {
    predicate InBounds() { off + len <= arr.Length }

    function Bytes(): (b: seq<byte>)
      requires InBounds()
      reads arr
      ensures |b| == len
    {
      arr[off..off + len]
    }

    function From(i: nat): (s: Slice)
      requires InBounds() && i <= len
      reads arr
      ensures s.InBounds() && s.Bytes() == Bytes()[i..]
    {
      Slice(arr, off + i, len - i)
    }

    /** The buffer around the window is as it was in `before`. */
    ghost predicate Around(before: seq<byte>)
      reads arr
    {
      off + len <= |before| == arr.Length
      && arr[..off] == before[..off] && arr[off + len..] == before[off + len..]
    }

    method Put(i: nat, b: seq<byte>)
      requires InBounds() && i + |b| <= len
      modifies arr
      ensures Bytes() == Splice(old(Bytes()), i, b)
      ensures Around(old(arr[..]))
    {
      hide Splice;
      ghost var was := Bytes();
      forall k | 0 <= k < |b| {
        arr[off + i + k] := b[k];
      }
      SpliceBytes(was, i, b);
      assert forall k :: 0 <= k < len ==> Bytes()[k] == arr[off + k];
      assert Bytes() == Splice(was, i, b);
    }
  }

  /** A write confined to the tail of a window leaves the head, and the buffer around, alone. */
  lemma {:induction false} TailWrite(w: Slice, i: nat, before: seq<byte>)
    requires w.InBounds() && i <= w.len
    requires Slice(w.arr, w.off + i, w.len - i).Around(before)
    ensures w.Around(before)
    ensures w.Bytes() == before[w.off..w.off + w.len][..i] + Slice(w.arr, w.off + i, w.len - i).Bytes()
  {
    assert w.arr[..w.off] == w.arr[..w.off + i][..w.off];
    assert before[..w.off] == before[..w.off + i][..w.off];
    assert w.Bytes()[..i] == w.arr[..w.off + i][w.off..];
    assert before[w.off..w.off + w.len][..i] == before[..w.off + i][w.off..];
    assert w.Bytes() == w.Bytes()[..i] + w.Bytes()[i..];
  }

  datatype Direction = ToReal | ToLocal

  class Device {
    const table: T.Mapping
    const selfReal: Addr
    const selfLocal: Addr

    ghost predicate Ok()
      reads this, table
    {
      table.Ok() && selfReal in table.toLocal && table.toLocal[selfReal] == selfLocal
    }

    constructor Init(table: T.Mapping, selfReal: Addr, selfLocal: Addr)
      requires table.Ok() && selfReal in table.toLocal && table.toLocal[selfReal] == selfLocal
      ensures Ok() && this.table == table && this.selfReal == selfReal && this.selfLocal == selfLocal
    {
      this.table, this.selfReal, this.selfLocal := table, selfReal, selfLocal;
    }

    /** Wrap fails exactly when the table has no local address for this node. */
    static method Wrap(table: T.Mapping, selfReal: Addr) returns (d: Option<Device>)
      requires table.Ok()
      modifies table
      ensures table.Ok() && table.Now() == T.Request(old(table.Now()), selfReal).0
      ensures d.Some? <==> T.Request(old(table.Now()), selfReal).1.Some?
      ensures d.Some? ==> fresh(d.value) && d.value.Ok() && d.value.table == table && d.value.selfReal == selfReal
    {
      ghost var before := table.Now();
      var local := table.Local(selfReal);
      if local.None? { return None; }
      T.LocalKeeps(before, selfReal);
      var dev := new Device.Init(table, selfReal, local.value);
      d := Some(dev);
    }

    /** The mapping in force in a direction. */
    ghost function Mapping(dir: Direction): map<Addr, Addr>
      reads table
    {
      if dir == ToReal then table.toReal else table.toLocal
    }

    /** One address, with the shortcut for this node's own; translating inwards may allocate. */
    method Translate(dir: Direction, a: Addr) returns (got: Option<Addr>)
      requires Ok()
      modifies table
      ensures Ok() && T.Extends(old(table.Now()), table.Now())
      ensures dir == ToReal ==> unchanged(table) && got == if a in table.toReal then Some(table.toReal[a]) else None
      ensures dir == ToLocal ==> (table.Now(), got) == T.Request(old(table.Now()), a)
    {
      match dir
      case ToReal =>
        if a == selfLocal { return Some(selfReal); }
        got := table.Real(a);
      case ToLocal =>
        if a == selfReal { return Some(selfLocal); }
        got := table.Local(a);
    }

    /** Two addresses side by side, which is how every header presents them. */
    method TranslatePair(dir: Direction, pkt: Slice) returns (updated: Option<seq<byte>>)
      requires Ok() && pkt.InBounds() && pkt.len >= 20
      modifies table
      ensures Ok() && T.Extends(old(table.Now()), table.Now())
      ensures dir == ToReal ==> unchanged(table)
      ensures dir == ToLocal ==> table.Now() == T.Run(old(table.Now()), Endpoints(pkt.Bytes()))
      ensures updated == NewPair(pkt.Bytes(), Mapping(dir))
      ensures dir == ToLocal ==>
        T.Settled(table.Now(), AddrAt(pkt.Bytes(), 12)) && T.Settled(table.Now(), AddrAt(pkt.Bytes(), 16))
    {
      hide T.Inv, T.Extends, T.Request, AddrAt;
      ghost var before := table.Now();
      var src, dst := AddrAt(pkt.Bytes(), 12), AddrAt(pkt.Bytes(), 16);
      PairSettles(before, src, dst);
      var newSrc := Translate(dir, src);
      var newDst := Translate(dir, dst);
      if newSrc.None? || newDst.None? { return None; }
      updated := Some(Enc32(newSrc.value) + Enc32(newDst.value));
    }

    /** The in-place translation of one packet. */
    method Rewrite(pkt: Slice, dir: Direction) returns (ok: bool)
      requires Ok() && pkt.InBounds()
      modifies pkt.arr, table
      ensures Ok() && pkt.Around(old(pkt.arr[..]))
      ensures ok <==> Packet.Rewrite(old(pkt.Bytes()), Mapping(dir)).Some?
      ensures pkt.Bytes() == if ok then Packet.Rewrite(old(pkt.Bytes()), Mapping(dir)).value else old(pkt.Bytes())
      ensures dir == ToReal ==> unchanged(table)
      ensures dir == ToLocal ==> table.Now() == Learned(old(table.Now()), old(pkt.Bytes()))
    {
      hide FixHeader, FixTransport, LearnedFromTransport, T.Run, T.Inv, T.Extends, AddrAt, Quotes, Splice;
      ghost var p := pkt.Bytes();
      if pkt.len < 20 || pkt.Bytes()[0] / 0x10 != 4 { return false; }
      var ihl := Ihl(pkt.Bytes());
      if ihl < 20 || pkt.len < ihl { return false; }
      var pair := TranslatePair(dir, pkt);
      if pair.None? { return false; }
      var old_, updated := Pair(pkt.Bytes()), pair.value;
      if old_ == updated { return true; }
      ghost var seen := table.Now();
      Apply(pkt, ihl, dir, old_, updated);
      if dir == ToLocal { PairStays(seen, table.Now(), p); }
      ok := true;
    }

    /** The packets the operating system handed over, sizes[i] bytes at the offset of each buffer. A
        refused one keeps its place in the batch with size zero. */
    method Read(bufs: seq<array<byte>>, sizes: array<int>, offset: nat, n: nat)
      requires Ok() && n <= |bufs| && n <= sizes.Length
      requires forall i :: 0 <= i < n ==> offset + sizes[i] <= bufs[i].Length
      requires forall i, j :: 0 <= i < j < n ==> bufs[i] != bufs[j]
      modifies table, sizes, set i | 0 <= i < n :: bufs[i]
      ensures Ok() && unchanged(table)
      ensures forall i :: 0 <= i < n ==>
        ReadOutcome(old(bufs[i][..]), bufs[i][..], old(sizes[i]), sizes[i], offset, table.toReal)
      ensures sizes[n..] == old(sizes[n..])
    {
      hide ReadOutcome, T.Inv;
      for i := 0 to n
        invariant Ok() && unchanged(table)
        invariant forall j :: 0 <= j < i ==>
          ReadOutcome(old(bufs[j][..]), bufs[j][..], old(sizes[j]), sizes[j], offset, table.toReal)
        invariant forall j :: i <= j < n ==> bufs[j][..] == old(bufs[j][..])
        invariant forall j :: i <= j < sizes.Length ==> sizes[j] == old(sizes[j])
      {
        var now := ReadOne(bufs[i], sizes[i], offset);
        sizes[i] := now;
      }
    }

    method ReadOne(buf: array<byte>, size: int, offset: nat) returns (now: int)
      requires Ok() && offset + size <= buf.Length
      modifies buf, table
      ensures Ok() && unchanged(table)
      ensures ReadOutcome(old(buf[..]), buf[..], size, now, offset, table.toReal)
    {
      if size <= 0 { return size; }
      var ok := RewriteWindow(buf, offset, size, ToReal);
      assert old(buf[..])[offset..offset + size] == old(buf[offset..offset + size]);
      now := if ok then size else 0;
    }

    /** Packets off the tunnel; those with a mapping are kept for the adapter. */
    method Write(bufs: seq<array<byte>>, offset: nat) returns (keep: seq<array<byte>>)
      requires Ok()
      requires forall i, j :: 0 <= i < j < |bufs| ==> bufs[i] != bufs[j]
      modifies table, set i | 0 <= i < |bufs| :: bufs[i]
      ensures Ok() && T.Extends(old(table.Now()), table.Now())
      ensures table.Now() == LearnedAll(old(table.Now()), Offered(old(Snapshot(bufs)), offset))
      ensures forall i :: 0 <= i < |bufs| ==> WriteOutcome(old(bufs[i][..]), bufs[i][..], offset, table.toLocal)
      ensures keep == Kept(bufs, old(Snapshot(bufs)), offset, table.toLocal)
    {
      hide Accepts, WriteOutcome, Learned, LearnedAll, Offered, Kept, SettledFor, Snapshot, T.Inv, T.Extends, T.Settled;
      keep := [];
      ghost var was, bs := table.Now(), Snapshot(bufs);
      BatchStart(was, bufs, bs, offset, table.toLocal);
      for i := 0 to |bufs|
        invariant Ok()
        invariant table.Now() == LearnedAll(was, Offered(bs[..i], offset))
        invariant forall j :: 0 <= j < i ==> WriteOutcome(bs[j], bufs[j][..], offset, table.toLocal)
        invariant forall j :: i <= j < |bufs| ==> bufs[j][..] == bs[j]
        invariant keep == Kept(bufs[..i], bs[..i], offset, table.toLocal)
      {
        ghost var before, done := table.Now(), Snapshot(bufs[..i]);
        var ok := WriteOne(bufs[i], offset);
        assert forall j :: 0 <= j < i ==> bufs[j][..] == done[j];
        assert forall j :: i < j < |bufs| ==> bufs[j][..] == bs[j];
        BatchStep(was, bs, done, offset, i, table.Now());
        KeptStep(bufs, bs, offset, i, before.toLocal, table.toLocal);
        if ok { keep := keep + [bufs[i]]; }
      }
      assert bs[..|bufs|] == bs && bufs[..|bufs|] == bufs;
      BatchSettles(was, Offered(bs, offset));
    }

    method WriteOne(buf: array<byte>, offset: nat) returns (ok: bool)
      requires Ok()
      modifies buf, table
      ensures Ok()
      ensures ok <==> Accepts(old(buf[..]), offset, table.toLocal)
      ensures WriteOutcome(old(buf[..]), buf[..], offset, table.toLocal)
      ensures table.Now() == if buf.Length > offset then Learned(old(table.Now()), old(buf[..])[offset..])
          else old(table.Now())
    {
      hide Packet.Rewrite, Learned, T.Inv;
      if buf.Length <= offset { return false; }
      ghost var whole := buf[..];
      assert buf[offset..offset + (buf.Length - offset)] == whole[offset..];
      ok := RewriteWindow(buf, offset, buf.Length - offset, ToLocal);
    }

    /** One packet of a batch, seen from the whole buffer. */
    method RewriteWindow(buf: array<byte>, offset: nat, size: nat, dir: Direction) returns (ok: bool)
      requires Ok() && offset + size <= buf.Length
      modifies buf, table
      ensures Ok()
      ensures ok <==> Packet.Rewrite(old(buf[offset..offset + size]), Mapping(dir)).Some?
      ensures buf[..]
           == if ok
              then Splice(old(buf[..]), offset, Packet.Rewrite(old(buf[offset..offset + size]), Mapping(dir)).value)
                         else old(buf[..])
      ensures dir == ToReal ==> unchanged(table)
      ensures dir == ToLocal ==> table.Now() == Learned(old(table.Now()), old(buf[offset..offset + size]))
    {
      hide Packet.Rewrite, Learned, T.Inv, T.Extends;
      var w := Slice(buf, offset, size);
      ghost var whole := buf[..];
      ok := Rewrite(w, dir);
      assert whole[offset..offset + size] == old(buf[offset..offset + size]);
      WindowIsSplice(whole, buf[..], offset, w.Bytes());
      if !ok { WindowIsSplice(whole, whole, offset, w.Bytes()); }
    }

    /** The edits, once both addresses are known and differ from what the header says. */
    method Apply(pkt: Slice, ihl: nat, dir: Direction, old_: seq<byte>, updated: seq<byte>)
      requires Ok() && pkt.InBounds() && HeaderOk(pkt.Bytes()) && ihl == Ihl(pkt.Bytes())
      requires old_ == Pair(pkt.Bytes()) && |updated| == 8 && updated != old_
      modifies pkt.arr, table
      ensures Ok() && T.Extends(old(table.Now()), table.Now()) && pkt.Around(old(pkt.arr[..]))
      ensures pkt.Bytes() == FixHeader(Header(old(pkt.Bytes())), updated)
        + if LaterFragment(old(pkt.Bytes())) then Payload(old(pkt.Bytes()))
          else FixTransport(old(pkt.Bytes())[9], Payload(old(pkt.Bytes())), old_, updated, Mapping(dir))
      ensures dir == ToReal ==> unchanged(table)
      ensures dir == ToLocal ==> (table.Now() ==
        if LaterFragment(old(pkt.Bytes())) then old(table.Now())
        else LearnedFromTransport(old(table.Now()), old(pkt.Bytes())[9], Payload(old(pkt.Bytes()))))
    {
      Assembled(pkt.Bytes(), updated);
      EditHeader(pkt, updated);
      if LaterFragment(pkt.Bytes()) { return; }
      RewriteRest(pkt, ihl, dir, old_, updated);
    }

    /** What follows the header, in the same buffer. */
    method RewriteRest(pkt: Slice, ihl: nat, dir: Direction, old_: seq<byte>, updated: seq<byte>)
      requires Ok() && pkt.InBounds() && 20 <= ihl <= pkt.len && |old_| == |updated| == 8
      modifies pkt.arr, table
      ensures Ok() && T.Extends(old(table.Now()), table.Now()) && pkt.Around(old(pkt.arr[..]))
      ensures pkt.Bytes() == old(pkt.Bytes())[..ihl]
                           + FixTransport(old(pkt.Bytes())[9], old(pkt.Bytes())[ihl..], old_, updated, Mapping(dir))
      ensures dir == ToReal ==> unchanged(table)
      ensures dir == ToLocal ==>
        table.Now() == LearnedFromTransport(old(table.Now()), old(pkt.Bytes())[9], old(pkt.Bytes())[ihl..])
    {
      var l4 := pkt.From(ihl);
      RewriteTransport(pkt.Bytes()[9], l4, dir, old_, updated);
      TailWrite(pkt, ihl, old(pkt.arr[..]));
    }

    /** The new pair and the header checksum that goes with it. */
    static method EditHeader(pkt: Slice, updated: seq<byte>)
      requires pkt.InBounds() && pkt.len >= 20 && |updated| == 8
      modifies pkt.arr
      ensures pkt.Bytes() == FixHeader(old(pkt.Bytes()), updated) && pkt.Around(old(pkt.arr[..]))
    {
      var old_ := Pair(pkt.Bytes());
      pkt.Put(12, updated);
      var cs := CsumUpdate(Get16(pkt.Bytes(), 10), old_, updated);
      pkt.Put(10, Enc16(cs));
    }

    /** The transport checksum of a segment whose pair went from old_ to updated. */
    method RewriteTransport(proto: byte, l4: Slice, dir: Direction, old_: seq<byte>, updated: seq<byte>)
      requires Ok() && l4.InBounds() && |old_| == |updated| == 8
      modifies l4.arr, table
      ensures Ok() && T.Extends(old(table.Now()), table.Now()) && l4.Around(old(l4.arr[..]))
      ensures l4.Bytes() == FixTransport(proto, old(l4.Bytes()), old_, updated, Mapping(dir))
      ensures dir == ToReal ==> unchanged(table)
      ensures dir == ToLocal ==> table.Now() == LearnedFromTransport(old(table.Now()), proto, old(l4.Bytes()))
    {
      if proto == TCP {
        if l4.len >= 18 {
          var cs := CsumUpdate(Get16(l4.Bytes(), 16), old_, updated);
          l4.Put(16, Enc16(cs));
        }
      } else if proto == UDP {
        if l4.len >= 8 {
          var cs := Get16(l4.Bytes(), 6);
          if cs != 0 {
            var fixed := CsumUpdate(cs, old_, updated);
            if fixed == 0 { fixed := 0xffff; }
            l4.Put(6, Enc16(fixed));
          }
        }
      } else if proto == ICMP {
        RewriteQuoted(l4, dir);
      }
    }

    /** The header an ICMP error quotes, its own checksum, and the error's checksum over both. */
    method RewriteQuoted(icmp: Slice, dir: Direction)
      requires Ok() && icmp.InBounds()
      modifies icmp.arr, table
      ensures Ok() && T.Extends(old(table.Now()), table.Now()) && icmp.Around(old(icmp.arr[..]))
      ensures icmp.Bytes() == FixQuote(old(icmp.Bytes()), Mapping(dir))
      ensures dir == ToReal ==> unchanged(table)
      ensures dir == ToLocal ==> table.Now() == LearnedFromTransport(old(table.Now()), ICMP, old(icmp.Bytes()))
    {
      hide T.Inv, T.Extends, T.Settled, T.Run, RewriteQuote, NewPair, AddrAt, Endpoints;
      T.ExtendsReflexive(table.Now());
      if icmp.len < 8 { return; }
      match icmp.Bytes()[0] {
        case 3 | 11 | 12 =>
        case _ => return;
      }
      var inner := icmp.From(8);
      ghost var quote := inner.Bytes();
      if inner.len < 20 || inner.Bytes()[0] / 0x10 != 4 { return; }
      var pair := TranslatePair(dir, inner);
      if pair.None? { return; }
      var old_, updated := Pair(inner.Bytes()), pair.value;
      if old_ == updated { return; }
      EditQuote(icmp, updated);
    }

    static method EditQuote(icmp: Slice, updated: seq<byte>)
      requires icmp.InBounds() && Quotes(icmp.Bytes()) && |updated| == 8
      modifies icmp.arr
      ensures icmp.Bytes() == RewriteQuote(old(icmp.Bytes()), updated) && icmp.Around(old(icmp.arr[..]))
    {
      var inner := icmp.From(8);
      var old_ := Pair(inner.Bytes());
      var change := EditQuotedHeader(inner, updated);
      TailWrite(icmp, 8, old(icmp.arr[..]));
      ghost var p, quote := old(icmp.Bytes()), inner.Bytes();
      assert icmp.Bytes() == p[..8] + quote;
      var cs := CsumUpdate(Get16(icmp.Bytes(), 2), old_, updated);
      if change.Some? {
        cs := CsumUpdate(cs, Enc16(change.value.0), Enc16(change.value.1));
      }
      QuoteAssembled(p, updated, quote, cs);
      icmp.Put(2, Enc16(cs));
    }

    /** The quoted pair and, when the quoted header is whole, its checksum before and after. */
    static method EditQuotedHeader(inner: Slice, updated: seq<byte>) returns (change: Option<(uint16, uint16)>)
      requires inner.InBounds() && inner.len >= 20 && inner.Bytes()[0] / 0x10 == 4 && |updated| == 8
      modifies inner.arr
      ensures inner.Around(old(inner.arr[..]))
      ensures change.Some? <==> HeaderOk(old(inner.Bytes()))
      ensures inner.Bytes() == if change.Some? then FixHeader(old(inner.Bytes()), updated)
          else Splice(old(inner.Bytes()), 12, updated)
      ensures change.Some? ==>
        && change.value.0 == Get16(old(inner.Bytes()), 10)
        && change.value.1 == Rfc1624(Get16(old(inner.Bytes()), 10), Pair(old(inner.Bytes())), updated)
    {
      var old_ := Pair(inner.Bytes());
      inner.Put(12, updated);
      var innerIhl := Ihl(inner.Bytes());
      if innerIhl < 20 || inner.len < innerIhl { return None; }
      var before := Get16(inner.Bytes(), 10);
      var after := CsumUpdate(before, old_, updated);
      inner.Put(10, Enc16(after));
      change := Some((before, after));
    }
  }

  // ----- batches -----

  lemma {:induction false} WindowIsSplice(before: seq<byte>, after: seq<byte>, off: nat, b: seq<byte>)
    requires off + |b| <= |before| == |after|
    requires after[..off] == before[..off] && after[off..off + |b|] == b && after[off + |b|..] == before[off + |b|..]
    ensures after == Splice(before, off, b)
  {
    assert after == after[..off] + after[off..off + |b|] + after[off + |b|..];
  }

  ghost function Snapshot(bufs: seq<array<byte>>): (bs: seq<seq<byte>>)
    reads set i | 0 <= i < |bufs| :: bufs[i]
    ensures |bs| == |bufs| && forall i :: 0 <= i < |bufs| ==> bs[i] == bufs[i][..]
  {
    if bufs == [] then [] else [bufs[0][..]] + Snapshot(bufs[1..])
  }

  lemma {:induction false} BatchStart(s: T.State, bufs: seq<array<byte>>, bs: seq<seq<byte>>, offset: nat,
                                      m: map<Addr, Addr>)
    requires |bufs| == |bs|
    ensures LearnedAll(s, Offered(bs[..0], offset)) == s && Kept(bufs[..0], bs[..0], offset, m) == []
  {
  }

  /** One more packet: the table learns from it, and the outcomes so far do not move. */
  lemma {:induction false} BatchStep(s: T.State, bs: seq<seq<byte>>, done: seq<seq<byte>>, offset: nat, i: nat,
                                     t: T.State)
    requires T.Inv(s) && i < |bs| && |done| == i
    requires var now := LearnedAll(s, Offered(bs[..i], offset));
      && t == (if |bs[i]| > offset then Learned(now, bs[i][offset..]) else now)
      && forall j :: 0 <= j < i ==> WriteOutcome(bs[j], done[j], offset, now.toLocal)
    ensures t == LearnedAll(s, Offered(bs[..i + 1], offset))
    ensures forall j :: 0 <= j < i ==> WriteOutcome(bs[j], done[j], offset, t.toLocal)
    ensures forall j :: 0 <= j < i ==>
      (Accepts(bs[j], offset, t.toLocal) <==> Accepts(bs[j], offset, LearnedAll(s, Offered(bs[..i], offset)).toLocal))
  {
    hide T.Inv, T.Extends, Packet.Rewrite, Learned, LearnedAll, Offered, SettledFor;
    var now := LearnedAll(s, Offered(bs[..i], offset));
    OfferedStep(bs, offset, i);
    BatchSettles(s, Offered(bs[..i], offset));
    if |bs[i]| > offset {
      LearnedAllAppend(s, Offered(bs[..i], offset), bs[i][offset..]);
      LearnedSettles(now, bs[i][offset..]);
      forall j | 0 <= j < i && |bs[j]| > offset
        ensures Packet.Rewrite(bs[j][offset..], t.toLocal) == Packet.Rewrite(bs[j][offset..], now.toLocal)
      {
        OfferedHas(bs[..i], offset, j);
        OutcomeIsFinal(now, t, bs[j][offset..]);
      }
    }
  }

  /** What Read leaves of one buffer: translated with its size, or untouched with size zero. */
  ghost predicate ReadOutcome(before: seq<byte>, after: seq<byte>, size: int, now: int, offset: nat,
                              m: map<Addr, Addr>) {
    if size <= 0 then now == size && after == before
    else
      && offset + size <= |before|
      && match Packet.Rewrite(before[offset..offset + size], m)
         case None => now == 0 && after == before
         case Some(q) => now == size && after == Splice(before, offset, q)
  }

  /** What Write leaves of one buffer. */
  ghost predicate WriteOutcome(before: seq<byte>, after: seq<byte>, offset: nat, m: map<Addr, Addr>) {
    if !Accepts(before, offset, m) then after == before
    else after == before[..offset] + Packet.Rewrite(before[offset..], m).value
  }

  predicate Accepts(b: seq<byte>, offset: nat, m: map<Addr, Addr>) {
    |b| > offset && Packet.Rewrite(b[offset..], m).Some?
  }

  /** The packets a batch offers: buffers with nothing after the offset are skipped. */
  function Offered(bs: seq<seq<byte>>, offset: nat): seq<seq<byte>>
    decreases |bs|
  {
    if bs == [] then []
    else
      var n := |bs| - 1;
      Offered(bs[..n], offset) + if |bs[n]| > offset then [bs[n][offset..]] else []
  }

  /** The buffers that reach the adapter, in order. */
  ghost function Kept(bufs: seq<array<byte>>, bs: seq<seq<byte>>, offset: nat, m: map<Addr, Addr>): seq<array<byte>>
    requires |bufs| == |bs|
    decreases |bs|
  {
    if bs == [] then []
    else
      var n := |bs| - 1;
      Kept(bufs[..n], bs[..n], offset, m) + if Accepts(bs[n], offset, m) then [bufs[n]] else []
  }

  lemma {:induction false} OfferedStep(bs: seq<seq<byte>>, offset: nat, i: nat)
    requires i < |bs|
    ensures Offered(bs[..i + 1], offset)
         == if |bs[i]| > offset then Offered(bs[..i], offset) + [bs[i][offset..]] else Offered(bs[..i], offset)
  {
    assert bs[..i + 1][..i] == bs[..i];
  }

  lemma {:induction false} OfferedHas(bs: seq<seq<byte>>, offset: nat, i: nat)
    requires i < |bs| && |bs[i]| > offset
    ensures bs[i][offset..] in Offered(bs, offset)
    decreases |bs|
  {
    var n := |bs| - 1;
    if i < n {
      OfferedHas(bs[..n], offset, i);
    }
  }

  lemma {:induction false} KeptStep(bufs: seq<array<byte>>, bs: seq<seq<byte>>, offset: nat, i: nat,
                                    m: map<Addr, Addr>, w: map<Addr, Addr>)
    requires |bufs| == |bs| > i
    requires forall j :: 0 <= j < i ==> (Accepts(bs[j], offset, w) <==> Accepts(bs[j], offset, m))
    ensures Kept(bufs[..i + 1], bs[..i + 1], offset, w)
         == Kept(bufs[..i], bs[..i], offset, m) + if Accepts(bs[i], offset, w) then [bufs[i]] else []
  {
    assert bs[..i + 1][..i] == bs[..i] && bufs[..i + 1][..i] == bufs[..i];
    KeptStable(bufs[..i], bs[..i], offset, m, w);
  }

  lemma {:induction false} KeptStable(bufs: seq<array<byte>>, bs: seq<seq<byte>>, offset: nat, m: map<Addr, Addr>,
                                      w: map<Addr, Addr>)
    requires |bufs| == |bs|
    requires forall j :: 0 <= j < |bs| ==> (Accepts(bs[j], offset, w) <==> Accepts(bs[j], offset, m))
    ensures Kept(bufs, bs, offset, w) == Kept(bufs, bs, offset, m)
    decreases |bs|
  {
    if bs != [] {
      KeptStable(bufs[..|bs| - 1], bs[..|bs| - 1], offset, m, w);
    }
  }

  /** Fixing the header in place, then the rest, is the translation. */
  lemma {:induction false} Assembled(p: seq<byte>, updated: seq<byte>)
    requires HeaderOk(p) && |updated| == 8 && updated != Pair(p)
    ensures var f, ihl := FixHeader(p, updated), Ihl(p);
      && (LaterFragment(f) <==> LaterFragment(p)) && f[9] == p[9]
      && f == FixHeader(Header(p), updated) + Payload(p)
      && f[..ihl] == FixHeader(Header(p), updated) && f[ihl..] == Payload(p)
  {
    HeaderOfFixed(p, updated);
    FixHeaderBytes(p, updated);
    var f := FixHeader(p, updated);
    assert forall i :: 0 <= i < 10 ==> f[i] == f[..10][i] && p[i] == p[..10][i];
    assert f == Header(f) + Payload(f);
  }

  lemma {:induction false} QuoteAssembled(p: seq<byte>, updated: seq<byte>, quote: seq<byte>, cs: uint16)
    requires Quotes(p) && |updated| == 8 && cs == QuoteChecksum(p, updated)
    requires quote == if HeaderOk(p[8..]) then FixHeader(p[8..], updated) else Splice(p[8..], 12, updated)
    ensures Splice(p[..8] + quote, 2, Enc16(cs)) == RewriteQuote(p, updated)
  {
    var whole := Splice(p[..8] + quote, 2, Enc16(cs));
    assert (p[..8] + quote)[..8] == p[..8] && (p[..8] + quote)[8..] == quote;
    SplicePrefix(p[..8] + quote, 2, Enc16(cs), 8);
    assert whole == whole[..8] + whole[8..];
  }

  lemma {:induction false} PairStays(s: T.State, t: T.State, p: seq<byte>)
    requires T.Inv(s) && T.Inv(t) && T.Extends(s, t) && |p| >= 20
    requires T.Settled(s, AddrAt(p, 12)) && T.Settled(s, AddrAt(p, 16))
    ensures NewPair(p, t.toLocal) == NewPair(p, s.toLocal)
  {
    T.SettledStays(s, t, AddrAt(p, 12));
    T.SettledStays(s, t, AddrAt(p, 16));
  }
}
