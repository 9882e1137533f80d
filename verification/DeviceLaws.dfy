/** Packets through a device, over whole runs of its table. */
module DeviceLaws {
  import opened Net
  import opened Packet
  import opened PacketLaws
  import opened RoundTrip
  import opened Fragments
  import opened Learning
  import T = Table

  /** The two directions of a table undo each other, also across its growth. */
  lemma {:induction false} DirectionsInvert(s: T.State, t: T.State)
    requires T.Inv(s) && T.Inv(t) && T.Extends(s, t)
    ensures LeftInverse(s.toLocal, t.toReal)
    ensures LeftInverse(s.toReal, t.toLocal)
  {
  }

  /** Write, then any traffic, then Read: a packet that got in always gets out, byte for byte exactly
      when it is restorable. */
  lemma {:induction false} WriteThenRead(s: T.State, p: seq<byte>, between: seq<seq<byte>>)
    requires T.Inv(s)
    requires Rewrite(p, Learned(s, p).toLocal).Some?
    ensures var m := Learned(s, p).toLocal;
      var w := LearnedAll(Learned(s, p), between).toReal;
      var q := Rewrite(p, m).value;
      && Rewrite(q, w).Some?
      && (Rewrite(q, w) == Some(p) <==> Restorable(p, m, w))
  {
    hide T.Inv, T.Extends, Rewrite, Learned, LearnedAll, Restorable, LeftInverse, SettledFor;
    var t := Learned(s, p);
    LearnedSettles(s, p);
    BatchSettles(t, between);
    DirectionsInvert(t, LearnedAll(t, between));
    ThereAndBack(p, t.toLocal, LearnedAll(t, between).toReal);
  }

  /** Read, then any traffic, then Write of the same packet coming back. */
  lemma {:induction false} ReadThenWrite(s: T.State, p: seq<byte>, between: seq<seq<byte>>)
    requires T.Inv(s)
    requires Rewrite(p, s.toReal).Some?
    ensures var q := Rewrite(p, s.toReal).value;
      var w := Learned(LearnedAll(s, between), q).toLocal;
      && Rewrite(q, w).Some?
      && (Rewrite(q, w) == Some(p) <==> Restorable(p, s.toReal, w))
  {
    hide T.Inv, T.Extends, Rewrite, Learned, LearnedAll, Restorable, LeftInverse, SettledFor;
    var q := Rewrite(p, s.toReal).value;
    var t := LearnedAll(s, between);
    BatchSettles(s, between);
    LearnedSettles(t, q);
    T.ExtendsTransitive(s, t, Learned(t, q));
    DirectionsInvert(s, Learned(t, q));
    ThereAndBack(p, s.toReal, Learned(t, q).toLocal);
  }

  /** What became of the k-th packet of a run, under the table as it was right then. */
  function OutcomeAt(s: T.State, traffic: seq<seq<byte>>, k: nat): Option<seq<byte>>
    requires k < |traffic|
  {
    Rewrite(traffic[k], LearnedAll(s, traffic[..k + 1]).toLocal)
  }

  lemma {:induction false} LearnedAllConcat(s: T.State, a: seq<seq<byte>>, b: seq<seq<byte>>)
    ensures LearnedAll(s, a + b) == LearnedAll(LearnedAll(s, a), b)
    decreases |a|
  {
    hide Learned;
    if a == [] {
      assert a + b == b;
    } else {
      LearnedAllConcat(Learned(s, a[0]), a[1..], b);
      assert (a + b)[1..] == a[1..] + b;
    }
  }

  /** It is what the table at the end of the run would have made of it. */
  lemma {:induction false} OutcomeAtIsFinal(s: T.State, traffic: seq<seq<byte>>, k: nat)
    requires T.Inv(s) && k < |traffic|
    ensures OutcomeAt(s, traffic, k) == Rewrite(traffic[k], LearnedAll(s, traffic).toLocal)
  {
    hide T.Inv, T.Extends, Rewrite, Learned, LearnedAll, SettledFor;
    var t := LearnedAll(s, traffic[..k + 1]);
    assert traffic == traffic[..k + 1] + traffic[k + 1..];
    LearnedAllConcat(s, traffic[..k + 1], traffic[k + 1..]);
    BatchSettles(s, traffic[..k + 1]);
    BatchSettles(t, traffic[k + 1..]);
    assert traffic[k] in traffic[..k + 1] by { assert traffic[..k + 1][k] == traffic[k]; }
    OutcomeIsFinal(t, LearnedAll(s, traffic), traffic[k]);
  }

  /** The fragments of a datagram, arriving in any order among other traffic, each translated by the
      table of its moment, reassemble to the datagram as the final table translates it, exactly when
      the first fragment suffices. */
  lemma {:induction false} FragmentsInAnyOrder(s: T.State, traffic: seq<seq<byte>>, at: seq<nat>,
                                               d: seq<byte>, fs: seq<seq<byte>>, gs: seq<seq<byte>>)
    requires T.Inv(s) && |at| == |fs| == |gs| > 0
    requires forall i :: 0 <= i < |fs| ==>
      at[i] < |traffic| && traffic[at[i]] == fs[i] && OutcomeAt(s, traffic, at[i]) == Some(gs[i])
    requires forall f :: f in fs ==> HeaderOk(f)
    requires HeaderOk(d) && FragmentOffset(d) == 0 && (d[9] == TCP || d[9] == UDP)
    requires forall i :: 0 <= i < |fs| ==> FragmentOf(fs[i], d) && (FragmentOffset(fs[i]) == 0 <==> i == 0)
    requires Reassembled(fs) == Payload(d)
    ensures var whole := Rewrite(d, LearnedAll(s, traffic).toLocal);
      && whole.Some? && HeaderOk(whole.value)
      && (forall g :: g in gs ==> HeaderOk(g))
      && NewPair(d, LearnedAll(s, traffic).toLocal).Some?
      && (Reassembled(gs) == Payload(whole.value)
          <==> FirstSuffices(d, Payload(fs[0]), LearnedAll(s, traffic).toLocal))
  {
    var m := LearnedAll(s, traffic).toLocal;
    forall i | 0 <= i < |fs| ensures Rewrite(fs[i], m) == Some(gs[i]) {
      OutcomeAtIsFinal(s, traffic, at[i]);
    }
    PairDecides(fs[0], d, m);
    FragmentwiseIsWhole(d, fs, gs, seq(|fs|, _ => m), m);
  }
}
