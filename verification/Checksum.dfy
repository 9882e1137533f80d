/** The ones-complement checksum of RFC 1071 and its incremental update (RFC 1624, section 3). */
module Checksum {
  import opened Net

  /** A big-endian 16-bit word. */
  function Word(hi: byte, lo: byte): (w: uint16)
  {
    var h: int := hi;
    h * 0x100 + lo
  }

  /** Sum of the big-endian 16-bit words of a block; an odd last byte is a high half. */
  function WordSum(b: seq<byte>): nat {
    if b == [] then 0
    else if |b| == 1 then Word(b[0], 0)
    else Word(b[0], b[1]) + WordSum(b[2..])
  }

  /** What is left of a number when every 65535 is cast out. */
  function Residue(n: int): (r: nat)
    ensures r < 0xffff
    decreases if n < 0 then 0xffff - n else n
  {
    if n < 0 then Residue(n + 0xffff) else if n < 0xffff then n else Residue(n - 0xffff)
  }

  /** Equality of residues mod 65535, the ring ones-complement sums live in. */
  predicate Cong(a: int, b: int) { Residue(a) == Residue(b) }

  lemma {:induction false} ResidueIsMod(n: int)
    ensures Residue(n) == n % 0xffff
    decreases if n < 0 then 0xffff - n else n
  {
    if n < 0 {
      ResidueIsMod(n + 0xffff);
      ModShift(n);
    } else if n >= 0xffff {
      ResidueIsMod(n - 0xffff);
      ModShift(n - 0xffff);
    }
  }

  lemma {:induction false} ModShift(n: int)
    ensures (n + 0xffff) % 0xffff == n % 0xffff
  {
  }

  lemma {:induction false} CongIsMod(a: int, b: int)
    ensures Cong(a, b) <==> (a - b) % 0xffff == 0
  {
    hide Residue;
    ResidueIsMod(a);
    ResidueIsMod(b);
  }

  lemma {:induction false} CongByQuotient(a: int, b: int, k: int)
    requires a == b + 0xffff * k
    ensures Cong(a, b)
  {
    hide Cong;
    CongIsMod(a, b);
  }

  lemma {:induction false} CongSum(a: int, b: int, c: int, d: int)
    requires Cong(a, b) && Cong(c, d)
    ensures Cong(a + c, b + d) && Cong(a - c, b - d)
  {
    hide Cong;
    CongIsMod(a, b);
    CongIsMod(c, d);
    var i, j := (a - b) / 0xffff, (c - d) / 0xffff;
    CongByQuotient(a + c, b + d, i + j);
    CongByQuotient(a - c, b - d, i - j);
  }

  /** In 16 bits a residue has one representative, except that 0 and 0xffff are the same residue. */
  lemma {:induction false} CongInWord(a: uint16, b: uint16)
    requires Cong(a, b)
    ensures a == b || (a == 0 && b == 0xffff) || (a == 0xffff && b == 0)
  {
    hide Cong;
    CongIsMod(a, b);
  }

  /** The ones-complement value of a sum: carries out of 16 bits are added back in, so
      that only 0 gives 0. */
  function Norm(s: nat): (r: uint16)
    ensures r == 0 <==> s == 0
  {
    if s <= 0xffff then s else Norm(s - 0xffff)
  }

  lemma {:induction false} NormCong(s: nat)
    ensures Cong(Norm(s), s)
  {
    if s > 0xffff { NormCong(s - 0xffff); }
  }

  lemma {:induction false} NormDetermined(a: nat, b: nat)
    requires Cong(a, b) && (a == 0 <==> b == 0)
    ensures Norm(a) == Norm(b)
  {
    NormCong(a);
    NormCong(b);
    CongInWord(Norm(a), Norm(b));
  }

  /** The checksum of a block, computed from scratch. */
  function Scratch(b: seq<byte>): uint16 { 0xffff - Norm(WordSum(b)) }

  /** A block that carries its own correct checksum sums to 0xffff. */
  predicate Valid(b: seq<byte>) { Norm(WordSum(b)) == 0xffff }

  /** The sum the incremental update folds: ~cs + Σ ~old + Σ updated. */
  function Total(cs: uint16, old_: seq<byte>, updated: seq<byte>): nat
    requires |old_| == |updated| && |old_| % 2 == 0
  {
    Complements(old_);
    0xffff - cs + (0xffff * (|old_| / 2) - WordSum(old_)) + WordSum(updated)
  }

  /** What the incremental update computes, before any 32-bit concern. */
  function Rfc1624(cs: uint16, old_: seq<byte>, updated: seq<byte>): uint16
    requires |old_| == |updated| && |old_| % 2 == 0
  {
    0xffff - Norm(Total(cs, old_, updated))
  }

  lemma {:induction false} Complements(b: seq<byte>)
    requires |b| % 2 == 0
    ensures WordSum(b) <= 0xffff * (|b| / 2)
  {
    if b != [] { Complements(b[2..]); }
  }

  lemma {:induction false} WordSumConcat(a: seq<byte>, b: seq<byte>)
    requires |a| % 2 == 0
    ensures WordSum(a + b) == WordSum(a) + WordSum(b)
  {
    if a == [] {
      assert a + b == b;
    } else {
      WordSumConcat(a[2..], b);
      assert (a + b)[2..] == a[2..] + b;
    }
  }

  function FoldOnce(s: nat): nat { s % 0x1_0000 + s / 0x1_0000 }

  /** One carry fold keeps the ones-complement value and makes progress. */
  lemma {:induction false} FoldKeepsNorm(s: nat)
    ensures Norm(FoldOnce(s)) == Norm(s)
    ensures s >= 0x1_0000 ==> FoldOnce(s) < s
  {
    CarryKeepsNorm(s / 0x1_0000, s % 0x1_0000);
  }

  lemma {:induction false} CarryKeepsNorm(h: int, l: int)
    requires h >= 0 && l >= 0
    ensures Norm(l + h) == Norm(0x1_0000 * h + l)
  {
    CongByQuotient(l + h, 0x1_0000 * h + l, -h);
    NormDetermined(l + h, 0x1_0000 * h + l);
  }

  lemma {:induction false} NormOfWord(s: uint16)
    ensures Norm(s) == s
  {
    CongInWord(Norm(s), s);
  }

  /** Every 32-bit sum is folded to 16 bits after at most two folds. */
  lemma {:induction false} TwoFoldsSuffice(s: uint32)
    ensures FoldOnce(FoldOnce(s)) < 0x1_0000
  {
    assert FoldOnce(s) <= 0x1_fffe;
  }

  /** The loop of the original, its uint32 accumulator wrapping where it would wrap. */
  method CsumUpdate(cs: uint16, old_: seq<byte>, updated: seq<byte>) returns (r: uint16)
    requires |old_| == |updated| && |old_| % 2 == 0
    ensures |old_| <= 0x1_0000 ==> r == Rfc1624(cs, old_, updated)
  {
    var sum: uint32 := 0xffff - cs;
    var i := 0;
    while i + 1 < |old_|
      invariant 0 <= i <= |old_| && i % 2 == 0
      invariant |old_| <= 0x1_0000 ==> sum == Total(cs, old_[..i], updated[..i])
    {
      AppendToTotal(cs, old_, updated, i);
      if |old_| <= 0x1_0000 { AccumulatorFits(cs, old_[..i + 2], updated[..i + 2]); }
      sum := Wrap(sum + (0xffff - Word(old_[i], old_[i + 1])));
      sum := Wrap(sum + Word(updated[i], updated[i + 1]));
      i := i + 2;
    }
    assert old_[..i] == old_ && updated[..i] == updated;
    r := Folded(sum);
  }

  /** uint32 arithmetic. */
  function Wrap(x: nat): uint32 { x % SPACE }

  method Folded(total: uint32) returns (r: uint16)
    ensures r == 0xffff - Norm(total)
  {
    var sum := total;
    while sum / 0x1_0000 != 0
      invariant Norm(sum) == Norm(total)
      decreases sum
    {
      FoldKeepsNorm(sum);
      sum := sum % 0x1_0000 + sum / 0x1_0000;
    }
    NormOfWord(sum);
    r := 0xffff - sum;
  }

  lemma {:induction false} AppendToTotal(cs: uint16, old_: seq<byte>, updated: seq<byte>, i: nat)
    requires |old_| == |updated| && i + 1 < |old_| && i % 2 == 0
    ensures Total(cs, old_[..i + 2], updated[..i + 2])
         == Total(cs, old_[..i], updated[..i])
            + (0xffff - Word(old_[i], old_[i + 1])) + Word(updated[i], updated[i + 1])
  {
    AppendWord(old_, i);
    AppendWord(updated, i);
  }

  lemma {:induction false} AppendWord(b: seq<byte>, i: nat)
    requires i + 1 < |b| && i % 2 == 0
    ensures WordSum(b[..i + 2]) == WordSum(b[..i]) + Word(b[i], b[i + 1])
  {
    assert b[..i + 2] == b[..i] + [b[i], b[i + 1]];
    WordSumConcat(b[..i], [b[i], b[i + 1]]);
    assert [b[i], b[i + 1]][2..] == [];
  }

  /** The update moves a checksum by exactly what the data moved, mod 65535. */
  lemma {:induction false} UpdateCongruent(cs: uint16, old_: seq<byte>, updated: seq<byte>)
    requires |old_| == |updated| && |old_| % 2 == 0
    ensures Cong(Rfc1624(cs, old_, updated) + WordSum(updated), cs + WordSum(old_))
  {
    Complements(old_);
    var k := |old_| / 2;
    var t := 0xffff - cs + (0xffff * k - WordSum(old_)) + WordSum(updated);
    CongByQuotient(0xffff + WordSum(updated) - t, cs + WordSum(old_), -k);
    NormCong(t);
    CongSum(Norm(t), t, t, t);
    CongSum(0xffff + WordSum(updated) - t, cs + WordSum(old_), Norm(t) - t, 0);
  }

  /** When the update yields 0xffff: only from 0xffff, replacing all ones by all zeros. */
  lemma {:induction false} UpdateIsAllOnes(cs: uint16, old_: seq<byte>, updated: seq<byte>)
    requires |old_| == |updated| && |old_| % 2 == 0
    ensures Rfc1624(cs, old_, updated) == 0xffff
       <==> cs == 0xffff && WordSum(old_) == 0xffff * (|old_| / 2) && WordSum(updated) == 0
  {
    Complements(old_);
  }

  lemma {:induction false} Sum3(a: seq<byte>, b: seq<byte>, c: seq<byte>)
    requires |a| % 2 == 0 && |b| % 2 == 0
    ensures WordSum(a + b + c) == WordSum(a) + WordSum(b) + WordSum(c)
  {
    WordSumConcat(a + b, c);
    WordSumConcat(a, b);
  }

  /** Replacing bytes in place. */
  function Splice(p: seq<byte>, i: nat, b: seq<byte>): (r: seq<byte>)
    requires i + |b| <= |p|
    ensures |r| == |p|
  {
    p[..i] + b + p[i + |b|..]
  }

  lemma {:induction false} SpliceBytes(p: seq<byte>, i: nat, b: seq<byte>)
    requires i + |b| <= |p|
    ensures forall k :: 0 <= k < |p| ==> Splice(p, i, b)[k] == if i <= k < i + |b| then b[k - i] else p[k]
  {
  }

  lemma {:induction false} SplicePrefix(p: seq<byte>, i: nat, b: seq<byte>, n: nat)
    requires i + |b| <= n <= |p|
    ensures Splice(p, i, b)[..n] == Splice(p[..n], i, b)
    ensures Splice(p, i, b)[n..] == p[n..]
  {
  }

  lemma {:induction false} SpliceSum(p: seq<byte>, i: nat, b: seq<byte>)
    requires i + |b| <= |p| && i % 2 == 0 && |b| % 2 == 0
    ensures WordSum(Splice(p, i, b)) == WordSum(p) - WordSum(p[i..i + |b|]) + WordSum(b)
  {
    var x, y, z := p[..i], p[i..i + |b|], p[i + |b|..];
    assert p == x + y + z;
    Sum3(x, y, z);
    Sum3(x, b, z);
  }

  /** RFC 1624 against RFC 1071: the update equals the from-scratch checksum of the edited block
      exactly when that block is not all zeros (or nothing was edited). */
  lemma {:induction false} IncrementalIsFromScratch(d: seq<byte>, i: nat, updated: seq<byte>)
    requires i + |updated| <= |d| && i % 2 == 0 && |updated| % 2 == 0
    ensures Rfc1624(Scratch(d), d[i..i + |updated|], updated) == Scratch(Splice(d, i, updated))
       <==> (WordSum(Splice(d, i, updated)) != 0 || updated == [])
  {
    var old_ := d[i..i + |updated|];
    var edited := Splice(d, i, updated);
    SpliceSum(d, i, updated);
    Complements(old_);
    UpdateCongruent(Scratch(d), old_, updated);
    UpdateIsAllOnes(Scratch(d), old_, updated);
    if updated == [] {
      assert edited == d;
    }
    SameChecksum(Rfc1624(Scratch(d), old_, updated), WordSum(old_), WordSum(updated), WordSum(d), WordSum(edited));
    CongInWord(Rfc1624(Scratch(d), old_, updated), Scratch(edited));
  }

  lemma {:induction false} SameChecksum(r: uint16, o: nat, u: nat, d: nat, e: nat)
    requires Cong(r + u, 0xffff - Norm(d) + o)
    requires e == d - o + u
    ensures Cong(r, 0xffff - Norm(e))
  {
    NormCong(d);
    NormCong(e);
    hide Norm, Cong;
    CongIsMod(Norm(d), d);
    CongIsMod(Norm(e), e);
    CongIsMod(r + u, 0xffff - Norm(d) + o);
    CongIsMod(r, 0xffff - Norm(e));
  }

  /** The uint32 accumulator holds the sum for every edit of at most 65536 bytes. */
  lemma {:induction false} AccumulatorFits(cs: uint16, old_: seq<byte>, updated: seq<byte>)
    requires |old_| == |updated| <= 0x1_0000 && |old_| % 2 == 0
    ensures Total(cs, old_, updated) < SPACE
  {
    Complements(updated);
  }

  /** The bound is exact: past 65536 bytes, replacing zeros by ones overflows it. */
  lemma {:induction false} AccumulatorCanWrap(old_: seq<byte>, updated: seq<byte>)
    requires |old_| == |updated| > 0x1_0000 && |old_| % 2 == 0
    requires forall i :: 0 <= i < |old_| ==> old_[i] == 0 && updated[i] == 0xff
    ensures Total(0, old_, updated) >= SPACE
  {
    ExtremeSums(old_, updated);
  }

  lemma {:induction false} ExtremeSums(zeros: seq<byte>, ones: seq<byte>)
    requires |zeros| == |ones| && |zeros| % 2 == 0
    requires forall i :: 0 <= i < |zeros| ==> zeros[i] == 0 && ones[i] == 0xff
    ensures WordSum(zeros) == 0 && WordSum(ones) == 0xffff * (|ones| / 2)
  {
    if zeros != [] { ExtremeSums(zeros[2..], ones[2..]); }
  }
}
