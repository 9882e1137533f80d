/** IPv4 addresses as host-order integers, and prefixes of them. */
module Net {
  const SPACE: int := 0x1_0000_0000

  type byte = x: int | 0 <= x < 0x100
  type uint16 = x: int | 0 <= x < 0x1_0000
  type uint32 = x: int | 0 <= x < 0x1_0000_0000
  type Addr = uint32

  datatype Option<+T> = None | Some(value: T)

  function Pow2(n: nat): (p: nat)
    ensures p >= 1
  {
    if n == 0 then 1 else 2 * Pow2(n - 1)
  }

  lemma {:induction false} Pow2Add(a: nat, b: nat)
    ensures Pow2(a + b) == Pow2(a) * Pow2(b)
  {
    if a > 0 {
      Pow2Add(a - 1, b);
      assert Pow2(a + b) == 2 * (Pow2(a - 1) * Pow2(b));
    }
  }

  lemma {:induction false} Pow2Monotone(a: nat, b: nat)
    requires a <= b
    ensures Pow2(a) <= Pow2(b)
    ensures a < b ==> 2 * Pow2(a) <= Pow2(b)
  {
    if a < b {
      Pow2Monotone(a, b - 1);
    }
  }

  lemma {:induction false} Pow2Of32()
    ensures Pow2(32) == SPACE
  {
    assert Pow2(8) == 256;
    Pow2Add(8, 8);
    Pow2Add(16, 16);
  }

  /** An address and a prefix length. */
  datatype RawPrefix = Prefix(addr: Addr, bits: nat)
  type Prefix = p: RawPrefix | p.bits <= 32 witness Prefix(0, 0)

  /** The number of addresses under a prefix; 2^32 for /0. */
  function Size(p: Prefix): (s: nat)
    ensures 1 <= s <= SPACE
  {
    Pow2Of32();
    Pow2Monotone(32 - p.bits, 32);
    Pow2(32 - p.bits)
  }

  /** The largest multiple of s that does not exceed a: for a power of two, a with its low bits
      cleared. */
  function Floor(a: nat, s: nat): (r: nat)
    requires s > 0
    ensures r <= a < r + s
  {
    if a < s then 0 else Floor(a - s, s) + s
  }

  predicate Aligned(a: nat, s: nat)
    requires s > 0
  {
    Floor(a, s) == a
  }

  /** First address of the range a prefix denotes. */
  function Base(p: Prefix): (b: Addr)
    ensures b <= p.addr < b + Size(p)
  {
    Floor(p.addr, Size(p))
  }

  function Masked(p: Prefix): Prefix { Prefix(Base(p), p.bits) }

  /** Membership: a has the same leading bits as p, i.e. lies in the aligned block p falls in. */
  predicate Contains(p: Prefix, a: int) { Base(p) <= a < Base(p) + Size(p) }

  /** The whole aligned block of a prefix lies inside the 32-bit space. */
  lemma {:induction false} BlockFits(p: Prefix)
    ensures Aligned(Base(p), Size(p))
    ensures Base(p) + Size(p) <= SPACE
  {
    Pow2Of32();
    Pow2Aligned(32 - p.bits, 32);
    FloorAligned(p.addr, Size(p));
    AlignedApart(p.addr, SPACE, Size(p));
  }

  lemma {:induction false} MaskedIsStable(p: Prefix)
    ensures Base(Masked(p)) == Base(p) && Masked(Masked(p)) == Masked(p)
  {
    FloorAligned(p.addr, Size(p));
  }

  lemma {:induction false} MulMonotone(a: int, b: int, s: nat)
    requires a <= b
    ensures a * s <= b * s
  {
  }

  /** Division with remainder is unique. */
  lemma {:induction false} ModUnique(x: int, s: nat, q: int, r: int)
    requires s > 0 && x == q * s + r && 0 <= r < s
    ensures x % s == r
  {
    var d := x / s - q;
    assert x == s * (x / s) + x % s;
    assert d * s == r - x % s by { assert (x / s - q) * s == (x / s) * s - q * s; }
    if d >= 1 { MulMonotone(1, d, s); }
    if d <= -1 { MulMonotone(d, -1, s); }
  }

  // ----- aligned addresses -----

  /** What exceeds the largest multiple is the remainder. */
  lemma {:induction false} FloorIsMod(a: nat, s: nat)
    requires s > 0
    ensures a - Floor(a, s) == a % s
  {
    var q := FloorQuotient(a, s);
    ModUnique(a, s, q, a - Floor(a, s));
  }

  lemma {:induction false} FloorQuotient(a: nat, s: nat) returns (q: nat)
    requires s > 0
    ensures Floor(a, s) == q * s
  {
    q := 0;
    if a >= s {
      var p := FloorQuotient(a - s, s);
      q := p + 1;
      assert q * s == p * s + s;
    }
  }

  lemma {:induction false} FloorAligned(a: nat, s: nat)
    requires s > 0
    ensures Aligned(Floor(a, s), s)
  {
    if a >= s { FloorAligned(a - s, s); }
  }

  lemma {:induction false} AlignedSum(a: nat, b: nat, s: nat)
    requires s > 0 && Aligned(a, s)
    ensures Aligned(a + b, s) <==> Aligned(b, s)
  {
    if a >= s { AlignedSum(a - s, b, s); }
  }

  lemma {:induction false} AlignedMultiple(q: nat, s: nat)
    requires s > 0
    ensures Aligned(q * s, s)
  {
    if q > 0 {
      AlignedMultiple(q - 1, s);
      assert q * s == (q - 1) * s + s;
      assert Floor(q * s - s, s) == q * s - s by { MulMonotone(0, q - 1, s); }
    }
  }

  /** A multiple of n * s is a multiple of s. */
  lemma {:induction false} AlignedFiner(a: nat, n: nat, s: nat)
    requires s > 0 && n * s > 0 && Aligned(a, n * s)
    ensures Aligned(a, s)
    decreases a
  {
    if a >= n * s {
      AlignedFiner(a - n * s, n, s);
      AlignedMultiple(n, s);
      AlignedSum(n * s, a - n * s, s);
    }
  }

  lemma {:induction false} Pow2Aligned(k: nat, n: nat)
    requires k <= n
    ensures Aligned(Pow2(n), Pow2(k))
  {
    if k < n {
      Pow2Aligned(k, n - 1);
      AlignedSum(Pow2(n - 1), Pow2(n - 1), Pow2(k));
    }
  }

  /** The block an address falls in ends before the next multiple. */
  lemma {:induction false} AlignedApart(a: nat, b: nat, s: nat)
    requires s > 0 && Aligned(b, s) && a < b
    ensures Floor(a, s) + s <= b
  {
    if a >= s { AlignedApart(a - s, b - s, s); }
  }

  /** Addresses in one range no larger than s differ in what is left above the last multiple of s. */
  lemma {:induction false} RemaindersDistinct(a: nat, b: nat, base: nat, block: nat, s: nat)
    requires 0 < block <= s
    requires base <= a < base + block && base <= b < base + block
    requires a - Floor(a, s) == b - Floor(b, s)
    ensures a == b
  {
    FloorAligned(a, s);
    FloorAligned(b, s);
    if Floor(a, s) < Floor(b, s) { AlignedApart(Floor(a, s), Floor(b, s), s); }
    if Floor(b, s) < Floor(a, s) { AlignedApart(Floor(b, s), Floor(a, s), s); }
  }
}
