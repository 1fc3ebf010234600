/** How a span's slab address travels inside a tracing id. */
module TracingIds {
  import opened Spans

  /** The id of a span the cache rejected. */
  const DISABLED: nat := 1
  /** Slab indices are shifted past 0 and `DISABLED`. */
  const SLAB_OFFSET: nat := 2

  datatype Addr = Addr(lane: nat, slot: nat)

  function Pow2(n: nat): (r: nat)
    ensures r >= 1
  {
    if n == 0 then 1 else 2 * Pow2(n - 1)
  }

  function Clamped(requested: nat): nat {
    if requested < 1 then 1 else if requested > 256 then 256 else requested
  }

  /** Lane counts are clamped to 1..256 and rounded up to a power of two. */
  function LaneBits(requested: nat, from: nat := 0): (b: nat)
    requires from <= 8 && (from > 0 ==> Pow2(from - 1) < Clamped(requested))
    ensures from <= b <= 8 && Clamped(requested) <= Pow2(b)
    ensures b > 0 ==> Pow2(b - 1) < Clamped(requested)
    decreases 8 - from
  {
    if Clamped(requested) <= Pow2(from) then from
    else
      assert from == 8 ==> Pow2(8) == 256 by { EightBits(); }
      LaneBits(requested, from + 1)
  }

  lemma EightBits()
    ensures Pow2(8) == 256
  {
    assert Pow2(4) == 16;
    assert Pow2(6) == 64;
  }

  /** At least one bit is kept for the lane. */
  function Shift(bits: nat): nat
    requires bits <= 8
  {
    64 - if bits < 1 then 1 else bits
  }

  /** Lane in the high bits, slot above the offset in the low ones; the halves do not overlap, so
      joining them is addition. */
  function Encode(bits: nat, a: Addr): nat
    requires bits <= 8
  {
    a.lane * Pow2(Shift(bits)) + a.slot + SLAB_OFFSET
  }

  function Decode(bits: nat, id: nat): Option<Addr>
    requires bits <= 8
  {
    if id == DISABLED then None
    else
      var raw := id % Pow2(Shift(bits));
      if raw < SLAB_OFFSET then None
      else Some(Addr(id / Pow2(Shift(bits)) % Pow2(bits), raw - SLAB_OFFSET))
  }

  lemma DivMod(q: nat, d: nat, r: nat)
    requires r < d
    ensures (q * d + r) / d == q && (q * d + r) % d == r
  {
    var n := q * d + r;
    assert n == (n / d) * d + n % d;
    var x := n / d - q;
    assert x * d == r - n % d;
    if x >= 1 {
      Grows(x, d);
    } else if x <= -1 {
      Grows(-x, d);
    }
  }

  lemma Grows(x: int, d: nat)
    requires x >= 1
    ensures x * d >= d
  {
  }

  lemma {:induction false} PowAdds(a: nat, b: nat)
    ensures Pow2(a + b) == Pow2(a) * Pow2(b)
  {
    if a == 0 {
    } else {
      PowAdds(a - 1, b);
    }
  }

  lemma LaneFits(bits: nat)
    requires bits <= 8
    ensures Pow2(bits) <= Pow2(64 - Shift(bits))
  {
    assert bits == 0 ==> Pow2(1) == 2 * Pow2(0);
  }

  lemma Below(x: nat, y: nat, d: nat)
    requires x <= y
    ensures x * d <= y * d
  {
  }

  /** Addresses survive the trip, never look like a rejected span, and fit 64 bits. */
  lemma RoundTrip(bits: nat, a: Addr)
    requires bits <= 8 && a.lane < Pow2(bits) && a.slot + SLAB_OFFSET < Pow2(Shift(bits))
    ensures Decode(bits, Encode(bits, a)) == Some(a)
    ensures DISABLED < Encode(bits, a) < Pow2(64)
    ensures Encode(bits, a) / Pow2(Shift(bits)) == a.lane && Encode(bits, a) % Pow2(Shift(bits)) == a.slot + 2
  {
    hide Pow2;
    var d, top := Pow2(Shift(bits)), Pow2(64 - Shift(bits));
    DivMod(a.lane, d, a.slot + SLAB_OFFSET);
    DivMod(0, Pow2(bits), a.lane);
    LaneFits(bits);
    PowAdds(64 - Shift(bits), Shift(bits));
    Below(a.lane + 1, top, d);
    assert (a.lane + 1) * d == a.lane * d + d;
    assert 64 - Shift(bits) + Shift(bits) == 64;
  }

  /** The lane takes as many high bits of the 64 as there are lane bits, one if there are none. */
  lemma ShiftIs(bits: nat)
    requires bits <= 8
    ensures bits >= 1 ==> Shift(bits) + bits == 64
    ensures bits == 0 ==> Shift(bits) + 1 == 64
  {
  }
}
