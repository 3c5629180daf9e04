/** Allocation bitmaps: one bit per cluster, least significant bit first. */
module Bitmap {
  import opened Bytes

  /** 1 << k */
  function Bit(k: nat): (b: nat)
    requires k < 8
    ensures 1 <= b <= 128
  {
    [1, 2, 4, 8, 16, 32, 64, 128][k]
  }

  /** byte & (1 << k) */
  predicate Test(b: byte, k: nat)
    requires k < 8
  {
    (b / Bit(k)) % 2 == 1
  }

  /** Whether the bitmap covers the cluster and marks it allocated. */
  predicate IsSet(bitmap: Bytes, c: nat) {
    c / 8 < |bitmap| && Test(bitmap[c / 8], c % 8)
  }

  /** byte ^ (1 << k): `| mask` on a clear bit, `& ~mask` on a set one. */
  function Flipped(b: byte, k: nat): (r: byte)
    requires k < 8
  {
    if Test(b, k) then b - Bit(k) else b + Bit(k)
  }

  lemma Halves(b: byte, k: nat)
    requires 1 <= k < 8
    ensures Bit(k) == 2 * Bit(k - 1) && Test(b, k) == Test(b / 2, k - 1)
  {
  }

  lemma FlippedHalves(b: byte, k: nat)
    requires 1 <= k < 8
    ensures Flipped(b, k) == 2 * Flipped(b / 2, k - 1) + b % 2
  {
    hide Test, Bit;
    Halves(b, k);
  }

  lemma Low(b: byte)
    ensures Test(b, 0) <==> b % 2 == 1
    ensures Flipped(b, 0) / 2 == b / 2 && Test(Flipped(b, 0), 0) == !Test(b, 0)
  {
  }

  /** Flipping one bit leaves the others alone. */
  lemma {:induction false} FlippedBits(b: byte, k: nat, j: nat)
    requires k < 8 && j < 8
    ensures Test(Flipped(b, k), j) == if j == k then !Test(b, j) else Test(b, j)
    decreases k
  {
    hide Test, Bit, Flipped;
    Low(b);
    Low(Flipped(b, k));
    if j > 0 {
      Halves(b, j);
      Halves(Flipped(b, k), j);
    }
    if k > 0 {
      FlippedHalves(b, k);
      if j > 0 { FlippedBits(b / 2, k - 1, j - 1); }
    }
  }
}
