/** Bytes, little-endian integers and in-place edits of byte buffers.

    A Python `bytes` or `bytearray` value is a `seq<byte>`; `struct.unpack_from`
    and `int.from_bytes` are the `U..` and `FromLe` functions below. */
module Bytes {
  type byte = b: int | 0 <= b < 256

  type Bytes = seq<byte>

  /** The outcome of an operation that either returns a value or raises. */
  datatype Result<+T> = Ok(value: T) | Err

  datatype Option<+T> = None | Some(value: T)

  // ---------- integers ----------

  function Pow256(w: nat): (p: nat)
    ensures p >= 1
  {
    if w == 0 then 1 else 256 * Pow256(w - 1)
  }

  /** int.from_bytes(s, "little", signed=False) */
  function FromLe(s: Bytes): (v: nat)
    ensures v < Pow256(|s|)
  {
    if |s| == 0 then 0 else s[0] + 256 * FromLe(s[1..])
  }

  /** v.to_bytes(w, "little"), the low w bytes of v */
  function ToLe(v: nat, w: nat): (s: Bytes)
    ensures |s| == w
  {
    if w == 0 then [] else [v % 256] + ToLe(v / 256, w - 1)
  }

  lemma {:induction false} FromLeOfToLe(v: nat, w: nat)
    requires v < Pow256(w)
    ensures FromLe(ToLe(v, w)) == v
  {
    if w != 0 {
      FromLeOfToLe(v / 256, w - 1);
      assert ToLe(v, w)[1..] == ToLe(v / 256, w - 1);
    }
  }

  lemma {:induction false} ToLeOfFromLe(s: Bytes)
    ensures ToLe(FromLe(s), |s|) == s
  {
    if |s| != 0 {
      ToLeOfFromLe(s[1..]);
      LowDigit(s[0], FromLe(s[1..]));
      assert s == [s[0]] + s[1..];
    }
  }

  lemma LowDigit(low: byte, high: nat)
    ensures (low + 256 * high) % 256 == low && (low + 256 * high) / 256 == high
  {
  }

  function U16(s: Bytes, o: nat): (v: nat)
    requires o + 2 <= |s|
    ensures v < 0x1_0000
  {
    var low: int, high: int := s[o], s[o + 1];
    low + 0x100 * high
  }

  function U32(s: Bytes, o: nat): (v: nat)
    requires o + 4 <= |s|
    ensures v < 0x1_0000_0000
  {
    U16(s, o) + 0x1_0000 * U16(s, o + 2)
  }

  function U64(s: Bytes, o: nat): (v: nat)
    requires o + 8 <= |s|
    ensures v < 0x1_0000_0000_0000_0000
  {
    U32(s, o) + 0x1_0000_0000 * U32(s, o + 4)
  }

  lemma U16IsFromLe(s: Bytes, o: nat)
    requires o + 2 <= |s|
    ensures U16(s, o) == FromLe(s[o..o + 2])
  {
    FromLeOfTwo(s[o], s[o + 1], []);
    assert s[o..o + 2] == [s[o], s[o + 1]] + [];
  }

  lemma FromLeOfTwo(a: byte, b: byte, rest: Bytes)
    ensures FromLe([a, b] + rest) == a + 0x100 * (b as int) + 0x1_0000 * FromLe(rest)
  {
    assert ([a, b] + rest)[1..] == [b] + rest;
    assert ([b] + rest)[1..] == rest;
  }

  lemma U32IsFromLe(s: Bytes, o: nat)
    requires o + 4 <= |s|
    ensures U32(s, o) == FromLe(s[o..o + 4])
  {
    FromLeOfTwo(s[o], s[o + 1], s[o + 2..o + 4]);
    assert s[o..o + 4] == [s[o], s[o + 1]] + s[o + 2..o + 4];
    U16IsFromLe(s, o + 2);
  }

  lemma U64IsFromLe(s: Bytes, o: nat)
    requires o + 8 <= |s|
    ensures U64(s, o) == FromLe(s[o..o + 8])
  {
    FromLeOfTwo(s[o], s[o + 1], s[o + 2..o + 8]);
    assert s[o..o + 8] == [s[o], s[o + 1]] + s[o + 2..o + 8];
    FromLeOfTwo(s[o + 2], s[o + 3], s[o + 4..o + 8]);
    assert s[o + 2..o + 8] == [s[o + 2], s[o + 3]] + s[o + 4..o + 8];
    U32IsFromLe(s, o + 4);
  }

  // ---------- buffers ----------

  /** Two buffers of one size hold the same bytes from lo up to hi. */
  predicate Agree(a: Bytes, b: Bytes, lo: nat, hi: nat) {
    |a| == |b| && hi <= |a| && forall j :: lo <= j < hi ==> a[j] == b[j]
  }

  lemma SameSlice(a: Bytes, b: Bytes, lo: nat, hi: nat)
    requires Agree(a, b, lo, hi) && lo <= hi
    ensures a[lo..hi] == b[lo..hi]
  {
  }

  lemma SameU32(a: Bytes, b: Bytes, o: nat)
    requires o + 4 <= |a| && Agree(a, b, o, o + 4)
    ensures U32(a, o) == U32(b, o)
  {
  }

  function Zeros(n: nat): (s: Bytes)
    ensures |s| == n
    ensures forall i :: 0 <= i < n ==> s[i] == 0
  {
    seq(n, _ => 0)
  }

  /** buffer[o:o+len(p)] = p */
  function Put(s: Bytes, o: nat, p: Bytes): (r: Bytes)
    requires o + |p| <= |s|
    ensures |r| == |s|
    ensures forall i :: 0 <= i < |s| ==> r[i] == if o <= i < o + |p| then p[i - o] else s[i]
  {
    seq(|s|, i requires 0 <= i < |s| => if o <= i < o + |p| then p[i - o] else s[i])
  }

  lemma PutU32(s: Bytes, o: nat, v: nat)
    requires o + 4 <= |s| && v < 0x1_0000_0000
    ensures U32(Put(s, o, ToLe(v, 4)), o) == v
  {
    var r := Put(s, o, ToLe(v, 4));
    U32IsFromLe(r, o);
    assert r[o..o + 4] == ToLe(v, 4);
    assert Pow256(4) == 256 * (256 * (256 * (256 * Pow256(0))));
    FromLeOfToLe(v, 4);
  }
}
