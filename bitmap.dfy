/** Allocation bitmaps: one bit per inode or data block, 1 meaning "in use",
    numbered byte-major and least-significant bit first within a byte. */
module Bitmap {
  import opened FsTypes

  /** Bit j of byte b: b & (1 << j). */
  predicate BitOf(b: bv8, j: nat)
    requires j < 8
  {
    b & (1 << j) != 0
  }

  /** Bit k of the bitmap: bit k % 8 of byte k / 8. */
  predicate IsSet(bm: seq<bv8>, k: nat)
    requires k < 8 * |bm|
  {
    BitOf(bm[k / 8], k % 8)
  }

  /** The bitmap with bit k set: byte k / 8 or-ed with 1 << (k % 8). */
  function SetBit(bm: seq<bv8>, k: nat): (r: seq<bv8>)
    requires k < 8 * |bm|
    ensures |r| == |bm|
  {
    bm[k / 8 := bm[k / 8] | (1 << (k % 8))]
  }

  /** The first clear bit of byte b at bit j or above, least significant first. */
  function FirstClearInByte(b: bv8, j: nat): (r: Option<nat>)
    requires j <= 8
    decreases 8 - j
    ensures r.Some? ==> j <= r.value < 8 && !BitOf(b, r.value)
    ensures r.Some? ==> forall t :: j <= t < r.value ==> BitOf(b, t)
    ensures r.None? ==> forall t :: j <= t < 8 ==> BitOf(b, t)
  {
    if j == 8 then None
    else if !BitOf(b, j) then Some(j)
    else FirstClearInByte(b, j + 1)
  }

  lemma BitIndex(i: nat, j: nat)
    requires j < 8
    ensures (8 * i + j) / 8 == i && (8 * i + j) % 8 == j
  {
  }

  /** The bits of byte i are bits 8 * i .. 8 * i + 7 of the bitmap. */
  lemma ByteBits(bm: seq<bv8>, i: nat)
    requires i < |bm|
    ensures forall k :: 8 * i <= k < 8 * i + 8 ==> k < 8 * |bm| && IsSet(bm, k) == BitOf(bm[i], k - 8 * i)
  {
    forall k | 8 * i <= k < 8 * i + 8
      ensures k < 8 * |bm| && IsSet(bm, k) == BitOf(bm[i], k - 8 * i)
    {
      BitIndex(i, k - 8 * i);
    }
  }

  /** The first clear bit in byte i or a later byte, bytes in order. */
  function FirstClearFrom(bm: seq<bv8>, i: nat): (r: Option<nat>)
    requires i <= |bm|
    decreases |bm| - i
    ensures r.Some? ==> 8 * i <= r.value < 8 * |bm| && !IsSet(bm, r.value)
    ensures r.Some? ==> forall k :: 8 * i <= k < r.value ==> IsSet(bm, k)
    ensures r.None? ==> forall k :: 8 * i <= k < 8 * |bm| ==> IsSet(bm, k)
  {
    if i == |bm| then None
    else
      ByteBits(bm, i);
      match FirstClearInByte(bm[i], 0)
      case Some(j) => Some(8 * i + j)
      case None => FirstClearFrom(bm, i + 1)
  }

  /** The first clear bit of the whole bitmap, if any. */
  function FirstClear(bm: seq<bv8>): (r: Option<nat>)
    ensures r.Some? <==> exists k :: 0 <= k < 8 * |bm| && !IsSet(bm, k)
    ensures r.Some? ==> r.value < 8 * |bm| && !IsSet(bm, r.value)
                        && forall k :: 0 <= k < r.value ==> IsSet(bm, k)
  {
    FirstClearFrom(bm, 0)
  }

  lemma ByteBit(b: bv8, j: nat, m: nat)
    requires j < 8 && m < 8
    ensures ((b | (1 << j)) & (1 << m) != 0) == (m == j || b & (1 << m) != 0)
  {
  }

  /** Setting bit k sets it and changes no other bit. */
  lemma {:induction false} SetBitEffect(bm: seq<bv8>, k: nat, m: nat)
    requires k < 8 * |bm| && m < 8 * |bm|
    ensures IsSet(SetBit(bm, k), m) == (m == k || IsSet(bm, m))
  {
    if m / 8 == k / 8 {
      ByteBit(bm[k / 8], k % 8, m % 8);
    }
  }

  /** Setting the first clear bit moves the first clear bit strictly forward. */
  lemma {:induction false} FirstClearAdvances(bm: seq<bv8>, k: nat)
    requires FirstClear(bm) == Some(k)
    ensures var r := FirstClear(SetBit(bm, k)); r.None? || r.value > k
  {
    var bm' := SetBit(bm, k);
    forall m | 0 <= m <= k
      ensures IsSet(bm', m)
    {
      SetBitEffect(bm, k, m);
    }
  }

  // ---------------------------------------------------------------- the scan loop

  /** A byte of all ones has no clear bit. */
  lemma AllOnes()
    ensures FirstClearInByte(0xFF, 0) == None
  {
  }

  /** The bit loop both allocators run: bytes in order, a byte of all ones passed over,
      bits least significant first. */
  method FirstClearBit(bm: seq<bv8>) returns (r: Option<nat>)
    ensures r == FirstClear(bm)
  {
    var i := 0;
    while i < |bm|
      invariant 0 <= i <= |bm|
      invariant FirstClearFrom(bm, i) == FirstClear(bm)
    {
      if bm[i] != 0xFF {
        var bit := ScanByte(bm[i]);
        if bit.Some? {
          return Some(8 * i + bit.value);
        }
      } else {
        AllOnes();
      }
      i := i + 1;
    }
    return None;
  }

  /** The inner loop over the 8 bits of one byte. */
  method ScanByte(b: bv8) returns (r: Option<nat>)
    ensures r == FirstClearInByte(b, 0)
  {
    var j := 0;
    while j < 8
      invariant 0 <= j <= 8
      invariant FirstClearInByte(b, j) == FirstClearInByte(b, 0)
    {
      if b & (1 << j) == 0 {
        return Some(j);
      }
      j := j + 1;
    }
    return None;
  }
}
