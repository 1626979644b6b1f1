/** find_free_inode and find_free_block as functions of the device image: read the
    bitmap, set its first clear bit, write it back and return a number; 0 is the
    "nothing free" sentinel. */
module Alloc {
  import opened FsTypes
  import opened Bitmap
  import opened Device

  /** Address of the inode bitmap: 1 + 1. */
  const INODE_BITMAP_ADDR: nat := 2

  /** An allocator's answer and the image after it. */
  datatype Alloc = Alloc(num: u32, img: Image)

  /** Bytes of bitmap read for a region of `blocks` blocks: the source computes
      blocks * BLOCK_SIZE / BLOCK_SIZE and then * BLOCK_SIZE, in 32 bits. */
  function BitmapBytes(blocks: u32): (n: nat)
    ensures n < TWO_POW_32
    ensures blocks * BLOCK_SIZE < TWO_POW_32 ==> n == blocks * BLOCK_SIZE
  {
    (Wrap32(blocks * BLOCK_SIZE) / BLOCK_SIZE) * BLOCK_SIZE
  }

  /** Address of the data bitmap as find_free_block reads it: 1 + 1 + inode_bitmap_size. */
  function DataBitmapAddr(sb: Superblock): u32
  {
    Wrap32(1 + 1 + sb.inodeBitmapSize)
  }

  function InodeBitmap(img: Image): (bm: seq<bv8>)
    ensures |bm| == BitmapBytes(img.superblock.inodeBitmapSize)
  {
    BytesAt(img, INODE_BITMAP_ADDR, BitmapBytes(img.superblock.inodeBitmapSize))
  }

  function DataBitmap(img: Image): (bm: seq<bv8>)
    ensures |bm| == BitmapBytes(img.superblock.dataBitmapSize)
  {
    BytesAt(img, DataBitmapAddr(img.superblock), BitmapBytes(img.superblock.dataBitmapSize))
  }

  /** find_free_inode: the bit index byte * 8 + bit of the first clear bit. */
  function AllocInode(img: Image): (a: Alloc)
    ensures a.img.header == img.header && a.img.superblock == img.superblock
    ensures a.img.inodes == img.inodes && a.img.dirBlocks == img.dirBlocks
  {
    var bm := InodeBitmap(img);
    match FirstClear(bm)
    case None => Alloc(0, img)
    case Some(k) => Alloc(Wrap32(k), WithBytes(img, INODE_BITMAP_ADDR, SetBit(bm, k)))
  }

  /** find_free_block: the bit index offset by 1 + inode_bitmap_size (not by data_start_block). */
  function AllocBlock(img: Image): (a: Alloc)
    ensures a.img.header == img.header && a.img.superblock == img.superblock
    ensures a.img.inodes == img.inodes && a.img.dirBlocks == img.dirBlocks
  {
    var bm := DataBitmap(img);
    match FirstClear(bm)
    case None => Alloc(0, img)
    case Some(k) =>
      Alloc(Wrap32(k + 1 + img.superblock.inodeBitmapSize),
            WithBytes(img, DataBitmapAddr(img.superblock), SetBit(bm, k)))
  }

  /** On success the inode allocator sets exactly the first clear bit, in byte-major,
      least-significant-bit-first order, and returns its index. */
  lemma {:induction false} AllocInodeSetsFirstClear(img: Image)
    requires FirstClear(InodeBitmap(img)).Some?
    ensures var bm := InodeBitmap(img);
      var k := FirstClear(bm).value;
      var a := AllocInode(img);
      && a.num == Wrap32(k)
      && (8 * |bm| <= TWO_POW_32 ==> a.num == k)
      && !IsSet(bm, k) && (forall m :: 0 <= m < k ==> IsSet(bm, m))
      && var bm' := InodeBitmap(a.img);
      && bm' == SetBit(bm, k)
      && forall m :: 0 <= m < 8 * |bm| ==> IsSet(bm', m) == (m == k || IsSet(bm, m))
  {
    var bm := InodeBitmap(img);
    var k := FirstClear(bm).value;
    var a := AllocInode(img);
    ReadAfterWrite(img, INODE_BITMAP_ADDR, SetBit(bm, k), |bm|);
    assert InodeBitmap(a.img) == SetBit(bm, k);
    forall m | 0 <= m < 8 * |bm|
      ensures IsSet(InodeBitmap(a.img), m) == (m == k || IsSet(bm, m))
    {
      SetBitEffect(bm, k, m);
    }
  }

  /** On success the block allocator sets exactly the first clear bit of the data bitmap
      and returns its index plus 1 + inode_bitmap_size, which is then never 0. */
  lemma {:induction false} AllocBlockSetsFirstClear(img: Image)
    requires FirstClear(DataBitmap(img)).Some?
    ensures var bm := DataBitmap(img);
      var k := FirstClear(bm).value;
      var a := AllocBlock(img);
      var offset := 1 + img.superblock.inodeBitmapSize;
      && a.num == Wrap32(k + offset)
      && (k + offset < TWO_POW_32 ==> a.num == k + offset && a.num != 0)
      && !IsSet(bm, k) && (forall m :: 0 <= m < k ==> IsSet(bm, m))
      && a.img.superblock == img.superblock
      && var bm' := DataBitmap(a.img);
      && bm' == SetBit(bm, k)
      && forall m :: 0 <= m < 8 * |bm| ==> IsSet(bm', m) == (m == k || IsSet(bm, m))
  {
    var bm := DataBitmap(img);
    var k := FirstClear(bm).value;
    var a := AllocBlock(img);
    ReadAfterWrite(img, DataBitmapAddr(img.superblock), SetBit(bm, k), |bm|);
    assert DataBitmap(a.img) == SetBit(bm, k);
    forall m | 0 <= m < 8 * |bm|
      ensures IsSet(DataBitmap(a.img), m) == (m == k || IsSet(bm, m))
    {
      SetBitEffect(bm, k, m);
    }
  }

  /** On a fully set bitmap both allocators answer 0 and write nothing. */
  lemma AllocFullBitmap(img: Image)
    ensures (forall m :: 0 <= m < 8 * |InodeBitmap(img)| ==> IsSet(InodeBitmap(img), m))
            ==> AllocInode(img) == Alloc(0, img)
    ensures (forall m :: 0 <= m < 8 * |DataBitmap(img)| ==> IsSet(DataBitmap(img), m))
            ==> AllocBlock(img) == Alloc(0, img)
  {
  }

  /** The sentinel aliases inode 0: when bit 0 is the first clear bit, find_free_inode
      sets it and still answers 0, which callers read as "no free inode". */
  lemma {:induction false} AllocInodeZeroAlias(img: Image)
    requires |InodeBitmap(img)| > 0 && !IsSet(InodeBitmap(img), 0)
    ensures AllocInode(img).num == 0
    ensures IsSet(InodeBitmap(AllocInode(img).img), 0)
    ensures AllocInode(img).img != img
  {
    AllocInodeSetsFirstClear(img);
    var a := AllocInode(img);
    assert InodeBitmap(a.img) != InodeBitmap(img);
  }

  /** One first-clear allocation on a bitmap alone, with answers offset by `offset`:
      the bitmap afterwards and the answer (0 when no bit is clear). */
  function Claim(bm: seq<bv8>, offset: nat): (c: (seq<bv8>, u32))
    ensures |c.0| == |bm|
  {
    match FirstClear(bm)
    case None => (bm, 0)
    case Some(k) => (SetBit(bm, k), Wrap32(k + offset))
  }

  /** The answers of n claims in a row. */
  function Claims(bm: seq<bv8>, n: nat, offset: nat): (nums: seq<u32>)
    decreases n
    ensures |nums| == n
  {
    if n == 0 then []
    else
      var c := Claim(bm, offset);
      [c.1] + Claims(c.0, n - 1, offset)
  }

  /** How far first-clear allocation has got in a bitmap: the first clear bit, or the
      bitmap's end when every bit is set. */
  function Frontier(bm: seq<bv8>): (f: nat)
    ensures f <= 8 * |bm|
    ensures forall m :: 0 <= m < f ==> IsSet(bm, m)
  {
    match FirstClear(bm)
    case None => 8 * |bm|
    case Some(k) => k
  }

  /** A claim that answers moves the frontier past the bit it set; one that answers 0
      leaves the bitmap as it was. */
  lemma {:induction false} ClaimAdvances(bm: seq<bv8>, offset: nat)
    requires 8 * |bm| + offset <= TWO_POW_32
    ensures var c := Claim(bm, offset);
      && (FirstClear(bm).Some? ==> c.1 == Frontier(bm) + offset && Frontier(c.0) > Frontier(bm))
      && (FirstClear(bm).None? ==> c.1 == 0 && c.0 == bm)
  {
    if FirstClear(bm).Some? {
      FirstClearAdvances(bm, FirstClear(bm).value);
    }
  }

  /** Claims with no frees in between answer, apart from the 0 sentinel, numbers at or past
      the frontier plus `offset`, below the bitmap's end plus `offset`, strictly increasing,
      as long as no answer wraps around 32 bits. */
  lemma {:induction false} ClaimsIncreasing(bm: seq<bv8>, n: nat, offset: nat)
    requires 8 * |bm| + offset <= TWO_POW_32
    ensures var nums := Claims(bm, n, offset);
      && (forall i :: 0 <= i < n && nums[i] != 0 ==> Frontier(bm) + offset <= nums[i] < 8 * |bm| + offset)
      && (forall i, j :: 0 <= i < j < n && nums[i] != 0 && nums[j] != 0 ==> nums[i] < nums[j])
    decreases n
  {
    if n > 0 {
      var c := Claim(bm, offset);
      var m: nat := n - 1;
      ClaimAdvances(bm, offset);
      ClaimsIncreasing(c.0, m, offset);
      forall i | 1 <= i < n
        ensures Claims(bm, n, offset)[i] == Claims(c.0, m, offset)[i - 1]
      {
      }
    }
  }

  /** find_free_inode is a claim on the inode bitmap with no offset. */
  lemma {:induction false} AllocInodeClaims(img: Image)
    ensures var c := Claim(InodeBitmap(img), 0);
      AllocInode(img).num == c.1 && InodeBitmap(AllocInode(img).img) == c.0
  {
    if FirstClear(InodeBitmap(img)).Some? {
      AllocInodeSetsFirstClear(img);
    }
  }

  /** find_free_block is a claim on the data bitmap offset by 1 + inode_bitmap_size. */
  lemma {:induction false} AllocBlockClaims(img: Image, offset: nat)
    requires offset == 1 + img.superblock.inodeBitmapSize
    ensures AllocBlock(img).img.superblock == img.superblock
    ensures var c := Claim(DataBitmap(img), offset);
      AllocBlock(img).num == c.1 && DataBitmap(AllocBlock(img).img) == c.0
  {
    if FirstClear(DataBitmap(img)).Some? {
      AllocBlockSetsFirstClear(img);
    }
  }

  /** The answers of n inode allocations in a row. */
  function AllocInodes(img: Image, n: nat): (nums: seq<u32>)
    decreases n
    ensures |nums| == n
  {
    if n == 0 then []
    else
      var a := AllocInode(img);
      [a.num] + AllocInodes(a.img, n - 1)
  }

  /** n inode allocations are n claims on the inode bitmap. */
  lemma {:induction false} AllocInodesClaims(img: Image, n: nat)
    decreases n
    ensures AllocInodes(img, n) == Claims(InodeBitmap(img), n, 0)
  {
    if n > 0 {
      AllocInodeClaims(img);
      AllocInodesClaims(AllocInode(img).img, n - 1);
    }
  }

  /** Repeated inode allocations with no frees return pairwise distinct non-zero numbers. */
  lemma AllocInodesDistinct(img: Image, n: nat)
    requires 8 * |InodeBitmap(img)| <= TWO_POW_32
    ensures var nums := AllocInodes(img, n);
      forall i, j :: 0 <= i < n && 0 <= j < n && i != j && nums[i] != 0 && nums[j] != 0
        ==> nums[i] != nums[j]
  {
    AllocInodesClaims(img, n);
    ClaimsIncreasing(InodeBitmap(img), n, 0);
  }

  /** The answers of n block allocations in a row. */
  function AllocBlocks(img: Image, n: nat): (nums: seq<u32>)
    decreases n
    ensures |nums| == n
  {
    if n == 0 then []
    else
      var a := AllocBlock(img);
      [a.num] + AllocBlocks(a.img, n - 1)
  }

  /** n block allocations are n claims on the data bitmap. */
  lemma {:induction false} AllocBlocksClaims(img: Image, n: nat, offset: nat)
    decreases n
    requires offset == 1 + img.superblock.inodeBitmapSize
    ensures AllocBlocks(img, n) == Claims(DataBitmap(img), n, offset)
  {
    if n > 0 {
      AllocBlockClaims(img, offset);
      AllocBlocksClaims(AllocBlock(img).img, n - 1, offset);
    }
  }

  /** Repeated block allocations with no frees return pairwise distinct block numbers,
      each non-zero one past inode_bitmap_size, as long as no answer wraps around 32 bits. */
  lemma AllocBlocksDistinct(img: Image, n: nat)
    requires 8 * |DataBitmap(img)| + 1 + img.superblock.inodeBitmapSize <= TWO_POW_32
    ensures var nums := AllocBlocks(img, n);
      && (forall i :: 0 <= i < n && nums[i] != 0 ==> nums[i] > img.superblock.inodeBitmapSize)
      && forall i, j :: 0 <= i < n && 0 <= j < n && i != j && nums[i] != 0 && nums[j] != 0
           ==> nums[i] != nums[j]
  {
    AllocBlocksClaims(img, n, 1 + img.superblock.inodeBitmapSize);
    ClaimsIncreasing(DataBitmap(img), n, 1 + img.superblock.inodeBitmapSize);
  }
}
