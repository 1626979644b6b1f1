/** The layout arithmetic of format and the reformat test of the constructor. */
module Layout {
  import opened FsTypes

  /** Integer ceiling division; the source uses ceil on doubles, which agrees here
      because every divisor is a power of two and the operands are below 2^32. */
  function CeilDiv(a: nat, b: nat): (q: nat)
    requires b > 0
    ensures q * b >= a
    ensures q == 0 || (q - 1) * b < a
  {
    (a + b - 1) / b
  }

  /** The device sizes the model admits: the layout needs the header and superblock
      blocks, and every superblock field is 32 bits wide. */
  type DeviceSize = n: nat | 2 <= n < TWO_POW_32 witness 2

  /** Blocks of inode bitmap: ceil(INODE_TABLE_SIZE / (8 * BLOCK_SIZE)). */
  function InodeBitmapBlocks(): nat
  {
    CeilDiv(INODE_TABLE_SIZE, 8 * BLOCK_SIZE)
  }

  /** The superblock format writes first: bitmap size and data-block count still 0,
      and data_start_block computed from that placeholder. */
  function InitialSuperblock(): (sb: Superblock)
    ensures sb.dataStartBlock == 1 + sb.inodeBitmapSize + sb.dataBitmapSize
  {
    var ibs := InodeBitmapBlocks();
    Superblock(BLOCK_SIZE, INODE_TABLE_SIZE, ibs, 0, 0, 1 + ibs + 0)
  }

  /** The superblock format leaves on the device: the data bitmap is sized for the
      blocks past data_start_block, and data_start_block keeps its placeholder value. */
  function FinalSuperblock(deviceSize: DeviceSize): (sb: Superblock)
    ensures sb.blockSize == BLOCK_SIZE && sb.inodeTableSize == INODE_TABLE_SIZE
    ensures sb.dataBlocks + sb.dataBitmapSize + sb.dataStartBlock == deviceSize
    ensures sb.dataBitmapSize * (8 * BLOCK_SIZE) >= sb.dataBlocks
  {
    var first := InitialSuperblock();
    var dbs := CeilDiv(deviceSize - first.dataStartBlock, 8 * BLOCK_SIZE);
    first.(dataBitmapSize := dbs, dataBlocks := deviceSize - first.dataStartBlock - dbs)
  }

  /** The layout format computes, in closed form. */
  lemma {:induction false} FinalSuperblockValues(deviceSize: DeviceSize)
    ensures var sb := FinalSuperblock(deviceSize);
      && sb.blockSize == BLOCK_SIZE && sb.inodeTableSize == INODE_TABLE_SIZE
      && sb.inodeBitmapSize == 1
      && sb.dataStartBlock == 2
      && sb.dataBitmapSize * (8 * BLOCK_SIZE) >= deviceSize - 2
      && (sb.dataBitmapSize == 0 || (sb.dataBitmapSize - 1) * (8 * BLOCK_SIZE) < deviceSize - 2)
      && sb.dataBlocks + sb.dataBitmapSize + sb.dataStartBlock == deviceSize
  {
    var ibs := InodeBitmapBlocks();
    assert ibs == 1 by {
      assert (INODE_TABLE_SIZE + 8 * BLOCK_SIZE - 1) / (8 * BLOCK_SIZE) == 1;
    }
  }

  /** The invariant data_start_block == 1 + inode_bitmap_size + data_bitmap_size holds
      of the final superblock only when the data bitmap is empty, i.e. a device of 2 blocks. */
  lemma {:induction false} StartBlockIgnoresDataBitmap(deviceSize: DeviceSize)
    ensures var sb := FinalSuperblock(deviceSize);
      (sb.dataStartBlock == 1 + sb.inodeBitmapSize + sb.dataBitmapSize) <==> deviceSize == 2
  {
    FinalSuperblockValues(deviceSize);
  }

  /** strncmp(a, b, n) == 0: the first n characters agree, or agree up to a NUL
      that both hold at the same place. */
  function StrNEq(a: seq<char>, b: seq<char>, n: nat): bool
    requires n <= |a| && n <= |b|
  {
    if n == 0 then true
    else if a[0] != b[0] then false
    else if a[0] == '\0' then true
    else StrNEq(a[1..], b[1..], n - 1)
  }

  /** Against a string with no NUL in its first n characters, strncmp over n
      characters is plain equality of those characters. */
  lemma {:induction false} StrNEqNulFree(a: seq<char>, b: seq<char>, n: nat)
    requires n <= |a| && n <= |b|
    requires forall i :: 0 <= i < n ==> b[i] != '\0'
    ensures StrNEq(a, b, n) <==> a[..n] == b[..n]
  {
    if n > 0 {
      StrNEqNulFree(a[1..], b[1..], n - 1);
      assert a[..n] == [a[0]] + a[1..][..n - 1];
      assert b[..n] == [b[0]] + b[1..][..n - 1];
    }
  }

  /** The constructor's test: strncmp over the 4 magic bytes, or a version mismatch.
      Since "MYFS" has no NUL, it asks for a reformat exactly when the magic or the
      version differs. */
  function NeedsFormat(h: Header): (r: bool)
    ensures r <==> h.magic != MAGIC || h.version != CURR_VERSION
  {
    StrNEqNulFree(h.magic, MAGIC, 4);
    !StrNEq(h.magic, MAGIC, 4) || h.version != CURR_VERSION
  }

  /** The header format writes passes the constructor's test. */
  function FormattedHeader(): (h: Header)
    ensures h.magic == MAGIC && h.version == CURR_VERSION && !NeedsFormat(h)
  {
    Header(MAGIC, CURR_VERSION)
  }
}
