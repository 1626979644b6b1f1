/** format() as a function of the device image. */
module Format {
  import opened FsTypes
  import opened Layout
  import opened Device
  import opened Alloc
  import opened Directory

  /** The records the inode-table loop writes, by address. */
  function TableOf(start: nat, count: nat, junk: Inode): (t: map<nat, Inode>)
    ensures forall a :: a in t <==> start <= a < start + count
    ensures forall a :: a in t ==> t[a] == junk
  {
    if count == 0 then map[] else TableOf(start, count - 1, junk)[start + count - 1 := junk]
  }

  /** The image after the inode-table loop has written `junk` at start .. start + count - 1. */
  function FillInodes(img: Image, start: nat, count: nat, junk: Inode): (r: Image)
    ensures r.header == img.header && r.superblock == img.superblock
    ensures r.regions == img.regions && r.dirBlocks == img.dirBlocks
  {
    if count == 0 then img
    else WithInode(FillInodes(img, start, count - 1, junk), start + count - 1, junk)
  }

  /** The inode-table loop writes the record at every address of its range and changes
      nothing else. */
  lemma {:induction false} FillInodesTable(img: Image, start: nat, count: nat, junk: Inode)
    ensures var r := FillInodes(img, start, count, junk);
      && (forall a :: a in r.inodes <==> a in img.inodes || start <= a < start + count)
      && (forall a :: a in r.inodes ==> r.inodes[a] == if start <= a < start + count then junk else img.inodes[a])
  {
    if count > 0 {
      FillInodesTable(img, start, count - 1, junk);
      var prev := FillInodes(img, start, count - 1, junk);
      var r := FillInodes(img, start, count, junk);
      assert r.inodes == prev.inodes[start + count - 1 := junk];
      forall a
        ensures a in r.inodes <==> a in img.inodes || start <= a < start + count
      {
        assert a in prev.inodes <==> a in img.inodes || start <= a < start + count - 1;
        assert a in r.inodes <==> a == start + count - 1 || a in prev.inodes;
      }
    }
  }

  lemma FillInodesEffect(img: Image, start: nat, count: nat, junk: Inode)
    ensures var r := FillInodes(img, start, count, junk);
      && r.inodes == img.inodes + TableOf(start, count, junk)
      && forall a: nat :: InodeAt(r, a) == if start <= a < start + count then junk else InodeAt(img, a)
  {
    FillInodesTable(img, start, count, junk);
    var r := FillInodes(img, start, count, junk);
    var m := img.inodes + TableOf(start, count, junk);
    assert r.inodes.Keys == m.Keys;
    assert forall a :: a in m ==> r.inodes[a] == m[a];
  }

  /** format(): header, placeholder superblock, inode table, final superblock, and a
      zeroed bitmap region at 1 + inode_bitmap_size. `junk` is the uninitialised inode
      record the inode-table loop writes. */
  function FormatImage(img: Image, deviceSize: DeviceSize, junk: Inode): (f: Image)
    ensures f.header == FormattedHeader() && f.superblock == FinalSuperblock(deviceSize)
    ensures f.dirBlocks == img.dirBlocks
  {
    var first := InitialSuperblock();
    var withHeader := img.(header := FormattedHeader(), superblock := first);
    var withTable := FillInodes(withHeader, first.dataStartBlock, INODE_TABLE_SIZE, junk);
    var sb := FinalSuperblock(deviceSize);
    WithBytes(withTable.(superblock := sb), 1 + sb.inodeBitmapSize, Zeros(sb.dataBitmapSize * BLOCK_SIZE))
  }

  /** What format leaves on the device: the header, the final superblock, the inode table
      at addresses 2 .. 1025 holding the written record, and dataBitmapSize * BLOCK_SIZE
      zero bytes at address 1 + inode_bitmap_size = 2; nothing else changes. */
  lemma {:induction false} FormatResults(img: Image, deviceSize: DeviceSize, junk: Inode)
    ensures var f := FormatImage(img, deviceSize, junk);
      var sb := FinalSuperblock(deviceSize);
      && f.header.magic == MAGIC && f.header.version == CURR_VERSION
      && f.superblock == sb
      && sb.inodeBitmapSize == 1 && sb.dataStartBlock == 2
      && (forall a: nat :: InodeAt(f, a) == if 2 <= a < 2 + INODE_TABLE_SIZE then junk else InodeAt(img, a))
      && (forall i :: 0 <= i < sb.dataBitmapSize * BLOCK_SIZE ==> BytesAt(f, 2, sb.dataBitmapSize * BLOCK_SIZE)[i] == 0)
      && (forall a :: a != 2 ==> RegionAt(f, a) == RegionAt(img, a))
      && f.dirBlocks == img.dirBlocks
  {
    FinalSuperblockValues(deviceSize);
    var sb := FinalSuperblock(deviceSize);
    var first := InitialSuperblock();
    var withTable := FillInodes(img.(header := FormattedHeader(), superblock := first), first.dataStartBlock, INODE_TABLE_SIZE, junk);
    FillInodesEffect(img.(header := FormattedHeader(), superblock := first), first.dataStartBlock, INODE_TABLE_SIZE, junk);
    ReadAfterWrite(withTable.(superblock := sb), 2, Zeros(sb.dataBitmapSize * BLOCK_SIZE), sb.dataBitmapSize * BLOCK_SIZE);
  }

  /** A formatted device passes the constructor's test, so opening it again keeps it. */
  lemma FormatPassesOpenTest(img: Image, deviceSize: DeviceSize, junk: Inode)
    ensures !NeedsFormat(FormatImage(img, deviceSize, junk).header)
  {
  }

  /** Formatting twice leaves the same device as formatting once. */
  lemma {:induction false} FormatIdempotent(img: Image, deviceSize: DeviceSize, junk: Inode)
    ensures FormatImage(FormatImage(img, deviceSize, junk), deviceSize, junk) == FormatImage(img, deviceSize, junk)
  {
    var once := FormatImage(img, deviceSize, junk);
    var twice := FormatImage(once, deviceSize, junk);
    FormatResults(img, deviceSize, junk);
    FormatResults(once, deviceSize, junk);
    var first := InitialSuperblock();
    FillInodesEffect(img.(header := FormattedHeader(), superblock := first), 2, INODE_TABLE_SIZE, junk);
    FillInodesEffect(once.(header := FormattedHeader(), superblock := first), 2, INODE_TABLE_SIZE, junk);
    var t := TableOf(2, INODE_TABLE_SIZE, junk);
    assert once.inodes == img.inodes + t;
    assert twice.inodes == once.inodes + t;
    assert (img.inodes + t) + t == img.inodes + t;
    assert twice.regions == once.regions by {
      assert twice.regions.Keys == once.regions.Keys;
      forall a | a in once.regions ensures twice.regions[a] == once.regions[a] {
        assert RegionAt(twice, a) == RegionAt(once, a);
      }
    }
  }

  /** The inode-table loop of format starts at address 2, so it never writes inode 0
      (address 1). With inode records kept apart from the superblock, the root keeps
      whatever record the device held there. On a device that never held an inode record
      at address 1, the root reads as mode 0 and list_dir_inode(0) fails with
      "Not a directory". */
  lemma {:induction false} FormatLeavesRootUnset(img: Image, deviceSize: DeviceSize, junk: Inode)
    ensures InodeAt(FormatImage(img, deviceSize, junk), InodeAddr(0)) == InodeAt(img, 1)
    ensures 1 !in img.inodes ==> Listing(FormatImage(img, deviceSize, junk), 0) == Err(NotADirectory)
  {
    FormatResults(img, deviceSize, junk);
  }

  /** The bitmap format zeroes sits where find_free_inode reads (address 2), so after
      format on a device of at least 3 blocks every inode bit reads clear, and the first
      inode allocation takes bit 0 and answers the sentinel 0. */
  lemma {:induction false} FormatZeroesInodeBitmap(img: Image, deviceSize: DeviceSize, junk: Inode)
    requires deviceSize >= 3
    ensures var f := FormatImage(img, deviceSize, junk);
      && |InodeBitmap(f)| == BLOCK_SIZE
      && (forall i :: 0 <= i < BLOCK_SIZE ==> InodeBitmap(f)[i] == 0)
      && AllocInode(f).num == 0
      && Create(f, EmptyName(), ROOT, DIR_TAG).result == Err(if IsDirMode(InodeAt(img, 1).mode) then NoFreeInode else ParentNotADirectory)
  {
    FormatResults(img, deviceSize, junk);
    FinalSuperblockValues(deviceSize);
    var f := FormatImage(img, deviceSize, junk);
    var sb := FinalSuperblock(deviceSize);
    assert sb.dataBitmapSize >= 1;
    assert BitmapBytes(f.superblock.inodeBitmapSize) == BLOCK_SIZE;
    var bm := InodeBitmap(f);
    forall i | 0 <= i < BLOCK_SIZE ensures bm[i] == 0 {
      assert bm[i] == BytesAt(f, 2, sb.dataBitmapSize * BLOCK_SIZE)[i];
    }
    assert !Bitmap.IsSet(bm, 0);
    AllocInodeZeroAlias(f);
  }
}
