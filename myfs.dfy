/** The filesystem object: every operation reads and writes the block device step by
    step, as the source does, and is proved to leave the device as the functions of
    the Directory, Alloc, Content and Format modules say. */
module FileSystem {
  import opened FsTypes
  import opened Layout
  import opened Bitmap
  import opened Device
  import opened Alloc
  import opened Directory
  import opened Paths
  import opened Content
  import opened Format

  /** The range-for with break of the path walks: the first entry with this name and type. */
  method FindInListing(entries: seq<DirListEntry>, name: string, wantDir: bool) returns (found: Option<u32>)
    ensures found == FindEntry(entries, name, wantDir)
  {
    var k := 0;
    while k < |entries|
      invariant k <= |entries|
      invariant MatchFrom(entries, name, wantDir, k) == MatchFrom(entries, name, wantDir, 0)
    {
      if entries[k].name == name && entries[k].isDir == wantDir {
        return Some(entries[k].inodeNum);
      }
      k := k + 1;
    }
    return None;
  }

  class MyFs {
    const dev: BlockDevice

    /** Open the filesystem on `device`, formatting it when the header does not carry
        the magic and the current version. `junk` is the uninitialised inode record
        format writes into the inode table. */
    constructor (device: BlockDevice, junk: Inode)
      modifies device
      ensures dev == device
      ensures device.View() ==
        if NeedsFormat(old(device.View()).header)
        then FormatImage(old(device.View()), device.deviceSize, junk)
        else old(device.View())
    {
      dev := device;
      new;
      var h := dev.ReadHeader();
      if h.magic != MAGIC || h.version != CURR_VERSION {
        Format(junk);
      }
    }

    /** format(): the header, a placeholder superblock, the inode table, the final
        superblock and the zeroed bitmap. */
    method Format(junk: Inode)
      modifies dev
      ensures dev.View() == FormatImage(old(dev.View()), dev.deviceSize, junk)
    {
      dev.WriteHeader(FormattedHeader());
      var sb := InitialSuperblock();
      dev.WriteSuperblock(sb);
      WriteInodeTable(sb.dataStartBlock, junk);
      sb := FinalSuperblock(dev.deviceSize);
      dev.WriteSuperblock(sb);
      dev.Write(1 + sb.inodeBitmapSize, Zeros(sb.dataBitmapSize * BLOCK_SIZE));
    }

    /** The inode-table loop of format: the same record written at start .. start + 1023. */
    method WriteInodeTable(start: nat, junk: Inode)
      modifies dev
      ensures dev.View() == FillInodes(old(dev.View()), start, INODE_TABLE_SIZE, junk)
    {
      ghost var before := dev.View();
      var i := 0;
      while i < INODE_TABLE_SIZE
        invariant i <= INODE_TABLE_SIZE
        invariant dev.View() == FillInodes(before, start, i, junk)
      {
        dev.WriteInode(start + i, junk);
        i := i + 1;
      }
    }

    /** create_file: the source throws "not implemented" before doing anything. */
    method CreateFile(path: string, directory: bool) returns (r: Result<()>)
      ensures r == Err(NotImplemented)
    {
      r := Err(NotImplemented);
    }

    /** find_free_inode. */
    method FindFreeInode() returns (num: u32)
      modifies dev
      ensures var a := AllocInode(old(dev.View())); num == a.num && dev.View() == a.img
    {
      var sb := dev.ReadSuperblock();
      var bm := dev.Read(INODE_BITMAP_ADDR, BitmapBytes(sb.inodeBitmapSize));
      var k := FirstClearBit(bm);
      if k.None? {
        return 0;
      }
      bm := SetBit(bm, k.value);
      dev.Write(INODE_BITMAP_ADDR, bm);
      num := Wrap32(k.value);
    }

    /** find_free_block. */
    method FindFreeBlock() returns (num: u32)
      modifies dev
      ensures var a := AllocBlock(old(dev.View())); num == a.num && dev.View() == a.img
    {
      var sb := dev.ReadSuperblock();
      var bm := dev.Read(DataBitmapAddr(sb), BitmapBytes(sb.dataBitmapSize));
      var k := FirstClearBit(bm);
      if k.None? {
        return 0;
      }
      bm := SetBit(bm, k.value);
      dev.Write(DataBitmapAddr(sb), bm);
      num := Wrap32(k.value + 1 + sb.inodeBitmapSize);
    }

    /** list_dir_inode(n). */
    method ListDirInode(n: u32) returns (r: Result<seq<DirListEntry>>)
      ensures r == Listing(dev.View(), n)
    {
      var ino := dev.ReadInode(InodeAddr(n));
      if !IsDirMode(ino.mode) {
        return Err(NotADirectory);
      }
      var entries: seq<DirListEntry> := [];
      var i := 0;
      while i < DIRECT_POINTERS
        invariant i <= DIRECT_POINTERS
        invariant entries == PointersUpTo(dev.View(), ino.blocks, i)
      {
        if ino.blocks[i] != 0 {
          var blk := dev.ReadDirBlock(ino.blocks[i]);
          var more := ListBlock(blk);
          entries := entries + more;
        }
        i := i + 1;
      }
      r := Ok(entries);
    }

    /** The slot loop of list_dir_inode: one entry per used slot, in slot order, with the
        type and size read from the child's inode. */
    method ListBlock(blk: DirBlock) returns (entries: seq<DirListEntry>)
      ensures entries == SlotsUpTo(dev.View(), blk, ENTRIES_PER_BLOCK)
    {
      entries := [];
      var j := 0;
      while j < ENTRIES_PER_BLOCK
        invariant j <= ENTRIES_PER_BLOCK
        invariant entries == SlotsUpTo(dev.View(), blk, j)
      {
        if blk[j].inodeNum != 0 {
          var child := dev.ReadInode(InodeAddr(blk[j].inodeNum));
          entries := entries + [DirListEntry(ListedName(blk[j].name), IsDirMode(child.mode), child.size, blk[j].inodeNum)];
        }
        j := j + 1;
      }
    }

    /** The body create_directory and create_regular_file share: check the parent,
        allocate and write the new inode, then insert its entry into the parent. */
    method CreateEntry(field: NameField, parentNum: u32, mode: bv16) returns (r: Result<u32>)
      modifies dev
      ensures var s := Create(old(dev.View()), field, parentNum, mode); r == s.result && dev.View() == s.img
    {
      var parentAddr := InodeAddr(parentNum);
      var parent := dev.ReadInode(parentAddr);
      if !IsDirMode(parent.mode) {
        return Err(ParentNotADirectory);
      }
      var num := FindFreeInode();
      if num == 0 {
        return Err(NoFreeInode);
      }
      dev.WriteInode(InodeAddr(num), FreshInode(mode));
      r := InsertIntoParent(parentAddr, parent, DirEntry(field, num));
    }

    /** The pointer loop of create_*: a zero pointer is first filled by find_free_block and
        the parent inode rewritten; the entry goes into the first free slot of the block. */
    method InsertIntoParent(parentAddr: u32, parent: Inode, entry: DirEntry) returns (r: Result<u32>)
      modifies dev
      ensures var s := InsertEntry(old(dev.View()), parentAddr, parent, entry, 0); r == s.result && dev.View() == s.img
    {
      ghost var spec := InsertEntry(dev.View(), parentAddr, parent, entry, 0);
      var current := parent;
      var i := 0;
      while i < DIRECT_POINTERS
        invariant i <= DIRECT_POINTERS
        invariant InsertEntry(dev.View(), parentAddr, current, entry, i) == spec
      {
        var done;
        done, current := TryPointer(parentAddr, current, entry, i);
        if done.Some? {
          return done.value;
        }
        i := i + 1;
      }
      r := Err(NoSpaceInParent);
    }

    /** One round of the pointer loop of create_*: either it ends the loop with an answer
        or it hands the (possibly grown) parent to pointer i + 1. */
    method TryPointer(parentAddr: u32, parent: Inode, entry: DirEntry, i: nat) returns (done: Option<Result<u32>>, current: Inode)
      requires i < DIRECT_POINTERS
      modifies dev
      ensures var s := InsertEntry(old(dev.View()), parentAddr, parent, entry, i);
        if done.Some? then s == Step(done.value, dev.View())
        else s == InsertEntry(dev.View(), parentAddr, current, entry, i + 1)
    {
      current := parent;
      if current.blocks[i] == 0 {
        var b;
        b, current := FillPointer(parentAddr, current, i);
        if b == 0 {
          return Some(Err(NoFreeBlock)), current;
        }
      }
      assert InsertEntry(old(dev.View()), parentAddr, parent, entry, i) == PlaceEntry(dev.View(), parentAddr, current, entry, i);
      var placed := PlaceInBlock(current.blocks[i], entry);
      if placed {
        return Some(Ok(entry.inodeNum)), current;
      }
      done := None;
    }

    /** A zero pointer of the parent is filled by find_free_block and the parent inode
        rewritten; when no block is free only the allocator's (empty) effect remains. */
    method FillPointer(parentAddr: u32, parent: Inode, i: nat) returns (b: u32, grown: Inode)
      requires i < DIRECT_POINTERS
      modifies dev
      ensures var a := AllocBlock(old(dev.View()));
        && b == a.num
        && grown == parent.(blocks := parent.blocks[i := a.num])
        && dev.View() == if a.num == 0 then a.img else WithInode(a.img, parentAddr, grown)
    {
      b := FindFreeBlock();
      grown := parent.(blocks := parent.blocks[i := b]);
      if b != 0 {
        dev.WriteInode(parentAddr, grown);
      }
    }

    /** The slot loop of create_*: read the block, put the entry in its first slot with
        inode number 0 and write the block back; a full block is left alone. */
    method PlaceInBlock(addr: u32, entry: DirEntry) returns (placed: bool)
      modifies dev
      ensures var blk := DirBlockAt(old(dev.View()), addr);
        var slot := FirstFreeSlot(blk);
        && placed == slot.Some?
        && dev.View() == if slot.Some? then WithDirBlock(old(dev.View()), addr, blk[slot.value := entry]) else old(dev.View())
    {
      var blk := dev.ReadDirBlock(addr);
      var j := 0;
      while j < ENTRIES_PER_BLOCK
        invariant j <= ENTRIES_PER_BLOCK
        invariant FreeSlotFrom(blk, j) == FirstFreeSlot(blk)
      {
        if blk[j].inodeNum == 0 {
          blk := blk[j := entry];
          dev.WriteDirBlock(addr, blk);
          return true;
        }
        j := j + 1;
      }
      placed := false;
    }

    /** create_directory(name, parent): the name copied into the 11-byte field. */
    method CreateDirectory(name: string, parentNum: u32) returns (r: Result<u32>)
      modifies dev
      ensures var s := Create(old(dev.View()), DirNameField(name), parentNum, DIR_TAG);
        r == s.result && dev.View() == s.img
    {
      r := CreateEntry(DirNameField(name), parentNum, DIR_TAG);
    }

    /** create_regular_file(name, parent): the name cut to 10 characters first. */
    method CreateRegularFile(name: string, parentNum: u32) returns (r: Result<()>)
      modifies dev
      ensures var s := Create(old(dev.View()), FileNameField(name), parentNum, FILE_TAG);
        r == (if s.result.Ok? then Ok(()) else Err(s.result.error)) && dev.View() == s.img
    {
      var made := CreateEntry(FileNameField(name), parentNum, FILE_TAG);
      r := if made.Ok? then Ok(()) else Err(made.error);
    }

    /** The lookup loop of get_content and set_content: list the current directory and
        move to the first entry with the next name and the wanted type. */
    method WalkTokens(tokens: seq<string>, wantDir: bool, missing: Error) returns (r: Result<u32>)
      ensures r == Walk(dev.View(), tokens, ROOT, wantDir, missing)
    {
      var cur := ROOT;
      var i := 0;
      while i < |tokens|
        invariant i <= |tokens|
        invariant Walk(dev.View(), tokens[i..], cur, wantDir, missing) == Walk(dev.View(), tokens, ROOT, wantDir, missing)
      {
        assert tokens[i..][0] == tokens[i] && tokens[i..][1..] == tokens[i + 1..];
        var listing := ListDirInode(cur);
        if listing.Err? {
          return Err(listing.error);
        }
        var found := FindInListing(listing.value, tokens[i], wantDir);
        if found.None? {
          return Err(missing);
        }
        cur := found.value;
        i := i + 1;
      }
      assert tokens[i..] == [];
      r := Ok(cur);
    }

    /** get_content(path). */
    method GetContent(path: string) returns (r: Result<seq<bv8>>)
      ensures r == Content.GetContent(dev.View(), path)
    {
      if path == [] || path[0] != '/' {
        return Err(InvalidPath);
      }
      var tokens := Tokenize(path);
      var found := WalkTokens(tokens, false, FileNotFound);
      if found.Err? {
        return Err(found.error);
      }
      var ino := dev.ReadInode(InodeAddr(found.value));
      if !IsFileMode(ino.mode) {
        return Err(NotARegularFile);
      }
      var content := ReadBlocks(ino.blocks);
      r := Ok(content);
    }

    /** The read loop of get_content: whole blocks, in pointer order, up to the first zero
        pointer among the first 12. */
    method ReadBlocks(ptrs: Pointers) returns (content: seq<bv8>)
      ensures content == Gather(dev.View(), ptrs, LeadingBlocks(ptrs))
    {
      content := [];
      var i := 0;
      while i < CONTENT_POINTERS && ptrs[i] != 0
        invariant i <= CONTENT_POINTERS
        invariant forall k :: 0 <= k < i ==> ptrs[k] != 0
        invariant content == Gather(dev.View(), ptrs, i)
      {
        var blk := dev.Read(ptrs[i], BLOCK_SIZE);
        content := content + blk;
        i := i + 1;
      }
      assert i == LeadingBlocks(ptrs);
    }

    /** The resolution part of set_content: the intermediate segments as directories,
        then the last as a regular-file entry of that directory, 0 meaning not found. */
    method ResolveFile(path: string) returns (r: Result<u32>)
      requires IsAbsolute(path) && Segments(path) != []
      ensures r == ResolveForWrite(dev.View(), path)
    {
      var tokens := Tokenize(path);
      var dir := WalkTokens(tokens[..|tokens| - 1], true, DirectoryNotFound);
      if dir.Err? {
        return Err(dir.error);
      }
      var listing := ListDirInode(dir.value);
      if listing.Err? {
        return Err(listing.error);
      }
      var entry := FindInListing(listing.value, tokens[|tokens| - 1], false);
      var fileNum := if entry.Some? then entry.value else 0;
      if fileNum == 0 {
        return Err(FileNotFound);
      }
      r := Ok(fileNum);
    }

    /** The allocation loop of set_content: keep a non-zero pointer, fill a zero one from
        find_free_block, and refuse a block index of 12 or more. */
    method AllocateBlocks(blocks: Pointers, needed: nat) returns (r: Result<Pointers>)
      modifies dev
      ensures var g := AllocPointers(old(dev.View()), blocks, 0, needed); r == g.result && dev.View() == g.img
    {
      var ptrs := blocks;
      var i := 0;
      while i < needed
        invariant i <= needed
        invariant AllocPointers(dev.View(), ptrs, i, needed) == AllocPointers(old(dev.View()), blocks, 0, needed)
      {
        if i < CONTENT_POINTERS {
          if ptrs[i] == 0 {
            var b := FindFreeBlock();
            if b == 0 {
              return Err(NoFreeBlock);
            }
            ptrs := ptrs[i := b];
          }
        } else {
          return Err(FileTooLarge);
        }
        i := i + 1;
      }
      r := Ok(ptrs);
    }

    /** The chunk loop of set_content: min(BLOCK_SIZE, len - i * BLOCK_SIZE) bytes of the
        content at pointer i, for each needed block. */
    method WriteContent(ptrs: Pointers, content: seq<bv8>, needed: nat)
      requires needed <= CONTENT_POINTERS && needed == BlocksNeeded(|content|)
      modifies dev
      ensures dev.View() == WriteChunks(old(dev.View()), ptrs, content, needed)
    {
      ghost var start := dev.View();
      var k := 0;
      while k < needed
        invariant k <= needed
        invariant dev.View() == WriteChunks(start, ptrs, content, k)
      {
        ChunkInRange(content, k);
        var chunk := Chunk(content, k);
        dev.Write(ptrs[k], chunk);
        k := k + 1;
      }
    }

    /** set_content(path, content). */
    method SetContent(path: string, content: seq<bv8>) returns (r: Result<()>)
      requires SetContentDefined(path)
      modifies dev
      ensures var s := Content.SetContent(old(dev.View()), path, content); r == s.result && dev.View() == s.img
    {
      if path == [] || path[0] != '/' {
        return Err(InvalidPath);
      }
      var fileNum := ResolveFile(path);
      if fileNum.Err? {
        return Err(fileNum.error);
      }
      var ino := dev.ReadInode(InodeAddr(fileNum.value));
      if !IsFileMode(ino.mode) {
        return Err(NotARegularFile);
      }
      ghost var start := dev.View();
      var needed := (|content| + BLOCK_SIZE - 1) / BLOCK_SIZE;
      var ptrs := AllocateBlocks(ino.blocks, needed);
      if ptrs.Err? {
        return Err(ptrs.error);
      }
      AllocPointersBound(start, ino.blocks, 0, needed);
      WriteContent(ptrs.value, content, needed);
      dev.WriteInode(InodeAddr(fileNum.value), ino.(size := |content|, blocks := ptrs.value));
      r := Ok(());
    }
  }
}
