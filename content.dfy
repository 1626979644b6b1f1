/** Path resolution and the file content engine (get_content / set_content) as
    functions of the device image. */
module Content {
  import opened FsTypes
  import opened Layout
  import opened Device
  import opened Alloc
  import opened Directory
  import opened Paths

  // ---------------------------------------------------------------- lookup

  /** Index of the first entry at `from` or later named `name` whose type is the one wanted. */
  function MatchFrom(entries: seq<DirListEntry>, name: string, wantDir: bool, from: nat): (r: Option<nat>)
    requires from <= |entries|
    decreases |entries| - from
    ensures r.Some? ==> from <= r.value < |entries|
                        && entries[r.value].name == name && entries[r.value].isDir == wantDir
    ensures r.Some? ==> forall i :: from <= i < r.value ==> !(entries[i].name == name && entries[i].isDir == wantDir)
    ensures r.None? ==> forall i :: from <= i < |entries| ==> !(entries[i].name == name && entries[i].isDir == wantDir)
  {
    if from == |entries| then None
    else if entries[from].name == name && entries[from].isDir == wantDir then Some(from)
    else MatchFrom(entries, name, wantDir, from + 1)
  }

  /** The inode number of the first entry in listing order with this name and type. */
  function FindEntry(entries: seq<DirListEntry>, name: string, wantDir: bool): Option<u32>
  {
    match MatchFrom(entries, name, wantDir, 0)
    case None => None
    case Some(i) => Some(entries[i].inodeNum)
  }

  /** Walk `tokens` from inode `cur`: list the current directory and move to the first
      entry with the next name and the wanted type; `missing` is the error when none matches. */
  function Walk(img: Image, tokens: seq<string>, cur: u32, wantDir: bool, missing: Error): (r: Result<u32>)
    decreases |tokens|
    ensures r.Err? ==> r.error == NotADirectory || r.error == missing
  {
    if tokens == [] then Ok(cur)
    else match Listing(img, cur)
      case Err(e) => Err(e)
      case Ok(entries) =>
        match FindEntry(entries, tokens[0], wantDir)
        case None => Err(missing)
        case Some(n) => Walk(img, tokens[1..], n, wantDir, missing)
  }

  /** The failures get_content reports. */
  predicate GetContentError(e: Error)
  {
    e == InvalidPath || e == NotADirectory || e == FileNotFound || e == NotARegularFile
  }

  /** The failures of set_content's path resolution. */
  predicate ResolveError(e: Error)
  {
    e == NotADirectory || e == DirectoryNotFound || e == FileNotFound
  }

  /** The failures set_content reports: those of get_content's kind, plus the
      allocation loop's two. */
  predicate SetContentError(e: Error)
  {
    e == InvalidPath || ResolveError(e) || e == NotARegularFile || e == FileTooLarge || e == NoFreeBlock
  }

  /** The path test shared by get_content and set_content. */
  predicate IsAbsolute(path: string)
  {
    path != [] && path[0] == '/'
  }


  // ---------------------------------------------------------------- get_content

  /** Number of leading non-zero pointers among the first 12. */
  function LeadingBlocks(ptrs: Pointers): (n: nat)
    ensures n <= CONTENT_POINTERS
    ensures forall i :: 0 <= i < n ==> ptrs[i] != 0
    ensures n < CONTENT_POINTERS ==> ptrs[n] == 0
  {
    LeadingFrom(ptrs, 0)
  }

  function LeadingFrom(ptrs: Pointers, i: nat): (n: nat)
    requires i <= CONTENT_POINTERS
    requires forall k :: 0 <= k < i ==> ptrs[k] != 0
    decreases CONTENT_POINTERS - i
    ensures i <= n <= CONTENT_POINTERS
    ensures forall k :: 0 <= k < n ==> ptrs[k] != 0
    ensures n < CONTENT_POINTERS ==> ptrs[n] == 0
  {
    if i == CONTENT_POINTERS || ptrs[i] == 0 then i else LeadingFrom(ptrs, i + 1)
  }

  /** The whole blocks behind the first n pointers, concatenated. */
  function Gather(img: Image, ptrs: Pointers, n: nat): (out: seq<bv8>)
    requires n <= CONTENT_POINTERS
    ensures |out| == n * BLOCK_SIZE
  {
    if n == 0 then [] else Gather(img, ptrs, n - 1) + BytesAt(img, ptrs[n - 1], BLOCK_SIZE)
  }

  /** get_content(path). */
  function GetContent(img: Image, path: string): (r: Result<seq<bv8>>)
    ensures r.Ok? ==> |r.value| % BLOCK_SIZE == 0 && |r.value| <= CONTENT_POINTERS * BLOCK_SIZE
    ensures r.Err? ==> GetContentError(r.error)
  {
    if !IsAbsolute(path) then Err(InvalidPath)
    else match Walk(img, Segments(path), ROOT, false, FileNotFound)
      case Err(e) => Err(e)
      case Ok(n) =>
        var ino := InodeAt(img, InodeAddr(n));
        if !IsFileMode(ino.mode) then Err(NotARegularFile)
        else Ok(Gather(img, ino.blocks, LeadingBlocks(ino.blocks)))
  }

  // ---------------------------------------------------------------- set_content

  /** The paths set_content is defined on: "/" alone (no segment) makes the source
      compute tokens.size() - 1 on an empty vector. */
  predicate SetContentDefined(path: string)
  {
    !IsAbsolute(path) || Segments(path) != []
  }

  /** Blocks needed for `len` bytes: (len + BLOCK_SIZE - 1) / BLOCK_SIZE. */
  function BlocksNeeded(len: nat): nat
  {
    CeilDiv(len, BLOCK_SIZE)
  }

  /** The allocation loop of set_content from index i: reuse a non-zero pointer,
      fill a zero one from find_free_block, refuse index 12 and beyond. */
  function AllocPointers(img: Image, ptrs: Pointers, i: nat, needed: nat): (g: Step<Pointers>)
    decreases needed - i
    ensures g.img.header == img.header && g.img.superblock == img.superblock
    ensures g.img.inodes == img.inodes && g.img.dirBlocks == img.dirBlocks
    ensures g.result.Err? ==> g.result.error == FileTooLarge || g.result.error == NoFreeBlock
  {
    if i >= needed then Step(Ok(ptrs), img)
    else if i >= CONTENT_POINTERS then Step(Err(FileTooLarge), img)
    else if ptrs[i] != 0 then AllocPointers(img, ptrs, i + 1, needed)
    else
      var a := AllocBlock(img);
      if a.num == 0 then Step(Err(NoFreeBlock), a.img)
      else AllocPointers(a.img, ptrs[i := a.num], i + 1, needed)
  }

  /** Chunk i of the content: min(BLOCK_SIZE, len - i * BLOCK_SIZE) bytes from i * BLOCK_SIZE. */
  function Chunk(content: seq<bv8>, i: nat): (c: seq<bv8>)
    requires i * BLOCK_SIZE < |content|
    ensures 0 < |c| <= BLOCK_SIZE
  {
    var start := i * BLOCK_SIZE;
    var len := if |content| - start < BLOCK_SIZE then |content| - start else BLOCK_SIZE;
    content[start..start + len]
  }

  /** The image after writing the first n chunks, chunk i at pointer i, in order. */
  function WriteChunks(img: Image, ptrs: Pointers, content: seq<bv8>, n: nat): (w: Image)
    requires n <= CONTENT_POINTERS && n <= BlocksNeeded(|content|)
    ensures w.header == img.header && w.superblock == img.superblock
    ensures w.inodes == img.inodes && w.dirBlocks == img.dirBlocks
  {
    if n == 0 then img
    else
      assert (n - 1) * BLOCK_SIZE < |content|;
      WithBytes(WriteChunks(img, ptrs, content, n - 1), ptrs[n - 1], Chunk(content, n - 1))
  }

  /** The inode number set_content resolves `path` to, walking the intermediate
      segments as directories and taking the last as a regular-file entry. */
  function ResolveForWrite(img: Image, path: string): (r: Result<u32>)
    requires IsAbsolute(path) && Segments(path) != []
    ensures r.Ok? ==> r.value != 0
    ensures r.Err? ==> ResolveError(r.error)
  {
    var segs := Segments(path);
    match Walk(img, segs[..|segs| - 1], ROOT, true, DirectoryNotFound)
    case Err(e) => Err(e)
    case Ok(dir) =>
      match Listing(img, dir)
      case Err(e) => Err(e)
      case Ok(entries) =>
        var found := match FindEntry(entries, segs[|segs| - 1], false) case None => 0 case Some(n) => n;
        if found == 0 then Err(FileNotFound) else Ok(found)
  }

  /** set_content(path, content). */
  function SetContent(img: Image, path: string, content: seq<bv8>): (r: Step<()>)
    requires SetContentDefined(path)
    ensures r.img.header == img.header && r.img.superblock == img.superblock
    ensures r.img.dirBlocks == img.dirBlocks
    ensures r.result.Ok? ==> |content| <= CONTENT_POINTERS * BLOCK_SIZE
    ensures r.result.Err? ==> SetContentError(r.result.error)
  {
    if !IsAbsolute(path) then Step(Err(InvalidPath), img)
    else match ResolveForWrite(img, path)
      case Err(e) => Step(Err(e), img)
      case Ok(n) =>
        var ino := InodeAt(img, InodeAddr(n));
        if !IsFileMode(ino.mode) then Step(Err(NotARegularFile), img)
        else
          var needed := BlocksNeeded(|content|);
          var grown := AllocPointers(img, ino.blocks, 0, needed);
          match grown.result
          case Err(e) => Step(Err(e), grown.img)
          case Ok(ptrs) =>
            AllocPointersBound(img, ino.blocks, 0, needed);
            var written := WriteChunks(grown.img, ptrs, content, needed);
            Step(Ok(()), WithInode(written, InodeAddr(n), ino.(size := |content|, blocks := ptrs)))
  }

  /** A successful allocation loop needed at most 12 blocks, so the content is at most
      12 blocks long; it filled every pointer below `needed` and kept the others. */
  lemma {:induction false} AllocPointersBound(img: Image, ptrs: Pointers, i: nat, needed: nat)
    requires i <= needed && i <= CONTENT_POINTERS
    requires forall k :: 0 <= k < i ==> ptrs[k] != 0
    ensures var g := AllocPointers(img, ptrs, i, needed);
      g.result.Ok? ==>
        && needed <= CONTENT_POINTERS
        && (forall k :: 0 <= k < needed ==> g.result.value[k] != 0)
        && (forall k :: 0 <= k < needed && ptrs[k] != 0 ==> g.result.value[k] == ptrs[k])
        && (forall k :: needed <= k < DIRECT_POINTERS ==> g.result.value[k] == ptrs[k])
    ensures needed > CONTENT_POINTERS ==> AllocPointers(img, ptrs, i, needed).result.Err?
    decreases needed - i
  {
    if i < needed && i < CONTENT_POINTERS {
      if ptrs[i] != 0 {
        AllocPointersBound(img, ptrs, i + 1, needed);
      } else {
        var a := AllocBlock(img);
        if a.num != 0 {
          var ptrs' := ptrs[i := a.num];
          AllocPointersBound(a.img, ptrs', i + 1, needed);
          assert forall k :: 0 <= k < DIRECT_POINTERS && k != i ==> ptrs'[k] == ptrs[k];
        }
      }
    }
  }

  // ---------------------------------------------------------------- set_content outcomes

  /** Of the byte regions, the allocation loop writes only the data bitmap. */
  lemma {:induction false} AllocPointersFrame(img: Image, ptrs: Pointers, i: nat, needed: nat)
    ensures var g := AllocPointers(img, ptrs, i, needed);
      forall a :: a != DataBitmapAddr(img.superblock) ==> RegionAt(g.img, a) == RegionAt(img, a)
    decreases needed - i
  {
    if i < needed && i < CONTENT_POINTERS {
      if ptrs[i] != 0 {
        AllocPointersFrame(img, ptrs, i + 1, needed);
      } else {
        var a := AllocBlock(img);
        if a.num != 0 {
          AllocPointersFrame(a.img, ptrs[i := a.num], i + 1, needed);
        }
      }
    }
  }

  /** With every one of the first 12 pointers in use the allocation loop allocates nothing:
      it succeeds with the same pointers or, past 12 blocks, fails with "File too large"
      without touching the device. */
  lemma {:induction false} AllocPointersInUse(img: Image, ptrs: Pointers, i: nat, needed: nat)
    requires i <= CONTENT_POINTERS
    requires forall k :: i <= k < CONTENT_POINTERS ==> ptrs[k] != 0
    ensures AllocPointers(img, ptrs, i, needed) ==
      if needed > CONTENT_POINTERS then Step(Err(FileTooLarge), img) else Step(Ok(ptrs), img)
    decreases needed - i
  {
    if i < needed && i < CONTENT_POINTERS {
      AllocPointersInUse(img, ptrs, i + 1, needed);
    }
  }

  /** The path names a regular file set_content would write. */
  ghost predicate ResolvesToFile(img: Image, path: string)
  {
    && IsAbsolute(path) && Segments(path) != []
    && ResolveForWrite(img, path).Ok?
    && IsFileMode(InodeAt(img, InodeAddr(ResolveForWrite(img, path).value)).mode)
  }

  /** A failed set_content writes no content block and no inode: at most the data bitmap
      changed (by the blocks allocated before the failure). */
  lemma SetContentFailsClean(img: Image, path: string, content: seq<bv8>)
    requires SetContentDefined(path)
    requires SetContent(img, path, content).result.Err?
    ensures var r := SetContent(img, path, content).img;
      && r.header == img.header && r.superblock == img.superblock
      && r.inodes == img.inodes && r.dirBlocks == img.dirBlocks
      && forall a :: a != DataBitmapAddr(img.superblock) ==> RegionAt(r, a) == RegionAt(img, a)
  {
    if ResolvesToFile(img, path) {
      var ino := InodeAt(img, InodeAddr(ResolveForWrite(img, path).value));
      AllocPointersFrame(img, ino.blocks, 0, BlocksNeeded(|content|));
    }
  }

  /** Content of more than 12 blocks is refused with "File too large" (or "No free block
      available" if the bitmap runs out first), before any content or inode write; when the
      first 12 pointers are all in use nothing at all is written. */
  lemma SetContentTooLarge(img: Image, path: string, content: seq<bv8>)
    requires ResolvesToFile(img, path)
    requires |content| > CONTENT_POINTERS * BLOCK_SIZE
    ensures var r := SetContent(img, path, content);
      && (r.result == Err(FileTooLarge) || r.result == Err(NoFreeBlock))
      && r.img.inodes == img.inodes && r.img.dirBlocks == img.dirBlocks
      && (forall a :: a != DataBitmapAddr(img.superblock) ==> RegionAt(r.img, a) == RegionAt(img, a))
    ensures var ino := InodeAt(img, InodeAddr(ResolveForWrite(img, path).value));
      (forall k :: 0 <= k < CONTENT_POINTERS ==> ino.blocks[k] != 0) ==>
        SetContent(img, path, content) == Step(Err(FileTooLarge), img)
  {
    var ino := InodeAt(img, InodeAddr(ResolveForWrite(img, path).value));
    var needed := BlocksNeeded(|content|);
    assert needed > CONTENT_POINTERS;
    AllocPointersBound(img, ino.blocks, 0, needed);
    AllocPointersFrame(img, ino.blocks, 0, needed);
    if forall k :: 0 <= k < CONTENT_POINTERS ==> ino.blocks[k] != 0 {
      AllocPointersInUse(img, ino.blocks, 0, needed);
    }
  }

  /** After a successful set_content the file's inode keeps its mode, uid and gid, its
      size is the content length (at most 12 blocks), each needed pointer is in use, and
      the ones that were in use or past the needed count are kept; no other inode and no
      directory block changes. */
  lemma SetContentInode(img: Image, path: string, content: seq<bv8>)
    requires SetContentDefined(path)
    requires SetContent(img, path, content).result.Ok?
    ensures ResolvesToFile(img, path)
    ensures var n := ResolveForWrite(img, path).value;
      var ino := InodeAt(img, InodeAddr(n));
      var r := SetContent(img, path, content).img;
      var after := InodeAt(r, InodeAddr(n));
      var needed := BlocksNeeded(|content|);
      && |content| <= CONTENT_POINTERS * BLOCK_SIZE
      && after == ino.(size := |content|, blocks := after.blocks)
      && (forall k :: 0 <= k < needed ==> after.blocks[k] != 0)
      && (forall k :: 0 <= k < needed && ino.blocks[k] != 0 ==> after.blocks[k] == ino.blocks[k])
      && (forall k :: needed <= k < DIRECT_POINTERS ==> after.blocks[k] == ino.blocks[k])
      && LeadingBlocks(after.blocks) >= needed
      && (forall a :: a != InodeAddr(n) ==> InodeAt(r, a) == InodeAt(img, a))
      && r.dirBlocks == img.dirBlocks
  {
    var n := ResolveForWrite(img, path).value;
    var ino := InodeAt(img, InodeAddr(n));
    var needed := BlocksNeeded(|content|);
    AllocPointersBound(img, ino.blocks, 0, needed);
    AllocPointersFrame(img, ino.blocks, 0, needed);
  }

  /** The first n pointers are pairwise distinct. */
  ghost predicate DistinctUpTo(ptrs: Pointers, n: nat)
  {
    forall i, j :: 0 <= i < j < n && j < DIRECT_POINTERS ==> ptrs[i] != ptrs[j]
  }

  /** Chunk i of the content starts inside it when i is below the needed block count. */
  lemma ChunkInRange(content: seq<bv8>, i: nat)
    requires i < BlocksNeeded(|content|)
    ensures i * BLOCK_SIZE < |content|
  {
  }

  /** A region no pointer below n names is not written. */
  lemma {:induction false} WriteChunksUntouched(img: Image, ptrs: Pointers, content: seq<bv8>, n: nat, a: nat)
    requires n <= CONTENT_POINTERS && n <= BlocksNeeded(|content|)
    requires forall i :: 0 <= i < n ==> ptrs[i] != a
    ensures RegionAt(WriteChunks(img, ptrs, content, n), a) == RegionAt(img, a)
  {
    if n > 0 {
      WriteChunksUntouched(img, ptrs, content, n - 1, a);
    }
  }

  /** With distinct pointers, block i holds chunk i in front of whatever lay past it, and
      every region no pointer names is unchanged. */
  lemma WriteChunksLayout(img: Image, ptrs: Pointers, content: seq<bv8>, n: nat)
    requires n <= CONTENT_POINTERS && n <= BlocksNeeded(|content|)
    requires DistinctUpTo(ptrs, n)
    ensures var w := WriteChunks(img, ptrs, content, n);
      && (forall a :: (forall i :: 0 <= i < n ==> ptrs[i] != a) ==> RegionAt(w, a) == RegionAt(img, a))
      && (forall i :: 0 <= i < n ==>
            i * BLOCK_SIZE < |content|
            && RegionAt(w, ptrs[i]) == Chunk(content, i) + Rest(RegionAt(img, ptrs[i]), |Chunk(content, i)|))
  {
    forall a: nat | forall i :: 0 <= i < n ==> ptrs[i] != a
      ensures RegionAt(WriteChunks(img, ptrs, content, n), a) == RegionAt(img, a)
    {
      WriteChunksUntouched(img, ptrs, content, n, a);
    }
    forall i | 0 <= i < n
      ensures i * BLOCK_SIZE < |content|
      ensures RegionAt(WriteChunks(img, ptrs, content, n), ptrs[i]) == Chunk(content, i) + Rest(RegionAt(img, ptrs[i]), |Chunk(content, i)|)
    {
      ChunkInRange(content, i);
      WriteChunksOne(img, ptrs, content, n, i);
    }
  }

  /** Block i holds chunk i over what was there before. */
  lemma {:induction false} WriteChunksOne(img: Image, ptrs: Pointers, content: seq<bv8>, n: nat, i: nat)
    requires n <= CONTENT_POINTERS && n <= BlocksNeeded(|content|)
    requires DistinctUpTo(ptrs, n) && i < n
    ensures RegionAt(WriteChunks(img, ptrs, content, n), ptrs[i]) == Chunk(content, i) + Rest(RegionAt(img, ptrs[i]), |Chunk(content, i)|)
  {
    ChunkInRange(content, i);
    if i == n - 1 {
      WriteChunksUntouched(img, ptrs, content, n - 1, ptrs[i]);
    } else {
      WriteChunksOne(img, ptrs, content, n - 1, i);
    }
  }

  /** Byte idx of the gathered blocks is byte idx % BLOCK_SIZE of block idx / BLOCK_SIZE. */
  lemma {:induction false} GatherAt(img: Image, ptrs: Pointers, n: nat, idx: nat)
    requires n <= CONTENT_POINTERS && idx < n * BLOCK_SIZE
    ensures idx / BLOCK_SIZE < n
    ensures Gather(img, ptrs, n)[idx] == BytesAt(img, ptrs[idx / BLOCK_SIZE], BLOCK_SIZE)[idx % BLOCK_SIZE]
  {
    if idx < (n - 1) * BLOCK_SIZE {
      GatherAt(img, ptrs, n - 1, idx);
    }
  }

  /** What get_content returns: the path resolves to a regular file, and the answer is its
      leading in-use blocks among the first 12, whole, in pointer order. */
  lemma GetContentReads(img: Image, path: string)
    requires GetContent(img, path).Ok?
    ensures IsAbsolute(path)
    ensures Walk(img, Segments(path), ROOT, false, FileNotFound).Ok?
    ensures var ino := InodeAt(img, InodeAddr(Walk(img, Segments(path), ROOT, false, FileNotFound).value));
      var out := GetContent(img, path).value;
      && IsFileMode(ino.mode)
      && |out| == LeadingBlocks(ino.blocks) * BLOCK_SIZE
      && forall idx :: 0 <= idx < |out| ==>
           out[idx] == BytesAt(img, ino.blocks[idx / BLOCK_SIZE], BLOCK_SIZE)[idx % BLOCK_SIZE]
  {
    var ino := InodeAt(img, InodeAddr(Walk(img, Segments(path), ROOT, false, FileNotFound).value));
    forall idx | 0 <= idx < LeadingBlocks(ino.blocks) * BLOCK_SIZE
      ensures Gather(img, ino.blocks, LeadingBlocks(ino.blocks))[idx]
              == BytesAt(img, ino.blocks[idx / BLOCK_SIZE], BLOCK_SIZE)[idx % BLOCK_SIZE]
    {
      GatherAt(img, ino.blocks, LeadingBlocks(ino.blocks), idx);
    }
  }

  // ---------------------------------------------------------------- path walks

  /** A listed entry's type is the type of the inode it names. */
  lemma ListedType(img: Image, m: u32, e: DirListEntry)
    requires Listing(img, m).Ok? && e in Listing(img, m).value
    ensures e.isDir == IsDirMode(InodeAt(img, InodeAddr(e.inodeNum)).mode)
  {
    ListingMembers(img, m, e);
  }

  /** get_content matches every segment against non-directory entries, so a path of two
      or more segments always fails: the second step lists a regular file. */
  lemma GetContentDeepFails(img: Image, path: string)
    requires |Segments(path)| >= 2
    ensures GetContent(img, path).Err?
  {
    var segs := Segments(path);
    if IsAbsolute(path) && Listing(img, ROOT).Ok? {
      var entries := Listing(img, ROOT).value;
      var m := MatchFrom(entries, segs[0], false, 0);
      if m.Some? {
        var e := entries[m.value];
        ListedType(img, ROOT, e);
        assert Listing(img, e.inodeNum) == Err(NotADirectory);
        assert Walk(img, segs, ROOT, false, FileNotFound) == Walk(img, segs[1..], e.inodeNum, false, FileNotFound);
      }
    }
  }

  /** Two images agree on everything a path walk reads except file sizes: the same
      directory blocks, the same mode at every inode address, and the same pointers
      in every directory inode. */
  ghost predicate ShapeKept(img: Image, img': Image)
  {
    && img'.dirBlocks == img.dirBlocks
    && forall a: nat :: InodeAt(img', a).mode == InodeAt(img, a).mode
         && (IsDirMode(InodeAt(img, a).mode) ==> InodeAt(img', a).blocks == InodeAt(img, a).blocks)
  }

  /** Two listings that differ at most in the reported sizes. */
  ghost predicate SameShape(xs: seq<DirListEntry>, ys: seq<DirListEntry>)
  {
    |xs| == |ys| && forall i :: 0 <= i < |xs| ==> xs[i].(fileSize := 0) == ys[i].(fileSize := 0)
  }

  lemma ShapeConcat(a: seq<DirListEntry>, b: seq<DirListEntry>, c: seq<DirListEntry>, d: seq<DirListEntry>)
    requires SameShape(a, b) && SameShape(c, d)
    ensures SameShape(a + c, b + d)
  {
    forall i | 0 <= i < |a + c|
      ensures (a + c)[i].(fileSize := 0) == (b + d)[i].(fileSize := 0)
    {
      if i < |a| {
        assert (a + c)[i] == a[i] && (b + d)[i] == b[i];
      } else {
        assert (a + c)[i] == c[i - |a|] && (b + d)[i] == d[i - |a|];
      }
    }
  }

  lemma {:induction false} SlotsShape(img: Image, img': Image, blk: DirBlock, j: nat)
    requires ShapeKept(img, img') && j <= ENTRIES_PER_BLOCK
    ensures SameShape(SlotsUpTo(img, blk, j), SlotsUpTo(img', blk, j))
  {
    if j > 0 {
      SlotsShape(img, img', blk, j - 1);
      var e := blk[j - 1];
      var one := if e.inodeNum == 0 then [] else [Describe(img, e)];
      var one' := if e.inodeNum == 0 then [] else [Describe(img', e)];
      assert InodeAt(img', InodeAddr(e.inodeNum)).mode == InodeAt(img, InodeAddr(e.inodeNum)).mode;
      assert SameShape(one, one');
      ShapeConcat(SlotsUpTo(img, blk, j - 1), SlotsUpTo(img', blk, j - 1), one, one');
    }
  }

  lemma {:induction false} PointersShape(img: Image, img': Image, ptrs: Pointers, i: nat)
    requires ShapeKept(img, img') && i <= DIRECT_POINTERS
    ensures SameShape(PointersUpTo(img, ptrs, i), PointersUpTo(img', ptrs, i))
  {
    if i > 0 {
      PointersShape(img, img', ptrs, i - 1);
      if ptrs[i - 1] == 0 {
        ShapeConcat(PointersUpTo(img, ptrs, i - 1), PointersUpTo(img', ptrs, i - 1), [], []);
      } else {
        var blk := DirBlockAt(img, ptrs[i - 1]);
        assert DirBlockAt(img', ptrs[i - 1]) == blk;
        SlotsShape(img, img', blk, ENTRIES_PER_BLOCK);
        ShapeConcat(PointersUpTo(img, ptrs, i - 1), PointersUpTo(img', ptrs, i - 1),
                    SlotsUpTo(img, blk, ENTRIES_PER_BLOCK), SlotsUpTo(img', blk, ENTRIES_PER_BLOCK));
      }
    }
  }

  lemma {:induction false} MatchShape(xs: seq<DirListEntry>, ys: seq<DirListEntry>, name: string, wantDir: bool, k: nat)
    requires SameShape(xs, ys) && k <= |xs|
    ensures MatchFrom(xs, name, wantDir, k) == MatchFrom(ys, name, wantDir, k)
    decreases |xs| - k
  {
    if k < |xs| {
      assert xs[k].name == xs[k].(fileSize := 0).name && ys[k].name == ys[k].(fileSize := 0).name;
      assert xs[k].isDir == xs[k].(fileSize := 0).isDir && ys[k].isDir == ys[k].(fileSize := 0).isDir;
      MatchShape(xs, ys, name, wantDir, k + 1);
    }
  }

  /** A path walk gives the same answer on two images that agree on what it reads. */
  lemma {:induction false} WalkKept(img: Image, img': Image, tokens: seq<string>, cur: u32, wantDir: bool, missing: Error)
    requires ShapeKept(img, img')
    ensures Walk(img', tokens, cur, wantDir, missing) == Walk(img, tokens, cur, wantDir, missing)
    decreases |tokens|
  {
    if tokens != [] {
      var addr := InodeAddr(cur);
      assert InodeAt(img', addr).mode == InodeAt(img, addr).mode;
      if Listing(img, cur).Ok? {
        var xs := Listing(img, cur).value;
        var ys := Listing(img', cur).value;
        PointersShape(img, img', InodeAt(img, addr).blocks, DIRECT_POINTERS);
        MatchShape(xs, ys, tokens[0], wantDir, 0);
        var m := MatchFrom(xs, tokens[0], wantDir, 0);
        if m.Some? {
          assert xs[m.value].inodeNum == xs[m.value].(fileSize := 0).inodeNum;
          assert ys[m.value].inodeNum == ys[m.value].(fileSize := 0).inodeNum;
          WalkKept(img, img', tokens[1..], xs[m.value].inodeNum, wantDir, missing);
        }
      }
    }
  }

  /** set_content changes nothing a path walk reads: it writes content regions, the data
      bitmap and the inode of a regular file, keeping that inode's mode. */
  lemma SetContentKeepsShape(img: Image, path: string, content: seq<bv8>)
    requires SetContentDefined(path)
    ensures ShapeKept(img, SetContent(img, path, content).img)
  {
    var r := SetContent(img, path, content);
    if r.result.Err? {
      SetContentFailsClean(img, path, content);
    } else {
      SetContentInode(img, path, content);
      var n := ResolveForWrite(img, path).value;
      ModeTags(InodeAt(img, InodeAddr(n)).mode);
    }
  }

  /** On a one-segment path, get_content after set_content walks to the inode set_content
      resolved. */
  lemma SetThenWalk(img: Image, path: string, content: seq<bv8>)
    requires IsAbsolute(path) && |Segments(path)| == 1
    requires SetContent(img, path, content).result.Ok?
    ensures Walk(SetContent(img, path, content).img, Segments(path), ROOT, false, FileNotFound)
            == Ok(ResolveForWrite(img, path).value)
  {
    var segs := Segments(path);
    var r := SetContent(img, path, content).img;
    SetContentKeepsShape(img, path, content);
    assert segs[..0] == [];
    assert segs[1..] == [];
    WalkKept(img, r, segs, ROOT, false, FileNotFound);
  }

  /** After a successful set_content with distinct needed pointers, block i of the file
      begins with chunk i of the content. */
  lemma SetContentLayout(img: Image, path: string, content: seq<bv8>)
    requires SetContentDefined(path)
    requires SetContent(img, path, content).result.Ok?
    requires IsAbsolute(path) && Segments(path) != []
    requires DistinctUpTo(InodeAt(SetContent(img, path, content).img, InodeAddr(ResolveForWrite(img, path).value)).blocks,
                          BlocksNeeded(|content|))
    ensures var r := SetContent(img, path, content).img;
      var ptrs := InodeAt(r, InodeAddr(ResolveForWrite(img, path).value)).blocks;
      forall i :: 0 <= i < BlocksNeeded(|content|) ==>
        i < CONTENT_POINTERS && i * BLOCK_SIZE < |content|
        && StartsWith(RegionAt(r, ptrs[i]), Chunk(content, i))
  {
    var n := ResolveForWrite(img, path).value;
    var needed := BlocksNeeded(|content|);
    var g := AllocPointers(img, InodeAt(img, InodeAddr(n)).blocks, 0, needed);
    SetContentImage(img, path, content);
    WriteChunksStarts(g.img, g.result.value, content, needed);
  }

  /** The device a successful set_content leaves: the stored pointers are those of the
      allocation loop, and the byte regions are those the chunk loop wrote. */
  lemma SetContentImage(img: Image, path: string, content: seq<bv8>)
    requires IsAbsolute(path) && Segments(path) != []
    requires SetContent(img, path, content).result.Ok?
    ensures var n := ResolveForWrite(img, path).value;
      var needed := BlocksNeeded(|content|);
      var g := AllocPointers(img, InodeAt(img, InodeAddr(n)).blocks, 0, needed);
      var r := SetContent(img, path, content).img;
      && g.result.Ok? && needed <= CONTENT_POINTERS
      && InodeAt(r, InodeAddr(n)).blocks == g.result.value
      && r.regions == WriteChunks(g.img, g.result.value, content, needed).regions
  {
    var n := ResolveForWrite(img, path).value;
    AllocPointersBound(img, InodeAt(img, InodeAddr(n)).blocks, 0, BlocksNeeded(|content|));
  }

  /** With distinct pointers, block i of the written image begins with chunk i. */
  lemma WriteChunksStarts(img: Image, ptrs: Pointers, content: seq<bv8>, n: nat)
    requires n <= CONTENT_POINTERS && n <= BlocksNeeded(|content|)
    requires DistinctUpTo(ptrs, n)
    ensures forall i :: 0 <= i < n ==>
      i * BLOCK_SIZE < |content| && StartsWith(RegionAt(WriteChunks(img, ptrs, content, n), ptrs[i]), Chunk(content, i))
  {
    WriteChunksLayout(img, ptrs, content, n);
  }

  /** Gathering blocks that begin with the chunks of `content` gives back `content`. */
  lemma ReadBack(img: Image, ptrs: Pointers, content: seq<bv8>, leading: nat)
    requires BlocksNeeded(|content|) <= leading <= CONTENT_POINTERS
    requires forall i :: 0 <= i < BlocksNeeded(|content|) ==>
      i * BLOCK_SIZE < |content| && StartsWith(RegionAt(img, ptrs[i]), Chunk(content, i))
    ensures |content| <= |Gather(img, ptrs, leading)|
    ensures Gather(img, ptrs, leading)[..|content|] == content
  {
    var out := Gather(img, ptrs, leading);
    forall idx | 0 <= idx < |content|
      ensures out[idx] == content[idx]
    {
      var q := idx / BLOCK_SIZE;
      GatherAt(img, ptrs, leading, idx);
      assert q < BlocksNeeded(|content|);
      var c := Chunk(content, q);
      assert idx % BLOCK_SIZE < |c|;
      assert StartsWith(RegionAt(img, ptrs[q]), c);
      assert RegionAt(img, ptrs[q])[..|c|][idx % BLOCK_SIZE] == c[idx % BLOCK_SIZE];
      assert content[idx] == c[idx % BLOCK_SIZE];
    }
  }

  /** The allocation loop from i never changes a pointer below i. */
  lemma {:induction false} AllocPointersKeepsBelow(img: Image, ptrs: Pointers, i: nat, needed: nat)
    ensures var g := AllocPointers(img, ptrs, i, needed);
      g.result.Ok? ==> forall k :: 0 <= k < i && k < DIRECT_POINTERS ==> g.result.value[k] == ptrs[k]
    decreases needed - i
  {
    if i < needed && i < CONTENT_POINTERS {
      if ptrs[i] != 0 {
        AllocPointersKeepsBelow(img, ptrs, i + 1, needed);
      } else {
        var a := AllocBlock(img);
        if a.num != 0 {
          AllocPointersKeepsBelow(a.img, ptrs[i := a.num], i + 1, needed);
        }
      }
    }
  }

  /** A zero pointer below `needed` is filled by find_free_block and the loop goes on. */
  lemma AllocPointersZeroStep(img: Image, ptrs: Pointers, i: nat, needed: nat)
    requires i < needed <= CONTENT_POINTERS && ptrs[i] == 0 && AllocBlock(img).num != 0
    ensures AllocPointers(img, ptrs, i, needed)
            == AllocPointers(AllocBlock(img).img, ptrs[i := AllocBlock(img).num], i + 1, needed)
  {
  }

  lemma SliceCons(v: Pointers, i: nat, needed: nat)
    requires i < needed <= DIRECT_POINTERS
    ensures v[i..needed] == [v[i]] + v[i + 1..needed]
  {
  }

  /** When the pointers from i to `needed` are all 0, a successful allocation loop fills
      them with the answers of `needed - i` block allocations in a row, in order. */
  lemma {:induction false} AllocPointersFresh(img: Image, ptrs: Pointers, i: nat, needed: nat)
    requires i <= needed <= CONTENT_POINTERS
    requires forall k :: i <= k < needed ==> ptrs[k] == 0
    ensures var g := AllocPointers(img, ptrs, i, needed);
      g.result.Ok? ==> g.result.value[i..needed] == AllocBlocks(img, needed - i)
    decreases needed - i
  {
    if i < needed {
      var a := AllocBlock(img);
      if a.num != 0 {
        var ptrs' := ptrs[i := a.num];
        AllocPointersZeroStep(img, ptrs, i, needed);
        AllocPointersFresh(a.img, ptrs', i + 1, needed);
        AllocPointersKeepsBelow(a.img, ptrs', i + 1, needed);
        var g := AllocPointers(a.img, ptrs', i + 1, needed);
        if g.result.Ok? {
          SliceCons(g.result.value, i, needed);
          assert g.result.value[i] == a.num;
          assert AllocBlocks(img, needed - i) == [a.num] + AllocBlocks(a.img, needed - (i + 1));
        }
      }
    }
  }

  /** A file whose needed pointers are all 0, as for a freshly created file, gets pairwise
      distinct blocks from set_content, as long as no block number wraps around 32 bits. */
  lemma SetContentFreshDistinct(img: Image, path: string, content: seq<bv8>)
    requires IsAbsolute(path) && Segments(path) != []
    requires SetContent(img, path, content).result.Ok?
    requires forall k :: 0 <= k < BlocksNeeded(|content|) && k < DIRECT_POINTERS ==>
      InodeAt(img, InodeAddr(ResolveForWrite(img, path).value)).blocks[k] == 0
    requires 8 * |DataBitmap(img)| + 1 + img.superblock.inodeBitmapSize <= TWO_POW_32
    ensures DistinctUpTo(InodeAt(SetContent(img, path, content).img, InodeAddr(ResolveForWrite(img, path).value)).blocks,
                         BlocksNeeded(|content|))
  {
    var n := ResolveForWrite(img, path).value;
    var ino := InodeAt(img, InodeAddr(n));
    var needed := BlocksNeeded(|content|);
    SetContentImage(img, path, content);
    AllocPointersBound(img, ino.blocks, 0, needed);
    var ptrs := AllocPointers(img, ino.blocks, 0, needed).result.value;
    AllocPointersFresh(img, ino.blocks, 0, needed);
    AllocBlocksDistinct(img, needed);
    DistinctFromSlice(ptrs, AllocBlocks(img, needed), needed);
  }

  /** Pointers whose first n entries are n pairwise distinct non-zero numbers. */
  lemma DistinctFromSlice(ptrs: Pointers, nums: seq<u32>, n: nat)
    requires n <= DIRECT_POINTERS && ptrs[0..n] == nums
    requires forall i :: 0 <= i < n ==> ptrs[i] != 0
    requires forall i, j :: 0 <= i < n && 0 <= j < n && i != j && nums[i] != 0 && nums[j] != 0 ==> nums[i] != nums[j]
    ensures DistinctUpTo(ptrs, n)
  {
    forall i, j | 0 <= i < j < n && j < DIRECT_POINTERS
      ensures ptrs[i] != ptrs[j]
    {
      assert ptrs[i] == nums[i] && ptrs[j] == nums[j];
    }
  }

  /** Round trip: after a successful set_content(p, B) on a one-segment path whose needed
      pointers are distinct, get_content(p) begins with B. */
  lemma SetThenGet(img: Image, path: string, content: seq<bv8>)
    requires IsAbsolute(path) && |Segments(path)| == 1
    requires SetContent(img, path, content).result.Ok?
    requires DistinctUpTo(InodeAt(SetContent(img, path, content).img, InodeAddr(ResolveForWrite(img, path).value)).blocks,
                          BlocksNeeded(|content|))
    ensures var got := GetContent(SetContent(img, path, content).img, path);
      got.Ok? && |content| <= |got.value| && got.value[..|content|] == content
  {
    var n := ResolveForWrite(img, path).value;
    var r := SetContent(img, path, content).img;
    SetThenWalk(img, path, content);
    SetContentInode(img, path, content);
    SetContentLayout(img, path, content);
    var ptrs := InodeAt(r, InodeAddr(n)).blocks;
    assert GetContent(r, path) == Ok(Gather(r, ptrs, LeadingBlocks(ptrs)));
    ReadBack(r, ptrs, content, LeadingBlocks(ptrs));
  }

  /** Round trip for a file whose needed pointers are all 0, as for a freshly created
      file: after a successful set_content(p, B) on a one-segment path, get_content(p)
      begins with B. */
  lemma SetThenGetFresh(img: Image, path: string, content: seq<bv8>)
    requires IsAbsolute(path) && |Segments(path)| == 1
    requires SetContent(img, path, content).result.Ok?
    requires forall k :: 0 <= k < BlocksNeeded(|content|) && k < DIRECT_POINTERS ==>
      InodeAt(img, InodeAddr(ResolveForWrite(img, path).value)).blocks[k] == 0
    requires 8 * |DataBitmap(img)| + 1 + img.superblock.inodeBitmapSize <= TWO_POW_32
    ensures var got := GetContent(SetContent(img, path, content).img, path);
      got.Ok? && |content| <= |got.value| && got.value[..|content|] == content
  {
    SetContentFreshDistinct(img, path, content);
    SetThenGet(img, path, content);
  }
}
