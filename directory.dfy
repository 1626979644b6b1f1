/** The inode and directory store: names in directory entries, list_dir_inode and
    the shared shape of create_directory / create_regular_file, as functions of
    the device image. */
module Directory {
  import opened FsTypes
  import opened Bitmap
  import opened Device
  import opened Alloc

  /** The result of an operation that changes the device, with the image after it. */
  datatype Step<T> = Step(result: Result<T>, img: Image)

  // ---------------------------------------------------------------- names

  /** Index of the first NUL of s, or |s| if there is none. */
  function NulIndex(s: string): (k: nat)
    ensures k <= |s|
    ensures forall i :: 0 <= i < k ==> s[i] != '\0'
    ensures k < |s| ==> s[k] == '\0'
  {
    if s == [] then 0 else if s[0] == '\0' then 0 else 1 + NulIndex(s[1..])
  }

  /** The characters of s that c_str() makes visible: everything before the first NUL. */
  function CStr(s: string): string
  {
    s[..NulIndex(s)]
  }

  /** strncpy(field, src.c_str(), 11): copy up to 11 characters, stop at a NUL,
      pad the rest with NULs; no terminator when 11 characters were copied. */
  function CopyName(src: string): NameField
  {
    var c := CStr(src);
    if |c| >= NAME_FIELD then c[..NAME_FIELD] else c + seq(NAME_FIELD - |c|, _ => '\0')
  }

  /** std::string(field, strnlen(field, 11)). */
  function ListedName(field: NameField): string
  {
    field[..NulIndex(field)]
  }

  /** The field create_directory writes: the name copied with up to 11 bytes. */
  function DirNameField(name: string): NameField
  {
    CopyName(name)
  }

  /** The field create_regular_file writes: the name cut to 10 characters first. */
  function FileNameField(name: string): NameField
  {
    CopyName(if |name| <= FILE_NAME_MAX then name else name[..FILE_NAME_MAX])
  }

  /** Listing a copied name gives back what c_str() showed, cut to the field's 11 bytes. */
  lemma {:induction false} CopyNameRoundTrip(src: string)
    ensures var c := CStr(src);
      ListedName(CopyName(src)) == if |c| <= NAME_FIELD then c else c[..NAME_FIELD]
  {
    var c := CStr(src);
    var f := CopyName(src);
    if |c| >= NAME_FIELD {
      assert f == c[..NAME_FIELD];
      assert NulIndex(f) == NAME_FIELD by {
        NulFreeIndex(f);
      }
    } else {
      assert f[..|c|] == c;
      NulAfterPrefix(f, |c|);
    }
  }

  lemma {:induction false} NulFreeIndex(s: string)
    requires forall i :: 0 <= i < |s| ==> s[i] != '\0'
    ensures NulIndex(s) == |s|
  {
  }

  lemma {:induction false} NulAfterPrefix(s: string, k: nat)
    requires k < |s| && s[k] == '\0'
    requires forall i :: 0 <= i < k ==> s[i] != '\0'
    ensures NulIndex(s) == k
  {
  }

  /** A directory name of at most 11 NUL-free characters is listed exactly as given;
      a regular-file name keeps its first 10 characters. */
  lemma NameKept(name: string)
    requires forall i :: 0 <= i < |name| ==> name[i] != '\0'
    ensures |name| <= NAME_FIELD ==> ListedName(DirNameField(name)) == name
    ensures ListedName(FileNameField(name)) == if |name| <= FILE_NAME_MAX then name else name[..FILE_NAME_MAX]
  {
    NulFreeIndex(name);
    CopyNameRoundTrip(name);
    var cut := if |name| <= FILE_NAME_MAX then name else name[..FILE_NAME_MAX];
    NulFreeIndex(cut);
    CopyNameRoundTrip(cut);
  }

  // ---------------------------------------------------------------- listing

  /** What list_dir_inode reports for one used slot: the name up to its NUL, and the
      type and size of the child inode read at 1 + inode_num. */
  function Describe(img: Image, e: DirEntry): (d: DirListEntry)
    ensures d.inodeNum == e.inodeNum && d.name == ListedName(e.name)
  {
    var child := InodeAt(img, InodeAddr(e.inodeNum));
    DirListEntry(ListedName(e.name), IsDirMode(child.mode), child.size, e.inodeNum)
  }

  /** The entries reported for the first j slots of a block: used slots only, in slot order. */
  function SlotsUpTo(img: Image, blk: DirBlock, j: nat): (es: seq<DirListEntry>)
    requires j <= ENTRIES_PER_BLOCK
    ensures |es| <= j
  {
    if j == 0 then []
    else SlotsUpTo(img, blk, j - 1) + (if blk[j - 1].inodeNum == 0 then [] else [Describe(img, blk[j - 1])])
  }

  /** The entries reported for the first i pointers: zero pointers skipped, blocks in pointer order. */
  function PointersUpTo(img: Image, ptrs: Pointers, i: nat): (es: seq<DirListEntry>)
    requires i <= DIRECT_POINTERS
    ensures |es| <= i * ENTRIES_PER_BLOCK
  {
    if i == 0 then []
    else PointersUpTo(img, ptrs, i - 1)
         + (if ptrs[i - 1] == 0 then [] else SlotsUpTo(img, DirBlockAt(img, ptrs[i - 1]), ENTRIES_PER_BLOCK))
  }

  /** list_dir_inode(n): at most 64 entries for each of the 15 pointers. */
  function Listing(img: Image, n: u32): (r: Result<seq<DirListEntry>>)
    ensures r.Err? <==> !IsDirMode(InodeAt(img, InodeAddr(n)).mode)
    ensures r.Err? ==> r.error == NotADirectory
    ensures r.Ok? ==> |r.value| <= DIRECT_POINTERS * ENTRIES_PER_BLOCK
  {
    var ino := InodeAt(img, InodeAddr(n));
    if !IsDirMode(ino.mode) then Err(NotADirectory)
    else Ok(PointersUpTo(img, ino.blocks, DIRECT_POINTERS))
  }

  /** A used slot of one of the inode's non-zero pointers. */
  ghost predicate UsedSlot(img: Image, ptrs: Pointers, i: nat, j: nat)
  {
    i < DIRECT_POINTERS && j < ENTRIES_PER_BLOCK && ptrs[i] != 0 && DirBlockAt(img, ptrs[i])[j].inodeNum != 0
  }

  lemma {:induction false} SlotsUpToMembers(img: Image, blk: DirBlock, j: nat, e: DirListEntry)
    requires j <= ENTRIES_PER_BLOCK
    ensures e in SlotsUpTo(img, blk, j) <==> exists s :: 0 <= s < j && blk[s].inodeNum != 0 && e == Describe(img, blk[s])
  {
    if j > 0 {
      SlotsUpToMembers(img, blk, j - 1, e);
    }
  }

  /** e is reported for a used slot of pointer p's block. */
  ghost predicate InBlock(img: Image, ptrs: Pointers, p: nat, e: DirListEntry)
  {
    p < DIRECT_POINTERS && exists s: nat :: UsedSlot(img, ptrs, p, s) && e == Describe(img, DirBlockAt(img, ptrs[p])[s])
  }

  lemma BlockMembers(img: Image, ptrs: Pointers, p: nat, e: DirListEntry)
    requires p < DIRECT_POINTERS
    ensures e in (if ptrs[p] == 0 then [] else SlotsUpTo(img, DirBlockAt(img, ptrs[p]), ENTRIES_PER_BLOCK))
            <==> InBlock(img, ptrs, p, e)
  {
    if ptrs[p] != 0 {
      var blk := DirBlockAt(img, ptrs[p]);
      SlotsUpToMembers(img, blk, ENTRIES_PER_BLOCK, e);
      if e in SlotsUpTo(img, blk, ENTRIES_PER_BLOCK) {
        var s: nat :| s < ENTRIES_PER_BLOCK && blk[s].inodeNum != 0 && e == Describe(img, blk[s]);
        assert UsedSlot(img, ptrs, p, s);
      }
    }
  }

  /** The pointer whose block reports an entry of the first i pointers. */
  lemma {:induction false} PointersUpToSource(img: Image, ptrs: Pointers, i: nat, e: DirListEntry) returns (p: nat)
    requires i <= DIRECT_POINTERS
    requires e in PointersUpTo(img, ptrs, i)
    ensures p < i && InBlock(img, ptrs, p, e)
  {
    var head := PointersUpTo(img, ptrs, i - 1);
    if e in head {
      p := PointersUpToSource(img, ptrs, i - 1, e);
    } else {
      p := i - 1;
      BlockMembers(img, ptrs, p, e);
    }
  }

  /** An entry reported for pointer p is reported for every prefix that includes p. */
  lemma {:induction false} PointersUpToIncludes(img: Image, ptrs: Pointers, i: nat, p: nat, e: DirListEntry)
    requires p < i <= DIRECT_POINTERS
    requires InBlock(img, ptrs, p, e)
    ensures e in PointersUpTo(img, ptrs, i)
  {
    var head := PointersUpTo(img, ptrs, i - 1);
    var tail := if ptrs[i - 1] == 0 then [] else SlotsUpTo(img, DirBlockAt(img, ptrs[i - 1]), ENTRIES_PER_BLOCK);
    assert PointersUpTo(img, ptrs, i) == head + tail;
    if p < i - 1 {
      PointersUpToIncludes(img, ptrs, i - 1, p, e);
      assert e in head;
    } else {
      BlockMembers(img, ptrs, p, e);
      assert e in tail;
    }
  }

  lemma PointersUpToMembers(img: Image, ptrs: Pointers, i: nat, e: DirListEntry)
    requires i <= DIRECT_POINTERS
    ensures e in PointersUpTo(img, ptrs, i) <==> exists p: nat :: p < i && InBlock(img, ptrs, p, e)
  {
    if e in PointersUpTo(img, ptrs, i) {
      var p := PointersUpToSource(img, ptrs, i, e);
    }
    if exists p: nat :: p < i && InBlock(img, ptrs, p, e) {
      var p: nat :| p < i && InBlock(img, ptrs, p, e);
      PointersUpToIncludes(img, ptrs, i, p, e);
    }
  }

  /** list_dir_inode fails exactly on a non-directory, and otherwise reports one entry
      for each used slot behind a non-zero pointer, described from the child inode. */
  lemma ListingMembers(img: Image, n: u32, e: DirListEntry)
    ensures Listing(img, n).Err? <==> !IsDirMode(InodeAt(img, InodeAddr(n)).mode)
    ensures Listing(img, n).Err? ==> Listing(img, n).error == NotADirectory
    ensures Listing(img, n).Ok? ==>
      var ptrs := InodeAt(img, InodeAddr(n)).blocks;
      (e in Listing(img, n).value <==>
        exists p: nat, s: nat :: UsedSlot(img, ptrs, p, s) && e == Describe(img, DirBlockAt(img, ptrs[p])[s]))
  {
    var ptrs := InodeAt(img, InodeAddr(n)).blocks;
    PointersUpToMembers(img, ptrs, DIRECT_POINTERS, e);
    if exists p: nat, s: nat :: UsedSlot(img, ptrs, p, s) && e == Describe(img, DirBlockAt(img, ptrs[p])[s]) {
      var p: nat, s: nat :| UsedSlot(img, ptrs, p, s) && e == Describe(img, DirBlockAt(img, ptrs[p])[s]);
      assert InBlock(img, ptrs, p, e);
    }
  }

  /** Number of used slots among the first j slots of a block. */
  function UsedCount(blk: DirBlock, j: nat): nat
    requires j <= ENTRIES_PER_BLOCK
  {
    if j == 0 then 0 else UsedCount(blk, j - 1) + (if blk[j - 1].inodeNum == 0 then 0 else 1)
  }

  lemma {:induction false} SlotsUpToLength(img: Image, blk: DirBlock, j: nat)
    requires j <= ENTRIES_PER_BLOCK
    ensures |SlotsUpTo(img, blk, j)| == UsedCount(blk, j) <= j
  {
    if j > 0 {
      SlotsUpToLength(img, blk, j - 1);
    }
  }

  // ---------------------------------------------------------------- create

  /** The first free slot (inode number 0) of a block at index `from` or later. */
  function FreeSlotFrom(blk: DirBlock, from: nat): (r: Option<nat>)
    requires from <= ENTRIES_PER_BLOCK
    decreases ENTRIES_PER_BLOCK - from
    ensures r.Some? ==> from <= r.value < ENTRIES_PER_BLOCK && blk[r.value].inodeNum == 0
    ensures r.Some? ==> forall s :: from <= s < r.value ==> blk[s].inodeNum != 0
    ensures r.None? ==> forall s :: from <= s < ENTRIES_PER_BLOCK ==> blk[s].inodeNum != 0
  {
    if from == ENTRIES_PER_BLOCK then None
    else if blk[from].inodeNum == 0 then Some(from)
    else FreeSlotFrom(blk, from + 1)
  }

  function FirstFreeSlot(blk: DirBlock): Option<nat>
  {
    FreeSlotFrom(blk, 0)
  }

  /** The pointer loop of create_*, from pointer i on: a zero pointer is first filled
      by find_free_block and the parent inode rewritten, then the entry goes into the
      block's first free slot; a full block passes on to the next pointer. */
  function InsertEntry(img: Image, parentAddr: u32, parent: Inode, entry: DirEntry, i: nat): (r: Step<u32>)
    requires i <= DIRECT_POINTERS
    decreases DIRECT_POINTERS - i, 1
    ensures r.result.Ok? ==> r.result.value == entry.inodeNum
    ensures r.result.Err? ==> r.result.error == NoSpaceInParent || r.result.error == NoFreeBlock
    ensures r.img.header == img.header && r.img.superblock == img.superblock
  {
    if i == DIRECT_POINTERS then Step(Err(NoSpaceInParent), img)
    else if parent.blocks[i] == 0 then
      var a := AllocBlock(img);
      if a.num == 0 then Step(Err(NoFreeBlock), a.img)
      else
        var grown := parent.(blocks := parent.blocks[i := a.num]);
        PlaceEntry(WithInode(a.img, parentAddr, grown), parentAddr, grown, entry, i)
    else PlaceEntry(img, parentAddr, parent, entry, i)
  }

  /** The slot scan of one block of the pointer loop. */
  function PlaceEntry(img: Image, parentAddr: u32, parent: Inode, entry: DirEntry, i: nat): (r: Step<u32>)
    requires i < DIRECT_POINTERS
    decreases DIRECT_POINTERS - i, 0
    ensures r.result.Ok? ==> r.result.value == entry.inodeNum
    ensures r.result.Err? ==> r.result.error == NoSpaceInParent || r.result.error == NoFreeBlock
    ensures r.img.header == img.header && r.img.superblock == img.superblock
  {
    var blk := DirBlockAt(img, parent.blocks[i]);
    match FirstFreeSlot(blk)
    case Some(j) => Step(Ok(entry.inodeNum), WithDirBlock(img, parent.blocks[i], blk[j := entry]))
    case None => InsertEntry(img, parentAddr, parent, entry, i + 1)
  }

  /** The failures create_directory and create_regular_file report. */
  predicate CreateError(e: Error)
  {
    e == ParentNotADirectory || e == NoFreeInode || e == NoSpaceInParent || e == NoFreeBlock
  }

  /** create_directory (mode 0x4000) and create_regular_file (mode 0x8000): check the
      parent, allocate and write the new inode, then insert its entry into the parent. */
  function Create(img: Image, field: NameField, parentNum: u32, mode: bv16): (r: Step<u32>)
    ensures r.result.Ok? ==> r.result.value == AllocInode(img).num != 0
    ensures r.result.Err? ==> CreateError(r.result.error)
    ensures r.img.header == img.header && r.img.superblock == img.superblock
  {
    var parentAddr := InodeAddr(parentNum);
    var parent := InodeAt(img, parentAddr);
    if !IsDirMode(parent.mode) then Step(Err(ParentNotADirectory), img)
    else
      var a := AllocInode(img);
      if a.num == 0 then Step(Err(NoFreeInode), a.img)
      else
        var written := WithInode(a.img, InodeAddr(a.num), FreshInode(mode));
        InsertEntry(written, parentAddr, parent, DirEntry(field, a.num), 0)
  }

  // ---------------------------------------------------------------- create outcomes

  /** Pointer p of the parent is in use and its block has no free slot. */
  ghost predicate FullAt(img: Image, parent: Inode, p: nat)
    requires p < DIRECT_POINTERS
  {
    parent.blocks[p] != 0 && FirstFreeSlot(DirBlockAt(img, parent.blocks[p])).None?
  }

  /** The pointer loop passes over full blocks without writing anything. */
  lemma {:induction false} InsertSkipsFull(img: Image, parentAddr: u32, parent: Inode, entry: DirEntry, i: nat, p: nat)
    requires i <= p <= DIRECT_POINTERS
    requires forall q :: i <= q < p ==> FullAt(img, parent, q)
    ensures InsertEntry(img, parentAddr, parent, entry, i) == InsertEntry(img, parentAddr, parent, entry, p)
    decreases p - i
  {
    if i < p {
      assert FullAt(img, parent, i);
      InsertSkipsFull(img, parentAddr, parent, entry, i + 1, p);
    }
  }

  /** When all 15 pointers are in use and every slot is taken, insertion fails with
      "No space in parent directory" and writes nothing. */
  lemma InsertNoSpace(img: Image, parentAddr: u32, parent: Inode, entry: DirEntry)
    requires forall q :: 0 <= q < DIRECT_POINTERS ==> FullAt(img, parent, q)
    ensures InsertEntry(img, parentAddr, parent, entry, 0) == Step(Err(NoSpaceInParent), img)
  {
    InsertSkipsFull(img, parentAddr, parent, entry, 0, DIRECT_POINTERS);
  }

  /** The entry goes into the first free slot of the first in-use pointer that has one,
      when every pointer before it is in use and full; only that slot changes. */
  lemma InsertPlaces(img: Image, parentAddr: u32, parent: Inode, entry: DirEntry, p: nat)
    requires p < DIRECT_POINTERS
    requires forall q :: 0 <= q < p ==> FullAt(img, parent, q)
    requires parent.blocks[p] != 0 && FirstFreeSlot(DirBlockAt(img, parent.blocks[p])).Some?
    ensures var blk := DirBlockAt(img, parent.blocks[p]);
      var j := FirstFreeSlot(blk).value;
      var r := InsertEntry(img, parentAddr, parent, entry, 0);
      && r == Step(Ok(entry.inodeNum), WithDirBlock(img, parent.blocks[p], blk[j := entry]))
      && blk[j].inodeNum == 0 && (forall s :: 0 <= s < j ==> blk[s].inodeNum != 0)
      && DirBlockAt(r.img, parent.blocks[p])[j] == entry
      && (forall s :: 0 <= s < ENTRIES_PER_BLOCK && s != j ==> DirBlockAt(r.img, parent.blocks[p])[s] == blk[s])
      && (forall a :: a != parent.blocks[p] ==> DirBlockAt(r.img, a) == DirBlockAt(img, a))
      && r.img.inodes == img.inodes && r.img.regions == img.regions
  {
    InsertSkipsFull(img, parentAddr, parent, entry, 0, p);
  }

  /** When the first pointer that is not full is 0, find_free_block fills it and the parent
      inode is rewritten before the slot scan; a failed allocation aborts with
      "No free block available". On a newly allocated block with a free slot the entry
      lands in its first free slot. */
  lemma InsertGrows(img: Image, parentAddr: u32, parent: Inode, entry: DirEntry, p: nat)
    requires p < DIRECT_POINTERS
    requires forall q :: 0 <= q < p ==> FullAt(img, parent, q)
    requires parent.blocks[p] == 0
    ensures var a := AllocBlock(img);
      var r := InsertEntry(img, parentAddr, parent, entry, 0);
      && (a.num == 0 ==> r == Step(Err(NoFreeBlock), a.img))
      && (a.num != 0 && FirstFreeSlot(DirBlockAt(img, a.num)).Some? ==>
            var grown := parent.(blocks := parent.blocks[p := a.num]);
            var blk := DirBlockAt(img, a.num);
            && r.result == Ok(entry.inodeNum)
            && r.img == WithDirBlock(WithInode(a.img, parentAddr, grown), a.num, blk[FirstFreeSlot(blk).value := entry])
            && InodeAt(r.img, parentAddr).blocks[p] == a.num)
  {
    InsertSkipsFull(img, parentAddr, parent, entry, 0, p);
  }

  /** What a successful insertion leaves behind: the entry in a used slot behind one of
      the pointers the parent inode on the device records. */
  ghost predicate Stored(img: Image, parentAddr: u32, entry: DirEntry)
  {
    var after := InodeAt(img, parentAddr);
    exists p: nat, s: nat :: UsedSlot(img, after.blocks, p, s) && DirBlockAt(img, after.blocks[p])[s] == entry
  }

  /** What every run of the pointer loop keeps: the parent's mode and in-use pointers,
      and every other inode. */
  ghost predicate ParentKept(before: Image, after: Image, parentAddr: u32, parent: Inode)
  {
    && InodeAt(after, parentAddr).mode == parent.mode
    && (forall q :: 0 <= q < DIRECT_POINTERS && parent.blocks[q] != 0 ==> InodeAt(after, parentAddr).blocks[q] == parent.blocks[q])
    && (forall a :: a != parentAddr ==> InodeAt(after, a) == InodeAt(before, a))
  }

  lemma {:induction false} PlaceEntryStored(img: Image, parentAddr: u32, parent: Inode, entry: DirEntry, i: nat)
    requires i < DIRECT_POINTERS
    requires entry.inodeNum != 0
    requires InodeAt(img, parentAddr) == parent && parent.blocks[i] != 0
    requires FirstFreeSlot(DirBlockAt(img, parent.blocks[i])).Some?
    ensures var r := PlaceEntry(img, parentAddr, parent, entry, i);
      && r.result == Ok(entry.inodeNum)
      && ParentKept(img, r.img, parentAddr, parent)
      && Stored(r.img, parentAddr, entry)
  {
    var blk := DirBlockAt(img, parent.blocks[i]);
    var j := FirstFreeSlot(blk).value;
    var r := WithDirBlock(img, parent.blocks[i], blk[j := entry]);
    assert PlaceEntry(img, parentAddr, parent, entry, i).img == r;
    assert InodeAt(r, parentAddr) == parent;
    assert UsedSlot(r, parent.blocks, i, j);
  }

  /** Filling a zero pointer: the parent inode on the device becomes the grown copy and
      nothing else the pointer loop keeps changes. */
  lemma GrowStep(img: Image, parentAddr: u32, parent: Inode, entry: DirEntry, i: nat)
    requires i < DIRECT_POINTERS && parent.blocks[i] == 0
    requires AllocBlock(img).num != 0
    ensures var a := AllocBlock(img);
      var cur := parent.(blocks := parent.blocks[i := a.num]);
      var img1 := WithInode(a.img, parentAddr, cur);
      && InsertEntry(img, parentAddr, parent, entry, i) == PlaceEntry(img1, parentAddr, cur, entry, i)
      && InodeAt(img1, parentAddr) == cur
      && ParentKept(img, img1, parentAddr, parent)
  {
  }

  /** A successful insertion leaves the entry in a used slot behind one of the parent's
      pointers, as the parent inode on the device then records them; every pointer that was
      in use stays, the mode stays, and no other inode changes. */
  lemma {:induction false} InsertEntryStored(img: Image, parentAddr: u32, parent: Inode, entry: DirEntry, i: nat)
    requires i <= DIRECT_POINTERS
    requires entry.inodeNum != 0
    requires InodeAt(img, parentAddr) == parent
    ensures var r := InsertEntry(img, parentAddr, parent, entry, i);
      && ParentKept(img, r.img, parentAddr, parent)
      && (r.result.Ok? ==> Stored(r.img, parentAddr, entry))
    decreases DIRECT_POINTERS - i
  {
    if i == DIRECT_POINTERS {
      return;
    }
    if parent.blocks[i] == 0 {
      var a := AllocBlock(img);
      if a.num != 0 {
        var cur := parent.(blocks := parent.blocks[i := a.num]);
        var img1 := WithInode(a.img, parentAddr, cur);
        GrowStep(img, parentAddr, parent, entry, i);
        PlaceOrPass(img1, parentAddr, cur, entry, i);
        KeptTrans(img, img1, PlaceEntry(img1, parentAddr, cur, entry, i).img, parentAddr, parent, cur);
      }
    } else {
      PlaceOrPass(img, parentAddr, parent, entry, i);
    }
  }

  /** The slot scan of pointer i, then the rest of the loop. */
  lemma {:induction false} PlaceOrPass(img: Image, parentAddr: u32, parent: Inode, entry: DirEntry, i: nat)
    requires i < DIRECT_POINTERS
    requires entry.inodeNum != 0
    requires InodeAt(img, parentAddr) == parent && parent.blocks[i] != 0
    ensures var r := PlaceEntry(img, parentAddr, parent, entry, i);
      && ParentKept(img, r.img, parentAddr, parent)
      && (r.result.Ok? ==> Stored(r.img, parentAddr, entry))
    decreases DIRECT_POINTERS - i, 0
  {
    if FirstFreeSlot(DirBlockAt(img, parent.blocks[i])).Some? {
      PlaceEntryStored(img, parentAddr, parent, entry, i);
    } else {
      InsertEntryStored(img, parentAddr, parent, entry, i + 1);
    }
  }

  /** Growing the parent and then running the rest of the loop keeps what each part keeps. */
  lemma KeptTrans(img0: Image, img1: Image, img2: Image, parentAddr: u32, parent: Inode, cur: Inode)
    requires ParentKept(img0, img1, parentAddr, parent)
    requires ParentKept(img1, img2, parentAddr, cur)
    requires cur.mode == parent.mode
    requires forall q :: 0 <= q < DIRECT_POINTERS && parent.blocks[q] != 0 ==> cur.blocks[q] == parent.blocks[q]
    ensures ParentKept(img0, img2, parentAddr, parent)
  {
  }

  /** create_* on a parent that is not a directory fails and writes nothing; with no
      inode to allocate it fails with "No free inode available", leaving the bitmap as
      find_free_inode left it. */
  lemma CreateFailures(img: Image, field: NameField, parentNum: u32, mode: bv16)
    ensures !IsDirMode(InodeAt(img, InodeAddr(parentNum)).mode) ==>
      Create(img, field, parentNum, mode) == Step(Err(ParentNotADirectory), img)
    ensures IsDirMode(InodeAt(img, InodeAddr(parentNum)).mode)
            && (forall m :: 0 <= m < 8 * |InodeBitmap(img)| ==> IsSet(InodeBitmap(img), m)) ==>
      Create(img, field, parentNum, mode) == Step(Err(NoFreeInode), img)
  {
    AllocFullBitmap(img);
  }

  /** With every slot of all 15 blocks of the parent taken, create_* fails with "No space
      in parent directory" after writing the new inode: the inode is allocated and
      initialised but no directory entry refers to it. */
  lemma CreateNoSpace(img: Image, field: NameField, parentNum: u32, mode: bv16)
    requires IsDirMode(InodeAt(img, InodeAddr(parentNum)).mode)
    requires AllocInode(img).num != 0
    requires forall q :: 0 <= q < DIRECT_POINTERS ==> FullAt(img, InodeAt(img, InodeAddr(parentNum)), q)
    ensures var k := AllocInode(img).num;
      var r := Create(img, field, parentNum, mode);
      && r.result == Err(NoSpaceInParent)
      && r.img == WithInode(AllocInode(img).img, InodeAddr(k), FreshInode(mode))
      && r.img.dirBlocks == img.dirBlocks
  {
    var a := AllocInode(img);
    var parent := InodeAt(img, InodeAddr(parentNum));
    var written := WithInode(a.img, InodeAddr(a.num), FreshInode(mode));
    assert forall q :: 0 <= q < DIRECT_POINTERS ==> FullAt(written, parent, q) by {
      forall q | 0 <= q < DIRECT_POINTERS ensures FullAt(written, parent, q) {
        assert FullAt(img, parent, q);
      }
    }
    InsertNoSpace(written, InodeAddr(parentNum), parent, DirEntry(field, a.num));
  }

  /** After a successful create_* into a parent other than the new inode itself, listing
      the parent shows the new entry: its name as copied into the field, the type of the
      new inode, size 0 and the number find_free_inode returned. */
  lemma CreateThenList(img: Image, field: NameField, parentNum: u32, mode: bv16)
    requires Create(img, field, parentNum, mode).result.Ok?
    requires Create(img, field, parentNum, mode).result.value != parentNum
    ensures var r := Create(img, field, parentNum, mode);
      var k := r.result.value;
      && k == AllocInode(img).num && k != 0
      && IsDirMode(InodeAt(img, InodeAddr(parentNum)).mode)
      && InodeAt(r.img, InodeAddr(k)) == FreshInode(mode)
      && Listing(r.img, parentNum).Ok?
      && DirListEntry(ListedName(field), IsDirMode(mode), 0, k) in Listing(r.img, parentNum).value
  {
    var parentAddr := InodeAddr(parentNum);
    var parent := InodeAt(img, parentAddr);
    var a := AllocInode(img);
    var k := a.num;
    var entry := DirEntry(field, k);
    var written := WithInode(a.img, InodeAddr(k), FreshInode(mode));
    InodeAddrInjective(k, parentNum);
    assert InodeAt(written, parentAddr) == parent;
    InsertEntryStored(written, parentAddr, parent, entry, 0);
    var r := Create(img, field, parentNum, mode);
    var after := InodeAt(r.img, parentAddr);
    assert Stored(r.img, parentAddr, entry);
    var p: nat, s: nat :| UsedSlot(r.img, after.blocks, p, s) && DirBlockAt(r.img, after.blocks[p])[s] == entry;
    assert Describe(r.img, entry) == DirListEntry(ListedName(field), IsDirMode(mode), 0, k);
    ListingMembers(r.img, parentNum, Describe(r.img, entry));
  }

  // ---------------------------------------------------------------- create adds one entry

  /** `after` is `before` with d inserted at position pos. */
  ghost predicate InsertedAt(after: seq<DirListEntry>, before: seq<DirListEntry>, pos: nat, d: DirListEntry)
  {
    pos <= |before| && after == before[..pos] + [d] + before[pos..]
  }

  lemma InsertThenAppend(a: seq<DirListEntry>, c: nat, d: DirListEntry, last: seq<DirListEntry>)
    requires c <= |a|
    ensures InsertedAt(a[..c] + [d] + a[c..] + last, a + last, c, d)
  {
    assert (a + last)[..c] == a[..c];
    assert (a + last)[c..] == a[c..] + last;
  }

  lemma InsertAfterPrefix(a: seq<DirListEntry>, b: seq<DirListEntry>, c: nat, d: DirListEntry)
    requires c <= |b|
    ensures InsertedAt(a + (b[..c] + [d] + b[c..]), a + b, |a| + c, d)
  {
    assert (a + b)[..|a| + c] == a + b[..c];
    assert (a + b)[|a| + c..] == b[c..];
  }

  /** Two images that describe every used slot of a block alike list that block alike. */
  lemma {:induction false} SlotsUpToSame(img: Image, img': Image, blk: DirBlock, j: nat)
    requires j <= ENTRIES_PER_BLOCK
    requires forall s :: 0 <= s < j && blk[s].inodeNum != 0 ==> Describe(img', blk[s]) == Describe(img, blk[s])
    ensures SlotsUpTo(img', blk, j) == SlotsUpTo(img, blk, j)
  {
    if j > 0 {
      SlotsUpToSame(img, img', blk, j - 1);
    }
  }

  /** Slots below t are listed alike after slot t is written. */
  lemma {:induction false} SlotsUpToBelow(img: Image, blk: DirBlock, t: nat, e: DirEntry, j: nat)
    requires j <= t < ENTRIES_PER_BLOCK
    ensures SlotsUpTo(img, blk[t := e], j) == SlotsUpTo(img, blk, j)
  {
    if j > 0 {
      SlotsUpToBelow(img, blk, t, e, j - 1);
    }
  }

  /** Filling the free slot t of a block with a used entry inserts its description into
      the block's listing, after the descriptions of the used slots below t. */
  lemma {:induction false} SlotsUpToInsert(img: Image, blk: DirBlock, t: nat, e: DirEntry, j: nat)
    requires t < j <= ENTRIES_PER_BLOCK
    requires blk[t].inodeNum == 0 && e.inodeNum != 0
    ensures InsertedAt(SlotsUpTo(img, blk[t := e], j), SlotsUpTo(img, blk, j), |SlotsUpTo(img, blk, t)|, Describe(img, e))
  {
    var c := |SlotsUpTo(img, blk, t)|;
    if j == t + 1 {
      SlotsUpToBelow(img, blk, t, e, t);
      assert SlotsUpTo(img, blk, j) == SlotsUpTo(img, blk, t);
      assert SlotsUpTo(img, blk, t)[..c] == SlotsUpTo(img, blk, t);
    } else {
      SlotsUpToInsert(img, blk, t, e, j - 1);
      assert blk[t := e][j - 1] == blk[j - 1];
      InsertThenAppend(SlotsUpTo(img, blk, j - 1), c, Describe(img, e),
                       if blk[j - 1].inodeNum == 0 then [] else [Describe(img, blk[j - 1])]);
    }
  }

  /** What pointer q contributes to a listing. */
  function BlockListing(img: Image, ptrs: Pointers, q: nat): seq<DirListEntry>
    requires q < DIRECT_POINTERS
  {
    if ptrs[q] == 0 then [] else SlotsUpTo(img, DirBlockAt(img, ptrs[q]), ENTRIES_PER_BLOCK)
  }

  /** What each of the 15 pointers contributes to a listing, in pointer order. */
  function Blocks(img: Image, ptrs: Pointers): (bs: seq<seq<DirListEntry>>)
    ensures |bs| == DIRECT_POINTERS
    ensures forall q :: 0 <= q < DIRECT_POINTERS ==> bs[q] == BlockListing(img, ptrs, q)
  {
    seq(DIRECT_POINTERS, q requires 0 <= q < DIRECT_POINTERS => BlockListing(img, ptrs, q))
  }

  /** The concatenation of a sequence of listings, in order. */
  function Flat(bs: seq<seq<DirListEntry>>): seq<DirListEntry>
  {
    if bs == [] then [] else Flat(bs[..|bs| - 1]) + bs[|bs| - 1]
  }

  /** Listing the first i pointers concatenates what each of them contributes. */
  lemma {:induction false} PointersUpToFlat(img: Image, ptrs: Pointers, i: nat)
    requires i <= DIRECT_POINTERS
    ensures PointersUpTo(img, ptrs, i) == Flat(Blocks(img, ptrs)[..i])
  {
    if i > 0 {
      PointersUpToFlat(img, ptrs, i - 1);
      var bs := Blocks(img, ptrs);
      assert bs[..i][..i - 1] == bs[..i - 1];
      assert bs[..i][i - 1] == BlockListing(img, ptrs, i - 1);
    }
  }

  /** When one listing of a sequence gains d at position c and the others stay, the
      concatenation gains d after everything the listings before it hold. */
  lemma {:induction false} FlatInsert(bs: seq<seq<DirListEntry>>, bs': seq<seq<DirListEntry>>, p: nat, c: nat, d: DirListEntry)
    requires |bs'| == |bs| && p < |bs|
    requires forall q :: 0 <= q < |bs| && q != p ==> bs'[q] == bs[q]
    requires InsertedAt(bs'[p], bs[p], c, d)
    ensures InsertedAt(Flat(bs'), Flat(bs), |Flat(bs[..p])| + c, d)
    decreases |bs|
  {
    var n := |bs| - 1;
    if p == n {
      assert bs'[..n] == bs[..n];
      InsertAfterPrefix(Flat(bs[..n]), bs[n], c, d);
    } else {
      assert bs[..n][..p] == bs[..p];
      FlatInsert(bs[..n], bs'[..n], p, c, d);
      InsertThenAppend(Flat(bs[..n]), |Flat(bs[..p])| + c, d, bs[n]);
    }
  }

  /** Describing an entry reads only the inode it names. */
  lemma DescribeKept(img: Image, img': Image, k: u32, x: DirEntry)
    requires forall a :: a != InodeAddr(k) ==> InodeAt(img', a) == InodeAt(img, a)
    requires x.inodeNum != k
    ensures Describe(img', x) == Describe(img, x)
  {
    InodeAddrInjective(x.inodeNum, k);
  }

  /** Inserting one entry adds exactly that entry to the multiset of entries. */
  lemma InsertedMultiset(after: seq<DirListEntry>, before: seq<DirListEntry>, pos: nat, d: DirListEntry)
    requires InsertedAt(after, before, pos, d)
    ensures |after| == |before| + 1
    ensures multiset(after) == multiset(before) + multiset{d}
  {
    assert before == before[..pos] + before[pos..];
  }

  /** The device after a create_* whose entry lands in the first free slot j of the
      in-use block of pointer p: the parent inode is as before, the new inode holds the
      fresh record, no other inode changes, and only slot j of that block is written. */
  lemma CreatePlaced(img: Image, field: NameField, parentNum: u32, mode: bv16, p: nat)
    requires IsDirMode(InodeAt(img, InodeAddr(parentNum)).mode)
    requires AllocInode(img).num != 0 && AllocInode(img).num != parentNum
    requires p < DIRECT_POINTERS
    requires forall q :: 0 <= q < p ==> FullAt(img, InodeAt(img, InodeAddr(parentNum)), q)
    requires InodeAt(img, InodeAddr(parentNum)).blocks[p] != 0
    requires FirstFreeSlot(DirBlockAt(img, InodeAt(img, InodeAddr(parentNum)).blocks[p])).Some?
    ensures var parent := InodeAt(img, InodeAddr(parentNum));
      var k := AllocInode(img).num;
      var blk := DirBlockAt(img, parent.blocks[p]);
      var r := Create(img, field, parentNum, mode);
      && r.result == Ok(k)
      && InodeAt(r.img, InodeAddr(parentNum)) == parent
      && InodeAt(r.img, InodeAddr(k)) == FreshInode(mode)
      && (forall x :: x != InodeAddr(k) ==> InodeAt(r.img, x) == InodeAt(img, x))
      && DirBlockAt(r.img, parent.blocks[p]) == blk[FirstFreeSlot(blk).value := DirEntry(field, k)]
      && (forall x :: x != parent.blocks[p] ==> DirBlockAt(r.img, x) == DirBlockAt(img, x))
  {
    var parentAddr := InodeAddr(parentNum);
    var parent := InodeAt(img, parentAddr);
    var a := AllocInode(img);
    var written := WithInode(a.img, InodeAddr(a.num), FreshInode(mode));
    InodeAddrInjective(a.num, parentNum);
    assert forall q :: 0 <= q < p ==> FullAt(written, parent, q) by {
      forall q | 0 <= q < p ensures FullAt(written, parent, q) {
        assert FullAt(img, parent, q);
      }
    }
    InsertPlaces(written, parentAddr, parent, DirEntry(field, a.num), p);
  }

  /** Every used slot of the blocks behind ptrs is described alike in both images. */
  ghost predicate UsedAlike(img: Image, img': Image, ptrs: Pointers)
  {
    forall q: nat, s: nat :: UsedSlot(img, ptrs, q, s) ==>
      Describe(img', DirBlockAt(img, ptrs[q])[s]) == Describe(img, DirBlockAt(img, ptrs[q])[s])
  }

  /** With no listed entry naming inode k, a change to inode k alone leaves the
      description of every used slot of the directory as it was. */
  lemma UsedSlotsAlike(img: Image, img': Image, n: u32, k: u32)
    requires IsDirMode(InodeAt(img, InodeAddr(n)).mode)
    requires forall e :: e in Listing(img, n).value ==> e.inodeNum != k
    requires forall x :: x != InodeAddr(k) ==> InodeAt(img', x) == InodeAt(img, x)
    ensures UsedAlike(img, img', InodeAt(img, InodeAddr(n)).blocks)
  {
    var ptrs := InodeAt(img, InodeAddr(n)).blocks;
    forall q: nat, s: nat | UsedSlot(img, ptrs, q, s)
      ensures Describe(img', DirBlockAt(img, ptrs[q])[s]) == Describe(img, DirBlockAt(img, ptrs[q])[s])
    {
      var x := DirBlockAt(img, ptrs[q])[s];
      ListingMembers(img, n, Describe(img, x));
      assert Describe(img, x) in Listing(img, n).value;
      DescribeKept(img, img', k, x);
    }
  }

  /** Blocks other than the written one list alike. */
  lemma OtherBlocksKept(img: Image, img': Image, ptrs: Pointers, p: nat)
    requires p < DIRECT_POINTERS
    requires forall q :: 0 <= q < DIRECT_POINTERS && q != p ==> ptrs[q] != ptrs[p]
    requires forall x :: x != ptrs[p] ==> DirBlockAt(img', x) == DirBlockAt(img, x)
    requires UsedAlike(img, img', ptrs)
    ensures forall q :: 0 <= q < DIRECT_POINTERS && q != p ==> BlockListing(img', ptrs, q) == BlockListing(img, ptrs, q)
  {
    forall q | 0 <= q < DIRECT_POINTERS && q != p
      ensures BlockListing(img', ptrs, q) == BlockListing(img, ptrs, q)
    {
      if ptrs[q] != 0 {
        var bq := DirBlockAt(img, ptrs[q]);
        forall s | 0 <= s < ENTRIES_PER_BLOCK && bq[s].inodeNum != 0
          ensures Describe(img', bq[s]) == Describe(img, bq[s])
        {
          assert UsedSlot(img, ptrs, q, s);
        }
        SlotsUpToSame(img, img', bq, ENTRIES_PER_BLOCK);
      }
    }
  }

  /** The written block lists the new entry among the old ones, after the used slots below it. */
  lemma BlockGains(img: Image, img': Image, ptrs: Pointers, p: nat, entry: DirEntry) returns (c: nat)
    requires p < DIRECT_POINTERS && ptrs[p] != 0 && entry.inodeNum != 0
    requires FirstFreeSlot(DirBlockAt(img, ptrs[p])).Some?
    requires DirBlockAt(img', ptrs[p]) == DirBlockAt(img, ptrs[p])[FirstFreeSlot(DirBlockAt(img, ptrs[p])).value := entry]
    requires UsedAlike(img, img', ptrs)
    ensures InsertedAt(BlockListing(img', ptrs, p), BlockListing(img, ptrs, p), c, Describe(img', entry))
  {
    var blk := DirBlockAt(img, ptrs[p]);
    var j := FirstFreeSlot(blk).value;
    forall s | 0 <= s < ENTRIES_PER_BLOCK && blk[s].inodeNum != 0
      ensures Describe(img', blk[s]) == Describe(img, blk[s])
    {
      assert UsedSlot(img, ptrs, p, s);
    }
    SlotsUpToSame(img, img', blk, ENTRIES_PER_BLOCK);
    SlotsUpToSame(img, img', blk, j);
    SlotsUpToInsert(img', blk, j, entry, ENTRIES_PER_BLOCK);
    c := |SlotsUpTo(img, blk, j)|;
  }

  /** A directory's listing is what its 15 pointers contribute, concatenated in order. */
  lemma ListingIsFlat(img: Image, n: u32)
    requires IsDirMode(InodeAt(img, InodeAddr(n)).mode)
    ensures Listing(img, n).Ok?
    ensures Listing(img, n).value == Flat(Blocks(img, InodeAt(img, InodeAddr(n)).blocks))
  {
    var ptrs := InodeAt(img, InodeAddr(n)).blocks;
    PointersUpToFlat(img, ptrs, DIRECT_POINTERS);
    assert Blocks(img, ptrs)[..DIRECT_POINTERS] == Blocks(img, ptrs);
  }

  /** A directory whose pointers are kept lists the insertion its blocks make. */
  lemma ListingFromBlocks(img: Image, img': Image, n: u32, p: nat, c: nat, d: DirListEntry) returns (pos: nat)
    requires IsDirMode(InodeAt(img, InodeAddr(n)).mode)
    requires InodeAt(img', InodeAddr(n)) == InodeAt(img, InodeAddr(n))
    requires p < DIRECT_POINTERS
    requires var ptrs := InodeAt(img, InodeAddr(n)).blocks;
      && (forall q :: 0 <= q < DIRECT_POINTERS && q != p ==> BlockListing(img', ptrs, q) == BlockListing(img, ptrs, q))
      && InsertedAt(BlockListing(img', ptrs, p), BlockListing(img, ptrs, p), c, d)
    ensures Listing(img', n).Ok?
    ensures InsertedAt(Listing(img', n).value, Listing(img, n).value, pos, d)
  {
    var ptrs := InodeAt(img, InodeAddr(n)).blocks;
    FlatInsert(Blocks(img, ptrs), Blocks(img', ptrs), p, c, d);
    ListingIsFlat(img, n);
    ListingIsFlat(img', n);
    pos := |Flat(Blocks(img, ptrs)[..p])| + c;
  }

  /** After create_* places its entry in an existing block of the parent, and provided no
      entry of the parent already names the new inode and no other pointer of the parent
      names that block, listing the parent gives the old listing with exactly the new
      entry inserted, where its slot falls in listing order. */
  lemma CreateInsertsEntry(img: Image, field: NameField, parentNum: u32, mode: bv16, p: nat)
    requires IsDirMode(InodeAt(img, InodeAddr(parentNum)).mode)
    requires AllocInode(img).num != 0 && AllocInode(img).num != parentNum
    requires p < DIRECT_POINTERS
    requires forall q :: 0 <= q < p ==> FullAt(img, InodeAt(img, InodeAddr(parentNum)), q)
    requires InodeAt(img, InodeAddr(parentNum)).blocks[p] != 0
    requires FirstFreeSlot(DirBlockAt(img, InodeAt(img, InodeAddr(parentNum)).blocks[p])).Some?
    requires forall q :: 0 <= q < DIRECT_POINTERS && q != p ==>
      InodeAt(img, InodeAddr(parentNum)).blocks[q] != InodeAt(img, InodeAddr(parentNum)).blocks[p]
    requires forall e :: e in Listing(img, parentNum).value ==> e.inodeNum != AllocInode(img).num
    ensures var r := Create(img, field, parentNum, mode);
      var d := DirListEntry(ListedName(field), IsDirMode(mode), 0, AllocInode(img).num);
      && r.result == Ok(AllocInode(img).num)
      && Listing(r.img, parentNum).Ok?
      && (exists pos :: InsertedAt(Listing(r.img, parentNum).value, Listing(img, parentNum).value, pos, d))
      && multiset(Listing(r.img, parentNum).value) == multiset(Listing(img, parentNum).value) + multiset{d}
  {
    var ptrs := InodeAt(img, InodeAddr(parentNum)).blocks;
    var k := AllocInode(img).num;
    CreatePlaced(img, field, parentNum, mode, p);
    var r := Create(img, field, parentNum, mode).img;
    UsedSlotsAlike(img, r, parentNum, k);
    OtherBlocksKept(img, r, ptrs, p);
    var c := BlockGains(img, r, ptrs, p, DirEntry(field, k));
    var d := Describe(r, DirEntry(field, k));
    var pos := ListingFromBlocks(img, r, parentNum, p, c, d);
    InsertedMultiset(Listing(r, parentNum).value, Listing(img, parentNum).value, pos, d);
  }
}
