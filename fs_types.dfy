/** On-disk constants and records of the filesystem (myfs.h), as values. */
module FsTypes {

  /** Format version written by format and demanded on open. */
  const CURR_VERSION: nat := 1
  /** Size of one device block in bytes. */
  const BLOCK_SIZE: nat := 1024
  /** Capacity of the inode table (fixed, not derived from the device size). */
  const INODE_TABLE_SIZE: nat := 1024
  /** Direct block pointers held by every inode. */
  const DIRECT_POINTERS: nat := 15
  /** Direct pointers the content engine may use; directories may use all 15. */
  const CONTENT_POINTERS: nat := 12
  /** Bytes in a directory entry's name field ("10 characters + 1 null terminator"). */
  const NAME_FIELD: nat := 11
  /** Characters kept of a regular file's name before it is copied into the field. */
  const FILE_NAME_MAX: nat := 10
  /** Directory entries per block: BLOCK_SIZE / sizeof(myfs_dir_entry), with the
      usual padding of the 11-byte name to 12 so that an entry is 16 bytes. */
  const ENTRIES_PER_BLOCK: nat := 64
  const TWO_POW_32: nat := 0x1_0000_0000
  /** The root directory's inode number, where every path walk starts. */
  const ROOT: u32 := 0

  /** The magic at the start of the header: exactly 4 bytes, no terminator. */
  const MAGIC: seq<char> := "MYFS"

  type u16 = x: nat | x < 0x1_0000
  type u32 = x: nat | x < 0x1_0000_0000

  type Magic = s: seq<char> | |s| == 4 witness "MYFS"
  /** The fixed-length name field of a directory entry, NUL padded. */
  type NameField = s: seq<char> | |s| == NAME_FIELD witness "\0\0\0\0\0\0\0\0\0\0\0"
  /** The 15 direct block pointers of an inode; 0 means "unused". */
  type Pointers = s: seq<u32> | |s| == DIRECT_POINTERS witness [0, 0, 0, 0, 0, 0, 0, 0, 0, 0, 0, 0, 0, 0, 0]

  /** myfs_header */
  datatype Header = Header(magic: Magic, version: u32)

  /** myfs_superblock: six unsigned 32-bit fields in this order. */
  datatype Superblock = Superblock(
    blockSize: u32,
    inodeTableSize: u32,
    inodeBitmapSize: u32,
    dataBitmapSize: u32,
    dataBlocks: u32,
    dataStartBlock: u32)

  /** myfs_inode: a 16-bit mode whose bits 12..15 are the type tag. */
  datatype Inode = Inode(mode: bv16, uid: u16, gid: u16, size: u32, blocks: Pointers)

  /** myfs_dir_entry: inode number 0 marks a free slot. */
  datatype DirEntry = DirEntry(name: NameField, inodeNum: u32)

  type DirBlock = s: seq<DirEntry> | |s| == ENTRIES_PER_BLOCK
    witness seq(ENTRIES_PER_BLOCK, _ => DirEntry("\0\0\0\0\0\0\0\0\0\0\0", 0))

  /** dir_list_entry, plus the child's inode number that the path walks use. */
  datatype DirListEntry = DirListEntry(name: string, isDir: bool, fileSize: u32, inodeNum: u32)

  /** The failures the operations raise, one per distinct message. */
  datatype Error =
    | InvalidPath            // "Invalid path"
    | FileNotFound           // "File not found"
    | DirectoryNotFound      // "Directory not found"
    | NotADirectory          // "Not a directory"
    | ParentNotADirectory    // "Parent is not a directory"
    | NotARegularFile        // "Not a regular file"
    | NoFreeInode            // "No free inode available"
    | NoFreeBlock            // "No free block available"
    | NoSpaceInParent        // "No space in parent directory for new directory entry"
    | FileTooLarge           // "File too large"
    | NotImplemented         // "not implemented"

  datatype Result<T> = Ok(value: T) | Err(error: Error)

  datatype Option<T> = None | Some(value: T)

  const DIR_TAG: bv16 := 0x4000
  const FILE_TAG: bv16 := 0x8000
  const TYPE_MASK: bv16 := 0xF000

  predicate IsDirMode(mode: bv16) { mode & TYPE_MASK == DIR_TAG }
  predicate IsFileMode(mode: bv16) { mode & TYPE_MASK == FILE_TAG }

  /** The mode tags written for new directories and files are recognised by the mask tests,
      and no mode is both. */
  lemma ModeTags(mode: bv16)
    ensures IsDirMode(DIR_TAG) && IsFileMode(FILE_TAG)
    ensures !(IsDirMode(mode) && IsFileMode(mode))
    ensures !IsDirMode(0) && !IsFileMode(0)
  {
  }

  function ZeroPointers(): (p: Pointers)
    ensures forall i :: 0 <= i < DIRECT_POINTERS ==> p[i] == 0
  {
    seq(DIRECT_POINTERS, _ => 0)
  }

  /** The record create_directory / create_regular_file write for a new inode. */
  function FreshInode(mode: bv16): Inode
  {
    Inode(mode, 0, 0, 0, ZeroPointers())
  }

  /** What an inode address that was never written reads as. */
  function ZeroInode(): Inode
  {
    FreshInode(0)
  }

  function EmptyName(): NameField
  {
    "\0\0\0\0\0\0\0\0\0\0\0"
  }

  /** What a directory block that was never written reads as: every slot free. */
  function EmptyDirBlock(): (b: DirBlock)
    ensures forall j :: 0 <= j < ENTRIES_PER_BLOCK ==> b[j].inodeNum == 0
  {
    seq(ENTRIES_PER_BLOCK, _ => DirEntry(EmptyName(), 0))
  }

  /** Unsigned 32-bit truncation of a non-negative result. */
  function Wrap32(x: nat): (r: u32)
    ensures x < TWO_POW_32 ==> r == x
  {
    x % TWO_POW_32
  }

  /** Address of inode n: the source reads it at 1 + n, a 32-bit sum. */
  function InodeAddr(n: u32): (a: u32)
    ensures a == Wrap32(1 + n)
  {
    if n == TWO_POW_32 - 1 then 0 else n + 1
  }

  lemma InodeAddrInjective(n: u32, m: u32)
    ensures InodeAddr(n) == InodeAddr(m) <==> n == m
  {
  }
}
