/** The block device the filesystem runs on, as keyed stores. The simulator itself is
    not part of this model: each kind of record the filesystem reads or writes is kept
    in its own store, keyed by the address expression the filesystem uses for it. */
module Device {
  import opened FsTypes
  import opened Layout

  /** A snapshot of everything on the device that the filesystem can observe. */
  datatype Image = Image(
    header: Header,                     // address 0
    superblock: Superblock,             // address 1
    regions: map<nat, seq<bv8>>,        // raw byte writes: bitmaps and file content
    inodes: map<nat, Inode>,            // inode records, at 1 + inode number
    dirBlocks: map<nat, DirBlock>)      // data blocks read as directory-entry tables

  function Zeros(n: nat): (z: seq<bv8>)
    ensures |z| == n && forall i :: 0 <= i < n ==> z[i] == 0
  {
    seq(n, _ => 0)
  }

  /** The bytes stored from `addr` on (empty if nothing was ever written there). */
  function RegionAt(img: Image, addr: nat): seq<bv8>
  {
    if addr in img.regions then img.regions[addr] else []
  }

  /** Reading n bytes at `addr`: what is stored there, cut or zero-padded to n. */
  function BytesAt(img: Image, addr: nat, n: nat): (r: seq<bv8>)
    ensures |r| == n
    ensures forall i :: 0 <= i < n && i < |RegionAt(img, addr)| ==> r[i] == RegionAt(img, addr)[i]
    ensures forall i :: |RegionAt(img, addr)| <= i < n ==> r[i] == 0
  {
    var s := RegionAt(img, addr);
    if |s| >= n then s[..n] else s + Zeros(n - |s|)
  }

  /** The bytes of s past the first k (none if s is no longer than k). */
  function Rest(s: seq<bv8>, k: nat): (r: seq<bv8>)
    ensures |r| == if |s| > k then |s| - k else 0
  {
    if |s| > k then s[k..] else []
  }

  /** s begins with p. */
  predicate StartsWith(s: seq<bv8>, p: seq<bv8>)
  {
    |p| <= |s| && s[..|p|] == p
  }

  /** Writing `data` at `addr` replaces its first |data| bytes and keeps the rest. */
  function WithBytes(img: Image, addr: nat, data: seq<bv8>): (r: Image)
    ensures r.header == img.header && r.superblock == img.superblock
    ensures r.inodes == img.inodes && r.dirBlocks == img.dirBlocks
    ensures RegionAt(r, addr) == data + Rest(RegionAt(img, addr), |data|)
    ensures forall a :: a != addr ==> RegionAt(r, a) == RegionAt(img, a)
  {
    img.(regions := img.regions[addr := data + Rest(RegionAt(img, addr), |data|)])
  }

  /** A read of the bytes just written returns them; later bytes are the old ones. */
  lemma ReadAfterWrite(img: Image, addr: nat, data: seq<bv8>, n: nat)
    ensures var r := BytesAt(WithBytes(img, addr, data), addr, n);
      (forall i :: 0 <= i < n && i < |data| ==> r[i] == data[i])
      && (forall i :: |data| <= i < n ==> r[i] == BytesAt(img, addr, n)[i])
  {
  }

  function InodeAt(img: Image, addr: nat): Inode
  {
    if addr in img.inodes then img.inodes[addr] else ZeroInode()
  }

  function WithInode(img: Image, addr: nat, ino: Inode): (r: Image)
    ensures InodeAt(r, addr) == ino
    ensures forall a :: a != addr ==> InodeAt(r, a) == InodeAt(img, a)
    ensures r.header == img.header && r.superblock == img.superblock
    ensures r.regions == img.regions && r.dirBlocks == img.dirBlocks
  {
    img.(inodes := img.inodes[addr := ino])
  }

  function DirBlockAt(img: Image, addr: nat): DirBlock
  {
    if addr in img.dirBlocks then img.dirBlocks[addr] else EmptyDirBlock()
  }

  function WithDirBlock(img: Image, addr: nat, blk: DirBlock): (r: Image)
    ensures DirBlockAt(r, addr) == blk
    ensures forall a :: a != addr ==> DirBlockAt(r, a) == DirBlockAt(img, a)
    ensures r.header == img.header && r.superblock == img.superblock
    ensures r.regions == img.regions && r.inodes == img.inodes
  {
    img.(dirBlocks := img.dirBlocks[addr := blk])
  }

  /** The block device: a fixed size and the stores the filesystem reads and writes. */
  class BlockDevice {
    const deviceSize: DeviceSize
    var header: Header
    var superblock: Superblock
    var regions: map<nat, seq<bv8>>
    var inodes: map<nat, Inode>
    var dirBlocks: map<nat, DirBlock>

    /** A device of `size` blocks holding whatever `img` says. */
    constructor (size: DeviceSize, img: Image)
      ensures deviceSize == size && View() == img
    {
      deviceSize := size;
      header, superblock := img.header, img.superblock;
      regions, inodes, dirBlocks := img.regions, img.inodes, img.dirBlocks;
    }

    function View(): Image
      reads this
    {
      Image(header, superblock, regions, inodes, dirBlocks)
    }

    method ReadHeader() returns (h: Header)
      ensures h == View().header
    {
      h := header;
    }

    method WriteHeader(h: Header)
      modifies this
      ensures View() == old(View()).(header := h)
    {
      header := h;
    }

    method ReadSuperblock() returns (sb: Superblock)
      ensures sb == View().superblock
    {
      sb := superblock;
    }

    method WriteSuperblock(sb: Superblock)
      modifies this
      ensures View() == old(View()).(superblock := sb)
    {
      superblock := sb;
    }

    method Read(addr: nat, n: nat) returns (data: seq<bv8>)
      ensures data == BytesAt(View(), addr, n)
    {
      data := BytesAt(View(), addr, n);
    }

    method Write(addr: nat, data: seq<bv8>)
      modifies this
      ensures View() == WithBytes(old(View()), addr, data)
    {
      var s := if addr in regions then regions[addr] else [];
      regions := regions[addr := data + Rest(s, |data|)];
    }

    method ReadInode(addr: nat) returns (ino: Inode)
      ensures ino == InodeAt(View(), addr)
    {
      ino := if addr in inodes then inodes[addr] else ZeroInode();
    }

    method WriteInode(addr: nat, ino: Inode)
      modifies this
      ensures View() == WithInode(old(View()), addr, ino)
    {
      inodes := inodes[addr := ino];
    }

    method ReadDirBlock(addr: nat) returns (blk: DirBlock)
      ensures blk == DirBlockAt(View(), addr)
    {
      blk := if addr in dirBlocks then dirBlocks[addr] else EmptyDirBlock();
    }

    method WriteDirBlock(addr: nat, blk: DirBlock)
      modifies this
      ensures View() == WithDirBlock(old(View()), addr, blk)
    {
      dirBlocks := dirBlocks[addr := blk];
    }
  }
}
