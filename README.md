# MyFs in Dafny

MyFs is a small inode filesystem that lives on a simulated block device of
1024-byte blocks. Its layout:

- block 0 holds a header: the magic `"MYFS"` and a version.
- block 1 holds the superblock. `format` sets inode_bitmap_size to 1 and
  data_start_block to 2.
- `format` writes its 1024 inode-table records at `data_start_block + i`, that
  is at addresses 2 to 1025. It writes its zeroed bitmap, data_bitmap_size
  blocks long, at `1 + inode_bitmap_size`, which is address 2 again.
- `find_free_inode` reads the inode bitmap at address 2. `find_free_block`
  reads the data bitmap at `2 + inode_bitmap_size`, which is address 3.
- every other operation reads and writes inode `n` at address `1 + n`. Inode 0,
  the root, therefore shares address 1 with the superblock, and the record
  `format` writes at address `2 + i` is the one read back as inode `i + 1`.

Each inode has a mode, a uid, a gid, a size and 15 direct block pointers.
`0x4000` in the top nibble of the mode marks a directory and `0x8000` a
regular file. A directory's blocks hold 64 entries of an 11-byte name and an
inode number; inode number 0 marks a free slot. A regular file's content is
read through its first 12 pointers.

This project models the `MyFs` class of `myfs.cpp` / `myfs.h` and proves
properties of the model. It models the constructor and its reformat test,
`format`, and the two bitmap allocators `find_free_inode` and
`find_free_block`. It models `list_dir_inode` and the directory-entry
insertion shared by `create_directory` and `create_regular_file`. It models
the path tokenizer and the path walk, and `get_content` and `set_content`.

The model has two layers:

- **Specification functions** on a value `Device.Image`: a snapshot of the
  device kept as separate keyed stores for the header, the superblock, byte
  regions, inode records and directory blocks. Examples are
  `Alloc.AllocInode`, `Directory.Listing`, `Directory.Create`,
  `Content.GetContent`, `Content.SetContent` and `Format.FormatImage`. Each
  returns the answer (a `Result`, whose `Err` variants are the source's
  exceptions) together with the image after the call.
- **The imperative class** `FileSystem.MyFs`. Its methods read and write a
  `Device.BlockDevice` object step by step, with the same loops, breaks and
  early returns as the source. Each method is proved to return exactly what
  the specification function returns and to leave exactly the image it
  describes.

The lemmas state what the source promises about those functions: allocation
order, listing contents, where a new entry lands, the failure paths, the
layout `format` leaves behind, and the `set_content` / `get_content` round
trip.

Modules, in dependency order:

- `FsTypes` (`fs_types.dfy`): constants, on-disk records, errors, 32-bit wrap-around.
- `Layout` (`layout.dfy`): the superblock arithmetic of `format`, and the constructor's reformat test.
- `Bitmap` (`bitmap.dfy`): bit numbering, the first-clear-bit search, and the scan loop.
- `Device` (`device.dfy`): the device image, and the `BlockDevice` class with its read and write operations.
- `Alloc` (`alloc.dfy`): `find_free_inode` and `find_free_block`.
- `Directory` (`directory.dfy`): name copying, `list_dir_inode`, and entry insertion for `create_*`.
- `Paths` (`paths.dfy`): the `getline(…, '/')` tokenizer.
- `Content` (`content.dfy`): the path walk, `get_content` and `set_content`.
- `Format` (`format.dfy`): `format()` as a function of the image.
- `FileSystem` (`myfs.dfy`): the `MyFs` class.

## Model

| member | source | states |
|---|---|---|
| FsTypes.ModeTags | myfs.cpp:119 | 0x4000 passes the directory test and 0x8000 the regular-file test; no mode passes both; mode 0 passes neither |
| FsTypes.InodeAddrInjective | myfs.cpp:117 | the address `1 + n` of inode n, taken in 32 bits, is the same for two inode numbers only when the numbers are equal |
| Layout.CeilDiv | myfs.cpp:34 | the quotient is the least q with q * b >= a, the ceiling the source takes |
| Layout.FinalSuperblock | myfs.cpp:30-57 | the final superblock has block size 1024 and 1024 inodes; data_blocks + data_bitmap_size + data_start_block equals the device size, and the data bitmap has a bit for every data block |
| Layout.FinalSuperblockValues | myfs.cpp:30-57 | the final superblock has block size 1024, 1024 inodes, inode_bitmap_size 1 and data_start_block 2. Its data_bitmap_size is the least count of 8192-bit blocks covering size - 2 blocks, and data_blocks + data_bitmap_size + data_start_block equals the device size |
| Layout.StartBlockIgnoresDataBitmap | myfs.cpp:37-54 | data_start_block = 1 + inode_bitmap_size + data_bitmap_size holds of the written superblock if and only if the device has 2 blocks, because data_start_block is computed before data_bitmap_size |
| Layout.FormattedHeader | myfs.cpp:24-28 | the header format writes carries "MYFS" and version 1, so it passes the constructor's test |
| Layout.StrNEqNulFree | myfs.cpp:14 | against a string with no NUL in its first n characters, strncmp over n characters reports a match if and only if those n characters are equal |
| Layout.NeedsFormat | myfs.cpp:14-15 | the constructor reformats if and only if the header's magic differs from "MYFS" or its version differs from the current one |
| Bitmap.SetBit | myfs.cpp:220 | setting a bit keeps the bitmap's length (which bits change: Bitmap.SetBitEffect) |
| Bitmap.SetBitEffect | myfs.cpp:220 | after or-ing `1 << k % 8` into byte `k / 8`, bit k is set and every other bit is unchanged |
| Bitmap.FirstClearInByte | myfs.cpp:218-224 | the answer is the lowest clear bit at or above j, with every bit between j and it set; None only when every bit from j up is set |
| Bitmap.ByteBits | myfs.cpp:216-219 | bit j of byte i is bitmap bit 8 * i + j (the `i * 8 + j` numbering) |
| Bitmap.FirstClearFrom | myfs.cpp:216-226 | scanning bytes from i in order finds the lowest clear bit at index 8 * i or higher; None only when all those bits are set |
| Bitmap.FirstClear | myfs.cpp:216-228 | there is an answer if and only if some bit is clear, and it is the lowest clear bit |
| Bitmap.FirstClearAdvances | myfs.cpp:216-226 | after the first clear bit is set, the next search finds a later bit or none, so successive searches move strictly forward |
| Bitmap.AllOnes | myfs.cpp:217 | the byte 0xFF has no clear bit, so skipping it changes nothing |
| Bitmap.ScanByte | myfs.cpp:218-224 | the bit loop returns the lowest clear bit of the byte, or nothing |
| Bitmap.FirstClearBit | myfs.cpp:216-228 | the byte loop, with its 0xFF skip, returns the lowest clear bit of the whole bitmap, or nothing when every bit is set |
| Device.WithBytes | myfs.cpp:443 | a write of n bytes replaces the first n bytes at that address, keeps the bytes past them, and changes no other address or record |
| Device.ReadAfterWrite | myfs.cpp:221 | reading back n bytes after a write gives the written bytes, then the older bytes, then zeros |
| Alloc.BitmapBytes | myfs.cpp:212-214 | the number of bitmap bytes read is `blocks * 1024 / 1024 * 1024` in 32 bits; it equals blocks * 1024 when that fits in 32 bits |
| Alloc.InodeBitmap | myfs.cpp:212-214 | the inode bitmap is the bytes read at address 2, and its length is BitmapBytes(inode_bitmap_size) |
| Alloc.DataBitmap | myfs.cpp:235-237 | the data bitmap is the bytes read at 2 + inode_bitmap_size, and its length is BitmapBytes(data_bitmap_size) |
| Alloc.AllocInode | myfs.cpp:208-229 | find_free_inode changes only the byte regions: header, superblock, inode records and directory blocks are unchanged |
| Alloc.AllocBlock | myfs.cpp:231-252 | find_free_block changes only the byte regions: header, superblock, inode records and directory blocks are unchanged |
| Alloc.AllocInodeSetsFirstClear | myfs.cpp:216-222 | when a bit is clear: the answer is the index of the first clear bit (taken in 32 bits); the bitmap written back has that bit set and every other bit as before |
| Alloc.AllocBlockSetsFirstClear | myfs.cpp:239-245 | when a bit is clear: the answer is the first clear bit's index plus 1 + inode_bitmap_size, which is non-zero; that bit alone becomes set in the data bitmap |
| Alloc.AllocFullBitmap | myfs.cpp:226-228 | on a fully set bitmap both allocators answer 0 and write nothing |
| Alloc.AllocInodeZeroAlias | myfs.cpp:216-222 | when bit 0 is clear, find_free_inode sets it but still answers 0, the value callers read as "no free inode" |
| Alloc.ClaimAdvances | myfs.cpp:216-228 | an allocation that finds a clear bit answers the first clear bit plus the offset and moves the first clear bit strictly forward; one that finds none answers 0 and leaves the bitmap as it was |
| Alloc.ClaimsIncreasing | myfs.cpp:216-228 | in allocations in a row with no frees, every non-zero answer lies between the first clear bit and the bitmap's end, plus the offset, and the non-zero answers strictly increase |
| Alloc.AllocInodeClaims | myfs.cpp:208-229 | find_free_inode is one such allocation on the inode bitmap with offset 0: same answer, same bitmap afterwards |
| Alloc.AllocBlockClaims | myfs.cpp:231-252 | find_free_block is one such allocation on the data bitmap with offset 1 + inode_bitmap_size, and keeps the superblock |
| Alloc.AllocInodesClaims | myfs.cpp:208-229 | n find_free_inode calls in a row answer what n allocations on the inode bitmap answer |
| Alloc.AllocInodesDistinct | myfs.cpp:208-229 | allocations in a row with no frees never return the same non-zero inode number twice |
| Alloc.AllocBlocksClaims | myfs.cpp:231-252 | n find_free_block calls in a row answer what n allocations on the data bitmap answer |
| Alloc.AllocBlocksDistinct | myfs.cpp:231-252 | find_free_block calls in a row with no frees never return the same non-zero block twice, and each non-zero answer is above inode_bitmap_size, as long as no answer wraps around 32 bits |
| Directory.NulIndex | myfs.cpp:141 | strnlen: the index of the first NUL, or the length when there is none |
| Directory.CopyNameRoundTrip | myfs.cpp:177 | listing a name copied by strncpy into the 11-byte field gives back the c_str() characters, cut to 11 |
| Directory.NameKept | myfs.cpp:280 | a NUL-free name of up to 11 characters is listed exactly as create_directory got it; create_regular_file's entry lists the first 10 characters of the name |
| Directory.Describe | myfs.cpp:137-144 | the reported entry carries the slot's inode number and the slot's name up to its first NUL |
| Directory.SlotsUpToMembers | myfs.cpp:131-145 | an entry is reported for the first j slots of a block if and only if it describes a used slot below j |
| Directory.SlotsUpToLength | myfs.cpp:131-145 | the slot loop reports exactly one entry per used slot |
| Directory.BlockMembers | myfs.cpp:123-145 | an entry is reported for pointer p if and only if p is non-zero and the entry describes a used slot of its block |
| Directory.PointersUpToSource | myfs.cpp:123-146 | an entry reported for the first i pointers comes from the block of one of them |
| Directory.PointersUpToIncludes | myfs.cpp:123-146 | an entry reported for pointer p is reported for every run of the pointer loop that reaches p |
| Directory.PointersUpToMembers | myfs.cpp:123-146 | an entry is reported for the first i pointers if and only if it is reported for one of them |
| Directory.Listing | myfs.cpp:114-149 | list_dir_inode fails, with "Not a directory", if and only if the inode is not a directory; a listing holds at most 64 entries for each of the 15 pointers |
| Directory.ListingMembers | myfs.cpp:114-149 | list_dir_inode fails, with "Not a directory", if and only if the inode's mode is not a directory. On a directory, an entry is listed if and only if it describes a used slot behind a non-zero pointer, with the type and size of the child inode |
| Directory.FreeSlotFrom | myfs.cpp:195-202 | the answer is the first slot at or after `from` whose inode number is 0; None only when every such slot is used |
| Directory.InsertEntry | myfs.cpp:180-205 | the pointer loop answers the new entry's inode number when it succeeds, fails only with "No space in parent directory" or "No free block available", and never changes the header or the superblock |
| Directory.PlaceEntry | myfs.cpp:192-203 | the slot scan of one block, with the rest of the loop after it, has the same answers, the same failures and the same frame as the pointer loop |
| Directory.Create | myfs.cpp:151-206 | a successful create_* answers the non-zero number find_free_inode returned. It fails only with "Parent is not a directory", "No free inode available", "No space in parent directory" or "No free block available", and never changes the header or the superblock |
| Directory.InsertSkipsFull | myfs.cpp:180-203 | in-use pointers whose blocks are full are passed over without writing anything |
| Directory.InsertNoSpace | myfs.cpp:180-205 | when all 15 pointers are in use and full, insertion fails with "No space in parent directory" and writes nothing |
| Directory.InsertPlaces | myfs.cpp:192-201 | the entry goes into the first free slot of the first in-use pointer with a free slot; only that slot of that block changes, and inodes and regions are untouched |
| Directory.InsertGrows | myfs.cpp:181-190 | at the first zero pointer, find_free_block fills it and the parent inode is rewritten before the slot scan; an answer of 0 aborts with "No free block available" |
| Directory.GrowStep | myfs.cpp:181-190 | filling a zero pointer rewrites only the parent inode, keeping its mode, its in-use pointers and every other inode |
| Directory.PlaceEntryStored | myfs.cpp:195-201 | placing the entry in a block with a free slot succeeds and stores the entry in a used slot of the parent's pointers |
| Directory.InsertEntryStored | myfs.cpp:180-203 | after a successful insertion the entry is in a used slot behind one of the pointers the parent inode records on the device. Every run keeps the parent's mode and in-use pointers, and every other inode |
| Directory.PlaceOrPass | myfs.cpp:192-203 | the slot scan of one pointer, and the rest of the loop after it, keep the parent and store the entry on success |
| Directory.CreateFailures | myfs.cpp:152-163 | a parent that is not a directory gives "Parent is not a directory" and no write; a full inode bitmap gives "No free inode available" and no write |
| Directory.CreateNoSpace | myfs.cpp:159-205 | with every slot of all 15 parent blocks taken, create_* fails with "No space in parent directory" after allocating and writing the new inode, so that inode is left with no entry |
| Directory.CreateThenList | myfs.cpp:151-206 | after a successful create_*, the answer is the inode find_free_inode gave and that inode holds the fresh record. Listing the parent shows the new entry: its copied name, the new inode's type, size 0 and its number |
| Directory.SlotsUpToSame | myfs.cpp:131-145 | two devices that describe every used slot of a block alike report that block alike |
| Directory.SlotsUpToBelow | myfs.cpp:131-145 | writing slot t of a block leaves what the slots below t report unchanged |
| Directory.SlotsUpToInsert | myfs.cpp:131-145 | filling the free slot t with a used entry inserts exactly its description into the block's report, after the entries of the used slots below t |
| Directory.PointersUpToFlat | myfs.cpp:123-146 | listing the first i pointers concatenates, in pointer order, what each of them reports |
| Directory.FlatInsert | myfs.cpp:123-146 | when one block's report gains an entry and the other blocks report the same, the whole listing gains exactly that entry, after everything reported before it |
| Directory.DescribeKept | myfs.cpp:137-144 | describing an entry reads only the inode it names |
| Directory.CreatePlaced | myfs.cpp:159-201 | when create_* places its entry in an in-use block of the parent, it answers the new inode. The parent inode is kept, the new inode holds the fresh record, no other inode changes, and only the first free slot of that block is written |
| Directory.UsedSlotsAlike | myfs.cpp:137-144 | when no listed entry names inode k, a change to inode k alone leaves every used slot of the directory described as before |
| Directory.OtherBlocksKept | myfs.cpp:123-145 | blocks other than the one create_* writes report the same entries as before |
| Directory.BlockGains | myfs.cpp:192-201 | the block create_* writes reports the new entry inserted among its old entries, after those of the used slots below the first free slot |
| Directory.ListingIsFlat | myfs.cpp:114-149 | a directory's listing is the concatenation of what its 15 pointers report |
| Directory.ListingFromBlocks | myfs.cpp:114-149 | when the pointers are kept, one block gains an entry and the others report the same, the directory's listing gains exactly that entry |
| Directory.CreateInsertsEntry | myfs.cpp:151-206 | create_* places its entry in an in-use block of the parent; no other pointer names that block, and no listed entry already names the new inode. Then listing the parent gives the old listing with exactly the new entry inserted, so as a multiset the listing is the old one plus the new entry |
| Paths.NoSegments | myfs.cpp:321-324 | a path yields no token if and only if it is made only of '/' characters |
| Paths.Scan | myfs.cpp:321-324 | every token the scan emits is non-empty; none holds a '/' when the pending token holds none |
| Paths.Segments | myfs.cpp:317-325 | every segment of a path is non-empty and holds no '/'; there is no segment if and only if the path is made only of '/' characters |
| Paths.JoinRoundTripFrom | myfs.cpp:317-325 | scanning the '/'-joined segments after a pending word gives that word and then the segments |
| Paths.JoinRoundTrip | myfs.cpp:317-325 | tokenizing "/" + s1 + "/" + … gives back s1, …, sn whenever each segment is non-empty and holds no '/' |
| Paths.Tokenize | myfs.cpp:317-325 | the getline loop returns the path's segments, each non-empty and holding no '/' |
| Content.MatchFrom | myfs.cpp:332-338 | the answer is the first entry at or after `from` with this name and the wanted type; None only when no such entry exists |
| Content.Walk | myfs.cpp:327-344 | the walk fails only with "Not a directory", from list_dir_inode, or with the caller's not-found error |
| Content.LeadingBlocks | myfs.cpp:355 | the read loop's count: pointers below it are non-zero, and it stops at 12 or at the first zero pointer |
| Content.LeadingFrom | myfs.cpp:355 | counting from i: every pointer below the count is non-zero, and the pointer at the count is zero unless the count is 12 |
| Content.Gather | myfs.cpp:354-359 | n whole blocks are read: the content is n * 1024 bytes long |
| Content.GatherAt | myfs.cpp:354-359 | byte idx of the gathered content is byte idx % 1024 of the block at pointer idx / 1024 |
| Content.GetContent | myfs.cpp:311-362 | the content is a whole number of blocks, at most 12. The only failures are "Invalid path", "Not a directory", "File not found" and "Not a regular file" |
| Content.GetContentReads | myfs.cpp:311-362 | a successful get_content had an absolute path that walks to a regular file. Its answer is the file's leading in-use blocks among the first 12, whole, in pointer order |
| Content.ListedType | myfs.cpp:142 | a listed entry's type is the type of the inode it names |
| Content.GetContentDeepFails | myfs.cpp:329-344 | every segment is matched against non-directory entries, so get_content fails on any path of two or more segments |
| Content.Chunk | myfs.cpp:442-443 | chunk i holds between 1 and 1024 bytes |
| Content.ResolveForWrite | myfs.cpp:380-411 | a resolved file has a non-zero inode number; the only failures are "Not a directory", "Directory not found" and "File not found" |
| Content.AllocPointers | myfs.cpp:424-437 | the allocation loop changes only byte regions: header, superblock, inodes and directory blocks are kept. It fails only with "File too large" or "No free block available" |
| Content.AllocPointersBound | myfs.cpp:424-437 | a successful allocation loop needed at most 12 blocks. Every needed pointer is non-zero, pointers already in use are kept, and later pointers are unchanged; more than 12 needed blocks always fails |
| Content.AllocPointersFrame | myfs.cpp:424-437 | the allocation loop writes no byte region other than the data bitmap |
| Content.AllocPointersInUse | myfs.cpp:424-437 | with all first 12 pointers in use, the allocation loop allocates nothing: it succeeds with the same pointers, or fails with "File too large" when more than 12 blocks are needed |
| Content.AllocPointersKeepsBelow | myfs.cpp:424-437 | the allocation loop from index i never changes a pointer below i |
| Content.AllocPointersFresh | myfs.cpp:424-437 | when the pointers from i up to the needed count are all 0, a successful loop fills them, in order, with the answers of that many find_free_block calls in a row |
| Content.SetContent | myfs.cpp:364-451 | set_content never changes the header, the superblock or a directory block; on success the content is at most 12 blocks; it fails only with "Invalid path", "Not a directory", "Directory not found", "File not found", "Not a regular file", "File too large" or "No free block available" |
| Content.SetContentFreshDistinct | myfs.cpp:424-437 | a file whose needed pointers are all 0 gets pairwise distinct blocks from set_content, as long as no block number wraps around 32 bits |
| Content.SetContentFailsClean | myfs.cpp:364-437 | a failed set_content changes at most the data bitmap: no content block and no inode is written |
| Content.SetContentTooLarge | myfs.cpp:433-437 | content over 12 blocks is refused with "File too large", or with "No free block available" if the bitmap runs out first, before any content or inode write. With all 12 pointers in use, nothing at all is written |
| Content.SetContentInode | myfs.cpp:444-450 | after a successful set_content the path resolved to a regular file and the content is at most 12 blocks. The file's inode keeps mode, uid and gid; its size is the content length; its needed pointers are non-zero, with old in-use and later pointers kept. No other inode and no directory block changes |
| Content.WriteChunks | myfs.cpp:439-443 | the chunk loop changes only byte regions: header, superblock, inodes and directory blocks are kept |
| Content.WriteChunksUntouched | myfs.cpp:439-443 | a region no needed pointer names is not written |
| Content.WriteChunksOne | myfs.cpp:439-443 | with distinct pointers, block i holds chunk i in front of the bytes that lay past it |
| Content.WriteChunksLayout | myfs.cpp:439-443 | with distinct pointers, every block i holds chunk i over its old tail, and every other region is unchanged |
| Content.WriteChunksStarts | myfs.cpp:439-443 | with distinct pointers, every written block begins with its chunk |
| Content.SetContentKeepsShape | myfs.cpp:364-451 | set_content keeps everything a path walk reads: directory blocks, every mode, and every directory's pointers |
| Content.WalkKept | myfs.cpp:327-344 | a path walk gives the same answer on two images that agree on what it reads |
| Content.SetThenWalk | myfs.cpp:327-344 | after a successful set_content on a one-segment path, get_content's walk reaches the inode set_content wrote |
| Content.SetContentLayout | myfs.cpp:439-443 | after a successful set_content with distinct needed pointers, block i of the file begins with chunk i of the content |
| Content.SetContentImage | myfs.cpp:424-450 | after a successful set_content, the file's pointers are the ones the allocation loop chose, and the byte regions are the ones the chunk loop wrote |
| Content.ReadBack | myfs.cpp:354-359 | gathering blocks that begin with the chunks of a content gives that content back as a prefix |
| Content.SetThenGet | myfs.cpp:311-451 | round trip: after a successful set_content(p, B) on a one-segment path whose needed pointers are distinct, get_content(p) succeeds and begins with B |
| Content.SetThenGetFresh | myfs.cpp:311-451 | round trip for a file whose needed pointers are all 0, as for a freshly created file: after a successful set_content(p, B) on a one-segment path, get_content(p) succeeds and begins with B |
| Format.FillInodes | myfs.cpp:43-50 | the inode-table loop leaves the header, superblock, byte regions and directory blocks unchanged |
| Format.FillInodesTable | myfs.cpp:43-50 | the inode-table loop writes the record at every address of its range and changes no other inode record |
| Format.FillInodesEffect | myfs.cpp:43-50 | after the loop, the inode at each address is the written record inside the range and the old one outside it |
| Format.FormatImage | myfs.cpp:23-66 | format leaves the magic "MYFS", the current version and the final superblock, and changes no directory block |
| Format.FormatResults | myfs.cpp:23-66 | format leaves the magic and version 1, and the final superblock with inode_bitmap_size 1 and data_start_block 2. It writes the record at inode addresses 2 .. 1025 and data_bitmap_size * 1024 zero bytes at address 2; no other region, inode or directory block changes |
| Format.FormatPassesOpenTest | myfs.cpp:10-21 | a formatted device passes the constructor's test, so opening it again does not reformat |
| Format.FormatIdempotent | myfs.cpp:23-66 | formatting twice leaves the same device as formatting once |
| Format.FormatLeavesRootUnset | myfs.cpp:42-50 | the inode-table loop of format never writes inode 0's address (1); because the model keeps the superblock and inode records as separate stores, inode 0 keeps its old record. On a device that held no inode record there, listing the root fails with "Not a directory" |
| Format.FormatZeroesInodeBitmap | myfs.cpp:59-65 | the zeroed region lands where find_free_inode reads (address 2): on a device of at least 3 blocks every inode bit reads clear. The first inode allocation then answers 0, so create_* in the root fails ("No free inode available", or "Parent is not a directory" when the root's record is not a directory) |
| FileSystem.FindInListing | myfs.cpp:332-338 | the range-for with break returns the inode number of the first entry with this name and type |
| FileSystem.MyFs.constructor | myfs.cpp:10-21 | the device is formatted if and only if the header lacks the magic or the current version; otherwise it is unchanged |
| FileSystem.MyFs.Format | myfs.cpp:23-66 | the device afterwards is exactly FormatImage of the device before |
| FileSystem.MyFs.WriteInodeTable | myfs.cpp:43-50 | the loop leaves the device as FillInodes describes: the record at each of 1024 addresses |
| FileSystem.MyFs.CreateFile | myfs.cpp:68-69 | create_file fails with "not implemented" and touches nothing |
| FileSystem.MyFs.FindFreeInode | myfs.cpp:208-229 | the answer and the device afterwards are those of AllocInode |
| FileSystem.MyFs.FindFreeBlock | myfs.cpp:231-252 | the answer and the device afterwards are those of AllocBlock |
| FileSystem.MyFs.ListDirInode | myfs.cpp:114-149 | the answer is Listing of the device (its members: Directory.ListingMembers) |
| FileSystem.MyFs.ListBlock | myfs.cpp:131-145 | the slot loop reports the used slots of the block, in order |
| FileSystem.MyFs.CreateEntry | myfs.cpp:152-205 | the answer and the device afterwards are those of Create |
| FileSystem.MyFs.InsertIntoParent | myfs.cpp:180-205 | the pointer loop's answer and the device afterwards are those of InsertEntry from pointer 0 |
| FileSystem.MyFs.TryPointer | myfs.cpp:181-202 | one round of the pointer loop either ends with InsertEntry's answer and device, or hands InsertEntry's remaining work to pointer i + 1 |
| FileSystem.MyFs.FillPointer | myfs.cpp:183-189 | the zero pointer gets find_free_block's answer; the parent inode is rewritten only when that answer is non-zero |
| FileSystem.MyFs.PlaceInBlock | myfs.cpp:192-202 | the entry is placed if and only if the block has a free slot, and goes into the first one; a full block is not written |
| FileSystem.MyFs.CreateDirectory | myfs.cpp:151-206 | the answer and the device afterwards are those of Create with the strncpy-copied name and mode 0x4000 |
| FileSystem.MyFs.CreateRegularFile | myfs.cpp:254-309 | the outcome and the device afterwards are those of Create with the name cut to 10 characters and mode 0x8000 |
| FileSystem.MyFs.WalkTokens | myfs.cpp:327-344 | the walk loop returns Walk's answer from the root |
| FileSystem.MyFs.GetContent | myfs.cpp:311-362 | the answer is Content.GetContent of the device |
| FileSystem.MyFs.ReadBlocks | myfs.cpp:354-359 | the read loop returns the leading in-use blocks, whole and in order |
| FileSystem.MyFs.ResolveFile | myfs.cpp:380-411 | the resolution returns ResolveForWrite's answer: directories for the leading segments, then a regular-file entry, with 0 read as "File not found" |
| FileSystem.MyFs.AllocateBlocks | myfs.cpp:424-437 | the allocation loop's answer and the device afterwards are those of AllocPointers |
| FileSystem.MyFs.WriteContent | myfs.cpp:440-444 | the write loop leaves the device as WriteChunks describes |
| FileSystem.MyFs.SetContent | myfs.cpp:364-451 | the outcome and the device afterwards are those of Content.SetContent |

## Left out

- `list_dir(path)` (myfs.cpp:453-483) is not modelled. It calls `parse_path`
  and `deref_path` and uses `table_entry` and `TABLE_ENTRY_DIR`, none of which
  is declared in `myfs.h` or defined in `myfs.cpp`; it belongs to an earlier
  design.
- The block device simulator (`block_device_simulator.h`) is not part of this
  model. `Device.BlockDevice` stands in for it. Its size is a constructor
  parameter of at least 2 blocks and below 2^32.
- Byte-level layout and aliasing between record kinds are not modelled. The
  header, the superblock, inode records, directory blocks and raw byte regions
  are separate keyed stores. The model therefore does not show a write of one
  kind overwriting another kind at the same address, for example inode 0 at
  address 1 sharing the superblock's address, or the inode table's addresses
  overlapping the bitmap at address 2. Byte regions interact only when written
  and read at the same address; a write longer than one block does not reach
  the following addresses. So the model shows the zeroed bitmap `format` writes
  at `1 + inode_bitmap_size` as the region find_free_inode reads at 2. It does
  not show that this write, data_bitmap_size blocks long, also covers addresses
  3 to `1 + data_bitmap_size`, which hold most of the data bitmap
  find_free_block reads at 3. Nor does it show find_free_block's write-back,
  data_bitmap_size blocks long at address 3, reaching blocks that its own
  answers hand out from address 2 on.
- The set_content / get_content round trips (Content.SetThenGet,
  Content.SetThenGetFresh) and the listing lemma Directory.CreateInsertsEntry
  rely on inode records, directory blocks and byte regions being separate
  stores. In the source they share one address space: inode n and block
  `1 + n` are the same address, and the first block find_free_block hands
  out, 2, is inode 1's address.
- Format.FormatLeavesRootUnset: in the model inode 0 keeps its old record
  after `format` only because the superblock and inode records are separate
  stores. In the source, `format` writes the superblock at address 1
  (myfs.cpp:40, myfs.cpp:57), and list_dir_inode(0) reads inode 0 from that
  same address (myfs.cpp:117). The root record therefore reads as the final
  superblock's bytes. With little-endian fields its mode is the low half of
  block_size, 0x0400, which is not a directory.
- A region or record never written reads as zero bytes or an all-zero record.
  The real simulator returns whatever the backing file holds.
- Console output of the constructor is left out.
- `format`'s uninitialised `myfs_inode` is modelled as the `junk` parameter:
  whatever record the stack held is written to all 1024 table slots.
- The floating-point `ceil` of `format` is modelled as integer ceiling
  division. The two agree for these operands: the divisors are powers of two
  and the operands are below 2^32.
- Content.SetContent and FileSystem.MyFs.SetContent: the path "/" (or any
  path of slashes only) is excluded by a precondition. The source then computes
  `tokens.size() - 1` on an empty vector and calls `tokens.back()` on it, which
  is undefined behaviour.
- The methods of FileSystem.MyFs that change the device (constructor, Format, WriteInodeTable, FindFreeInode,
  FindFreeBlock, CreateEntry, CreateDirectory, CreateRegularFile,
  InsertIntoParent, TryPointer, FillPointer, PlaceInBlock, AllocateBlocks,
  WriteContent and SetContent) each state the whole new device as a
  specification function of the old one; the properties are proved as lemmas
  about those functions.
- Content.SetThenGet: stated weaker than an any-path round trip. The path has
  one segment because `get_content` matches every segment against
  non-directory entries, so deeper paths always fail (Content.GetContentDeepFails).
  The needed pointers must be distinct because `set_content` reuses existing
  pointers next to newly allocated ones, and nothing in the source keeps them
  distinct once `format` has zeroed the bitmap at address 2.
  Content.SetThenGetFresh drops that premise for a file whose needed pointers
  are all 0, because consecutive find_free_block calls answer distinct blocks
  as long as no block number wraps around 32 bits.
- Directory.CreateThenList: requires the new inode to differ from the parent.
  Nothing in the source keeps the parent's bitmap bit set. The root's bit, for
  one, is never set. So find_free_inode can answer the parent's own number, and
  the new record then overwrites the parent's.
- Directory.CreateThenList: states only that the new entry is listed.
  Directory.CreateInsertsEntry adds that nothing else in the listing changes,
  but only in this case:
  - the entry goes into a block already in use;
  - no other pointer of the parent names that block;
  - no listed entry already names the new inode.
  The other cases are not covered:
  - When create_* fills a zero pointer, the listing also shows whatever used
    slots the newly allocated block held. Neither find_free_block nor create_*
    clears that block.
  - If two pointers of the parent name the written block, the new entry is
    listed twice.
  - An old entry that already names the new inode number is listed afterwards
    with the type and size of the fresh record.
- `ENTRIES_PER_BLOCK` is 64: `sizeof(myfs_dir_entry)` is 16 with the usual
  alignment of the 32-bit `inode_num` (11 name bytes, 1 padding byte).
- The bitmap scan compares a `char` against `0xFF`. Where `char` is signed,
  that test is always true and no byte is skipped. The model uses unsigned
  bytes and skips `0xFF` bytes. The answer is the same either way, because a
  `0xFF` byte has no clear bit (Bitmap.AllOnes).
- The model keeps these behaviours of the code as written:
  - `format` never writes a directory record for the root, inode 0. Its
    inode-table loop starts at address 2 (Format.FormatLeavesRootUnset).
  - `find_free_block` offsets the bit index by `1 + inode_bitmap_size`, not by
    `data_start_block`.
  - The zeroed bitmap starts at address `1 + inode_bitmap_size`, the inode
    bitmap, rather than at the data bitmap find_free_block reads. The model
    zeroes only region 2. The source's write spans addresses 2 to
    `1 + data_bitmap_size`, as the aliasing line above says.
- `dir_list_entry` in `myfs.h` has no `inode_num` field, yet `get_content` and
  `set_content` read `entry.inode_num`. The model gives the listed entry an
  `inodeNum` field, which `list_dir_inode` fills with the slot's inode number.
- Strings are modelled as sequences of characters and file content as
  sequences of bytes; no character encoding is modelled.
