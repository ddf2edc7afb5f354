# ELKS MINIX boot loader, modelled in Dafny

This project models the second-stage boot loader of ELKS for MINIX
filesystems, `elkscmd/bootblocks/boot_minix.c`.

The loader does the following:

1. It reads the superblock (block 1) and computes the first block of the
   inode table.
2. It loads the root directory (inode index 0) into the one-block buffer
   `d_dir`.
3. It scans the directory entries for the name `linux`.
4. On a hit, it prints `Linux found`. It then loads that inode's data zones
   into the load segment, or into `d_dir` when the entry names the root
   inode. It copies up to seven direct zones, then the zones the
   single-indirect block points to, stopping once the file offset reaches
   the inode size. Finally it jumps to the loaded image.

The model has five modules:

- `MinixLayout` (`minix_layout.dfy`): the on-disk layout.
  - The disk is a map from sector numbers to 512-byte sectors; a missing
    sector reads as zeros.
  - A block is two sectors, read at sector `n << 1`, computed in a 16-bit
    `int`.
  - It also decodes the superblock, the inodes (size and nine 16-bit zone
    numbers), the directory entries, and the location of inode index `i`
    in the inode table.
- `CString` (`cstring.dfy`): the loader's own `strcmp`.
  - It is a reference function over sequences, with a pointer-walking
    method proved against it.
  - `char` is signed, so the result is the difference of signed byte values.
- `ZoneWalk` (`zone_walk.dfy`): the recursive zone walk of `load_zone`.
  - `Leaves` and `Walk` give the data zones it copies, in order.
  - `Data` gives the bytes they place.
  - `Splice` describes a write over a buffer.
  - `FileLeaves` gives what `load_file` copies for one inode, with its shape
    proved:
    - a prefix of the direct zones, then a prefix of the single-indirect
      block's pointers;
    - it ends at the size rounded up to whole blocks;
    - it is truncated beyond the direct plus single-indirect capacity.
- `DirScan` (`dir_scan.dfy`): the scan of the root directory for `linux`.
  - There are two versions: as written in the source, and corrected to skip
    unused entries (see Findings).
  - The corrected scan is proved to find the first matching used entry.
- `BootMinix` (`boot_minix.dfy`): the loader itself, as the class `Loader`.
  - Its fields are the module globals `ib_first`, `i_now`, `i_data` and
    `f_pos`.
  - Its arrays are the static buffers `sb_block`, `i_block`, `z_block[0]`,
    `z_block[1]` and `d_dir`, plus the load segment.
  - The event trace records `puts` and `run_prog`.
  - Its methods `LoadSuper`, `LoadInode`, `LoadZone`, `LoadFile` and
    `LoadProg` update that state in place. Each is proved against the
    functions above.

The minix.h header is not part of this model. The constants are those of the
MINIX v1 layout with 14-character names on a little-endian 16-bit machine:

- 1024-byte blocks;
- 32-byte inodes (32 per block);
- 16-byte directory entries;
- zone indices 0, 7, 8 and 9 for direct, single-indirect, double-indirect
  and end;
- two zone-pointer buffers;
- 512 zone numbers per block.

## Model

| member | source | states |
|---|---|---|
| `MinixLayout.ReadSectors` | elkscmd/bootblocks/boot_minix.c:50-51 | `disk_read (sect, 2, …)` delivers exactly one block (1024 bytes): the two sectors from `sect` on |
| `MinixLayout.Block` | elkscmd/bootblocks/boot_minix.c:104 | reading block `n` at sector `n << 1` always yields a full block |
| `MinixLayout.Sector` | elkscmd/bootblocks/boot_minix.c:104 | `n << 1` computed in a 16-bit `int`: the first sector of block `n`, always even and below 0x10000 |
| `MinixLayout.SectorOfBlock` | elkscmd/bootblocks/boot_minix.c:104 | `n << 1` on a 16-bit int is `2n` for blocks below 0x8000 and wraps, so blocks `n` and `n + 0x8000` read the same sectors |
| `MinixLayout.U16` | elkscmd/bootblocks/boot_minix.c:177 | a little-endian 16-bit field (an inode number, a zone number) is below 0x10000 |
| `MinixLayout.U32` | elkscmd/bootblocks/boot_minix.c:120 | a little-endian 32-bit field (the inode size) is below 2^32 |
| `MinixLayout.Words` | elkscmd/bootblocks/boot_minix.c:123-124 | a buffer seen as `zone_nr` words has half as many words as bytes |
| `MinixLayout.WordsAre16Bit` | elkscmd/bootblocks/boot_minix.c:124 | every zone number read from a buffer is a 16-bit value |
| `MinixLayout.DecodeSuper` | elkscmd/bootblocks/boot_minix.c:74-83 | the bitmap block counts read from the superblock are 16-bit values |
| `MinixLayout.InodeTableStart` | elkscmd/bootblocks/boot_minix.c:83 | `ib_first = 2 + s_imap_blocks + s_zmap_blocks`: the inode table starts after the boot block, the superblock and both bitmaps |
| `MinixLayout.DecodeInode` | elkscmd/bootblocks/boot_minix.c:108 | an inode decoded from a slot of an inode block has a 32-bit size and exactly nine zone numbers, each a 16-bit value |
| `MinixLayout.InodeZones` | elkscmd/bootblocks/boot_minix.c:144-148 | the zone range `&i_data->i_zone[k0]` to `&i_data->i_zone[k1]` lies inside the inode block and holds exactly zones `k0` to `k1` of the decoded inode |
| `MinixLayout.InodeBlockNr` | elkscmd/bootblocks/boot_minix.c:103 | `ib = ib_first + i_now / INODES_PER_BLOCK`: never before the table start, and at most `i` blocks into it |
| `MinixLayout.InodeSlot` | elkscmd/bootblocks/boot_minix.c:108 | `i_now % INODES_PER_BLOCK`: a slot below 32 that, with the block offset, recomposes the inode index |
| `MinixLayout.InodeLocation` | elkscmd/bootblocks/boot_minix.c:103-108 | block `ib_first + i / 32` and slot `i % 32` locate inode index `i` inside one inode block and inside the table. Distinct indices get distinct locations |
| `MinixLayout.EntryIno` | elkscmd/bootblocks/boot_minix.c:177 | the inode number of the entry at `d`, read as a 16-bit little-endian word |
| `MinixLayout.EntryName` | elkscmd/bootblocks/boot_minix.c:175 | the name field of the entry at `d` is the 14 bytes from `d + 2` |
| `CString.SChar` | elkscmd/bootblocks/boot_minix.c:62-65 | a byte read through a signed `char` lies in -128..127 and is congruent to the byte modulo 256 |
| `CString.CLen` | elkscmd/bootblocks/boot_minix.c:64 | the terminator position of a C string holds the first zero byte |
| `CString.CStrCmp` | elkscmd/bootblocks/boot_minix.c:57-66 | reference `strcmp`: the result lies in -255..255 and is nonzero when the first bytes differ; its meaning is stated by the three lemmas below |
| `CString.StrCmpZeroIff` | elkscmd/bootblocks/boot_minix.c:57-66 | `strcmp` returns 0 if and only if the strings agree up to and including the terminator |
| `CString.StrCmpMismatch` | elkscmd/bootblocks/boot_minix.c:57-66 | a nonzero `strcmp` result is the signed difference of the first differing pair of bytes, with equal prefixes before it, no later than the terminator of the second string |
| `CString.StrCmpReadsPrefix` | elkscmd/bootblocks/boot_minix.c:64 | the loop reads no byte of the first string past the terminator of the second |
| `CString.StrCmp` | elkscmd/bootblocks/boot_minix.c:57-66 | the pointer-walking loop returns exactly the reference `CStrCmp` of the two strings |
| `DirScan.EntryInBlock` | elkscmd/bootblocks/boot_minix.c:174 | every entry offset the scan visits lies inside the directory buffer |
| `DirScan.FindEntry` | elkscmd/bootblocks/boot_minix.c:174-177 | the corrected scan from entry offset `d`: a hit is a visited entry inside the block, with a nonzero inode number and a name that `strcmp` finds equal to the target |
| `DirScan.FindEntryAsWritten` | elkscmd/bootblocks/boot_minix.c:174-177 | the scan as written, with no test of the inode number: a hit is a visited entry inside the block whose name `strcmp` finds equal to the target |
| `DirScan.FindEntryCorrect` | elkscmd/bootblocks/boot_minix.c:174-183 | the corrected scan returns the first visited offset whose entry is used and whose name is the target, or none when no visited entry matches |
| `DirScan.FoundEntryIsUsed` | elkscmd/bootblocks/boot_minix.c:177 | a hit of the corrected scan has an inode number of at least 1, so `inode - 1` is a zero-based index below 0xFFFF |
| `DirScan.LinuxIsTarget` | elkscmd/bootblocks/boot_minix.c:175 | the literal `"linux"` is terminated at position 5, inside a name field |
| `DirScan.CRem` | elkscmd/bootblocks/boot_minix.c:108 | C's `%` on `int` truncates: the remainder is below the divisor in magnitude, is never positive for a negative dividend, agrees with Dafny's for a non-negative dividend, and recomposes the dividend with the truncating quotient |
| `DirScan.StaleDir` | elkscmd/bootblocks/boot_minix.c:174-177 | fixture for the finding: a well-formed one-entry directory block |
| `DirScan.StaleEntryAsWritten` | elkscmd/bootblocks/boot_minix.c:174-177 | as written, the scan accepts a removed `linux` entry (inode 0), so `i_now` becomes -1 and, with `INODES_PER_BLOCK` a signed `int`, the inode slot -1. The corrected scan finds nothing |
| `DirScan.Entry` | elkscmd/bootblocks/boot_minix.c:175-177 | fixture builder: an on-disk directory entry is 16 bytes |
| `DirScan.ExampleDir` | elkscmd/bootblocks/boot_minix.c:174 | fixture: the example root directory is a well-formed two-entry directory block |
| `DirScan.ScanExampleFindsLinux` | elkscmd/bootblocks/boot_minix.c:174-177 | scanning a directory holding `linux` (inode 5) then `readme` stops at offset 0 and makes inode index 4 current |
| `DirScan.ExampleDirHeads` | elkscmd/bootblocks/boot_minix.c:175-177 | the example's two entries have the inode numbers and leading name bytes they were built with |
| `DirScan.ScanExampleMissing` | elkscmd/bootblocks/boot_minix.c:174-183 | scanning the same directory for `missing` finds nothing |
| `ZoneWalk.Leaves` | elkscmd/bootblocks/boot_minix.c:113-127 | the data zones `load_zone` copies, as a recursion over the pointer list: at level 0 each pointer's block until the one that brings the offset to the size; above, each pointer's block walked in full one level down. Its properties are stated by `WalkIsLeaves` and `Level0Shape` |
| `ZoneWalk.Walk` | elkscmd/bootblocks/boot_minix.c:113-127 | the same walk by pointer index `z` up to `z_end`, as the loop is written. `WalkIsLeaves` proves it equal to `Leaves`, and `Level0WalkBound` bounds it |
| `ZoneWalk.StepLeaves` | elkscmd/bootblocks/boot_minix.c:116-125 | the zones one loop turn copies for one pointer: the pointer itself at level 0, the full walk of its block one level down above. `StepUnfold` states it |
| `ZoneWalk.Level0WalkBound` | elkscmd/bootblocks/boot_minix.c:115-120 | a level-0 walk copies at least one block for a non-empty range and at most one block per pointer between `z_start` and `z_end` |
| `ZoneWalk.Data` | elkscmd/bootblocks/boot_minix.c:118-119 | the bytes of `n` copied zones are `n` whole blocks |
| `ZoneWalk.Splice` | elkscmd/bootblocks/boot_minix.c:118 | a write into a buffer keeps its length |
| `ZoneWalk.SpliceAt` | elkscmd/bootblocks/boot_minix.c:118 | a write changes exactly the bytes from its offset for its length, and keeps every other byte |
| `ZoneWalk.SpliceWhole` | elkscmd/bootblocks/boot_minix.c:72 | a block read into a whole one-block buffer replaces it |
| `ZoneWalk.SpliceAdjacent` | elkscmd/bootblocks/boot_minix.c:118-119 | two writes that meet end to start are one write of both contents |
| `ZoneWalk.DataAppend` | elkscmd/bootblocks/boot_minix.c:118-119 | the bytes of two zone lists copied one after the other are the concatenation of their bytes |
| `ZoneWalk.PlaceAt` | elkscmd/bootblocks/boot_minix.c:118-119 | copying more zones right where the previous ones ended extends the earlier copy |
| `ZoneWalk.WalkIsLeaves` | elkscmd/bootblocks/boot_minix.c:113-127 | the walk by pointer index, as `load_zone` does it, copies exactly the zones of the recursive `Leaves` over that slice of pointers |
| `ZoneWalk.DirectWalkIsLeaves` | elkscmd/bootblocks/boot_minix.c:115-120 | the same at level 0, where the walk stops after the block that reaches the size |
| `ZoneWalk.IndirectWalkIsLeaves` | elkscmd/bootblocks/boot_minix.c:121-124 | the same above level 0, where each pointer's block is walked in full one level down |
| `ZoneWalk.IndirectUnfold` | elkscmd/bootblocks/boot_minix.c:121-124 | above level 0 the first pointer contributes the full walk of its block, and the rest continues from where that ended |
| `ZoneWalk.WalkNext` | elkscmd/bootblocks/boot_minix.c:115-124 | one turn of the loop: the zones of pointer `z`, then the rest of the walk unless level 0 reached the size |
| `ZoneWalk.WalkDone` | elkscmd/bootblocks/boot_minix.c:115 | a walk over an empty range of pointers copies nothing |
| `ZoneWalk.StepUnfold` | elkscmd/bootblocks/boot_minix.c:116-125 | a level-0 pointer is copied as itself; a higher pointer's block is walked in full one level down |
| `ZoneWalk.DataOne` | elkscmd/bootblocks/boot_minix.c:118 | one copied zone places exactly that zone's block |
| `ZoneWalk.DataBlockAt` | elkscmd/bootblocks/boot_minix.c:118-119 | the `j`-th copied zone lands exactly `j` blocks after the start of the copy |
| `ZoneWalk.Level0Shape` | elkscmd/bootblocks/boot_minix.c:115-120 | at level 0 the walk copies a non-empty prefix of the pointers. Every block but the last leaves the offset below the size, and it stops early only when the last block reached the size |
| `ZoneWalk.IndirectWalk` | elkscmd/bootblocks/boot_minix.c:121-124 | the single-indirect walk copies what the level-0 walk of the pointer block copies |
| `ZoneWalk.FileLeaves` | elkscmd/bootblocks/boot_minix.c:141-149 | the zones `load_file` copies for one inode: the direct walk from offset 0, then the single-indirect walk only while the offset is below the size. There are always 1 to 519 of them |
| `ZoneWalk.ReadsIndirect` | elkscmd/bootblocks/boot_minix.c:145-148 | `load_file` goes on to the single-indirect zone exactly when the file is larger than the seven direct blocks: never for a smaller file, always for a larger one |
| `ZoneWalk.FileLeavesShape` | elkscmd/bootblocks/boot_minix.c:143-152 | `load_file` copies one to 519 zones. Without the indirect walk they are a prefix of the direct zones. With it, they are all seven direct zones followed by a prefix of the pointers in the single-indirect block; the double-indirect zone is never read |
| `ZoneWalk.FileParts` | elkscmd/bootblocks/boot_minix.c:143-149 | the zones copied are the direct walk from offset 0, followed, only when that fell short of the size, by the single-indirect walk from where it ended |
| `ZoneWalk.SmallFileOneZone` | elkscmd/bootblocks/boot_minix.c:144-145 | a file of at most one block is exactly its first direct zone, and the indirect walk does not run |
| `ZoneWalk.FileEndsAtRoundUp` | elkscmd/bootblocks/boot_minix.c:115-120 | for a file within the direct plus single-indirect capacity, the final offset is the size rounded up to a positive multiple of the block size |
| `ZoneWalk.LargeFileTruncated` | elkscmd/bootblocks/boot_minix.c:148-152 | a larger file is cut at 519 zones, short of its size, because the double-indirect walk is disabled |
| `BootMinix.InodeTableStartOf` | elkscmd/bootblocks/boot_minix.c:72-83 | the `ib_first` that `load_super` computes from the superblock read at sectors 2 and 3 of `disk` |
| `BootMinix.InodeTableBlock` | elkscmd/bootblocks/boot_minix.c:103-104 | the inode-table block `load_inode` reads for inode index `i`: block `ib_first + i / 32`, always one full block |
| `BootMinix.InodeOf` | elkscmd/bootblocks/boot_minix.c:99-109 | inode index `i` read from the table has nine zone numbers |
| `BootMinix.InodeZonesWalk` | elkscmd/bootblocks/boot_minix.c:144-148 | the walk `load_file` starts over `i_data->i_zone[k0..k1]` in the inode block copies the `Leaves` of those zones of the decoded inode |
| `BootMinix.InodeWalks` | elkscmd/bootblocks/boot_minix.c:143-149 | the two walks `load_file` starts over the inode block together give the file's zones. The second counts only when the first fell short of the size, and both stay within capacity |
| `BootMinix.RootInode` | elkscmd/bootblocks/boot_minix.c:171-172 | the root directory inode, index 0 of the table that the superblock locates, with nine zones |
| `BootMinix.RootDir` | elkscmd/bootblocks/boot_minix.c:171-172 | what `d_dir` holds after the root directory is loaded, when it fits in one block: one full block, that of its first zone |
| `BootMinix.FindKernel` | elkscmd/bootblocks/boot_minix.c:174-183 | a hit of the corrected scan (which skips unused entries, unlike the loop as written) is an entry inside the block, below the directory size, with a nonzero inode number |
| `BootMinix.RootDirLoaded` | elkscmd/bootblocks/boot_minix.c:171-172 | loading a root directory of at most one block fills `d_dir` with exactly its first zone |
| `BootMinix.EntryNameCompare` | elkscmd/bootblocks/boot_minix.c:175 | `strcmp (d_dir + 2 + d, "linux")` stays inside the buffer and gives the same result as comparing the entry's 14-byte name field |
| `BootMinix.Loader.constructor` | elkscmd/bootblocks/boot_minix.c:24-37 | the buffers are distinct, each of its declared size, and the trace is empty |
| `BootMinix.Loader.ZBlock` | elkscmd/bootblocks/boot_minix.c:123 | `z_block [level]` of the declaration at line 33: the pointer buffer of indirection level `level`, one of the two one-block buffers that `Valid` keeps distinct |
| `BootMinix.Loader.Dest` | elkscmd/bootblocks/boot_minix.c:118 | where a level-0 block goes: the load segment (`LOADSEG:f_pos`) when `i_now` is nonzero, else `d_dir + f_pos` |
| `BootMinix.Loader.CurInode` | elkscmd/bootblocks/boot_minix.c:108 | `*i_data` is read in place from the inode block buffer and has nine zones |
| `BootMinix.Loader.DiskRead` | elkscmd/bootblocks/boot_minix.c:50-51 | the buffer afterwards is its old contents with the block written at the offset and nothing else changed |
| `BootMinix.Loader.LoadSuper` | elkscmd/bootblocks/boot_minix.c:70-95 | `sb_block` holds sectors 2 and 3, and `ib_first` is 2 plus the inode-bitmap and zone-bitmap block counts of that superblock |
| `BootMinix.Loader.LoadInode` | elkscmd/bootblocks/boot_minix.c:99-109 | `i_block` holds inode-table block `ib_first + i_now / 32`, and `i_data` is slot `i_now % 32`. The current inode is then inode index `i_now` of the disk, and the destination buffer is untouched |
| `BootMinix.Loader.LoadStep` | elkscmd/bootblocks/boot_minix.c:116-125 | one loop turn copies the zones of one pointer to the current offset and advances the offset past them. The inode block is untouched |
| `BootMinix.Loader.LoadZone` | elkscmd/bootblocks/boot_minix.c:113-127 | the zones of `Walk` over `z_start..z_end` are laid one after another from the old offset, the offset moves past them, and no other byte of the destination changes |
| `BootMinix.Loader.LoadIndirect` | elkscmd/bootblocks/boot_minix.c:147-149 | after the direct zones, the single-indirect walk extends the copy from offset 0 to the direct plus indirect zones, within the load segment |
| `BootMinix.Loader.LoadFileZones` | elkscmd/bootblocks/boot_minix.c:141-149 | from offset 0, the destination receives exactly the data of `FileLeaves` of the current inode, and the offset ends one block past the last zone |
| `BootMinix.Loader.LoadFile` | elkscmd/bootblocks/boot_minix.c:131-153 | inode `i_now` is loaded (`i_block` holds its table block and `*i_data` is that inode), its zones (`FileLeaves`) are copied to `d_dir` for the root directory or to the load segment otherwise, from offset 0, and `f_pos` ends at that many blocks |
| `BootMinix.Loader.ScanDir` | elkscmd/bootblocks/boot_minix.c:174-183 | the loop stops at the offset of the first used entry named `linux`, or at or past the directory size when there is none |
| `BootMinix.Loader.LoadRoot` | elkscmd/bootblocks/boot_minix.c:169-172 | after `load_super` and `load_file` of inode index 0, `d_dir` holds the root directory's block, `i_now` is 0, `*i_data` is the root inode, and the load segment is untouched |
| `BootMinix.Loader.LoadKernel` | elkscmd/bootblocks/boot_minix.c:176-181 | on a hit, the loader prints `Linux found` and sets `i_now` to the entry's inode number minus one. It then copies that inode's zones to its destination and jumps to it. When that destination is `d_dir` (inode index 0), the load segment is untouched |
| `BootMinix.Loader.LoadProg` | elkscmd/bootblocks/boot_minix.c:157-184 | `d_dir` holds the root directory. Without a used `linux` entry, nothing is printed, run or loaded. With one, the trace is `Linux found` then the jump, and the load segment holds exactly that file's zones from offset 0. When the entry names the root inode, the load segment is untouched |

## Left out

- `getty.c` is not part of this model.
  - It is an unrelated user program.
- `disk_read`, `puts`, `seg_data` and `run_prog` are assembly helpers in the boot sector.
  - `disk_read` is modelled as a copy of two sectors from the `disk` map.
  - A sector absent from the map reads as zeros.
  - Read errors (the `except` path) are not modelled.
  - `puts` and `run_prog` are recorded as events in `trace`.
  - What the jump runs is not modelled.
- `Loader.LoadZone`: the load segment is one flat array of 519 blocks.
  - The source writes at `LOADSEG:f_pos` and marks with FIXME that an image over 64 KiB wraps inside the segment.
  - That wrap is not modelled.
- `Loader.LoadFile`: the final `if (f_pos >= i_data->i_size) return;` after the indirect walk has no effect and is not modelled.
  - The double-indirect walk is commented out in the source and is not modelled either.
  - `LargeFileTruncated` states the consequence.
- `Loader.LoadProg`, `Loader.LoadRoot` and `Loader.LoadFile` require the root directory to fit in one block.
  - `d_dir` is one block.
  - For a larger root directory the source writes past `d_dir`, into whatever follows it in memory, and this model has no such memory.
- `Loader.LoadKernel` requires the same of the root inode when the `linux` entry names inode 1.
  - That case reloads the root directory into `d_dir`.
- `Loader.ScanDir` has an extra test `ino != 0` before the `strcmp`: it is the corrected scan of the Findings row, and skips unused entries. `FindKernel`, the function it is proved against, is that corrected scan too.
  - The source compares every entry, used or not, so it also accepts a removed `linux` entry (inode number 0).
  - That as-written behaviour is modelled only by `DirScan.FindEntryAsWritten`, not by the loader.
- `Loader.LoadProg` scans with `Loader.ScanDir`, the corrected scan (see Findings).
  - The hit actions run after the loop's exit, at the returned offset.
  - In the source they run inside the loop body, which then breaks. This is the same sequence of effects.
- `Loader.LoadKernel` requires the entry's inode number to be nonzero.
  - That excludes the removed-entry case of the Findings row, where the source sets `i_now` to -1 and loads a bogus inode.
  - The case is reachable only through the as-written scan; the corrected scan never hands such an entry over.
- `Loader.LoadKernel`: `i_now` and `ib_first` are modelled as unbounded naturals.
  - The 16-bit overflow of `int` is not modelled.
  - An inode number of 0x8000 or more is read through a signed `int` as negative, and that is not modelled either.
  - Only the wrap of `n << 1` in the sector number is modelled (`Sector`).
- `Loader.LoadZone`: `f_pos` is modelled as an unbounded natural.
  - `file_pos` comes from minix.h, which is not part of this model; it is taken to be at least 32 bits wide.
  - With that width the offset never wraps: at most 519 blocks, 531456 bytes, are copied.
  - A 16-bit `file_pos` would wrap for files of 64 KiB or more and change when the test at line 120 stops the walk; that is not modelled.
- The commented-out superblock checks are not modelled.
  - They are the zone-size check and the magic number check.
- The commented-out console output of the size and the disk geometry is not modelled.
- The buffers start uninitialised in the source.
  - In the model they are fresh arrays whose contents the verifier does not know either, and no contract depends on their first contents.
- The ghost parameters of `LoadStep`, `LoadZone`, `LoadIndirect` and `LoadFileZones` exist only for the proofs.
  - They are the destination, the size, the zones walked and the destination's contents.
- `LoadStep`, `LoadIndirect`, `LoadFileZones`, `ScanDir`, `LoadRoot` and `LoadKernel` are parts of `load_zone`, `load_file` and `load_prog` split out as methods of their own.
  - `LoadStep`, `LoadIndirect`, `LoadFileZones`, `LoadRoot` and `LoadKernel` run the same statements in the same order.
  - `ScanDir` has the one extra test stated above.

## Findings

| source | as written | input that shows it | evidently intended | confidence | as-written member | corrected member |
|---|---|---|---|---|---|---|
| elkscmd/bootblocks/boot_minix.c:174-177 | the scan compares the name of every entry below the directory size, used or not, and takes the first match's inode number minus one as `i_now` | a root directory whose first entry is a removed `linux` entry (inode number 0): `i_now` becomes -1. Taking `INODES_PER_BLOCK` to be a signed `int` constant (minix.h is not part of this model), `i_now % INODES_PER_BLOCK` is -1 and `i_data` points one inode before `i_block`. Were it unsigned, `i_now` would convert to 0xFFFF and slot 31 of block `ib_first + 2047` would be used instead. Either way a bogus inode is loaded and run | skip entries whose inode number is 0, as MINIX marks removed entries, and take the first used entry named `linux` | not executed | `DirScan.FindEntryAsWritten`, `DirScan.StaleEntryAsWritten` | `DirScan.FindEntry`, `DirScan.FindEntryCorrect` |
