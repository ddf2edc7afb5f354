/**
 * The on-disk layout of a MINIX v1 filesystem, as far as the ELKS second-stage
 * boot loader reads it: sectors and two-sector blocks, the superblock, inodes,
 * zone pointers and directory entries.
 *
 * The header minix.h that fixes these constants is not part of this model; the
 * values below are those of the MINIX v1 layout with 14-character names, as a
 * little-endian 16-bit machine stores it.
 */
module MinixLayout {

  type byte = b: int | 0 <= b < 0x100

  const SECTOR_SIZE: nat := 512
  /** A filesystem block is two sectors, read as sector `n << 1`, count 2. */
  const BLOCK_SIZE: nat := 1024

  const INODE_SIZE: nat := 32
  const INODES_PER_BLOCK: nat := 32
  const DIRENT_SIZE: nat := 16
  const NAME_LEN: nat := 14

  /** Indices into an inode's zone array: direct, single-, double-indirect, end. */
  const ZONE_IND_L0: nat := 0
  const ZONE_IND_L1: nat := 7
  const ZONE_IND_L2: nat := 8
  const ZONE_IND_END: nat := 9
  /** Number of zone-pointer buffers, one per indirection level below the top. */
  const LEVEL_MAX: nat := 2
  /** A zone number is a 16-bit word, so one block holds this many of them. */
  const ZONES_PER_BLOCK: nat := 512

  /** Byte offsets of the fields the loader reads. */
  const S_IMAP_BLOCKS: nat := 4
  const S_ZMAP_BLOCKS: nat := 6
  const I_SIZE: nat := 4
  const I_ZONE: nat := 14
  /** The same two offsets counted in 16-bit words: `INODE_SIZE / 2` and `I_ZONE / 2`. */
  const INODE_WORDS: nat := 16
  const I_ZONE_WORD: nat := 7
  const D_NAME: nat := 2

  /** The superblock is block 1: sectors 2 and 3. */
  const SUPER_SECTOR: nat := 2

  type SectorData = s: seq<byte> | |s| == SECTOR_SIZE witness seq(512, _ => 0)

  /** A sector that was never written: all zero bytes. */
  function BlankSector(): SectorData
  {
    seq(SECTOR_SIZE, _ => 0)
  }

  /** The disk: the contents of the sectors it holds; any other sector reads as blank. */
  type Disk = map<nat, SectorData>

  function SectorAt(disk: Disk, sect: nat): SectorData
  {
    if sect in disk then disk[sect] else BlankSector()
  }

  /** What `disk_read (sect, 2, …)` delivers: the two sectors from `sect` on. */
  function ReadSectors(disk: Disk, sect: nat): (b: seq<byte>)
    ensures |b| == BLOCK_SIZE
  {
    SectorAt(disk, sect) + SectorAt(disk, sect + 1)
  }

  /** `n << 1` computed in a 16-bit int: the first sector of block `n`. */
  function Sector(n: nat): (sect: nat)
    ensures sect < 0x1_0000 && sect % 2 == 0
  {
    (n * 2) % 0x1_0000
  }

  /** The block a zone number or a block number addresses. */
  function Block(disk: Disk, n: nat): (b: seq<byte>)
    ensures |b| == BLOCK_SIZE
  {
    ReadSectors(disk, Sector(n))
  }

  lemma SectorOfBlock(n: nat)
    ensures n < 0x8000 ==> Sector(n) == 2 * n
    ensures Sector(n + 0x8000) == Sector(n)
  {
  }

  function U16(b: seq<byte>, off: nat): (w: nat)
    requires off + 2 <= |b|
    ensures w < 0x1_0000
  {
    b[off] as int + 0x100 * (b[off + 1] as int)
  }

  function U32(b: seq<byte>, off: nat): (w: nat)
    requires off + 4 <= |b|
    ensures w < 0x1_0000_0000
  {
    U16(b, off) + 0x1_0000 * U16(b, off + 2)
  }

  /** A byte buffer seen as an array of 16-bit zone numbers; word `z` is the pair of bytes at `2 * z`. */
  function Words(b: seq<byte>): (w: seq<nat>)
    ensures |w| == |b| / 2
  {
    seq(|b| / 2, z requires 0 <= z < |b| / 2 => U16(b, 2 * z))
  }

  /** Every word is a 16-bit value. */
  lemma WordsAre16Bit(b: seq<byte>)
    ensures forall z :: 0 <= z < |Words(b)| ==> Words(b)[z] < 0x1_0000
  {
  }

  datatype SuperBlock = SuperBlock(imapBlocks: nat, zmapBlocks: nat)

  function DecodeSuper(sb: seq<byte>): (s: SuperBlock)
    requires |sb| == BLOCK_SIZE
    ensures s.imapBlocks < 0x1_0000 && s.zmapBlocks < 0x1_0000
  {
    SuperBlock(U16(sb, S_IMAP_BLOCKS), U16(sb, S_ZMAP_BLOCKS))
  }

  /** First block of the inode table: after boot block, superblock and both bitmaps. */
  function InodeTableStart(s: SuperBlock): (b: nat)
    ensures b >= 2 + s.imapBlocks && b >= 2 + s.zmapBlocks
  {
    2 + s.imapBlocks + s.zmapBlocks
  }

  datatype Inode = Inode(size: nat, zones: seq<nat>)

  /** Word index, inside an inode-table block, of zone `k` of the inode in `slot`. */
  function ZoneWord(slot: nat, k: nat): nat
  {
    slot * INODE_WORDS + I_ZONE_WORD + k
  }

  function DecodeInode(blk: seq<byte>, slot: nat): (ino: Inode)
    requires |blk| == BLOCK_SIZE && slot < INODES_PER_BLOCK
    ensures ino.size < 0x1_0000_0000
    ensures |ino.zones| == ZONE_IND_END
    ensures forall k :: 0 <= k < ZONE_IND_END ==> ino.zones[k] < 0x1_0000
  {
    WordsAre16Bit(blk);
    Inode(U32(blk, slot * INODE_SIZE + I_SIZE),
          Words(blk)[ZoneWord(slot, ZONE_IND_L0)..ZoneWord(slot, ZONE_IND_END)])
  }

  /** A slice of a slice is a slice of the whole. */
  lemma SliceOfSlice<T>(s: seq<T>, a: nat, b: nat, i: nat, j: nat)
    requires a <= b <= |s| && i <= j <= b - a
    ensures s[a..b][i..j] == s[a + i..a + j]
  {
    forall k | 0 <= k < j - i
      ensures s[a..b][i..j][k] == s[a + i..a + j][k]
    {
    }
  }

  /** The zone array of a decoded inode is the words of its block from its first zone word on. */
  lemma DecodedZones(blk: seq<byte>, slot: nat)
    requires |blk| == BLOCK_SIZE && slot < INODES_PER_BLOCK
    ensures ZoneWord(slot, ZONE_IND_END) <= |Words(blk)|
    ensures DecodeInode(blk, slot).zones == Words(blk)[ZoneWord(slot, ZONE_IND_L0)..ZoneWord(slot, ZONE_IND_END)]
  {
  }

  /** Zones `k0` to `k1` of a decoded inode are the words of its block at those zone indices. */
  lemma InodeZones(blk: seq<byte>, slot: nat, k0: nat, k1: nat)
    requires |blk| == BLOCK_SIZE && slot < INODES_PER_BLOCK && k0 <= k1 <= ZONE_IND_END
    ensures 2 * ZoneWord(slot, k1) <= |blk|
    ensures DecodeInode(blk, slot).zones[k0..k1] == Words(blk)[ZoneWord(slot, k0)..ZoneWord(slot, k1)]
  {
    DecodedZones(blk, slot);
    var ws, a := Words(blk), ZoneWord(slot, ZONE_IND_L0);
    assert ZoneWord(slot, k0) == a + k0 && ZoneWord(slot, k1) == a + k1;
    SliceOfSlice(ws, a, a + ZONE_IND_END, k0, k1);
  }

  /** The block of the inode table that holds inode index `i` (zero-based). */
  function InodeBlockNr(ibFirst: nat, i: nat): (b: nat)
    ensures ibFirst <= b <= ibFirst + i
  {
    ibFirst + i / INODES_PER_BLOCK
  }

  /** A slot of an inode-table block. */
  type Slot = s: nat | s < INODES_PER_BLOCK

  /** The slot of inode index `i` inside that block. */
  function InodeSlot(i: nat): (s: nat)
    ensures s < INODES_PER_BLOCK
    ensures i == INODES_PER_BLOCK * (i / INODES_PER_BLOCK) + s
  {
    i % INODES_PER_BLOCK
  }

  /**
   * The block number and slot the loader computes locate every inode index
   * inside the table, and no two indices share a location.
   */
  lemma InodeLocation(ibFirst: nat, i: nat, j: nat)
    ensures InodeSlot(i) < INODES_PER_BLOCK
    ensures InodeSlot(i) * INODE_SIZE + INODE_SIZE <= BLOCK_SIZE
    ensures InodeBlockNr(ibFirst, i) >= ibFirst
    ensures (InodeBlockNr(ibFirst, i) - ibFirst) * INODES_PER_BLOCK + InodeSlot(i) == i
    ensures InodeBlockNr(ibFirst, i) == InodeBlockNr(ibFirst, j) && InodeSlot(i) == InodeSlot(j) ==> i == j
  {
  }

  function EntryIno(dir: seq<byte>, d: nat): (ino: nat)
    requires d + DIRENT_SIZE <= |dir|
    ensures ino < 0x1_0000
  {
    U16(dir, d)
  }

  /** The fixed-length name field of the directory entry at byte offset `d`. */
  function EntryName(dir: seq<byte>, d: nat): (name: seq<byte>)
    requires d + DIRENT_SIZE <= |dir|
    ensures |name| == NAME_LEN
  {
    dir[d + D_NAME..d + DIRENT_SIZE]
  }
}
