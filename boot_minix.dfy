/**
 * The second-stage MINIX boot loader: the module globals of boot_minix.c as
 * the fields of one `Loader`, its static buffers as arrays that the disk-read
 * helper fills in place, and `load_super`, `load_inode`, `load_zone`,
 * `load_file` and `load_prog` as methods proved against the functions of
 * `MinixLayout`, `ZoneWalk` and `DirScan`.
 */
module BootMinix {
  import opened MinixLayout
  import opened CString
  import opened ZoneWalk
  import opened DirScan

  /**
   * The load segment, taken as one flat array: as large as the most the
   * loader can ever copy, the direct plus single-indirect zones of one file.
   */
  const LOAD_SIZE: nat := BLOCK_SIZE * MAX_FILE_ZONES

  const FOUND_MESSAGE: string := "Linux found\r\n"

  /** What the loader does besides reading the disk: console output and the jump to the image. */
  datatype Event = Puts(msg: string) | RunProg

  /** The inode-table start that the superblock of `disk` gives. */
  function InodeTableStartOf(disk: Disk): nat
  {
    InodeTableStart(DecodeSuper(ReadSectors(disk, SUPER_SECTOR)))
  }

  /** The inode-table block that holds inode index `i`. */
  function InodeTableBlock(disk: Disk, ibFirst: nat, i: nat): (b: seq<byte>)
    ensures |b| == BLOCK_SIZE
  {
    Block(disk, InodeBlockNr(ibFirst, i))
  }

  /** Inode index `i` as stored on `disk`. */
  function InodeOf(disk: Disk, ibFirst: nat, i: nat): (ino: Inode)
    ensures |ino.zones| == ZONE_IND_END
  {
    DecodeInode(InodeTableBlock(disk, ibFirst, i), InodeSlot(i))
  }

  /**
   * The walk `load_file` starts over the zone words `k0` to `k1` of the inode
   * in `slot` of an inode-table block copies what `Leaves` gives for those
   * zones of the decoded inode.
   */
  lemma InodeZonesWalk(disk: Disk, level: nat, blk: seq<byte>, slot: Slot, k0: nat, k1: nat, pos: nat, size: nat)
    requires |blk| == BLOCK_SIZE && k0 <= k1 <= ZONE_IND_END
    ensures 2 * ZoneWord(slot, k1) <= |blk|
    ensures Walk(disk, level, Words(blk), ZoneWord(slot, k0), ZoneWord(slot, k1), pos, size)
         == Leaves(disk, level, DecodeInode(blk, slot).zones[k0..k1], pos, size)
  {
    InodeZones(blk, slot, k0, k1);
    WalkIsLeaves(disk, level, Words(blk), ZoneWord(slot, k0), ZoneWord(slot, k1), pos, size);
  }

  /**
   * The two walks `load_file` starts over the zone words of the inode in
   * `slot` of an inode-table block: the direct zones from offset 0, then the
   * single-indirect zone from where they ended. Together they give the file's
   * zones, the second only when the first fell short of the size.
   */
  lemma InodeWalks(disk: Disk, blk: seq<byte>, slot: Slot) returns (direct: seq<nat>, indirect: seq<nat>)
    requires |blk| == BLOCK_SIZE
    ensures 2 * ZoneWord(slot, ZONE_IND_L2) <= |blk|
    ensures var ino := DecodeInode(blk, slot);
      && direct == Walk(disk, 0, Words(blk), ZoneWord(slot, ZONE_IND_L0), ZoneWord(slot, ZONE_IND_L1), 0, ino.size)
      && indirect == Walk(disk, 1, Words(blk), ZoneWord(slot, ZONE_IND_L1), ZoneWord(slot, ZONE_IND_L2),
                          BLOCK_SIZE * |direct|, ino.size)
      && (BLOCK_SIZE * |direct| >= ino.size ==> FileLeaves(disk, ino) == direct)
      && (BLOCK_SIZE * |direct| < ino.size ==>
            FileLeaves(disk, ino) == direct + indirect && |direct| + |indirect| <= MAX_FILE_ZONES)
      && |direct| <= DIRECT_ZONES
      && (ino.size <= BLOCK_SIZE ==> |direct| == 1 && BLOCK_SIZE * |direct| >= ino.size)
  {
    var ino := DecodeInode(blk, slot);
    direct, indirect := FileParts(disk, ino);
    InodeZonesWalk(disk, 0, blk, slot, ZONE_IND_L0, ZONE_IND_L1, 0, ino.size);
    InodeZonesWalk(disk, 1, blk, slot, ZONE_IND_L1, ZONE_IND_L2, BLOCK_SIZE * |direct|, ino.size);
  }

  /** The root directory inode, index 0 of the inode table. */
  function RootInode(disk: Disk): (ino: Inode)
    ensures |ino.zones| == ZONE_IND_END
  {
    InodeOf(disk, InodeTableStartOf(disk), 0)
  }

  /** The block that holds the root directory when it fits in one block: its first zone. */
  function RootDir(disk: Disk): (dir: seq<byte>)
    ensures |dir| == BLOCK_SIZE
  {
    Block(disk, RootInode(disk).zones[ZONE_IND_L0])
  }

  /**
   * The entry offset of `linux` in a directory block holding `size` bytes of
   * entries, if any: an entry inside the block, with a nonzero inode number.
   */
  function FindKernel(dir: seq<byte>, size: nat): (r: Option<nat>)
    requires Directory(dir, size)
    ensures r.Some? ==> r.value < size && r.value + DIRENT_SIZE <= |dir| && EntryIno(dir, r.value) != 0
  {
    LinuxIsTarget();
    FoundEntryIsUsed(dir, size, LINUX);
    FindEntryCorrect(dir, size, LINUX, 0);
    FindEntry(dir, size, LINUX, 0)
  }

  /** Loading a root directory of at most one block puts exactly its first zone in `d_dir`. */
  lemma RootDirLoaded(disk: Disk, m: seq<byte>)
    requires RootInode(disk).size <= BLOCK_SIZE && |m| == BLOCK_SIZE
    ensures BLOCK_SIZE * |FileLeaves(disk, RootInode(disk))| == BLOCK_SIZE
    ensures Splice(m, 0, Data(disk, FileLeaves(disk, RootInode(disk)))) == RootDir(disk)
  {
    SmallFileOneZone(disk, RootInode(disk));
    DataOne(disk, RootInode(disk).zones[ZONE_IND_L0]);
    SpliceWhole(m, RootDir(disk));
  }

  /**
   * `strcmp (d_dir + 2 + d, "linux")` reads no further than the name field of
   * the entry at `d`, so it compares that entry's name.
   */
  lemma EntryNameCompare(dir: seq<byte>, d: nat)
    requires d + DIRENT_SIZE <= |dir|
    ensures Target(LINUX) && d + D_NAME + CLen(LINUX) < |dir|
    ensures CStrCmp(dir[d + D_NAME..], LINUX) == CStrCmp(EntryName(dir, d), LINUX)
  {
    LinuxIsTarget();
    StrCmpReadsPrefix(dir[d + D_NAME..], LINUX, NAME_LEN);
    assert dir[d + D_NAME..][..NAME_LEN] == EntryName(dir, d);
  }

  class Loader {
    const disk: Disk

    const sbBlock: array<byte>
    const iBlock: array<byte>
    /** `z_block [0]` and `z_block [1]`: the pointer block of each indirection level. */
    const zBlock0: array<byte>
    const zBlock1: array<byte>
    const dDir: array<byte>
    const loadSeg: array<byte>

    var ibFirst: nat
    var iNow: nat
    /** `i_data`, as the slot of the current inode in `iBlock`. */
    var iData: Slot
    var fPos: nat
    var trace: seq<Event>

    /** The buffers are distinct and each has the size the loader gives it. */
    ghost predicate Valid()
    {
      && sbBlock.Length == BLOCK_SIZE && iBlock.Length == BLOCK_SIZE
      && zBlock0.Length == BLOCK_SIZE && zBlock1.Length == BLOCK_SIZE
      && dDir.Length == BLOCK_SIZE && loadSeg.Length == LOAD_SIZE
      && sbBlock != iBlock && sbBlock != zBlock0 && sbBlock != zBlock1 && sbBlock != dDir
      && iBlock != zBlock0 && iBlock != zBlock1 && iBlock != dDir
      && zBlock0 != zBlock1 && zBlock0 != dDir && zBlock1 != dDir
      && loadSeg != sbBlock && loadSeg != iBlock && loadSeg != zBlock0 && loadSeg != zBlock1 && loadSeg != dDir
    }

    constructor (disk: Disk)
      ensures Valid() && this.disk == disk
      ensures trace == [] && iNow == 0 && fPos == 0
    {
      this.disk := disk;
      sbBlock := new byte[BLOCK_SIZE];
      iBlock := new byte[BLOCK_SIZE];
      zBlock0 := new byte[BLOCK_SIZE];
      zBlock1 := new byte[BLOCK_SIZE];
      dDir := new byte[BLOCK_SIZE];
      loadSeg := new byte[LOAD_SIZE];
      ibFirst, iNow, iData, fPos := 0, 0, 0, 0;
      trace := [];
    }

    /** `z_block [level]`. */
    function ZBlock(level: nat): array<byte>
      requires level < LEVEL_MAX
    {
      if level == 0 then zBlock0 else zBlock1
    }

    /** The pointer buffers a walk at `level` overwrites: those of the levels below it. */
    function ZBlocksBelow(level: nat): set<array<byte>>
      requires level <= LEVEL_MAX
    {
      if level == 0 then {} else if level == 1 then {zBlock0} else {zBlock0, zBlock1}
    }

    /** Where data blocks go: the directory buffer for the root inode, else the load segment. */
    function Dest(): array<byte>
      reads this`iNow
    {
      if iNow != 0 then loadSeg else dDir
    }

    /** `*i_data`: the current inode, read from the inode block buffer. */
    function CurInode(): (ino: Inode)
      requires Valid()
      reads this`iData, iBlock
      ensures |ino.zones| == ZONE_IND_END
    {
      DecodeInode(iBlock[..], iData)
    }

    /** `i_data->i_size`: the size field of the current inode, read in place. */
    function CurSize(): nat
      requires Valid()
      reads this`iData, iBlock
    {
      CurInode().size
    }

    /** `disk_read (sect, 2, dst + off, …)`: two sectors copied into the buffer. */
    method DiskRead(sect: nat, dst: array<byte>, off: nat)
      requires off + BLOCK_SIZE <= dst.Length
      modifies dst
      ensures dst[..] == Splice(old(dst[..]), off, ReadSectors(disk, sect))
    {
      var b := ReadSectors(disk, sect);
      forall i | 0 <= i < BLOCK_SIZE {
        dst[off + i] := b[i];
      }
      SpliceAt(old(dst[..]), off, b);
      assert forall i :: 0 <= i < dst.Length ==> dst[..][i] == Splice(old(dst[..]), off, b)[i];
    }

    method LoadSuper()
      requires Valid()
      modifies this`ibFirst, sbBlock
      ensures sbBlock[..] == ReadSectors(disk, SUPER_SECTOR)
      ensures ibFirst == InodeTableStartOf(disk)
    {
      DiskRead(SUPER_SECTOR, sbBlock, 0);
      SpliceWhole(old(sbBlock[..]), ReadSectors(disk, SUPER_SECTOR));
      var sb := DecodeSuper(sbBlock[..]);
      ibFirst := 2 + sb.imapBlocks + sb.zmapBlocks;
    }

    method LoadInode()
      requires Valid()
      modifies this`iData, iBlock
      ensures iBlock[..] == InodeTableBlock(disk, ibFirst, iNow)
      ensures iData == InodeSlot(iNow)
      ensures CurInode() == InodeOf(disk, ibFirst, iNow)
      ensures Dest()[..] == old(Dest()[..])
    {
      var ib := ibFirst + iNow / INODES_PER_BLOCK;
      DiskRead(Sector(ib), iBlock, 0);
      SpliceWhole(old(iBlock[..]), Block(disk, ib));
      iData := iNow % INODES_PER_BLOCK;
    }

    /**
     * One turn of the loop of `load_zone`, for the zone number `zone`: at
     * level 0 its block is copied to the current offset, which then moves on
     * by one block; above, the block is read into `z_block [level - 1]` and
     * walked in full one level down. `size` is the size of the current inode.
     */
    method LoadStep(level: nat, zone: nat, ghost dst: array<byte>, ghost size: nat)
      requires Valid() && level <= LEVEL_MAX
      requires dst == Dest() && size == CurSize()
      requires fPos + BLOCK_SIZE * |StepLeaves(disk, level, zone, fPos, size)| <= dst.Length
      modifies this`fPos, dst, ZBlocksBelow(level)
      ensures var step := StepLeaves(disk, level, zone, old(fPos), size);
        && fPos == old(fPos) + BLOCK_SIZE * |step|
        && dst[..] == Splice(old(dst[..]), old(fPos), Data(disk, step))
      ensures unchanged(iBlock)
      decreases level, 0
    {
      StepUnfold(disk, level, zone, fPos, size);
      if level == 0 {
        DiskRead(Sector(zone), Dest(), fPos);
        DataOne(disk, zone);
        fPos := fPos + BLOCK_SIZE;
      } else {
        var next := level - 1;
        ghost var before := ZBlock(next)[..];
        DiskRead(Sector(zone), ZBlock(next), 0);
        SpliceWhole(before, Block(disk, zone));
        LoadZone(next, ZBlock(next), 0, ZONES_PER_BLOCK, dst, size,
                 Walk(disk, next, Words(ZBlock(next)[..]), 0, ZONES_PER_BLOCK, fPos, size));
      }
    }

    /**
     * `load_zone (level, z_start, z_end)`: walk the zone words `zStart` to
     * `zEnd` of `src` for the current inode. The zones copied are those of
     * `Walk`, laid one after another in the destination from the current
     * offset on, and the offset moves past them.
     */
    method LoadZone(level: nat, src: array<byte>, zStart: nat, zEnd: nat,
                    ghost dst: array<byte>, ghost size: nat, ghost whole: seq<nat>)
      requires Valid() && level <= LEVEL_MAX
      requires zStart <= zEnd && 2 * zEnd <= src.Length
      requires dst == Dest() && size == CurSize() && src != dst && src !in ZBlocksBelow(level)
      requires whole == Walk(disk, level, Words(src[..]), zStart, zEnd, fPos, size)
      requires fPos + BLOCK_SIZE * |whole| <= dst.Length
      modifies this`fPos, dst, ZBlocksBelow(level)
      ensures fPos == old(fPos) + BLOCK_SIZE * |whole|
      ensures dst[..] == Splice(old(dst[..]), old(fPos), Data(disk, whole))
      ensures unchanged(iBlock)
      decreases level, 1
    {
      ghost var ws := Words(old(src[..]));
      ghost var p0, m0 := fPos, dst[..];
      ghost var acc: seq<nat> := [];
      var z := zStart;
      while z < zEnd
        invariant zStart <= z <= zEnd
        invariant unchanged(src) && unchanged(iBlock) && size == CurSize()
        invariant fPos == p0 + BLOCK_SIZE * |acc|
        invariant whole == acc + Walk(disk, level, ws, z, zEnd, fPos, size)
        invariant p0 + BLOCK_SIZE * |whole| <= |m0|
        invariant dst[..] == Splice(m0, p0, Data(disk, acc))
      {
        var zone := src[2 * z] as int + 0x100 * (src[2 * z + 1] as int);
        assert zone == ws[z];
        ghost var pos, step := fPos, StepLeaves(disk, level, zone, fPos, size);
        ghost var next := pos + BLOCK_SIZE * |step|;
        var z' := z + 1;
        WalkNext(disk, level, ws, z, z', zEnd, pos, size, acc, whole, step, next);
        ghost var cur := dst[..];
        LoadStep(level, zone, dst, size);
        assert CurSize() == size && fPos == next;
        assert dst[..] == Splice(cur, pos, Data(disk, step));
        assert cur == Splice(m0, p0, Data(disk, acc));
        PlaceAt(disk, m0, p0, acc, pos, step);
        acc := acc + step;
        if level == 0 && fPos >= CurSize() {
          break;
        }
        z := z';
      }
      if z == zEnd {
        WalkDone(disk, level, ws, z, fPos, size, acc, whole);
      }
    }

    /**
     * The single-indirect walk of `load_file ()`, once the direct zones
     * `direct` are in place and the offset is still below the size.
     */
    method LoadIndirect(ghost dst: array<byte>, ghost size: nat, ghost m0: seq<byte>,
                        ghost direct: seq<nat>, ghost indirect: seq<nat>)
      requires Valid() && iNow != 0 && dst == Dest() && size == CurSize()
      requires indirect == Walk(disk, 1, Words(iBlock[..]), ZoneWord(iData, ZONE_IND_L1), ZoneWord(iData, ZONE_IND_L2), fPos, size)
      requires fPos == BLOCK_SIZE * |direct| && |direct| + |indirect| <= MAX_FILE_ZONES
      requires |m0| == dst.Length && dst[..] == Splice(m0, 0, Data(disk, direct))
      modifies this`fPos, dst, zBlock0
      ensures fPos == BLOCK_SIZE * |direct + indirect| && fPos <= dst.Length
      ensures dst[..] == Splice(m0, 0, Data(disk, direct + indirect))
      ensures unchanged(iBlock)
    {
      ghost var m1 := dst[..];
      assert dst.Length == BLOCK_SIZE * MAX_FILE_ZONES;
      LoadZone(1, iBlock, ZoneWord(iData, ZONE_IND_L1), ZoneWord(iData, ZONE_IND_L2), dst, size, indirect);
      assert dst[..] == Splice(m1, BLOCK_SIZE * |direct|, Data(disk, indirect));
      PlaceAt(disk, m0, 0, direct, BLOCK_SIZE * |direct|, indirect);
    }

    /**
     * The zone walks of `load_file ()`, once the inode is loaded and the
     * offset reset: the direct zones and, while the offset is still below
     * the size, the single-indirect zones of the current inode.
     */
    method LoadFileZones(ghost m0: seq<byte>)
      requires Valid() && fPos == 0 && CurInode() == InodeOf(disk, ibFirst, iNow) && Dest()[..] == m0
      requires iNow == 0 ==> InodeOf(disk, ibFirst, 0).size <= BLOCK_SIZE
      modifies this`fPos, Dest(), zBlock0
      ensures var l := FileLeaves(disk, InodeOf(disk, ibFirst, iNow));
        && fPos == BLOCK_SIZE * |l| && fPos <= Dest().Length
        && Dest()[..] == Splice(m0, 0, Data(disk, l))
      ensures unchanged(iBlock)
    {
      ghost var dst, ino := Dest(), CurInode();
      ghost var blk, slot := iBlock[..], iData;
      ghost var size := CurSize();
      assert DecodeInode(blk, slot) == ino && size == ino.size;
      ghost var direct, indirect := InodeWalks(disk, blk, slot);
      LoadZone(0, iBlock, ZoneWord(iData, ZONE_IND_L0), ZoneWord(iData, ZONE_IND_L1), dst, size, direct);
      assert iBlock[..] == blk && iData == slot && CurSize() == size && fPos == BLOCK_SIZE * |direct|;
      assert InodeOf(disk, ibFirst, iNow) == ino && Dest() == dst;
      if fPos >= CurSize() {
        assert FileLeaves(disk, ino) == direct;
        return;
      }
      assert FileLeaves(disk, ino) == direct + indirect;
      LoadIndirect(dst, size, m0, direct, indirect);
      assert InodeOf(disk, ibFirst, iNow) == ino && Dest() == dst;
    }

    /**
     * `load_file ()`: load inode `iNow`, then copy its direct zones and, while
     * the offset is still below the size, its single-indirect zones, to the
     * destination from offset 0 on. The root directory must fit in one block,
     * the size of `d_dir`.
     */
    method LoadFile()
      requires Valid()
      requires iNow == 0 ==> InodeOf(disk, ibFirst, 0).size <= BLOCK_SIZE
      modifies this`iData, iBlock, this`fPos, Dest(), zBlock0
      ensures iData == InodeSlot(iNow) && iBlock[..] == InodeTableBlock(disk, ibFirst, iNow)
      ensures CurInode() == InodeOf(disk, ibFirst, iNow) && CurSize() == InodeOf(disk, ibFirst, iNow).size
      ensures var l := FileLeaves(disk, InodeOf(disk, ibFirst, iNow));
        && fPos == BLOCK_SIZE * |l| && fPos <= Dest().Length
        && Dest()[..] == Splice(old(Dest()[..]), 0, Data(disk, l))
    {
      LoadInode();
      fPos := 0;
      LoadFileZones(Dest()[..]);
    }

    /**
     * The scan loop of `load_prog ()` over `d_dir`: entry offsets from 0 in
     * steps of one entry while below the size of the current inode, stopping
     * at the first used entry whose name is `linux`. The result is that
     * entry's offset, or an offset at or past the size when there is none.
     */
    method ScanDir() returns (d: nat)
      requires Valid() && CurSize() <= BLOCK_SIZE
      ensures FindKernel(dDir[..], CurSize()) == if d < CurSize() then Some(d) else None
    {
      ghost var dir, size := dDir[..], CurSize();
      LinuxIsTarget();
      d := 0;
      while d < CurSize()
        invariant d % DIRENT_SIZE == 0 && FindEntry(dir, size, LINUX, d) == FindKernel(dir, size)
      {
        FindEntryStep(dir, size, LINUX, d);
        var ino := dDir[d] as int + 0x100 * (dDir[d + 1] as int);
        assert ino == EntryIno(dir, d);
        if ino != 0 {
          EntryNameCompare(dir, d);
          var r := StrCmp(dDir, d + D_NAME, LINUX);
          if r == 0 {
            return;
          }
        }
        d := d + DIRENT_SIZE;
      }
    }

    /**
     * The first part of `load_prog ()`: read the superblock, then load the
     * root directory, inode index 0, into `d_dir`.
     */
    method LoadRoot()
      requires Valid()
      requires RootInode(disk).size <= BLOCK_SIZE
      modifies this`ibFirst, sbBlock, this`iNow, this`iData, iBlock, this`fPos, dDir, zBlock0
      ensures ibFirst == InodeTableStartOf(disk) && iNow == 0
      ensures dDir[..] == RootDir(disk) && CurInode() == RootInode(disk) && CurSize() == RootInode(disk).size
      ensures unchanged(loadSeg)
    {
      ghost var d0 := dDir[..];
      LoadSuper();
      iNow := 0;
      assert dDir[..] == d0 && InodeOf(disk, ibFirst, iNow) == RootInode(disk);
      LoadFile();
      assert ibFirst == InodeTableStartOf(disk) && iNow == 0;
      RootDirLoaded(disk, d0);
    }

    /**
     * The hit branch of the scan in `load_prog ()`, for the entry at offset
     * `d` of `d_dir`: say so, make that entry's inode current, load it into
     * its destination and jump to it.
     */
    method LoadKernel(d: nat)
      requires Valid() && d + DIRENT_SIZE <= BLOCK_SIZE
      requires EntryIno(dDir[..], d) != 0
      requires EntryIno(dDir[..], d) == 1 ==> InodeOf(disk, ibFirst, 0).size <= BLOCK_SIZE
      modifies this`iNow, this`iData, iBlock, this`fPos, dDir, loadSeg, zBlock0, this`trace
      ensures iNow == EntryIno(old(dDir[..]), d) - 1
      ensures trace == old(trace) + [Puts(FOUND_MESSAGE)] + [RunProg]
      ensures var l := FileLeaves(disk, InodeOf(disk, ibFirst, iNow));
        && fPos == BLOCK_SIZE * |l| && fPos <= Dest().Length
        && (iNow != 0 ==> loadSeg[..] == Splice(old(loadSeg[..]), 0, Data(disk, l)) && dDir[..] == old(dDir[..]))
        && (iNow == 0 ==> dDir[..] == Splice(old(dDir[..]), 0, Data(disk, l)) && loadSeg[..] == old(loadSeg[..]))
    {
      trace := trace + [Puts(FOUND_MESSAGE)];
      iNow := (dDir[d] as int + 0x100 * (dDir[d + 1] as int)) - 1;
      LoadFile();
      trace := trace + [RunProg];
    }

    /**
     * `load_prog ()`: read the superblock, load the root directory (inode
     * index 0) into `d_dir`, and scan its entries for `linux`. On a hit, say
     * so, load that inode into the load segment and jump to it; otherwise do
     * nothing more. The root directory must fit in one block.
     */
    method LoadProg()
      requires Valid()
      requires RootInode(disk).size <= BLOCK_SIZE
      modifies this`ibFirst, sbBlock, this`iNow, this`iData, iBlock, this`fPos
      modifies dDir, loadSeg, zBlock0, this`trace
      ensures ibFirst == InodeTableStartOf(disk) && dDir[..] == RootDir(disk)
      ensures match FindKernel(RootDir(disk), RootInode(disk).size)
        case None => iNow == 0 && trace == old(trace) && loadSeg[..] == old(loadSeg[..])
        case Some(e) =>
          && iNow == EntryIno(RootDir(disk), e) - 1
          && trace == old(trace) + [Puts(FOUND_MESSAGE)] + [RunProg]
          && var l := FileLeaves(disk, InodeOf(disk, ibFirst, iNow));
             && fPos == BLOCK_SIZE * |l|
             && (iNow != 0 ==> fPos <= loadSeg.Length && loadSeg[..] == Splice(old(loadSeg[..]), 0, Data(disk, l)))
             && (iNow == 0 ==> loadSeg[..] == old(loadSeg[..]))
    {
      ghost var seg0 := loadSeg[..];
      LoadRoot();
      ghost var dir, size, ib := RootDir(disk), RootInode(disk).size, ibFirst;
      assert loadSeg[..] == seg0 && trace == old(trace);
      var d := ScanDir();
      if d < CurSize() {
        assert FindKernel(dir, size) == Some(d);
        LoadKernel(d);
        if iNow == 0 {
          RootDirLoaded(disk, dir);
        }
      }
    }
  }
}
