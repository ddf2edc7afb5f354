/**
 * What the recursive zone walk of the boot loader reads and where it puts it,
 * as functions of the disk: the data zones it copies, in order, and the bytes
 * those zones place at increasing offsets of the destination.
 */
module ZoneWalk {
  import opened MinixLayout

  /** Direct zones, and the most data zones a direct plus single-indirect walk reaches. */
  const DIRECT_ZONES: nat := ZONE_IND_L1 - ZONE_IND_L0
  const MAX_FILE_ZONES: nat := DIRECT_ZONES + ZONES_PER_BLOCK

  /**
   * The data zones a walk at indirection `level` over the zone pointers `ptrs`
   * copies, starting at file offset `pos`, for a file of `size` bytes.
   * At level 0 each pointer's block is copied and the walk stops right after
   * the block that brings the offset to `size` or beyond. At a higher level
   * each pointer's block is a pointer array walked in full one level down;
   * the higher level does not look at the offset itself.
   */
  function Leaves(disk: Disk, level: nat, ptrs: seq<nat>, pos: nat, size: nat): seq<nat>
    decreases level, |ptrs|
  {
    if ptrs == [] then []
    else if level == 0 then
      [ptrs[0]] + (if pos + BLOCK_SIZE >= size then [] else Leaves(disk, 0, ptrs[1..], pos + BLOCK_SIZE, size))
    else
      var sub := Leaves(disk, level - 1, Words(Block(disk, ptrs[0])), pos, size);
      sub + Leaves(disk, level, ptrs[1..], pos + BLOCK_SIZE * |sub|, size)
  }

  /** The contents of the data zones `zs`, one block after another. */
  function Data(disk: Disk, zs: seq<nat>): (d: seq<byte>)
    ensures |d| == BLOCK_SIZE * |zs|
  {
    if zs == [] then [] else Block(disk, zs[0]) + Data(disk, zs[1..])
  }

  /** `m` with `d` written over it from offset `p` on; every other byte kept. */
  function Splice(m: seq<byte>, p: nat, d: seq<byte>): (r: seq<byte>)
    requires p + |d| <= |m|
    ensures |r| == |m|
    decreases |d|
  {
    if d == [] then m else Splice(m[p := d[0]], p + 1, d[1..])
  }

  lemma {:induction false} SpliceAt(m: seq<byte>, p: nat, d: seq<byte>)
    requires p + |d| <= |m|
    ensures forall i :: 0 <= i < |m| ==> Splice(m, p, d)[i] == if p <= i < p + |d| then d[i - p] else m[i]
    decreases |d|
  {
    if d != [] {
      SpliceAt(m[p := d[0]], p + 1, d[1..]);
    }
  }

  lemma SpliceWhole(m: seq<byte>, d: seq<byte>)
    requires |d| == |m|
    ensures Splice(m, 0, d) == d
  {
    SpliceAt(m, 0, d);
  }

  /** Two writes that meet end to start are one write of the two contents. */
  lemma {:induction false} SpliceAdjacent(m: seq<byte>, p: nat, d1: seq<byte>, d2: seq<byte>)
    requires p + |d1| + |d2| <= |m|
    ensures Splice(Splice(m, p, d1), p + |d1|, d2) == Splice(m, p, d1 + d2)
    decreases |d1|
  {
    if d1 != [] {
      assert (d1 + d2)[0] == d1[0] && (d1 + d2)[1..] == d1[1..] + d2;
      SpliceAdjacent(m[p := d1[0]], p + 1, d1[1..], d2);
    } else {
      assert d1 + d2 == d2;
    }
  }

  lemma {:induction false} DataAppend(disk: Disk, a: seq<nat>, b: seq<nat>)
    ensures Data(disk, a + b) == Data(disk, a) + Data(disk, b)
  {
    if a == [] {
      assert a + b == b;
    } else {
      assert (a + b)[1..] == a[1..] + b;
      DataAppend(disk, a[1..], b);
      assert Data(disk, a + b) == Block(disk, a[0]) + Data(disk, a[1..] + b);
    }
  }

  /** A write of `Data (more)` right after `Data (acc)` extends the first write. */
  lemma PlaceAt(disk: Disk, m: seq<byte>, p: nat, acc: seq<nat>, q: nat, more: seq<nat>)
    requires q == p + BLOCK_SIZE * |acc| && q + BLOCK_SIZE * |more| <= |m|
    ensures Splice(Splice(m, p, Data(disk, acc)), q, Data(disk, more)) == Splice(m, p, Data(disk, acc + more))
  {
    SpliceAdjacent(m, p, Data(disk, acc), Data(disk, more));
    DataAppend(disk, acc, more);
  }

  /**
   * The same walk as `load_zone` performs it: by index `z` over the pointer
   * array `ws`, up to but excluding index `zEnd`.
   */
  function Walk(disk: Disk, level: nat, ws: seq<nat>, z: nat, zEnd: nat, pos: nat, size: nat): seq<nat>
    requires zEnd <= |ws|
    decreases level, |ws| - z
  {
    if z >= zEnd then []
    else
      var step := StepLeaves(disk, level, ws[z], pos, size);
      var pos' := pos + BLOCK_SIZE * |step|;
      step + (if level == 0 && pos' >= size then [] else Walk(disk, level, ws, z + 1, zEnd, pos', size))
  }

  /** The zones pointer `zone` of a walk at `level` contributes, from offset `pos` on. */
  function StepLeaves(disk: Disk, level: nat, zone: nat, pos: nat, size: nat): seq<nat>
    decreases level, 0
  {
    if level == 0 then [zone]
    else Walk(disk, level - 1, Words(Block(disk, zone)), 0, ZONES_PER_BLOCK, pos, size)
  }

  /** The walk by index computes exactly the zones `Leaves` gives for the slice it covers. */
  lemma {:induction false} WalkIsLeaves(disk: Disk, level: nat, ws: seq<nat>, z: nat, zEnd: nat, pos: nat, size: nat)
    requires z <= zEnd <= |ws|
    ensures Walk(disk, level, ws, z, zEnd, pos, size) == Leaves(disk, level, ws[z..zEnd], pos, size)
    decreases level, |ws| - z, 1
  {
    if z < zEnd {
      if level == 0 {
        DirectWalkIsLeaves(disk, ws, z, zEnd, pos, size);
      } else {
        IndirectWalkIsLeaves(disk, level, ws, z, zEnd, pos, size);
      }
    }
  }

  lemma {:induction false} DirectWalkIsLeaves(disk: Disk, ws: seq<nat>, z: nat, zEnd: nat, pos: nat, size: nat)
    requires z < zEnd <= |ws|
    ensures Walk(disk, 0, ws, z, zEnd, pos, size) == Leaves(disk, 0, ws[z..zEnd], pos, size)
    decreases |ws| - z
  {
    var ptrs := ws[z..zEnd];
    assert ptrs[0] == ws[z] && ptrs[1..] == ws[z + 1..zEnd];
    if pos + BLOCK_SIZE < size && z + 1 < zEnd {
      DirectWalkIsLeaves(disk, ws, z + 1, zEnd, pos + BLOCK_SIZE, size);
    }
  }

  lemma {:induction false} IndirectWalkIsLeaves(disk: Disk, level: nat, ws: seq<nat>, z: nat, zEnd: nat, pos: nat, size: nat)
    requires 0 < level && z < zEnd <= |ws|
    ensures Walk(disk, level, ws, z, zEnd, pos, size) == Leaves(disk, level, ws[z..zEnd], pos, size)
    decreases level, |ws| - z, 0
  {
    var inner := Words(Block(disk, ws[z]));
    WalkIsLeaves(disk, level - 1, inner, 0, ZONES_PER_BLOCK, pos, size);
    var sub := IndirectUnfold(disk, level, ws, z, zEnd, pos, size);
    WalkIsLeaves(disk, level, ws, z + 1, zEnd, pos + BLOCK_SIZE * |sub|, size);
  }

  lemma IndirectUnfold(disk: Disk, level: nat, ws: seq<nat>, z: nat, zEnd: nat, pos: nat, size: nat) returns (sub: seq<nat>)
    requires 0 < level && z < zEnd <= |ws|
    ensures var inner := Words(Block(disk, ws[z]));
      && sub == Leaves(disk, level - 1, inner, pos, size)
      && (Walk(disk, level - 1, inner, 0, ZONES_PER_BLOCK, pos, size) == Leaves(disk, level - 1, inner[0..ZONES_PER_BLOCK], pos, size) ==>
          Walk(disk, level, ws, z, zEnd, pos, size) == sub + Walk(disk, level, ws, z + 1, zEnd, pos + BLOCK_SIZE * |sub|, size))
      && Leaves(disk, level, ws[z..zEnd], pos, size) == sub + Leaves(disk, level, ws[z + 1..zEnd], pos + BLOCK_SIZE * |sub|, size)
  {
    var ptrs := ws[z..zEnd];
    assert ptrs[0] == ws[z] && ptrs[1..] == ws[z + 1..zEnd];
    var inner := Words(Block(disk, ws[z]));
    assert inner[0..ZONES_PER_BLOCK] == inner;
    sub := Leaves(disk, level - 1, inner, pos, size);
  }

  /**
   * One step of the walk by index: the zones of the pointer at `z`, which
   * bring the offset to `next`, then the walk from `z + 1` unless level 0
   * reached `size`.
   */
  lemma WalkNext(disk: Disk, level: nat, ws: seq<nat>, z: nat, z': nat, zEnd: nat, pos: nat, size: nat,
                 acc: seq<nat>, whole: seq<nat>, step: seq<nat>, next: nat)
    requires z < zEnd <= |ws| && z' == z + 1 && whole == acc + Walk(disk, level, ws, z, zEnd, pos, size)
    requires step == StepLeaves(disk, level, ws[z], pos, size) && next == pos + BLOCK_SIZE * |step|
    ensures level == 0 && next >= size ==> whole == acc + step
    ensures !(level == 0 && next >= size) ==> whole == (acc + step) + Walk(disk, level, ws, z', zEnd, next, size)
  {
  }

  /**
   * At level 0 the walk copies at most one block per pointer in its range:
   * it never reads past `zEnd`.
   */
  lemma {:induction false} Level0WalkBound(disk: Disk, ws: seq<nat>, z: nat, zEnd: nat, pos: nat, size: nat)
    requires z <= zEnd <= |ws|
    ensures |Walk(disk, 0, ws, z, zEnd, pos, size)| <= zEnd - z
    ensures z < zEnd ==> |Walk(disk, 0, ws, z, zEnd, pos, size)| >= 1
    decreases zEnd - z
  {
    if z < zEnd && pos + BLOCK_SIZE < size {
      Level0WalkBound(disk, ws, z + 1, zEnd, pos + BLOCK_SIZE, size);
    }
  }

  /** A walk over no pointers copies nothing. */
  lemma WalkDone(disk: Disk, level: nat, ws: seq<nat>, z: nat, pos: nat, size: nat, acc: seq<nat>, whole: seq<nat>)
    requires z <= |ws| && whole == acc + Walk(disk, level, ws, z, z, pos, size)
    ensures whole == acc
  {
  }

  /** A data zone is copied as itself; a pointer zone is walked in full one level down. */
  lemma StepUnfold(disk: Disk, level: nat, zone: nat, pos: nat, size: nat)
    ensures level == 0 ==> StepLeaves(disk, level, zone, pos, size) == [zone]
    ensures level > 0 ==>
      StepLeaves(disk, level, zone, pos, size) == Walk(disk, level - 1, Words(Block(disk, zone)), 0, ZONES_PER_BLOCK, pos, size)
  {
  }

  /** The contents of one data zone are that zone's block. */
  lemma DataOne(disk: Disk, zone: nat)
    ensures Data(disk, [zone]) == Block(disk, zone)
  {
    assert Data(disk, [zone]) == Block(disk, zone) + Data(disk, []);
  }

  /** The `j`-th zone of a walk lands exactly `j` blocks after its start. */
  lemma {:induction false} DataBlockAt(disk: Disk, zs: seq<nat>, j: nat)
    requires j < |zs|
    ensures Data(disk, zs)[BLOCK_SIZE * j..BLOCK_SIZE * (j + 1)] == Block(disk, zs[j])
  {
    if j > 0 {
      DataBlockAt(disk, zs[1..], j - 1);
      var d := Data(disk, zs);
      assert d == Block(disk, zs[0]) + Data(disk, zs[1..]);
      assert d[BLOCK_SIZE * j..BLOCK_SIZE * (j + 1)]
          == Data(disk, zs[1..])[BLOCK_SIZE * (j - 1)..BLOCK_SIZE * j];
    }
  }

  /** The file offset after `j` blocks copied from offset `pos`. */
  function PosAfter(pos: nat, j: nat): nat
  {
    pos + BLOCK_SIZE * j
  }

  /**
   * At level 0 the walk copies a prefix of the pointers, at least one when
   * there is one; every block but the last left the offset below `size`, and
   * the walk ended early only because the last one reached `size`.
   */
  lemma {:induction false} Level0Shape(disk: Disk, ptrs: seq<nat>, pos: nat, size: nat)
    ensures var l := Leaves(disk, 0, ptrs, pos, size);
      && |l| <= |ptrs| && l == ptrs[..|l|]
      && (ptrs != [] ==> |l| >= 1)
      && (forall j :: 1 <= j < |l| ==> PosAfter(pos, j) < size)
      && (|l| < |ptrs| ==> PosAfter(pos, |l|) >= size)
  {
    if ptrs != [] && pos + BLOCK_SIZE < size {
      var rest := Leaves(disk, 0, ptrs[1..], pos + BLOCK_SIZE, size);
      Level0Shape(disk, ptrs[1..], pos + BLOCK_SIZE, size);
      var l := Leaves(disk, 0, ptrs, pos, size);
      assert l == [ptrs[0]] + rest;
      forall j | 1 <= j < |l|
        ensures PosAfter(pos, j) < size
      {
        if j > 1 {
          assert PosAfter(pos + BLOCK_SIZE, j - 1) == PosAfter(pos, j);
        }
      }
      assert PosAfter(pos + BLOCK_SIZE, |rest|) == PosAfter(pos, |l|);
    }
  }

  /** The data zones `load_file` copies for inode `ino`. */
  function FileLeaves(disk: Disk, ino: Inode): (l: seq<nat>)
    requires |ino.zones| == ZONE_IND_END
    ensures 1 <= |l| <= MAX_FILE_ZONES
  {
    Level0Shape(disk, ino.zones[ZONE_IND_L0..ZONE_IND_L1], 0, ino.size);
    var direct := Leaves(disk, 0, ino.zones[ZONE_IND_L0..ZONE_IND_L1], 0, ino.size);
    if BLOCK_SIZE * |direct| >= ino.size then direct
    else
      assert ino.zones[ZONE_IND_L1..ZONE_IND_L2] == [ino.zones[ZONE_IND_L1]];
      IndirectWalk(disk, ino.zones[ZONE_IND_L1], BLOCK_SIZE * |direct|, ino.size);
      Level0Shape(disk, Words(Block(disk, ino.zones[ZONE_IND_L1])), BLOCK_SIZE * |direct|, ino.size);
      direct + Leaves(disk, 1, ino.zones[ZONE_IND_L1..ZONE_IND_L2], BLOCK_SIZE * |direct|, ino.size)
  }

  /** Whether `load_file` goes on to the single-indirect zone of `ino`. */
  predicate ReadsIndirect(disk: Disk, ino: Inode): (r: bool)
    requires |ino.zones| == ZONE_IND_END
    ensures r <==> ino.size > BLOCK_SIZE * DIRECT_ZONES
  {
    Level0Shape(disk, ino.zones[ZONE_IND_L0..ZONE_IND_L1], 0, ino.size);
    BLOCK_SIZE * |Leaves(disk, 0, ino.zones[ZONE_IND_L0..ZONE_IND_L1], 0, ino.size)| < ino.size
  }

  /** The single-indirect walk of `load_file` is the level-0 walk of the pointer block. */
  lemma IndirectWalk(disk: Disk, z: nat, pos: nat, size: nat)
    ensures Leaves(disk, 1, [z], pos, size) == Leaves(disk, 0, Words(Block(disk, z)), pos, size)
  {
    var sub := Leaves(disk, 0, Words(Block(disk, z)), pos, size);
    assert [z][1..] == [];
    assert Leaves(disk, 1, [z], pos, size) == sub + [];
  }

  /**
   * The zones `load_file` copies: a prefix of the direct zones, followed, only
   * when the direct zones fall short of the size, by a prefix of the pointers
   * in the single-indirect block. The double-indirect zone is never read.
   */
  lemma FileLeavesShape(disk: Disk, ino: Inode)
    requires |ino.zones| == ZONE_IND_END
    ensures var l := FileLeaves(disk, ino);
      && 1 <= |l| <= MAX_FILE_ZONES
      && (!ReadsIndirect(disk, ino) ==> |l| <= DIRECT_ZONES && l == ino.zones[..|l|])
      && (ReadsIndirect(disk, ino) ==>
            |l| > DIRECT_ZONES
            && l[..DIRECT_ZONES] == ino.zones[ZONE_IND_L0..ZONE_IND_L1]
            && l[DIRECT_ZONES..] == Words(Block(disk, ino.zones[ZONE_IND_L1]))[..|l| - DIRECT_ZONES])
  {
    var direct := ino.zones[ZONE_IND_L0..ZONE_IND_L1];
    Level0Shape(disk, direct, 0, ino.size);
    var d := Leaves(disk, 0, direct, 0, ino.size);
    if ReadsIndirect(disk, ino) {
      var ptrs := Words(Block(disk, ino.zones[ZONE_IND_L1]));
      assert ino.zones[ZONE_IND_L1..ZONE_IND_L2] == [ino.zones[ZONE_IND_L1]];
      IndirectWalk(disk, ino.zones[ZONE_IND_L1], BLOCK_SIZE * |d|, ino.size);
      Level0Shape(disk, ptrs, BLOCK_SIZE * |d|, ino.size);
      assert |d| == DIRECT_ZONES;
      var l := FileLeaves(disk, ino);
      assert l == d + Leaves(disk, 0, ptrs, BLOCK_SIZE * |d|, ino.size);
      assert l[..DIRECT_ZONES] == d;
    } else {
      assert ino.zones[..|d|] == direct[..|d|];
    }
  }

  /**
   * The two walks of `load_file`: the direct zones from offset 0, then the
   * single-indirect zone from where they ended, the second only when the
   * first fell short of the size. Both fit in the direct plus
   * single-indirect capacity, and a file of at most one block needs no
   * second walk.
   */
  lemma FileParts(disk: Disk, ino: Inode) returns (direct: seq<nat>, indirect: seq<nat>)
    requires |ino.zones| == ZONE_IND_END
    ensures direct == Leaves(disk, 0, ino.zones[ZONE_IND_L0..ZONE_IND_L1], 0, ino.size)
    ensures indirect == Leaves(disk, 1, ino.zones[ZONE_IND_L1..ZONE_IND_L2], BLOCK_SIZE * |direct|, ino.size)
    ensures FileLeaves(disk, ino) == if BLOCK_SIZE * |direct| >= ino.size then direct else direct + indirect
    ensures |direct| <= DIRECT_ZONES && |FileLeaves(disk, ino)| <= MAX_FILE_ZONES
    ensures ino.size <= BLOCK_SIZE ==> BLOCK_SIZE * |direct| >= ino.size && |direct| == 1
  {
    direct := Leaves(disk, 0, ino.zones[ZONE_IND_L0..ZONE_IND_L1], 0, ino.size);
    indirect := Leaves(disk, 1, ino.zones[ZONE_IND_L1..ZONE_IND_L2], BLOCK_SIZE * |direct|, ino.size);
    Level0Shape(disk, ino.zones[ZONE_IND_L0..ZONE_IND_L1], 0, ino.size);
    FileLeavesShape(disk, ino);
    if ino.size <= BLOCK_SIZE {
      SmallFileOneZone(disk, ino);
    }
  }

  /** A file of at most one block is one direct zone; the indirect zone is not touched. */
  lemma SmallFileOneZone(disk: Disk, ino: Inode)
    requires |ino.zones| == ZONE_IND_END
    requires ino.size <= BLOCK_SIZE
    ensures FileLeaves(disk, ino) == [ino.zones[ZONE_IND_L0]]
    ensures !ReadsIndirect(disk, ino)
  {
    var direct := ino.zones[ZONE_IND_L0..ZONE_IND_L1];
    assert Leaves(disk, 0, direct, 0, ino.size) == [direct[0]];
  }

  /**
   * For a file within the direct plus single-indirect capacity, the offset
   * the walk ends at is the smallest positive multiple of the block size that
   * is not below the file size.
   */
  lemma FileEndsAtRoundUp(disk: Disk, ino: Inode)
    requires |ino.zones| == ZONE_IND_END
    requires ino.size <= BLOCK_SIZE * MAX_FILE_ZONES
    ensures var n := |FileLeaves(disk, ino)|;
      n >= 1 && BLOCK_SIZE * n >= ino.size && (n == 1 || BLOCK_SIZE * (n - 1) < ino.size)
  {
    var direct := ino.zones[ZONE_IND_L0..ZONE_IND_L1];
    Level0Shape(disk, direct, 0, ino.size);
    var d := Leaves(disk, 0, direct, 0, ino.size);
    assert |d| > 1 ==> PosAfter(0, |d| - 1) < ino.size;
    if ReadsIndirect(disk, ino) {
      var ptrs := Words(Block(disk, ino.zones[ZONE_IND_L1]));
      assert ino.zones[ZONE_IND_L1..ZONE_IND_L2] == [ino.zones[ZONE_IND_L1]];
      IndirectWalk(disk, ino.zones[ZONE_IND_L1], BLOCK_SIZE * |d|, ino.size);
      Level0Shape(disk, ptrs, BLOCK_SIZE * |d|, ino.size);
      var i := Leaves(disk, 0, ptrs, BLOCK_SIZE * |d|, ino.size);
      assert |i| > 1 ==> PosAfter(BLOCK_SIZE * |d|, |i| - 1) < ino.size;
      assert |FileLeaves(disk, ino)| == |d| + |i|;
    }
  }

  /**
   * A file beyond that capacity would need the double-indirect zone, which
   * `load_file` never reads: the walk stops at the capacity, short of the size.
   */
  lemma LargeFileTruncated(disk: Disk, ino: Inode)
    requires |ino.zones| == ZONE_IND_END
    requires ino.size > BLOCK_SIZE * MAX_FILE_ZONES
    ensures |FileLeaves(disk, ino)| == MAX_FILE_ZONES
    ensures BLOCK_SIZE * |FileLeaves(disk, ino)| < ino.size
  {
    var direct := ino.zones[ZONE_IND_L0..ZONE_IND_L1];
    Level0Shape(disk, direct, 0, ino.size);
    var d := Leaves(disk, 0, direct, 0, ino.size);
    var ptrs := Words(Block(disk, ino.zones[ZONE_IND_L1]));
    assert ino.zones[ZONE_IND_L1..ZONE_IND_L2] == [ino.zones[ZONE_IND_L1]];
    IndirectWalk(disk, ino.zones[ZONE_IND_L1], BLOCK_SIZE * |d|, ino.size);
    Level0Shape(disk, ptrs, BLOCK_SIZE * |d|, ino.size);
  }
}
