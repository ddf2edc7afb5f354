/**
 * The scan of the root directory for the kernel's name: entries are taken at
 * fixed strides from offset 0 while the offset is below the directory size,
 * and each entry's name is compared with the target by `strcmp`.
 */
module DirScan {
  import opened MinixLayout
  import opened CString

  datatype Option<T> = None | Some(value: T)

  /** The name the loader looks for, as the C literal `"linux"`. */
  const LINUX: seq<byte> := [0x6c, 0x69, 0x6e, 0x75, 0x78, 0]

  /** A target name that the comparison can decide inside an entry's name field. */
  predicate Target(t: seq<byte>)
  {
    0 in t && CLen(t) < NAME_LEN
  }

  /** The directory as loaded: one block, of which the first `size` bytes are entries. */
  predicate Directory(dir: seq<byte>, size: nat)
  {
    |dir| == BLOCK_SIZE && size <= BLOCK_SIZE
  }

  /** Reference meaning of a hit: a used entry whose name is `t`, terminator included. */
  predicate Matches(dir: seq<byte>, d: nat, t: seq<byte>)
    requires Target(t) && d + DIRENT_SIZE <= |dir|
  {
    EntryIno(dir, d) != 0 && EntryName(dir, d)[..CLen(t) + 1] == t[..CLen(t) + 1]
  }

  /** An entry offset the scan visits: a multiple of the stride below the size. */
  predicate Visited(size: nat, lo: nat, d: nat)
  {
    lo <= d < size && d % DIRENT_SIZE == 0
  }

  lemma EntryInBlock(dir: seq<byte>, size: nat, d: nat)
    requires Directory(dir, size) && d < size && d % DIRENT_SIZE == 0
    ensures d + DIRENT_SIZE <= |dir|
  {
  }

  /**
   * The scan from entry offset `d` on, skipping unused entries (inode 0):
   * the offset of the first used entry whose name compares equal to `t`.
   */
  function FindEntry(dir: seq<byte>, size: nat, t: seq<byte>, d: nat): (r: Option<nat>)
    requires Directory(dir, size) && Target(t) && d % DIRENT_SIZE == 0
    ensures r.Some? ==>
      && Visited(size, d, r.value) && r.value + DIRENT_SIZE <= |dir|
      && EntryIno(dir, r.value) != 0 && CStrCmp(EntryName(dir, r.value), t) == 0
    decreases size - d
  {
    if d >= size then None
    else
      EntryInBlock(dir, size, d);
      if EntryIno(dir, d) != 0 && CStrCmp(EntryName(dir, d), t) == 0 then Some(d)
      else FindEntry(dir, size, t, d + DIRENT_SIZE)
  }

  /** One step of the scan at a visited offset. */
  lemma FindEntryStep(dir: seq<byte>, size: nat, t: seq<byte>, d: nat)
    requires Directory(dir, size) && Target(t) && d % DIRENT_SIZE == 0 && d < size
    ensures d + DIRENT_SIZE <= |dir| && (d + DIRENT_SIZE) % DIRENT_SIZE == 0
    ensures FindEntry(dir, size, t, d)
         == if EntryIno(dir, d) != 0 && CStrCmp(EntryName(dir, d), t) == 0 then Some(d)
            else FindEntry(dir, size, t, d + DIRENT_SIZE)
  {
  }

  /**
   * The scan finds the first matching entry at or after `d`, and reports none
   * only when no visited entry matches.
   */
  lemma {:induction false} FindEntryCorrect(dir: seq<byte>, size: nat, t: seq<byte>, d: nat)
    requires Directory(dir, size) && Target(t) && d % DIRENT_SIZE == 0
    ensures match FindEntry(dir, size, t, d)
      case Some(e) =>
        Visited(size, d, e) && e + DIRENT_SIZE <= |dir| && Matches(dir, e, t)
        && forall e': nat :: Visited(size, d, e') && e' < e ==> !Matches(dir, e', t)
      case None =>
        forall e': nat :: Visited(size, d, e') ==> !Matches(dir, e', t)
    decreases size - d
  {
    if d < size {
      EntryInBlock(dir, size, d);
      StrCmpZeroIff(EntryName(dir, d), t);
      FindEntryCorrect(dir, size, t, d + DIRENT_SIZE);
      forall e' | Visited(size, d, e') && e' != d
        ensures Visited(size, d + DIRENT_SIZE, e')
      {
      }
    }
  }

  /** A hit always names a used entry, so `inode - 1` is a valid zero-based index. */
  lemma FoundEntryIsUsed(dir: seq<byte>, size: nat, t: seq<byte>)
    requires Directory(dir, size) && Target(t)
    ensures FindEntry(dir, size, t, 0).Some? ==>
      var e := FindEntry(dir, size, t, 0).value;
      e + DIRENT_SIZE <= |dir| && 1 <= EntryIno(dir, e) && EntryIno(dir, e) - 1 < 0xFFFF
  {
    FindEntryCorrect(dir, size, t, 0);
  }

  lemma LinuxIsTarget()
    ensures Target(LINUX) && CLen(LINUX) == 5
  {
    assert LINUX[1..][1..][1..][1..][1..] == [0];
  }

  /**
   * The scan as the loop at boot_minix.c is written: every entry is compared,
   * used or not.
   */
  function FindEntryAsWritten(dir: seq<byte>, size: nat, t: seq<byte>, d: nat): (r: Option<nat>)
    requires Directory(dir, size) && Target(t) && d % DIRENT_SIZE == 0
    ensures r.Some? ==>
      && Visited(size, d, r.value) && r.value + DIRENT_SIZE <= |dir|
      && CStrCmp(EntryName(dir, r.value), t) == 0
    decreases size - d
  {
    if d >= size then None
    else
      EntryInBlock(dir, size, d);
      if CStrCmp(EntryName(dir, d), t) == 0 then Some(d)
      else FindEntryAsWritten(dir, size, t, d + DIRENT_SIZE)
  }

  /** C's `/` on `int`: truncating toward zero. */
  function CQuot(a: int, b: nat): int
    requires b > 0
  {
    if a >= 0 then a / b else -((-a) / b)
  }

  /**
   * C's `%` on `int`: truncating, so a negative dividend gives a non-positive
   * remainder, and the quotient and remainder recompose the dividend.
   */
  function CRem(a: int, b: nat): (r: int)
    requires b > 0
    ensures -(b as int) < r < b
    ensures a >= 0 ==> r == a % b
    ensures a < 0 ==> r <= 0
    ensures a == b * CQuot(a, b) + r
  {
    if a >= 0 then a % b
    else
      assert -a == b * ((-a) / b) + (-a) % b;
      -((-a) % b)
  }

  /** A directory whose first entry is a removed `linux` (inode 0) and nothing else. */
  function StaleDir(): (dir: seq<byte>)
    ensures Directory(dir, DIRENT_SIZE)
  {
    [0, 0] + LINUX + seq(BLOCK_SIZE - 8, _ => 0)
  }

  /**
   * As written, the scan accepts the removed entry; `i_now` becomes -1 and,
   * with `INODES_PER_BLOCK` a signed `int` constant, the inode slot
   * `i_now % INODES_PER_BLOCK` is -1, one inode before the inode block
   * buffer. The corrected scan finds nothing.
   */
  lemma StaleEntryAsWritten()
    ensures Target(LINUX)
    ensures FindEntryAsWritten(StaleDir(), DIRENT_SIZE, LINUX, 0) == Some(0)
    ensures EntryIno(StaleDir(), 0) == 0
    ensures CRem(EntryIno(StaleDir(), 0) - 1, INODES_PER_BLOCK) == -1
    ensures FindEntry(StaleDir(), DIRENT_SIZE, LINUX, 0) == None
  {
    LinuxIsTarget();
    var dir := StaleDir();
    assert EntryName(dir, 0) == LINUX + seq(8, _ => 0);
    StrCmpZeroIff(EntryName(dir, 0), LINUX);
    assert EntryName(dir, 0)[..6] == LINUX;
  }

  /** One directory entry in its on-disk form: inode number, then the zero-padded name. */
  function Entry(ino: nat, name: seq<byte>): (e: seq<byte>)
    requires ino < 0x1_0000 && |name| <= NAME_LEN
    ensures |e| == DIRENT_SIZE
  {
    [ino % 0x100, ino / 0x100] + name + seq(NAME_LEN - |name|, _ => 0)
  }

  const README_NAME: seq<byte> := [0x72, 0x65, 0x61, 0x64, 0x6d, 0x65]
  const MISSING: seq<byte> := [0x6d, 0x69, 0x73, 0x73, 0x69, 0x6e, 0x67, 0]

  /** A root directory holding `linux` (inode 5) and then `readme` (inode 3). */
  function ExampleDir(): (dir: seq<byte>)
    ensures Directory(dir, 2 * DIRENT_SIZE)
  {
    Entry(5, LINUX[..5]) + Entry(3, README_NAME) + seq(BLOCK_SIZE - 2 * DIRENT_SIZE, _ => 0)
  }

  /** Scanning that directory for `linux` stops at the first entry and yields inode index 4. */
  lemma ScanExampleFindsLinux()
    ensures Target(LINUX)
    ensures FindEntry(ExampleDir(), 2 * DIRENT_SIZE, LINUX, 0) == Some(0)
    ensures EntryIno(ExampleDir(), 0) - 1 == 4
  {
    LinuxIsTarget();
    var dir := ExampleDir();
    assert EntryName(dir, 0) == LINUX + seq(8, _ => 0);
    StrCmpZeroIff(EntryName(dir, 0), LINUX);
    assert EntryName(dir, 0)[..6] == LINUX;
  }

  /** The bytes of that directory the scans look at. */
  lemma ExampleDirHeads()
    ensures EntryIno(ExampleDir(), 0) == 5 && EntryName(ExampleDir(), 0)[0] == 0x6c
    ensures EntryIno(ExampleDir(), DIRENT_SIZE) == 3 && EntryName(ExampleDir(), DIRENT_SIZE)[0] == 0x72
  {
    var dir := ExampleDir();
    var e0, e1 := Entry(5, LINUX[..5]), Entry(3, README_NAME);
    assert dir == e0 + e1 + seq(BLOCK_SIZE - 2 * DIRENT_SIZE, _ => 0);
    assert dir[..DIRENT_SIZE] == e0;
    assert dir[DIRENT_SIZE..2 * DIRENT_SIZE] == e1;
  }

  /** Scanning it for `missing` finds nothing. */
  lemma ScanExampleMissing()
    ensures Target(MISSING)
    ensures FindEntry(ExampleDir(), 2 * DIRENT_SIZE, MISSING, 0) == None
  {
    assert MISSING[1..][1..][1..][1..][1..][1..][1..] == [0];
    var dir := ExampleDir();
    ExampleDirHeads();
    assert CStrCmp(EntryName(dir, 0), MISSING) != 0;
    assert CStrCmp(EntryName(dir, DIRENT_SIZE), MISSING) != 0;
    assert FindEntry(dir, 2 * DIRENT_SIZE, MISSING, 2 * DIRENT_SIZE) == None;
    assert FindEntry(dir, 2 * DIRENT_SIZE, MISSING, DIRENT_SIZE) == None;
  }
}
