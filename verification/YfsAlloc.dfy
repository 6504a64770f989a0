/** The two bitmap allocators: why a first-fit scan without a bound check stays inside the image. */
module YfsAlloc {
  import opened YfsTree
  import opened YfsState

  /** A set that holds `k` consecutive numbers has at least `k` members. */
  lemma {:induction false} RunIsCounted(lo: nat, k: nat, xs: set<nat>)
    requires forall n: nat :: lo <= n < lo + k ==> n in xs
    ensures k <= |xs|
  {
    if k > 0 {
      var last := lo + (k - 1);
      RunIsCounted(lo, k - 1, xs - {last});
    }
  }

  /** Every bit before bit j of block i is set. */
  ghost predicate AllSetBefore(disk: seq<Block>, start: nat, i: nat, j: nat) {
    forall a: nat, b: nat :: b < BITS_PER_BLOCK && (a < i || (a == i && b < j)) ==> Bit(disk, start, a, b)
  }

  /** Pigeonhole: a prefix of set bits is no longer than the set they stand for. */
  lemma SetPrefix(disk: seq<Block>, start: nat, blocks: nat, base: nat, used: set<nat>, i: nat, j: nat)
    requires BitsMatch(disk, start, blocks, base, used)
    requires AllSetBefore(disk, start, i, j) && j <= BITS_PER_BLOCK
    requires i < blocks || (i == blocks && j == 0)
    ensures i * BITS_PER_BLOCK + j <= |used|
  {
    forall n: nat | base <= n < base + (i * BITS_PER_BLOCK + j) ensures n in used {
      var a, b := (n - base) / BITS_PER_BLOCK, (n - base) % BITS_PER_BLOCK;
      assert Bit(disk, start, a, b);
    }
    RunIsCounted(base, i * BITS_PER_BLOCK + j, used);
  }

  /** While a block is free, the first zero bit stands for a block of the data area. */
  lemma FirstFreeBlock(s: Snap, i: nat, j: nat)
    requires Geometry(s.sb, |s.disk|) && BlockMapOk(s) && s.sb.freeBlocks > 0
    requires i < MapBlocks(s.sb.totalBlocks) && j < BITS_PER_BLOCK
    requires AllSetBefore(s.disk, s.sb.mapBlockStart, i, j) && !Bit(s.disk, s.sb.mapBlockStart, i, j)
    ensures s.sb.dataStart + i * BITS_PER_BLOCK + j < s.sb.totalBlocks
    ensures s.sb.dataStart + i * BITS_PER_BLOCK + j !in s.owner
  {
    SetPrefix(s.disk, s.sb.mapBlockStart, MapBlocks(s.sb.totalBlocks), s.sb.dataStart, s.owner.Keys, i, j);
  }

  /** While a block is free, the scan finds a zero bit: the inconsistency panic cannot happen. */
  lemma ScanFindsBlock(s: Snap)
    requires Geometry(s.sb, |s.disk|) && BlockMapOk(s) && s.sb.freeBlocks > 0
    ensures !AllSetBefore(s.disk, s.sb.mapBlockStart, MapBlocks(s.sb.totalBlocks), 0)
  {
    var n := MapBlocks(s.sb.totalBlocks);
    assert s.sb.totalBlocks <= n * BITS_PER_BLOCK;
    if AllSetBefore(s.disk, s.sb.mapBlockStart, n, 0) {
      SetPrefix(s.disk, s.sb.mapBlockStart, n, s.sb.dataStart, s.owner.Keys, n, 0);
    }
  }

  /** Rewriting one bitmap block with bit j set changes exactly bit (i, j). */
  ghost predicate BitRaised(disk: seq<Block>, disk2: seq<Block>, start: nat, blocks: nat, i: nat, j: nat) {
    forall a: nat, b: nat :: a < blocks && b < BITS_PER_BLOCK ==>
      (Bit(disk2, start, a, b) <==> Bit(disk, start, a, b) || (a == i && b == j))
  }

  lemma RaiseBit(disk: seq<Block>, disk2: seq<Block>, start: nat, blocks: nat, i: nat, j: nat)
    requires i < blocks && j < BITS_PER_BLOCK && start + blocks <= |disk| && |disk2| == |disk|
    requires forall a :: start <= a < start + blocks && a != start + i ==> disk2[a] == disk[a]
    requires disk2[start + i] == Bitmap(BitsOf(disk[start + i])[j := true])
    ensures BitRaised(disk, disk2, start, blocks, i, j)
  {
    forall a: nat, b: nat | a < blocks && b < BITS_PER_BLOCK
      ensures Bit(disk2, start, a, b) <==> Bit(disk, start, a, b) || (a == i && b == j)
    {
      if a != i {
        assert disk2[start + a] == disk[start + a];
      }
    }
  }

  lemma BitNumber(a: nat, b: nat, i: nat, j: nat)
    requires b < BITS_PER_BLOCK && j < BITS_PER_BLOCK
    ensures a * BITS_PER_BLOCK + b == i * BITS_PER_BLOCK + j <==> a == i && b == j
  {
  }

  lemma BitsMatchRaised(disk: seq<Block>, disk2: seq<Block>, start: nat, blocks: nat, base: nat, used: set<nat>,
                        i: nat, j: nat, n: nat)
    requires i < blocks && j < BITS_PER_BLOCK && n == base + i * BITS_PER_BLOCK + j
    requires BitsMatch(disk, start, blocks, base, used) && BitRaised(disk, disk2, start, blocks, i, j)
    ensures BitsMatch(disk2, start, blocks, base, used + {n})
  {
    forall a: nat, b: nat | a < blocks && b < BITS_PER_BLOCK
      ensures Bit(disk2, start, a, b) <==> base + a * BITS_PER_BLOCK + b in used + {n}
    {
      BitNumber(a, b, i, j);
      assert Bit(disk, start, a, b) <==> base + a * BITS_PER_BLOCK + b in used;
    }
  }

  /** Setting the bit of a fresh block keeps the bitmap equal to the blocks in use. */
  lemma BlockBitSet(s: Snap, s2: Snap, i: nat, j: nat, lba: nat, o: Owner)
    requires BlockMapOk(s) && 0 < s.sb.freeBlocks && s2.sb == WithFree(s.sb, s.sb.freeBlocks - 1)
    requires i < MapBlocks(s.sb.totalBlocks) && j < BITS_PER_BLOCK
    requires lba == s.sb.dataStart + i * BITS_PER_BLOCK + j < s.sb.totalBlocks
    requires lba !in s.owner && s2.owner == s.owner[lba := o]
    requires BitRaised(s.disk, s2.disk, s.sb.mapBlockStart, MapBlocks(s.sb.totalBlocks), i, j)
    ensures BlockMapOk(s2)
  {
    var blocks := MapBlocks(s.sb.totalBlocks);
    assert BitsMatch(s2.disk, s.sb.mapBlockStart, blocks, s.sb.dataStart, s.owner.Keys + {lba}) by {
      BitsMatchRaised(s.disk, s2.disk, s.sb.mapBlockStart, blocks, s.sb.dataStart, s.owner.Keys, i, j, lba);
    }
    assert s2.owner.Keys == s.owner.Keys + {lba};
  }

  lemma MapInImage(s: Snap, i: nat)
    requires Inv(s) && i < MapBlocks(s.sb.totalBlocks)
    ensures 1 < s.sb.mapBlockStart + i < |s.disk|
  {
  }

  lemma ScanStops(s: Snap, i: nat, j: nat)
    requires Inv(s) && s.sb.freeBlocks > 0
    requires i < MapBlocks(s.sb.totalBlocks) && j < BITS_PER_BLOCK
    requires AllSetBefore(s.disk, s.sb.mapBlockStart, i, j) && !Bit(s.disk, s.sb.mapBlockStart, i, j)
    ensures s.sb.dataStart + i * BITS_PER_BLOCK + j < |s.disk| == s.sb.totalBlocks
    ensures s.sb.dataStart + i * BITS_PER_BLOCK + j !in s.owner
  {
    FirstFreeBlock(s, i, j);
  }

  lemma ScanEnds(s: Snap)
    requires Inv(s) && s.sb.freeBlocks > 0
    ensures !AllSetBefore(s.disk, s.sb.mapBlockStart, MapBlocks(s.sb.totalBlocks), 0)
  {
    ScanFindsBlock(s);
  }

  /** The four writes of alloc_block, seen as one change of state. */
  ghost predicate BlockWrites(s: Snap, s2: Snap, i: nat, j: nat, lba: nat, o: Owner) {
    && 0 < s.sb.freeBlocks
    && i < MapBlocks(s.sb.totalBlocks) && j < BITS_PER_BLOCK
    && lba == s.sb.dataStart + i * BITS_PER_BLOCK + j < |s.disk|
    && s.sb.mapBlockStart + i < |s.disk| && 1 < |s.disk|
    && s2.disk == s.disk[s.sb.mapBlockStart + i := Bitmap(BitsOf(s.disk[s.sb.mapBlockStart + i])[j := true])]
                        [1 := Super(s2.sb)][lba := Zero]
    && s2 == Snap(s2.disk, WithFree(s.sb, s.sb.freeBlocks - 1), s.owner[lba := o], s.inos, s.dirs)
  }

  lemma BlockWritesShape(s: Snap, s2: Snap, i: nat, j: nat, lba: nat, o: Owner)
    requires Geometry(s.sb, |s.disk|) && MetaOk(s) && BlockWrites(s, s2, i, j, lba, o) && lba !in s.owner
    ensures Allocated(s, s2, lba, o) && Synced(s2)
    ensures s2.sb.dataStart <= |s2.disk| && MetaOk(s2)
  {
  }

  lemma BlockWritesBits(s: Snap, s2: Snap, i: nat, j: nat, lba: nat, o: Owner)
    requires Geometry(s.sb, |s.disk|) && BlockMapOk(s) && BlockWrites(s, s2, i, j, lba, o) && lba !in s.owner
    ensures BlockMapOk(s2)
  {
    RaiseBit(s.disk, s2.disk, s.sb.mapBlockStart, MapBlocks(s.sb.totalBlocks), i, j);
    BlockBitSet(s, s2, i, j, lba, o);
  }

  lemma AllocatedAt(s: Snap, s2: Snap, i: nat, j: nat, lba: nat, o: Owner)
    requires Inv(s) && o.ino in s.inos && (TablePath(o.path) || DataPath(o.path))
    requires BlockWrites(s, s2, i, j, lba, o) && lba !in s.owner
    ensures Allocated(s, s2, lba, o) && Synced(s2) && Inv(s2)
  {
    hide BlockWrites, Allocated;
    BlockWritesShape(s, s2, i, j, lba, o);
    BlockWritesBits(s, s2, i, j, lba, o);
    AllocInv(s, s2, lba, o);
  }

  // ------------------------------------------------------------------
  // Inodes
  // ------------------------------------------------------------------

  /** alloc_inode as a change of state. */
  ghost predicate InodeTaken(s: Snap, s2: Snap, ino: nat) {
    && 0 < ino < s.sb.totalInodes
    && ino !in s.inos
    && 0 < s.sb.freeInodes
    && |s2.disk| == |s.disk|
    && s2.sb == s.sb.(freeInodes := s.sb.freeInodes - 1)
    && s2.inos == s.inos + {ino}
    && s2.owner == s.owner
    && s2.dirs == s.dirs
    && (forall p :: 0 <= p < |s.disk| && p != 1 && !(s.sb.mapInodeStart <= p < s.sb.mapBlockStart) ==>
         s2.disk[p] == s.disk[p])
  }

  /** While an inode is free, some inode number is not in use. */
  lemma ScanFindsInode(s: Snap)
    requires InodeMapOk(s) && s.sb.freeInodes > 0
    ensures exists n: nat :: n < s.sb.totalInodes && n !in s.inos
  {
    if forall n: nat :: n < s.sb.totalInodes ==> n in s.inos {
      RunIsCounted(0, s.sb.totalInodes, s.inos);
    }
  }

  lemma InodeTakenReads(s: Snap, s2: Snap, ino: nat)
    requires Geometry(s.sb, |s.disk|) && InBlocks(s) && InodeTaken(s, s2, ino)
    ensures forall i: nat :: i < s.sb.totalInodes ==> GetInode(s2, i) == GetInode(s, i)
    ensures forall p :: p in s.owner ==> s2.disk[p] == s.disk[p]
  {
    forall i: nat | i < s.sb.totalInodes ensures GetInode(s2, i) == GetInode(s, i) {
      InodeInTable(s, i);
    }
  }

  lemma InodeTakenTables(s: Snap, s2: Snap, ino: nat)
    requires Geometry(s.sb, |s.disk|) && InBlocks(s) && InodeTaken(s, s2, ino)
    requires NodesOk(s) && OwnersOk(s) && DataOk(s) && TablesOk(s.disk, s.owner)
    ensures NodesOk(s2) && OwnersOk(s2) && DataOk(s2) && TablesOk(s2.disk, s2.owner)
  {
    InodeTakenReads(s, s2, ino);
    forall p: nat | IsTableBlock(s2.owner, p) ensures p < |s2.disk| && TableOk(s2.disk, s2.owner, p) {
      assert TableOk(s.disk, s.owner, p);
    }
  }

  lemma InodeTakenLinks(s: Snap, s2: Snap, ino: nat)
    requires Geometry(s.sb, |s.disk|) && InBlocks(s) && InodeTaken(s, s2, ino)
    requires InodeMapOk(s) && NodesOk(s) && DirLinks(s)
    ensures DirLinks(s2)
  {
    InodeTakenReads(s, s2, ino);
    forall d | d in s2.dirs ensures Linked(s2, s2.dirs[d]) {
      assert Linked(s, s.dirs[d]);
    }
  }

  lemma InodeTakenDir(s: Snap, s2: Snap, ino: nat, d: nat)
    requires Inv(s) && InodeTaken(s, s2, ino) && d in s.dirs
    ensures DirHolds(s2.disk, GetInode(s2, d), s2.dirs[d])
  {
    hide DirHolds;
    InodeTakenReads(s, s2, ino);
    OwnedSameDir(s, s2, d, GetInode(s, d), s.dirs[d]);
  }

  lemma InodeTakenDirs(s: Snap, s2: Snap, ino: nat)
    requires Inv(s) && InodeTaken(s, s2, ino)
    ensures DirsOk(s2)
  {
    hide DirHolds, DirLinks;
    InodeTakenLinks(s, s2, ino);
    forall d | d in s2.dirs ensures DirHolds(s2.disk, GetInode(s2, d), s2.dirs[d]) {
      InodeTakenDir(s, s2, ino, d);
    }
  }

  lemma InodeTakenMaps(s: Snap, s2: Snap, i: nat, j: nat, ino: nat)
    requires Geometry(s.sb, |s.disk|) && BlockMapOk(s) && InodeMapOk(s) && MetaOk(s) && InodeTaken(s, s2, ino)
    requires i < MapBlocks(s.sb.totalInodes) && j < BITS_PER_BLOCK && ino == i * BITS_PER_BLOCK + j
    requires BitRaised(s.disk, s2.disk, s.sb.mapInodeStart, MapBlocks(s.sb.totalInodes), i, j)
    ensures Geometry(s2.sb, |s2.disk|) && BlockMapOk(s2) && InodeMapOk(s2)
  {
    BitsMatchFrame(s.disk, s2.disk, s.sb.mapBlockStart, MapBlocks(s.sb.totalBlocks), s.sb.dataStart, s.owner.Keys);
    BitsMatchRaised(s.disk, s2.disk, s.sb.mapInodeStart, MapBlocks(s.sb.totalInodes), 0, s.inos, i, j, ino);
  }

  lemma InodeTakenInv(s: Snap, s2: Snap, i: nat, j: nat, ino: nat)
    requires Inv(s) && InodeTaken(s, s2, ino) && s2.sb.dataStart <= |s2.disk| && MetaOk(s2)
    requires i < MapBlocks(s.sb.totalInodes) && j < BITS_PER_BLOCK && ino == i * BITS_PER_BLOCK + j
    requires BitRaised(s.disk, s2.disk, s.sb.mapInodeStart, MapBlocks(s.sb.totalInodes), i, j)
    ensures Inv(s2)
  {
    assert Geometry(s2.sb, |s2.disk|) && BlockMapOk(s2) && InodeMapOk(s2) by { InodeTakenMaps(s, s2, i, j, ino); }
    assert NodesOk(s2) && OwnersOk(s2) && DataOk(s2) && TablesOk(s2.disk, s2.owner) by { InodeTakenTables(s, s2, ino); }
    assert DirsOk(s2) by { InodeTakenDirs(s, s2, ino); }
  }

  /** The two writes of alloc_inode, seen as one change of state. */
  ghost predicate InodeBitWrites(s: Snap, s2: Snap, i: nat, j: nat, ino: nat) {
    && 0 < s.sb.freeInodes
    && i < MapBlocks(s.sb.totalInodes) && j < BITS_PER_BLOCK
    && 0 < ino == i * BITS_PER_BLOCK + j < s.sb.totalInodes
    && s.sb.mapInodeStart + i < |s.disk| && 1 < |s.disk|
    && s2.disk == s.disk[s.sb.mapInodeStart + i := Bitmap(BitsOf(s.disk[s.sb.mapInodeStart + i])[j := true])]
                        [1 := Super(s2.sb)]
    && s2 == Snap(s2.disk, s.sb.(freeInodes := s.sb.freeInodes - 1), s.owner, s.inos + {ino}, s.dirs)
  }

  lemma InodeBitShape(s: Snap, s2: Snap, i: nat, j: nat, ino: nat)
    requires Geometry(s.sb, |s.disk|) && MetaOk(s) && InodeBitWrites(s, s2, i, j, ino) && ino !in s.inos
    ensures InodeTaken(s, s2, ino) && Synced(s2)
    ensures s2.sb.dataStart <= |s2.disk| && MetaOk(s2)
    ensures BitRaised(s.disk, s2.disk, s.sb.mapInodeStart, MapBlocks(s.sb.totalInodes), i, j)
  {
    RaiseBit(s.disk, s2.disk, s.sb.mapInodeStart, MapBlocks(s.sb.totalInodes), i, j);
  }

  lemma InodeTakenAt(s: Snap, s2: Snap, i: nat, j: nat, ino: nat)
    requires Inv(s) && InodeBitWrites(s, s2, i, j, ino) && !Bit(s.disk, s.sb.mapInodeStart, i, j)
    ensures InodeTaken(s, s2, ino) && Synced(s2) && Inv(s2)
  {
    hide InodeTaken, BitRaised, MetaOk;
    InodeBitShape(s, s2, i, j, ino);
    InodeTakenInv(s, s2, i, j, ino);
  }

  predicate UsedBelow(inos: set<nat>, total: nat, bound: nat) {
    forall n: nat :: n < bound && n < total ==> n in inos
  }

  lemma UsedNone(inos: set<nat>, total: nat)
    ensures UsedBelow(inos, total, 0)
  {
  }

  lemma UsedNext(inos: set<nat>, total: nat, bound: nat)
    requires UsedBelow(inos, total, bound) && bound in inos
    ensures UsedBelow(inos, total, bound + 1)
  {
  }

  lemma UsedAll(inos: set<nat>, total: nat, bound: nat, more: nat)
    requires UsedBelow(inos, total, bound) && (total <= bound || more == bound)
    ensures UsedBelow(inos, total, more)
  {
  }

  lemma InodeMapInImage(s: Snap, i: nat)
    requires Inv(s) && i < MapBlocks(s.sb.totalInodes)
    ensures 1 < s.sb.mapInodeStart + i < |s.disk|
  {
  }

  lemma InodeBitUsed(s: Snap, i: nat, j: nat)
    requires Inv(s) && i < MapBlocks(s.sb.totalInodes) && j < BITS_PER_BLOCK
    ensures Bit(s.disk, s.sb.mapInodeStart, i, j) <==> i * BITS_PER_BLOCK + j in s.inos
    ensures 0 in s.inos
  {
  }

  /** The inode scan covers every inode number, so while one is free it ends with a hit. */
  lemma InodeScanEnds(s: Snap)
    requires Inv(s) && s.sb.freeInodes > 0
    ensures !UsedBelow(s.inos, s.sb.totalInodes, MapBlocks(s.sb.totalInodes) * BITS_PER_BLOCK)
  {
    ScanFindsInode(s);
  }

  // ------------------------------------------------------------------
  // Conservation
  // ------------------------------------------------------------------

  /** Number n of an area that starts at `base` has its bit set. */
  predicate BitOf(disk: seq<Block>, start: nat, base: nat, n: nat) {
    base <= n && Bit(disk, start, (n - base) / BITS_PER_BLOCK, (n - base) % BITS_PER_BLOCK)
  }

  /** The data blocks whose bitmap bit is set, read off the disk. */
  function BlocksInUse(s: Snap): set<nat> {
    set p: nat | s.sb.dataStart <= p < s.sb.totalBlocks && BitOf(s.disk, s.sb.mapBlockStart, s.sb.dataStart, p)
  }

  /** The inode numbers whose bitmap bit is set, read off the disk. */
  function InodesInUse(s: Snap): set<nat> {
    set n: nat | n < s.sb.totalInodes && BitOf(s.disk, s.sb.mapInodeStart, 0, n)
  }

  /** In every consistent image, set bits and free counters add up to the capacity. */
  lemma Conservation(s: Snap)
    requires Inv(s)
    ensures |BlocksInUse(s)| + s.sb.freeBlocks == s.sb.totalBlocks - s.sb.dataStart
    ensures |InodesInUse(s)| + s.sb.freeInodes == s.sb.totalInodes
  {
    hide DirsOk, TablesOk, NodesOk, DataOk, OwnersOk, MetaOk, BitOf;
    assert BlocksInUse(s) == s.owner.Keys by {
      forall p: nat | s.sb.dataStart <= p < s.sb.totalBlocks
        ensures p in BlocksInUse(s) <==> p in s.owner.Keys
      {
        BitStandsFor(s.disk, s.sb.mapBlockStart, MapBlocks(s.sb.totalBlocks), s.sb.dataStart, s.owner.Keys, p);
      }
    }
    assert InodesInUse(s) == s.inos by {
      forall n: nat | n < s.sb.totalInodes ensures n in InodesInUse(s) <==> n in s.inos {
        BitStandsFor(s.disk, s.sb.mapInodeStart, MapBlocks(s.sb.totalInodes), 0, s.inos, n);
      }
    }
  }

  lemma BitStandsFor(disk: seq<Block>, start: nat, blocks: nat, base: nat, used: set<nat>, n: nat)
    requires BitsMatch(disk, start, blocks, base, used) && base <= n < base + blocks * BITS_PER_BLOCK
    ensures BitOf(disk, start, base, n) <==> n in used
  {
    var i, j := (n - base) / BITS_PER_BLOCK, (n - base) % BITS_PER_BLOCK;
    assert n == base + i * BITS_PER_BLOCK + j;
    assert Bit(disk, start, i, j) <==> base + i * BITS_PER_BLOCK + j in used;
  }
}
