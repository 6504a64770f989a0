/** The consistency of a whole YulaFS image, and what block-map growth leaves untouched. */
module YfsState {
  import opened YfsTree

  datatype Result<+T> = Ok(value: T) | Panic(message: string)

  /** A snapshot of an image together with the ghost bookkeeping of the proof. */
  datatype Snap = Snap(disk: seq<Block>, sb: Superblock, owner: Owners, inos: set<nat>,
                       dirs: map<nat, map<string, nat>>)

  function WithFree(sb: Superblock, free: nat): Superblock {
    sb.(freeBlocks := free)
  }

  function WithBlock(s: Snap, lba: nat, b: Block): Snap
    requires lba < |s.disk|
  {
    s.(disk := s.disk[lba := b])
  }

  function MapBlocks(n: nat): nat {
    (n + BITS_PER_BLOCK - 1) / BITS_PER_BLOCK
  }

  function InodeBlocks(n: nat): nat {
    (n * 128 + BLOCK_SIZE - 1) / BLOCK_SIZE
  }

  /** Superblock, inode bitmap, block bitmap, inode table and data follow each other without overlap. */
  predicate Geometry(sb: Superblock, blocks: nat) {
    && sb.totalBlocks == blocks
    && 128 <= sb.totalInodes
    && sb.mapInodeStart == 2
    && sb.mapBlockStart == sb.mapInodeStart + MapBlocks(sb.totalInodes)
    && sb.inodeTableStart == sb.mapBlockStart + MapBlocks(sb.totalBlocks)
    && sb.dataStart == sb.inodeTableStart + InodeBlocks(sb.totalInodes)
    && sb.dataStart <= sb.totalBlocks
  }

  /** Bit j of the i-th block of the bitmap that begins at block `start`. */
  predicate Bit(disk: seq<Block>, start: nat, i: nat, j: nat)
    requires j < BITS_PER_BLOCK
  {
    start + i < |disk| && BitsOf(disk[start + i])[j]
  }

  /** The bitmap that begins at `start` is the set `used`, numbered from `base`. */
  ghost predicate BitsMatch(disk: seq<Block>, start: nat, blocks: nat, base: nat, used: set<nat>) {
    forall i: nat, j: nat :: i < blocks && j < BITS_PER_BLOCK ==>
      (Bit(disk, start, i, j) <==> base + i * BITS_PER_BLOCK + j in used)
  }

  /** A bitmap whose blocks did not change reads the same. */
  lemma BitsMatchFrame(disk: seq<Block>, disk2: seq<Block>, start: nat, blocks: nat, base: nat, used: set<nat>)
    requires BitsMatch(disk, start, blocks, base, used)
    requires start + blocks <= |disk| && |disk2| == |disk|
    requires forall p :: start <= p < start + blocks ==> disk2[p] == disk[p]
    ensures BitsMatch(disk2, start, blocks, base, used)
  {
    forall i: nat, j: nat | i < blocks && j < BITS_PER_BLOCK
      ensures Bit(disk2, start, i, j) == Bit(disk, start, i, j)
    {
      assert disk2[start + i] == disk[start + i];
    }
  }

  function InodeAt(disk: seq<Block>, start: nat, ino: nat): Inode {
    if start + ino / INODES_PER_BLOCK < |disk|
    then InodesOf(disk[start + ino / INODES_PER_BLOCK])[ino % INODES_PER_BLOCK]
    else ZeroInode
  }

  function GetInode(s: Snap, ino: nat): Inode {
    InodeAt(s.disk, s.sb.inodeTableStart, ino)
  }

  predicate InBlocks(s: Snap) {
    forall p :: p in s.owner ==> s.sb.dataStart <= p < s.sb.totalBlocks
  }

  ghost predicate BlockMapOk(s: Snap) {
    && InBlocks(s)
    && BitsMatch(s.disk, s.sb.mapBlockStart, MapBlocks(s.sb.totalBlocks), s.sb.dataStart, s.owner.Keys)
    && s.sb.freeBlocks + |s.owner| == s.sb.totalBlocks - s.sb.dataStart
  }

  ghost predicate InodeMapOk(s: Snap) {
    && (forall n :: n in s.inos ==> n < s.sb.totalInodes)
    && 0 in s.inos && 1 in s.inos
    && BitsMatch(s.disk, s.sb.mapInodeStart, MapBlocks(s.sb.totalInodes), 0, s.inos)
    && s.sb.freeInodes + |s.inos| == s.sb.totalInodes
  }

  /** Metadata blocks are only ever read in the form they were written in. */
  predicate MetaOk(s: Snap)
    requires s.sb.dataStart <= |s.disk|
  {
    && (forall p :: s.sb.mapInodeStart <= p < s.sb.inodeTableStart && p < s.sb.dataStart ==>
          s.disk[p].Zero? || (s.disk[p].Bitmap? && |s.disk[p].bits| == BITS_PER_BLOCK))
    && (forall p :: s.sb.inodeTableStart <= p < s.sb.dataStart ==>
          s.disk[p].Zero? || (s.disk[p].InodeTable? && |s.disk[p].inodes| == INODES_PER_BLOCK))
  }

  /** Pointers of every inode are owned; inodes not in use are blank. */
  ghost predicate NodesOk(s: Snap) {
    forall ino: nat :: ino < s.sb.totalInodes ==>
      NodeOk(s.owner, ino, GetInode(s, ino)) && (ino !in s.inos ==> GetInode(s, ino) == ZeroInode)
  }

  predicate OwnersOk(s: Snap) {
    forall p :: p in s.owner ==> s.owner[p].ino in s.inos && (TablePath(s.owner[p].path) || DataPath(s.owner[p].path))
  }

  predicate DataBlockOk(b: Block, isDir: bool) {
    || b.Zero?
    || (isDir && b.Dirents? && |b.ents| == DIRENTS_PER_BLOCK)
    || (!isDir && b.Raw? && |b.bytes| == BLOCK_SIZE)
  }

  predicate DataOk(s: Snap) {
    forall p :: p in s.owner && DataPath(s.owner[p].path) ==>
      p < |s.disk| && DataBlockOk(s.disk[p], s.owner[p].ino in s.dirs)
  }

  // ------------------------------------------------------------------
  // Directories
  // ------------------------------------------------------------------

  function EntryAt(disk: seq<Block>, node: Inode, i: nat, j: nat): Dirent
    requires |node.ptrs| == ROOT_PTRS && i < MAX_BLOCKS && j < DIRENTS_PER_BLOCK
  {
    if 0 < Lookup(disk, node, i) < |disk| then DirentsOf(disk[Lookup(disk, node, i)])[j] else Dirent(0, "")
  }

  /** A used entry slot agrees with the name map. */
  predicate EntryIn(e: Dirent, m: map<string, nat>) {
    e.inode != 0 ==> e.name in m && m[e.name] == e.inode
  }

  predicate IsDirNode(node: Inode) {
    && |node.ptrs| == ROOT_PTRS
    && node.size % BLOCK_SIZE == 0
    && node.size / BLOCK_SIZE <= MAX_BLOCKS
  }

  ghost predicate HasEntry(disk: seq<Block>, node: Inode, name: string, child: nat)
    requires IsDirNode(node)
  {
    exists i: nat, j: nat ::
      i < node.size / BLOCK_SIZE && j < DIRENTS_PER_BLOCK && EntryAt(disk, node, i, j) == Dirent(child, name)
  }

  /** The entry blocks of directory inode `node` spell out exactly the name map `m`. */
  ghost predicate DirHolds(disk: seq<Block>, node: Inode, m: map<string, nat>) {
    && IsDirNode(node)
    && (forall i: nat :: i < node.size / BLOCK_SIZE ==> Lookup(disk, node, i) != 0)
    && (forall i: nat, j: nat :: i < node.size / BLOCK_SIZE && j < DIRENTS_PER_BLOCK ==>
          EntryIn(EntryAt(disk, node, i, j), m))
    && (forall i: nat, j: nat :: node.size / BLOCK_SIZE <= i < MAX_BLOCKS && j < DIRENTS_PER_BLOCK ==>
          EntryAt(disk, node, i, j).inode == 0)
    && (forall name :: name in m ==> m[name] != 0 && HasEntry(disk, node, name, m[name]))
  }

  predicate Linked(s: Snap, m: map<string, nat>) {
    forall name :: name in m ==>
      |name| < NAME_MAX && m[name] in s.inos && GetInode(s, m[name]).kind in {FILE, DIR}
  }

  /** The name maps are those of the directory inodes, and lead to inodes in use. */
  predicate DirLinks(s: Snap) {
    && 1 in s.dirs && 0 !in s.dirs
    && (forall d: nat :: d in s.dirs ==> d in s.inos && GetInode(s, d).kind == DIR)
    && (forall d: nat :: d in s.inos && GetInode(s, d).kind == DIR ==> d in s.dirs)
    && (forall d :: d in s.dirs ==> Linked(s, s.dirs[d]))
  }

  ghost predicate DirsOk(s: Snap) {
    && DirLinks(s)
    && (forall d :: d in s.dirs ==> DirHolds(s.disk, GetInode(s, d), s.dirs[d]))
  }

  ghost predicate Inv(s: Snap) {
    && Geometry(s.sb, |s.disk|)
    && BlockMapOk(s)
    && InodeMapOk(s)
    && MetaOk(s)
    && NodesOk(s)
    && OwnersOk(s)
    && TablesOk(s.disk, s.owner)
    && DataOk(s)
    && DirsOk(s)
  }

  /** What a later run of the tool reads from block 1 is the superblock of this run. */
  predicate Synced(s: Snap) {
    1 < |s.disk| && s.disk[1] == Super(s.sb)
  }

  // ------------------------------------------------------------------
  // Growth of block maps
  // ------------------------------------------------------------------

  /** Inodes, directories, data and every mapped block survive; only empty slots may have been filled. */
  ghost predicate Steady(s: Snap, s2: Snap) {
    && |s2.disk| == |s.disk|
    && s2.sb == WithFree(s.sb, s2.sb.freeBlocks)
    && s2.inos == s.inos
    && s2.dirs == s.dirs
    && Extends(s.owner, s2.owner)
    && (forall ino: nat :: ino < s.sb.totalInodes ==> GetInode(s2, ino) == GetInode(s, ino))
    && (forall p :: p in s.owner && p < |s.disk| && DataPath(s.owner[p].path) ==> s2.disk[p] == s.disk[p])
    && (forall ino: nat, node: Inode, i: nat ::
          NodeOk(s.owner, ino, node) && i < MAX_BLOCKS && Lookup(s.disk, node, i) != 0 ==>
            Lookup(s2.disk, node, i) == Lookup(s.disk, node, i))
    && (forall ino: nat, node: Inode, i: nat ::
          NodeOk(s.owner, ino, node) && i < MAX_BLOCKS && Lookup(s.disk, node, i) == 0 ==>
            BlankBlock(s2.disk, Lookup(s2.disk, node, i)))
  }

  /** At most n blocks were taken, and the superblock counts nothing else differently. */
  ghost predicate Costs(s: Snap, s2: Snap, n: nat) {
    s2.sb == WithFree(s.sb, s2.sb.freeBlocks) && s.sb.freeBlocks <= s2.sb.freeBlocks + n
  }

  /** How many blocks a directory covers. */
  function DirBlocks(s: Snap, d: nat): nat {
    GetInode(s, d).size / BLOCK_SIZE
  }

  /** Apart from logical block (ino, idx), no inode gained a block. */
  ghost predicate OthersKept(s: Snap, s2: Snap, ino: nat, path: seq<nat>) {
    forall ino2: nat, node: Inode, i: nat {:trigger NodeOk(s.owner, ino2, node), Lookup(s2.disk, node, i)} ::
      NodeOk(s.owner, ino2, node) && i < MAX_BLOCKS && (ino2 != ino || PathOf(i) != path)
      ==> Lookup(s2.disk, node, i) == Lookup(s.disk, node, i)
  }

  lemma NodeOkExtends(ow: Owners, ow2: Owners, ino: nat, node: Inode)
    requires Extends(ow, ow2) && NodeOk(ow, ino, node)
    ensures NodeOk(ow2, ino, node)
  {
  }

  lemma SteadyTrans(s: Snap, t: Snap, u: Snap)
    requires Steady(s, t) && Steady(t, u) && TablesOk(t.disk, t.owner)
    ensures Steady(s, u)
  {
    forall ino: nat, node: Inode, i: nat | NodeOk(s.owner, ino, node) && i < MAX_BLOCKS && Lookup(s.disk, node, i) == 0
      ensures BlankBlock(u.disk, Lookup(u.disk, node, i))
    {
      NodeOkExtends(s.owner, t.owner, ino, node);
      LookupOwner(t.disk, t.owner, ino, node, i);
    }
    forall ino: nat, node: Inode, i: nat | NodeOk(s.owner, ino, node) && i < MAX_BLOCKS && Lookup(s.disk, node, i) != 0
      ensures Lookup(u.disk, node, i) == Lookup(s.disk, node, i)
    {
      NodeOkExtends(s.owner, t.owner, ino, node);
    }
  }

  lemma OthersKeptTrans(s: Snap, t: Snap, u: Snap, ino: nat, path: seq<nat>)
    requires Steady(s, t) && OthersKept(s, t, ino, path) && OthersKept(t, u, ino, path)
    ensures OthersKept(s, u, ino, path)
  {
    forall ino2: nat, node: Inode, i: nat | NodeOk(s.owner, ino2, node) && i < MAX_BLOCKS
      && (ino2 != ino || PathOf(i) != path)
      ensures Lookup(u.disk, node, i) == Lookup(s.disk, node, i)
    {
      NodeOkExtends(s.owner, t.owner, ino2, node);
    }
  }

  /** Directories read the same once their inodes, blocks and entries are the same. */
  lemma DirHoldsFrame(disk: seq<Block>, disk2: seq<Block>, node: Inode, m: map<string, nat>)
    requires DirHolds(disk, node, m)
    requires forall i: nat, j: nat :: i < MAX_BLOCKS && j < DIRENTS_PER_BLOCK ==>
               EntryAt(disk2, node, i, j).inode == EntryAt(disk, node, i, j).inode == 0
               || EntryAt(disk2, node, i, j) == EntryAt(disk, node, i, j)
    requires forall i: nat :: i < node.size / BLOCK_SIZE ==> Lookup(disk2, node, i) != 0
    ensures DirHolds(disk2, node, m)
  {
    forall name | name in m ensures HasEntry(disk2, node, name, m[name]) {
      assert HasEntry(disk, node, name, m[name]);
      var i: nat, j: nat :| i < node.size / BLOCK_SIZE && j < DIRENTS_PER_BLOCK
                            && EntryAt(disk, node, i, j) == Dirent(m[name], name);
      assert EntryAt(disk2, node, i, j) == Dirent(m[name], name);
    }
  }

  lemma SteadyDir(s: Snap, s2: Snap, d: nat, node: Inode, m: map<string, nat>)
    requires TablesOk(s.disk, s.owner) && InBlocks(s) && s.sb.totalBlocks <= |s.disk| && NodeOk(s.owner, d, node)
    requires Steady(s, s2) && DirHolds(s.disk, node, m)
    ensures DirHolds(s2.disk, node, m)
  {
    forall i: nat, j: nat | i < MAX_BLOCKS && j < DIRENTS_PER_BLOCK
      ensures EntryAt(s2.disk, node, i, j).inode == EntryAt(s.disk, node, i, j).inode == 0
           || EntryAt(s2.disk, node, i, j) == EntryAt(s.disk, node, i, j)
    {
      LookupOwner(s.disk, s.owner, d, node, i);
    }
    forall i: nat | i < node.size / BLOCK_SIZE ensures Lookup(s2.disk, node, i) != 0 {
      assert Lookup(s.disk, node, i) != 0;
    }
    DirHoldsFrame(s.disk, s2.disk, node, m);
  }

  lemma SteadyDirs(s: Snap, s2: Snap)
    requires Inv(s) && Steady(s, s2)
    ensures DirsOk(s2)
  {
    assert DirLinks(s2) by {
      forall d | d in s2.dirs ensures Linked(s2, s2.dirs[d]) {
        assert Linked(s, s.dirs[d]);
      }
    }
    forall d | d in s2.dirs ensures DirHolds(s2.disk, GetInode(s2, d), s2.dirs[d]) {
      assert NodeOk(s.owner, d, GetInode(s, d));
      SteadyDir(s, s2, d, GetInode(s, d), s.dirs[d]);
    }
  }

  /** alloc_block as a change of state: a fresh zeroed block, and nothing else outside the block bitmap. */
  ghost predicate Allocated(s: Snap, s2: Snap, lba: nat, o: Owner) {
    && s.sb.dataStart <= lba < s.sb.totalBlocks
    && lba !in s.owner
    && 0 < s.sb.freeBlocks
    && |s2.disk| == |s.disk|
    && s2.sb == WithFree(s.sb, s.sb.freeBlocks - 1)
    && s2.owner == s.owner[lba := o]
    && s2.inos == s.inos
    && s2.dirs == s.dirs
    && (forall p :: 0 <= p < |s.disk| && p != 1 && p != lba && !(s.sb.mapBlockStart <= p < s.sb.inodeTableStart)
          ==> s2.disk[p] == s.disk[p])
    && lba < |s2.disk| && s2.disk[lba].Zero?
  }

  /** Table entry k of block tbl now leads to the fresh zero block c. */
  ghost predicate EntrySet(s: Snap, s2: Snap, tbl: nat, k: nat, c: nat)
    requires k < PTRS_PER_BLOCK
  {
    && tbl < |s.disk|
    && s2 == WithBlock(s, tbl, Table(TableOf(s.disk[tbl])[k := c]))
  }

  lemma AllocOwned(s: Snap, s2: Snap, lba: nat, o: Owner)
    requires Geometry(s.sb, |s.disk|) && InBlocks(s) && Allocated(s, s2, lba, o)
    ensures forall p :: p in s.owner ==> s2.disk[p] == s.disk[p]
    ensures forall ino: nat :: ino < s.sb.totalInodes ==> GetInode(s2, ino) == GetInode(s, ino)
  {
    forall ino: nat | ino < s.sb.totalInodes ensures GetInode(s2, ino) == GetInode(s, ino) {
      InodeInTable(s, ino);
    }
  }

  lemma AllocSteady(s: Snap, s2: Snap, lba: nat, o: Owner, ino: nat, path: seq<nat>)
    requires Geometry(s.sb, |s.disk|) && InBlocks(s) && TablesOk(s.disk, s.owner) && Allocated(s, s2, lba, o)
    ensures Steady(s, s2) && OthersKept(s, s2, ino, path)
  {
    AllocOwned(s, s2, lba, o);
    forall ino2: nat, node: Inode, i: nat | NodeOk(s.owner, ino2, node) && i < MAX_BLOCKS
      ensures Lookup(s2.disk, node, i) == Lookup(s.disk, node, i)
    {
      LookupSameTables(s.disk, s.owner, s2.disk, ino2, node, i);
    }
  }

  lemma InodeInTable(s: Snap, ino: nat)
    requires Geometry(s.sb, |s.disk|) && ino < s.sb.totalInodes
    ensures s.sb.inodeTableStart <= s.sb.inodeTableStart + ino / INODES_PER_BLOCK < s.sb.dataStart
  {
  }

  lemma AllocTables(s: Snap, s2: Snap, lba: nat, o: Owner)
    requires Geometry(s.sb, |s.disk|) && InBlocks(s) && TablesOk(s.disk, s.owner) && Allocated(s, s2, lba, o)
    ensures TablesOk(s2.disk, s2.owner)
  {
    AllocOwned(s, s2, lba, o);
    forall p: nat | IsTableBlock(s2.owner, p) ensures p < |s2.disk| && TableOk(s2.disk, s2.owner, p) {
      if p != lba {
        assert IsTableBlock(s.owner, p);
        assert TableOk(s.disk, s.owner, p);
      }
    }
  }

  lemma AllocNodes(s: Snap, s2: Snap, lba: nat, o: Owner)
    requires Geometry(s.sb, |s.disk|) && InBlocks(s) && NodesOk(s) && Allocated(s, s2, lba, o)
    ensures NodesOk(s2)
  {
    AllocOwned(s, s2, lba, o);
    forall ino: nat | ino < s.sb.totalInodes
      ensures NodeOk(s2.owner, ino, GetInode(s2, ino)) && (ino !in s2.inos ==> GetInode(s2, ino) == ZeroInode) {
      NodeOkExtends(s.owner, s2.owner, ino, GetInode(s, ino));
    }
  }

  lemma AllocMaps(s: Snap, s2: Snap, lba: nat, o: Owner)
    requires Geometry(s.sb, |s.disk|) && InBlocks(s) && Allocated(s, s2, lba, o)
    requires InodeMapOk(s) && OwnersOk(s) && DataOk(s)
    requires o.ino in s.inos && (TablePath(o.path) || DataPath(o.path))
    ensures InodeMapOk(s2) && OwnersOk(s2) && DataOk(s2)
  {
    AllocOwned(s, s2, lba, o);
    BitsMatchFrame(s.disk, s2.disk, s.sb.mapInodeStart, MapBlocks(s.sb.totalInodes), 0, s.inos);
  }

  lemma AllocDirs(s: Snap, s2: Snap, lba: nat, o: Owner)
    requires Inv(s) && Allocated(s, s2, lba, o)
    ensures DirsOk(s2)
  {
    AllocSteady(s, s2, lba, o, 0, []);
    SteadyDirs(s, s2);
  }

  lemma AllocInv(s: Snap, s2: Snap, lba: nat, o: Owner)
    requires Inv(s) && Allocated(s, s2, lba, o) && BlockMapOk(s2) && MetaOk(s2)
    requires o.ino in s.inos && (TablePath(o.path) || DataPath(o.path))
    ensures Inv(s2)
  {
    assert DirsOk(s2) by { AllocDirs(s, s2, lba, o); }
    assert TablesOk(s2.disk, s2.owner) by { AllocTables(s, s2, lba, o); }
    assert NodesOk(s2) by { AllocNodes(s, s2, lba, o); }
    assert InodeMapOk(s2) && OwnersOk(s2) && DataOk(s2) by { AllocMaps(s, s2, lba, o); }
  }

  /** Writing a block of the data area leaves bitmaps, inode table and counters alone. */
  lemma DataWriteMeta(s: Snap, s2: Snap, lba: nat, b: Block)
    requires Geometry(s.sb, |s.disk|) && BlockMapOk(s) && InodeMapOk(s) && MetaOk(s)
    requires s.sb.dataStart <= lba < |s.disk| && s2 == WithBlock(s, lba, b)
    ensures Geometry(s2.sb, |s2.disk|) && BlockMapOk(s2) && InodeMapOk(s2) && MetaOk(s2)
    ensures forall ino: nat :: ino < s.sb.totalInodes ==> GetInode(s2, ino) == GetInode(s, ino)
  {
    forall ino: nat | ino < s.sb.totalInodes ensures GetInode(s2, ino) == GetInode(s, ino) {
      InodeInTable(s, ino);
    }
    BitsMatchFrame(s.disk, s2.disk, s.sb.mapBlockStart, MapBlocks(s.sb.totalBlocks), s.sb.dataStart, s.owner.Keys);
    BitsMatchFrame(s.disk, s2.disk, s.sb.mapInodeStart, MapBlocks(s.sb.totalInodes), 0, s.inos);
  }

  /** The repeated fragment of inode_resolve_block: an empty table entry receives a fresh block. */
  ghost predicate TableSlot(s: Snap, ino: nat, pre: seq<nat>, tbl: nat, k: nat) {
    && k < PTRS_PER_BLOCK
    && TablePath(pre)
    && tbl in s.owner && s.owner[tbl] == Owner(ino, pre)
    && tbl < |s.disk|
    && TableOf(s.disk[tbl])[k] == 0
  }

  lemma EntryFills(s: Snap, s2: Snap, ino: nat, pre: seq<nat>, tbl: nat, k: nat, c: nat)
    requires TableSlot(s, ino, pre, tbl, k) && EntrySet(s, s2, tbl, k, c)
    requires 0 < c < |s.disk| && s.disk[c].Zero? && c != tbl
    ensures SlotFilled(s.disk, s.owner, s2.disk, ino, pre + [k])
  {
    forall p: nat, k2 | IsTableBlock(s.owner, p) && p < |s.disk| && 0 <= k2 < PTRS_PER_BLOCK
      ensures TableOf(s2.disk[p])[k2] == TableOf(s.disk[p])[k2]
           || FilledEntry(s.disk, s.owner, s2.disk, ino, pre + [k], p, k2)
    {
    }
  }

  lemma EntrySteady(s: Snap, s2: Snap, ino: nat, pre: seq<nat>, tbl: nat, k: nat, c: nat)
    requires Geometry(s.sb, |s.disk|) && InBlocks(s) && TablesOk(s.disk, s.owner)
    requires TableSlot(s, ino, pre, tbl, k) && EntrySet(s, s2, tbl, k, c)
    requires 0 < c < |s.disk| && s.disk[c].Zero? && c != tbl
    ensures Steady(s, s2)
    ensures OthersKept(s, s2, ino, pre + [k])
  {
    EntryFills(s, s2, ino, pre, tbl, k, c);
    forall ino: nat | ino < s.sb.totalInodes ensures GetInode(s2, ino) == GetInode(s, ino) {
      InodeInTable(s, ino);
    }
    forall ino2: nat, node: Inode, i: nat | NodeOk(s.owner, ino2, node) && i < MAX_BLOCKS
      ensures Lookup(s.disk, node, i) != 0 ==> Lookup(s2.disk, node, i) == Lookup(s.disk, node, i)
      ensures ino2 != ino || PathOf(i) != pre + [k] ==> Lookup(s2.disk, node, i) == Lookup(s.disk, node, i)
      ensures Lookup(s.disk, node, i) == 0 ==> BlankBlock(s2.disk, Lookup(s2.disk, node, i))
    {
      LookupFrame(s.disk, s.owner, s2.disk, ino, pre + [k], ino2, node, i);
    }
  }

  lemma EntryTables(s: Snap, s2: Snap, ino: nat, pre: seq<nat>, tbl: nat, k: nat, c: nat)
    requires TablesOk(s.disk, s.owner)
    requires TableSlot(s, ino, pre, tbl, k) && EntrySet(s, s2, tbl, k, c)
    requires c in s.owner && s.owner[c] == Owner(ino, pre + [k])
    ensures TablesOk(s2.disk, s2.owner)
  {
    forall p: nat | IsTableBlock(s2.owner, p) ensures p < |s2.disk| && TableOk(s2.disk, s2.owner, p) {
      assert IsTableBlock(s.owner, p);
      assert TableOk(s.disk, s.owner, p);
    }
  }

  lemma EntryDirs(s: Snap, s2: Snap, ino: nat, pre: seq<nat>, tbl: nat, k: nat, c: nat)
    requires Inv(s)
    requires TableSlot(s, ino, pre, tbl, k) && EntrySet(s, s2, tbl, k, c)
    requires 0 < c < |s.disk| && s.disk[c].Zero? && c != tbl
    ensures DirsOk(s2)
  {
    EntrySteady(s, s2, ino, pre, tbl, k, c);
    SteadyDirs(s, s2);
  }

  lemma EntryNodes(s: Snap, s2: Snap, ino: nat, pre: seq<nat>, tbl: nat, k: nat, c: nat)
    requires Geometry(s.sb, |s.disk|) && InBlocks(s) && TablesOk(s.disk, s.owner) && NodesOk(s) && DataOk(s)
    requires TableSlot(s, ino, pre, tbl, k) && EntrySet(s, s2, tbl, k, c)
    ensures NodesOk(s2) && DataOk(s2)
  {
    forall ino: nat | ino < s.sb.totalInodes ensures GetInode(s2, ino) == GetInode(s, ino) {
      InodeInTable(s, ino);
    }
  }

  lemma EntryInv(s: Snap, s2: Snap, ino: nat, pre: seq<nat>, tbl: nat, k: nat, c: nat)
    requires Inv(s)
    requires TableSlot(s, ino, pre, tbl, k) && EntrySet(s, s2, tbl, k, c)
    requires 0 < c < |s.disk| && s.disk[c].Zero? && c != tbl
    requires c in s.owner && s.owner[c] == Owner(ino, pre + [k])
    ensures Inv(s2)
  {
    assert DirsOk(s2) by { EntryDirs(s, s2, ino, pre, tbl, k, c); }
    assert NodesOk(s2) && DataOk(s2) by { EntryNodes(s, s2, ino, pre, tbl, k, c); }
    assert TablesOk(s2.disk, s2.owner) by { EntryTables(s, s2, ino, pre, tbl, k, c); }
    assert Geometry(s2.sb, |s2.disk|) && BlockMapOk(s2) && InodeMapOk(s2) && MetaOk(s2) by {
      DataWriteMeta(s, s2, tbl, s2.disk[tbl]);
    }
  }

  // ------------------------------------------------------------------
  // Writing inodes and data
  // ------------------------------------------------------------------

  /** inode_write as a change of state; the caller says what the name maps are afterwards. */
  ghost predicate InodeWritten(s: Snap, s2: Snap, ino: nat, node: Inode) {
    && ino < s.sb.totalInodes
    && s.sb.inodeTableStart + ino / INODES_PER_BLOCK < |s.disk|
    && s2.disk == s.disk[s.sb.inodeTableStart + ino / INODES_PER_BLOCK :=
                           InodeTable(InodesOf(s.disk[s.sb.inodeTableStart + ino / INODES_PER_BLOCK])
                                        [ino % INODES_PER_BLOCK := node])]
    && s2.sb == s.sb && s2.owner == s.owner && s2.inos == s.inos
  }

  lemma InodeWrittenReads(s: Snap, s2: Snap, ino: nat, node: Inode)
    requires Geometry(s.sb, |s.disk|) && InBlocks(s) && InodeWritten(s, s2, ino, node)
    ensures GetInode(s2, ino) == node
    ensures forall i: nat :: i < s.sb.totalInodes && i != ino ==> GetInode(s2, i) == GetInode(s, i)
    ensures forall p :: p in s.owner ==> s2.disk[p] == s.disk[p]
  {
    forall i: nat | i < s.sb.totalInodes ensures GetInode(s2, i) == if i == ino then node else GetInode(s, i) {
      InodeInTable(s, i);
      InodeInTable(s, ino);
    }
  }

  /** Directory entries read the same when every owned block is untouched. */
  lemma OwnedSameDir(s: Snap, s2: Snap, d: nat, node: Inode, m: map<string, nat>)
    requires TablesOk(s.disk, s.owner) && NodeOk(s.owner, d, node) && InBlocks(s) && s.sb.totalBlocks == |s.disk|
    requires |s2.disk| == |s.disk|
    requires forall p :: p in s.owner ==> s2.disk[p] == s.disk[p]
    requires DirHolds(s.disk, node, m)
    ensures DirHolds(s2.disk, node, m)
  {
    forall i: nat, j: nat | i < MAX_BLOCKS && j < DIRENTS_PER_BLOCK
      ensures Lookup(s2.disk, node, i) == Lookup(s.disk, node, i)
      ensures EntryAt(s2.disk, node, i, j) == EntryAt(s.disk, node, i, j)
    {
      LookupOwner(s.disk, s.owner, d, node, i);
      LookupSameTables(s.disk, s.owner, s2.disk, d, node, i);
    }
    forall i: nat | i < node.size / BLOCK_SIZE ensures Lookup(s2.disk, node, i) != 0 {
      LookupSameTables(s.disk, s.owner, s2.disk, d, node, i);
    }
    DirHoldsFrame(s.disk, s2.disk, node, m);
  }

  /** The entries of a name map lead to inodes in use, or to `ino` itself. */
  predicate LinkedOr(s: Snap, m: map<string, nat>, ino: nat) {
    forall name :: name in m ==>
      |name| < NAME_MAX && m[name] in s.inos && (m[name] == ino || GetInode(s, m[name]).kind in {FILE, DIR})
  }

  /** Writing a directory inode may change its own name map only, writing a file inode none. */
  predicate NameMapsFit(s: Snap, names: map<nat, map<string, nat>>, ino: nat, node: Inode) {
    && node.kind in {FILE, DIR}
    && if node.kind == DIR
       then ino in names && names == s.dirs[ino := names[ino]] && LinkedOr(s, names[ino], ino)
       else ino !in s.dirs && names == s.dirs
  }

  /** The inode being written fits the name maps claimed for the state after the write. */
  ghost predicate InodeFits(s: Snap, names: map<nat, map<string, nat>>, ino: nat, node: Inode) {
    && ino in s.inos && ino != 0
    && NodeOk(s.owner, ino, node)
    && NameMapsFit(s, names, ino, node)
    && (node.kind == DIR ==>
          && DirHolds(s.disk, node, names[ino])
          && (ino in s.dirs || forall p :: p in s.owner ==> s.owner[p].ino != ino))
  }

  lemma InodeWrittenMeta(s: Snap, s2: Snap, ino: nat, node: Inode)
    requires Geometry(s.sb, |s.disk|) && BlockMapOk(s) && InodeMapOk(s) && MetaOk(s) && InodeWritten(s, s2, ino, node)
    ensures Geometry(s2.sb, |s2.disk|) && BlockMapOk(s2) && InodeMapOk(s2) && MetaOk(s2)
  {
    InodeInTable(s, ino);
    BitsMatchFrame(s.disk, s2.disk, s.sb.mapBlockStart, MapBlocks(s.sb.totalBlocks), s.sb.dataStart, s.owner.Keys);
    BitsMatchFrame(s.disk, s2.disk, s.sb.mapInodeStart, MapBlocks(s.sb.totalInodes), 0, s.inos);
  }

  lemma InodeWrittenTables(s: Snap, s2: Snap, ino: nat, node: Inode)
    requires Inv(s) && InodeWritten(s, s2, ino, node) && InodeFits(s, s2.dirs, ino, node)
    ensures TablesOk(s2.disk, s2.owner) && NodesOk(s2) && OwnersOk(s2) && DataOk(s2)
  {
    hide GetInode, DirsOk, DirHolds, LinkedOr;
    InodeWrittenReads(s, s2, ino, node);
    forall p: nat | IsTableBlock(s2.owner, p) ensures p < |s2.disk| && TableOk(s2.disk, s2.owner, p) {
      assert TableOk(s.disk, s.owner, p);
    }
  }

  lemma InodeWrittenDir(s: Snap, s2: Snap, ino: nat, node: Inode, d: nat)
    requires Geometry(s.sb, |s.disk|) && InBlocks(s) && TablesOk(s.disk, s.owner) && NodesOk(s) && DirsOk(s)
    requires InodeMapOk(s)
    requires InodeWritten(s, s2, ino, node) && InodeFits(s, s2.dirs, ino, node) && d in s2.dirs
    ensures DirHolds(s2.disk, GetInode(s2, d), s2.dirs[d])
  {
    InodeWrittenReads(s, s2, ino, node);
    var n := GetInode(s2, d);
    assert DirHolds(s.disk, n, s2.dirs[d]) && NodeOk(s.owner, d, n);
    OwnedSameDir(s, s2, d, n, s2.dirs[d]);
  }

  lemma InodeWrittenLinks(s: Snap, s2: Snap, ino: nat, node: Inode)
    requires s2.sb == s.sb && s2.inos == s.inos && DirLinks(s)
    requires forall i :: i in s.inos ==> GetInode(s2, i) == if i == ino then node else GetInode(s, i)
    requires ino in s.inos && ino != 0 && NameMapsFit(s, s2.dirs, ino, node)
    ensures DirLinks(s2)
  {
    hide GetInode;
    forall d | d in s2.dirs ensures Linked(s2, s2.dirs[d]) {
      assert d != ino ==> Linked(s, s.dirs[d]);
      assert LinkedOr(s, s2.dirs[d], ino);
    }
  }

  lemma InodeWrittenDirs(s: Snap, s2: Snap, ino: nat, node: Inode)
    requires Inv(s) && InodeWritten(s, s2, ino, node) && InodeFits(s, s2.dirs, ino, node)
    ensures DirsOk(s2)
  {
    hide DirHolds, DirLinks, NameMapsFit;
    forall d | d in s2.dirs ensures DirHolds(s2.disk, GetInode(s2, d), s2.dirs[d]) {
      InodeWrittenDir(s, s2, ino, node, d);
    }
    InodeWrittenReads(s, s2, ino, node);
    InodeWrittenLinks(s, s2, ino, node);
  }

  lemma InodeWrittenInv(s: Snap, s2: Snap, ino: nat, node: Inode)
    requires Inv(s) && InodeWritten(s, s2, ino, node) && InodeFits(s, s2.dirs, ino, node)
    ensures Inv(s2)
  {
    assert Geometry(s2.sb, |s2.disk|) && BlockMapOk(s2) && InodeMapOk(s2)
           && MetaOk(s2) by { InodeWrittenMeta(s, s2, ino, node); }
    assert TablesOk(s2.disk, s2.owner) && NodesOk(s2) && OwnersOk(s2)
           && DataOk(s2) by { InodeWrittenTables(s, s2, ino, node); }
    assert DirsOk(s2) by { InodeWrittenDirs(s, s2, ino, node); }
  }
}
