/** Writing data blocks: file contents, directory entries, and what each write leaves alone. */
module YfsData {
  import opened YfsTree
  import opened YfsState
  import opened YfsResolve

  // ------------------------------------------------------------------
  // File contents
  // ------------------------------------------------------------------

  /** A byte of a file: blocks that were never written read as zero. */
  function ByteAt(disk: seq<Block>, node: Inode, b: nat): Byte
    requires |node.ptrs| == ROOT_PTRS && b / BLOCK_SIZE < MAX_BLOCKS
  {
    if 0 < Lookup(disk, node, b / BLOCK_SIZE) < |disk|
    then BytesOf(disk[Lookup(disk, node, b / BLOCK_SIZE)])[b % BLOCK_SIZE]
    else 0
  }

  predicate FileNode(node: Inode) {
    |node.ptrs| == ROOT_PTRS && node.size <= MAX_BLOCKS * BLOCK_SIZE
  }

  /** The bytes that an inode holds. */
  function Content(disk: seq<Block>, node: Inode): (c: seq<Byte>)
    requires FileNode(node)
    ensures |c| == node.size
  {
    seq(node.size, b requires 0 <= b < node.size => ByteAt(disk, node, b))
  }

  /** Every block of the inode is where it was and holds what it held. */
  ghost predicate SameBlocks(disk: seq<Block>, disk2: seq<Block>, node: Inode) {
    && |node.ptrs| == ROOT_PTRS && |disk2| == |disk|
    && forall i: nat :: i < MAX_BLOCKS ==>
         && Lookup(disk2, node, i) == Lookup(disk, node, i)
         && (0 < Lookup(disk, node, i) < |disk| ==> disk2[Lookup(disk, node, i)] == disk[Lookup(disk, node, i)])
  }

  lemma SameContent(disk: seq<Block>, disk2: seq<Block>, node: Inode)
    requires SameBlocks(disk, disk2, node) && FileNode(node)
    ensures Content(disk2, node) == Content(disk, node)
  {
    forall b: nat | b < node.size ensures ByteAt(disk2, node, b) == ByteAt(disk, node, b) {
      assert Lookup(disk2, node, b / BLOCK_SIZE) == Lookup(disk, node, b / BLOCK_SIZE);
    }
  }

  /** File `ino` is untouched: same inode, same blocks, same data. */
  ghost predicate SameFile(s: Snap, s2: Snap, ino: nat) {
    GetInode(s2, ino) == GetInode(s, ino) && SameBlocks(s.disk, s2.disk, GetInode(s, ino))
  }

  /** All files but `except` are untouched, and no inode or directory disappears. */
  ghost predicate FilesKept(s: Snap, s2: Snap, except: nat) {
    && |s2.disk| == |s.disk|
    && s.inos <= s2.inos
    && s.dirs.Keys <= s2.dirs.Keys
    && (forall ino :: ino in s2.dirs && ino in s.inos ==> ino in s.dirs)
    && (forall ino :: ino in s.inos && ino != except && ino !in s.dirs ==> SameFile(s, s2, ino))
  }

  lemma FilesKeptTrans(s: Snap, t: Snap, u: Snap, except: nat)
    requires FilesKept(s, t, except) && FilesKept(t, u, except)
    ensures FilesKept(s, u, except)
  {
    forall ino | ino in s.inos && ino != except && ino !in s.dirs ensures SameFile(s, u, ino) {
      assert SameFile(s, t, ino) && SameFile(t, u, ino);
    }
  }

  lemma ResolvedFiles(s: Snap, s2: Snap, ino: nat, path: seq<nat>)
    requires Inv(s) && Steady(s, s2) && OthersKept(s, s2, ino, path)
    ensures FilesKept(s, s2, ino)
  {
    forall i2 | i2 in s.inos && i2 != ino && i2 !in s.dirs ensures SameFile(s, s2, i2) {
      var node := GetInode(s, i2);
      assert NodeOk(s.owner, i2, node);
      forall i: nat | i < MAX_BLOCKS
        ensures Lookup(s2.disk, node, i) == Lookup(s.disk, node, i)
        ensures 0 < Lookup(s.disk, node, i) < |s.disk| ==>
                  s2.disk[Lookup(s.disk, node, i)] == s.disk[Lookup(s.disk, node, i)]
      {
        LookupOwner(s.disk, s.owner, i2, node, i);
      }
    }
  }

  // ------------------------------------------------------------------
  // Writing one data block
  // ------------------------------------------------------------------

  /** Block lba, a data block of `ino`, is overwritten with b. */
  ghost predicate DataWritten(s: Snap, s2: Snap, ino: nat, lba: nat, b: Block) {
    && lba in s.owner && DataPath(s.owner[lba].path) && s.owner[lba].ino == ino
    && lba < |s.disk|
    && s2 == Snap(s.disk[lba := b], s.sb, s.owner, s.inos, s2.dirs)
  }

  lemma DataWrittenLookup(s: Snap, s2: Snap, ino: nat, lba: nat, b: Block, ino2: nat, node: Inode, i: nat)
    requires TablesOk(s.disk, s.owner) && DataWritten(s, s2, ino, lba, b) && lba != 0
    requires NodeOk(s.owner, ino2, node) && i < MAX_BLOCKS
    ensures Lookup(s2.disk, node, i) == Lookup(s.disk, node, i)
    ensures Lookup(s.disk, node, i) == lba ==> ino2 == ino && PathOf(i) == s.owner[lba].path
  {
    LookupSameTables(s.disk, s.owner, s2.disk, ino2, node, i);
    LookupOwner(s.disk, s.owner, ino2, node, i);
  }

  /** The entries of any other directory read as before. */
  lemma DataWrittenOtherDir(s: Snap, s2: Snap, ino: nat, lba: nat, b: Block, d: nat, node: Inode, m: map<string, nat>)
    requires TablesOk(s.disk, s.owner) && DataWritten(s, s2, ino, lba, b) && lba != 0
    requires NodeOk(s.owner, d, node) && d != ino && DirHolds(s.disk, node, m)
    ensures DirHolds(s2.disk, node, m)
  {
    forall i: nat, j: nat | i < MAX_BLOCKS && j < DIRENTS_PER_BLOCK
      ensures EntryAt(s2.disk, node, i, j) == EntryAt(s.disk, node, i, j)
    {
      DataWrittenLookup(s, s2, ino, lba, b, d, node, i);
    }
    forall i: nat | i < node.size / BLOCK_SIZE ensures Lookup(s2.disk, node, i) != 0 {
      DataWrittenLookup(s, s2, ino, lba, b, d, node, i);
    }
    DirHoldsFrame(s.disk, s2.disk, node, m);
  }

  /** The name maps after the write: only that of `ino`, when it is a directory, may differ. */
  ghost predicate DataFits(s: Snap, s2: Snap, ino: nat, b: Block) {
    && DataBlockOk(b, ino in s.dirs)
    && if ino in s.dirs
       then ino in s2.dirs && s2.dirs == s.dirs[ino := s2.dirs[ino]] && Linked(s, s2.dirs[ino])
            && DirHolds(s2.disk, GetInode(s, ino), s2.dirs[ino])
       else s2.dirs == s.dirs
  }

  lemma DataWrittenTables(s: Snap, s2: Snap, ino: nat, lba: nat, b: Block)
    requires TablesOk(s.disk, s.owner) && DataOk(s) && DataWritten(s, s2, ino, lba, b) && DataFits(s, s2, ino, b)
    ensures TablesOk(s2.disk, s2.owner) && DataOk(s2)
  {
    hide DirHolds;
    forall p: nat | IsTableBlock(s2.owner, p) ensures p < |s2.disk| && TableOk(s2.disk, s2.owner, p) {
      assert TableOk(s.disk, s.owner, p);
    }
  }

  lemma DataWrittenMeta(s: Snap, s2: Snap, ino: nat, lba: nat, b: Block)
    requires Inv(s) && DataWritten(s, s2, ino, lba, b)
    ensures Geometry(s2.sb, |s2.disk|) && BlockMapOk(s2) && InodeMapOk(s2) && MetaOk(s2)
    ensures forall i: nat :: i < s.sb.totalInodes ==> GetInode(s2, i) == GetInode(s, i)
    ensures lba != 0
  {
    hide DirsOk, TablesOk, NodesOk, DataOk, OwnersOk;
    var t := WithBlock(s, lba, b);
    DataWriteMeta(s, t, lba, b);
    assert s2 == t.(dirs := s2.dirs);
  }

  lemma DataWrittenLinks(s: Snap, s2: Snap, ino: nat, b: Block)
    requires s2.sb == s.sb && s2.inos == s.inos && DirLinks(s) && DataFits(s, s2, ino, b)
    requires forall i :: i in s.inos ==> GetInode(s2, i) == GetInode(s, i)
    ensures DirLinks(s2)
  {
    hide GetInode, DirHolds;
    forall d | d in s2.dirs ensures Linked(s2, s2.dirs[d]) {
      assert Linked(s, s2.dirs[d]);
    }
  }

  lemma DataWrittenDirs(s: Snap, s2: Snap, ino: nat, lba: nat, b: Block)
    requires Inv(s) && DataWritten(s, s2, ino, lba, b) && DataFits(s, s2, ino, b)
    ensures DirsOk(s2)
  {
    hide DirHolds, DirLinks, GetInode;
    DataWrittenMeta(s, s2, ino, lba, b);
    DataWrittenLinks(s, s2, ino, b);
    forall d | d in s2.dirs ensures DirHolds(s2.disk, GetInode(s2, d), s2.dirs[d]) {
      DirInUse(s, d);
      if d != ino {
        DataWrittenOtherDir(s, s2, ino, lba, b, d, GetInode(s, d), s.dirs[d]);
      }
    }
  }

  lemma DirInUse(s: Snap, d: nat)
    requires Inv(s) && d in s.dirs
    ensures d in s.inos && 0 < d < s.sb.totalInodes && NodeOk(s.owner, d, GetInode(s, d)) && GetInode(s, d).kind == DIR
    ensures DirHolds(s.disk, GetInode(s, d), s.dirs[d]) && Linked(s, s.dirs[d])
  {
    hide DirHolds, GetInode, Linked, NodeOk;
  }

  lemma DataWrittenInv(s: Snap, s2: Snap, ino: nat, lba: nat, b: Block)
    requires Inv(s) && DataWritten(s, s2, ino, lba, b) && DataFits(s, s2, ino, b)
    ensures Inv(s2)
  {
    hide DirsOk, TablesOk, DataOk, BlockMapOk, InodeMapOk, MetaOk, Geometry, GetInode, DataFits;
    DataWrittenMeta(s, s2, ino, lba, b);
    DataWrittenDirs(s, s2, ino, lba, b);
    DataWrittenTables(s, s2, ino, lba, b);
  }

  /** A file is untouched when the pointer tables and its own blocks are. */
  lemma OwnBlocksSame(disk: seq<Block>, ow: Owners, disk2: seq<Block>, ino: nat, node: Inode)
    requires TablesOk(disk, ow) && NodeOk(ow, ino, node) && |disk2| == |disk|
    requires forall p: nat :: IsTableBlock(ow, p) && p < |disk| ==> disk2[p] == disk[p]
    requires forall p: nat :: p in ow && ow[p].ino == ino && p < |disk| ==> disk2[p] == disk[p]
    ensures SameBlocks(disk, disk2, node)
  {
    forall i: nat | i < MAX_BLOCKS
      ensures Lookup(disk2, node, i) == Lookup(disk, node, i)
      ensures 0 < Lookup(disk, node, i) < |disk| ==> disk2[Lookup(disk, node, i)] == disk[Lookup(disk, node, i)]
    {
      LookupSameTables(disk, ow, disk2, ino, node, i);
      LookupOwner(disk, ow, ino, node, i);
    }
  }

  lemma InodeInUse(s: Snap, ino: nat)
    requires Inv(s) && ino in s.inos
    ensures ino < s.sb.totalInodes && NodeOk(s.owner, ino, GetInode(s, ino))
    ensures TablesOk(s.disk, s.owner)
  {
  }

  lemma DataWrittenFiles(s: Snap, s2: Snap, ino: nat, lba: nat, b: Block)
    requires Inv(s) && DataWritten(s, s2, ino, lba, b) && s2.dirs.Keys == s.dirs.Keys
    ensures FilesKept(s, s2, ino)
  {
    hide Inv, SameBlocks, GetInode, NodeOk, TablesOk;
    DataWrittenMeta(s, s2, ino, lba, b);
    forall i2 | i2 in s.inos && i2 != ino && i2 !in s.dirs ensures SameFile(s, s2, i2) {
      InodeInUse(s, i2);
      OwnBlocksSame(s.disk, s.owner, s2.disk, i2, GetInode(s, i2));
    }
  }

  lemma InodeWrittenFiles(s: Snap, s2: Snap, ino: nat, node: Inode)
    requires Inv(s) && InodeWritten(s, s2, ino, node) && s2.dirs.Keys == s.dirs.Keys
    ensures FilesKept(s, s2, ino)
  {
    hide Inv, SameBlocks, GetInode, NodeOk, TablesOk;
    InodeWrittenOwned(s, s2, ino, node);
    forall i2 | i2 in s.inos && i2 != ino && i2 !in s.dirs ensures SameFile(s, s2, i2) {
      InodeInUse(s, i2);
      OwnBlocksSame(s.disk, s.owner, s2.disk, i2, GetInode(s, i2));
    }
  }

  lemma InodeWrittenOwned(s: Snap, s2: Snap, ino: nat, node: Inode)
    requires Inv(s) && InodeWritten(s, s2, ino, node)
    ensures GetInode(s2, ino) == node
    ensures forall i: nat :: i < s.sb.totalInodes && i != ino ==> GetInode(s2, i) == GetInode(s, i)
    ensures forall p :: p in s.owner ==> p < |s.disk| && s2.disk[p] == s.disk[p]
  {
    InodeWrittenReads(s, s2, ino, node);
  }

  // ------------------------------------------------------------------
  // Directory entries
  // ------------------------------------------------------------------

  /** Exactly entry (blk, j) of the directory changed. */
  lemma EntryWritten(s: Snap, s2: Snap, d: nat, node: Inode, blk: nat, j: nat, lba: nat, e: Dirent, i: nat, k: nat)
    requires TablesOk(s.disk, s.owner) && NodeOk(s.owner, d, node)
    requires blk < MAX_BLOCKS && j < DIRENTS_PER_BLOCK && lba == Lookup(s.disk, node, blk) != 0 && lba < |s.disk|
    requires DataWritten(s, s2, d, lba, Dirents(DirentsOf(s.disk[lba])[j := e]))
    requires i < MAX_BLOCKS && k < DIRENTS_PER_BLOCK
    ensures Lookup(s2.disk, node, i) == Lookup(s.disk, node, i)
    ensures EntryAt(s2.disk, node, i, k) == if i == blk && k == j then e else EntryAt(s.disk, node, i, k)
  {
    var b := Dirents(DirentsOf(s.disk[lba])[j := e]);
    DataWrittenLookup(s, s2, d, lba, b, d, node, i);
    DataWrittenLookup(s, s2, d, lba, b, d, node, blk);
    PathsAreIndices(i);
    PathsAreIndices(blk);
  }

  /** Filling a free slot of a directory adds one name to its map. */
  lemma EntryAdded(s: Snap, s2: Snap, d: nat, node: Inode, m: map<string, nat>, blk: nat, j: nat, lba: nat, child: nat,
                   name: string)
    requires TablesOk(s.disk, s.owner) && NodeOk(s.owner, d, node) && DirHolds(s.disk, node, m)
    requires blk < node.size / BLOCK_SIZE && j < DIRENTS_PER_BLOCK && lba == Lookup(s.disk, node, blk) != 0
             && lba < |s.disk|
    requires DataWritten(s, s2, d, lba, Dirents(DirentsOf(s.disk[lba])[j := Dirent(child, name)]))
    requires DirentsOf(s.disk[lba])[j].inode == 0 && name !in m && child != 0
    ensures DirHolds(s2.disk, node, m[name := child])
  {
    hide DataWritten, TablesOk, NodeOk;
    assert EntryAt(s.disk, node, blk, j).inode == 0;
    forall i: nat, k: nat | i < MAX_BLOCKS && k < DIRENTS_PER_BLOCK
      ensures Lookup(s2.disk, node, i) == Lookup(s.disk, node, i)
      ensures EntryAt(s2.disk, node, i, k) == if i == blk && k == j then Dirent(child, name)
              else EntryAt(s.disk, node, i, k)
    {
      EntryWritten(s, s2, d, node, blk, j, lba, Dirent(child, name), i, k);
    }
    hide EntryAt, Lookup;
    forall i: nat | i < node.size / BLOCK_SIZE ensures Lookup(s2.disk, node, i) != 0 {
      EntryWritten(s, s2, d, node, blk, j, lba, Dirent(child, name), i, 0);
    }
    SlotFills(s.disk, s2.disk, node, m, blk, j, child, name);
  }

  /** With one more used entry slot the entries spell out one more name. */
  lemma SlotFills(disk: seq<Block>, disk2: seq<Block>, node: Inode, m: map<string, nat>, blk: nat, j: nat, child: nat,
                  name: string)
    requires DirHolds(disk, node, m) && name !in m && child != 0
    requires blk < node.size / BLOCK_SIZE && j < DIRENTS_PER_BLOCK && EntryAt(disk, node, blk, j).inode == 0
    requires forall i: nat :: i < node.size / BLOCK_SIZE ==> Lookup(disk2, node, i) != 0
    requires forall i: nat, k: nat :: i < MAX_BLOCKS && k < DIRENTS_PER_BLOCK ==>
               EntryAt(disk2, node, i, k) == if i == blk && k == j then Dirent(child, name)
                 else EntryAt(disk, node, i, k)
    ensures DirHolds(disk2, node, m[name := child])
  {
    hide EntryAt, Lookup;
    var m2 := m[name := child];
    forall n | n in m2 ensures HasEntry(disk2, node, n, m2[n]) {
      if n == name {
        assert EntryAt(disk2, node, blk, j) == Dirent(child, name);
      } else {
        assert HasEntry(disk, node, n, m[n]);
        var i: nat, k: nat :| i < node.size / BLOCK_SIZE && k < DIRENTS_PER_BLOCK
                              && EntryAt(disk, node, i, k) == Dirent(m[n], n);
        assert EntryAt(disk2, node, i, k) == Dirent(m[n], n);
      }
    }
  }

  /** The directory inode that covers one block more. */
  function Longer(node: Inode): Inode {
    node.(size := (node.size / BLOCK_SIZE + 1) * BLOCK_SIZE)
  }

  /** Where blocks are does not depend on the size. */
  lemma LookupSize(disk: seq<Block>, node: Inode, size: nat)
    requires |node.ptrs| == ROOT_PTRS
    ensures forall i: nat :: i < MAX_BLOCKS ==> Lookup(disk, node.(size := size), i) == Lookup(disk, node, i)
  {
  }

  /** Resolving one more block of a directory changes no used entry. */
  lemma EntryGrown(s0: Snap, s: Snap, d: nat, node0: Inode, node: Inode, idx: nat, lba: nat, i: nat, k: nat)
    requires TablesOk(s0.disk, s0.owner) && InBlocks(s0) && s0.sb.totalBlocks == |s0.disk|
    requires Resolved(s0, s, d, node0, node, idx, lba) && lba != 0 && i < MAX_BLOCKS && k < DIRENTS_PER_BLOCK
    ensures |node.ptrs| == ROOT_PTRS
    ensures Lookup(s.disk, node, i) == if i == idx then lba else Lookup(s0.disk, node0, i)
    ensures || EntryAt(s.disk, Longer(node), i, k).inode == EntryAt(s0.disk, node0, i, k).inode == 0
            || EntryAt(s.disk, Longer(node), i, k) == EntryAt(s0.disk, node0, i, k)
  {
    LookupOwner(s0.disk, s0.owner, d, node0, i);
    LookupSize(s.disk, node, Longer(node).size);
    hide TablesOk, PathOf, Lookup;
  }

  /** Growing a directory by a block without used entries keeps its name map. */
  lemma DirGrown(s0: Snap, s: Snap, d: nat, node0: Inode, node: Inode, m: map<string, nat>, lba: nat)
    requires TablesOk(s0.disk, s0.owner) && InBlocks(s0) && s0.sb.totalBlocks == |s0.disk|
             && DirHolds(s0.disk, node0, m)
    requires Resolved(s0, s, d, node0, node, node0.size / BLOCK_SIZE, lba) && lba != 0
    ensures DirHolds(s.disk, Longer(node), m)
    ensures lba < |s.disk| ==> forall j :: 0 <= j < DIRENTS_PER_BLOCK ==> DirentsOf(s.disk[lba])[j].inode == 0
  {
    var big, n := Longer(node), node0.size / BLOCK_SIZE;
    EntryGrown(s0, s, d, node0, node, n, lba, n, 0);
    LookupSize(s.disk, node, big.size);
    forall k: nat | k < DIRENTS_PER_BLOCK && lba < |s.disk| ensures DirentsOf(s.disk[lba])[k].inode == 0 {
      EntryGrown(s0, s, d, node0, node, n, lba, n, k);
    }
    hide TablesOk, InBlocks, Lookup, EntryAt, DirHolds;
    forall i: nat, k: nat | i < MAX_BLOCKS && k < DIRENTS_PER_BLOCK
      ensures EntryAt(s.disk, big, i, k).inode == EntryAt(s0.disk, node0, i, k).inode == 0
           || EntryAt(s.disk, big, i, k) == EntryAt(s0.disk, node0, i, k)
    {
      EntryGrown(s0, s, d, node0, node, n, lba, i, k);
    }
    forall i: nat | i < MAX_BLOCKS ensures Lookup(s.disk, big, i) == if i == n then lba else Lookup(s0.disk, node0, i) {
      EntryGrown(s0, s, d, node0, node, n, lba, i, 0);
    }
    hide Resolved;
    SameNames(s0.disk, s.disk, node0, big, m, lba);
  }

  /** The same used entries, and one block more, spell out the same names. */
  lemma SameNames(disk0: seq<Block>, disk: seq<Block>, node0: Inode, big: Inode, m: map<string, nat>, lba: nat)
    requires DirHolds(disk0, node0, m) && |big.ptrs| == ROOT_PTRS && lba != 0
    requires node0.size / BLOCK_SIZE < MAX_BLOCKS && big.size == (node0.size / BLOCK_SIZE + 1) * BLOCK_SIZE
    requires forall i: nat, k: nat :: i < MAX_BLOCKS && k < DIRENTS_PER_BLOCK ==>
               || EntryAt(disk, big, i, k).inode == EntryAt(disk0, node0, i, k).inode == 0
               || EntryAt(disk, big, i, k) == EntryAt(disk0, node0, i, k)
    requires forall i: nat :: i < MAX_BLOCKS ==>
               Lookup(disk, big, i) == if i == node0.size / BLOCK_SIZE then lba else Lookup(disk0, node0, i)
    ensures DirHolds(disk, big, m)
  {
    hide EntryAt, Lookup;
    forall name | name in m ensures HasEntry(disk, big, name, m[name]) {
      assert HasEntry(disk0, node0, name, m[name]);
      var i: nat, k: nat :| i < node0.size / BLOCK_SIZE && k < DIRENTS_PER_BLOCK
                            && EntryAt(disk0, node0, i, k) == Dirent(m[name], name);
      assert EntryAt(disk, big, i, k) == Dirent(m[name], name);
    }
  }

  function WithName(dirs: map<nat, map<string, nat>>, d: nat, name: string, child: nat): map<nat, map<string, nat>>
    requires d in dirs
  {
    var m: map<string, nat> := dirs[d][name := child];
    dirs[d := m]
  }

  /** A child that may be entered under a new name in directory d. */
  ghost predicate Enterable(s: Snap, d: nat, child: nat, name: string) {
    && d in s.dirs
    && name !in s.dirs[d] && |name| < NAME_MAX
    && child in s.inos && child != 0 && GetInode(s, child).kind in {FILE, DIR}
  }

  /** A directory inode that addresses as many blocks as an inode can. */
  predicate DirFull(s: Snap, d: nat) {
    GetInode(s, d).size / BLOCK_SIZE >= MAX_BLOCKS
  }

  /** No block or no inode is left. */
  predicate Exhausted(s: Snap) {
    s.sb.freeBlocks == 0 || s.sb.freeInodes == 0
  }

  /** dir_add in one statement: directory d has one name more, and no file changed. */
  ghost predicate NameAdded(s: Snap, s2: Snap, d: nat, child: nat, name: string) {
    && s2.inos == s.inos
    && d in s.dirs && s2.dirs == WithName(s.dirs, d, name, child)
    && FilesKept(s, s2, d)
  }

  /** The entry goes into a block the directory already covers. */
  lemma NameWritten(s: Snap, s2: Snap, d: nat, blk: nat, j: nat, lba: nat, child: nat, name: string)
    requires Inv(s) && Enterable(s, d, child, name)
    requires blk < GetInode(s, d).size / BLOCK_SIZE && j < DIRENTS_PER_BLOCK && IsDirNode(GetInode(s, d))
    requires lba == Lookup(s.disk, GetInode(s, d), blk) && 0 < lba < |s.disk| && DirentsOf(s.disk[lba])[j].inode == 0
    requires s2 == Snap(s.disk[lba := Dirents(DirentsOf(s.disk[lba])[j := Dirent(child, name)])], s.sb, s.owner, s.inos,
                        WithName(s.dirs, d, name, child))
    ensures Inv(s2) && NameAdded(s, s2, d, child, name)
  {
    hide Inv, DirHolds, FilesKept, GetInode, TablesOk, NodeOk;
    var b := Dirents(DirentsOf(s.disk[lba])[j := Dirent(child, name)]);
    DirInUse(s, d);
    InodeInUse(s, d);
    LookupOwner(s.disk, s.owner, d, GetInode(s, d), blk);
    assert DataWritten(s, s2, d, lba, b);
    EntryAdded(s, s2, d, GetInode(s, d), s.dirs[d], blk, j, lba, child, name);
    DataWrittenInv(s, s2, d, lba, b);
    DataWrittenFiles(s, s2, d, lba, b);
  }

  /** The entry goes into the block after the last: the inode grows with it. */
  lemma NameAppended(s0: Snap, s: Snap, s2: Snap, d: nat, node: Inode, lba: nat, child: nat, name: string)
    requires Inv(s0) && Inv(s) && Enterable(s0, d, child, name) && IsDirNode(GetInode(s0, d))
    requires Resolved(s0, s, d, GetInode(s0, d), node, GetInode(s0, d).size / BLOCK_SIZE, lba) && lba != 0
    requires lba < |s.disk| && d < s.sb.totalInodes
             && s.sb.inodeTableStart + d / INODES_PER_BLOCK < s.sb.dataStart <= lba
    requires s2.disk == s.disk[lba := Dirents(DirentsOf(s.disk[lba])[0 := Dirent(child, name)])]
                              [s.sb.inodeTableStart + d / INODES_PER_BLOCK :=
                                 InodeTable(InodesOf(s.disk[s.sb.inodeTableStart + d / INODES_PER_BLOCK])
                                              [d % INODES_PER_BLOCK := Longer(node)])]
    requires s2 == Snap(s2.disk, s.sb, s.owner, s.inos, WithName(s.dirs, d, name, child))
    ensures Inv(s2) && NameAdded(s0, s2, d, child, name)
  {
    hide Inv, DirHolds, FilesKept, TablesOk, NodeOk, Resolved, IsDirNode;
    var ilba := s.sb.inodeTableStart + d / INODES_PER_BLOCK;
    var mid := Snap(s.disk[ilba := InodeTable(InodesOf(s.disk[ilba])[d % INODES_PER_BLOCK := Longer(node)])], s.sb,
      s.owner, s.inos, s.dirs);
    GrownInode(s0, s, mid, d, node, lba, child, name);
    assert s2.disk == mid.disk[lba := Dirents(DirentsOf(mid.disk[lba])[0 := Dirent(child, name)])];
    NameWritten(mid, s2, d, GetInode(s0, d).size / BLOCK_SIZE, 0, lba, child, name);
    FilesKeptTrans(s0, mid, s2, d);
  }

  lemma GrownFits(s0: Snap, s: Snap, d: nat, node: Inode, lba: nat)
    requires Inv(s0) && d in s0.dirs && IsDirNode(GetInode(s0, d))
    requires Resolved(s0, s, d, GetInode(s0, d), node, GetInode(s0, d).size / BLOCK_SIZE, lba) && lba != 0
    ensures InodeFits(s, s.dirs, d, Longer(node)) && IsDirNode(Longer(node))
    ensures lba < |s.disk| ==> DirentsOf(s.disk[lba])[0].inode == 0
  {
    hide Inv, DirHolds, TablesOk, OthersKept, DirentsOf;
    DirInUse(s0, d);
    ImageBounds(s0);
    DirGrown(s0, s, d, GetInode(s0, d), node, s0.dirs[d], lba);
    LinksSteady(s0, s, d);
    SizeGrows(node);
  }

  lemma SizeGrows(node: Inode)
    requires IsDirNode(node) && node.size / BLOCK_SIZE < MAX_BLOCKS
    ensures IsDirNode(Longer(node)) && Longer(node).size <= MAX_BLOCKS * BLOCK_SIZE
    ensures Longer(node).size / BLOCK_SIZE == node.size / BLOCK_SIZE + 1
  {
  }

  lemma ImageBounds(s: Snap)
    requires Inv(s)
    ensures TablesOk(s.disk, s.owner) && InBlocks(s) && s.sb.totalBlocks == |s.disk|
  {
  }

  lemma LinksSteady(s0: Snap, s: Snap, d: nat)
    requires Inv(s0) && d in s0.dirs && Steady(s0, s)
    ensures d in s.dirs && d in s.inos && LinkedOr(s, s.dirs[d], d) && GetInode(s, d).kind == DIR
  {
    hide DirHolds, TablesOk, GetInode;
    DirInUse(s0, d);
  }

  lemma GrownInode(s0: Snap, s: Snap, mid: Snap, d: nat, node: Inode, lba: nat, child: nat, name: string)
    requires Inv(s0) && Inv(s) && Enterable(s0, d, child, name) && IsDirNode(GetInode(s0, d))
    requires Resolved(s0, s, d, GetInode(s0, d), node, GetInode(s0, d).size / BLOCK_SIZE, lba) && lba != 0
    requires lba < |s.disk| && s.sb.inodeTableStart + d / INODES_PER_BLOCK < s.sb.dataStart <= lba
    requires InodeWritten(s, mid, d, Longer(node)) && mid.dirs == s.dirs
    ensures Inv(mid) && FilesKept(s0, mid, d)
    ensures mid.sb == s.sb && mid.inos == s0.inos && mid.dirs == s0.dirs && Enterable(mid, d, child, name)
    ensures IsDirNode(GetInode(mid, d)) && GetInode(mid, d).size / BLOCK_SIZE == GetInode(s0, d).size / BLOCK_SIZE + 1
    ensures lba == Lookup(mid.disk, GetInode(mid, d), GetInode(s0, d).size / BLOCK_SIZE)
    ensures mid.disk[lba] == s.disk[lba] && DirentsOf(s.disk[lba])[0].inode == 0
  {
    hide Inv, InodeFits, FilesKept, DirentsOf;
    GrownFits(s0, s, d, node, lba);
    InodeWrittenInv(s, mid, d, Longer(node));
    ResolvedFiles(s0, s, d, PathOf(GetInode(s0, d).size / BLOCK_SIZE));
    InodeWrittenFiles(s, mid, d, Longer(node));
    FilesKeptTrans(s0, s, mid, d);
    InodeWrittenOwned(s, mid, d, Longer(node));
    GrownLookup(s0, s, mid, d, node, lba);
    SizeGrows(node);
    assert child != d ==> GetInode(mid, child) == GetInode(s0, child) by { InodeInUse(s0, child); }
  }

  lemma GrownLookup(s0: Snap, s: Snap, mid: Snap, d: nat, node: Inode, lba: nat)
    requires Inv(s) && InodeWritten(s, mid, d, Longer(node)) && IsDirNode(GetInode(s0, d))
    requires Resolved(s0, s, d, GetInode(s0, d), node, GetInode(s0, d).size / BLOCK_SIZE, lba)
    ensures |node.ptrs| == ROOT_PTRS && Lookup(mid.disk, Longer(node), GetInode(s0, d).size / BLOCK_SIZE) == lba
  {
    hide DirsOk, Steady, OthersKept;
    InodeWrittenOwned(s, mid, d, Longer(node));
    LookupSameTables(s.disk, s.owner, mid.disk, d, node, GetInode(s0, d).size / BLOCK_SIZE);
  }

  // ------------------------------------------------------------------
  // Searching a directory
  // ------------------------------------------------------------------

  /** The inode a name leads to in directory d, 0 when there is none. */
  function NameIn(dirs: map<nat, map<string, nat>>, d: nat, name: string): nat
    requires d in dirs
  {
    if name in dirs[d] then dirs[d][name] else 0
  }

  /** No entry before entry j of block i bears the name. */
  ghost predicate NotAmong(disk: seq<Block>, node: Inode, name: string, i: nat, j: nat)
    requires |node.ptrs| == ROOT_PTRS && i <= MAX_BLOCKS
  {
    forall a: nat, b: nat :: a < MAX_BLOCKS && b < DIRENTS_PER_BLOCK && (a < i || (a == i && b < j)) ==>
      EntryAt(disk, node, a, b).inode == 0 || EntryAt(disk, node, a, b).name != name
  }

  lemma KindOf(s: Snap, ino: nat)
    requires Inv(s) && ino in s.inos
    ensures GetInode(s, ino).kind == DIR <==> ino in s.dirs
  {
  }

  lemma BlockOfDir(s: Snap, d: nat, i: nat, lba: nat)
    requires Inv(s) && d in s.dirs && i < MAX_BLOCKS && |GetInode(s, d).ptrs| == ROOT_PTRS
    requires i < GetInode(s, d).size / BLOCK_SIZE && lba == Lookup(s.disk, GetInode(s, d), i)
    ensures 0 < lba < |s.disk|
    ensures lba in s.owner && s.owner[lba] == Owner(d, PathOf(i)) && DataBlockOk(s.disk[lba], true)
  {
    hide EntryAt, HasEntry;
    DirInUse(s, d);
    LookupOwner(s.disk, s.owner, d, GetInode(s, d), i);
  }

  lemma DirShape(s: Snap, d: nat)
    requires Inv(s) && d in s.dirs
    ensures IsDirNode(GetInode(s, d)) && NodeOk(s.owner, d, GetInode(s, d)) && d in s.inos && d < s.sb.totalInodes
    ensures (GetInode(s, d).size + BLOCK_SIZE - 1) / BLOCK_SIZE == GetInode(s, d).size / BLOCK_SIZE
  {
    hide EntryAt, HasEntry;
    DirInUse(s, d);
  }

  lemma SearchBegins(disk: seq<Block>, node: Inode, name: string)
    requires |node.ptrs| == ROOT_PTRS
    ensures NotAmong(disk, node, name, 0, 0)
  {
  }

  lemma SearchGoesOn(disk: seq<Block>, node: Inode, name: string, i: nat, j: nat)
    requires |node.ptrs| == ROOT_PTRS && i < MAX_BLOCKS && j < DIRENTS_PER_BLOCK && NotAmong(disk, node, name, i, j)
    requires EntryAt(disk, node, i, j).inode == 0 || EntryAt(disk, node, i, j).name != name
    ensures NotAmong(disk, node, name, i, j + 1)
  {
  }

  lemma SearchNextBlock(disk: seq<Block>, node: Inode, name: string, i: nat)
    requires |node.ptrs| == ROOT_PTRS && i < MAX_BLOCKS && NotAmong(disk, node, name, i, DIRENTS_PER_BLOCK)
    ensures NotAmong(disk, node, name, i + 1, 0)
  {
    hide EntryAt;
  }

  lemma EntryFound(s: Snap, d: nat, i: nat, j: nat, name: string)
    requires Inv(s) && d in s.dirs && IsDirNode(GetInode(s, d)) && i < GetInode(s, d).size / BLOCK_SIZE
             && j < DIRENTS_PER_BLOCK
    requires EntryAt(s.disk, GetInode(s, d), i, j).inode != 0 && EntryAt(s.disk, GetInode(s, d), i, j).name == name
    ensures NameIn(s.dirs, d, name) == EntryAt(s.disk, GetInode(s, d), i, j).inode
  {
    hide EntryAt;
    DirInUse(s, d);
  }

  lemma EntryMissing(s: Snap, d: nat, name: string)
    requires Inv(s) && d in s.dirs && IsDirNode(GetInode(s, d))
    requires NotAmong(s.disk, GetInode(s, d), name, GetInode(s, d).size / BLOCK_SIZE, 0)
    ensures NameIn(s.dirs, d, name) == 0
  {
    hide EntryAt, Inv, GetInode;
    DirInUse(s, d);
  }

  /** A resolved directory block: its slots are the entries, and one past the end is all free. */
  lemma DirBlockRead(s0: Snap, s: Snap, d: nat, node: Inode, i: nat, lba: nat)
    requires Inv(s0) && Inv(s) && d in s0.dirs && IsDirNode(GetInode(s0, d)) && i <= GetInode(s0, d).size / BLOCK_SIZE
    requires Resolved(s0, s, d, GetInode(s0, d), node, i, lba) && lba != 0
    ensures lba < |s.disk| && s.sb.dataStart <= lba && s.dirs == s0.dirs && s.inos == s0.inos
            && s.sb.totalInodes == s0.sb.totalInodes
    ensures s.sb.inodeTableStart + d / INODES_PER_BLOCK < s.sb.dataStart && d < s.sb.totalInodes
    ensures i < GetInode(s0, d).size / BLOCK_SIZE ==> s == s0 && node == GetInode(s0, d)
    ensures i == GetInode(s0, d).size / BLOCK_SIZE ==> DirentsOf(s.disk[lba])[0].inode == 0
  {
    hide DirHolds, DirentsOf;
    if i < GetInode(s0, d).size / BLOCK_SIZE {
      BlockOfDir(s0, d, i, Lookup(s0.disk, GetInode(s0, d), i));
    } else {
      GrownFits(s0, s, d, node, lba);
    }
    LookupOwner(s.disk, s.owner, d, node, i);
    DirInUse(s0, d);
    InodeInTable(s, d);
  }

  lemma GaveUp(s0: Snap, s: Snap, ino: nat, idx: nat)
    requires Inv(s0) && Abandoned(s0, s, ino, idx)
    ensures FilesKept(s0, s, ino) && s.dirs == s0.dirs && s.inos == s0.inos && s.sb.totalInodes == s0.sb.totalInodes
    ensures idx >= MAX_BLOCKS ==> s == s0
  {
    if idx < MAX_BLOCKS {
      ResolvedFiles(s0, s, ino, PathOf(idx));
    } else {
      FilesUntouched(s0, ino);
    }
  }

  lemma FilesUntouched(s: Snap, except: nat)
    requires Inv(s)
    ensures FilesKept(s, s, except)
  {
    hide DirsOk;
  }

  /** The loop of dir_add stops at a free slot inside the directory, or at slot 0 of a new block. */
  lemma SlotFound(s0: Snap, mid: Snap, s2: Snap, d: nat, node: Inode, blk: nat, i: nat, lba: nat, child: nat,
                  name: string)
    requires Inv(s0) && Inv(mid) && Enterable(s0, d, child, name) && IsDirNode(GetInode(s0, d))
             && blk <= GetInode(s0, d).size / BLOCK_SIZE
    requires Resolved(s0, mid, d, GetInode(s0, d), node, blk, lba) && lba != 0 && lba < |mid.disk|
    requires i < DIRENTS_PER_BLOCK && DirentsOf(mid.disk[lba])[i].inode == 0
    requires forall k :: 0 <= k < i ==> DirentsOf(mid.disk[lba])[k].inode != 0
    requires mid.sb.inodeTableStart + d / INODES_PER_BLOCK < |mid.disk| && d in mid.dirs
    requires s2.disk ==
             var written := mid.disk[lba := Dirents(DirentsOf(mid.disk[lba])[i := Dirent(child, name)])];
             if node.size < (blk + 1) * BLOCK_SIZE
             then written[mid.sb.inodeTableStart + d / INODES_PER_BLOCK :=
                            InodeTable(InodesOf(written[mid.sb.inodeTableStart + d / INODES_PER_BLOCK])
                                         [d % INODES_PER_BLOCK := node.(size := (blk + 1) * BLOCK_SIZE)])]
             else written
    requires s2 == Snap(s2.disk, mid.sb, mid.owner, mid.inos, WithName(mid.dirs, d, name, child))
    ensures Inv(s2) && NameAdded(s0, s2, d, child, name)
  {
    hide Inv, Resolved, NodeOk, DirHolds, FilesKept, InodesOf;
    DirBlockRead(s0, mid, d, node, blk, lba);
    ResolvedAt(s0, mid, d, GetInode(s0, d), node, blk, lba);
    ResolvedSize(s0, mid, d, GetInode(s0, d), node, blk, lba);
    if blk < GetInode(s0, d).size / BLOCK_SIZE {
      NameWritten(mid, s2, d, blk, i, lba, child, name);
    } else {
      assert i == 0;
      assert node.(size := (blk + 1) * BLOCK_SIZE) == Longer(node);
      NameAppended(s0, mid, s2, d, node, lba, child, name);
    }
  }

  /** Writing a data block touches no inode. */
  lemma InodesBeside(s: Snap, s2: Snap, lba: nat, b: Block, d: nat)
    requires Geometry(s.sb, |s.disk|) && s.sb.dataStart <= lba < |s.disk| && d < s.sb.totalInodes
    requires s2.disk == s.disk[lba := b] && s2.sb == s.sb
    ensures GetInode(s2, d) == GetInode(s, d)
  {
    InodeInTable(s, d);
  }

  /** A directory grows by one block at most when a name is added. */
  lemma EntrySize(s0: Snap, mid: Snap, wrote: Snap, s2: Snap, d: nat, node: Inode, blk: nat, lba: nat, b: Block)
    requires Inv(mid) && Resolved(s0, mid, d, GetInode(s0, d), node, blk, lba) && d < s0.sb.totalInodes
             && blk <= DirBlocks(s0, d)
    requires mid.sb.dataStart <= lba < |mid.disk|
    requires wrote.disk == mid.disk[lba := b] && wrote.sb == mid.sb && wrote.owner == mid.owner
    requires s2 == wrote || InodeWritten(wrote, s2, d, node.(size := (blk + 1) * BLOCK_SIZE))
    ensures DirBlocks(s2, d) <= DirBlocks(s0, d) + 1
  {
    assert Steady(s0, mid);
    assert GetInode(mid, d) == GetInode(s0, d);
    hide Resolved, Steady, GetInode, InodeWritten;
    InodesBeside(mid, wrote, lba, b, d);
    if s2 != wrote {
      InodeWrittenReads(wrote, s2, d, node.(size := (blk + 1) * BLOCK_SIZE));
    }
  }

  lemma GaveUpSize(s0: Snap, s: Snap, d: nat, idx: nat)
    requires Abandoned(s0, s, d, idx) && d < s0.sb.totalInodes
    ensures DirBlocks(s, d) == DirBlocks(s0, d)
  {
    hide GetInode;
  }

  lemma ResolvedSize(s0: Snap, s: Snap, ino: nat, node0: Inode, node: Inode, idx: nat, lba: nat)
    requires Resolved(s0, s, ino, node0, node, idx, lba)
    ensures node == node0.(ptrs := node.ptrs)
  {
  }
}
