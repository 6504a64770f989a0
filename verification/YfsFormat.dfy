/** A freshly formatted image, and new directories in it. */
module YfsFormat {
  import opened YfsTree
  import opened YfsState
  import opened YfsAlloc
  import opened YfsData
  import opened YfsPath

  /** The entry block that dir_init_dots writes. */
  function DotsBlock(self: nat, parent: nat): Block {
    Dirents([Dirent(self, "."), Dirent(parent, "..")] + seq(DIRENTS_PER_BLOCK - 2, _ => Dirent(0, "")))
  }

  function Dots(self: nat, parent: nat): map<string, nat> {
    map["." := self, ".." := parent]
  }

  /** A directory inode without any block yet. */
  predicate EmptyDir(node: Inode) {
    node.kind == DIR && node.size == 0 && node.ptrs == Zeros(ROOT_PTRS)
  }

  function DotsNode(node: Inode, lba: nat): Inode
    requires |node.ptrs| == ROOT_PTRS
  {
    node.(size := BLOCK_SIZE, ptrs := node.ptrs[0 := lba])
  }

  lemma EmptyDirHolds(disk: seq<Block>, node: Inode)
    requires EmptyDir(node)
    ensures DirHolds(disk, node, map[])
  {
  }

  lemma DotsLookup(disk: seq<Block>, node: Inode, lba: nat, i: nat)
    requires EmptyDir(node) && i < MAX_BLOCKS
    ensures Lookup(disk, DotsNode(node, lba), i) == if i == 0 then lba else 0
  {
    if i == 0 {
      assert PathOf(i)[1..] == [];
    }
  }

  lemma DotsHold(disk: seq<Block>, node: Inode, lba: nat, self: nat, parent: nat)
    requires EmptyDir(node) && 0 < lba < |disk| && disk[lba] == DotsBlock(self, parent) && self != 0 && parent != 0
    ensures DirHolds(disk, DotsNode(node, lba), Dots(self, parent))
  {
    var n := DotsNode(node, lba);
    forall i: nat, j: nat | i < MAX_BLOCKS && j < DIRENTS_PER_BLOCK
      ensures EntryAt(disk, n, i, j) == if i == 0 then DotsBlock(self, parent).ents[j] else Dirent(0, "")
    {
      DotsLookup(disk, node, lba, i);
    }
    DotsLookup(disk, node, lba, 0);
    assert EntryAt(disk, n, 0, 0) == Dirent(self, ".") && EntryAt(disk, n, 0, 1) == Dirent(parent, "..");
    assert HasEntry(disk, n, ".", self) && HasEntry(disk, n, "..", parent);
  }

  /** The three writes of dir_init_dots. */
  lemma DotsWritten(s: Snap, s1: Snap, s2: Snap, s3: Snap, self: nat, parent: nat, lba: nat)
    requires Inv(s) && Inv(s1) && self in s.dirs && parent in s.dirs && EmptyDir(GetInode(s, self))
             && s.dirs[self] == map[]
    requires Allocated(s, s1, lba, Owner(self, [0])) && lba < |s1.disk|
    requires s2 == WithBlock(s1, lba, DotsBlock(self, parent))
    requires InodeWritten(s2, s3, self, DotsNode(GetInode(s, self), lba))
    requires s3.dirs == s.dirs[self := Dots(self, parent)]
    ensures Inv(s3)
  {
    hide Inv, GetInode, DirHolds, InodeWritten, NodeOk, DotsBlock, DotsNode;
    DirInUse(s, self);
    DirInUse(s, parent);
    AllocSame(s, s1, lba, Owner(self, [0]), self);
    AllocSame(s, s1, lba, Owner(self, [0]), parent);
    EmptyDirHolds(s2.disk, GetInode(s, self));
    EmptyLinks(s1);
    BlockOk(self, parent);
    assert DataWritten(s1, s2, self, lba, DotsBlock(self, parent));
    DataWrittenInv(s1, s2, self, lba, DotsBlock(self, parent));
    DataWrittenMeta(s1, s2, self, lba, DotsBlock(self, parent));
    DotsFit(s, s1, s2, s3.dirs, self, parent, lba);
    InodeWrittenInv(s2, s3, self, DotsNode(GetInode(s, self), lba));
  }

  lemma BlockOk(self: nat, parent: nat)
    ensures DataBlockOk(DotsBlock(self, parent), true)
  {
  }

  lemma EmptyLinks(s: Snap)
    ensures Linked(s, map[])
  {
  }

  lemma AllocSame(s: Snap, s1: Snap, lba: nat, o: Owner, ino: nat)
    requires Inv(s) && Allocated(s, s1, lba, o) && ino < s.sb.totalInodes
    ensures GetInode(s1, ino) == GetInode(s, ino) && lba != 0
  {
    AllocOwned(s, s1, lba, o);
  }

  lemma DotsFit(s: Snap, s1: Snap, s2: Snap, names: map<nat, map<string, nat>>, self: nat, parent: nat, lba: nat)
    requires Inv(s) && self in s.dirs && parent in s.dirs && EmptyDir(GetInode(s, self))
    requires Allocated(s, s1, lba, Owner(self, [0])) && 0 < lba < |s1.disk|
    requires s2 == WithBlock(s1, lba, DotsBlock(self, parent))
    requires forall i: nat :: i < s.sb.totalInodes ==> GetInode(s2, i) == GetInode(s1, i)
    requires GetInode(s1, self) == GetInode(s, self) && GetInode(s1, parent) == GetInode(s, parent)
    requires names == s.dirs[self := Dots(self, parent)]
    ensures InodeFits(s2, names, self, DotsNode(GetInode(s, self), lba))
  {
    hide Inv, GetInode, DirHolds, DotsBlock;
    DirInUse(s, self);
    DirInUse(s, parent);
    DotsHold(s2.disk, GetInode(s, self), lba, self, parent);
    DotsNodeOk(s.owner, s2.owner, self, GetInode(s, self), lba);
  }

  lemma DotsNodeOk(ow: Owners, ow2: Owners, self: nat, node: Inode, lba: nat)
    requires EmptyDir(node) && ow2 == ow[lba := Owner(self, [0])]
    ensures NodeOk(ow2, self, DotsNode(node, lba))
  {
  }

  /** A new inode becomes an empty directory. */
  lemma NewDir(s: Snap, s1: Snap, s2: Snap, ino: nat, node: Inode)
    requires Inv(s) && InodeTaken(s, s1, ino) && Inv(s1) && EmptyDir(node)
    requires InodeWritten(s1, s2, ino, node) && s2.dirs == s.dirs[ino := map[]]
    ensures Inv(s2) && GetInode(s2, ino) == node
  {
    hide Inv, GetInode, DirHolds, InodeWritten;
    NoBlocksYet(s, ino);
    EmptyDirHolds(s1.disk, node);
    ParentOfNew(s, s1, ino);
    assert InodeFits(s1, s2.dirs, ino, node);
    InodeWrittenInv(s1, s2, ino, node);
    InodeWrittenOwned(s1, s2, ino, node);
  }

  lemma ParentOfNew(s: Snap, s1: Snap, ino: nat)
    requires Inv(s) && InodeTaken(s, s1, ino)
    ensures ino !in s.dirs
  {
    hide DirHolds;
  }

  lemma NoBlocksYet(s: Snap, ino: nat)
    requires Inv(s) && ino !in s.inos
    ensures forall p :: p in s.owner ==> s.owner[p].ino != ino
  {
    hide DirsOk;
  }

  // ------------------------------------------------------------------
  // op_format before the first directory entry
  // ------------------------------------------------------------------

  function FormatSuper(blocks: nat): Superblock {
    var inodes := if blocks / 8 < 128 then 128 else blocks / 8;
    var blockMap := 2 + MapBlocks(inodes);
    var table := blockMap + MapBlocks(blocks);
    var data := table + InodeBlocks(inodes);
    Superblock(0x59554C41, 2, BLOCK_SIZE, blocks, inodes, if data <= blocks then blocks - data
      else 0, inodes, 2, blockMap, table, data)
  }

  /** From 4 MB on the metadata leaves room for the root, three directories and whatever their entries take. */
  lemma FormatRoom(blocks: nat)
    requires 1024 <= blocks
    ensures Geometry(FormatSuper(blocks), blocks) && FormatSuper(blocks).freeBlocks > 16
    ensures FormatSuper(blocks).freeBlocks == blocks - FormatSuper(blocks).dataStart
    ensures FormatSuper(blocks).freeInodes == FormatSuper(blocks).totalInodes > 5
  {
  }

  /** What making a directory may take: five blocks, one inode, and one more block of the parent. */
  ghost predicate Affordable(s: Snap, s2: Snap, parent: nat) {
    && s.sb.freeBlocks <= s2.sb.freeBlocks + 5 && s.sb.freeInodes <= s2.sb.freeInodes + 1
    && DirBlocks(s2, parent) <= DirBlocks(s, parent) + 1
  }

  lemma AffordableSum(s: Snap, s1: Snap, s2: Snap, s3: Snap, s4: Snap, parent: nat)
    requires s1.sb.freeBlocks == s.sb.freeBlocks && s.sb.freeInodes <= s1.sb.freeInodes + 1 && s2.sb == s1.sb
    requires Costs(s2, s3, 1) && Costs(s3, s4, 4)
    requires DirBlocks(s3, parent) == DirBlocks(s, parent) && DirBlocks(s4, parent) <= DirBlocks(s3, parent) + 1
    ensures Affordable(s, s4, parent)
  {
    hide DirBlocks;
  }

  /** A new inode leaves the other directories as large as they were. */
  lemma NewDirSizes(s: Snap, s1: Snap, s2: Snap, ino: nat, node: Inode, d: nat)
    requires Inv(s) && Inv(s1) && InodeTaken(s, s1, ino) && InodeWritten(s1, s2, ino, node) && d in s.dirs
    ensures DirBlocks(s2, d) == DirBlocks(s, d) && d != ino
  {
    assert s1.sb.totalInodes == s.sb.totalInodes;
    hide GetInode, InodeWritten, InodeTaken, DirsOk, DirHolds;
    DirInUse(s, d);
    InodeTakenReads(s, s1, ino);
    InodeWrittenReads(s1, s2, ino, node);
    ParentOfNew(s, s1, ino);
  }

  /** Writing the dots leaves the other directories as large as they were. */
  lemma DotsSizes(s: Snap, s1: Snap, s2: Snap, s3: Snap, self: nat, node: Inode, lba: nat, b: Block, d: nat)
    requires Inv(s) && Inv(s1) && Allocated(s, s1, lba, Owner(self, [0])) && d in s.dirs
    requires lba < |s1.disk| && s2 == WithBlock(s1, lba, b) && InodeWritten(s2, s3, self, node)
    ensures d != self ==> DirBlocks(s3, d) == DirBlocks(s, d)
    ensures d == self ==> GetInode(s3, d) == node
    ensures Costs(s, s3, 1)
  {
    hide GetInode, InodeWritten, DirsOk, DirHolds;
    DirInUse(s, d);
    AllocSame(s, s1, lba, Owner(self, [0]), d);
    InodesBeside(s1, s2, lba, b, d);
    InodeWrittenReads(s2, s3, self, node);
    WrittenSuper(s2, s3, self, node);
  }

  lemma TakenSuper(s: Snap, s2: Snap, ino: nat)
    requires InodeTaken(s, s2, ino)
    ensures s2.sb.freeBlocks == s.sb.freeBlocks && s.sb.freeInodes <= s2.sb.freeInodes + 1
  {
  }

  lemma AffordableSelf(s: Snap, parent: nat)
    ensures Affordable(s, s, parent)
  {
  }

  /** With more left than one directory takes, making it exhausts nothing. */
  lemma Afforded(s: Snap, s2: Snap, parent: nat, blocks: nat, inodes: nat, covered: nat)
    requires Affordable(s, s2, parent) && s.sb.freeBlocks > blocks >= 5 && s.sb.freeInodes > inodes >= 1
    requires DirBlocks(s, parent) <= covered < MAX_BLOCKS - 1
    ensures s2.sb.freeBlocks > blocks - 5 && s2.sb.freeInodes > inodes - 1 && DirBlocks(s2, parent) <= covered + 1
    ensures !Exhausted(s2) && !DirFull(s2, parent)
  {
  }

  lemma RoomLeft(s: Snap, root: Inode)
    requires Formatted(s, root)
    ensures s.sb.freeBlocks > 16 && s.sb.freeInodes > 3
  {
    FormatRoom(|s.disk|);
  }

  lemma MadeNames(s: Snap, s2: Snap, parent: nat, name: string, ino: nat)
    requires DirMade(s, s2, parent, name, ino)
    ensures parent in s2.dirs && ino !in s.dirs
            && s2.dirs == WithName(s.dirs[ino := Dots(ino, parent)], parent, name, ino)
  {
  }

  lemma WrittenSuper(s: Snap, s2: Snap, ino: nat, node: Inode)
    requires InodeWritten(s, s2, ino, node)
    ensures s2.sb == s.sb
  {
  }

  /** The state of op_format once the root inode is written. */
  ghost predicate Formatted(s: Snap, root: Inode) {
    && 1024 <= |s.disk|
    && s.sb == FormatSuper(|s.disk|).(freeInodes := FormatSuper(|s.disk|).totalInodes - 2)
    && s.owner == map[] && s.inos == {0, 1} && s.dirs == map[1 := map[]]
    && EmptyDir(root)
    && (forall p :: 2 < p < s.sb.dataStart && p != s.sb.inodeTableStart ==> s.disk[p].Zero?)
    && s.disk[2] == Bitmap(BitsOf(Zero)[0 := true][1 := true])
    && s.disk[s.sb.inodeTableStart] == InodeTable(InodesOf(Zero)[1 := root])
  }

  lemma FormattedMaps(s: Snap, root: Inode)
    requires Formatted(s, root)
    ensures Geometry(s.sb, |s.disk|) && BlockMapOk(s) && InodeMapOk(s) && MetaOk(s)
  {
    FormatRoom(|s.disk|);
    forall i: nat, j: nat | i < MapBlocks(s.sb.totalInodes) && j < BITS_PER_BLOCK
      ensures Bit(s.disk, s.sb.mapInodeStart, i, j) <==> i * BITS_PER_BLOCK + j in s.inos
    {
    }
  }

  lemma FormattedInodes(s: Snap, root: Inode)
    requires Formatted(s, root)
    ensures forall ino: nat :: ino < s.sb.totalInodes ==> GetInode(s, ino) == if ino == 1 then root else ZeroInode
  {
    FormatRoom(|s.disk|);
    forall ino: nat | ino < s.sb.totalInodes ensures GetInode(s, ino) == if ino == 1 then root else ZeroInode {
      InodeInTable(s, ino);
    }
  }

  lemma FormattedInv(s: Snap, root: Inode)
    requires Formatted(s, root)
    ensures Inv(s) && GetInode(s, 1) == root
  {
    hide GetInode, BlockMapOk, InodeMapOk, MetaOk, DirHolds;
    FormattedMaps(s, root);
    FormattedInodes(s, root);
    EmptyDirHolds(s.disk, root);
    assert NodesOk(s);
  }

  lemma DirBegins(node: Inode)
    requires EmptyDir(node)
    ensures |node.ptrs| == ROOT_PTRS
  {
  }

  lemma DataRange(s: Snap, s1: Snap, lba: nat, o: Owner)
    requires Inv(s) && Allocated(s, s1, lba, o)
    ensures 1 < lba < |s1.disk|
  {
    hide DirsOk;
  }

  lemma NewNode(node: Inode)
    requires node.kind == DIR && node.size == 0 && node.ptrs == Zeros(ROOT_PTRS)
    ensures EmptyDir(node)
  {
  }

  /** dir_ensure on an absent name: a new directory with its dots, entered in the parent. */
  ghost predicate DirMade(s: Snap, s2: Snap, parent: nat, name: string, ino: nat) {
    && parent in s.dirs && ino !in s.inos && ino !in s.dirs
    && s2.dirs == WithName(s.dirs[ino := Dots(ino, parent)], parent, name, ino)
  }

  lemma SubdirEnterable(s: Snap, parent: nat, ino: nat, name: string)
    requires Inv(s) && parent in s.dirs && name !in s.dirs[parent] && |name| < NAME_MAX && ino in s.dirs
    ensures Enterable(s, parent, ino, name)
  {
    hide Inv, GetInode, DirHolds;
    DirInUse(s, ino);
  }

  lemma MadeDir(s0: Snap, s: Snap, s2: Snap, parent: nat, name: string, ino: nat)
    requires parent in s0.dirs && ino !in s0.inos && ino !in s0.dirs
    requires s.dirs == s0.dirs[ino := map[]][ino := Dots(ino, parent)] && NameAdded(s, s2, parent, ino, name)
    ensures DirMade(s0, s2, parent, name, ino)
  {
    assert s.dirs == s0.dirs[ino := Dots(ino, parent)];
  }

  /** What format leaves behind: three empty directories under the root. */
  predicate StandardTree(dirs: Names) {
    && 1 in dirs && dirs[1].Keys == {".", "..", "bin", "home", "dev"}
    && forall name :: name in {"bin", "home", "dev"} ==>
         dirs[1][name] in dirs && dirs[dirs[1][name]] == Dots(dirs[1][name], 1)
  }

  lemma FirstInode(s: Snap)
    requires 1024 <= |s.disk| && s.sb == FormatSuper(|s.disk|).(freeInodes := FormatSuper(|s.disk|).totalInodes - 2)
    ensures 1 < s.sb.totalInodes && 1 < s.sb.inodeTableStart < |s.disk|
  {
    FormatRoom(|s.disk|);
  }

  lemma FormatDone(s: Snap, s2: Snap, root: Inode)
    requires 1024 <= |s.disk| && s.sb == FormatSuper(|s.disk|).(freeInodes := FormatSuper(|s.disk|).totalInodes - 2)
    requires s.owner == map[] && s.inos == {0, 1}
    requires s.sb.dataStart <= |s.disk|
    requires forall p :: 2 < p < s.sb.dataStart ==> s.disk[p].Zero?
    requires s.disk[2] == Bitmap(BitsOf(Zero)[0 := true][1 := true])
    requires EmptyDir(root) && InodeWritten(s, s2, 1, root) && s2.dirs == map[1 := map[]]
    ensures Formatted(s2, root)
  {
    FormatRoom(|s.disk|);
  }

  lemma TreeBuilt(d0: Names, d1: Names, d2: Names, d3: Names, a: nat, b: nat, c: nat)
    requires d0 == map[1 := Dots(1, 1)] && a !in d0 && b !in d1 && c !in d2
    requires d1 == WithName(d0[a := Dots(a, 1)], 1, "bin", a)
    requires 1 in d1 && d2 == WithName(d1[b := Dots(b, 1)], 1, "home", b)
    requires 1 in d2 && d3 == WithName(d2[c := Dots(c, 1)], 1, "dev", c)
    ensures StandardTree(d3)
  {
  }

  lemma TreeNamedOnce(d0: Names, d1: Names, d2: Names, d3: Names, a: nat, b: nat, c: nat)
    requires d0 == map[1 := Dots(1, 1)] && a !in d0 && b !in d1 && c !in d2
    requires d1 == WithName(d0[a := Dots(a, 1)], 1, "bin", a)
    requires 1 in d1 && d2 == WithName(d1[b := Dots(b, 1)], 1, "home", b)
    requires 1 in d2 && d3 == WithName(d2[c := Dots(c, 1)], 1, "dev", c)
    ensures NamedOnce(d3)
  {
    assert NoFiles(d0);
    hide WithName, Dots, NoFiles, NamedOnce;
    FilesNone(d0, d1, "bin", a);
    FilesNone(d1, d2, "home", b);
    FilesNone(d2, d3, "dev", c);
    OnlyDirectories(d3);
  }

  lemma OnlyDirectories(dirs: Names)
    requires NoFiles(dirs)
    ensures NamedOnce(dirs)
  {
  }

  /** Only directories are entered. */
  ghost predicate NoFiles(dirs: Names) {
    forall d, n :: d in dirs && n in dirs[d] ==> dirs[d][n] in dirs
  }

  lemma FilesNone(dirs: Names, dirs2: Names, name: string, ino: nat)
    requires NoFiles(dirs) && 1 in dirs && ino !in dirs && dirs2 == WithName(dirs[ino := Dots(ino, 1)], 1, name, ino)
    ensures NoFiles(dirs2) && 1 in dirs2
  {
  }
}
