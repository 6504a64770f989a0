/** The YulaFS image tool: allocation, block resolution, inodes. */
module YfsImage {
  import opened YfsTree
  import opened YfsState
  import opened YfsAlloc
  import opened YfsResolve
  import opened YfsData
  import opened YfsPath
  import opened YfsTransfer
  import opened YfsFormat

  class Image {
    var disk: seq<Block>
    var sb: Superblock
    ghost var owner: Owners
    ghost var inos: set<nat>
    ghost var dirs: map<nat, map<string, nat>>

    ghost function S(): Snap
      reads this
    {
      Snap(disk, sb, owner, inos, dirs)
    }

    ghost predicate Valid()
      reads this
    {
      Inv(S())
    }

    /** Takes the first zero bit of the block bitmap and zeroes the block it stands for. */
    method AllocBlock(ghost o: Owner) returns (r: Result<nat>)
      requires Valid() && o.ino in inos && (TablePath(o.path) || DataPath(o.path))
      modifies this
      ensures Valid()
      ensures r.Ok? <==> old(sb.freeBlocks) > 0
      ensures r.Ok? ==> Allocated(old(S()), S(), r.value, o) && Synced(S())
      ensures !r.Ok? ==> S() == old(S())
    {
      hide Inv;
      if sb.freeBlocks == 0 {
        return Panic("No free blocks");
      }
      var mapBlocks := MapBlocks(sb.totalBlocks);
      var i := 0;
      while i < mapBlocks
        invariant 0 <= i <= mapBlocks && S() == old(S())
        invariant AllSetBefore(disk, sb.mapBlockStart, i, 0)
      {
        MapInImage(S(), i);
        var mapLba := sb.mapBlockStart + i;
        var bits := BitsOf(disk[mapLba]);
        var j := 0;
        while j < BITS_PER_BLOCK
          invariant 0 <= j <= BITS_PER_BLOCK && S() == old(S())
          invariant AllSetBefore(disk, sb.mapBlockStart, i, j)
        {
          if !bits[j] {
            ScanStops(S(), i, j);
            disk := disk[mapLba := Bitmap(bits[j := true])];
            sb := sb.(freeBlocks := sb.freeBlocks - 1);
            disk := disk[1 := Super(sb)];
            var lba := sb.dataStart + i * BITS_PER_BLOCK + j;
            disk := disk[lba := Zero];
            owner := owner[lba := o];
            AllocatedAt(old(S()), S(), i, j, lba, o);
            return Ok(lba);
          }
          assert Bit(disk, sb.mapBlockStart, i, j);
          j := j + 1;
        }
        i := i + 1;
      }
      ScanEnds(S());
      assert false;
    }

    /** Raises one bit of the inode bitmap. */
    method TakeInode(i: nat, j: nat)
      requires Valid() && 0 < sb.freeInodes && i < MapBlocks(sb.totalInodes) && j < BITS_PER_BLOCK
      requires 0 < i * BITS_PER_BLOCK + j < sb.totalInodes && !Bit(disk, sb.mapInodeStart, i, j)
      modifies this
      ensures Valid() && InodeTaken(old(S()), S(), i * BITS_PER_BLOCK + j) && Synced(S())
    {
      hide Inv, InodeTaken, Synced;
      var ino := i * BITS_PER_BLOCK + j;
      InodeMapInImage(S(), i);
      var mapLba := sb.mapInodeStart + i;
      var bits := BitsOf(disk[mapLba]);
      disk := disk[mapLba := Bitmap(bits[j := true])];
      sb := sb.(freeInodes := sb.freeInodes - 1);
      disk := disk[1 := Super(sb)];
      inos := inos + {ino};
      InodeTakenAt(old(S()), S(), i, j, ino);
    }

    /** Takes the first free inode number; number 0 is never handed out. */
    method AllocInode() returns (r: Result<nat>)
      requires Valid()
      modifies this
      ensures Valid()
      ensures r.Ok? <==> old(sb.freeInodes) > 0
      ensures r.Ok? ==> InodeTaken(old(S()), S(), r.value) && Synced(S())
      ensures !r.Ok? ==> S() == old(S())
    {
      hide Inv, UsedBelow, InodeTaken;
      if sb.freeInodes == 0 {
        return Panic("No free inodes");
      }
      var mapBlocks := MapBlocks(sb.totalInodes);
      UsedNone(inos, sb.totalInodes);
      var i := 0;
      while i < mapBlocks
        invariant 0 <= i <= mapBlocks && S() == old(S())
        invariant UsedBelow(inos, sb.totalInodes, i * BITS_PER_BLOCK)
      {
        InodeMapInImage(S(), i);
        var mapLba := sb.mapInodeStart + i;
        var bits := BitsOf(disk[mapLba]);
        var j := 0;
        while j < BITS_PER_BLOCK
          invariant 0 <= j <= BITS_PER_BLOCK && S() == old(S())
          invariant UsedBelow(inos, sb.totalInodes, i * BITS_PER_BLOCK + j)
        {
          var ino := i * BITS_PER_BLOCK + j;
          InodeBitUsed(S(), i, j);
          if ino != 0 {
            if ino >= sb.totalInodes {
              break;
            }
            if !bits[j] {
              TakeInode(i, j);
              return Ok(ino);
            }
          }
          UsedNext(inos, sb.totalInodes, ino);
          j := j + 1;
        }
        UsedAll(inos, sb.totalInodes, i * BITS_PER_BLOCK + j, (i + 1) * BITS_PER_BLOCK);
        i := i + 1;
      }
      InodeScanEnds(S());
      assert false;
    }

    /** Copies an inode into its slot of the inode table. */
    method InodeWrite(ino: nat, node: Inode, ghost names: Names)
      requires ino < sb.totalInodes && sb.inodeTableStart + ino / INODES_PER_BLOCK < |disk|
      modifies this`disk, this`dirs
      ensures InodeWritten(old(S()), S(), ino, node) && dirs == names
      ensures 1 < sb.inodeTableStart && old(Synced(S())) ==> Synced(S())
    {
      var lba := sb.inodeTableStart + ino / INODES_PER_BLOCK;
      disk := disk[lba := InodeTable(InodesOf(disk[lba])[ino % INODES_PER_BLOCK := node])];
      dirs := names;
    }

    method InodeRead(ino: nat) returns (node: Inode)
      requires Valid() && ino < sb.totalInodes
      ensures node == GetInode(S(), ino) && NodeOk(owner, ino, node)
    {
      hide Inv, NodeOk;
      InodeSlot(S(), ino);
      node := InodesOf(disk[sb.inodeTableStart + ino / INODES_PER_BLOCK])[ino % INODES_PER_BLOCK];
    }

    static lemma InodeSlot(s: Snap, ino: nat)
      requires Inv(s) && ino < s.sb.totalInodes
      ensures 1 < s.sb.inodeTableStart <= s.sb.inodeTableStart + ino / INODES_PER_BLOCK < s.sb.dataStart <= |s.disk|
      ensures NodeOk(s.owner, ino, GetInode(s, ino))
    {
      hide DirsOk, GetInode;
      InodeInTable(s, ino);
    }

    /** One level of inode_resolve_block: reads entry k of a table and fills it on demand. */
    method TableEntry(tbl: nat, k: nat, alloc: bool, ghost ino: nat, ghost pre: seq<nat>) returns (r: Result<nat>)
      requires Valid() && ino in inos && tbl in owner && owner[tbl] == Owner(ino, pre)
      requires TablePath(pre) && PathPrefix(pre + [k])
      modifies this
      ensures Valid() && (old(Synced(S())) ==> Synced(S()))
      ensures inos == old(inos)
      ensures r.Ok? ==> EntryStep(old(S()), S(), ino, pre, tbl, k, r.value)
      ensures Costs(old(S()), S(), 1)
      ensures r.Ok? && alloc ==> r.value != 0
      ensures !r.Ok? || !alloc ==> S() == old(S())
      ensures !r.Ok? ==> alloc && sb.freeBlocks == 0
    {
      hide Inv;
      TableInImage(S(), ino, pre, tbl, k);
      var t := TableOf(disk[tbl]);
      if t[k] == 0 && alloc {
        var c := AllocBlock(Owner(ino, pre + [k]));
        if c.Panic? {
          return c;
        }
        ghost var mid := S();
        AllocKeeps(old(S()), mid, c.value, Owner(ino, pre + [k]), tbl);
        t := t[k := c.value];
        disk := disk[tbl := Table(t)];
        assert EntrySet(mid, S(), tbl, k, c.value);
        EntryStepFill(old(S()), mid, S(), ino, pre, tbl, k, c.value);
      }
      return Ok(t[k]);
    }

    static lemma AllocKeeps(s: Snap, s2: Snap, c: nat, o: Owner, p: nat)
      requires Inv(s) && Allocated(s, s2, c, o) && p in s.owner
      ensures p < |s2.disk| == |s.disk| && s2.disk[p] == s.disk[p] && 0 < c
    {
      AllocOwned(s, s2, c, o);
    }

    static lemma TableInImage(s: Snap, ino: nat, pre: seq<nat>, tbl: nat, k: nat)
      requires Inv(s) && tbl in s.owner && s.owner[tbl] == Owner(ino, pre) && TablePath(pre) && PathPrefix(pre + [k])
      ensures 1 < tbl < |s.disk| && k < PTRS_PER_BLOCK
      ensures PtrOk(s.owner, TableOf(s.disk[tbl])[k], ino, pre + [k])
      ensures EntryStep(s, s, ino, pre, tbl, k, TableOf(s.disk[tbl])[k])
    {
      hide Steady, OthersKept, SlotFilled, DirsOk, InodeMapOk, MetaOk, NodesOk, DataOk;
      Unchanged(s, ino, pre + [k]);
      assert (pre + [k])[|pre|] == k;
      assert IsTableBlock(s.owner, tbl);
      assert TableOk(s.disk, s.owner, tbl);
    }

    /** The root fragment of inode_resolve_block: root slot k of the inode, filled on demand. */
    method RootEntry(node: Inode, k: nat, alloc: bool, ghost ino: nat, ghost idx: nat)
                     returns (r: Result<nat>, node': Inode)
      requires Valid() && ino in inos && NodeOk(owner, ino, node)
      requires idx < MAX_BLOCKS && k == PathOf(idx)[0]
      modifies this
      ensures Valid() && (old(Synced(S())) ==> Synced(S()))
      ensures inos == old(inos)
      ensures r.Ok? ==> Progress(old(S()), S(), ino, node, node', idx, 1, r.value)
      ensures Costs(old(S()), S(), 1)
      ensures r.Ok? && alloc ==> r.value != 0
      ensures !r.Ok? || !alloc ==> S() == old(S()) && node' == node
      ensures !r.Ok? ==> alloc && sb.freeBlocks == 0
    {
      hide Inv, Progress;
      node' := node;
      if node.ptrs[k] == 0 && alloc {
        var c := AllocBlock(Owner(ino, [k]));
        if c.Panic? {
          return c, node;
        }
        node' := node.(ptrs := node.ptrs[k := c.value]);
        RootFilled(old(S()), S(), ino, node, node', idx, c.value);
        return c, node';
      }
      RootRead(S(), ino, node, idx);
      return Ok(node.ptrs[k]), node;
    }

    static lemma RootFilled(s: Snap, s2: Snap, ino: nat, node: Inode, node2: Inode, idx: nat, c: nat)
      requires Inv(s) && NodeOk(s.owner, ino, node) && idx < MAX_BLOCKS && node.ptrs[PathOf(idx)[0]] == 0
      requires Allocated(s, s2, c, Owner(ino, [PathOf(idx)[0]]))
      requires node2 == node.(ptrs := node.ptrs[PathOf(idx)[0] := c])
      ensures Progress(s, s2, ino, node, node2, idx, 1, c) && c != 0
    {
      hide Allocated, Progress;
      ProgressRoot(s, s2, ino, node, node2, idx, c);
      AllocNonzero(s, s2, c, Owner(ino, [PathOf(idx)[0]]));
    }

    static lemma AllocNonzero(s: Snap, s2: Snap, c: nat, o: Owner)
      requires Inv(s) && Allocated(s, s2, c, o)
      ensures c != 0
    {
    }

    static lemma RootRead(s: Snap, ino: nat, node: Inode, idx: nat)
      requires Inv(s) && NodeOk(s.owner, ino, node) && idx < MAX_BLOCKS
      ensures Progress(s, s, ino, node, node, idx, 1, node.ptrs[PathOf(idx)[0]])
    {
      ProgressStart(s, ino, node, idx);
    }

    /** A table level on the way to logical block idx. */
    method Descend(tbl: nat, k: nat, alloc: bool, ghost s0: Snap, ghost ino: nat, ghost node0: Inode, ghost node: Inode,
                   ghost idx: nat, ghost depth: nat)
      returns (r: Result<nat>)
      requires Valid() && ino in inos && tbl != 0 && idx < MAX_BLOCKS
      requires depth < |PathOf(idx)| && k == PathOf(idx)[depth]
      requires Progress(s0, S(), ino, node0, node, idx, depth, tbl)
      modifies this
      ensures Valid() && (old(Synced(S())) ==> Synced(S()))
      ensures inos == old(inos)
      ensures r.Ok? ==> Progress(s0, S(), ino, node0, node, idx, depth + 1, r.value)
      ensures Costs(old(S()), S(), 1)
      ensures r.Ok? && alloc ==> r.value != 0
      ensures !r.Ok? || !alloc ==> S() == old(S())
      ensures !r.Ok? ==> alloc && sb.freeBlocks == 0
    {
      hide Inv, Progress;
      ghost var pre := PathOf(idx)[..depth];
      OnPath(s0, S(), ino, node0, node, idx, depth, tbl);
      r := TableEntry(tbl, k, alloc, ino, pre);
      if r.Ok? {
        StepTaken(s0, old(S()), S(), ino, node0, node, idx, depth, tbl, r.value);
      }
    }

    static lemma OnPath(s0: Snap, s: Snap, ino: nat, node0: Inode, node: Inode, idx: nat, depth: nat, tbl: nat)
      requires idx < MAX_BLOCKS && Progress(s0, s, ino, node0, node, idx, depth, tbl) && tbl != 0
               && depth < |PathOf(idx)|
      ensures tbl in s.owner && s.owner[tbl] == Owner(ino, PathOf(idx)[..depth])
      ensures TablePath(PathOf(idx)[..depth]) && PathPrefix(PathOf(idx)[..depth] + [PathOf(idx)[depth]])
    {
      assert PathOf(idx)[..depth] + [PathOf(idx)[depth]] == PathOf(idx)[..depth + 1];
    }

    static lemma StepTaken(s0: Snap, s: Snap, s2: Snap, ino: nat, node0: Inode, node: Inode, idx: nat, depth: nat,
                           tbl: nat, c: nat)
      requires Inv(s) && idx < MAX_BLOCKS && Progress(s0, s, ino, node0, node, idx, depth, tbl) && tbl != 0
      requires depth < |PathOf(idx)| && EntryStep(s, s2, ino, PathOf(idx)[..depth], tbl, PathOf(idx)[depth], c)
      ensures Progress(s0, s2, ino, node0, node, idx, depth + 1, c)
    {
      hide Progress, EntryStep;
      ProgressStep(s0, s, s2, ino, node0, node, idx, depth, tbl, c);
    }

    /**
     * Finds the disk block of logical block idx, through up to three levels of pointer tables,
     * allocating what is missing when `alloc` is set.
     */
    method ResolveBlock(node: Inode, idx: nat, alloc: bool, ghost ino: nat) returns (r: Result<nat>, node': Inode)
      requires Valid() && ino in inos && NodeOk(owner, ino, node)
      modifies this
      ensures Valid() && (old(Synced(S())) ==> Synced(S()))
      ensures r.Ok? ==> Resolved(old(S()), S(), ino, node, node', idx, r.value)
      ensures Costs(old(S()), S(), 4)
      ensures r.Ok? && alloc ==> r.value != 0
      ensures !alloc ==> S() == old(S()) && node' == node && (r.Ok? <==> idx < MAX_BLOCKS)
      ensures r.Panic? ==> Abandoned(old(S()), S(), ino, idx) && (idx < MAX_BLOCKS ==> alloc && sb.freeBlocks == 0)
    {
      hide Inv, Progress, Resolved, Abandoned;
      ghost var s0 := S();
      NothingYet(s0, ino, idx);
      var b := idx;
      if b < DIRECT_PTRS {
        r, node' := RootEntry(node, b, alloc, ino, idx);
        if r.Ok? {
          Reached(s0, S(), ino, node, node', idx, r.value);
        }
        return;
      }
      b := b - DIRECT_PTRS;

      if b < PTRS_PER_BLOCK {
        var t;
        t, node' := RootEntry(node, 12, alloc, ino, idx);
        if t.Panic? {
          return t, node';
        }
        if t.value == 0 {
          Missing(s0, S(), ino, node, node', idx, 1);
          return t, node';
        }
        r := Descend(t.value, b, alloc, s0, ino, node, node', idx, 1);
        if r.Panic? {
          GiveUp(s0, S(), ino, node, node', idx, 1, t.value);
        } else {
          Reached(s0, S(), ino, node, node', idx, r.value);
        }
        return;
      }
      b := b - PTRS_PER_BLOCK;

      if b < SQ {
        var t1, t2;
        t1, node' := RootEntry(node, 13, alloc, ino, idx);
        if t1.Panic? {
          return t1, node';
        }
        if t1.value == 0 {
          Missing(s0, S(), ino, node, node', idx, 1);
          return t1, node';
        }
        t2 := Descend(t1.value, b / PTRS_PER_BLOCK, alloc, s0, ino, node, node', idx, 1);
        if t2.Panic? {
          GiveUp(s0, S(), ino, node, node', idx, 1, t1.value);
          return t2, node';
        }
        if t2.value == 0 {
          Missing(s0, S(), ino, node, node', idx, 2);
          return t2, node';
        }
        r := Descend(t2.value, b % PTRS_PER_BLOCK, alloc, s0, ino, node, node', idx, 2);
        if r.Panic? {
          GiveUp(s0, S(), ino, node, node', idx, 2, t2.value);
        } else {
          Reached(s0, S(), ino, node, node', idx, r.value);
        }
        return;
      }
      b := b - SQ;

      if b < CUBE {
        var t1, t2, t3;
        t1, node' := RootEntry(node, 14, alloc, ino, idx);
        if t1.Panic? {
          return t1, node';
        }
        if t1.value == 0 {
          Missing(s0, S(), ino, node, node', idx, 1);
          return t1, node';
        }
        t2 := Descend(t1.value, b / SQ, alloc, s0, ino, node, node', idx, 1);
        if t2.Panic? {
          GiveUp(s0, S(), ino, node, node', idx, 1, t1.value);
          return t2, node';
        }
        if t2.value == 0 {
          Missing(s0, S(), ino, node, node', idx, 2);
          return t2, node';
        }
        t3 := Descend(t2.value, b % SQ / PTRS_PER_BLOCK, alloc, s0, ino, node, node', idx, 2);
        if t3.Panic? {
          GiveUp(s0, S(), ino, node, node', idx, 2, t2.value);
          return t3, node';
        }
        if t3.value == 0 {
          Missing(s0, S(), ino, node, node', idx, 3);
          return t3, node';
        }
        r := Descend(t3.value, b % SQ % PTRS_PER_BLOCK, alloc, s0, ino, node, node', idx, 3);
        if r.Panic? {
          GiveUp(s0, S(), ino, node, node', idx, 3, t3.value);
        } else {
          Reached(s0, S(), ino, node, node', idx, r.value);
        }
        return;
      }
      return Panic("File too large"), node;
    }

    /** Looks a name up in a directory; 0 when it is absent. */
    method DirFind(dirIno: nat, name: string) returns (r: Result<nat>)
      requires Valid() && dirIno in inos
      modifies this
      ensures S() == old(S())
      ensures r.Ok? <==> dirIno in dirs
      ensures r.Ok? ==> r.value == NameIn(dirs, dirIno, name)
    {
      hide Inv, Resolved, NodeOk, DirHolds, NotAmong;
      InodeInUse(S(), dirIno);
      var dir := InodeRead(dirIno);
      KindOf(S(), dirIno);
      if dir.kind != DIR {
        return Panic("not a directory");
      }
      DirShape(S(), dirIno);
      var blocks := (dir.size + BLOCK_SIZE - 1) / BLOCK_SIZE;
      SearchBegins(disk, dir, name);
      var i := 0;
      while i < blocks
        invariant 0 <= i <= blocks && S() == old(S())
        invariant NotAmong(disk, dir, name, i, 0)
      {
        var lba, dir' := ResolveBlock(dir, i, false, dirIno);
        ResolvedAt(old(S()), S(), dirIno, dir, dir', i, lba.value);
        BlockOfDir(S(), dirIno, i, lba.value);
        var entries := DirentsOf(disk[lba.value]);
        var j := 0;
        while j < DIRENTS_PER_BLOCK
          invariant 0 <= j <= DIRENTS_PER_BLOCK && S() == old(S())
          invariant NotAmong(disk, dir, name, i, j)
        {
          if entries[j].inode != 0 && entries[j].name == name {
            EntryFound(S(), dirIno, i, j, name);
            return Ok(entries[j].inode);
          }
          SearchGoesOn(disk, dir, name, i, j);
          j := j + 1;
        }
        SearchNextBlock(disk, dir, name, i);
        i := i + 1;
      }
      EntryMissing(S(), dirIno, name);
      return Ok(0);
    }

    /** Enters a child under a new name in the first free slot, growing the directory when it is full. */
    method DirAdd(dirIno: nat, child: nat, name: string) returns (r: Result<()>)
      requires Valid() && Enterable(S(), dirIno, child, name)
      modifies this
      ensures Valid() && (old(Synced(S())) ==> Synced(S()))
      ensures r.Ok? ==> NameAdded(old(S()), S(), dirIno, child, name)
      ensures r.Panic? ==> FilesKept(old(S()), S(), dirIno) && dirs == old(dirs) && inos == old(inos)
      ensures r.Panic? ==> sb.freeBlocks == 0 || DirFull(S(), dirIno)
      ensures Costs(old(S()), S(), 4) && DirBlocks(S(), dirIno) <= old(DirBlocks(S(), dirIno)) + 1
    {
      hide Inv, Resolved, NodeOk, DirHolds, FilesKept, Steady, OthersKept, Abandoned, GetInode, InodeWritten;
      DirShape(S(), dirIno);
      var dir := InodeRead(dirIno);
      var blk := 0;
      while true
        invariant 0 <= blk <= dir.size / BLOCK_SIZE && S() == old(S())
        invariant dir == GetInode(S(), dirIno)
        decreases dir.size / BLOCK_SIZE - blk
      {
        var lba, dir' := ResolveBlock(dir, blk, true, dirIno);
        if lba.Panic? {
          GaveUp(old(S()), S(), dirIno, blk);
          GaveUpSize(old(S()), S(), dirIno, blk);
          return Panic(lba.message);
        }
        DirBlockRead(old(S()), S(), dirIno, dir', blk, lba.value);
        var entries := DirentsOf(disk[lba.value]);
        ghost var mid, found := S(), dir';
        InodeSlot(mid, dirIno);
        var i := 0;
        while i < DIRENTS_PER_BLOCK
          invariant 0 <= i <= DIRENTS_PER_BLOCK && S() == mid
          invariant dir' == found && entries == DirentsOf(disk[lba.value])
          invariant forall k :: 0 <= k < i ==> entries[k].inode != 0
        {
          if entries[i].inode == 0 {
            entries := entries[i := Dirent(child, name)];
            disk := disk[lba.value := Dirents(entries)];
            var minSize := (blk + 1) * BLOCK_SIZE;
            dirs := WithName(dirs, dirIno, name, child);
            ghost var wrote := S();
            if dir'.size < minSize {
              dir' := dir'.(size := minSize);
              InodeWrite(dirIno, dir', dirs);
            }
            EntrySize(old(S()), mid, wrote, S(), dirIno, found, blk, lba.value, Dirents(entries));
            SlotFound(old(S()), mid, S(), dirIno, found, blk, i, lba.value, child, name);
            return Ok(());
          }
          i := i + 1;
        }
        blk := blk + 1;
      }
    }

    /** The inode a path names; 0 when some component is missing. */
    method PathResolve(path: string) returns (r: Result<nat>)
      requires Valid()
      modifies this
      ensures S() == old(S())
      ensures r == match ResolvePath(dirs, 1, path)
                   case Found(ino) => Ok(ino)
                   case NotFound => Ok(0)
                   case _ => Panic("Path component too long")
      ensures r.Ok? && r.value != 0 ==> r.value in inos
    {
      hide Inv, ResolvePath, ResolveName;
      RootInUse(S());
      ResolveInUse(S(), 1, path);
      var cur, pos := 1, 0;
      assert path[0..] == path;
      while true
        invariant S() == old(S()) && 0 <= pos <= |path|
        invariant cur in inos && cur != 0 && (cur in dirs || pos == |path|)
        invariant ResolvePath(dirs, 1, path) == ResolvePath(dirs, cur, path[pos..])
        decreases |path| - pos
      {
        while pos < |path| && path[pos] == '/'
          invariant S() == old(S()) && 0 <= pos <= |path| && (cur in dirs || pos == |path|)
          invariant ResolvePath(dirs, 1, path) == ResolvePath(dirs, cur, path[pos..])
        {
          SlashSkipped(dirs, cur, path, pos);
          pos := pos + 1;
        }
        if pos == |path| {
          PathEnds(dirs, cur, path);
          return Ok(cur);
        }
        var start := pos;
        while pos < |path| && path[pos] != '/'
          invariant start <= pos <= |path| && S() == old(S())
          invariant forall k :: start <= k < pos ==> path[k] != '/'
        {
          pos := pos + 1;
        }
        var name := path[start..pos];
        ComponentRead(dirs, cur, path, start, pos);
        if pos - start >= NAME_MAX {
          NameStep(dirs, cur, name, path[pos..]);
          return Panic("Path component too long");
        }
        var next := DirFind(cur, name);
        NameStep(dirs, cur, name, path[pos..]);
        if next.value == 0 {
          NameAbsent(S(), cur, name);
          return Ok(0);
        }
        ChildInUse(S(), cur, name);
        FileInUse(S(), next.value);
        if pos < |path| {
          var node := InodeRead(next.value);
          if node.kind != DIR {
            return Ok(0);
          }
        }
        cur := next.value;
      }
    }

    /** The bytes of a file from an offset on, within one block; an unmapped block reads as zeros. */
    method ReadChunk(ino: nat, node: Inode, offset: nat, chunk: nat) returns (piece: seq<Byte>)
      requires Valid() && ino in inos && NodeOk(owner, ino, node) && FileNode(node)
      requires offset % BLOCK_SIZE + chunk <= BLOCK_SIZE && 0 < chunk && offset + chunk <= node.size
      modifies this
      ensures S() == old(S()) && piece == Content(disk, node)[offset..offset + chunk]
    {
      hide Inv, Resolved, Content, NodeOk;
      var blk, off := offset / BLOCK_SIZE, offset % BLOCK_SIZE;
      var lba, node' := ResolveBlock(node, blk, false, ino);
      ResolvedAt(old(S()), S(), ino, node, node', blk, lba.value);
      BlockInImage(S(), ino, node, blk);
      var sector := if lba.value != 0 then BytesOf(disk[lba.value]) else BytesOf(Zero);
      ChunkRead(disk, node, offset, chunk, sector);
      piece := sector[off..off + chunk];
    }

    /** Reads a file out of the image. */
    method Export(path: string) returns (r: Result<seq<Byte>>)
      requires Valid()
      modifies this
      ensures S() == old(S())
      ensures r == Exported(S(), path)
    {
      hide Inv, ResolvePath, Resolved, Content, NodeOk;
      var t := PathResolve(path);
      RootInUse(S());
      ResolveInUse(S(), 1, path);
      if t.Panic? {
        return Panic(t.message);
      }
      if t.value == 0 {
        FoundNonzero(S(), path);
        return Panic("Path not found in image");
      }
      var ino := t.value;
      FileInUse(S(), ino);
      var node := InodeRead(ino);
      if node.kind != FILE {
        return Panic("Not a file");
      }
      var out: seq<Byte>, offset := [], 0;
      while offset < node.size
        invariant S() == old(S()) && 0 <= offset <= node.size
        invariant out == Content(disk, node)[..offset]
      {
        var chunk := BLOCK_SIZE - offset % BLOCK_SIZE;
        if chunk > node.size - offset {
          chunk := node.size - offset;
        }
        var piece := ReadChunk(ino, node, offset, chunk);
        assert Content(disk, node)[..offset] + Content(disk, node)[offset..offset + chunk]
               == Content(disk, node)[..offset + chunk];
        out := out + piece;
        offset := offset + chunk;
      }
      assert Content(disk, node)[..node.size] == Content(disk, node);
      return Ok(out);
    }

    static lemma FoundNonzero(s: Snap, path: string)
      requires Inv(s)
      ensures ResolvePath(s.dirs, 1, path) != Found(0)
    {
      hide Inv;
      RootInUse(s);
      NeverZero(s, 1, path);
    }

    static lemma BlockInImage(s: Snap, ino: nat, node: Inode, i: nat)
      requires Inv(s) && NodeOk(s.owner, ino, node) && i < MAX_BLOCKS
      ensures Lookup(s.disk, node, i) < |s.disk|
    {
      hide DirsOk;
      LookupOwner(s.disk, s.owner, ino, node, i);
    }

    /** The write loop of op_import: fills the blocks of a file from the start, allocating as needed. */
    method WriteData(node: Inode, data: seq<Byte>, ino: nat) returns (r: Result<()>, node': Inode)
      requires Valid() && ino in inos && ino !in dirs && NodeOk(owner, ino, node)
      requires |data| < 0x1_0000_0000
      modifies this
      ensures Valid() && (old(Synced(S())) ==> Synced(S()))
      ensures FilesKept(old(S()), S(), ino) && dirs == old(dirs) && inos == old(inos)
              && sb.totalInodes == old(sb.totalInodes)
      ensures r.Ok? ==> NodeOk(owner, ino, node') && node' == node.(ptrs := node'.ptrs)
      ensures r.Ok? ==> BytesWritten(disk, node', data, |data|)
      ensures r.Panic? ==> sb.freeBlocks == 0
    {
      hide Inv, Resolved, NodeOk, FilesKept, Abandoned, BytesWritten;
      FilesUntouched(S(), ino);
      BytesNone(owner, ino, disk, node, data);
      node' := node;
      var written := 0;
      while written < |data|
        invariant 0 <= written <= |data| && (written % BLOCK_SIZE == 0 || written == |data|)
        invariant Valid() && (old(Synced(S())) ==> Synced(S()))
        invariant NodeOk(owner, ino, node') && node' == node.(ptrs := node'.ptrs)
        invariant BytesWritten(disk, node', data, written)
        invariant FilesKept(old(S()), S(), ino)
        invariant dirs == old(dirs) && inos == old(inos) && sb.totalInodes == old(sb.totalInodes)
      {
        ghost var before := S();
        var node0 := node';
        var blk, off := written / BLOCK_SIZE, written % BLOCK_SIZE;
        var chunk := BLOCK_SIZE - off;
        if chunk > |data| - written {
          chunk := |data| - written;
        }
        var lba;
        lba, node' := ResolveBlock(node0, blk, true, ino);
        if lba.Panic? {
          GaveUp(before, S(), ino, blk);
          FilesKeptTrans(old(S()), before, S(), ino);
          return Panic(lba.message), node0;
        }
        ghost var mid := S();
        ResolvedInImage(before, S(), ino, node0, node', blk, lba.value);
        var sector := if off > 0 || chunk < BLOCK_SIZE then BytesOf(disk[lba.value]) else BytesOf(Zero);
        sector := sector[..off] + data[written..written + chunk] + sector[off + chunk..];
        disk := disk[lba.value := Raw(sector)];
        RawWrite(before, mid, S(), ino, node0, node', blk, lba.value, sector);
        ChunkTurn(before, mid, S(), ino, node0, node', data, written, lba.value, sector);
        FilesKeptTrans(old(S()), before, S(), ino);
        written := written + chunk;
      }
      return Ok(()), node';
    }

    /** The directory part of an import destination. */
    method FindParent(osPath: string) returns (parent: nat)
      requires Valid()
      modifies this
      ensures S() == old(S())
      ensures 1 in dirs && 0 !in dirs && parent == ImportParent(dirs, osPath) && (parent != 0 ==> parent in inos)
    {
      hide Inv;
      RootInUse(S());
      parent := 1;
      if HasPrefix(osPath, "/bin/") {
        var p := DirFind(1, "bin");
        parent := p.value;
      } else if HasPrefix(osPath, "/home/") {
        var p := DirFind(1, "home");
        parent := p.value;
      }
      if parent != 0 {
        ParentNamed(S(), osPath);
      }
    }

    /**
     * Stores a host file in the image under "/name", "/bin/name" or "/home/name",
     * over an existing regular file or as a new one.
     */
    method Import(data: seq<Byte>, osPath: string, now: nat) returns (r: Result<nat>)
      requires Valid() && |ImportName(osPath)| < NAME_MAX && |data| < 0x1_0000_0000
      requires ImportTarget(dirs, osPath) !in dirs
      modifies this
      ensures Valid() && (old(Synced(S())) ==> Synced(S()))
      ensures r.Ok? ==> Imported(old(S()), S(), osPath, data, r.value)
      ensures r.Ok? && PlainName(ImportName(osPath)) ==> Exported(S(), osPath) == Ok(data)
      ensures r.Ok? ==>
                forall path ::
                  Exported(S(), path) == Exported(old(S()), path) || ResolvePath(dirs, 1, path) == Found(r.value)
      ensures old(NamedOnce(dirs)) ==> NamedOnce(dirs)
      ensures r.Ok? && old(NamedOnce(dirs)) ==>
                (PlainName(ImportName(osPath)) <==> exists path :: ResolvePath(dirs, 1, path) == Found(r.value))
      ensures r.Panic? ==> dirs == old(dirs) && FilesKept(old(S()), S(), old(ImportTarget(dirs, osPath)))
      ensures r.Panic? ==> 1 in dirs && Refused(S(), ImportParent(dirs, osPath))
    {
      r := StoreFile(data, osPath, now);
      if r.Ok? {
        hide Inv, Imported, Exported, NamedOnce, PlainName, ResolvePath;
        if old(NamedOnce(dirs)) {
          NamedOnceKept(old(S()), S(), osPath, data, r.value);
          RoundTrip(old(S()), S(), osPath, data, r.value);
        }
        if PlainName(ImportName(osPath)) {
          ExportAfterImport(old(S()), S(), osPath, data, r.value);
        }
        forall path
          ensures Exported(S(), path) == Exported(old(S()), path) || ResolvePath(dirs, 1, path) == Found(r.value)
        {
          OtherExportsKept(old(S()), S(), osPath, data, r.value, path);
        }
      }
    }

    /** The body of op_import once the host file is read. */
    method StoreFile(data: seq<Byte>, osPath: string, now: nat) returns (r: Result<nat>)
      requires Valid() && |ImportName(osPath)| < NAME_MAX && |data| < 0x1_0000_0000
      requires ImportTarget(dirs, osPath) !in dirs
      modifies this
      ensures Valid() && (old(Synced(S())) ==> Synced(S()))
      ensures r.Ok? ==> Imported(old(S()), S(), osPath, data, r.value)
      ensures r.Panic? ==> dirs == old(dirs) && FilesKept(old(S()), S(), old(ImportTarget(dirs, osPath)))
      ensures r.Panic? ==> 1 in dirs && Refused(S(), ImportParent(dirs, osPath))
    {
      hide Inv, Resolved, NodeOk, FilesKept, Abandoned, InodeTaken, GetInode, InodeFits, DirFull;
      ghost var s0 := S();
      ghost var target := ImportTarget(dirs, osPath);
      FilesUntouched(s0, target);
      var fname := ImportName(osPath);
      var parent := FindParent(osPath);
      if parent == 0 {
        return Panic("Parent directory not found");
      }
      var found := DirFind(parent, fname);
      if found.Panic? {
        return Panic("not a directory");
      }
      var ino, update := found.value, found.value != 0;
      assert ino == target;
      var node;
      if update {
        NameUsed(S(), parent, fname);
        FileInUse(S(), ino);
        node := InodeRead(ino);
      } else {
        NameAbsent(S(), parent, fname);
        var taken := AllocInode();
        if taken.Panic? {
          return Panic(taken.message);
        }
        ino := taken.value;
        InodeTakenFiles(s0, S(), ino, target);
        InodeTakenFiles(s0, S(), ino, ino);
        FreshInode(s0, S(), ino, now);
        node := Inode(ino, FILE, 0, now, 0, Zeros(ROOT_PTRS));
      }
      NodeSized(owner, ino, node, |data|, now);
      node := node.(size := |data|, modified := now);
      ghost var begun := S();
      var stored, node' := WriteData(node, data, ino);
      FilesKeptTrans(s0, begun, S(), ino);
      if stored.Panic? {
        KeptTarget(s0, S(), ino, target);
        return Panic(stored.message);
      }
      node := node';
      ghost var full := S();
      InodeSlot(S(), ino);
      InodeWrite(ino, node, dirs);
      FileStored(full, S(), ino, node, data);
      FilesKeptTrans(s0, full, S(), ino);
      if !update {
        ghost var stored := S();
        NewFileEnterable(s0, stored, parent, ino, fname, node);
        var added := DirAdd(parent, ino, fname);
        FileAfterAdd(s0, stored, S(), parent, ino, data, target);
        if added.Panic? {
          return Panic(added.message);
        }
      }
      return Ok(ino);
    }

    /** Gives an empty directory its first block, with the entries "." and "..". */
    method DirInitDots(self: nat, parent: nat) returns (r: Result<()>)
      requires Valid() && self in dirs && parent in dirs && dirs[self] == map[] && EmptyDir(GetInode(S(), self))
      modifies this
      ensures Valid() && inos == old(inos)
      ensures r.Ok? ==> dirs == old(dirs)[self := Dots(self, parent)] && Synced(S())
      ensures r.Panic? ==> S() == old(S())
      ensures r.Ok? <==> old(sb.freeBlocks) > 0
      ensures Costs(old(S()), S(), 1)
      ensures forall d :: d in old(dirs) && d != self ==> DirBlocks(S(), d) == old(DirBlocks(S(), d))
      ensures r.Ok? ==> DirBlocks(S(), self) == 1
    {
      hide Inv, InodeWritten, GetInode, EmptyDir;
      DirInUse(S(), self);
      var dir := InodeRead(self);
      DirBegins(dir);
      var lba := AllocBlock(Owner(self, [0]));
      if lba.Panic? {
        return Panic(lba.message);
      }
      ghost var mid := S();
      InodeSlot(S(), self);
      DataRange(old(S()), mid, lba.value, Owner(self, [0]));
      var dir' := DotsNode(dir, lba.value);
      disk := disk[lba.value := DotsBlock(self, parent)];
      ghost var dotted := S();
      InodeWrite(self, dir', dirs[self := Dots(self, parent)]);
      DotsWritten(old(S()), mid, dotted, S(), self, parent, lba.value);
      forall d | d in old(dirs)
        ensures Costs(old(S()), S(), 1)
        ensures if d != self then DirBlocks(S(), d) == old(DirBlocks(S(), d)) else GetInode(S(), d) == dir'
      {
        DotsSizes(old(S()), mid, dotted, S(), self, dir', lba.value, DotsBlock(self, parent), d);
      }
      DotsSizes(old(S()), mid, dotted, S(), self, dir', lba.value, DotsBlock(self, parent), self);
      return Ok(());
    }

    /** Finds a subdirectory, creating it when it is absent. */
    method DirEnsure(parent: nat, name: string, now: nat) returns (r: Result<nat>)
      requires Valid() && Synced(S()) && parent in dirs && |name| < NAME_MAX
      modifies this
      ensures Valid() && Synced(S())
      ensures r.Ok? && name in old(dirs[parent]) ==> S() == old(S()) && r.value == dirs[parent][name]
      ensures r.Ok? && name !in old(dirs[parent]) ==> DirMade(old(S()), S(), parent, name, r.value)
      ensures r.Panic? ==> Exhausted(S()) || DirFull(S(), parent)
      ensures Affordable(old(S()), S(), parent)
    {
      hide Inv, InodeWritten, InodeTaken, GetInode, EmptyDir, NameAdded, Dots, DirFull, Enterable, DirMade, Affordable,
           DirBlocks;
      AffordableSelf(S(), parent);
      DirInUse(S(), parent);
      var existing := DirFind(parent, name);
      if existing.value != 0 {
        NameUsed(S(), parent, name);
        return existing;
      }
      NameAbsent(S(), parent, name);
      var ino := AllocInode();
      if ino.Panic? {
        return ino;
      }
      ghost var mid := S();
      FreshInode(old(S()), mid, ino.value, now);
      InodeSlot(S(), ino.value);
      var node := Inode(ino.value, DIR, 0, now, 0, Zeros(ROOT_PTRS));
      NewNode(node);
      InodeWrite(ino.value, node, dirs[ino.value := map[]]);
      NewDir(old(S()), mid, S(), ino.value, node);
      NewDirSizes(old(S()), mid, S(), ino.value, node, parent);
      TakenSuper(old(S()), mid, ino.value);
      WrittenSuper(mid, S(), ino.value, node);
      ghost var made := S();
      var dots := DirInitDots(ino.value, parent);
      if dots.Panic? {
        AffordableSum(old(S()), mid, made, S(), S(), parent);
        return Panic(dots.message);
      }
      SubdirEnterable(S(), parent, ino.value, name);
      ghost var dotted := S();
      var added := DirAdd(parent, ino.value, name);
      AffordableSum(old(S()), mid, made, dotted, S(), parent);
      if added.Panic? {
        return Panic(added.message);
      }
      MadeDir(old(S()), dotted, S(), parent, name, ino.value);
      return ino;
    }

    /** The first half of op_format: metadata areas zeroed, root inode and root directory written. */
    method FormatRoot(now: nat)
      requires 1024 <= |disk| && |disk| + BITS_PER_BLOCK <= 0x1_0000_0000
      modifies this
      ensures Valid() && Synced(S()) && dirs == map[1 := Dots(1, 1)]
      ensures sb.freeBlocks > 15 && sb.freeInodes > 3 && DirBlocks(S(), 1) == 1
    {
      hide Inv, Formatted, InodesOf, BitsOf, InodeWritten, EmptyDir, GetInode, Dots;
      FormatRoom(|disk|);
      sb := FormatSuper(|disk|);
      var i := 2;
      while i < sb.dataStart
        invariant 2 <= i <= sb.dataStart <= |disk| == old(|disk|) && sb == FormatSuper(|disk|)
        invariant forall p :: 2 <= p < i ==> disk[p].Zero?
      {
        disk := disk[i := Zero];
        i := i + 1;
      }
      disk := disk[sb.mapInodeStart := Bitmap(BitsOf(Zero)[0 := true][1 := true])];
      sb := sb.(freeInodes := sb.freeInodes - 2);
      var root := Inode(1, DIR, 0, now, 0, Zeros(ROOT_PTRS));
      owner, inos := map[], {0, 1};
      FirstInode(S());
      NewNode(root);
      ghost var laid := S();
      InodeWrite(1, root, map[1 := map[]]);
      FormatDone(laid, S(), root);
      FormattedInv(S(), root);
      RoomLeft(S(), root);
      var dots := DirInitDots(1, 1);
      assert dots.Ok?;
      assert disk[1 := Super(sb)] == disk;
      disk := disk[1 := Super(sb)];
    }

    /** Lays out an empty file system with the directories /bin, /home and /dev, on any image of 4 MB or more. */
    method Format(now: nat) returns (r: Result<()>)
      requires |disk| + BITS_PER_BLOCK <= 0x1_0000_0000
      modifies this
      ensures r.Ok? <==> old(|disk|) >= 1024
      ensures r.Ok? ==> Valid() && Synced(S()) && StandardTree(dirs) && NamedOnce(dirs)
      ensures !r.Ok? ==> S() == old(S())
    {
      hide Inv, Affordable, DirMade, StandardTree, NamedOnce, DirBlocks, DirFull;
      if |disk| < 1024 {
        return Panic("Image too small (<4MB)");
      }
      FormatRoot(now);
      ghost var d0, s0 := dirs, S();
      var bin := DirEnsure(1, "bin", now);
      Afforded(s0, S(), 1, 15, 3, 1);
      assert bin.Ok?;
      ghost var d1, s1 := dirs, S();
      MadeNames(s0, S(), 1, "bin", bin.value);
      var home := DirEnsure(1, "home", now);
      Afforded(s1, S(), 1, 10, 2, 2);
      assert home.Ok?;
      ghost var d2, s2 := dirs, S();
      MadeNames(s1, S(), 1, "home", home.value);
      var dev := DirEnsure(1, "dev", now);
      Afforded(s2, S(), 1, 5, 1, 3);
      assert dev.Ok?;
      MadeNames(s2, S(), 1, "dev", dev.value);
      TreeBuilt(d0, d1, d2, dirs, bin.value, home.value, dev.value);
      TreeNamedOnce(d0, d1, d2, dirs, bin.value, home.value, dev.value);
      return Ok(());
    }
  }
}
