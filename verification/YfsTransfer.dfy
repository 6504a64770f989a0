/** Import and export of whole files, and what they promise each other. */
module YfsTransfer {
  import opened YfsTree
  import opened YfsState
  import opened YfsAlloc
  import opened YfsResolve
  import opened YfsData
  import opened YfsPath

  /** The first n bytes of the inode are the first n bytes of data. */
  ghost predicate BytesWritten(disk: seq<Block>, node: Inode, data: seq<Byte>, n: nat) {
    && |node.ptrs| == ROOT_PTRS && n <= |data| <= MAX_BLOCKS * BLOCK_SIZE
    && forall b: nat :: b < n ==> ByteAt(disk, node, b) == data[b]
  }

  /** One chunk of op_export: what a block contributes is the matching stretch of the content. */
  lemma ChunkRead(disk: seq<Block>, node: Inode, offset: nat, chunk: nat, sector: seq<Byte>)
    requires FileNode(node) && offset + chunk <= node.size && offset % BLOCK_SIZE + chunk <= BLOCK_SIZE && 0 < chunk
    requires |sector| == BLOCK_SIZE
    requires if 0 < Lookup(disk, node, offset / BLOCK_SIZE) < |disk|
             then sector == BytesOf(disk[Lookup(disk, node, offset / BLOCK_SIZE)])
             else forall k :: 0 <= k < BLOCK_SIZE ==> sector[k] == 0
    ensures Content(disk, node)[offset..offset + chunk] == sector[offset % BLOCK_SIZE..offset % BLOCK_SIZE + chunk]
  {
    hide Lookup;
    var left, right := Content(disk, node)[offset..offset + chunk],
      sector[offset % BLOCK_SIZE..offset % BLOCK_SIZE + chunk];
    forall k: nat | k < chunk ensures left[k] == right[k] {
      assert left[k] == ByteAt(disk, node, offset + k);
      hide Content;
      InBlock(offset, offset + k);
    }
  }

  lemma InBlock(a: nat, b: nat)
    requires a <= b && a % BLOCK_SIZE + (b - a) < BLOCK_SIZE
    ensures b / BLOCK_SIZE == a / BLOCK_SIZE && b % BLOCK_SIZE == a % BLOCK_SIZE + (b - a)
  {
  }

  /** Bytes of other blocks survive the resolution and the write of block blk. */
  lemma EarlierBytes(s0: Snap, s1: Snap, s2: Snap, ino: nat, node0: Inode, node1: Inode, blk: nat, lba: nat, b: Block,
                     i: nat)
    requires TablesOk(s0.disk, s0.owner) && TablesOk(s1.disk, s1.owner)
    requires Resolved(s0, s1, ino, node0, node1, blk, lba) && lba != 0
    requires DataWritten(s1, s2, ino, lba, b)
    requires i < MAX_BLOCKS && i != blk
    ensures Lookup(s2.disk, node1, i) == Lookup(s0.disk, node0, i)
    ensures 0 < Lookup(s0.disk, node0, i) < |s0.disk| ==>
              s2.disk[Lookup(s0.disk, node0, i)] == s0.disk[Lookup(s0.disk, node0, i)]
    ensures Lookup(s2.disk, node1, blk) == lba && |s2.disk| == |s0.disk|
  {
    DataWrittenLookup(s1, s2, ino, lba, b, ino, node1, i);
    DataWrittenLookup(s1, s2, ino, lba, b, ino, node1, blk);
    PathsAreIndices(i);
    PathsAreIndices(blk);
    LookupOwner(s0.disk, s0.owner, ino, node0, i);
  }

  /** One turn of the write loop of op_import. */
  lemma ChunkWritten(s0: Snap, s1: Snap, s2: Snap, ino: nat, node0: Inode, node1: Inode, data: seq<Byte>, written: nat,
                     lba: nat, sector: seq<Byte>)
    requires TablesOk(s0.disk, s0.owner) && TablesOk(s1.disk, s1.owner)
    requires BytesWritten(s0.disk, node0, data, written) && written % BLOCK_SIZE == 0 && written < |data|
    requires Resolved(s0, s1, ino, node0, node1, written / BLOCK_SIZE, lba) && lba != 0
    requires DataWritten(s1, s2, ino, lba, Raw(sector)) && |sector| == BLOCK_SIZE
    requires forall k :: 0 <= k < BLOCK_SIZE && written + k < |data| ==> sector[k] == data[written + k]
    ensures BytesWritten(s2.disk, node1, data, if written + BLOCK_SIZE <= |data| then written + BLOCK_SIZE else |data|)
  {
    hide Steady, OthersKept, TablesOk;
    var blk := written / BLOCK_SIZE;
    var n := if written + BLOCK_SIZE <= |data| then written + BLOCK_SIZE else |data|;
    ResolvedAt(s0, s1, ino, node0, node1, blk, lba);
    DataWrittenLookup(s1, s2, ino, lba, Raw(sector), ino, node1, blk);
    forall b: nat | b < n ensures ByteAt(s2.disk, node1, b) == data[b] {
      if b < written {
        assert b / BLOCK_SIZE < blk;
        EarlierBytes(s0, s1, s2, ino, node0, node1, blk, lba, Raw(sector), b / BLOCK_SIZE);
        assert ByteAt(s0.disk, node0, b) == data[b];
      } else {
        InBlock(written, b);
      }
    }
  }

  /** A data block that a file inode has just resolved may be overwritten with raw bytes. */
  lemma RawWrite(s0: Snap, s1: Snap, s2: Snap, ino: nat, node0: Inode, node1: Inode, blk: nat, lba: nat,
                 sector: seq<Byte>)
    requires Inv(s0) && Inv(s1) && Resolved(s0, s1, ino, node0, node1, blk, lba) && lba != 0 && ino !in s1.dirs
             && |sector| == BLOCK_SIZE
    requires lba < |s1.disk| && s2 == Snap(s1.disk[lba := Raw(sector)], s1.sb, s1.owner, s1.inos, s1.dirs)
    ensures Inv(s2) && DataWritten(s1, s2, ino, lba, Raw(sector)) && FilesKept(s0, s2, ino)
    ensures NodeOk(s2.owner, ino, node1)
  {
    hide Inv, FilesKept, Steady, OthersKept;
    ImageBounds(s1);
    LookupOwner(s1.disk, s1.owner, ino, node1, blk);
    assert DataWritten(s1, s2, ino, lba, Raw(sector));
    DataWrittenInv(s1, s2, ino, lba, Raw(sector));
    ResolvedFiles(s0, s1, ino, PathOf(blk));
    DataWrittenFiles(s1, s2, ino, lba, Raw(sector));
    FilesKeptTrans(s0, s1, s2, ino);
  }

  lemma ResolvedInImage(s0: Snap, s: Snap, ino: nat, node0: Inode, node: Inode, idx: nat, lba: nat)
    requires Inv(s) && Resolved(s0, s, ino, node0, node, idx, lba) && lba != 0
    ensures 1 < lba < |s.disk| && s.dirs == s0.dirs && s.inos == s0.inos && node == node0.(ptrs := node.ptrs)
    ensures s.sb.totalInodes == s0.sb.totalInodes
  {
    hide DirsOk, OthersKept;
    LookupOwner(s.disk, s.owner, ino, node, idx);
  }

  lemma InodeTakenFiles(s: Snap, s2: Snap, ino: nat, except: nat)
    requires Inv(s) && InodeTaken(s, s2, ino)
    ensures FilesKept(s, s2, except)
  {
    hide Inv, SameBlocks, GetInode, NodeOk, TablesOk;
    InodeTakenOwned(s, s2, ino);
    forall i2 | i2 in s.inos && i2 != except && i2 !in s.dirs ensures SameFile(s, s2, i2) {
      InodeInUse(s, i2);
      OwnBlocksSame(s.disk, s.owner, s2.disk, i2, GetInode(s, i2));
    }
  }

  lemma InodeTakenOwned(s: Snap, s2: Snap, ino: nat)
    requires Inv(s) && InodeTaken(s, s2, ino)
    ensures forall i: nat :: i < s.sb.totalInodes ==> GetInode(s2, i) == GetInode(s, i)
    ensures forall p :: p in s.owner ==> p < |s.disk| && s2.disk[p] == s.disk[p]
    ensures ino !in s2.dirs
  {
    InodeTakenReads(s, s2, ino);
  }

  /** Files are kept except `a`; as `b` is a directory or new, excepting it instead changes nothing. */
  lemma ExceptDirectory(s: Snap, s2: Snap, a: nat, b: nat)
    requires FilesKept(s, s2, a) && (a in s.dirs || a !in s.inos)
    ensures FilesKept(s, s2, b)
  {
    hide SameFile;
  }

  // ------------------------------------------------------------------
  // The contract of import
  // ------------------------------------------------------------------

  /** The inode the destination already names, 0 when it is absent. */
  function ImportTarget(dirs: Names, osPath: string): nat {
    if 1 in dirs && ImportParent(dirs, osPath) in dirs
    then NameIn(dirs, ImportParent(dirs, osPath), ImportName(osPath))
    else 0
  }

  /** op_import in one statement. */
  ghost predicate Imported(s: Snap, s2: Snap, osPath: string, data: seq<Byte>, ino: nat) {
    && 1 in s.dirs && ImportParent(s.dirs, osPath) in s.dirs
    && ino != 0 && ino in s2.inos && ino !in s2.dirs
    && (if ImportName(osPath) in s.dirs[ImportParent(s.dirs, osPath)]
        then ino == s.dirs[ImportParent(s.dirs, osPath)][ImportName(osPath)] && s2.dirs == s.dirs
        else ino !in s.inos && s2.dirs == WithName(s.dirs, ImportParent(s.dirs, osPath), ImportName(osPath), ino))
    && GetInode(s2, ino).kind == FILE && FileNode(GetInode(s2, ino))
    && Content(s2.disk, GetInode(s2, ino)) == data
    && FilesKept(s, s2, ino)
  }

  /** Why an import stops: no such parent directory, or the image or the parent is full. */
  predicate Refused(s: Snap, parent: nat) {
    parent !in s.dirs || Exhausted(s) || DirFull(s, parent)
  }

  lemma ImportKeepsParent(dirs: Names, p: nat, name: string, ino: nat, osPath: string)
    requires 1 in dirs && p in dirs && name !in dirs[p]
    requires ImportParent(dirs, osPath) == p && p != 0 && name == ImportName(osPath)
    ensures ImportParent(WithName(dirs, p, name, ino), osPath) == p
  {
  }

  /** Round trip: exporting the path just imported yields the imported bytes. */
  lemma ExportAfterImport(s: Snap, s2: Snap, osPath: string, data: seq<Byte>, ino: nat)
    requires Inv(s) && Inv(s2) && Imported(s, s2, osPath, data, ino) && PlainName(ImportName(osPath))
    ensures Exported(s2, osPath) == Ok(data)
  {
    hide ResolvePath, Content;
    ImportLeads(s, s2, osPath, data, ino);
  }

  lemma ImportLeads(s: Snap, s2: Snap, osPath: string, data: seq<Byte>, ino: nat)
    requires Inv(s) && Inv(s2) && Imported(s, s2, osPath, data, ino) && PlainName(ImportName(osPath))
    ensures ResolvePath(s2.dirs, 1, osPath) == Found(ino)
  {
    hide Inv, ResolvePath, Content, FileNode, FilesKept, GetInode, ImportName;
    var p, name := ImportParent(s.dirs, osPath), ImportName(osPath);
    ParentInUse(s, p);
    if name !in s.dirs[p] {
      ImportKeepsParent(s.dirs, p, name, ino, osPath);
    }
    ImportPathResolves(s2.dirs, osPath);
  }

  lemma ParentInUse(s: Snap, d: nat)
    requires Inv(s) && d in s.dirs
    ensures d != 0
  {
  }

  /** Every other path exports what it exported before. */
  lemma OtherExportsKept(s: Snap, s2: Snap, osPath: string, data: seq<Byte>, ino: nat, path: string)
    requires Inv(s) && Inv(s2) && Imported(s, s2, osPath, data, ino)
    ensures Exported(s2, path) == Exported(s, path) || ResolvePath(s2.dirs, 1, path) == Found(ino)
  {
    hide Inv, ResolvePath, Content, FileNode, FilesKept, GetInode, ImportName;
    var p, name := ImportParent(s.dirs, osPath), ImportName(osPath);
    NewInodeUnnamed(s, s2, ino);
    if name !in s.dirs[p] {
      PathsKept(s.dirs, p, name, ino, 1, path);
    }
    if ResolvePath(s2.dirs, 1, path) != Found(ino) {
      SameExport(s, s2, ino, path);
    }
  }

  lemma NewInodeUnnamed(s: Snap, s2: Snap, ino: nat)
    requires ino !in s2.dirs && FilesKept(s, s2, ino)
    ensures ino !in s.dirs
  {
    hide SameFile;
  }

  /** An import enters a file once, under a new number or the one it had. */
  lemma NamedOnceKept(s: Snap, s2: Snap, osPath: string, data: seq<Byte>, ino: nat)
    requires Inv(s) && NamedOnce(s.dirs) && Imported(s, s2, osPath, data, ino)
    ensures NamedOnce(s2.dirs)
  {
    hide Inv, Content, FileNode, FilesKept, GetInode, ImportName;
    var p, name := ImportParent(s.dirs, osPath), ImportName(osPath);
    if name !in s.dirs[p] {
      forall d, n | d in s.dirs && n in s.dirs[d] ensures s.dirs[d][n] != ino {
        ChildInUse(s, d, n);
      }
    }
  }

  /** The names that no path can spell: empty, or with a slash. */
  predicate HiddenIn(name: string) {
    name == "" || exists k :: 0 <= k < |name| && name[k] == '/'
  }

  lemma HiddenInputs()
    ensures ImportName("/bin/") == "" && HiddenIn(ImportName("/bin/"))
    ensures ImportName("/a/b") == "a/b" && HiddenIn(ImportName("/a/b"))
  {
    assert "/a/b"[1..] == "a/b" && "a/b"[1] == '/';
  }

  /** Under a name no path can spell, a file entered once is under no path, and every path leads where it did. */
  lemma HiddenImport(s: Snap, s2: Snap, osPath: string, data: seq<Byte>, ino: nat, path: string)
    requires Inv(s) && Inv(s2) && NamedOnce(s.dirs) && Imported(s, s2, osPath, data, ino)
             && HiddenIn(ImportName(osPath))
    ensures ResolvePath(s2.dirs, 1, path) == ResolvePath(s.dirs, 1, path) != Found(ino)
  {
    hide Inv, Content, FileNode, FilesKept, GetInode, ImportName, NamedOnce, ResolvePath;
    var p, name := ImportParent(s.dirs, osPath), ImportName(osPath);
    if name !in s.dirs[p] {
      HiddenName(s.dirs, p, name, ino, 1, path);
    }
    NamedOnceKept(s, s2, osPath, data, ino);
    RootInUse(s2);
    if ResolvePath(s2.dirs, 1, path) == Found(ino) {
      FoundByName(s2.dirs, 1, path, ino);
      var d, n :| d in s2.dirs && n in s2.dirs[d] && s2.dirs[d][n] == ino && PlainName(n);
      OneName(s2.dirs, d, n, p, name);
    }
  }

  lemma OneName(dirs: Names, d: nat, n: string, d2: nat, n2: string)
    requires NamedOnce(dirs) && d in dirs && n in dirs[d] && d2 in dirs && n2 in dirs[d2]
    requires dirs[d][n] == dirs[d2][n2] && dirs[d][n] !in dirs
    ensures n == n2
  {
  }

  /** The imported file can be exported again, under the path it was imported to, exactly if its name is plain. */
  lemma RoundTrip(s: Snap, s2: Snap, osPath: string, data: seq<Byte>, ino: nat)
    requires Inv(s) && Inv(s2) && NamedOnce(s.dirs) && Imported(s, s2, osPath, data, ino)
             && |ImportName(osPath)| < NAME_MAX
    ensures PlainName(ImportName(osPath)) ==> Exported(s2, osPath) == Ok(data)
    ensures PlainName(ImportName(osPath)) <==> exists path :: ResolvePath(s2.dirs, 1, path) == Found(ino)
  {
    hide Inv, Content, FileNode, FilesKept, GetInode, ImportName, NamedOnce, ResolvePath, Exported, Imported;
    if PlainName(ImportName(osPath)) {
      ExportAfterImport(s, s2, osPath, data, ino);
      ImportLeads(s, s2, osPath, data, ino);
    } else {
      assert HiddenIn(ImportName(osPath));
      forall path ensures ResolvePath(s2.dirs, 1, path) != Found(ino) {
        HiddenImport(s, s2, osPath, data, ino, path);
      }
    }
  }

  // ------------------------------------------------------------------
  // Steps of op_import
  // ------------------------------------------------------------------

  lemma ParentNamed(s: Snap, osPath: string)
    requires Inv(s) && 1 in s.dirs && ImportParent(s.dirs, osPath) != 0
    ensures ImportParent(s.dirs, osPath) in s.inos
  {
    hide Inv;
    RootInUse(s);
    if HasPrefix(osPath, "/bin/") {
      ChildInUse(s, 1, "bin");
    } else if HasPrefix(osPath, "/home/") {
      ChildInUse(s, 1, "home");
    }
  }

  lemma NameUsed(s: Snap, d: nat, name: string)
    requires Inv(s) && d in s.dirs && NameIn(s.dirs, d, name) != 0
    ensures name in s.dirs[d] && s.dirs[d][name] in s.inos
    ensures s.dirs[d][name] !in s.dirs ==> GetInode(s, s.dirs[d][name]).kind == FILE
  {
    hide Inv, GetInode;
    ChildInUse(s, d, name);
    FileInUse(s, s.dirs[d][name]);
  }

  lemma FreshInode(s: Snap, s2: Snap, ino: nat, now: nat)
    requires Inv(s) && InodeTaken(s, s2, ino)
    ensures ino != 0 && ino in s2.inos && ino !in s.inos && ino < s2.sb.totalInodes && ino !in s.dirs
            && s2.dirs == s.dirs
    ensures NodeOk(s2.owner, ino, Inode(ino, FILE, 0, now, 0, Zeros(ROOT_PTRS)))
  {
    hide DirHolds;
  }

  lemma NodeSized(ow: Owners, ino: nat, node: Inode, size: nat, now: nat)
    requires NodeOk(ow, ino, node) && size < 0x1_0000_0000
    ensures NodeOk(ow, ino, node.(size := size, modified := now))
  {
  }

  lemma BytesNone(ow: Owners, ino: nat, disk: seq<Block>, node: Inode, data: seq<Byte>)
    requires NodeOk(ow, ino, node) && |data| < 0x1_0000_0000
    ensures BytesWritten(disk, node, data, 0)
  {
  }

  lemma ChunkTurn(s0: Snap, s1: Snap, s2: Snap, ino: nat, node0: Inode, node1: Inode, data: seq<Byte>, written: nat,
                  lba: nat, sector: seq<Byte>)
    requires Inv(s0) && Inv(s1)
    requires BytesWritten(s0.disk, node0, data, written) && written % BLOCK_SIZE == 0 && written < |data|
    requires Resolved(s0, s1, ino, node0, node1, written / BLOCK_SIZE, lba) && lba != 0
    requires DataWritten(s1, s2, ino, lba, Raw(sector)) && |sector| == BLOCK_SIZE
    requires forall k :: 0 <= k < BLOCK_SIZE && written + k < |data| ==> sector[k] == data[written + k]
    ensures BytesWritten(s2.disk, node1, data, if written + BLOCK_SIZE <= |data| then written + BLOCK_SIZE else |data|)
  {
    hide Inv, BytesWritten, Resolved, DataWritten;
    ImageBounds(s0);
    ImageBounds(s1);
    ChunkWritten(s0, s1, s2, ino, node0, node1, data, written, lba, sector);
  }

  /** When the import stops early, only the file being replaced can have changed. */
  lemma KeptTarget(s0: Snap, s: Snap, ino: nat, target: nat)
    requires FilesKept(s0, s, ino) && (ino == target || ino !in s0.inos)
    ensures FilesKept(s0, s, target)
  {
    hide SameFile;
  }

  /** Once the inode is written the file holds the data. */
  lemma FileStored(s: Snap, s2: Snap, ino: nat, node: Inode, data: seq<Byte>)
    requires Inv(s) && InodeWritten(s, s2, ino, node) && s2.dirs == s.dirs && ino in s.inos && ino != 0
             && ino !in s.dirs
    requires NodeOk(s.owner, ino, node) && node.size == |data| && node.kind == FILE
             && BytesWritten(s.disk, node, data, |data|)
    ensures Inv(s2) && FilesKept(s, s2, ino)
    ensures GetInode(s2, ino) == node && FileNode(node) && Content(s2.disk, node) == data
  {
    hide Inv, FilesKept, InodeWritten, GetInode, TablesOk, SameBlocks;
    assert InodeFits(s, s2.dirs, ino, node);
    InodeWrittenInv(s, s2, ino, node);
    InodeWrittenFiles(s, s2, ino, node);
    InodeWrittenOwned(s, s2, ino, node);
    ImageBounds(s);
    DiskLength(s, s2, ino, node);
    OwnBlocksSame(s.disk, s.owner, s2.disk, ino, node);
    SameContent(s.disk, s2.disk, node);
    assert Content(s.disk, node) == data;
  }

  lemma DiskLength(s: Snap, s2: Snap, ino: nat, node: Inode)
    requires InodeWritten(s, s2, ino, node)
    ensures |s2.disk| == |s.disk|
  {
  }

  lemma NewFileEnterable(s0: Snap, s: Snap, d: nat, ino: nat, name: string, node: Inode)
    requires d in s0.dirs && name !in s0.dirs[d] && |name| < NAME_MAX && s.dirs == s0.dirs
    requires ino in s.inos && ino != 0 && GetInode(s, ino) == node && node.kind == FILE
    ensures Enterable(s, d, ino, name)
  {
  }

  lemma FileAfterAdd(s0: Snap, s: Snap, s2: Snap, d: nat, ino: nat, data: seq<Byte>, target: nat)
    requires Inv(s) && d in s.dirs && FilesKept(s, s2, d) && FilesKept(s0, s, ino)
    requires ino in s.inos && ino !in s.dirs && ino !in s0.inos
    requires FileNode(GetInode(s, ino)) && Content(s.disk, GetInode(s, ino)) == data && GetInode(s, ino).kind == FILE
    ensures FilesKept(s0, s2, ino) && FilesKept(s0, s2, target)
    ensures GetInode(s2, ino) == GetInode(s, ino) && Content(s2.disk, GetInode(s2, ino)) == data
  {
    hide Inv, SameBlocks, GetInode, Content;
    assert SameFile(s, s2, ino);
    SameContent(s.disk, s2.disk, GetInode(s, ino));
    ExceptDirectory(s, s2, d, ino);
    FilesKeptTrans(s0, s, s2, ino);
    KeptTarget(s0, s2, ino, target);
  }
}
