/**
 * On-disk entities of a YulaFS image and the block map of an inode: twelve direct
 * pointers and one-, two- and three-level pointer tables.
 *
 * A block is kept in the form it was last written in. Reading a block in another form
 * is meaningless in the tool, and the invariants below rule it out; a zeroed block may be
 * read in every form.
 */
module YfsTree {

  const BLOCK_SIZE := 4096
  const NAME_MAX := 60
  const DIRECT_PTRS := 12
  const PTRS_PER_BLOCK := 1024
  const BITS_PER_BLOCK := 32768
  const INODES_PER_BLOCK := 32
  const DIRENTS_PER_BLOCK := 64
  const ROOT_PTRS := 15
  const SQ := 1024 * 1024
  const CUBE := 1024 * 1024 * 1024
  const MAX_BLOCKS := 12 + 1024 + SQ + CUBE

  const FILE := 1
  const DIR := 2

  type Byte = n: nat | n < 256

  datatype Superblock = Superblock(
    magic: nat, version: nat, blockSize: nat,
    totalBlocks: nat, totalInodes: nat, freeBlocks: nat, freeInodes: nat,
    mapInodeStart: nat, mapBlockStart: nat, inodeTableStart: nat, dataStart: nat)

  /** `ptrs` holds the twelve direct pointers, then the single, double and triple indirect roots. */
  datatype Inode = Inode(id: nat, kind: nat, size: nat, created: nat, modified: nat, ptrs: seq<nat>)

  datatype Dirent = Dirent(inode: nat, name: string)

  datatype Block =
    | Zero
    | Raw(bytes: seq<Byte>)
    | Table(ptrs: seq<nat>)
    | Dirents(ents: seq<Dirent>)
    | Bitmap(bits: seq<bool>)
    | InodeTable(inodes: seq<Inode>)
    | Super(sb: Superblock)

  /** A run of empty pointers. */
  function Zeros(n: nat): (z: seq<nat>)
    ensures |z| == n && forall k :: 0 <= k < n ==> z[k] == 0
  {
    seq(n, _ => 0)
  }

  const ZeroInode := Inode(0, 0, 0, 0, 0, Zeros(ROOT_PTRS))

  function TableOf(b: Block): (t: seq<nat>)
    ensures |t| == PTRS_PER_BLOCK
  {
    if b.Table? && |b.ptrs| == PTRS_PER_BLOCK then b.ptrs else Zeros(PTRS_PER_BLOCK)
  }

  function BytesOf(b: Block): (t: seq<Byte>)
    ensures |t| == BLOCK_SIZE
  {
    if b.Raw? && |b.bytes| == BLOCK_SIZE then b.bytes else seq(BLOCK_SIZE, _ => 0)
  }

  function DirentsOf(b: Block): (t: seq<Dirent>)
    ensures |t| == DIRENTS_PER_BLOCK
  {
    if b.Dirents? && |b.ents| == DIRENTS_PER_BLOCK then b.ents else seq(DIRENTS_PER_BLOCK, _ => Dirent(0, ""))
  }

  function BitsOf(b: Block): (t: seq<bool>)
    ensures |t| == BITS_PER_BLOCK
  {
    if b.Bitmap? && |b.bits| == BITS_PER_BLOCK then b.bits else seq(BITS_PER_BLOCK, _ => false)
  }

  function InodesOf(b: Block): (t: seq<Inode>)
    ensures |t| == INODES_PER_BLOCK
  {
    if b.InodeTable? && |b.inodes| == INODES_PER_BLOCK then b.inodes else seq(INODES_PER_BLOCK, _ => ZeroInode)
  }

  // ------------------------------------------------------------------
  // Mixed-radix addresses of the logical blocks of a file
  // ------------------------------------------------------------------

  /** Length of the pointer path that starts at root slot `slot` and ends at a data block. */
  function PathLen(slot: nat): nat {
    if slot < DIRECT_PTRS then 1 else slot - 10
  }

  /** The path names a pointer table. */
  predicate TablePath(path: seq<nat>) {
    0 < |path| && path[0] < ROOT_PTRS && |path| < PathLen(path[0])
  }

  /** The path leads from the inode to a pointer table or to a data block. */
  predicate PathPrefix(path: seq<nat>) {
    && 0 < |path|
    && path[0] < ROOT_PTRS
    && |path| <= PathLen(path[0])
    && forall k :: 1 <= k < |path| ==> path[k] < PTRS_PER_BLOCK
  }

  /** The path names a data block. */
  predicate DataPath(path: seq<nat>) {
    PathPrefix(path) && |path| == PathLen(path[0])
  }

  /** The pointers followed to reach logical block `idx`, as inode_resolve_block splits it. */
  function PathOf(idx: nat): (path: seq<nat>)
    requires idx < MAX_BLOCKS
    ensures DataPath(path)
  {
    if idx < 12 then [idx]
    else if idx < 12 + 1024 then [12, idx - 12]
    else if idx < 12 + 1024 + SQ then
      var b := idx - 12 - 1024;
      [13, b / 1024, b % 1024]
    else
      var c := idx - 12 - 1024 - SQ;
      [14, c / SQ, c % SQ / 1024, c % SQ % 1024]
  }

  /** The inverse numbering: which logical block a pointer path reaches. */
  function IndexOf(path: seq<nat>): nat
    requires DataPath(path)
  {
    if |path| == 1 then path[0]
    else if |path| == 2 then 12 + path[1]
    else if |path| == 3 then 12 + 1024 + path[1] * 1024 + path[2]
    else 12 + 1024 + SQ + path[1] * SQ + path[2] * 1024 + path[3]
  }

  /** Block indices and data paths correspond one to one. */
  lemma PathsAreIndices(idx: nat)
    requires idx < MAX_BLOCKS
    ensures IndexOf(PathOf(idx)) == idx
  {
  }

  lemma IndicesArePaths(path: seq<nat>)
    requires DataPath(path)
    ensures IndexOf(path) < MAX_BLOCKS
    ensures PathOf(IndexOf(path)) == path
  {
    match |path|
    case 1 =>
    case 2 =>
    case 3 =>
      SplitDigits(path[1], path[2], 1024);
    case _ =>
      assert |path| == 4;
      var low := path[2] * 1024 + path[3];
      SplitDigits(path[2], path[3], 1024);
      SplitDigits(path[1], low, SQ);
  }

  lemma SplitDigits(hi: nat, lo: nat, radix: nat)
    requires lo < radix && (radix == 1024 || radix == SQ)
    ensures (hi * radix + lo) / radix == hi && (hi * radix + lo) % radix == lo
  {
    if radix == 1024 {
      assert (hi * 1024 + lo) / 1024 == hi;
    } else {
      assert (hi * 1048576 + lo) / 1048576 == hi;
    }
  }

  // ------------------------------------------------------------------
  // Following pointers
  // ------------------------------------------------------------------

  /** Follows the table entries `rest` from block `cur`; 0 as soon as a pointer is missing. */
  function Walk(disk: seq<Block>, cur: nat, rest: seq<nat>): nat
    decreases |rest|
  {
    if cur == 0 || rest == [] then cur
    else if cur < |disk| && rest[0] < PTRS_PER_BLOCK then Walk(disk, TableOf(disk[cur])[rest[0]], rest[1..])
    else 0
  }

  /** The LBA that holds logical block `idx` of an inode, or 0. */
  function Lookup(disk: seq<Block>, node: Inode, idx: nat): nat
    requires |node.ptrs| == ROOT_PTRS && idx < MAX_BLOCKS
  {
    Walk(disk, node.ptrs[PathOf(idx)[0]], PathOf(idx)[1..])
  }

  // ------------------------------------------------------------------
  // Ownership
  // ------------------------------------------------------------------

  /** What an allocated block is for: the place in inode `ino` reached by `path`. */
  datatype Owner = Owner(ino: nat, path: seq<nat>)

  type Owners = map<nat, Owner>

  /** A pointer at place (ino, path) is either empty or leads to a block owned by that place. */
  predicate PtrOk(ow: Owners, p: nat, ino: nat, path: seq<nat>) {
    p == 0 || (p in ow && ow[p] == Owner(ino, path))
  }

  predicate NodeOk(ow: Owners, ino: nat, node: Inode) {
    && |node.ptrs| == ROOT_PTRS
    && node.size <= MAX_BLOCKS * BLOCK_SIZE
    && forall k :: 0 <= k < ROOT_PTRS ==> PtrOk(ow, node.ptrs[k], ino, [k])
  }

  predicate IsTableBlock(ow: Owners, p: nat) {
    p in ow && TablePath(ow[p].path)
  }

  ghost predicate TablesOk(disk: seq<Block>, ow: Owners) {
    forall p: nat :: IsTableBlock(ow, p) ==> p < |disk| && TableOk(disk, ow, p)
  }

  predicate TableOk(disk: seq<Block>, ow: Owners, p: nat)
    requires p in ow && p < |disk|
  {
    && (disk[p].Zero? || disk[p].Table?)
    && forall k :: 0 <= k < PTRS_PER_BLOCK ==> PtrOk(ow, TableOf(disk[p])[k], ow[p].ino, ow[p].path + [k])
  }

  /** Every pointer found by a walk leads to the block owned by exactly that place. */
  lemma {:induction false} WalkOwner(disk: seq<Block>, ow: Owners, ino: nat, cur: nat, pre: seq<nat>, rest: seq<nat>)
    requires TablesOk(disk, ow)
    requires PtrOk(ow, cur, ino, pre)
    requires 0 < |pre| && PathPrefix(pre + rest)
    ensures PtrOk(ow, Walk(disk, cur, rest), ino, pre + rest)
    decreases |rest|
  {
    if rest == [] {
      assert pre + rest == pre;
    } else if cur != 0 {
      assert (pre + rest)[0] == pre[0];
      assert (pre + rest)[|pre|] == rest[0];
      assert IsTableBlock(ow, cur);
      assert TableOk(disk, ow, cur);
      assert pre + [rest[0]] + rest[1..] == pre + rest;
      WalkOwner(disk, ow, ino, TableOf(disk[cur])[rest[0]], pre + [rest[0]], rest[1..]);
    }
  }

  lemma LookupOwner(disk: seq<Block>, ow: Owners, ino: nat, node: Inode, idx: nat)
    requires TablesOk(disk, ow) && NodeOk(ow, ino, node) && idx < MAX_BLOCKS
    ensures PtrOk(ow, Lookup(disk, node, idx), ino, PathOf(idx))
  {
    var path := PathOf(idx);
    assert [path[0]] + path[1..] == path;
    WalkOwner(disk, ow, ino, node.ptrs[path[0]], [path[0]], path[1..]);
  }

  /** No two logical blocks, of one inode or of two, ever share a disk block. */
  lemma BlocksAreDisjoint(disk: seq<Block>, ow: Owners, ino1: nat, n1: Inode, i1: nat, ino2: nat, n2: Inode, i2: nat)
    requires TablesOk(disk, ow) && NodeOk(ow, ino1, n1) && NodeOk(ow, ino2, n2)
    requires i1 < MAX_BLOCKS && i2 < MAX_BLOCKS
    requires Lookup(disk, n1, i1) != 0 && Lookup(disk, n1, i1) == Lookup(disk, n2, i2)
    ensures ino1 == ino2 && i1 == i2
  {
    LookupOwner(disk, ow, ino1, n1, i1);
    LookupOwner(disk, ow, ino2, n2, i2);
    PathsAreIndices(i1);
    PathsAreIndices(i2);
  }

  /** A data block is never one of the pointer tables. */
  lemma DataIsNoTable(disk: seq<Block>, ow: Owners, ino: nat, node: Inode, idx: nat)
    requires TablesOk(disk, ow) && NodeOk(ow, ino, node) && idx < MAX_BLOCKS
    ensures !IsTableBlock(ow, Lookup(disk, node, idx)) || Lookup(disk, node, idx) == 0
  {
    LookupOwner(disk, ow, ino, node, idx);
  }

  // ------------------------------------------------------------------
  // Framing: filling one empty slot
  // ------------------------------------------------------------------

  predicate Extends(ow: Owners, ow2: Owners) {
    forall p :: p in ow ==> p in ow2 && ow2[p] == ow[p]
  }

  /** Entry k of table p was empty, is the slot (ino, path), and now leads to a fresh zero block. */
  predicate FilledEntry(disk: seq<Block>, ow: Owners, disk2: seq<Block>, ino: nat, path: seq<nat>, p: nat, k: nat)
    requires p in ow && p < |disk| && p < |disk2| && k < PTRS_PER_BLOCK
  {
    var c := TableOf(disk2[p])[k];
    TableOf(disk[p])[k] == 0 && ow[p].ino == ino && ow[p].path + [k] == path
    && 0 < c < |disk2| && disk2[c].Zero?
  }

  /**
   * From (disk, ow) to disk2 the pointer tables changed at most by filling the empty slot
   * named (ino, path) with a pointer to a zero block.
   */
  ghost predicate SlotFilled(disk: seq<Block>, ow: Owners, disk2: seq<Block>, ino: nat, path: seq<nat>) {
    && |disk2| == |disk|
    && forall p: nat, k :: IsTableBlock(ow, p) && p < |disk| && 0 <= k < PTRS_PER_BLOCK ==>
         || TableOf(disk2[p])[k] == TableOf(disk[p])[k]
         || FilledEntry(disk, ow, disk2, ino, path, p, k)
  }

  /** No block, or a zeroed one. */
  predicate BlankBlock(disk: seq<Block>, lba: nat) {
    lba == 0 || (lba < |disk| && disk[lba].Zero?)
  }

  lemma {:induction false} WalkFrame(disk: seq<Block>, ow: Owners, disk2: seq<Block>, ino: nat, path: seq<nat>,
                                     ino2: nat, cur: nat, pre: seq<nat>, rest: seq<nat>)
    requires SlotFilled(disk, ow, disk2, ino, path)
    requires TablesOk(disk, ow) && PtrOk(ow, cur, ino2, pre)
    requires 0 < |pre| && PathPrefix(pre + rest)
    ensures Walk(disk, cur, rest) != 0 ==> Walk(disk2, cur, rest) == Walk(disk, cur, rest)
    ensures ino2 != ino || pre + rest != path ==> Walk(disk2, cur, rest) == Walk(disk, cur, rest)
    ensures Walk(disk, cur, rest) == 0 ==> BlankBlock(disk2, Walk(disk2, cur, rest))
    decreases |rest|
  {
    if rest != [] && cur != 0 {
      var k := rest[0];
      assert (pre + rest)[0] == pre[0] && (pre + rest)[|pre|] == k;
      assert IsTableBlock(ow, cur);
      assert TableOk(disk, ow, cur);
      assert pre + [k] + rest[1..] == pre + rest;
      if TableOf(disk2[cur])[k] == TableOf(disk[cur])[k] {
        WalkFrame(disk, ow, disk2, ino, path, ino2, TableOf(disk[cur])[k], pre + [k], rest[1..]);
      } else {
        assert FilledEntry(disk, ow, disk2, ino, path, cur, k);
        if rest[1..] == [] {
          assert pre + rest == pre + [k];
        } else {
          assert (pre + rest)[|pre| + 1] == rest[1..][0];
          assert Walk(disk2, TableOf(disk2[cur])[k], rest[1..]) == 0;
        }
      }
    }
  }

  /**
   * Filling slot (ino, path) keeps every block that was mapped where it was, and leaves
   * every other logical block of every inode as it was, mapped or not.
   */
  lemma LookupFrame(disk: seq<Block>, ow: Owners, disk2: seq<Block>, ino: nat, path: seq<nat>,
                    ino2: nat, node: Inode, idx: nat)
    requires SlotFilled(disk, ow, disk2, ino, path)
    requires TablesOk(disk, ow) && NodeOk(ow, ino2, node) && idx < MAX_BLOCKS
    ensures Lookup(disk, node, idx) != 0 ==> Lookup(disk2, node, idx) == Lookup(disk, node, idx)
    ensures ino2 != ino || PathOf(idx) != path ==> Lookup(disk2, node, idx) == Lookup(disk, node, idx)
    ensures Lookup(disk, node, idx) == 0 ==> BlankBlock(disk2, Lookup(disk2, node, idx))
  {
    var p := PathOf(idx);
    assert [p[0]] + p[1..] == p;
    WalkFrame(disk, ow, disk2, ino, path, ino2, node.ptrs[p[0]], [p[0]], p[1..]);
  }

  /** Lookups depend on the pointer tables alone. */
  lemma LookupSameTables(disk: seq<Block>, ow: Owners, disk2: seq<Block>, ino: nat, node: Inode, idx: nat)
    requires TablesOk(disk, ow) && NodeOk(ow, ino, node) && idx < MAX_BLOCKS
    requires |disk2| == |disk|
    requires forall p: nat :: IsTableBlock(ow, p) && p < |disk| ==> disk2[p] == disk[p]
    ensures Lookup(disk2, node, idx) == Lookup(disk, node, idx)
  {
    LookupFrame(disk, ow, disk2, ino + 1, [], ino, node, idx);
  }

  /** Walking a path in two stages. */
  lemma {:induction false} WalkConcat(disk: seq<Block>, cur: nat, first: seq<nat>, rest: seq<nat>)
    ensures Walk(disk, cur, first + rest) == Walk(disk, Walk(disk, cur, first), rest)
    decreases |first|
  {
    if first == [] {
      assert first + rest == rest;
    } else if cur != 0 && cur < |disk| && first[0] < PTRS_PER_BLOCK {
      assert (first + rest)[0] == first[0] && (first + rest)[1..] == first[1..] + rest;
      WalkConcat(disk, TableOf(disk[cur])[first[0]], first[1..], rest);
    }
  }
}
