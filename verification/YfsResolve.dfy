/** The descent of inode_resolve_block through the pointer tables, one level at a time. */
module YfsResolve {
  import opened YfsTree
  import opened YfsState

  /** One table level: entry k of table tbl is c afterwards; an empty entry may have been filled. */
  ghost predicate EntryStep(s: Snap, s2: Snap, ino: nat, pre: seq<nat>, tbl: nat, k: nat, c: nat) {
    && k < PTRS_PER_BLOCK
    && tbl < |s.disk| && tbl < |s2.disk|
    && Steady(s, s2)
    && OthersKept(s, s2, ino, pre + [k])
    && SlotFilled(s.disk, s.owner, s2.disk, ino, pre + [k])
    && TableOf(s2.disk[tbl])[k] == c
    && PtrOk(s2.owner, c, ino, pre + [k])
    && (TableOf(s.disk[tbl])[k] != 0 ==> s2 == s)
    && (TableOf(s.disk[tbl])[k] == 0 ==> BlankBlock(s2.disk, c))
  }

  lemma Unchanged(s: Snap, ino: nat, path: seq<nat>)
    ensures Steady(s, s) && OthersKept(s, s, ino, path) && SlotFilled(s.disk, s.owner, s.disk, ino, path)
  {
  }

  lemma EntryShape(s: Snap, t: Snap, u: Snap, ino: nat, pre: seq<nat>, tbl: nat, k: nat, c: nat)
    requires Geometry(s.sb, |s.disk|) && InBlocks(s) && TableSlot(s, ino, pre, tbl, k)
    requires Allocated(s, t, c, Owner(ino, pre + [k])) && EntrySet(t, u, tbl, k, c)
    ensures TableSlot(t, ino, pre, tbl, k) && c != tbl && 0 < c < |t.disk| && t.disk[c].Zero?
    ensures c in t.owner && t.owner[c] == Owner(ino, pre + [k])
    ensures tbl < |s.disk| && tbl < |u.disk| && TableOf(u.disk[tbl])[k] == c
    ensures PtrOk(u.owner, c, ino, pre + [k]) && BlankBlock(u.disk, c)
  {
    AllocOwned(s, t, c, Owner(ino, pre + [k]));
  }

  lemma EntryStepSteady(s: Snap, t: Snap, u: Snap, ino: nat, pre: seq<nat>, tbl: nat, k: nat, c: nat)
    requires Geometry(s.sb, |s.disk|) && InBlocks(s) && TablesOk(s.disk, s.owner) && TableSlot(s, ino, pre, tbl, k)
    requires Geometry(t.sb, |t.disk|) && InBlocks(t) && TablesOk(t.disk, t.owner)
    requires Allocated(s, t, c, Owner(ino, pre + [k])) && EntrySet(t, u, tbl, k, c)
    ensures Steady(s, u) && OthersKept(s, u, ino, pre + [k])
  {
    hide Steady, OthersKept;
    EntryShape(s, t, u, ino, pre, tbl, k, c);
    AllocSteady(s, t, c, Owner(ino, pre + [k]), ino, pre + [k]);
    EntrySteady(t, u, ino, pre, tbl, k, c);
    SteadyTrans(s, t, u);
    OthersKeptTrans(s, t, u, ino, pre + [k]);
  }

  lemma EntryStepFill(s: Snap, t: Snap, u: Snap, ino: nat, pre: seq<nat>, tbl: nat, k: nat, c: nat)
    requires Inv(s) && TableSlot(s, ino, pre, tbl, k)
    requires Allocated(s, t, c, Owner(ino, pre + [k])) && Inv(t) && EntrySet(t, u, tbl, k, c)
    ensures Inv(u) && EntryStep(s, u, ino, pre, tbl, k, c)
  {
    hide Steady, OthersKept, SlotFilled, Allocated, EntrySet, Geometry, InBlocks, TablesOk, BlankBlock;
    EntryShape(s, t, u, ino, pre, tbl, k, c);
    EntryStepSteady(s, t, u, ino, pre, tbl, k, c);
    FillsOld(s, t, u, ino, pre, tbl, k, c);
    assert Inv(u) by { EntryInv(t, u, ino, pre, tbl, k, c); }
  }

  lemma FillsOld(s: Snap, t: Snap, u: Snap, ino: nat, pre: seq<nat>, tbl: nat, k: nat, c: nat)
    requires Geometry(s.sb, |s.disk|) && InBlocks(s) && TableSlot(s, ino, pre, tbl, k)
    requires Allocated(s, t, c, Owner(ino, pre + [k])) && EntrySet(t, u, tbl, k, c) && c != tbl
    ensures SlotFilled(s.disk, s.owner, u.disk, ino, pre + [k])
  {
    AllocOwned(s, t, c, Owner(ino, pre + [k]));
    forall p: nat, k2 | IsTableBlock(s.owner, p) && p < |s.disk| && 0 <= k2 < PTRS_PER_BLOCK
      ensures TableOf(u.disk[p])[k2] == TableOf(s.disk[p])[k2]
           || FilledEntry(s.disk, s.owner, u.disk, ino, pre + [k], p, k2)
    {
    }
  }

  /**
   * After following `depth` pointers of the path to block idx, `cur` is the block reached;
   * nothing but that path has changed since s0.
   */
  ghost predicate Progress(s0: Snap, s: Snap, ino: nat, node0: Inode, node: Inode, idx: nat, depth: nat, cur: nat)
    requires idx < MAX_BLOCKS
  {
    && 1 <= depth <= |PathOf(idx)|
    && Steady(s0, s)
    && OthersKept(s0, s, ino, PathOf(idx))
    && NodeOk(s0.owner, ino, node0) && NodeOk(s.owner, ino, node)
    && node == node0.(ptrs := node.ptrs)
    && (forall i: nat :: i < MAX_BLOCKS && i != idx ==> Lookup(s.disk, node, i) == Lookup(s0.disk, node0, i))
    && (Lookup(s0.disk, node0, idx) != 0 ==> s == s0 && node == node0)
    && (Lookup(s0.disk, node0, idx) == 0 ==> BlankBlock(s.disk, Lookup(s.disk, node, idx)))
    && Walk(s.disk, node.ptrs[PathOf(idx)[0]], PathOf(idx)[1..depth]) == cur
    && PtrOk(s.owner, cur, ino, PathOf(idx)[..depth])
  }

  /** An inode whose root slot is already set, or is only read. */
  lemma ProgressStart(s: Snap, ino: nat, node: Inode, idx: nat)
    requires TablesOk(s.disk, s.owner) && NodeOk(s.owner, ino, node) && idx < MAX_BLOCKS
    ensures Progress(s, s, ino, node, node, idx, 1, node.ptrs[PathOf(idx)[0]])
  {
    assert PathOf(idx)[..1] == [PathOf(idx)[0]];
    assert PathOf(idx)[1..1] == [];
  }

  /** A root slot filled with a zero block maps nothing but the direct block it stands for. */
  lemma RootLookups(disk: seq<Block>, disk2: seq<Block>, node: Inode, node2: Inode, k: nat, c: nat, i: nat)
    requires |node.ptrs| == ROOT_PTRS && i < MAX_BLOCKS && k < ROOT_PTRS && node.ptrs[k] == 0
    requires node2 == node.(ptrs := node.ptrs[k := c]) && 0 < c < |disk2| && disk2[c].Zero?
    ensures PathOf(i)[0] == k ==>
              Lookup(disk, node, i) == 0 && Lookup(disk2, node2, i) == if |PathOf(i)| == 1 then c else 0
    ensures PathOf(i)[0] != k ==> Lookup(disk2, node2, i) == Lookup(disk2, node, i)
  {
    if |PathOf(i)| == 1 {
      assert PathOf(i)[1..] == [];
    } else if PathOf(i)[0] == k {
      assert PathOf(i)[1..][0] < PTRS_PER_BLOCK;
      assert TableOf(disk2[c])[PathOf(i)[1..][0]] == 0;
      assert Walk(disk2, 0, PathOf(i)[1..][1..]) == 0;
    }
  }

  /** An empty root slot that received a fresh block. */
  lemma ProgressRoot(s: Snap, s2: Snap, ino: nat, node: Inode, node2: Inode, idx: nat, c: nat)
    requires Geometry(s.sb, |s.disk|) && InBlocks(s) && TablesOk(s.disk, s.owner)
    requires NodeOk(s.owner, ino, node) && idx < MAX_BLOCKS && node.ptrs[PathOf(idx)[0]] == 0
    requires Allocated(s, s2, c, Owner(ino, [PathOf(idx)[0]]))
    requires node2 == node.(ptrs := node.ptrs[PathOf(idx)[0] := c])
    ensures Progress(s, s2, ino, node, node2, idx, 1, c)
  {
    hide Steady;
    var k := PathOf(idx)[0];
    AllocSteady(s, s2, c, Owner(ino, [k]), ino, PathOf(idx));
    assert NodeOk(s2.owner, ino, node2) by { NodeOkExtends(s.owner, s2.owner, ino, node); }
    assert PathOf(idx)[..1] == [k];
    assert PathOf(idx)[1..1] == [];
    forall i: nat | i < MAX_BLOCKS && i != idx ensures Lookup(s2.disk, node2, i) == Lookup(s.disk, node, i) {
      PathsAreIndices(i);
      PathsAreIndices(idx);
      RootLookups(s.disk, s2.disk, node, node2, k, c, i);
    }
    RootLookups(s.disk, s2.disk, node, node2, k, c, idx);
  }

  /** The end of the path is the block itself. */
  lemma ProgressEnd(s0: Snap, s: Snap, ino: nat, node0: Inode, node: Inode, idx: nat, cur: nat)
    requires idx < MAX_BLOCKS && Progress(s0, s, ino, node0, node, idx, |PathOf(idx)|, cur)
    ensures Lookup(s.disk, node, idx) == cur
  {
    assert PathOf(idx)[1..|PathOf(idx)|] == PathOf(idx)[1..];
  }

  /** A missing table means the block is missing. */
  lemma ProgressMissing(s0: Snap, s: Snap, ino: nat, node0: Inode, node: Inode, idx: nat, depth: nat)
    requires idx < MAX_BLOCKS && Progress(s0, s, ino, node0, node, idx, depth, 0)
    ensures Lookup(s.disk, node, idx) == 0
  {
    var p := PathOf(idx);
    assert p[1..depth] + p[depth..] == p[1..];
    WalkConcat(s.disk, node.ptrs[p[0]], p[1..depth], p[depth..]);
  }

  lemma ProgressWalk(s: Snap, s2: Snap, ino: nat, node: Inode, path: seq<nat>, depth: nat, tbl: nat, c: nat)
    requires DataPath(path) && 1 <= depth < |path|
    requires TablesOk(s.disk, s.owner) && NodeOk(s.owner, ino, node)
    requires Walk(s.disk, node.ptrs[path[0]], path[1..depth]) == tbl != 0
    requires PtrOk(s.owner, tbl, ino, path[..depth])
    requires EntryStep(s, s2, ino, path[..depth], tbl, path[depth], c)
    ensures Walk(s2.disk, node.ptrs[path[0]], path[1..depth + 1]) == c
  {
    assert [path[0]] + path[1..depth] == path[..depth];
    WalkFrame(s.disk, s.owner, s2.disk, ino, path[..depth] + [path[depth]], ino, node.ptrs[path[0]], [path[0]],
      path[1..depth]);
    assert path[1..depth] + [path[depth]] == path[1..depth + 1];
    WalkConcat(s2.disk, node.ptrs[path[0]], path[1..depth], [path[depth]]);
    assert Walk(s2.disk, tbl, [path[depth]]) == Walk(s2.disk, c, []);
  }

  /** Following one more pointer. */
  lemma ProgressStep(s0: Snap, s: Snap, s2: Snap, ino: nat, node0: Inode, node: Inode, idx: nat, depth: nat, tbl: nat,
                     c: nat)
    requires idx < MAX_BLOCKS && Progress(s0, s, ino, node0, node, idx, depth, tbl) && tbl != 0
    requires depth < |PathOf(idx)| && TablesOk(s.disk, s.owner)
    requires EntryStep(s, s2, ino, PathOf(idx)[..depth], tbl, PathOf(idx)[depth], c)
    ensures Progress(s0, s2, ino, node0, node, idx, depth + 1, c)
  {
    hide PathOf, PathLen, Walk, TablesOk;
    var p := PathOf(idx);
    assert p[..depth] + [p[depth]] == p[..depth + 1];
    ProgressWalk(s, s2, ino, node, p, depth, tbl, c);
    SteadyTrans(s0, s, s2);
    StepKeepsOthers(s, s2, ino, idx, depth);
    OthersKeptTrans(s0, s, s2, ino, p);
    NodeOkExtends(s.owner, s2.owner, ino, node);
    forall i: nat | i < MAX_BLOCKS && i != idx ensures Lookup(s2.disk, node, i) == Lookup(s0.disk, node0, i) {
      PathsAreIndices(i);
      PathsAreIndices(idx);
    }
    if Lookup(s.disk, node, idx) != 0 {
      EntryMapped(s, ino, node, idx, depth, tbl);
    }
    LookupOwner(s.disk, s.owner, ino, node, idx);
  }

  /** On the way to a mapped block no pointer is missing. */
  lemma EntryMapped(s: Snap, ino: nat, node: Inode, idx: nat, depth: nat, tbl: nat)
    requires idx < MAX_BLOCKS && 1 <= depth < |PathOf(idx)| && NodeOk(s.owner, ino, node) && tbl < |s.disk|
    requires Walk(s.disk, node.ptrs[PathOf(idx)[0]], PathOf(idx)[1..depth]) == tbl != 0
             && PathOf(idx)[depth] < PTRS_PER_BLOCK
    requires Lookup(s.disk, node, idx) != 0
    ensures TableOf(s.disk[tbl])[PathOf(idx)[depth]] != 0
  {
    var p := PathOf(idx);
    hide PathOf, PathLen;
    assert p[1..depth] + p[depth..] == p[1..];
    WalkConcat(s.disk, node.ptrs[p[0]], p[1..depth], p[depth..]);
  }

  lemma StepKeepsOthers(s: Snap, s2: Snap, ino: nat, idx: nat, depth: nat)
    requires idx < MAX_BLOCKS && 1 <= depth < |PathOf(idx)|
    requires OthersKept(s, s2, ino, PathOf(idx)[..depth + 1])
    ensures OthersKept(s, s2, ino, PathOf(idx))
  {
    forall ino2: nat, node: Inode, i: nat | NodeOk(s.owner, ino2, node) && i < MAX_BLOCKS
      && (ino2 != ino || PathOf(i) != PathOf(idx))
      ensures Lookup(s2.disk, node, i) == Lookup(s.disk, node, i)
    {
      if PathOf(i) == PathOf(idx)[..depth + 1] {
        assert PathOf(i)[0] == PathOf(idx)[0];
        assert PathOf(idx)[..depth + 1] == PathOf(idx);
      }
    }
  }

  /**
   * inode_resolve_block in one statement: logical block idx of the inode is now at lba, no other
   * logical block of any inode moved, and no data changed.
   */
  ghost predicate Resolved(s0: Snap, s: Snap, ino: nat, node0: Inode, node: Inode, idx: nat, lba: nat) {
    && idx < MAX_BLOCKS
    && Steady(s0, s)
    && OthersKept(s0, s, ino, PathOf(idx))
    && NodeOk(s0.owner, ino, node0) && NodeOk(s.owner, ino, node)
    && node == node0.(ptrs := node.ptrs)
    && (forall i: nat :: i < MAX_BLOCKS && i != idx ==> Lookup(s.disk, node, i) == Lookup(s0.disk, node0, i))
    && Lookup(s.disk, node, idx) == lba
    && (Lookup(s0.disk, node0, idx) != 0 ==> s == s0 && node == node0)
    && (Lookup(s0.disk, node0, idx) == 0 ==> BlankBlock(s.disk, lba))
  }

  /** What an aborted resolution may have done. */
  ghost predicate Abandoned(s0: Snap, s: Snap, ino: nat, idx: nat) {
    Steady(s0, s) && if idx < MAX_BLOCKS then OthersKept(s0, s, ino, PathOf(idx)) else s == s0
  }

  lemma NothingYet(s: Snap, ino: nat, idx: nat)
    ensures Abandoned(s, s, ino, idx)
  {
  }

  lemma GiveUp(s0: Snap, s: Snap, ino: nat, node0: Inode, node: Inode, idx: nat, depth: nat, cur: nat)
    requires idx < MAX_BLOCKS && Progress(s0, s, ino, node0, node, idx, depth, cur)
    ensures Abandoned(s0, s, ino, idx)
  {
  }

  lemma Reached(s0: Snap, s: Snap, ino: nat, node0: Inode, node: Inode, idx: nat, lba: nat)
    requires idx < MAX_BLOCKS && Progress(s0, s, ino, node0, node, idx, |PathOf(idx)|, lba)
    ensures Resolved(s0, s, ino, node0, node, idx, lba)
  {
    hide Steady, OthersKept;
    ProgressEnd(s0, s, ino, node0, node, idx, lba);
  }

  lemma Missing(s0: Snap, s: Snap, ino: nat, node0: Inode, node: Inode, idx: nat, depth: nat)
    requires idx < MAX_BLOCKS && Progress(s0, s, ino, node0, node, idx, depth, 0)
    ensures Resolved(s0, s, ino, node0, node, idx, 0)
  {
    hide Steady, OthersKept;
    ProgressMissing(s0, s, ino, node0, node, idx, depth);
  }

  lemma ResolvedAt(s0: Snap, s: Snap, ino: nat, node0: Inode, node: Inode, idx: nat, lba: nat)
    requires Resolved(s0, s, ino, node0, node, idx, lba)
    ensures idx < MAX_BLOCKS && NodeOk(s.owner, ino, node) && Lookup(s.disk, node, idx) == lba
  {
  }
}
