/**
 * The open-addressing table of networkd: linear probing, key 0 for an empty slot,
 * deletion by re-inserting the rest of the cluster. The hash function is arbitrary.
 */
module NetHashMap {
  import opened Machine

  /** Steps from slot a forward to slot b, around the table. */
  function Off(cap: nat, a: nat, b: nat): (d: nat)
    requires a < cap && b < cap
    ensures d < cap
  {
    if a <= b then b - a else b + cap - a
  }

  function Next(cap: nat, i: nat): (n: nat)
    requires i < cap
    ensures n < cap
  {
    if i + 1 == cap then 0 else i + 1
  }

  /** One slot further is one further from a, short of z. */
  lemma OffNext(cap: nat, a: nat, i: nat, z: nat)
    requires a < cap && i < cap && z < cap && i != z && (i == a || Off(cap, a, i) <= Off(cap, a, z))
    ensures Off(cap, a, Next(cap, i)) == Off(cap, a, i) + 1 <= Off(cap, a, z) && Off(cap, a, a) == 0
  {
  }

  /** The slot where the probe for a key starts. */
  function Home(hash: nat -> nat, cap: nat, key: nat): (h: nat)
    requires 0 < cap
    ensures h < cap
  {
    hash(key) % cap
  }

  ghost predicate Distinct(ks: seq<nat>) {
    forall i, j :: 0 <= i < j < |ks| && ks[i] != 0 ==> ks[i] != ks[j]
  }

  /** Slots from the home of the key in slot j up to j are all in use, slot h apart. */
  ghost predicate PathFull(hash: nat -> nat, ks: seq<nat>, j: nat, h: int)
    requires j < |ks|
  {
    forall s :: (0 <= s < |ks| && s != h
                 && Off(|ks|, Home(hash, |ks|, ks[j]), s) < Off(|ks|, Home(hash, |ks|, ks[j]), j)) ==> ks[s] != 0
  }

  /** Every stored key can be reached from its home slot without meeting an empty slot other than h. */
  ghost predicate Reachable(hash: nat -> nat, ks: seq<nat>, h: int) {
    forall j :: 0 <= j < |ks| && ks[j] != 0 ==> PathFull(hash, ks, j, h)
  }

  /** The slots hold exactly the entries of m. */
  ghost predicate Holds<V>(ks: seq<nat>, vs: seq<V>, m: map<nat, V>) {
    && |vs| == |ks|
    && (forall i :: 0 <= i < |ks| && ks[i] != 0 ==> ks[i] in m && m[ks[i]] == vs[i])
    && (forall k :: k in m ==> k != 0 && k in ks)
  }

  /** What find_slot returns: the first slot of the probe that is empty or holds the key. */
  ghost predicate ProbeEnd(hash: nat -> nat, ks: seq<nat>, key: nat, idx: nat) {
    && idx < |ks|
    && (ks[idx] == 0 || ks[idx] == key)
    && forall s :: 0 <= s < |ks| && Off(|ks|, Home(hash, |ks|, key), s) < Off(|ks|, Home(hash, |ks|, key), idx)
         ==> ks[s] != 0 && ks[s] != key
  }

  /** The probe stops at the key when it is stored, and at an empty slot only when it is not. */
  lemma ProbeFinds<V>(hash: nat -> nat, ks: seq<nat>, vs: seq<V>, m: map<nat, V>, key: nat, idx: nat)
    requires Holds(ks, vs, m) && Reachable(hash, ks, -1) && ProbeEnd(hash, ks, key, idx) && key != 0
    ensures ks[idx] == key <==> key in m
    ensures key in m ==> m[key] == vs[idx]
  {
    if key in m {
      var p :| 0 <= p < |ks| && ks[p] == key;
      assert PathFull(hash, ks, p, -1);
    }
  }

  lemma {:induction false} FullTable<V>(ks: seq<nat>, m: map<nat, V>, n: nat)
    requires Distinct(ks) && n <= |ks|
    requires forall i :: 0 <= i < n ==> ks[i] != 0 && ks[i] in m
    ensures n <= |m|
  {
    if n > 0 {
      var m2 := m - {ks[n - 1]};
      assert m2.Keys == m.Keys - {ks[n - 1]};
      FullTable(ks, m2, n - 1);
    }
  }

  /** With fewer entries than slots, some slot is empty. */
  lemma HasEmpty<V>(ks: seq<nat>, vs: seq<V>, m: map<nat, V>)
    requires Holds(ks, vs, m) && Distinct(ks) && |m| < |ks|
    ensures exists z :: 0 <= z < |ks| && ks[z] == 0
  {
    if forall z :: 0 <= z < |ks| ==> ks[z] != 0 {
      FullTable(ks, m, |ks|);
    }
  }

  /** Storing a key where its probe ended keeps every key reachable. */
  lemma InsertedReach(hash: nat -> nat, ks: seq<nat>, key: nat, idx: nat)
    requires Reachable(hash, ks, -1) && key != 0 && ProbeEnd(hash, ks, key, idx)
    ensures Reachable(hash, ks[idx := key], -1)
  {
    hide Home;
    var ks2 := ks[idx := key];
    forall j | 0 <= j < |ks2| && ks2[j] != 0 ensures PathFull(hash, ks2, j, -1) {
      assert j != idx ==> PathFull(hash, ks, j, -1);
    }
  }

  lemma InsertedHolds<V>(hash: nat -> nat, ks: seq<nat>, vs: seq<V>, m: map<nat, V>, key: nat, val: V, idx: nat)
    requires Holds(ks, vs, m) && Distinct(ks) && Reachable(hash, ks, -1)
    requires key != 0 && ProbeEnd(hash, ks, key, idx)
    ensures Holds(ks[idx := key], vs[idx := val], m[key := val]) && Distinct(ks[idx := key])
    ensures ks[idx] == key <==> key in m
  {
    ProbeFinds(hash, ks, vs, m, key, idx);
    hide Home, Off, Reachable;
    var ks2 := ks[idx := key];
    forall k | k in m[key := val] ensures k != 0 && k in ks2 {
      if k != key {
        var i :| 0 <= i < |ks| && ks[i] == k;
        assert ks2[i] == k;
      } else {
        assert ks2[idx] == k;
      }
    }
  }

  // ------------------------------------------------------------------
  // Deletion: the cluster behind the hole is re-inserted
  // ------------------------------------------------------------------

  /** Keys between the hole h and slot i have already been re-inserted. */
  ghost predicate Settled(hash: nat -> nat, ks: seq<nat>, h: nat, i: nat)
    requires h < |ks| && i < |ks|
  {
    forall j :: 0 <= j < |ks| && ks[j] != 0 && 0 < Off(|ks|, h, j) < Off(|ks|, h, i) ==> PathFull(hash, ks, j, -1)
  }

  /** A re-inserted key goes to the hole when its path crosses it, and back to its slot otherwise. */
  lemma Relocated(hash: nat -> nat, ks: seq<nat>, h: nat, i: nat, idx: nat)
    requires h < |ks| && i < |ks| && h != i && ks[h] == 0 && ks[i] != 0
    requires Distinct(ks) && Reachable(hash, ks, h) && ProbeEnd(hash, ks[i := 0], ks[i], idx)
    ensures idx == h || idx == i
    ensures idx == i ==> PathFull(hash, ks, i, -1)
  {
    hide Home;
    assert PathFull(hash, ks, i, h);
    assert ks[i := 0][h] == 0 && ks[i := 0][i] == 0;
  }

  lemma MovedToHole(hash: nat -> nat, ks: seq<nat>, h: nat, i: nat)
    requires h < |ks| && i < |ks| && h != i && ks[h] == 0 && ks[i] != 0
    requires Distinct(ks) && Reachable(hash, ks, h) && ProbeEnd(hash, ks[i := 0], ks[i], h)
    ensures Reachable(hash, ks[i := 0][h := ks[i]], i) && Distinct(ks[i := 0][h := ks[i]])
  {
    hide Home;
    var ks2 := ks[i := 0][h := ks[i]];
    assert PathFull(hash, ks, i, h);
    forall j | 0 <= j < |ks2| && ks2[j] != 0 ensures PathFull(hash, ks2, j, i) {
      assert j != h ==> PathFull(hash, ks, j, h);
    }
  }

  lemma SettledNone(hash: nat -> nat, ks: seq<nat>, h: nat, i: nat)
    requires h < |ks| && i == Next(|ks|, h)
    ensures Settled(hash, ks, h, i)
  {
  }

  lemma SettledMore(hash: nat -> nat, ks: seq<nat>, h: nat, i: nat)
    requires h < |ks| && i < |ks| && Settled(hash, ks, h, i) && PathFull(hash, ks, i, -1) && h != Next(|ks|, i)
    ensures Settled(hash, ks, h, Next(|ks|, i))
  {
    hide Home, PathFull;
  }

  lemma MovedHolds<V>(ks: seq<nat>, vs: seq<V>, m: map<nat, V>, h: nat, i: nat, blank: V)
    requires h < |ks| && i < |ks| && h != i && ks[h] == 0 && ks[i] != 0 && Holds(ks, vs, m)
    ensures Holds(ks[i := 0][h := ks[i]], vs[i := blank][h := vs[i]], m)
  {
    var ks2 := ks[i := 0][h := ks[i]];
    forall k | k in m ensures k in ks2 {
      var j :| 0 <= j < |ks| && ks[j] == k;
      assert ks2[if j == i then h else j] == k;
    }
  }

  /** Emptying a slot leaves a hole that paths may cross. */
  lemma Removed<V>(hash: nat -> nat, ks: seq<nat>, vs: seq<V>, m: map<nat, V>, idx: nat, blank: V)
    requires TableOk(hash, ks, vs, m) && idx < |ks| && ks[idx] != 0
    ensures Holds(ks[idx := 0], vs[idx := blank], m - {ks[idx]}) && Distinct(ks[idx := 0])
    ensures Reachable(hash, ks[idx := 0], idx)
  {
    hide Home;
    var ks2 := ks[idx := 0];
    forall j | 0 <= j < |ks2| && ks2[j] != 0 ensures PathFull(hash, ks2, j, idx) {
      assert PathFull(hash, ks, j, -1);
    }
    forall k | k in m - {ks[idx]} ensures k in ks2 {
      var j :| 0 <= j < |ks| && ks[j] == k;
      assert ks2[j] == k;
    }
  }

  ghost function EmptySlot(ks: seq<nat>): (z: nat)
    requires exists z :: 0 <= z < |ks| && ks[z] == 0
    ensures z < |ks| && ks[z] == 0
  {
    var z :| 0 <= z < |ks| && ks[z] == 0;
    z
  }

  lemma NoSuchKey<V>(ks: seq<nat>, vs: seq<V>, m: map<nat, V>, key: nat)
    requires Holds(ks, vs, m) && (key == 0 || ks == [])
    ensures key !in m
  {
  }

  /** When the next slot is empty, no path crosses the hole any more. */
  lemma ClusterDone(hash: nat -> nat, ks: seq<nat>, h: nat, i: nat)
    requires h < |ks| && i < |ks| && h != i && ks[h] == 0 && ks[i] == 0
    requires Reachable(hash, ks, h) && Settled(hash, ks, h, i)
    ensures Reachable(hash, ks, -1)
  {
    hide Home;
    forall j | 0 <= j < |ks| && ks[j] != 0 ensures PathFull(hash, ks, j, -1) {
      assert PathFull(hash, ks, j, h);
    }
  }

  /** A table of the given shape that holds m. */
  ghost predicate TableOk<V>(hash: nat -> nat, ks: seq<nat>, vs: seq<V>, m: map<nat, V>) {
    Holds(ks, vs, m) && Distinct(ks) && Reachable(hash, ks, -1)
  }

  /** Successive powers of two at least double. */
  lemma {:induction false} NextPower(a: nat, b: nat)
    requires PowerOfTwo(a) && PowerOfTwo(b) && a < b
    ensures 2 * a <= b
  {
    if a > 1 {
      NextPower(a / 2, b / 2);
    }
  }

  /** `moved` is what the first n slots contribute to m. */
  ghost predicate Copied<V>(ks: seq<nat>, vs: seq<V>, m: map<nat, V>, moved: map<nat, V>, n: nat) {
    && n <= |ks| == |vs|
    && (forall i :: 0 <= i < n && ks[i] != 0 ==> ks[i] in moved && moved[ks[i]] == vs[i])
    && (forall k :: k in moved ==> k in ks[..n] && k in m && moved[k] == m[k])
  }

  lemma NoneMoved<V>(hash: nat -> nat, ks: seq<nat>, vs: seq<V>, m: map<nat, V>, nk: seq<nat>, nv: seq<V>)
    requires TableOk(hash, ks, vs, m) && |nk| == |nv| && forall i :: 0 <= i < |nk| ==> nk[i] == 0
    ensures Copied(ks, vs, m, map[], 0) && TableOk(hash, nk, nv, map[])
  {
  }

  lemma HoldsLength<V>(ks: seq<nat>, vs: seq<V>, m: map<nat, V>)
    requires Holds(ks, vs, m)
    ensures |vs| == |ks|
  {
  }

  lemma ProbeInside(hash: nat -> nat, ks: seq<nat>, key: nat, idx: nat)
    requires ProbeEnd(hash, ks, key, idx)
    ensures idx < |ks| && (ks[idx] == 0 || ks[idx] == key)
  {
  }

  /** There is room for what is still to be moved. */
  lemma RoomLeft<V>(ks: seq<nat>, vs: seq<V>, m: map<nat, V>, moved: map<nat, V>, n: nat, nk: seq<nat>, nv: seq<V>)
    requires Copied(ks, vs, m, moved, n) && Holds(nk, nv, moved) && Distinct(nk) && |m| < |nk|
    ensures exists z :: 0 <= z < |nk| && nk[z] == 0
  {
    assert moved.Keys <= m.Keys;
    SubsetSize(moved.Keys, m.Keys);
    HasEmpty(nk, nv, moved);
  }

  lemma CopyNext<V>(ks: seq<nat>, vs: seq<V>, m: map<nat, V>, moved: map<nat, V>, n: nat)
    requires Holds(ks, vs, m) && Distinct(ks) && Copied(ks, vs, m, moved, n) && n < |ks|
    ensures |vs| == |ks|
    ensures ks[n] != 0 ==> Copied(ks, vs, m, moved[ks[n] := vs[n]], n + 1)
    ensures ks[n] == 0 ==> Copied(ks, vs, m, moved, n + 1)
  {
    assert ks[..n + 1] == ks[..n] + [ks[n]];
  }

  lemma SubsetSize(a: set<nat>, b: set<nat>)
    requires a <= b
    ensures |a| <= |b|
  {
    assert b == a + (b - a);
  }

  lemma CopyComplete<V>(ks: seq<nat>, vs: seq<V>, m: map<nat, V>, moved: map<nat, V>)
    requires Holds(ks, vs, m) && Copied(ks, vs, m, moved, |ks|)
    ensures moved == m
  {
    forall k | k in m ensures k in moved {
      var i :| 0 <= i < |ks| && ks[i] == k;
    }
  }

  class HashMap<V> {
    const hash: nat -> nat
    const blank: V
    var keys: array<nat>
    var vals: array<V>
    var size: nat
    ghost var m: map<nat, V>

    /** The load stays below 7/10, so every probe ends; an unused map has no slots at all. */
    ghost predicate Valid()
      reads this, keys, vals
    {
      && keys as object != vals as object
      && TableOk(hash, keys[..], vals[..], m)
      && size == |m|
      && (keys.Length == 0 || PowerOfTwo(keys.Length))
      && (if keys.Length == 0 then size == 0 else size * 10 < keys.Length * 7)
    }

    constructor (hash: nat -> nat, blank: V)
      ensures Valid() && m == map[] && fresh(keys) && fresh(vals)
      ensures this.hash == hash && this.blank == blank && keys.Length == 0
    {
      this.hash := hash;
      this.blank := blank;
      keys := new nat[0];
      vals := new V[0];
      size := 0;
      m := map[];
    }

    /** Probes for the key; None when every slot holds another key. */
    static method FindSlot(hash: nat -> nat, ks: array<nat>, key: nat) returns (found: bool, idx: nat, isNew: bool)
      requires 0 < ks.Length && key != 0
      ensures found ==> ProbeEnd(hash, ks[..], key, idx) && isNew == (ks[idx] == 0)
      ensures !found ==> forall s :: 0 <= s < ks.Length ==> ks[s] != 0 && ks[s] != key
    {
      hide Home;
      var cap := ks.Length;
      var i: nat := Home(hash, cap, key);
      var probes := 0;
      while probes < cap
        invariant 0 <= probes <= cap && i < cap
        invariant probes < cap ==> Off(cap, Home(hash, cap, key), i) == probes
        invariant forall s :: 0 <= s < cap && Off(cap, Home(hash, cap, key), s) < probes ==> ks[s] != 0 && ks[s] != key
      {
        if ks[i] == 0 {
          return true, i, true;
        }
        if ks[i] == key {
          return true, i, false;
        }
        i := Next(cap, i);
        probes := probes + 1;
      }
      return false, 0, false;
    }

    method Get(key: nat) returns (found: bool, val: V)
      requires Valid()
      ensures found <==> key in m
      ensures found ==> val == m[key]
    {
      val := blank;
      if key == 0 || keys.Length == 0 {
        return false, val;
      }
      var hit, idx, isNew := FindSlot(hash, keys, key);
      if !hit {
        assert key !in keys[..];
        return false, val;
      }
      ProbeFinds(hash, keys[..], vals[..], m, key, idx);
      if isNew {
        return false, val;
      }
      return true, vals[idx];
    }

    /** Grows the table to a power of two; the entries move to fresh arrays. */
    method Reserve(minCapacity: nat, memory: bool) returns (ok: bool)
      requires Valid()
      modifies this
      ensures Valid() && m == old(m)
      ensures memory || (0 < old(keys.Length) && minCapacity <= old(keys.Length)) ==> ok
      ensures ok ==> 0 < keys.Length && minCapacity <= keys.Length
      ensures keys.Length >= old(keys.Length)
      ensures (keys == old(keys) && vals == old(vals)) || (fresh(keys) && fresh(vals))
      ensures (0 < old(keys.Length) && minCapacity <= old(keys.Length)) || !ok ==>
                keys == old(keys) && vals == old(vals)
    {
      var need := 1;
      while need < minCapacity
        invariant PowerOfTwo(need) && (need == 1 || need < 2 * minCapacity)
      {
        need := need * 2;
      }
      if need <= keys.Length {
        return true;
      }
      if 0 < keys.Length && minCapacity <= keys.Length {
        NextPower(keys.Length, need);
        assert false;
      }
      if !memory {
        return false;
      }
      keys, vals := Rehash(hash, blank, keys, vals, need, m);
      return true;
    }

    /** Inserts every entry of the old arrays into new ones. */
    static method Rehash(hash: nat -> nat, blank: V, ks: array<nat>, vs: array<V>, need: nat, ghost m: map<nat, V>)
      returns (newKeys: array<nat>, newVals: array<V>)
      requires TableOk(hash, ks[..], vs[..], m) && |m| < need
      ensures fresh(newKeys) && fresh(newVals) && newKeys.Length == need && newKeys as object != newVals as object
      ensures TableOk(hash, newKeys[..], newVals[..], m)
    {
      hide Home, Holds, Distinct, Reachable, ProbeEnd, Copied;
      newKeys := new nat[need](_ => 0);
      newVals := new V[need](_ => blank);
      ghost var moved: map<nat, V> := map[];
      NoneMoved(hash, ks[..], vs[..], m, newKeys[..], newVals[..]);
      var i := 0;
      while i < ks.Length
        invariant 0 <= i <= ks.Length && fresh(newKeys) && fresh(newVals)
        invariant newKeys.Length == newVals.Length == need && newKeys as object != newVals as object
        invariant TableOk(hash, newKeys[..], newVals[..], moved)
        invariant Copied(ks[..], vs[..], m, moved, i)
      {
        RoomLeft(ks[..], vs[..], m, moved, i, newKeys[..], newVals[..]);
        CopyNext(ks[..], vs[..], m, moved, i);
        if ks[i] != 0 {
          var found, idx, isNew := FindSlot(hash, newKeys, ks[i]);
          ProbeInside(hash, newKeys[..], ks[i], idx);
          InsertedReach(hash, newKeys[..], ks[i], idx);
          InsertedHolds(hash, newKeys[..], newVals[..], moved, ks[i], vs[i], idx);
          ghost var nk, nv := newKeys[..], newVals[..];
          newKeys[idx] := ks[i];
          newVals[idx] := vs[i];
          assert newKeys[..] == nk[idx := ks[i]] && newVals[..] == nv[idx := vs[i]];
          moved := moved[ks[i] := vs[i]];
        }
        i := i + 1;
      }
      CopyComplete(ks[..], vs[..], m, moved);
    }

    /** Inserts or overwrites; fails for key 0, or when growth is due and memory runs out. */
    method Put(key: nat, val: V, memory: bool) returns (ok: bool)
      requires Valid()
      modifies this, keys, vals
      ensures Valid() && m == (if ok then old(m)[key := val] else old(m))
      ensures ok ==> key != 0
      ensures key != 0 && (memory || old((size + 1) * 10 < keys.Length * 7)) ==> ok
      ensures (keys == old(keys) && vals == old(vals)) || (fresh(keys) && fresh(vals))
      ensures old((size + 1) * 10 < keys.Length * 7) ==> keys == old(keys) && vals == old(vals)
    {
      hide Home, Holds, Distinct, Reachable, ProbeEnd;
      if key == 0 {
        return false;
      }
      if (size + 1) * 10 >= keys.Length * 7 {
        var next := if keys.Length != 0 then keys.Length * 2 else 16;
        var grown := Reserve(next, memory);
        if !grown {
          return false;
        }
      }
      assert (size + 1) * 10 < keys.Length * 7;
      HasEmpty(keys[..], vals[..], m);
      var found, idx, isNew := FindSlot(hash, keys, key);
      ProbeInside(hash, keys[..], key, idx);
      HoldsLength(keys[..], vals[..], m);
      InsertedReach(hash, keys[..], key, idx);
      InsertedHolds(hash, keys[..], vals[..], m, key, val, idx);
      ghost var ks, vs := keys[..], vals[..];
      if isNew {
        keys[idx] := key;
        vals[idx] := val;
        size := size + 1;
      } else {
        vals[idx] := val;
      }
      assert keys[..] == ks[idx := key] && vals[..] == vs[idx := val];
      m := m[key := val];
      return true;
    }

    /** Empties the slot of the key, then re-inserts the rest of its cluster. */
    method Erase(key: nat) returns (ok: bool)
      requires Valid()
      modifies this`size, this`m, keys, vals
      ensures Valid() && ok == (key in old(m)) && m == old(m) - {key}
    {
      hide Home, Holds, Distinct, Reachable, ProbeEnd;
      if key == 0 || keys.Length == 0 {
        NoSuchKey(keys[..], vals[..], m, key);
        return false;
      }
      HasEmpty(keys[..], vals[..], m);
      var found, idx, isNew := FindSlot(hash, keys, key);
      ProbeFinds(hash, keys[..], vals[..], m, key, idx);
      ProbeInside(hash, keys[..], key, idx);
      HoldsLength(keys[..], vals[..], m);
      if isNew {
        return false;
      }
      ghost var ks, vs, z := keys[..], vals[..], EmptySlot(keys[..]);
      keys[idx] := 0;
      vals[idx] := blank;
      size := size - 1;
      assert keys[..] == ks[idx := 0] && vals[..] == vs[idx := blank];
      Removed(hash, ks, vs, m, idx, blank);
      m := m - {key};
      ShiftCluster(idx, z);
      return true;
    }

    /** The repair loop of erase: `hole` is the slot just emptied, z another empty slot. */
    method ShiftCluster(hole: nat, ghost z: nat)
      requires hole < keys.Length && z < keys.Length && z != hole && keys[hole] == 0 && keys[z] == 0
      requires keys as object != vals as object
      requires Holds(keys[..], vals[..], m) && Distinct(keys[..]) && Reachable(hash, keys[..], hole)
      modifies keys, vals
      ensures TableOk(hash, keys[..], vals[..], m)
    {
      hide Home, Holds, Distinct, Reachable, ProbeEnd, Settled, Off, Next;
      var cap := keys.Length;
      var i: nat := Next(cap, hole);
      ghost var h: nat := hole;
      OffNext(cap, hole, hole, z);
      HoldsLength(keys[..], vals[..], m);
      SettledNone(hash, keys[..], h, i);
      while keys[i] != 0
        invariant i < cap && h < cap && keys[h] == 0 && keys[z] == 0
        invariant 0 < Off(cap, hole, i) <= Off(cap, hole, z) && Off(cap, hole, h) < Off(cap, hole, i)
        invariant Holds(keys[..], vals[..], m) && Distinct(keys[..]) && Reachable(hash, keys[..], h)
        invariant Settled(hash, keys[..], h, i)
        decreases Off(cap, hole, z) - Off(cap, hole, i)
      {
        OffNext(cap, hole, i, z);
        ghost var ks, vs := keys[..], vals[..];
        var key, val := keys[i], vals[i];
        keys[i] := 0;
        vals[i] := blank;
        assert keys[..] == ks[i := 0];
        var found, idx, isNew := FindSlot(hash, keys, key);
        assert found;
        Relocated(hash, ks, h, i, idx);
        keys[idx] := key;
        vals[idx] := val;
        if idx == i {
          assert keys[..] == ks && vals[..] == vs;
          SettledMore(hash, ks, h, i);
        } else {
          assert keys[..] == ks[i := 0][h := key] && vals[..] == vs[i := blank][h := val];
          MovedToHole(hash, ks, h, i);
          MovedHolds(ks, vs, m, h, i, blank);
          h := i;
          SettledNone(hash, keys[..], h, Next(cap, i));
        }
        i := Next(cap, i);
      }
      ClusterDone(hash, keys[..], h, i);
    }
  }
}
