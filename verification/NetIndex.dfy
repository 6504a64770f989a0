/** What a client sees of a request, and the 16-bit fields of packets. */
module NetTypes {
  import opened Machine

  type Port = Half

  /** What a client sees of a request: its token and tag. */
  datatype Id = Id(token: Word, tag: Word)
}

/** Position indexes over a vector with swap-removal, as the ping and DNS engines keep them. */
module NetIndex {

  /** m sends every non-zero key of the vector to its position, and holds nothing else. */
  ghost predicate Indexes(m: map<nat, nat>, ks: seq<nat>) {
    && (forall i :: 0 <= i < |ks| && ks[i] != 0 ==> ks[i] in m && m[ks[i]] == i)
    && (forall k :: k in m ==> k != 0 && m[k] < |ks| && ks[m[k]] == k)
  }

  /** Vector::erase_unordered: the last element takes the place of the removed one. */
  function SwapRemove<T>(xs: seq<T>, i: nat): (r: seq<T>)
    requires i < |xs|
    ensures |r| == |xs| - 1
    ensures forall j :: 0 <= j < |r| ==> r[j] == if j == i then xs[|xs| - 1] else xs[j]
  {
    xs[i := xs[|xs| - 1]][..|xs| - 1]
  }

  /** The index after the removal: the removed key is gone, the moved one is re-pointed. */
  function Repointed(m: map<nat, nat>, ks: seq<nat>, i: nat): map<nat, nat>
    requires i < |ks|
  {
    var gone := m - {ks[i]};
    if i != |ks| - 1 && ks[|ks| - 1] != 0 then gone[ks[|ks| - 1] := i] else gone
  }

  lemma IndexAfterRemove(m: map<nat, nat>, ks: seq<nat>, i: nat)
    requires Indexes(m, ks) && i < |ks|
    ensures Indexes(Repointed(m, ks, i), SwapRemove(ks, i))
  {
  }

  lemma IndexAfterPush(m: map<nat, nat>, ks: seq<nat>, key: nat)
    requires Indexes(m, ks) && key !in m
    ensures key != 0 ==> Indexes(m[key := |ks|], ks + [key])
    ensures key == 0 ==> Indexes(m, ks + [key])
  {
  }

  /** A put that fails after a push leaves the new key unfindable: the index is sound if and only if it is zero. */
  lemma FailedPushPut(m: map<nat, nat>, ks: seq<nat>, key: nat)
    requires Indexes(m, ks) && key !in m
    ensures Indexes(m, ks + [key]) <==> key == 0
  {
    if key != 0 {
      assert (ks + [key])[|ks|] == key;
    } else {
      IndexAfterPush(m, ks, key);
    }
  }

  /**
   * Without its re-pointing put a swap-removal leaves the moved key at its old position, past the end: the
   * index is sound if and only if no key other than zero moved. The put can fail only when the removed key
   * is zero, for else there is room.
   */
  lemma FailedMovePut(m: map<nat, nat>, ks: seq<nat>, i: nat)
    requires Indexes(m, ks) && i < |ks|
    ensures Indexes(m - {ks[i]}, SwapRemove(ks, i)) <==> i == |ks| - 1 || ks[|ks| - 1] == 0
  {
    var last := |ks| - 1;
    if i < last && ks[last] != 0 {
      assert SwapRemove(ks, i)[i] == ks[last];
      assert m[ks[last]] == last;
    } else {
      IndexAfterRemove(m, ks, i);
    }
  }

  /** Both at an input: 7 pushed onto nothing, and 7 moved to the place of 0. */
  lemma FailedPuts()
    ensures Indexes(map[], []) && !Indexes(map[], [] + [7])
    ensures Indexes(map[7 := 1], [0, 7]) && !Indexes(map[7 := 1] - {[0, 7][0]}, SwapRemove([0, 7], 0))
  {
    FailedPushPut(map[], [], 7);
    FailedMovePut(map[7 := 1], [0, 7], 0);
  }

  /** What two sums have in common can be taken away. */
  lemma TakenAway<T(!new)>(a: multiset<T>, b: multiset<T>, c: multiset<T>)
    requires a + c == b + c
    ensures a == b
  {
    forall x ensures a[x] == b[x] {
      assert (a + c)[x] == (b + c)[x];
    }
  }

  lemma MultisetSwapRemove<T>(xs: seq<T>, i: nat)
    requires i < |xs|
    ensures multiset(xs) == multiset(SwapRemove(xs, i)) + multiset{xs[i]}
  {
    var last := |xs| - 1;
    assert xs == xs[..last] + [xs[last]];
    if i < last {
      assert SwapRemove(xs, i) == xs[..last][i := xs[last]];
    } else {
      assert SwapRemove(xs, i) == xs[..last];
    }
  }

  /** What one visit of a step loop makes of an operation. */
  datatype Visit<T> = Drop | Keep(item: T)

  /** What a full pass leaves behind: each kept element once, as its visit left it. */
  ghost function Kept<T>(xs: seq<T>, f: T -> Visit<T>): multiset<T> {
    if xs == [] then multiset{} else Kept(xs[..|xs| - 1], f) + KeptOne(f(xs[|xs| - 1]))
  }

  ghost function KeptOne<T>(v: Visit<T>): multiset<T> {
    match v
    case Drop => multiset{}
    case Keep(x) => multiset{x}
  }

  lemma {:induction false} KeptFirst<T>(xs: seq<T>, f: T -> Visit<T>)
    requires |xs| > 0
    ensures Kept(xs, f) == KeptOne(f(xs[0])) + Kept(xs[1..], f)
  {
    hide KeptOne;
    if |xs| > 1 {
      var front := xs[..|xs| - 1];
      KeptFirst(front, f);
      assert front[1..] == xs[1..][..|xs| - 2];
    }
  }

  lemma KeptLast<T>(xs: seq<T>, f: T -> Visit<T>)
    requires |xs| > 0
    ensures Kept(xs, f) == Kept(xs[..|xs| - 1], f) + KeptOne(f(xs[|xs| - 1]))
  {
  }

  lemma KeptNone<T>(f: T -> Visit<T>)
    ensures Kept([], f) == multiset{}
  {
  }

  /** Visiting position i in place moves it from the part to come to the part done. */
  lemma KeptAfterKeep<T>(xs: seq<T>, i: nat, f: T -> Visit<T>, x: T)
    requires i < |xs| && f(xs[i]) == Keep(x)
    ensures multiset(xs[i := x][..i + 1]) + Kept(xs[i := x][i + 1..], f) == multiset(xs[..i]) + Kept(xs[i..], f)
  {
    KeptFirst(xs[i..], f);
    assert xs[i..][1..] == xs[i := x][i + 1..];
    assert xs[i := x][..i + 1] == xs[..i] + [x];
  }

  /** Swap-removing position i brings an unvisited element there, which is visited next. */
  lemma KeptAfterDrop<T>(xs: seq<T>, i: nat, f: T -> Visit<T>)
    requires i < |xs| && f(xs[i]).Drop?
    ensures SwapRemove(xs, i)[..i] == xs[..i]
    ensures Kept(SwapRemove(xs, i)[i..], f) == Kept(xs[i..], f)
  {
    hide Kept, KeptOne;
    var rest := xs[i..];
    KeptFirst(rest, f);
    assert KeptOne(f(rest[0])) == multiset{} by { DropKeepsNone(f(rest[0])); }
    if |rest| > 1 {
      var left := SwapRemove(xs, i)[i..];
      KeptFirst(left, f);
      KeptLast(rest[1..], f);
      assert left[1..] == rest[1..][..|rest| - 2];
    } else {
      assert SwapRemove(xs, i)[i..] == rest[1..];
    }
  }

  lemma DropKeepsNone<T>(v: Visit<T>)
    requires v.Drop?
    ensures KeptOne(v) == multiset{}
  {
  }
}

/** Erase and re-point on a hash-map index: why re-pointing never allocates. */
module NetIndexOps {
  import opened Machine
  import opened NetHashMap
  import opened NetIndex

  /** The index after one key goes and another, when there is one, gets the freed position. */
  function Moved(m: map<nat, nat>, removed: nat, moved: nat, i: nat): map<nat, nat> {
    var gone := m - {removed};
    if moved != 0 then gone[moved := i] else gone
  }

  /** The key that changes position when position i is swap-removed; zero if none does. */
  function MovedKey(ks: seq<nat>, i: nat): nat
    requires i < |ks|
  {
    if i != |ks| - 1 then ks[|ks| - 1] else 0
  }

  lemma MovedIsRepointed(m: map<nat, nat>, ks: seq<nat>, i: nat)
    requires Indexes(m, ks) && i < |ks|
    ensures Moved(m, ks[i], MovedKey(ks, i), i) == Repointed(m, ks, i)
    ensures ks[i] != 0 ==> ks[i] in m
  {
  }

  /**
   * What complete_op does to one index. Even with no memory to allocate from, the put
   * succeeds whenever the erase removed something, because the load invariant before the
   * erase already covered it.
   */
  method RemoveAt(h: HashMap<nat>, removed: nat, moved: nat, i: nat, memory: bool) returns (ok: bool)
    requires h.Valid()
    modifies h, h.keys, h.vals
    ensures h.Valid() && ((h.keys == old(h.keys) && h.vals == old(h.vals)) || (fresh(h.keys) && fresh(h.vals)))
    ensures removed in old(h.m) ==> ok && h.keys == old(h.keys) && h.vals == old(h.vals)
    ensures memory || moved == 0 ==> ok
    ensures ok ==> h.m == Moved(old(h.m), removed, moved, i)
  {
    hide TableOk, PowerOfTwo;
    ok := h.Erase(removed);
    if ok {
      assert old(h.m).Keys == h.m.Keys + {removed} && removed !in h.m.Keys;
    }
    ok := true;
    if moved != 0 {
      ok := h.Put(moved, i, memory);
    }
  }
}
