/** The launcher's application list: iterative quicksort with a bounded stack, then removal of duplicates. */
module LauncherSort {
  import opened Machine

  /** An entry: the name it is sorted by, as bytes, and the rest of the record. */
  datatype App = App(base: seq<nat>, info: nat)

  const STACK_SIZE := 64

  /** strcmp(a, b) < 0 on strings without a zero byte. */
  predicate Below(a: seq<nat>, b: seq<nat>) {
    if b == [] then false
    else if a == [] then true
    else a[0] < b[0] || (a[0] == b[0] && Below(a[1..], b[1..]))
  }

  lemma {:induction false} BelowTrichotomy(a: seq<nat>, b: seq<nat>)
    ensures !(Below(a, b) && Below(b, a))
    ensures Below(a, b) || Below(b, a) || a == b
    ensures a == b ==> !Below(a, b)
  {
    if a != [] && b != [] && a[0] == b[0] {
      BelowTrichotomy(a[1..], b[1..]);
      assert a == [a[0]] + a[1..] && b == [b[0]] + b[1..];
    }
  }

  lemma {:induction false} BelowTransitive(a: seq<nat>, b: seq<nat>, c: seq<nat>)
    requires !Below(b, a) && !Below(c, b)
    ensures !Below(c, a)
  {
    if a != [] && b != [] && c != [] && a[0] == b[0] == c[0] {
      BelowTransitive(a[1..], b[1..], c[1..]);
    }
  }

  /** x may stand before y. */
  predicate Leq(x: App, y: App) {
    !Below(y.base, x.base)
  }

  lemma LeqTotal(x: App, y: App)
    ensures Leq(x, y) || Leq(y, x)
    ensures Leq(x, y) && Leq(y, x) <==> x.base == y.base
  {
    BelowTrichotomy(x.base, y.base);
  }

  lemma LeqTrans(x: App, y: App, z: App)
    requires Leq(x, y) && Leq(y, z)
    ensures Leq(x, z)
  {
    BelowTransitive(x.base, y.base, z.base);
  }

  // ---- what the stack of intervals stands for

  /** An interval of positions, both ends included. */
  datatype Span = Span(lo: int, hi: int)

  predicate In(p: int, s: Span) {
    s.lo <= p <= s.hi
  }

  ghost predicate Disjoint(spans: seq<Span>) {
    forall i, j, p :: 0 <= i < j < |spans| && In(p, spans[i]) ==> !In(p, spans[j])
  }

  /** Every pair out of order lies inside one pending interval. */
  ghost predicate OrderedOutside(a: seq<App>, spans: seq<Span>) {
    forall p, q :: 0 <= p < q < |a| && !Leq(a[p], a[q]) ==> Together(p, q, spans)
  }

  ghost predicate Together(p: int, q: int, spans: seq<Span>) {
    exists k :: 0 <= k < |spans| && In(p, spans[k]) && In(q, spans[k])
  }

  ghost predicate Sorted(a: seq<App>) {
    forall p, q :: 0 <= p < q < |a| ==> Leq(a[p], a[q])
  }

  /** The two parts of a partitioned interval; what lies between them equals the pivot. */
  ghost predicate Split(a: seq<App>, lo: int, hi: int, i: int, j: int, pivot: App) {
    && 0 <= lo < i && j < hi < |a| && lo - 1 <= j < i <= hi + 1
    && (forall k :: lo <= k < i ==> Leq(a[k], pivot))
    && (forall k :: j < k <= hi ==> Leq(pivot, a[k]))
  }

  /** Only positions in the interval changed, and each holds something that was in the interval. */
  ghost predicate Permuted(a: seq<App>, b: seq<App>, lo: int, hi: int) {
    && |a| == |b| && 0 <= lo <= hi + 1 <= |a|
    && (forall p :: 0 <= p < |a| && !(lo <= p <= hi) ==> b[p] == a[p])
    && (forall p :: lo <= p <= hi ==> b[p] in a[lo..hi + 1])
  }

  /** The first step of every proof about a pass: what is not in the interval keeps its order with it. */
  lemma StillOrdered(a: seq<App>, b: seq<App>, spans: seq<Span>, cur: Span, p: int, q: int)
    requires OrderedOutside(a, spans + [cur]) && Disjoint(spans + [cur]) && Permuted(a, b, cur.lo, cur.hi)
    requires 0 <= p < q < |b| && !(In(p, cur) && In(q, cur)) && !Leq(b[p], b[q])
    ensures Together(p, q, spans)
  {
    hide Leq, Together, Disjoint;
    var all := spans + [cur];
    var p2, q2 := p, q;
    if In(p, cur) {
      p2 :| cur.lo <= p2 <= cur.hi && a[p2] == b[p];
    }
    if In(q, cur) {
      q2 :| cur.lo <= q2 <= cur.hi && a[q2] == b[q];
    }
    assert p2 < q2 && !Leq(a[p2], a[q2]) && Together(p2, q2, all);
    hide OrderedOutside, Permuted;
    TogetherElsewhere(spans, cur, p2, q2);
  }

  /** Two positions in one interval are both inside the last one, or in another one and outside it. */
  lemma TogetherElsewhere(spans: seq<Span>, cur: Span, p: int, q: int)
    requires Together(p, q, spans + [cur]) && Disjoint(spans + [cur]) && !(In(p, cur) && In(q, cur))
    ensures Together(p, q, spans) && !In(p, cur) && !In(q, cur)
  {
    var all := spans + [cur];
    var k :| 0 <= k < |all| && In(p, all[k]) && In(q, all[k]);
    assert all[|spans|] == cur;
    assert k < |spans| && all[k] == spans[k];
  }

  /** After a partition the interval is replaced by its two parts. */
  lemma PartitionOrdered(a: seq<App>, b: seq<App>, spans: seq<Span>, cur: Span, i: int, j: int, pivot: App)
    requires OrderedOutside(a, spans + [cur]) && Disjoint(spans + [cur]) && Permuted(a, b, cur.lo, cur.hi)
    requires Split(b, cur.lo, cur.hi, i, j, pivot)
    ensures OrderedOutside(b, spans + [Span(cur.lo, j), Span(i, cur.hi)])
    ensures OrderedOutside(b, spans + [Span(i, cur.hi), Span(cur.lo, j)])
    ensures Disjoint(spans + [Span(cur.lo, j), Span(i, cur.hi)]) && Disjoint(spans + [Span(i, cur.hi), Span(cur.lo, j)])
  {
    var all, l, r := spans + [cur], Span(cur.lo, j), Span(i, cur.hi);
    assert forall k :: 0 <= k < |spans| ==> all[k] == spans[k];
    assert all[|spans|] == cur;
    forall p, q | 0 <= p < q < |b| && !Leq(b[p], b[q])
      ensures Together(p, q, spans + [l, r]) && Together(p, q, spans + [r, l])
    {
      if In(p, cur) && In(q, cur) {
        if p < i && q > j {
          LeqTrans(b[p], pivot, b[q]);
          assert false;
        }
        assert (spans + [l, r])[|spans|] == l && (spans + [l, r])[|spans| + 1] == r;
        assert (spans + [r, l])[|spans|] == r && (spans + [r, l])[|spans| + 1] == l;
      } else {
        StillOrdered(a, b, spans, cur, p, q);
        var k :| 0 <= k < |spans| && In(p, spans[k]) && In(q, spans[k]);
        assert (spans + [l, r])[k] == spans[k] && (spans + [r, l])[k] == spans[k];
      }
    }
    assert forall p :: In(p, l) || In(p, r) ==> In(p, cur);
  }

  lemma SwapPermuted(a: seq<App>, b: seq<App>, lo: int, hi: int, x: int, y: int)
    requires Permuted(a, b, lo, hi) && lo <= x <= hi && lo <= y <= hi
    ensures Permuted(a, b[x := b[y]][y := b[x]], lo, hi)
    ensures multiset(b[x := b[y]][y := b[x]]) == multiset(b)
  {
  }

  method Swap(a: array<App>, x: nat, y: nat)
    requires x < a.Length && y < a.Length
    modifies a
    ensures a[..] == old(a[..])[x := old(a[y])][y := old(a[x])]
  {
    if x != y {
      a[x], a[y] := a[y], a[x];
    }
  }

  /** Halfway through a partition: left of i nothing is above the pivot, right of j nothing below it. */
  ghost predicate Parting(a: seq<App>, lo: int, hi: int, i: int, j: int, p: App) {
    && 0 <= lo <= i <= hi + 1 && lo - 1 <= j <= hi < |a|
    && (forall k :: lo <= k < i ==> Leq(a[k], p))
    && (forall k :: j < k <= hi ==> Leq(p, a[k]))
  }

  lemma PartingSwap(a: seq<App>, lo: int, hi: int, i: int, j: int, p: App)
    requires Parting(a, lo, hi, i, j, p) && i <= j && Leq(p, a[i]) && Leq(a[j], p)
    ensures Parting(a[i := a[j]][j := a[i]], lo, hi, i + 1, j - 1, p)
  {
  }

  /** The first position from i on whose element is not below the pivot; one is known to be ahead. */
  method ScanUp(a: array<App>, lo: int, hi: int, i: int, j: int, p: App, ghost stop: int) returns (r: int)
    requires Parting(a[..], lo, hi, i, j, p) && i <= stop <= hi && Leq(p, a[stop])
    ensures i <= r <= stop && Leq(p, a[r]) && Parting(a[..], lo, hi, r, j, p)
  {
    hide Below;
    r := i;
    while Below(a[r].base, p.base)
      invariant i <= r <= stop && Parting(a[..], lo, hi, r, j, p)
      decreases stop - r
    {
      LeqTotal(a[r], p);
      r := r + 1;
    }
  }

  method ScanDown(a: array<App>, lo: int, hi: int, i: int, j: int, p: App, ghost stop: int) returns (r: int)
    requires Parting(a[..], lo, hi, i, j, p) && lo <= stop <= j && Leq(a[stop], p)
    ensures stop <= r <= j && Leq(a[r], p) && Parting(a[..], lo, hi, i, r, p)
  {
    hide Below;
    r := j;
    while Below(p.base, a[r].base)
      invariant stop <= r <= j && Parting(a[..], lo, hi, i, r, p)
      decreases r
    {
      LeqTotal(a[r], p);
      r := r - 1;
    }
  }

  /**
   * Hoare's partition around the middle element. The inner scans have no bounds test: an element
   * that stops each of them is always ahead.
   */
  method Partition(a: array<App>, lo: int, hi: int) returns (i: int, j: int, ghost pivot: App)
    requires 0 <= lo < hi < a.Length
    modifies a
    ensures Split(a[..], lo, hi, i, j, pivot) && Permuted(old(a[..]), a[..], lo, hi)
            && multiset(a[..]) == multiset(old(a[..]))
  {
    hide Leq, Permuted;
    i, j := lo, hi;
    var mid := lo + (hi - lo) / 2;
    var p := a[mid];
    pivot := p;
    LeqTotal(p, p);
    PermutedSelf(a[..], lo, hi);
    ghost var up, down := mid, mid;
    while i <= j
      invariant Parting(a[..], lo, hi, i, j, p)
      invariant i <= j ==> i <= up <= hi && Leq(p, a[..][up]) && lo <= down <= j && Leq(a[..][down], p)
      invariant (i == lo && j == hi && up == down == mid) || (lo < i && j < hi)
      invariant Permuted(old(a[..]), a[..], lo, hi) && multiset(a[..]) == multiset(old(a[..]))
      decreases j - i + 1
    {
      i := ScanUp(a, lo, hi, i, j, p, up);
      j := ScanDown(a, lo, hi, i, j, p, down);
      if i <= j {
        up, down := j, i;
        i, j := Exchange(a, old(a[..]), lo, hi, i, j, p);
      }
    }
  }

  method Exchange(a: array<App>, ghost was: seq<App>, lo: int, hi: int, i: int, j: int, p: App)
                  returns (i2: int, j2: int)
    requires Parting(a[..], lo, hi, i, j, p) && i <= j && Leq(p, a[i]) && Leq(a[j], p) && Permuted(was, a[..], lo, hi)
    modifies a
    ensures i2 == i + 1 && j2 == j - 1 && Parting(a[..], lo, hi, i2, j2, p)
    ensures Leq(a[..][i], p) && Leq(p, a[..][j]) && Permuted(was, a[..], lo, hi)
            && multiset(a[..]) == multiset(old(a[..]))
  {
    hide Leq, Permuted;
    SwapPermuted(was, a[..], lo, hi, i, j);
    PartingSwap(a[..], lo, hi, i, j, p);
    Swap(a, i, j);
    return i + 1, j - 1;
  }

  lemma PermutedSelf(a: seq<App>, lo: int, hi: int)
    requires 0 <= lo <= hi + 1 <= |a|
    ensures Permuted(a, a, lo, hi)
  {
    assert forall p :: lo <= p <= hi ==> a[p] == a[lo..hi + 1][p - lo];
  }

  // ---- the explicit stack

  function Len(s: Span): nat {
    if s.hi < s.lo then 0 else s.hi - s.lo + 1
  }

  /** The interval at depth k is at most n / 2^k long: the longer part is pushed, the shorter one goes on. */
  ghost predicate Halving(spans: seq<Span>, n: nat) {
    forall k :: 0 <= k < |spans| ==> Len(spans[k]) * Pow2(k) <= n
  }

  /** An interval worth pushing is never 31 deep, so the stack of 64 never refuses one. */
  lemma NeverFull(spans: seq<Span>, n: nat)
    requires Halving(spans, n) && n < 0x8000_0000 && |spans| > 0 && Len(spans[|spans| - 1]) >= 2
    ensures |spans| - 1 < STACK_SIZE
  {
    var d := |spans| - 1;
    assert Len(spans[d]) * Pow2(d) <= n;
    hide Halving, Len;
    if d >= 31 {
      Pow2Grows(31, d);
      TopBit();
      hide Pow2;
      Product(Len(spans[d]), Pow2(d));
    }
  }

  lemma TopBit()
    ensures Pow2(31) == 0x8000_0000
  {
    assert Pow2(8) == 256;
    assert Pow2(16) == 65536;
    assert Pow2(24) == 0x100_0000;
  }

  lemma Product(x: nat, y: nat)
    requires x >= 2
    ensures x * y >= y
  {
  }

  /** Replacing the top interval by its longer part with the shorter one above it keeps the bound. */
  lemma HalvingPush(spans: seq<Span>, cur: Span, longer: Span, shorter: Span, n: nat)
    requires Halving(spans + [cur], n) && Len(longer) + Len(shorter) <= Len(cur) && Len(shorter) <= Len(longer)
    ensures Halving(spans + [longer, shorter], n) && Halving(spans + [shorter], n)
  {
    hide Pow2, Len;
    var d := |spans|;
    assert (spans + [cur])[d] == cur && forall k :: 0 <= k < d ==> (spans + [cur])[k] == spans[k];
    Smaller(Len(longer), Len(cur), Pow2(d), n);
    Smaller(2 * Len(shorter), Len(cur), Pow2(d), n);
    Doubled(Len(shorter), d);
    Smaller(Len(shorter), Len(cur), Pow2(d), n);
  }

  lemma Doubled(x: nat, d: nat)
    ensures x * Pow2(d + 1) == 2 * x * Pow2(d)
  {
    assert Pow2(d + 1) == 2 * Pow2(d);
  }

  lemma Smaller(x: nat, y: nat, m: nat, n: nat)
    requires x <= y && y * m <= n
    ensures x * m <= n
  {
    assert x * m <= y * m;
  }

  /** An interval of one element or none holds no pair. */
  lemma DropTrivial(a: seq<App>, spans: seq<Span>, cur: Span, n: nat)
    requires OrderedOutside(a, spans + [cur]) && Disjoint(spans + [cur]) && Halving(spans + [cur], n)
             && cur.lo >= cur.hi
    ensures OrderedOutside(a, spans) && Disjoint(spans) && Halving(spans, n)
  {
    var all := spans + [cur];
    assert forall k :: 0 <= k < |spans| ==> all[k] == spans[k];
    assert all[|spans|] == cur;
    forall p, q | 0 <= p < q < |a| && !Leq(a[p], a[q]) ensures Together(p, q, spans) {
      var k :| 0 <= k < |all| && In(p, all[k]) && In(q, all[k]);
      assert k < |spans|;
      assert In(p, spans[k]);
    }
  }

  /** What is left to do: an interval of k elements takes at most 2k - 1 steps. */
  function Weight(s: Span): nat {
    if Len(s) == 0 then 0 else 2 * Len(s) - 1
  }

  function Work(spans: seq<Span>): nat {
    if spans == [] then 0 else Work(spans[..|spans| - 1]) + Weight(spans[|spans| - 1])
  }

  lemma WorkPush(spans: seq<Span>, s: Span)
    ensures Work(spans + [s]) == Work(spans) + Weight(s)
  {
    assert (spans + [s])[..|spans|] == spans;
  }

  /** The loop state: the stacked intervals and the one in hand are all that is out of order. */
  ghost predicate Pending(a: seq<App>, spans: seq<Span>, cur: Span) {
    && OrderedOutside(a, spans + [cur]) && Disjoint(spans + [cur]) && Halving(spans + [cur], |a|)
    && (forall k :: 0 <= k < |spans| ==> 0 <= spans[k].lo < spans[k].hi < |a|)
    && 0 <= cur.lo && cur.hi < |a|
  }

  /** One partition: the longer part is stacked if it has two elements, the shorter one is taken next. */
  lemma Advance(a: seq<App>, b: seq<App>, spans: seq<Span>, cur: Span, longer: Span, shorter: Span, i: int, j: int,
                pivot: App)
    requires Pending(a, spans, cur) && Permuted(a, b, cur.lo, cur.hi) && Split(b, cur.lo, cur.hi, i, j, pivot)
    requires || (longer == Span(cur.lo, j) && shorter == Span(i, cur.hi))
             || (longer == Span(i, cur.hi) && shorter == Span(cur.lo, j))
    requires Len(shorter) <= Len(longer)
    ensures longer.lo < longer.hi ==> Pending(b, spans + [longer], shorter)
    ensures longer.lo >= longer.hi ==> Pending(b, spans, shorter)
    ensures Work(spans + [longer]) + Weight(shorter) < Work(spans) + Weight(cur)
    ensures Work(spans) + Weight(shorter) < Work(spans) + Weight(cur)
  {
    hide OrderedOutside, Disjoint, Halving, Permuted, Work;
    PartitionOrdered(a, b, spans, cur, i, j, pivot);
    HalvingPush(spans, cur, longer, shorter, |a|);
    WorkPush(spans, longer);
    assert spans + [longer] + [shorter] == spans + [longer, shorter];
    assert spans + [shorter] + [longer] == spans + [shorter, longer];
    assert |b| == |a| by { SameLength(a, b, cur.lo, cur.hi); }
    if longer.lo >= longer.hi {
      DropSecond(b, spans, shorter, longer);
    }
  }

  lemma SameLength(a: seq<App>, b: seq<App>, lo: int, hi: int)
    requires Permuted(a, b, lo, hi)
    ensures |a| == |b|
  {
  }

  lemma DropSecond(a: seq<App>, spans: seq<Span>, kept: Span, cur: Span)
    requires OrderedOutside(a, spans + [kept] + [cur]) && Disjoint(spans + [kept] + [cur]) && cur.lo >= cur.hi
    ensures OrderedOutside(a, spans + [kept]) && Disjoint(spans + [kept])
  {
    var left, all := spans + [kept], spans + [kept] + [cur];
    assert forall k :: 0 <= k < |left| ==> all[k] == left[k];
    assert all[|left|] == cur;
    forall p, q | 0 <= p < q < |a| && !Leq(a[p], a[q]) ensures Together(p, q, left) {
      var k :| 0 <= k < |all| && In(p, all[k]) && In(q, all[k]);
      assert k < |left|;
      assert In(p, left[k]);
    }
  }

  method Step(a: array<App>, n: nat, stack: array<Span>, sp: nat, cur: Span) returns (sp2: nat, next: Span)
    requires n <= a.Length && n < 0x8000_0000 && sp <= stack.Length == STACK_SIZE
    requires Pending(a[..n], stack[..sp], cur) && cur.lo < cur.hi
    modifies a, stack
    ensures sp2 <= STACK_SIZE && Pending(a[..n], stack[..sp2], next)
    ensures Work(stack[..sp2]) + Weight(next) < Work(old(stack[..sp])) + Weight(cur)
    ensures multiset(a[..n]) == multiset(old(a[..n])) && a[n..] == old(a[n..])
  {
    hide Pending, Permuted, Split, Work;
    ghost var before := a[..];
    CurBounds(a[..n], stack[..sp], cur);
    var i, j, pivot := Partition(a, cur.lo, cur.hi);
    InPrefix(before, a[..], n, cur.lo, cur.hi, i, j, pivot);
    PartLengths(a[..n], cur.lo, cur.hi, i, j, pivot);
    var left, right := Span(cur.lo, j), Span(i, cur.hi);
    sp2 := sp;
    var push;
    if left.hi - left.lo > right.hi - right.lo {
      push, next := left, right;
    } else {
      push, next := right, left;
    }
    Advance(before[..n], a[..n], stack[..sp], cur, push, next, i, j, pivot);
    if push.lo < push.hi {
      PushFits(a[..n], stack[..sp], push, next);
      if sp < stack.Length {
        stack[sp2] := push;
        sp2 := sp2 + 1;
        assert stack[..sp2] == old(stack[..sp]) + [push];
      }
    }
  }

  lemma CurBounds(a: seq<App>, spans: seq<Span>, cur: Span)
    requires Pending(a, spans, cur)
    ensures 0 <= cur.lo && cur.hi < |a|
  {
  }

  lemma PartLengths(a: seq<App>, lo: int, hi: int, i: int, j: int, pivot: App)
    requires Split(a, lo, hi, i, j, pivot)
    ensures lo - 1 <= j < i <= hi + 1
  {
  }

  /** What happened inside an interval of the prefix happened to the prefix. */
  lemma InPrefix(a: seq<App>, b: seq<App>, n: nat, lo: int, hi: int, i: int, j: int, pivot: App)
    requires Permuted(a, b, lo, hi) && Split(b, lo, hi, i, j, pivot) && hi < n <= |a| && multiset(a) == multiset(b)
    ensures Permuted(a[..n], b[..n], lo, hi) && Split(b[..n], lo, hi, i, j, pivot)
    ensures a[n..] == b[n..] && multiset(a[..n]) == multiset(b[..n])
  {
    assert a[..n][lo..hi + 1] == a[lo..hi + 1];
    assert a[n..] == b[n..];
    assert a == a[..n] + a[n..] && b == b[..n] + b[n..];
    Cancel(multiset(a[..n]), multiset(b[..n]), multiset(a[n..]));
  }

  lemma Cancel(x: multiset<App>, y: multiset<App>, z: multiset<App>)
    requires x + z == y + z
    ensures x == y
  {
    forall e: App ensures x[e] == y[e] {
      assert (x + z)[e] == x[e] + z[e] && (y + z)[e] == y[e] + z[e];
    }
  }

  lemma PushFits(a: seq<App>, spans: seq<Span>, push: Span, next: Span)
    requires Pending(a, spans + [push], next) && push.lo < push.hi && |a| < 0x8000_0000
    ensures |spans| < STACK_SIZE
  {
    var all := spans + [push];
    assert forall k :: 0 <= k < |all| ==> (all + [next])[k] == all[k];
    NeverFull(all, |a|);
  }

  /** Sorts one interval down to nothing, stacking what is left for later. */
  method SortSpan(a: array<App>, n: nat, stack: array<Span>, sp: nat, top: Span) returns (sp2: nat)
    requires n <= a.Length && n < 0x8000_0000 && sp <= stack.Length == STACK_SIZE
    requires Pending(a[..n], stack[..sp], top) && top.lo < top.hi
    modifies a, stack
    ensures sp2 <= STACK_SIZE && Stacked(a[..n], stack[..sp2])
    ensures Work(stack[..sp2]) < Work(old(stack[..sp])) + Weight(top)
    ensures multiset(a[..n]) == multiset(old(a[..n])) && a[n..] == old(a[n..])
  {
    hide Pending, Stacked, Work;
    ghost var work := Work(stack[..sp]) + Weight(top);
    var cur := top;
    sp2 := sp;
    while cur.lo < cur.hi
      invariant sp2 <= STACK_SIZE && Pending(a[..n], stack[..sp2], cur)
      invariant multiset(a[..n]) == multiset(old(a[..n])) && a[n..] == old(a[n..])
      invariant Work(stack[..sp2]) + Weight(cur) <= work && (cur.lo < cur.hi || Work(stack[..sp2]) + Weight(cur) < work)
      decreases Work(stack[..sp2]) + Weight(cur)
    {
      sp2, cur := Step(a, n, stack, sp2, cur);
    }
    StackDone(a[..n], stack[..sp2], cur);
  }

  /** The explicit-stack quicksort: the first n entries end up in order, none lost and none added. */
  method Sort(a: array<App>, n: nat)
    requires n <= a.Length && n < 0x8000_0000
    modifies a
    ensures Sorted(a[..n]) && multiset(a[..n]) == multiset(old(a[..n])) && a[n..] == old(a[n..])
  {
    hide Pending, Stacked, Work;
    if n <= 1 {
      return;
    }
    hide Sorted, Weight;
    var stack := new Span[STACK_SIZE](_ => Span(0, 0));
    stack[0] := Span(0, n - 1);
    var sp: nat := 1;
    assert stack[..1] == [Span(0, n - 1)];
    StackStart(a[..n]);
    while sp > 0
      invariant sp <= STACK_SIZE && stack.Length == STACK_SIZE
      invariant multiset(a[..n]) == multiset(old(a[..n])) && a[n..] == old(a[n..])
      invariant Stacked(a[..n], stack[..sp])
      decreases Work(stack[..sp])
    {
      sp := sp - 1;
      StackPop(a[..n], stack[..sp + 1]);
      assert stack[..sp + 1][..sp] == stack[..sp];
      sp := SortSpan(a, n, stack, sp, stack[sp]);
    }
    assert stack[..0] == [];
    SortedNow(a[..n]);
  }

  /** The state between intervals. */
  ghost predicate Stacked(a: seq<App>, spans: seq<Span>) {
    && OrderedOutside(a, spans) && Disjoint(spans) && Halving(spans, |a|)
    && forall k :: 0 <= k < |spans| ==> 0 <= spans[k].lo < spans[k].hi < |a|
  }

  lemma StackStart(a: seq<App>)
    requires |a| >= 2
    ensures Stacked(a, [Span(0, |a| - 1)])
  {
    var spans := [Span(0, |a| - 1)];
    forall p, q | 0 <= p < q < |a| && !Leq(a[p], a[q]) ensures Together(p, q, spans) {
      assert In(p, spans[0]) && In(q, spans[0]);
    }
  }

  lemma StackPop(a: seq<App>, spans: seq<Span>)
    requires Stacked(a, spans) && |spans| > 0
    ensures Pending(a, spans[..|spans| - 1], spans[|spans| - 1])
    ensures Work(spans) == Work(spans[..|spans| - 1]) + Weight(spans[|spans| - 1])
    ensures spans[|spans| - 1].lo < spans[|spans| - 1].hi
  {
    hide OrderedOutside, Disjoint, Halving, Weight;
    assert spans[..|spans| - 1] + [spans[|spans| - 1]] == spans;
  }

  lemma StackDone(a: seq<App>, spans: seq<Span>, cur: Span)
    requires Pending(a, spans, cur) && cur.lo >= cur.hi
    ensures Stacked(a, spans)
  {
    DropTrivial(a, spans, cur, |a|);
  }

  lemma SortedNow(a: seq<App>)
    requires Stacked(a, [])
    ensures Sorted(a)
  {
    forall p, q | 0 <= p < q < |a| ensures Leq(a[p], a[q]) {
      assert !Together(p, q, []);
    }
  }

  ghost function Names(a: seq<App>): set<seq<nat>> {
    set k | 0 <= k < |a| :: a[k].base
  }

  ghost predicate Increasing(a: seq<App>) {
    forall p, q :: 0 <= p < q < |a| ==> Below(a[p].base, a[q].base)
  }

  lemma {:induction false} BelowChain(a: seq<nat>, b: seq<nat>, c: seq<nat>)
    requires Below(a, b) && Below(b, c)
    ensures Below(a, c)
  {
    if a != [] && a[0] == b[0] == c[0] {
      BelowChain(a[1..], b[1..], c[1..]);
    }
  }

  lemma NamesPush(a: seq<App>, x: App)
    ensures Names(a + [x]) == Names(a) + {x.base}
  {
    var b := a + [x];
    assert b[|a|] == x && forall k :: 0 <= k < |a| ==> b[k] == a[k];
    assert Names(b) <= Names(a) + {x.base};
    forall y | y in Names(a) ensures y in Names(b) {
      var k :| 0 <= k < |a| && a[k].base == y;
      assert b[k].base == y;
    }
  }

  lemma NamesLast(a: seq<App>)
    requires a != []
    ensures a[|a| - 1].base in Names(a)
  {
  }

  lemma IncreasingPush(kept: seq<App>, x: App)
    requires Increasing(kept) && (kept != [] ==> Below(kept[|kept| - 1].base, x.base))
    ensures Increasing(kept + [x])
  {
    forall p | 0 <= p < |kept| - 1 ensures Below(kept[p].base, x.base) {
      BelowChain(kept[p].base, kept[|kept| - 1].base, x.base);
    }
  }

  /** Keeps the first entry of every name. */
  method Unique(a: array<App>, n: nat) returns (w: nat)
    requires n <= a.Length && Sorted(a[..n])
    modifies a
    ensures w <= n && Increasing(a[..w]) && Names(a[..w]) == Names(old(a[..n]))
    ensures forall k :: 0 <= k < w ==> a[..][k] in old(a[..n])
  {
    hide Below, Increasing, Names, Sorted, Kept;
    w := 0;
    var r := 0;
    ghost var s := a[..n];
    KeptNone(s);
    assert a[..0] == [] && s[..0] == [];
    while r < n
      invariant w <= r <= n && a[r..n] == s[r..]
      invariant Kept(a[..w], s, r)
    {
      assert a[r] == a[r..n][0] == s[r];
      KeepOrSkip(a[..w], s, r);
      LastKept(a[..w], s, r);
      ghost var kept := a[..w];
      if w == 0 || a[r].base != a[w - 1].base {
        if w != r {
          a[w] := a[r];
        }
        w := w + 1;
        assert a[..w] == kept + [s[r]];
      }
      r := r + 1;
    }
    assert s[..n] == s;
    KeptAll(a[..w], s);
    assert forall k :: 0 <= k < w ==> a[..][k] == a[..w][k];
  }

  /** The compacted part after r entries: strictly increasing, the same names, ending with the last one seen. */
  ghost predicate Kept(kept: seq<App>, s: seq<App>, r: nat) {
    && r <= |s| && Increasing(kept) && Names(kept) == Names(s[..r]) && (kept == [] <==> r == 0)
    && (kept != [] ==> kept[|kept| - 1].base == s[r - 1].base)
    && forall k :: 0 <= k < |kept| ==> kept[k] in s
  }

  lemma KeptNone(s: seq<App>)
    ensures Kept([], s, 0)
  {
    assert s[..0] == [];
  }

  lemma KeptAll(kept: seq<App>, s: seq<App>)
    requires Kept(kept, s, |s|)
    ensures Increasing(kept) && Names(kept) == Names(s) && forall k :: 0 <= k < |kept| ==> kept[k] in s
  {
    assert s[..|s|] == s;
  }

  lemma LastKept(kept: seq<App>, s: seq<App>, r: nat)
    requires Kept(kept, s, r)
    ensures kept == [] <==> r == 0
  {
  }

  lemma KeepOrSkip(kept: seq<App>, s: seq<App>, r: nat)
    requires Kept(kept, s, r) && r < |s| && Sorted(s)
    ensures kept == [] || kept[|kept| - 1].base != s[r].base ==> Kept(kept + [s[r]], s, r + 1)
    ensures kept != [] && kept[|kept| - 1].base == s[r].base ==> Kept(kept, s, r + 1)
  {
    hide Below, Increasing, Names;
    assert s[..r + 1] == s[..r] + [s[r]];
    NamesPush(kept, s[r]);
    NamesPush(s[..r], s[r]);
    if kept != [] {
      BelowTrichotomy(s[r - 1].base, s[r].base);
      assert Leq(s[r - 1], s[r]);
    }
    if kept == [] || kept[|kept| - 1].base != s[r].base {
      IncreasingPush(kept, s[r]);
    } else {
      NamesLast(kept);
    }
  }

  /** apps_sort_unique: the names that were there, each once, in strictly increasing order. */
  method SortUnique(a: array<App>, n: nat) returns (w: nat)
    requires n <= a.Length && n < 0x8000_0000
    modifies a
    ensures w <= n && Increasing(a[..w]) && Names(a[..w]) == Names(old(a[..n]))
    ensures forall k :: 0 <= k < w ==> a[..][k] in old(a[..n])
  {
    hide Below, Increasing, Sorted;
    Sort(a, n);
    SameNames(old(a[..n]), a[..n]);
    w := Unique(a, n);
  }

  lemma SameNames(a: seq<App>, b: seq<App>)
    requires multiset(a) == multiset(b)
    ensures Names(a) == Names(b) && forall x :: x in b ==> x in a
  {
    assert forall x :: x in a <==> x in multiset(a);
    assert forall x :: x in b <==> x in multiset(b);
    forall y | y in Names(a) ensures y in Names(b) {
      var k :| 0 <= k < |a| && a[k].base == y;
      assert a[k] in b;
    }
    forall y | y in Names(b) ensures y in Names(a) {
      var k :| 0 <= k < |b| && b[k].base == y;
      assert b[k] in a;
    }
  }
}
