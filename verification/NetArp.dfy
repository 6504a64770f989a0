/** The ARP cache of networkd: a hash table and a doubly linked LRU list over the same entries. */
module NetArp {
  import opened Machine
  import opened NetHashMap

  const SOFT_MAX := 1024
  const TTL_MS := 300_000

  /** A link-layer address. */
  type Mac = n: nat | n < 0x1_0000_0000_0000

  class ArpEntry {
    var ip: Word
    var mac: Mac
    var lastSeen: Word
    var prev: ArpEntry?
    var next: ArpEntry?

    constructor (ip: Word, mac: Mac, now: Word)
      ensures this.ip == ip && this.mac == mac && lastSeen == now && prev == null && next == null
    {
      this.ip, this.mac, lastSeen, prev, next := ip, mac, now, null, null;
    }
  }

  /** What an entry tells a client. */
  datatype Item = Item(ip: Word, mac: Mac, lastSeen: Word)

  function Cut<T>(xs: seq<T>, i: nat): (r: seq<T>)
    requires i < |xs|
    ensures |r| == |xs| - 1
    ensures forall j {:trigger r[j]} :: 0 <= j < |r| ==> r[j] == xs[if j < i then j else j + 1]
  {
    xs[..i] + xs[i + 1..]
  }

  /** How long ago, on a clock that wraps. */
  function Age(lastSeen: Word, now: Word): nat {
    Wrap(now - lastSeen)
  }

  predicate Expired(lastSeen: Word, now: Word) {
    Age(lastSeen, now) > TTL_MS
  }

  /** The list is most recent first. */
  ghost predicate Aged(items: seq<Item>, now: Word) {
    forall i, j :: 0 <= i < j < |items| ==> Age(items[i].lastSeen, now) <= Age(items[j].lastSeen, now)
  }

  /** Nothing in the list is older than this. */
  ghost predicate Within(items: seq<Item>, now: Word, bound: nat) {
    forall i :: 0 <= i < |items| ==> Age(items[i].lastSeen, now) <= bound
  }

  /** What is expired stands at the old end. */
  ghost predicate OldLast(items: seq<Item>, now: Word) {
    forall i, j :: 0 <= i < j < |items| && Expired(items[i].lastSeen, now) ==> Expired(items[j].lastSeen, now)
  }

  ghost predicate NoneExpired(items: seq<Item>, now: Word) {
    forall i :: 0 <= i < |items| ==> !Expired(items[i].lastSeen, now)
  }

  /** Where an address is in the list; the length of the list if it is not there. */
  function Position(items: seq<Item>, ip: Word): (p: nat)
    ensures p <= |items| && (p < |items| ==> items[p].ip == ip)
    ensures forall i :: 0 <= i < p ==> items[i].ip != ip
  {
    if items == [] || items[0].ip == ip then 0 else 1 + Position(items[1..], ip)
  }

  /** A lookup moves a live entry to the front and drops an expired one. */
  function Looked(items: seq<Item>, ip: Word, now: Word): seq<Item> {
    var p := Position(items, ip);
    if p == |items| then items
    else if Expired(items[p].lastSeen, now) then Cut(items, p)
    else [items[p].(lastSeen := now)] + Cut(items, p)
  }

  /** An update puts the address in front, at the cost of the oldest entry when the cache is full. */
  function Upserted(items: seq<Item>, ip: Word, mac: Mac, now: Word): seq<Item> {
    var p := Position(items, ip);
    [Item(ip, mac, now)] + if p < |items| then Cut(items, p) else Evicted(items)
  }

  function Evicted(items: seq<Item>): seq<Item> {
    if |items| >= SOFT_MAX then items[..|items| - 1] else items
  }

  /** Drops from the old end while that entry is expired. */
  function Pruned(items: seq<Item>, now: Word): seq<Item> {
    if items == [] || !Expired(items[|items| - 1].lastSeen, now) then items
    else Pruned(items[..|items| - 1], now)
  }

  /** Only expired entries go, from the old end. */
  lemma {:induction false} PruneDrops(items: seq<Item>, now: Word)
    ensures Pruned(items, now) <= items
    ensures forall i :: |Pruned(items, now)| <= i < |items| ==> Expired(items[i].lastSeen, now)
    ensures Pruned(items, now) != [] ==> !Expired(items[|Pruned(items, now)| - 1].lastSeen, now)
  {
    if items != [] && Expired(items[|items| - 1].lastSeen, now) {
      PruneDrops(items[..|items| - 1], now);
    }
  }

  /** Stopping at the first live entry leaves no expired one exactly if the expired ones stand at the old end. */
  lemma PruneExactly(items: seq<Item>, now: Word)
    ensures NoneExpired(Pruned(items, now), now) <==> OldLast(items, now)
  {
    hide Expired;
    PruneDrops(items, now);
    hide Pruned;
    var kept := Pruned(items, now);
    if OldLast(items, now) {
      forall i | 0 <= i < |kept| ensures !Expired(kept[i].lastSeen, now) {
        var last := items[|kept| - 1];
        assert Expired(items[i].lastSeen, now) ==> Expired(last.lastSeen, now);
      }
    } else {
      var i, j :| 0 <= i < j < |items| && Expired(items[i].lastSeen, now) && !Expired(items[j].lastSeen, now);
      assert j < |kept| && kept[i] == items[i];
    }
  }

  /** On a list that is most recent first, pruning keeps exactly what is not expired. */
  lemma PruneIsComplete(items: seq<Item>, now: Word)
    requires Aged(items, now)
    ensures Pruned(items, now) <= items && NoneExpired(Pruned(items, now), now)
    ensures forall i :: |Pruned(items, now)| <= i < |items| ==> Expired(items[i].lastSeen, now)
  {
    PruneDrops(items, now);
    PruneExactly(items, now);
  }

  /** An expired entry in front of a live one stays. */
  lemma PruneNeedsOrder()
    ensures var items := [Item(1, 0, 0), Item(2, 0, 400_000)];
            !OldLast(items, 400_000) && Pruned(items, 400_000) == items && Expired(items[0].lastSeen, 400_000)
  {
    var items := [Item(1, 0, 0), Item(2, 0, 400_000)];
    assert Expired(items[0].lastSeen, 400_000) && !Expired(items[1].lastSeen, 400_000);
  }

  // ---- the order over time

  /** Ages grow with the clock, also across its wrap, until they reach 2^32. */
  lemma AgeLater(lastSeen: Word, t: Word, delay: nat)
    requires Age(lastSeen, t) + delay < U32
    ensures Age(lastSeen, Wrap(t + delay)) == Age(lastSeen, t) + delay
  {
  }

  lemma AgedLater(items: seq<Item>, t: Word, bound: nat, delay: nat)
    requires Aged(items, t) && Within(items, t, bound) && bound + delay < U32
    ensures Aged(items, Wrap(t + delay)) && Within(items, Wrap(t + delay), bound + delay)
  {
    hide Age;
    forall i | 0 <= i < |items|
      ensures Age(items[i].lastSeen, Wrap(t + delay)) == Age(items[i].lastSeen, t) + delay
    {
      AgeLater(items[i].lastSeen, t, delay);
    }
  }

  lemma AgedCut(items: seq<Item>, i: nat, now: Word, bound: nat)
    requires Aged(items, now) && Within(items, now, bound) && i < |items|
    ensures Aged(Cut(items, i), now) && Within(Cut(items, i), now, bound)
  {
    hide Age;
  }

  lemma AgedPrefix(items: seq<Item>, n: nat, now: Word, bound: nat)
    requires Aged(items, now) && Within(items, now, bound) && n <= |items|
    ensures Aged(items[..n], now) && Within(items[..n], now, bound)
  {
    hide Age;
  }

  lemma AgedFront(items: seq<Item>, item: Item, now: Word, bound: nat)
    requires Aged(items, now) && Within(items, now, bound) && item.lastSeen == now
    ensures Aged([item] + items, now) && Within([item] + items, now, bound)
  {
    assert Age(item.lastSeen, now) == 0;
    hide Age;
  }

  /** Every operation keeps the order and makes nothing older; a prune leaves nothing past its time. */
  lemma OrderKept(items: seq<Item>, ip: Word, mac: Mac, now: Word, bound: nat)
    requires Aged(items, now) && Within(items, now, bound)
    ensures Aged(Looked(items, ip, now), now) && Within(Looked(items, ip, now), now, bound)
    ensures Aged(Upserted(items, ip, mac, now), now) && Within(Upserted(items, ip, mac, now), now, bound)
    ensures Aged(Evicted(items), now) && Within(Evicted(items), now, bound)
    ensures Aged(Pruned(items, now), now) && Within(Pruned(items, now), now, if bound < TTL_MS then bound else TTL_MS)
  {
    hide Aged, Within, Cut;
    PrunedAged(items, now, bound);
    hide Pruned, Expired;
    assert Evicted(items) == items[..|Evicted(items)|];
    AgedPrefix(items, |Evicted(items)|, now, bound);
    hide Evicted;
    AgedFront(Evicted(items), Item(ip, mac, now), now, bound);
    var p := Position(items, ip);
    if p < |items| {
      AgedCut(items, p, now, bound);
      AgedFront(Cut(items, p), Item(ip, mac, now), now, bound);
      AgedFront(Cut(items, p), items[p].(lastSeen := now), now, bound);
    }
  }

  lemma PrunedAged(items: seq<Item>, now: Word, bound: nat)
    requires Aged(items, now) && Within(items, now, bound)
    ensures Aged(Pruned(items, now), now) && Within(Pruned(items, now), now, if bound < TTL_MS then bound else TTL_MS)
  {
    hide Aged, Pruned;
    PruneIsComplete(items, now);
    var kept := Pruned(items, now);
    assert kept == items[..|kept|];
    AgedPrefix(items, |kept|, now, bound);
    forall i | 0 <= i < |kept| ensures Age(kept[i].lastSeen, now) <= TTL_MS {
      assert !Expired(kept[i].lastSeen, now);
    }
  }

  /** What a client asks of the cache. */
  datatype Request = Find(ip: Word) | Learn(ip: Word, mac: Mac, memEntry: bool, memTable: bool) | Sweep

  /** A request some time after the one before. */
  datatype Turn = Turn(delay: nat, req: Request)

  /** No entry can reach the age of 2^32 milliseconds: requests come in time, and sweeps often enough. */
  predicate Timely(bound: nat, turns: seq<Turn>)
    decreases |turns|
  {
    turns == [] ||
    (bound + turns[0].delay < U32 && Timely(BoundAfter(bound, turns[0]), turns[1..]))
  }

  function BoundAfter(bound: nat, turn: Turn): nat {
    var older := bound + turn.delay;
    if turn.req.Sweep? && TTL_MS < older then TTL_MS else older
  }

  /** An address is listed once, so its position is where it is found. */
  lemma PositionUnique(items: seq<Item>, i: nat)
    requires i < |items| && forall j :: 0 <= j < |items| && items[j].ip == items[i].ip ==> j == i
    ensures Position(items, items[i].ip) == i
  {
  }

  lemma PositionAbsent(items: seq<Item>, ip: Word)
    requires forall j :: 0 <= j < |items| ==> items[j].ip != ip
    ensures Position(items, ip) == |items|
  {
  }

  ghost predicate ListedOnce(lru: seq<ArpEntry>) {
    forall i, j :: 0 <= i < j < |lru| ==> lru[i] != lru[j]
  }

  ghost predicate Owned(lru: seq<ArpEntry>, repr: set<ArpEntry>) {
    forall i :: 0 <= i < |lru| ==> lru[i] in repr
  }

  /** prev and next follow the sequence. */
  ghost predicate Chained(lru: seq<ArpEntry>, head: ArpEntry?, tail: ArpEntry?)
    reads lru`prev, lru`next
  {
    && ListedOnce(lru)
    && (forall i, j :: 0 <= i < |lru| && 0 <= j < |lru| && j == i + 1 ==>
         lru[i].next == lru[j] && lru[j].prev == lru[i])
    && (if lru == [] then head == null && tail == null
        else head == lru[0] && tail == lru[|lru| - 1] && lru[0].prev == null && lru[|lru| - 1].next == null)
  }

  /** The entries hold these items. */
  ghost predicate Hold(lru: seq<ArpEntry>, items: seq<Item>)
    reads lru`ip, lru`mac, lru`lastSeen
  {
    && |lru| == |items|
    && forall i :: 0 <= i < |lru| ==>
         lru[i].ip == items[i].ip && lru[i].mac == items[i].mac && lru[i].lastSeen == items[i].lastSeen
  }

  /** The table sends exactly the listed addresses to their entries. */
  ghost predicate Tabled(m: map<nat, ArpEntry?>, lru: seq<ArpEntry>, items: seq<Item>) {
    && |lru| == |items|
    && (forall i :: 0 <= i < |items| ==> items[i].ip in m && m[items[i].ip] == lru[i])
    && (forall k :: k in m ==> k != 0 && exists i :: 0 <= i < |items| && items[i].ip == k)
  }

  lemma HoldCut(lru: seq<ArpEntry>, items: seq<Item>, i: nat)
    requires Hold(lru, items) && i < |lru|
    ensures Hold(Cut(lru, i), Cut(items, i)) && |items| == |lru| && lru[i].ip == items[i].ip
  {
  }

  lemma HoldPush(lru: seq<ArpEntry>, items: seq<Item>, e: ArpEntry)
    requires Hold(lru, items)
    ensures Hold([e] + lru, [Item(e.ip, e.mac, e.lastSeen)] + items)
  {
  }

  lemma TabledCut(m: map<nat, ArpEntry?>, lru: seq<ArpEntry>, items: seq<Item>, i: nat)
    requires Tabled(m, lru, items) && i < |items| && ListedOnce(lru)
    ensures Tabled(m - {items[i].ip}, Cut(lru, i), Cut(items, i)) && items[i].ip in m
  {
    hide Cut;
    var cut, m2 := Cut(items, i), m - {items[i].ip};
    forall j | 0 <= j < |items| && j != i ensures items[j].ip != items[i].ip {
      assert m[items[j].ip] == lru[j] && m[items[i].ip] == lru[i];
    }
    forall j | 0 <= j < |cut| ensures cut[j].ip in m2 && m2[cut[j].ip] == Cut(lru, i)[j] {
      var was := if j < i then j else j + 1;
      assert cut[j] == items[was] && Cut(lru, i)[j] == lru[was];
    }
    forall k | k in m2 ensures exists j :: 0 <= j < |cut| && cut[j].ip == k {
      var j :| 0 <= j < |items| && items[j].ip == k;
      assert cut[if j < i then j else j - 1] == items[j];
    }
  }

  lemma TabledPush(m: map<nat, ArpEntry?>, lru: seq<ArpEntry>, items: seq<Item>, e: ArpEntry, item: Item)
    requires Tabled(m, lru, items) && item.ip !in m && item.ip != 0
    ensures Tabled(m[item.ip := e], [e] + lru, [item] + items)
  {
    var items2 := [item] + items;
    assert forall i :: 0 < i < |items2| ==> items2[i] == items[i - 1] && ([e] + lru)[i] == lru[i - 1];
    assert items2[0].ip == item.ip;
    forall k | k in m ensures exists j :: 0 <= j < |items2| && items2[j].ip == k {
      var j :| 0 <= j < |items| && items[j].ip == k;
      assert items2[j + 1] == items[j];
    }
  }

  lemma TabledTouch(m: map<nat, ArpEntry?>, lru: seq<ArpEntry>, items: seq<Item>, i: nat, item: Item)
    requires Tabled(m, lru, items) && i < |items| && ListedOnce(lru)
    requires item.ip == items[i].ip
    ensures Tabled(m, [lru[i]] + Cut(lru, i), [item] + Cut(items, i))
  {
    TabledCut(m, lru, items, i);
    var m2 := m - {items[i].ip};
    TabledPush(m2, Cut(lru, i), Cut(items, i), lru[i], item);
    assert m2[item.ip := lru[i]] == m;
  }

  /** Where the table finds an address is where the list has it. */
  lemma Located(m: map<nat, ArpEntry?>, lru: seq<ArpEntry>, items: seq<Item>, ip: Word) returns (i: nat)
    requires Tabled(m, lru, items) && ListedOnce(lru)
    ensures i == Position(items, ip) <= |items|
    ensures (ip in m <==> i < |lru|) && (ip in m ==> ip != 0)
    ensures i < |lru| ==> m[ip] == lru[i] && items[i].ip == ip
  {
    if ip in m {
      i :| 0 <= i < |items| && items[i].ip == ip;
      PositionUnique(items, i);
    } else {
      i := |lru|;
      PositionAbsent(items, ip);
    }
  }

  /** Erasing a key that is there leaves room for a put that does not grow the table. */
  method EraseKnown(h: HashMap<ArpEntry?>, key: nat)
    requires h.Valid() && key in h.m
    modifies h`size, h`m, h.keys, h.vals
    ensures h.Valid() && h.m == old(h.m) - {key} && (h.size + 1) * 10 < h.keys.Length * 7
  {
    hide TableOk, PowerOfTwo;
    var _ := h.Erase(key);
    assert old(h.m).Keys == h.m.Keys + {key} && key !in h.m.Keys;
  }

  lemma HoldSize(lru: seq<ArpEntry>, items: seq<Item>)
    requires Hold(lru, items)
    ensures |items| == |lru|
  {
  }

  lemma HoldAt(lru: seq<ArpEntry>, items: seq<Item>, i: nat)
    requires Hold(lru, items) && i < |lru|
    ensures |items| == |lru| && items[i] == Item(lru[i].ip, lru[i].mac, lru[i].lastSeen)
  {
  }

  lemma CutUpdated<T>(xs: seq<T>, i: nat, x: T)
    requires i < |xs|
    ensures Cut(xs[i := x], i) == Cut(xs, i)
  {
  }

  lemma CutLast<T>(xs: seq<T>)
    requires xs != []
    ensures Cut(xs, |xs| - 1) == xs[..|xs| - 1]
  {
  }

  lemma TailIs(lru: seq<ArpEntry>, head: ArpEntry?, tail: ArpEntry?)
    requires Chained(lru, head, tail)
    ensures tail == if lru == [] then null else lru[|lru| - 1]
    ensures |lru| > 0 ==> tail.prev == if |lru| == 1 then null else lru[|lru| - 2]
  {
  }

  class ArpCache {
    const table: HashMap<ArpEntry?>
    var head: ArpEntry?
    var tail: ArpEntry?
    var count: nat
    /** The list, most recent first, and what its entries hold. */
    ghost var lru: seq<ArpEntry>
    ghost var items: seq<Item>
    /** Every entry the cache has allocated. */
    ghost var repr: set<ArpEntry>

    ghost predicate Valid()
      reads this, repr, table, table.keys, table.vals
    {
      && table.Valid() && Owned(lru, repr)
      && ListedOnce(lru) && Chained(lru, head, tail) && Hold(lru, items)
      && Tabled(table.m, lru, items)
      && count == |lru| <= SOFT_MAX
    }

    constructor (hash: nat -> nat, memory: bool)
      ensures Valid() && items == [] && repr == {} && fresh(table) && fresh(table.keys) && fresh(table.vals)
    {
      table := new HashMap<ArpEntry?>(hash, null);
      head, tail, count, lru, items, repr := null, null, 0, [], [], {};
      new;
      var _ := table.Reserve(64, memory);
    }

    method Unlink(e: ArpEntry, ghost i: nat)
      requires Chained(lru, head, tail) && i < |lru| && lru[i] == e && Owned(lru, repr)
      modifies `head, `tail, `lru, repr`prev, repr`next
      ensures Chained(lru, head, tail) && ListedOnce(lru) && Owned(lru, repr) && lru == Cut(old(lru), i)
              && e !in lru && e.prev == null && e.next == null
    {
      assert e.prev == (if i == 0 then null else lru[i - 1]) && e.next == (if i == |lru| - 1 then null else lru[i + 1]);
      if e.prev != null {
        e.prev.next := e.next;
      } else {
        head := e.next;
      }
      if e.next != null {
        e.next.prev := e.prev;
      } else {
        tail := e.prev;
      }
      e.prev := null;
      e.next := null;
      lru := Cut(lru, i);
    }

    method PushHead(e: ArpEntry)
      requires Chained(lru, head, tail) && e !in lru && e in repr && Owned(lru, repr)
      modifies `head, `tail, `lru, repr`prev, repr`next
      ensures Chained(lru, head, tail) && ListedOnce(lru) && Owned(lru, repr) && lru == [e] + old(lru)
    {
      assert head != null ==> lru != [] && head == lru[0];
      e.prev := null;
      e.next := head;
      if head != null {
        head.prev := e;
      } else {
        tail := e;
      }
      head := e;
      lru := [e] + lru;
    }

    /** Takes an entry out of list, table and count. */
    method Drop(e: ArpEntry, ghost i: nat)
      requires Valid() && i < |lru| && lru[i] == e
      modifies `head, `tail, `lru, `items, `count, repr`prev, repr`next, table`size, table`m, table.keys, table.vals
      ensures Valid() && items == Cut(old(items), i) && lru == Cut(old(lru), i)
      ensures e.prev == null && e.next == null && e !in lru
      ensures table.m == old(table.m) - {e.ip} && (table.size + 1) * 10 < table.keys.Length * 7
    {
      hide HashMap.Valid, Tabled, Chained, Cut, Hold, Owned, ListedOnce;
      HoldCut(lru, items, i);
      TabledCut(table.m, lru, items, i);
      Unlink(e, i);
      EraseKnown(table, e.ip);
      if count > 0 {
        count := count - 1;
      }
      items := Cut(items, i);
    }

    /** Writes an entry's address and time. */
    method Stamp(e: ArpEntry, mac: Mac, now: Word, ghost i: nat)
      requires Hold(lru, items) && ListedOnce(lru) && i < |lru| && lru[i] == e
      requires Tabled(table.m, lru, items)
      modifies `items, e`mac, e`lastSeen
      ensures Hold(lru, items) && items == old(items)[i := Item(e.ip, mac, now)] && Tabled(table.m, lru, items)
    {
      e.mac, e.lastSeen := mac, now;
      items := items[i := Item(e.ip, mac, now)];
    }

    method Relink(e: ArpEntry, ghost i: nat)
      requires Chained(lru, head, tail) && i < |lru| && lru[i] == e && Owned(lru, repr)
      modifies `head, `tail, `lru, repr`prev, repr`next
      ensures Chained(lru, head, tail) && ListedOnce(lru) && Owned(lru, repr) && lru == [e] + Cut(old(lru), i)
    {
      hide Chained, Cut, ListedOnce;
      Unlink(e, i);
      PushHead(e);
    }

    /** Moves an entry to the front with a new address and time. */
    method Touch(e: ArpEntry, mac: Mac, now: Word, ghost i: nat)
      requires Valid() && i < |lru| && lru[i] == e
      modifies `head, `tail, `lru, `items, repr`prev, repr`next, e`mac, e`lastSeen
      ensures Valid() && lru == [e] + Cut(old(lru), i)
      ensures items == [old(items)[i].(mac := mac, lastSeen := now)] + Cut(old(items), i)
    {
      hide HashMap.Valid, Tabled, Chained, Cut, Hold, ListedOnce, Owned;
      HoldAt(lru, items, i);
      Stamp(e, mac, now, i);
      HoldCut(lru, items, i);
      HoldPush(Cut(lru, i), Cut(items, i), e);
      TabledTouch(table.m, lru, items, i, items[i]);
      Relink(e, i);
      CutUpdated(old(items), i, items[i]);
      items := [items[i]] + Cut(items, i);
    }

    /** Takes out the oldest entry, if there is one. */
    method EvictLru() returns (victim: ArpEntry?)
      requires Valid()
      modifies `head, `tail, `lru, `items, `count, repr`prev, repr`next, table`size, table`m, table.keys, table.vals
      ensures Valid() && (victim == null <==> old(lru) == [])
      ensures victim == null ==> items == old(items) && table.m == old(table.m)
      ensures victim != null ==> victim in repr && victim !in lru && lru == old(lru)[..|old(lru)| - 1]
                                 && items == old(items)[..|old(items)| - 1]
                                 && table.m == old(table.m) - {victim.ip}
                                    && (table.size + 1) * 10 < table.keys.Length * 7
    {
      hide HashMap.Valid, Tabled, Chained, Hold, ListedOnce, Cut;
      victim := tail;
      TailIs(lru, head, tail);
      if victim != null {
        HoldAt(lru, items, |lru| - 1);
        CutLast(lru);
        CutLast(items);
        Drop(victim, |lru| - 1);
      }
    }

    /** Enters a detached entry in table and list, unless the table refuses it. */
    method Store(e: ArpEntry, memory: bool) returns (ok: bool)
      requires Valid() && count < SOFT_MAX && e !in lru && e in repr && e.ip !in table.m
      modifies `head, `tail, `lru, `items, `count, repr`prev, repr`next, table, table.keys, table.vals
      ensures Valid()
      ensures (table.keys == old(table.keys) && table.vals == old(table.vals))
              || (fresh(table.keys) && fresh(table.vals))
      ensures ok ==> e.ip != 0 && lru == [e] + old(lru) && items == [Item(e.ip, e.mac, e.lastSeen)] + old(items)
      ensures !ok ==> lru == old(lru) && items == old(items)
      ensures e.ip != 0 && (memory || old((table.size + 1) * 10 < table.keys.Length * 7)) ==> ok
    {
      hide HashMap.Valid, Tabled, Chained, Hold, ListedOnce;
      ok := table.Put(e.ip, e, memory);
      if ok {
        HoldPush(lru, items, e);
        TabledPush(old(table.m), lru, items, e, Item(e.ip, e.mac, e.lastSeen));
        PushHead(e);
        count := count + 1;
        items := [Item(e.ip, e.mac, e.lastSeen)] + items;
      }
    }

    method Lookup(ip: Word, now: Word) returns (found: bool, mac: Mac)
      requires Valid()
      modifies this, repr, table, table.keys, table.vals
      ensures Valid() && items == Looked(old(items), ip, now) && repr == old(repr)
      ensures table.keys == old(table.keys) && table.vals == old(table.vals)
      ensures var p := Position(old(items), ip);
              found <==> p < |old(items)| && !Expired(old(items)[p].lastSeen, now)
      ensures found ==> mac == old(items)[Position(old(items), ip)].mac
    {
      hide HashMap.Valid, Tabled, Chained, Cut, Expired, ListedOnce;
      var got, e := table.Get(ip);
      ghost var i := Located(table.m, lru, items, ip);
      if !got || e == null {
        return false, 0;
      }
      if Expired(e.lastSeen, now) {
        Drop(e, i);
        return false, 0;
      }
      HoldAt(lru, items, i);
      Touch(e, e.mac, now, i);
      HoldAt(lru, items, 0);
      return true, e.mac;
    }

    /** Reuses the oldest entry of a full cache for a new address; no memory is needed. */
    method Replace(ip: Word, mac: Mac, now: Word)
      requires Valid() && ip !in table.m && count == SOFT_MAX
      modifies this, repr, table, table.keys, table.vals
      ensures Valid() && repr == old(repr)
      ensures (table.keys == old(table.keys) && table.vals == old(table.vals))
              || (fresh(table.keys) && fresh(table.vals))
      ensures |old(items)| == SOFT_MAX
      ensures items == (if ip != 0 then [Item(ip, mac, now)] else []) + old(items)[..SOFT_MAX - 1]
    {
      hide HashMap.Valid, Tabled, Chained, ListedOnce, Hold;
      HoldSize(lru, items);
      var victim := EvictLru();
      Rename(victim, ip, mac, now);
      var _ := Store(victim, false);
    }

    method Rename(e: ArpEntry, ip: Word, mac: Mac, now: Word)
      requires Valid() && e !in lru && e in repr
      modifies e
      ensures Valid() && e.ip == ip && e.mac == mac && e.lastSeen == now
    {
      hide HashMap.Valid;
      e.ip, e.mac, e.lastSeen := ip, mac, now;
      e.prev, e.next := null, null;
    }

    /**
     * Records an address. A full cache gives up its oldest entry, whose slot in the table is then
     * free, so storing a non-zero address needs memory only while the cache is not full.
     */
    method Upsert(ip: Word, mac: Mac, now: Word, memEntry: bool, memTable: bool)
      requires Valid()
      modifies this, repr, table, table.keys, table.vals
      ensures Valid()
      ensures (table.keys == old(table.keys) && table.vals == old(table.vals))
              || (fresh(table.keys) && fresh(table.vals))
      ensures fresh(repr - old(repr))
      ensures ip != 0 && (ip in old(table.m) || old(count) == SOFT_MAX || (memEntry && memTable)) ==>
                items == Upserted(old(items), ip, mac, now)
      ensures ip == 0 ==> items == Evicted(old(items))
      ensures items == Upserted(old(items), ip, mac, now) || items == Evicted(old(items))
    {
      hide HashMap.Valid, Tabled, Chained, Cut, ListedOnce, Hold;
      HoldSize(lru, items);
      var got, e := table.Get(ip);
      ghost var i := Located(table.m, lru, items, ip);
      if got && e != null {
        Touch(e, mac, now, i);
        return;
      }
      if count >= SOFT_MAX {
        Replace(ip, mac, now);
        return;
      }
      if !memEntry {
        return;
      }
      var entry := new ArpEntry(ip, mac, now);
      assert entry !in lru;
      repr := repr + {entry};
      var _ := Store(entry, memTable);
    }

    /** Leaves no expired entry exactly if the expired ones stood at the old end. */
    method Prune(now: Word)
      requires Valid()
      modifies this, repr, table`size, table`m, table.keys, table.vals
      ensures Valid() && items == Pruned(old(items), now) && repr == old(repr)
      ensures NoneExpired(items, now) <==> OldLast(old(items), now)
    {
      PruneExactly(items, now);
      hide HashMap.Valid, Tabled, Chained, Cut, Expired, Hold, ListedOnce, Owned;
      var current := tail;
      while current != null
        invariant Valid() && current == tail && repr == old(repr)
        invariant Pruned(items, now) == Pruned(old(items), now)
        decreases |lru|
      {
        TailIs(lru, head, tail);
        HoldAt(lru, items, |lru| - 1);
        CutLast(lru);
        CutLast(items);
        var prev := current.prev;
        if Expired(current.lastSeen, now) {
          Drop(current, |lru| - 1);
          TailIs(lru, head, tail);
        } else {
          break;
        }
        current := prev;
      }
      TailIs(lru, head, tail);
      HoldSize(lru, items);
    }

    /** One request at a time; the order by age, and the bound on ages, hold after each. */
    method Serve(req: Request, now: Word, ghost bound: nat)
      requires Valid() && Aged(items, now) && Within(items, now, bound)
      modifies this, repr, table, table.keys, table.vals
      ensures Valid() && Aged(items, now) && Within(items, now, if req.Sweep? && TTL_MS < bound then TTL_MS else bound)
      ensures (table.keys == old(table.keys) && table.vals == old(table.vals))
              || (fresh(table.keys) && fresh(table.vals))
      ensures fresh(repr - old(repr))
      ensures req.Sweep? ==> NoneExpired(items, now) && items == Pruned(old(items), now)
    {
      hide Valid, Aged, Within, Looked, Upserted, Pruned, Evicted, NoneExpired;
      match req {
        case Find(ip) =>
          OrderKept(items, ip, 0, now, bound);
          var found, mac := Lookup(ip, now);
        case Learn(ip, mac, memEntry, memTable) =>
          OrderKept(items, ip, mac, now, bound);
          Upsert(ip, mac, now, memEntry, memTable);
        case Sweep =>
          OrderKept(items, 0, 0, now, bound);
          PruneIsComplete(items, now);
          Prune(now);
      }
    }

    /**
     * Any run from the empty cache, on a clock that starts anywhere and wraps: as long as no entry
     * can reach the age of 2^32 milliseconds, the list stays ordered by age, and a sweep leaves
     * nothing expired.
     */
    method Run(start: Word, turns: seq<Turn>) returns (now: Word)
      requires Valid() && items == [] && Timely(0, turns)
      modifies this, repr, table, table.keys, table.vals
      ensures Valid() && Aged(items, now)
      ensures turns != [] && turns[|turns| - 1].req.Sweep? ==> NoneExpired(items, now)
    {
      hide Valid, NoneExpired, Aged, Within;
      now := start;
      ghost var bound: nat := 0;
      AgedNone(start);
      var k := 0;
      while k < |turns|
        invariant 0 <= k <= |turns| && Valid() && Aged(items, now) && Within(items, now, bound)
                  && Timely(bound, turns[k..])
        invariant (table.keys == old(table.keys) && table.vals == old(table.vals))
                  || (fresh(table.keys) && fresh(table.vals))
        invariant fresh(repr - old(repr))
        invariant k > 0 && turns[k - 1].req.Sweep? ==> NoneExpired(items, now)
      {
        var turn := turns[k];
        assert turns[k..][0] == turn && turns[k..][1..] == turns[k + 1..];
        AgedLater(items, now, bound, turn.delay);
        now := Wrap(now + turn.delay);
        Serve(turn.req, now, bound + turn.delay);
        bound := BoundAfter(bound, turn);
        k := k + 1;
      }
    }
  }

  lemma AgedNone(now: Word)
    ensures Aged([], now) && Within([], now, 0)
  {
  }
}
