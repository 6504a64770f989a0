/** The arena allocator of networkd: a list of mapped regions, bump allocation, checkpoints. */
module NetArena {
  import opened Machine

  const PAGE := 4096
  /** sizeof(Region) rounded up to 16. */
  const HEADER := 32

  /** A mapped region; its header sits at its base, so the base address is also its identity. */
  datatype Region = Region(base: nat, size: nat, used: nat)

  datatype Checkpoint = Nowhere | At(base: nat, used: nat)

  /** A block handed out. */
  datatype Block = Block(addr: nat, size: nat)

  /** Rounding up to a multiple; for a power of two this is what adding and masking does. */
  function AlignUp(v: nat, align: nat): (r: nat)
    requires align > 0
    ensures v <= r < v + align && r % align == 0
  {
    AlignsUp(v, align);
    (v + align - 1) / align * align
  }

  lemma AlignsUp(v: nat, align: nat)
    requires align > 0
    ensures var r := (v + align - 1) / align * align; v <= r < v + align && r % align == 0
  {
    var q := (v + align - 1) / align;
    assert v + align - 1 == q * align + (v + align - 1) % align;
    Remainder(q * align, align, q, 0);
  }

  // ---- regions

  predicate RegionOk(r: Region) {
    PAGE <= r.base && r.base % PAGE == 0 && PAGE <= r.size && r.size % PAGE == 0 && r.base + r.size <= U32
    && HEADER <= r.used <= r.size
  }

  predicate Apart(r: Region, s: Region) {
    r.base + r.size <= s.base || s.base + s.size <= r.base
  }

  ghost predicate RegionsOk(rs: seq<Region>) {
    && (forall i :: 0 <= i < |rs| ==> RegionOk(rs[i]))
    && (forall i, j :: 0 <= i < j < |rs| ==> Apart(rs[i], rs[j]))
  }

  /** A mapping the kernel may hand out: page-aligned, inside the address space, over nothing mapped. */
  ghost predicate MapOk(rs: seq<Region>, base: nat, size: nat) {
    && PAGE <= base && base % PAGE == 0 && 0 < size && base + size <= U32
    && forall i :: 0 <= i < |rs| ==> Apart(rs[i], Region(base, size, HEADER))
  }

  /** The kernel's answer to a request for some bytes: a base address, or zero. */
  type Kernel = (seq<Region>, nat) -> nat

  ghost predicate KernelOk(kernel: Kernel) {
    forall rs, size :: kernel(rs, size) == 0 || MapOk(rs, kernel(rs, size), size)
  }

  // ---- the counters

  function Committed(rs: seq<Region>): nat {
    if rs == [] then 0 else Committed(rs[..|rs| - 1]) + rs[|rs| - 1].size
  }

  function InUse(rs: seq<Region>): int {
    if rs == [] then 0 else InUse(rs[..|rs| - 1]) + (rs[|rs| - 1].used - HEADER)
  }

  ghost function Stretch(base: nat, size: nat): set<nat> {
    if size == 0 then {} else Stretch(base, size - 1) + {base + size - 1}
  }

  ghost function Cells(r: Region): set<nat> {
    Stretch(r.base, r.size)
  }

  lemma {:induction false} StretchIs(base: nat, size: nat)
    ensures |Stretch(base, size)| == size && forall a :: a in Stretch(base, size) <==> base <= a < base + size
  {
    if size > 0 {
      StretchIs(base, size - 1);
    }
  }

  ghost function AllCells(rs: seq<Region>): set<nat> {
    if rs == [] then {} else AllCells(rs[..|rs| - 1]) + Cells(rs[|rs| - 1])
  }

  lemma {:induction false} CellsCounted(rs: seq<Region>)
    requires RegionsOk(rs)
    ensures |AllCells(rs)| == Committed(rs)
    ensures forall a :: a in AllCells(rs) ==> PAGE <= a < U32 && exists i :: 0 <= i < |rs| && a in Cells(rs[i])
  {
    hide Stretch;
    if rs != [] {
      var front, last := rs[..|rs| - 1], rs[|rs| - 1];
      CellsCounted(front);
      StretchIs(last.base, last.size);
      forall a | a in AllCells(front) ensures a !in Cells(last) {
        var i :| 0 <= i < |front| && a in Cells(front[i]);
        StretchIs(front[i].base, front[i].size);
        assert Apart(rs[i], last);
      }
      assert |AllCells(rs)| == |AllCells(front)| + |Cells(last)|;
      forall a | a in AllCells(rs) ensures exists i :: 0 <= i < |rs| && a in Cells(rs[i]) {
        if a in AllCells(front) {
          var i :| 0 <= i < |front| && a in Cells(front[i]);
          assert a in Cells(rs[i]);
        } else {
          assert a in Cells(rs[|rs| - 1]);
        }
      }
    }
  }

  lemma {:induction false} Bounded(s: set<nat>, lo: nat, hi: nat)
    requires lo <= hi && forall x :: x in s ==> lo <= x < hi
    ensures |s| <= hi - lo
    decreases hi
  {
    if lo < hi {
      Bounded(s - {hi - 1}, lo, hi - 1);
      assert |s| <= |s - {hi - 1}| + 1;
    } else {
      assert s == {};
    }
  }

  /** Disjoint regions in a 32-bit space: the counters never wrap. */
  lemma CountersFit(rs: seq<Region>)
    requires RegionsOk(rs)
    ensures 0 <= InUse(rs) <= Committed(rs) < U32
  {
    CellsCounted(rs);
    Bounded(AllCells(rs), PAGE, U32);
    InUseBelow(rs);
  }

  lemma {:induction false} InUseBelow(rs: seq<Region>)
    requires RegionsOk(rs)
    ensures 0 <= InUse(rs) <= Committed(rs)
  {
    if rs != [] {
      InUseBelow(rs[..|rs| - 1]);
    }
  }

  // ---- blocks and checkpoints

  /** The block lies in the used part of some region, past the header. */
  ghost predicate Placed(rs: seq<Region>, b: Block) {
    exists i :: 0 <= i < |rs| && PlacedIn(rs[i], b)
  }

  predicate PlacedIn(r: Region, b: Block) {
    b.size > 0 && r.base + HEADER <= b.addr && b.addr + b.size <= r.base + r.used
  }

  ghost predicate BlocksOk(rs: seq<Region>, live: set<Block>) {
    && (forall b :: b in live ==> Placed(rs, b))
    && (forall b, c :: b in live && c in live && b != c ==> b.addr + b.size <= c.addr || c.addr + c.size <= b.addr)
  }

  /** Later regions and more use of the last one, nothing else. */
  ghost predicate Extends(rs: seq<Region>, now: seq<Region>) {
    rs == [] || (|rs| <= |now| && now[..|rs| - 1] == rs[..|rs| - 1]
      && now[|rs| - 1] == rs[|rs| - 1].(used := now[|rs| - 1].used)
                 && rs[|rs| - 1].used <= now[|rs| - 1].used)
  }

  lemma ExtendsTrans(a: seq<Region>, b: seq<Region>, c: seq<Region>)
    requires Extends(a, b) && Extends(b, c)
    ensures Extends(a, c)
  {
    if a != [] {
      var k := |a| - 1;
      assert b[..|b| - 1] == c[..|b| - 1];
      assert c[..k] == c[..|b| - 1][..k] && b[..k] == b[..|b| - 1][..k];
      if |a| < |b| {
        assert c[k] == c[..|b| - 1][k] && b[k] == b[..|b| - 1][k];
      }
    }
  }

  lemma PlacedLater(rs: seq<Region>, now: seq<Region>, b: Block)
    requires Extends(rs, now) && Placed(rs, b)
    ensures Placed(now, b)
  {
    var i :| 0 <= i < |rs| && PlacedIn(rs[i], b);
    if i < |rs| - 1 {
      assert now[i] == now[..|rs| - 1][i] == rs[..|rs| - 1][i];
    }
    assert PlacedIn(now[i], b);
  }

  /** What has happened since a checkpoint: only additions, none of them inside what was used then. */
  ghost predicate Since(rs: seq<Region>, saved: set<Block>, now: seq<Region>, live: set<Block>) {
    Extends(rs, now) && saved <= live && forall b :: b in live && b !in saved ==> !Placed(rs, b)
  }

  lemma SinceGrows(rs: seq<Region>, saved: set<Block>, now: seq<Region>, live: set<Block>, now2: seq<Region>,
                   live2: set<Block>)
    requires Since(rs, saved, now, live) && Extends(now, now2) && live <= live2
    requires forall b :: b in live2 && b !in live ==> !Placed(now, b)
    ensures Since(rs, saved, now2, live2)
  {
    ExtendsTrans(rs, now, now2);
    forall b | b in live2 && b !in saved ensures !Placed(rs, b) {
      if b !in live && Placed(rs, b) {
        PlacedLater(rs, now, b);
      }
    }
  }

  lemma UsedFits(rs: seq<Region>)
    requires RegionsOk(rs)
    ensures forall i :: 0 <= i < |rs| ==> HEADER <= rs[i].used <= rs[i].size
  {
  }

  lemma RegionGrows(r: Region, used: nat)
    requires RegionOk(r) && r.used <= used <= r.size
    ensures RegionOk(r.(used := used))
  {
  }

  /** The bump: a block right behind what the last region uses is apart from every live one. */
  lemma BumpOk(rs: seq<Region>, live: set<Block>, pad: nat, size: nat)
    requires rs != [] && RegionsOk(rs) && BlocksOk(rs, live) && size > 0
    requires rs[|rs| - 1].used + pad + size <= rs[|rs| - 1].size
    ensures var r := rs[|rs| - 1];
            var now, b := rs[|rs| - 1 := r.(used := r.used + pad + size)], Block(r.base + r.used + pad, size);
            RegionsOk(now) && BlocksOk(now, live + {b}) && Extends(rs, now) && !Placed(rs, b) && b !in live
  {
    hide RegionOk;
    var last := |rs| - 1;
    var r := rs[last];
    RegionGrows(r, r.used + pad + size);
    UsedFits(rs);
    var now, b := rs[last := r.(used := r.used + pad + size)], Block(r.base + r.used + pad, size);
    forall i, j | 0 <= i < j < |now| ensures Apart(now[i], now[j]) {
      assert Apart(rs[i], rs[j]);
    }
    assert Extends(rs, now);
    assert PlacedIn(now[last], b);
    assert Placed(now, b);
    if Placed(rs, b) {
      BehindUse(rs, b, b);
    }
    hide RegionsOk, Extends, Placed, Apart, PlacedIn;
    forall c | c in live ensures Placed(now, c) && (c.addr + c.size <= b.addr || b.addr + b.size <= c.addr) {
      PlacedLater(rs, now, c);
      BehindUse(rs, c, b);
    }
  }

  /** What lies inside the last region, behind its use, meets no placed block. */
  lemma BehindUse(rs: seq<Region>, c: Block, b: Block)
    requires RegionsOk(rs) && rs != [] && Placed(rs, c) && b.size > 0
    requires var r := rs[|rs| - 1]; r.base + r.used <= b.addr && b.addr + b.size <= r.base + r.size
    ensures c.size > 0 && (c.addr + c.size <= b.addr || b.addr + b.size <= c.addr)
  {
    hide RegionOk;
    UsedFits(rs);
    var i :| 0 <= i < |rs| && PlacedIn(rs[i], c);
    if i < |rs| - 1 {
      assert Apart(rs[i], rs[|rs| - 1]);
    }
  }

  /** A new region at the end. */
  lemma RegionAdded(rs: seq<Region>, live: set<Block>, base: nat, size: nat)
    requires RegionsOk(rs) && BlocksOk(rs, live) && MapOk(rs, base, size) && size % PAGE == 0
    ensures var now := rs + [Region(base, size, HEADER)];
            RegionsOk(now) && BlocksOk(now, live) && Extends(rs, now)
            && Committed(now) == Committed(rs) + size && InUse(now) == InUse(rs)
  {
    var now := rs + [Region(base, size, HEADER)];
    assert RegionOk(Region(base, size, HEADER));
    hide RegionOk;
    assert now[..|now| - 1] == rs;
    assert rs != [] ==> now[..|rs| - 1] == rs[..|rs| - 1];
    forall b | b in live ensures Placed(now, b) {
      PlacedLater(rs, now, b);
    }
  }

  /** Growing the last region. */
  lemma CountersBump(rs: seq<Region>, used: nat)
    requires rs != []
    ensures var now := rs[|rs| - 1 := rs[|rs| - 1].(used := used)];
            Committed(now) == Committed(rs) && InUse(now) == InUse(rs) + (used - rs[|rs| - 1].used)
  {
    var now := rs[|rs| - 1 := rs[|rs| - 1].(used := used)];
    assert now[..|now| - 1] == rs[..|rs| - 1];
  }

  function PageUp(bytes: nat): nat {
    Wrap(AlignUp(bytes, PAGE))
  }

  /** A new region is at least as large as asked for, unless the request wraps to nothing. */
  lemma PageUpFits(bytes: nat)
    requires PAGE <= bytes < U32
    ensures PageUp(bytes) % PAGE == 0 && (PageUp(bytes) > 0 ==> bytes <= PageUp(bytes))
  {
    var r := AlignUp(bytes, PAGE);
    hide AlignUp;
    if r < U32 {
      WrapSmall(r);
    } else {
      LastPage(r);
    }
  }

  lemma LastPage(r: nat)
    requires U32 <= r < U32 + PAGE && r % PAGE == 0
    ensures r == U32 && Wrap(r) == 0
  {
    assert U32 == 0x10_0000 * PAGE;
  }

  /** The last region has room left, or it is new and as large as asked for and as the one before. */
  ghost predicate Roomy(was: seq<Region>, now: seq<Region>, min: nat) {
    && now != []
    && (|| (now == was && min <= now[|now| - 1].size - now[|now| - 1].used)
        || (|now| == |was| + 1 && now[|now| - 1].used == HEADER && min <= now[|now| - 1].size
            && (was != [] ==> was[|was| - 1].size <= now[|now| - 1].size)))
  }

  // ---- the test for room, in 32 bits

  /** The address behind what the region uses. */
  function Cursor(r: Region): nat {
    Wrap(r.base + r.used)
  }

  /** How far the next aligned address is. */
  function Pad(r: Region, a: nat): (pad: nat)
    requires a > 0
    ensures pad < a
  {
    AlignUp(Cursor(r), a) - Cursor(r)
  }

  /** Padding and size as the code adds them up. */
  function Needed(r: Region, size: nat, a: nat): nat
    requires a > 0
  {
    Wrap(Wrap(Wrap(AlignUp(Cursor(r), a)) - Cursor(r)) + size)
  }

  /** The test for room as the code computes it. */
  predicate Accepts(r: Region, size: nat, a: nat)
    requires a > 0
  {
    Wrap(r.used + Needed(r, size, a)) <= r.size
  }

  /** Where the block would end, counted from the base of the region, if nothing wrapped. */
  function EndOf(r: Region, size: nat, a: nat): nat
    requires a > 0
  {
    r.used + Pad(r, a) + size
  }

  /** A power of two divides every larger one. */
  lemma {:induction false} PowerInto(a: nat, k: nat) returns (q: nat)
    requires PowerOfTwo(a) && a <= Pow2(k)
    ensures Pow2(k) == q * a
    decreases k
  {
    if a == 1 {
      q := Pow2(k);
    } else {
      q := PowerInto(a / 2, k - 1);
      assert q * a == 2 * (q * (a / 2));
    }
  }

  lemma AllBits()
    ensures Pow2(32) == U32
  {
    assert Pow2(8) == 256;
    assert Pow2(16) == 65536;
    assert Pow2(24) == 0x100_0000;
  }

  /** Rounding up to a power of two stays in the address space, its end included. */
  lemma AlignBelow(v: nat, a: nat)
    requires PowerOfTwo(a) && a < U32 && v < U32
    ensures AlignUp(v, a) <= U32
  {
    AllBits();
    var q := PowerInto(a, 32);
    var r := AlignUp(v, a);
    hide AlignUp, PowerOfTwo, Pow2;
    Multiples(r, a, q);
  }

  lemma Multiples(r: nat, a: nat, q: nat)
    requires a > 0 && r % a == 0 && r < q * a + a
    ensures r <= q * a
  {
    var k := r / a;
    assert r == k * a;
    if k > q {
      OnceMore(k, q, a);
    }
  }

  lemma OnceMore(k: nat, q: nat, a: nat)
    requires k > q
    ensures k * a >= q * a + a
  {
    assert k * a == (k - q - 1) * a + (q + 1) * a;
  }

  /** Whatever wraps on the way, the padding comes out exact and only the final sum is cut to 32 bits. */
  lemma NeededIs(r: Region, size: nat, a: nat)
    requires PowerOfTwo(a) && a < U32 && size < U32
    ensures Needed(r, size, a) == Wrap(Pad(r, a) + size)
    ensures Wrap(r.used + Needed(r, size, a)) == Wrap(EndOf(r, size, a))
  {
    AlignBelow(Cursor(r), a);
    hide AlignUp, PowerOfTwo;
    var cur, up := Cursor(r), AlignUp(Cursor(r), a);
    assert Wrap(Wrap(up) - cur) == up - cur by { PadIs(cur, up); }
    hide Cursor, Pad;
    WrapAdd(Pad(r, a) + size, r.used);
    assert Wrap(Pad(r, a) + size) + r.used == r.used + Wrap(Pad(r, a) + size);
  }

  lemma PadIs(cur: nat, up: nat)
    requires cur <= up <= U32 && cur < U32 && up - cur < U32
    ensures Wrap(Wrap(up) - cur) == up - cur
  {
  }

  /**
   * What the test is worth, for every region, size and alignment: the block fits exactly if the
   * test passes and the end of the block, computed without wrapping, stays below 2^32.
   */
  lemma AcceptsExactly(r: Region, size: nat, a: nat)
    requires RegionOk(r) && PowerOfTwo(a) && a < U32 && 0 < size < U32
    ensures EndOf(r, size, a) <= r.size <==> Accepts(r, size, a) && EndOf(r, size, a) < U32
  {
    NeededIs(r, size, a);
    hide Needed, Pad, AlignUp, PowerOfTwo;
    var end := EndOf(r, size, a);
    hide EndOf;
    if end < U32 {
      WrapSmall(end);
    }
  }

  /** For alignments up to a page a caller can tell: nothing wraps exactly if size and alignment stay below 2^32. */
  lemma SmallAlignments(r: Region, size: nat, a: nat)
    requires RegionOk(r) && PowerOfTwo(a) && a <= PAGE && 0 < size < U32 && U32 <= size + a
    ensures EndOf(r, size, a) > r.size
  {
  }

  /**
   * Sizes that wrap are accepted without room. Asked of a fresh page, 2^32 - 1 bytes without
   * alignment; and 2^32 - 16 bytes aligned to 32, where the padding makes the sum wrap.
   */
  lemma WrapIsAccepted()
    ensures var r := Region(PAGE, PAGE, HEADER);
            RegionOk(r) && Wrap(U32 - 1 + 1) == 0 && Accepts(r, U32 - 1, 1) && EndOf(r, U32 - 1, 1) > r.size
    ensures var r := Region(PAGE, PAGE, 40);
            RegionOk(r) && Wrap(U32 - 16 + 32) == 16 && Needed(r, U32 - 16, 32) == 8
            && Accepts(r, U32 - 16, 32) && EndOf(r, U32 - 16, 32) > r.size
  {
    assert AlignUp(PAGE + 40, 32) == PAGE + 64;
    assert AlignUp(PAGE + HEADER, 1) == PAGE + HEADER;
  }

  /**
   * In a region of whole pages that is larger than the alignment, the first aligned address past the header
   * is inside.
   */
  lemma AlignRoom(a: nat, size: nat)
    requires PowerOfTwo(a) && a < size && size % PAGE == 0
    ensures HEADER + a <= size
  {
    assert Pow2(11) == 2048 && Pow2(12) == PAGE by { assert Pow2(6) == 64; }
    if a >= PAGE {
      var q := PowerDivides(a, 12);
      assert size == (size / PAGE) * PAGE;
    } else if a > 2048 {
      var q := PowerDivides(a, 11);
    }
  }

  /** Nothing wraps when size and alignment together stay below 2^32. */
  lemma NoWrap(r: Region, size: nat, a: nat)
    requires RegionOk(r) && PowerOfTwo(a) && 0 < size && size + a < U32 && size + a <= r.size
    requires r.used == HEADER || size + a <= r.size - r.used
    ensures EndOf(r, size, a) < U32
  {
    AlignRoom(a, r.size);
    hide AlignUp, PowerOfTwo;
  }

  /** An accepted block that does not wrap: its address is where the padding ends, inside the region. */
  lemma AddressIs(r: Region, size: nat, a: nat)
    requires RegionOk(r) && PowerOfTwo(a) && a < U32 && 0 < size < U32 && EndOf(r, size, a) <= r.size
    ensures Wrap(AlignUp(Cursor(r), a)) == r.base + r.used + Pad(r, a) && Needed(r, size, a) == Pad(r, a) + size
    ensures (r.base + r.used + Pad(r, a)) % a == 0
  {
    NeededIs(r, size, a);
    assert (Cursor(r) + Pad(r, a)) % a == 0;
    hide AlignUp, PowerOfTwo, Needed;
    WrapSmall(r.base + r.used);
    WrapSmall(r.base + r.used + Pad(r, a));
    WrapSmall(Pad(r, a) + size);
  }

  lemma EndIs(r: Region, size: nat, a: nat)
    requires a > 0 && RegionOk(r)
    ensures EndOf(r, size, a) == r.used + Pad(r, a) + size && r.base > 0
  {
  }

  /** Refused without wrapping: padding and size do not fit behind what is used. */
  lemma RefusedMeans(r: Region, size: nat, a: nat)
    requires RegionOk(r) && PowerOfTwo(a) && a < U32 && 0 < size < U32 && EndOf(r, size, a) < U32
             && !Accepts(r, size, a)
    ensures Needed(r, size, a) > r.size - r.used
  {
    hide AlignUp, PowerOfTwo, Needed, Pad, EndOf, Wrap, RegionOk;
    NeededIs(r, size, a);
    EndIs(r, size, a);
    WrapSmall(EndOf(r, size, a));
    assert EndOf(r, size, a) > r.size;
    WrapSmall(Pad(r, a) + size);
  }

  /** The last region with another amount in use. */
  function Used(rs: seq<Region>, used: nat): (now: seq<Region>)
    requires rs != []
    ensures |now| == |rs|
  {
    rs[|rs| - 1 := rs[|rs| - 1].(used := used)]
  }

  lemma LastOk(rs: seq<Region>, min: nat, was: seq<Region>)
    requires RegionsOk(rs) && (rs != [] || Roomy(was, rs, min))
    ensures rs != [] && RegionOk(rs[|rs| - 1])
  {
  }

  lemma NeedBelow(r: Region, size: nat, a: nat)
    requires a > 0
    ensures Needed(r, size, a) < U32
  {
  }

  /** The region found for size and alignment: without wrapping, the block ends below 2^32 in it. */
  lemma FirstRoom(was: seq<Region>, now: seq<Region>, size: nat, a: nat)
    requires RegionsOk(now) && PowerOfTwo(a) && 0 < a && 0 < size && size + a < U32 && Roomy(was, now, size + a)
    ensures size + a <= now[|now| - 1].size && EndOf(now[|now| - 1], size, a) < U32
  {
    LastOk(now, size + a, was);
    hide RegionsOk, RegionOk, EndOf;
    NoWrap(now[|now| - 1], size, a);
  }

  /** A second region, asked for because the first had no room: again the block ends below 2^32. */
  lemma SecondRoom(was: seq<Region>, now: seq<Region>, size: nat, a: nat)
    requires RegionsOk(was) && RegionsOk(now) && was != [] && PowerOfTwo(a) && 0 < a && 0 < size && size + a < U32
    requires var r := was[|was| - 1];
             size + a <= r.size && EndOf(r, size, a) < U32 && !Accepts(r, size, a)
               && Roomy(was, now, Needed(r, size, a))
    ensures EndOf(now[|now| - 1], size, a) < U32
  {
    LastOk(was, 0, was);
    LastOk(now, Needed(was[|was| - 1], size, a), was);
    hide RegionsOk, RegionOk, EndOf, Accepts, Needed;
    RefusedMeans(was[|was| - 1], size, a);
    NoWrap(now[|now| - 1], size, a);
  }

  lemma StillInside(rs: seq<Region>, used: nat)
    requires RegionsOk(rs) && rs != [] && used <= rs[|rs| - 1].size
    ensures var now := Used(rs, used); forall i :: 0 <= i < |now| ==> now[i].base + now[i].used <= U32
  {
    assert forall i :: 0 <= i < |rs| ==> RegionOk(rs[i]);
  }

  /** A block that wraps lies in no region: it ends past the address space, or sits at address zero. */
  lemma Misplaced(r: Region, size: nat, a: nat, now: seq<Region>)
    requires RegionOk(r) && PowerOfTwo(a) && a < U32 && 0 < size < U32 && EndOf(r, size, a) >= U32
    requires forall i :: 0 <= i < |now| ==> now[i].base + now[i].used <= U32
    ensures !Placed(now, Block(Wrap(AlignUp(Cursor(r), a)), size))
  {
    AlignBelow(Cursor(r), a);
    CursorIs(r);
    AlignZero(a);
    var cur, up := Cursor(r), AlignUp(Cursor(r), a);
    assert Pad(r, a) == up - cur;
    hide AlignUp, PowerOfTwo, Cursor, RegionOk, Wrap, Pad, Placed;
    Outside(r.base, r.used, up - cur, size, cur, up);
    hide EndOf;
    Unplaced(now, Block(Wrap(up), size));
  }

  lemma AlignZero(a: nat)
    requires a > 0
    ensures AlignUp(0, a) == 0
  {
  }

  lemma Outside(base: nat, used: nat, pad: nat, size: nat, cur: nat, up: nat)
    requires base > 0 && (cur == base + used || cur == 0) && up == cur + pad <= U32 && used + pad + size >= U32
    requires cur == 0 ==> pad == 0
    ensures Wrap(up) == 0 || Wrap(up) + size > U32
  {
    if up < U32 {
      WrapSmall(up);
    }
  }

  lemma Unplaced(rs: seq<Region>, b: Block)
    requires forall i :: 0 <= i < |rs| ==> rs[i].base + rs[i].used <= U32
    requires b.addr == 0 || b.addr + b.size > U32
    ensures !Placed(rs, b)
  {
  }

  lemma CursorIs(r: Region)
    requires RegionOk(r)
    ensures r.base > 0 && (Cursor(r) == r.base + r.used || Cursor(r) == 0)
  {
  }

  class Arena {
    var regions: seq<Region>
    var regionCount: nat
    var bytesCommitted: nat
    var bytesUsed: nat
    var peak: nat
    /** Blocks handed out and not rewound. */
    ghost var live: set<Block>

    ghost predicate Valid()
      reads this
    {
      && RegionsOk(regions) && BlocksOk(regions, live)
      && regionCount == |regions| && bytesCommitted == Committed(regions) && bytesUsed == InUse(regions)
      && bytesUsed <= peak
    }

    constructor ()
      ensures Valid() && regions == [] && live == {}
    {
      regions, regionCount, bytesCommitted, bytesUsed, peak, live := [], 0, 0, 0, 0, {};
    }

    /** Doubles the last region's size until the request fits; a doubling that wraps falls back to the request. */
    method NextSize(min: nat) returns (next: nat)
      requires Valid() && min < U32
      ensures PAGE <= next < U32 && min <= next
      ensures regions != [] ==> regions[|regions| - 1].size <= next
    {
      hide BlocksOk;
      next := 0;
      if regions != [] {
        next := regions[|regions| - 1].size;
        assert RegionOk(regions[|regions| - 1]);
      }
      if next < PAGE {
        next := PAGE;
      }
      ghost var floor := next;
      while next < min
        invariant floor <= next < U32 && PAGE <= next
        decreases min - next
      {
        var doubled := Wrap(next * 2);
        if doubled < next {
          next := min;
        } else {
          next := doubled;
        }
      }
    }

    /** The last region if it has room, else a new one. */
    method EnsureRegion(min: nat, kernel: Kernel) returns (ok: bool)
      requires Valid() && min < U32 && KernelOk(kernel)
      modifies this
      ensures Valid() && live == old(live) && peak == old(peak) && bytesUsed == old(bytesUsed)
      ensures Extends(old(regions), regions)
      ensures !ok ==> regions == old(regions)
      ensures ok ==> Roomy(old(regions), regions, min)
    {
      hide RegionsOk, BlocksOk, Wrap, PageUp, AlignUp, Committed, InUse, Extends, RegionOk;
      ExtendsSelf(regions);
      if regions != [] {
        UsedFits(regions);
        var tail := regions[|regions| - 1];
        if tail.size - tail.used >= min {
          return true;
        }
      }
      var next := NextSize(min);
      var size := PageUp(next);
      PageUpFits(next);
      var base := kernel(regions, size);
      if base == 0 {
        return false;
      }
      assert MapOk(regions, base, size);
      RegionAdded(regions, live, base, size);
      CountersFit(regions + [Region(base, size, HEADER)]);
      RegionsFew(regions + [Region(base, size, HEADER)]);
      WrapSmall(regionCount + 1);
      WrapSmall(bytesCommitted + size);
      regions := regions + [Region(base, size, HEADER)];
      regionCount := Wrap(regionCount + 1);
      bytesCommitted := Wrap(bytesCommitted + size);
      return true;
    }

    /** Takes the next bytes of the last region. */
    method Bump(pad: nat, size: nat)
      requires Valid() && regions != [] && size > 0
      requires regions[|regions| - 1].used + pad + size <= regions[|regions| - 1].size
      modifies this
      ensures Valid() && regions == Used(old(regions), old(regions)[|old(regions)| - 1].used + pad + size)
      ensures var r := old(regions)[|old(regions)| - 1];
              live == old(live) + {Block(r.base + r.used + pad, size)}
                && !Placed(old(regions), Block(r.base + r.used + pad, size))
      ensures Extends(old(regions), regions)
    {
      hide RegionsOk, BlocksOk, Placed;
      var last := |regions| - 1;
      var r := regions[last];
      BumpOk(regions, live, pad, size);
      CountersBump(regions, r.used + pad + size);
      CountersFit(regions[last := r.(used := r.used + pad + size)]);
      regions := regions[last := r.(used := r.used + pad + size)];
      bytesUsed := Wrap(bytesUsed + (pad + size));
      live := live + {Block(r.base + r.used + pad, size)};
      if bytesUsed > peak {
        peak := bytesUsed;
      }
    }

    /** Takes an accepted block. The arena is sound afterwards exactly if the block does not wrap. */
    method Take(size: nat, a: nat) returns (addr: nat)
      requires Valid() && regions != [] && PowerOfTwo(a) && 0 < a < U32 && 0 < size < U32
      requires Accepts(regions[|regions| - 1], size, a)
      modifies this
      ensures live == old(live) + {Block(addr, size)}
      ensures Valid() <==> EndOf(old(regions)[|old(regions)| - 1], size, a) < U32
      ensures Valid() ==>
                addr % a == 0 && !Placed(old(regions), Block(addr, size)) && Extends(old(regions), regions) && addr > 0
    {
      hide RegionsOk, BlocksOk, Placed, AlignUp, PowerOfTwo, Needed, EndOf, Committed, InUse, Extends, Cursor, Wrap,
           RegionOk;
      var last := |regions| - 1;
      var r := regions[last];
      LastOk(regions, 0, []);
      var needed := Needed(r, size, a);
      addr := Wrap(AlignUp(Cursor(r), a));
      AcceptsExactly(r, size, a);
      NeededIs(r, size, a);
      if EndOf(r, size, a) < U32 {
        EndIs(r, size, a);
        AddressIs(r, size, a);
        Bump(needed - size, size);
        return;
      }
      regions := Used(regions, Wrap(r.used + needed));
      bytesUsed := Wrap(bytesUsed + needed);
      live := live + {Block(addr, size)};
      if bytesUsed > peak {
        peak := bytesUsed;
      }
      StillInside(old(regions), Wrap(r.used + needed));
      Misplaced(r, size, a, regions);
      if Valid() {
        BlockPlaced(regions, live, Block(addr, size));
      }
    }

    /**
     * A block of the given size and alignment, or zero, for every 32-bit size and alignment. The
     * arena is sound afterwards exactly if the block, had nothing wrapped, ends below 2^32 in the
     * region at the end of the list; for alignments up to a page that is what size and alignment say.
     */
    method Alloc(size: nat, align: nat, kernel: Kernel) returns (addr: nat, ghost taken: bool, ghost at: Region)
      requires Valid() && KernelOk(kernel) && size < U32 && align < U32
      modifies this
      ensures size == 0 || (align > 0 && !PowerOfTwo(align)) ==> !taken && regions == old(regions)
      ensures !taken ==>
                && addr == 0 && Valid() && Extends(old(regions), regions) && live == old(live)
                && bytesUsed == old(bytesUsed)
      ensures taken ==>
                && live == old(live) + {Block(addr, size)} && RegionOk(at)
                && Accepts(at, size, if align == 0 then 1 else align)
      ensures Valid() <==> (taken ==> EndOf(at, size, if align == 0 then 1 else align) < U32)
      ensures taken && Valid() ==>
                && addr != 0 && (align > 0 ==> addr % align == 0) && Extends(old(regions), regions)
                && Placed(regions, Block(addr, size)) && !Placed(old(regions), Block(addr, size))
      ensures size + (if align == 0 then 1 else align) < U32 ==> Valid()
      ensures taken && align <= PAGE && U32 <= size + (if align == 0 then 1 else align) ==> !Valid()
    {
      hide RegionsOk, BlocksOk, RegionOk, Extends, Placed, AlignUp, PowerOfTwo, Committed, InUse, EndOf, Accepts;
      ExtendsSelf(regions);
      PowerOne();
      var a := if align == 0 then 1 else align;
      taken, at := false, Region(0, 0, 0);
      if size == 0 || !PowerOfTwo(a) {
        return 0, taken, at;
      }
      var ok := FindRoom(size, a, kernel);
      if !ok {
        return 0, taken, at;
      }
      ghost var now := regions;
      taken, at := true, regions[|regions| - 1];
      LastOk(regions, 0, []);
      if a <= PAGE && U32 <= size + a {
        SmallAlignments(at, size, a);
        AcceptsExactly(at, size, a);
      }
      addr := Take(size, a);
      if Valid() {
        BlockPlaced(regions, live, Block(addr, size));
        NotPlaced(old(regions), now, Block(addr, size));
        ExtendsTrans(old(regions), now, regions);
      }
    }

    /** A last region that passes the test: the first one tried, or a second. */
    method FindRoom(size: nat, a: nat, kernel: Kernel) returns (ok: bool)
      requires Valid() && KernelOk(kernel) && PowerOfTwo(a) && 0 < a < U32 && 0 < size < U32
      modifies this
      ensures Valid() && live == old(live) && bytesUsed == old(bytesUsed) && Extends(old(regions), regions)
      ensures ok ==> regions != [] && Accepts(regions[|regions| - 1], size, a)
      ensures ok && size + a < U32 ==> EndOf(regions[|regions| - 1], size, a) < U32
    {
      hide RegionsOk, BlocksOk, RegionOk, Extends, PowerOfTwo, Committed, InUse, Wrap, EndOf, Accepts, Roomy;
      ExtendsSelf(regions);
      WrapBelow(size + a);
      ok := EnsureRegion(Wrap(size + a), kernel);
      if !ok {
        return;
      }
      ghost var was := regions;
      LastOk(regions, Wrap(size + a), old(regions));
      if size + a < U32 {
        WrapSmall(size + a);
        FirstRoom(old(regions), regions, size, a);
      }
      if !Accepts(regions[|regions| - 1], size, a) {
        ok := SecondTry(size, a, kernel);
        ExtendsTrans(old(regions), was, regions);
      }
    }

    /** Asks for a region with room for exactly what the first try needed. */
    method SecondTry(size: nat, a: nat, kernel: Kernel) returns (ok: bool)
      requires Valid() && KernelOk(kernel) && PowerOfTwo(a) && 0 < a < U32 && 0 < size < U32 && regions != []
      requires !Accepts(regions[|regions| - 1], size, a)
      modifies this
      ensures Valid() && live == old(live) && bytesUsed == old(bytesUsed) && Extends(old(regions), regions)
      ensures ok ==> regions != [] && Accepts(regions[|regions| - 1], size, a)
      ensures var r := old(regions)[|old(regions)| - 1];
              ok && size + a < U32 && size + a <= r.size && EndOf(r, size, a) < U32 ==>
                  EndOf(regions[|regions| - 1], size, a) < U32
    {
      hide RegionsOk, BlocksOk, RegionOk, Extends, PowerOfTwo, Committed, InUse, Wrap, EndOf, Accepts, Roomy, Needed;
      ghost var r := regions[|regions| - 1];
      var needed := Needed(regions[|regions| - 1], size, a);
      NeedBelow(r, size, a);
      ok := EnsureRegion(needed, kernel);
      if !ok {
        return;
      }
      LastOk(regions, needed, old(regions));
      if size + a < U32 && size + a <= r.size && EndOf(r, size, a) < U32 {
        SecondRoom(old(regions), regions, size, a);
      }
      ok := Accepts(regions[|regions| - 1], size, a);
    }

    method MakeCheckpoint() returns (cp: Checkpoint)
      ensures cp == CheckpointOf(regions)
    {
      if regions == [] {
        cp := Nowhere;
      } else {
        cp := At(regions[|regions| - 1].base, regions[|regions| - 1].used);
      }
    }

    /** Gives back the regions behind position k; the counters lose exactly what those contributed. */
    method FreeBehind(k: nat)
      requires Valid() && k < |regions|
      modifies this
      ensures Valid() && regions == old(regions)[..k + 1] && live == Surviving(old(live), regions) && peak == old(peak)
    {
      hide RegionsOk, BlocksOk, RegionOk, Surviving, InUse, Committed, Wrap;
      CountersFit(regions);
      RegionsFew(regions);
      UsedFits(regions);
      ghost var all := regions;
      var i := k + 1;
      CountersGrow(all, k + 1, |all|);
      CountersGrow(all, 0, k + 1);
      assert all[..|all|] == all;
      while i < |regions|
        invariant k + 1 <= i <= |regions| && regions == all && live == old(live) && peak == old(peak)
        invariant bytesUsed == InUse(all) - InUse(all[..i]) + InUse(all[..k + 1])
        invariant bytesCommitted == Committed(all) - Committed(all[..i]) + Committed(all[..k + 1])
        invariant regionCount == |all| - i + k + 1
      {
        var r := regions[i];
        CountersNext(all, i);
        CountersGrow(all, i + 1, |all|);
        CountersGrow(all, k + 1, i);
        var contributed := if r.used > HEADER then r.used - HEADER else 0;
        assert contributed <= bytesUsed && r.size <= bytesCommitted;
        bytesUsed := Less(bytesUsed, contributed);
        WrapSmall(regionCount - 1);
        regionCount := Wrap(regionCount - 1);
        WrapSmall(bytesCommitted - r.size);
        bytesCommitted := Wrap(bytesCommitted - r.size);
        i := i + 1;
      }
      Shortened(all, live, k + 1);
      regions := regions[..k + 1];
      live := Surviving(live, regions);
    }

    /** Lowers the use of the last region. */
    method LowerTo(used: nat)
      requires Valid() && regions != [] && HEADER <= used <= regions[|regions| - 1].used
      modifies this
      ensures Valid() && regions == old(regions)[|old(regions)| - 1 := old(regions)[|old(regions)| - 1].(used := used)]
      ensures live == Surviving(old(live), regions) && peak == old(peak)
    {
      hide RegionsOk, BlocksOk, Surviving;
      var last := |regions| - 1;
      CountersFit(regions);
      CountersBump(regions, used);
      Lowered(regions, live, used);
      CountersFit(regions[last := regions[last].(used := used)]);
      var delta := regions[last].used - used;
      regions := regions[last := regions[last].(used := used)];
      assert delta <= bytesUsed;
      bytesUsed := Less(bytesUsed, delta);
      live := Surviving(live, regions);
    }

    method Rewind(cp: Checkpoint)
      requires Valid() && (cp.At? ==> HEADER <= cp.used)
      modifies this
      ensures Valid() && regions == Rewound(old(regions), cp) && live == Surviving(old(live), regions)
    {
      hide RegionsOk, BlocksOk, Surviving;
      AllSurvive(regions, live);
      if cp.Nowhere? {
        Reset();
        return;
      }
      var k := 0;
      while k < |regions| && regions[k].base != cp.base
        invariant 0 <= k <= |regions| && forall j :: 0 <= j < k ==> regions[j].base != cp.base
      {
        k := k + 1;
      }
      FoundAt(regions, cp.base, k);
      if k == |regions| {
        return;
      }
      FreeBehind(k);
      ghost var kept, left := regions, live;
      if cp.used > regions[k].used {
        return;
      }
      LowerTo(cp.used);
      SurvivingTwice(old(live), kept, regions);
    }

    /** Keeps the first region, empty. */
    method Reset()
      requires Valid()
      modifies this
      ensures Valid() && regions == Rewound(old(regions), Nowhere) && live == Surviving(old(live), regions)
              && peak == old(peak)
    {
      hide RegionsOk, BlocksOk, Surviving;
      AllSurvive(regions, live);
      if regions == [] {
        return;
      }
      UsedFits(regions);
      FreeBehind(0);
      ghost var kept := regions;
      UsedFits(regions);
      LowerTo(HEADER);
      SurvivingTwice(old(live), kept, regions);
      EmptyUse(regions);
    }
  }

  /** Subtraction that stops at zero, as the counters are lowered. */
  function Less(a: nat, b: nat): nat {
    if b <= a then a - b else 0
  }

  lemma ExtendsSelf(rs: seq<Region>)
    ensures Extends(rs, rs)
  {
  }

  /** Every region takes a page at least, so their number does not wrap either. */
  lemma {:induction false} RegionsFew(rs: seq<Region>)
    requires RegionsOk(rs)
    ensures |rs| <= Committed(rs)
    ensures |rs| < U32
  {
    CountersFit(rs);
    if rs != [] {
      assert RegionOk(rs[|rs| - 1]);
      RegionsFew(rs[..|rs| - 1]);
    }
  }

  lemma PowerOne()
    ensures PowerOfTwo(1)
  {
  }

  /** Where no block was placed later, none was placed before. */
  lemma NotPlaced(rs: seq<Region>, now: seq<Region>, b: Block)
    requires Extends(rs, now) && !Placed(now, b)
    ensures !Placed(rs, b)
  {
    if Placed(rs, b) {
      PlacedLater(rs, now, b);
    }
  }

  lemma BlockPlaced(rs: seq<Region>, live: set<Block>, b: Block)
    requires BlocksOk(rs, live) && b in live
    ensures Placed(rs, b)
  {
  }

  function CheckpointOf(rs: seq<Region>): Checkpoint {
    if rs == [] then Nowhere else At(rs[|rs| - 1].base, rs[|rs| - 1].used)
  }

  /** Where the region with a base address is; the length if there is none. */
  function Find(rs: seq<Region>, base: nat): (k: nat)
    ensures k <= |rs| && (k < |rs| ==> rs[k].base == base) && forall j :: 0 <= j < k ==> rs[j].base != base
  {
    if rs == [] || rs[0].base == base then 0 else 1 + Find(rs[1..], base)
  }

  lemma FoundAt(rs: seq<Region>, base: nat, k: nat)
    requires k <= |rs| && (k < |rs| ==> rs[k].base == base) && forall j :: 0 <= j < k ==> rs[j].base != base
    ensures Find(rs, base) == k
  {
  }

  /** What a rewind leaves of the regions. */
  function Rewound(rs: seq<Region>, cp: Checkpoint): seq<Region> {
    match cp
    case Nowhere => if rs == [] then [] else [rs[0].(used := HEADER)]
    case At(base, used) =>
      var k := Find(rs, base);
      if k == |rs| then rs
      else if used > rs[k].used then rs[..k + 1]
      else rs[..k] + [rs[k].(used := used)]
  }

  /** The blocks that still lie in used space. */
  ghost function Surviving(live: set<Block>, rs: seq<Region>): set<Block> {
    set b | b in live && Placed(rs, b)
  }

  /**
   * Rewinding to a checkpoint that is still valid restores the regions, and with them every counter, and
   * the blocks.
   */
  lemma RewindRestores(rs: seq<Region>, saved: set<Block>, now: seq<Region>, live: set<Block>)
    requires rs != [] && Since(rs, saved, now, live) && RegionsOk(now) && BlocksOk(rs, saved)
    ensures Rewound(now, CheckpointOf(rs)) == rs && Surviving(live, rs) == saved
  {
    var k := |rs| - 1;
    assert now[k].base == rs[k].base;
    forall j | 0 <= j < k ensures now[j].base != rs[k].base {
      assert RegionOk(now[j]) && RegionOk(now[k]) && Apart(now[j], now[k]);
    }
    FoundAt(now, rs[k].base, k);
    assert now[..k] == rs[..k];
    assert rs[..k] + [rs[k]] == rs;
  }

  /** Checkpoints nest: an earlier one stays restorable up to a later one's, and after rewinding to that. */
  lemma Nested(rs: seq<Region>, saved: set<Block>, mid: seq<Region>, held: set<Block>, now: seq<Region>,
               live: set<Block>)
    requires Since(rs, saved, mid, held) && mid != [] && Since(mid, held, now, live) && RegionsOk(now)
             && BlocksOk(mid, held)
    ensures Since(rs, saved, now, live)
    ensures Since(rs, saved, Rewound(now, CheckpointOf(mid)), Surviving(live, mid))
  {
    hide Rewound, CheckpointOf, Extends, Placed, RegionsOk, BlocksOk, Surviving;
    RewindRestores(mid, held, now, live);
    SinceGrows(rs, saved, mid, held, now, live);
  }

  /** A checkpoint of the empty arena restores it exactly when nothing was mapped since. */
  lemma RewindToNowhere(now: seq<Region>)
    ensures Rewound(now, CheckpointOf([])) == [] <==> now == []
    ensures InUse(Rewound(now, CheckpointOf([]))) == 0
  {
    if now != [] {
      EmptyUse([now[0].(used := HEADER)]);
    }
  }

  lemma EmptyUse(rs: seq<Region>)
    requires |rs| == 1 && rs[0].used == HEADER
    ensures InUse(rs) == 0
  {
    assert rs[..0] == [];
  }

  lemma CountersNext(rs: seq<Region>, i: nat)
    requires i < |rs|
    ensures Committed(rs[..i + 1]) == Committed(rs[..i]) + rs[i].size
    ensures InUse(rs[..i + 1]) == InUse(rs[..i]) + (rs[i].used - HEADER)
  {
    assert rs[..i + 1][..i] == rs[..i];
  }

  lemma {:induction false} CountersGrow(rs: seq<Region>, i: nat, j: nat)
    requires RegionsOk(rs) && i <= j <= |rs|
    ensures Committed(rs[..i]) <= Committed(rs[..j]) && InUse(rs[..i]) <= InUse(rs[..j])
    ensures 0 <= InUse(rs[..i])
  {
    if i < j {
      CountersGrow(rs, i, j - 1);
      CountersNext(rs, j - 1);
      assert RegionOk(rs[j - 1]);
    } else {
      assert RegionsOk(rs[..i]);
      InUseBelow(rs[..i]);
    }
  }

  lemma Shortened(rs: seq<Region>, live: set<Block>, n: nat)
    requires RegionsOk(rs) && BlocksOk(rs, live) && n <= |rs|
    ensures RegionsOk(rs[..n]) && BlocksOk(rs[..n], Surviving(live, rs[..n]))
  {
  }

  lemma Lowered(rs: seq<Region>, live: set<Block>, used: nat)
    requires RegionsOk(rs) && BlocksOk(rs, live) && rs != [] && HEADER <= used <= rs[|rs| - 1].used
    ensures var now := rs[|rs| - 1 := rs[|rs| - 1].(used := used)];
            RegionsOk(now) && BlocksOk(now, Surviving(live, now))
  {
    var last := |rs| - 1;
    var now := rs[last := rs[last].(used := used)];
    forall i, j | 0 <= i < j < |now| ensures Apart(now[i], now[j]) {
      assert Apart(rs[i], rs[j]);
    }
  }

  lemma AllSurvive(rs: seq<Region>, live: set<Block>)
    requires BlocksOk(rs, live)
    ensures Surviving(live, rs) == live
  {
  }

  /** Shrinking in two steps leaves what shrinking at once leaves. */
  lemma SurvivingTwice(live: set<Block>, kept: seq<Region>, now: seq<Region>)
    requires kept != [] && |now| == |kept| && now[..|kept| - 1] == kept[..|kept| - 1]
    requires now[|kept| - 1] == kept[|kept| - 1].(used := now[|kept| - 1].used)
             && now[|kept| - 1].used <= kept[|kept| - 1].used
    ensures Surviving(Surviving(live, kept), now) == Surviving(live, now)
  {
    forall b | b in live && Placed(now, b) ensures Placed(kept, b) {
      var i :| 0 <= i < |now| && PlacedIn(now[i], b);
      if i < |kept| - 1 {
        assert now[i] == now[..|kept| - 1][i] == kept[..|kept| - 1][i];
      }
      assert PlacedIn(kept[i], b);
    }
  }
}
