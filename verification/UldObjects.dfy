/** What the linker reads: objects with sections, symbols and relocations, and where everything goes. */
module UldObjects {
  import opened Machine
  import opened UldLayout
  import opened UldPatch

  const BASE_ADDR := 0x4004_8000
  /** ELF header and one program header. */
  const HEADERS := 84
  const R_386_32 := 1
  const R_386_PC32 := 2

  datatype Area = Text | Rodata | Data | Bss

  /** A section an object places, by area and position, or one the linker does not place. */
  datatype Sec = Sec(area: Area, k: nat) | Foreign

  datatype Symbol = Symbol(name: seq<Byte>, global: bool, defined: bool, sec: Sec, value: nat)
  datatype Entry = Entry(offset: nat, kind: nat, symbol: nat)
  datatype RelSection = RelSection(target: Sec, entries: seq<Entry>)

  /** An object: at most one text, data and bss section, any number of read-only ones. */
  datatype Object = Object(text: seq<seq<Byte>>, rodata: seq<seq<Byte>>, data: seq<seq<Byte>>, bss: seq<nat>,
                           hasSymtab: bool, symbols: seq<Symbol>, rels: seq<RelSection>)

  /** The bytes of the loaded sections of an object in an area. */
  function Bytes(o: Object, a: Area): seq<seq<Byte>> {
    match a
    case Text => o.text
    case Rodata => o.rodata
    case Data => o.data
    case Bss => []
  }

  function Lengths(parts: seq<seq<Byte>>): (ls: seq<nat>)
    ensures |ls| == |parts| && forall k :: 0 <= k < |parts| ==> ls[k] == |parts[k]|
  {
    seq(|parts|, k requires 0 <= k < |parts| => |parts[k]|)
  }

  function Parts(o: Object, a: Area): seq<nat> {
    if a == Bss then o.bss else Lengths(Bytes(o, a))
  }

  /** All section sizes of an area, object after object. */
  function Sizes(objs: seq<Object>, a: Area): seq<nat> {
    if objs == [] then [] else Sizes(objs[..|objs| - 1], a) + Parts(objs[|objs| - 1], a)
  }

  /** The position in that list of a section of an object. */
  function Position(objs: seq<Object>, i: nat, a: Area, k: nat): nat
    requires i < |objs| && k < |Parts(objs[i], a)|
  {
    |Sizes(objs[..i], a)| + k
  }

  lemma {:induction false} SizesPrefix(objs: seq<Object>, i: nat, a: Area)
    requires i <= |objs|
    ensures Sizes(objs[..i], a) <= Sizes(objs, a)
  {
    if i < |objs| {
      SizesPrefix(objs[..|objs| - 1], i, a);
      assert objs[..|objs| - 1][..i] == objs[..i];
    } else {
      assert objs[..i] == objs;
    }
  }

  lemma PositionIs(objs: seq<Object>, i: nat, a: Area, k: nat)
    requires i < |objs| && k < |Parts(objs[i], a)|
    ensures Position(objs, i, a, k) < |Sizes(objs, a)|
            && Sizes(objs, a)[Position(objs, i, a, k)] == Parts(objs[i], a)[k]
  {
    hide Parts;
    SizesPrefix(objs, i + 1, a);
    assert objs[..i + 1][..i] == objs[..i];
    assert Sizes(objs[..i + 1], a) == Sizes(objs[..i], a) + Parts(objs[i], a);
    hide Sizes;
    var all, head, own := Sizes(objs, a), Sizes(objs[..i], a), Parts(objs[i], a);
    assert head + own <= all;
    assert (head + own)[|head| + k] == own[k];
  }

  /** Different sections of an area have different positions, in object order. */
  lemma PositionsOrdered(objs: seq<Object>, i: nat, j: nat, a: Area, k: nat, m: nat)
    requires i < j < |objs| && k < |Parts(objs[i], a)| && m < |Parts(objs[j], a)|
    ensures Position(objs, i, a, k) < Position(objs, j, a, m)
  {
    SizesPrefix(objs[..j], i + 1, a);
    assert objs[..j][..i + 1] == objs[..i + 1] && objs[..i + 1][..i] == objs[..i];
    assert Sizes(objs[..i + 1], a) == Sizes(objs[..i], a) + Parts(objs[i], a);
  }

  /** Where an area begins, counted from the end of the headers. */
  function AreaStart(objs: seq<Object>, a: Area): nat {
    match a
    case Text => 0
    case Rodata => Total(Sizes(objs, Text))
    case Data => Total(Sizes(objs, Text)) + Total(Sizes(objs, Rodata))
    case Bss => Total(Sizes(objs, Text)) + Total(Sizes(objs, Rodata)) + Total(Sizes(objs, Data))
  }

  function FileSize(objs: seq<Object>): nat {
    HEADERS + AreaStart(objs, Bss)
  }

  /** Offset of a section in the image file; bss sections lie behind its end. */
  function FileOffset(objs: seq<Object>, i: nat, a: Area, k: nat): nat
    requires i < |objs| && k < |Parts(objs[i], a)|
  {
    PositionIs(objs, i, a, k);
    HEADERS + AreaStart(objs, a) + Offset(Sizes(objs, a), Position(objs, i, a, k))
  }

  /** The 32-bit address at which an area begins, each from the one before. */
  function BaseOf(objs: seq<Object>, a: Area): nat {
    var text := Wrap(BASE_ADDR + HEADERS);
    var rodata := Wrap(text + Total(Sizes(objs, Text)));
    var data := Wrap(rodata + Total(Sizes(objs, Rodata)));
    var bss := Wrap(data + Total(Sizes(objs, Data)));
    match a
    case Text => text
    case Rodata => rodata
    case Data => data
    case Bss => bss
  }

  /** The address of a section; one that is not placed counts from zero. */
  function Address(objs: seq<Object>, i: nat, s: Sec): nat
    requires i < |objs| && (s.Sec? ==> s.k < |Parts(objs[i], s.area)|)
  {
    if s.Foreign? then 0 else
      PositionIs(objs, i, s.area, s.k);
      Wrap(BaseOf(objs, s.area) + Offset(Sizes(objs, s.area), Position(objs, i, s.area, s.k)))
  }

  lemma BaseIs(objs: seq<Object>, a: Area)
    ensures BaseOf(objs, a) == Wrap(BASE_ADDR + HEADERS + AreaStart(objs, a))
  {
    hide Wrap, Total, Sizes;
    var text, rodata, data := Total(Sizes(objs, Text)), Total(Sizes(objs, Rodata)), Total(Sizes(objs, Data));
    WrapAdd(BASE_ADDR + HEADERS, text);
    WrapAdd(BASE_ADDR + HEADERS + text, rodata);
    WrapAdd(BASE_ADDR + HEADERS + text + rodata, data);
  }

  /** Whatever wraps on the way, a section's address is the base address plus its file offset. */
  lemma AddressIs(objs: seq<Object>, i: nat, a: Area, k: nat)
    requires i < |objs| && k < |Parts(objs[i], a)|
    ensures Address(objs, i, Sec(a, k)) == Wrap(BASE_ADDR + FileOffset(objs, i, a, k))
  {
    hide Wrap, BaseOf, AreaStart, Offset, Sizes, Position, Parts;
    PositionIs(objs, i, a, k);
    BaseIs(objs, a);
    WrapAdd(BASE_ADDR + HEADERS + AreaStart(objs, a), Offset(Sizes(objs, a), Position(objs, i, a, k)));
  }

  lemma FitsArea(objs: seq<Object>, i: nat, a: Area, k: nat)
    requires i < |objs| && k < |Parts(objs[i], a)|
    ensures HEADERS + AreaStart(objs, a) <= FileOffset(objs, i, a, k)
    ensures FileOffset(objs, i, a, k) + Parts(objs[i], a)[k] <= HEADERS + AreaStart(objs, a) + Total(Sizes(objs, a))
    ensures (FileOffset(objs, i, a, k) - HEADERS - AreaStart(objs, a)) % ALIGN == 0
    ensures a != Bss ==> FileOffset(objs, i, a, k) + Parts(objs[i], a)[k] <= FileSize(objs)
  {
    hide Sizes, Parts, Offset, Total, Position;
    PositionIs(objs, i, a, k);
    SectionInside(Sizes(objs, a), Position(objs, i, a, k));
  }

  /** No two placed sections share a byte, loaded or not. */
  lemma PlacedApart(objs: seq<Object>, i: nat, a: Area, k: nat, j: nat, b: Area, m: nat)
    requires i < |objs| && k < |Parts(objs[i], a)| && j < |objs| && m < |Parts(objs[j], b)|
    requires (i, a, k) != (j, b, m)
    ensures || FileOffset(objs, i, a, k) + Parts(objs[i], a)[k] <= FileOffset(objs, j, b, m)
            || FileOffset(objs, j, b, m) + Parts(objs[j], b)[m] <= FileOffset(objs, i, a, k)
  {
    hide Parts, Sizes, Position, Offset, Total;
    if a == b {
      hide AreaStart;
      if i < j || (i == j && k < m) {
        PlacedBefore(objs, i, j, a, k, m);
      } else {
        PlacedBefore(objs, j, i, a, m, k);
      }
    } else {
      FitsArea(objs, i, a, k);
      FitsArea(objs, j, b, m);
      hide FileOffset;
    }
  }

  /** Within an area sections lie in object order, then in section order. */
  lemma PlacedBefore(objs: seq<Object>, i: nat, j: nat, a: Area, k: nat, m: nat)
    requires i <= j < |objs| && k < |Parts(objs[i], a)| && m < |Parts(objs[j], a)| && (i == j ==> k < m)
    ensures FileOffset(objs, i, a, k) + Parts(objs[i], a)[k] <= FileOffset(objs, j, a, m)
  {
    hide Parts, Sizes, AreaStart, Offset, Total;
    PositionIs(objs, i, a, k);
    PositionIs(objs, j, a, m);
    if i < j {
      PositionsOrdered(objs, i, j, a, k, m);
    }
    SectionsApart(Sizes(objs, a), Position(objs, i, a, k), Position(objs, j, a, m));
  }

  // ---- symbols

  datatype Def = Def(name: seq<Byte>, value: nat)
  datatype Found = Missing | Value32(value: nat)

  /** The first definition of a name. */
  function Lookup(defs: seq<Def>, name: seq<Byte>): Found {
    if defs == [] then Missing else if defs[0].name == name then Value32(defs[0].value) else Lookup(defs[1..], name)
  }

  lemma {:induction false} LookupPush(defs: seq<Def>, d: Def, name: seq<Byte>)
    ensures Lookup(defs + [d], name) ==
            if Lookup(defs, name) != Missing then Lookup(defs, name)
            else if d.name == name then Value32(d.value) else Missing
  {
    if defs == [] {
      assert defs + [d] == [d];
    } else {
      LookupPush(defs[1..], d, name);
      assert (defs + [d])[1..] == defs[1..] + [d];
    }
  }

  ghost predicate SymbolOk(o: Object, s: Symbol) {
    s.value < U32 && (s.defined && s.sec.Sec? ==> s.sec.k < |Parts(o, s.sec.area)|)
  }

  ghost predicate RelOk(o: Object, r: RelSection) {
    && (r.target.Sec? ==> r.target.k < |Parts(o, r.target.area)|)
    && forall i :: 0 <= i < |r.entries| ==> r.entries[i].offset < U32
  }

  /** Section references point at sections, as in any file a compiler writes. */
  ghost predicate ObjectOk(o: Object) {
    && (forall i :: 0 <= i < |o.symbols| ==> SymbolOk(o, o.symbols[i]))
    && (forall i :: 0 <= i < |o.rels| ==> RelOk(o, o.rels[i]))
  }

  ghost predicate ObjectsOk(objs: seq<Object>) {
    forall i :: 0 <= i < |objs| ==> ObjectOk(objs[i])
  }

  function SymbolValue(objs: seq<Object>, i: nat, s: Symbol): nat
    requires i < |objs| && SymbolOk(objs[i], s) && s.defined
  {
    Wrap(Address(objs, i, s.sec) + s.value)
  }

  /** The global definitions among the first n symbols of an object. */
  function DefsOf(objs: seq<Object>, i: nat, n: nat): seq<Def>
    requires i < |objs| && ObjectOk(objs[i]) && n <= |objs[i].symbols|
    decreases n
  {
    if n == 0 then []
    else
      var s := objs[i].symbols[n - 1];
      DefsOf(objs, i, n - 1) + if s.global && s.defined then [Def(s.name, SymbolValue(objs, i, s))] else []
  }

  /** All global definitions of the first n objects, in link order. */
  function Definitions(objs: seq<Object>, n: nat): seq<Def>
    requires n <= |objs| && ObjectsOk(objs)
    decreases n
  {
    if n == 0 then [] else
      Definitions(objs, n - 1) + if objs[n - 1].hasSymtab then DefsOf(objs, n - 1, |objs[n - 1].symbols|) else []
  }

  // ---- relocations

  datatype Verdict = Skip | Fatal | Do(fix: Fix)

  /** The value a relocation refers to: the symbol's own, or the first global definition of its name. */
  function Referred(objs: seq<Object>, i: nat, s: Symbol): Found
    requires i < |objs| && ObjectsOk(objs) && SymbolOk(objs[i], s)
  {
    if s.defined then Value32(SymbolValue(objs, i, s)) else Lookup(Definitions(objs, |objs|), s.name)
  }

  /** Where a relocation writes: 32-bit pointers wrap, so the last four offsets lie just before the section. */
  function PatchAt(section: nat, offset: nat): int {
    if offset + 4 < U32 then section + offset else section + offset - U32
  }

  function Judge(objs: seq<Object>, i: nat, t: Sec, e: Entry): Verdict
    requires i < |objs| && ObjectsOk(objs) && t.Sec? && t.k < |Parts(objs[i], t.area)| && e.offset < U32
  {
    var o := objs[i];
    if e.kind == 0 then Skip
    else if e.kind != R_386_32 && e.kind != R_386_PC32 then Fatal
    else if e.symbol >= |o.symbols| then Fatal
    else if Wrap(e.offset + 4) > Parts(o, t.area)[t.k] then Fatal
    else
      match Referred(objs, i, o.symbols[e.symbol])
      case Missing => Fatal
      case Value32(v) =>
        Do(Fix(PatchAt(FileOffset(objs, i, t.area, t.k), e.offset), e.kind == R_386_PC32, v,
               Wrap(Address(objs, i, t) + e.offset)))
  }

  /**
   * The range test wraps: what it lets through ends inside the section, and begins there if and only if
   * nothing wrapped.
   */
  lemma RangeTest(section: nat, offset: nat, size: nat)
    requires offset < U32 && Wrap(offset + 4) <= size
    ensures PatchAt(section, offset) + 4 <= section + size
    ensures section <= PatchAt(section, offset) <==> offset + 4 < U32
    ensures size < U32 ==> (section <= PatchAt(section, offset) <==> offset + 4 <= size)
  {
    if offset + 4 < U32 {
      WrapSmall(offset + 4);
    } else {
      WrapOver(offset + 4);
    }
  }

  /** A relocation to be done: object, loaded target section, entry. */
  datatype Job = Job(i: nat, t: Sec, e: Entry)

  ghost predicate JobOk(objs: seq<Object>, j: Job) {
    && j.i < |objs| && j.t.Sec? && j.t.area != Bss && j.t.k < |Parts(objs[j.i], j.t.area)| && j.e.offset < U32
  }

  ghost predicate Resolves(objs: seq<Object>, j: Job) {
    ObjectsOk(objs) && JobOk(objs, j) && Judge(objs, j.i, j.t, j.e).Do?
  }

  ghost function FixOf(objs: seq<Object>, j: Job): Fix
    requires Resolves(objs, j)
  {
    Judge(objs, j.i, j.t, j.e).fix
  }

  ghost predicate JobsOk(objs: seq<Object>, jobs: seq<Job>) {
    ObjectsOk(objs) && forall x :: 0 <= x < |jobs| ==> Resolves(objs, jobs[x])
  }

  ghost function Fixes(objs: seq<Object>, jobs: seq<Job>): (fs: seq<Fix>)
    requires JobsOk(objs, jobs)
    ensures |fs| == |jobs|
    ensures forall x :: 0 <= x < |jobs| ==> fs[x] == FixOf(objs, jobs[x])
  {
    seq(|jobs|, x requires 0 <= x < |jobs| => FixOf(objs, jobs[x]))
  }

  lemma FixIs(objs: seq<Object>, j: Job)
    requires Resolves(objs, j)
    ensures j.e.symbol < |objs[j.i].symbols| && Wrap(j.e.offset + 4) <= Parts(objs[j.i], j.t.area)[j.t.k]
    ensures var f, found := FixOf(objs, j), Referred(objs, j.i, objs[j.i].symbols[j.e.symbol]);
            && f.at == PatchAt(FileOffset(objs, j.i, j.t.area, j.t.k), j.e.offset)
            && f.place == Wrap(Address(objs, j.i, j.t) + j.e.offset)
            && found == Value32(f.symbol) && f.pc == (j.e.kind == R_386_PC32)
  {
    hide Parts, FileOffset, Referred, Wrap, Address, PatchAt;
  }

  /** The address of a patch, computed apart from its position in the image, is the base address plus that position. */
  lemma PlaceIs(at: nat, offset: nat)
    requires HEADERS <= at && offset < U32
    ensures Wrap(Wrap(BASE_ADDR + at) + offset) == Wrap(BASE_ADDR + PatchAt(at, offset))
  {
    hide Wrap;
    WrapAdd(BASE_ADDR + at, offset);
    WrapAround(BASE_ADDR + at + offset);
  }

  /**
   * A judged relocation lies inside the image, at the address its place says, and in its section unless its
   * offset wraps.
   */
  lemma FixInside(objs: seq<Object>, j: Job)
    requires Resolves(objs, j)
    ensures var f, at := FixOf(objs, j), FileOffset(objs, j.i, j.t.area, j.t.k);
            && f.at + 4 <= at + Parts(objs[j.i], j.t.area)[j.t.k] && f.at + 4 <= FileSize(objs)
            && (at <= f.at <==> j.e.offset + 4 < U32) && f.place == Wrap(BASE_ADDR + f.at)
  {
    hide Judge, FixOf, Parts, FileOffset, Referred, Wrap, AreaStart, ObjectsOk, Address, FileSize, PatchAt;
    var at := FileOffset(objs, j.i, j.t.area, j.t.k);
    FixIs(objs, j);
    FitsArea(objs, j.i, j.t.area, j.t.k);
    AddressIs(objs, j.i, j.t.area, j.t.k);
    RangeTest(at, j.e.offset, Parts(objs[j.i], j.t.area)[j.t.k]);
    PlaceIs(at, j.e.offset);
  }

  /** Relocations of one section do not touch each other. */
  ghost predicate NoOverlap(jobs: seq<Job>) {
    forall x, y :: 0 <= x < y < |jobs| && jobs[x].i == jobs[y].i && jobs[x].t == jobs[y].t ==>
      jobs[x].e.offset + 4 <= jobs[y].e.offset || jobs[y].e.offset + 4 <= jobs[x].e.offset
  }

  /** No offset is among the last four, where the range test wraps. */
  ghost predicate InRange(jobs: seq<Job>) {
    forall x :: 0 <= x < |jobs| ==> jobs[x].e.offset + 4 < U32
  }

  /** Then no two relocations of the whole link do. */
  lemma FixesApart(objs: seq<Object>, jobs: seq<Job>)
    requires JobsOk(objs, jobs) && InRange(jobs) && NoOverlap(jobs)
    ensures Apart(Fixes(objs, jobs)) && Inside(Fixes(objs, jobs), FileSize(objs))
  {
    hide Parts, FileOffset, Referred;
    var fs := Fixes(objs, jobs);
    forall x | 0 <= x < |jobs| ensures fs[x].at + 4 <= FileSize(objs) {
      FixInside(objs, jobs[x]);
    }
    forall x, y | 0 <= x < y < |jobs| ensures fs[x].at + 4 <= fs[y].at || fs[y].at + 4 <= fs[x].at {
      var a, b := jobs[x], jobs[y];
      FixInside(objs, a);
      FixInside(objs, b);
      if a.i != b.i || a.t != b.t {
        PlacedApart(objs, a.i, a.t.area, a.t.k, b.i, b.t.area, b.t.k);
      }
    }
  }

  /** The image holds the bytes of a section. */
  ghost predicate Stored(img: seq<Byte>, objs: seq<Object>, i: nat, a: Area, k: nat)
    requires i < |objs| && a != Bss && k < |Bytes(objs[i], a)|
  {
    var at := FileOffset(objs, i, a, k);
    at + |Bytes(objs[i], a)[k]| <= |img| && img[at..at + |Bytes(objs[i], a)[k]|] == Bytes(objs[i], a)[k]
  }

  ghost predicate AllStored(img: seq<Byte>, objs: seq<Object>) {
    |img| == FileSize(objs) && forall i, a, k :: 0 <= i < |objs| && a != Bss && 0 <= k < |Bytes(objs[i], a)| ==>
        Stored(img, objs, i, a, k)
  }

  lemma StoredByte(img: seq<Byte>, objs: seq<Object>, i: nat, a: Area, k: nat, p: nat)
    requires AllStored(img, objs) && i < |objs| && a != Bss && k < |Bytes(objs[i], a)| && p < |Bytes(objs[i], a)[k]|
    ensures |img| == FileSize(objs) && FileOffset(objs, i, a, k) + p < |img|
    ensures img[FileOffset(objs, i, a, k) + p] == Bytes(objs[i], a)[k][p]
  {
    hide FileOffset, FileSize, Bytes;
    var at, b := FileOffset(objs, i, a, k), Bytes(objs[i], a)[k];
    assert Stored(img, objs, i, a, k);
    hide AllStored;
    assert img[at..at + |b|] == b;
    hide Stored;
    assert img[at + p] == img[at..at + |b|][p];
  }

  /** A relocation of a section covers this byte of it. */
  ghost predicate Hits(j: Job, i: nat, a: Area, k: nat, p: nat) {
    j.i == i && j.t == Sec(a, k) && j.e.offset <= p < j.e.offset + 4
  }

  /** The relocation has a word to work on and a symbol to work with. */
  ghost predicate Sourced(objs: seq<Object>, j: Job)
    requires Resolves(objs, j)
  {
    && j.e.offset + 4 <= |Bytes(objs[j.i], j.t.area)[j.t.k]| && j.e.symbol < |objs[j.i].symbols|
    && Referred(objs, j.i, objs[j.i].symbols[j.e.symbol]).Value32?
  }

  /** What it leaves: S + A or S + A - P, with A in the section's own bytes and P the place in the image. */
  ghost function Leaves(objs: seq<Object>, j: Job): Word
    requires Resolves(objs, j) && Sourced(objs, j)
  {
    var symbol := Referred(objs, j.i, objs[j.i].symbols[j.e.symbol]).value;
    var addend := WordAt(Bytes(objs[j.i], j.t.area)[j.t.k], j.e.offset);
    var place := BASE_ADDR + FileOffset(objs, j.i, j.t.area, j.t.k) + j.e.offset;
    if j.e.kind == R_386_PC32 then Wrap(symbol + addend - place) else Wrap(symbol + addend)
  }

  /** A byte of a loaded section no relocation covers is the input byte. */
  ghost predicate ByteKept(out: seq<Byte>, objs: seq<Object>, jobs: seq<Job>, i: nat, a: Area, k: nat, p: nat)
    requires i < |objs| && a != Bss && k < |Bytes(objs[i], a)| && p < |Bytes(objs[i], a)[k]|
  {
    var at := FileOffset(objs, i, a, k) + p;
    at < |out| && ((forall x :: 0 <= x < |jobs| ==> !Hits(jobs[x], i, a, k, p)) ==> out[at] == Bytes(objs[i], a)[k][p])
  }

  /** A byte a relocation covers is its part of the word that one leaves. */
  ghost predicate ByteSet(out: seq<Byte>, objs: seq<Object>, j: Job, p: nat)
    requires Resolves(objs, j) && j.e.offset <= p < j.e.offset + 4
  {
    var at := FileOffset(objs, j.i, j.t.area, j.t.k) + p;
    Sourced(objs, j) && at < |out| && out[at] == Le32(Leaves(objs, j))[p - j.e.offset]
  }

  ghost predicate ByteLinked(out: seq<Byte>, objs: seq<Object>, jobs: seq<Job>, i: nat, a: Area, k: nat, p: nat)
    requires JobsOk(objs, jobs) && i < |objs| && a != Bss && k < |Bytes(objs[i], a)| && p < |Bytes(objs[i], a)[k]|
  {
    && ByteKept(out, objs, jobs, i, a, k, p)
    && forall x :: 0 <= x < |jobs| && Hits(jobs[x], i, a, k, p) ==> ByteSet(out, objs, jobs[x], p)
  }

  /** Every byte of the image that comes from a section. */
  ghost predicate Linked(out: seq<Byte>, objs: seq<Object>, jobs: seq<Job>)
    requires JobsOk(objs, jobs)
  {
    && |out| == FileSize(objs)
    && forall i, a, k, p ::
         0 <= i < |objs| && a != Bss && 0 <= k < |Bytes(objs[i], a)| && 0 <= p < |Bytes(objs[i], a)[k]| ==>
           ByteLinked(out, objs, jobs, i, a, k, p)
  }

  /** Subtracting a wrapped place or the place itself makes no difference. */
  lemma WrapPlace(n: int, place: nat)
    ensures Wrap(n - Wrap(place)) == Wrap(n - place)
  {
  }

  /** In range, a relocation's resolved value is the one its section's bytes call for. */
  lemma LeavesIs(img: seq<Byte>, objs: seq<Object>, j: Job)
    requires AllStored(img, objs) && Resolves(objs, j) && j.e.offset + 4 < U32
    ensures var f := FixOf(objs, j);
            && Sourced(objs, j) && f.at == FileOffset(objs, j.i, j.t.area, j.t.k) + j.e.offset && f.at + 4 <= |img|
            && Value(f, WordAt(img, f.at)) == Leaves(objs, j)
  {
    hide Judge, FixOf, FileOffset, Referred, ObjectsOk, Address, FileSize, WordAt, Wrap;
    var f, at, bytes := FixOf(objs, j), FileOffset(objs, j.i, j.t.area, j.t.k), Bytes(objs[j.i], j.t.area)[j.t.k];
    FixIs(objs, j);
    FixInside(objs, j);
    assert Parts(objs[j.i], j.t.area)[j.t.k] == |bytes|;
    assert Stored(img, objs, j.i, j.t.area, j.t.k);
    hide AllStored, Parts, Bytes;
    SlicedWord(img, at, bytes, j.e.offset);
    WrapPlace(f.symbol + WordAt(bytes, j.e.offset), BASE_ADDR + f.at);
  }

  lemma SlicedWord(img: seq<Byte>, at: nat, bytes: seq<Byte>, offset: nat)
    requires at + |bytes| <= |img| && img[at..at + |bytes|] == bytes && offset + 4 <= |bytes|
    ensures WordAt(img, at + offset) == WordAt(bytes, offset)
  {
    assert forall x :: offset <= x < offset + 4 ==> bytes[x] == img[at..at + |bytes|][x] == img[at + x];
    assert bytes[offset..offset + 4] == img[at + offset..at + offset + 4];
  }

  /** A fix touches a byte of a section exactly when its relocation is of that section and covers the byte. */
  lemma CoversIs(objs: seq<Object>, j: Job, i: nat, a: Area, k: nat, p: nat)
    requires Resolves(objs, j) && j.e.offset + 4 < U32
    requires i < |objs| && a != Bss && k < |Bytes(objs[i], a)| && p < |Bytes(objs[i], a)[k]|
    ensures Covers(FixOf(objs, j), FileOffset(objs, i, a, k) + p) <==> Hits(j, i, a, k, p)
  {
    hide Judge, FixOf, FileOffset, Referred, ObjectsOk, Address, FileSize, Wrap;
    assert |Parts(objs[i], a)| == |Bytes(objs[i], a)| && Parts(objs[i], a)[k] == |Bytes(objs[i], a)[k]|;
    FixIs(objs, j);
    FixInside(objs, j);
    if j.i != i || j.t != Sec(a, k) {
      PlacedApart(objs, j.i, j.t.area, j.t.k, i, a, k);
    }
  }

  lemma JobByte(img: seq<Byte>, objs: seq<Object>, fs: seq<Fix>, x: nat, j: Job, p: nat)
    requires AllStored(img, objs) && Apart(fs) && Inside(fs, |img|) && x < |fs|
    requires Resolves(objs, j) && j.e.offset + 4 < U32 && fs[x] == FixOf(objs, j) && j.e.offset <= p < j.e.offset + 4
    ensures ByteSet(PatchAll(img, fs), objs, j, p)
  {
    hide Judge, FixOf, FileOffset, Le32, Value, WordAt, PatchAll, Apart, Leaves, AllStored, ObjectsOk, FileSize, Wrap,
         Referred;
    LeavesIs(img, objs, j);
    PatchedByte(img, fs, x, FileOffset(objs, j.i, j.t.area, j.t.k) + p);
  }

  lemma UntouchedIs(objs: seq<Object>, jobs: seq<Job>, i: nat, a: Area, k: nat, p: nat)
    requires JobsOk(objs, jobs) && InRange(jobs)
    requires i < |objs| && a != Bss && k < |Bytes(objs[i], a)| && p < |Bytes(objs[i], a)[k]|
    requires forall x :: 0 <= x < |jobs| ==> !Hits(jobs[x], i, a, k, p)
    ensures Untouched(Fixes(objs, jobs), FileOffset(objs, i, a, k) + p)
  {
    hide Judge, FixOf, FileOffset, Covers, Hits;
    forall x | 0 <= x < |jobs| ensures !Covers(Fixes(objs, jobs)[x], FileOffset(objs, i, a, k) + p) {
      assert Resolves(objs, jobs[x]);
      CoversIs(objs, jobs[x], i, a, k, p);
    }
  }

  lemma KeptByte(img: seq<Byte>, objs: seq<Object>, jobs: seq<Job>, i: nat, a: Area, k: nat, p: nat)
    requires AllStored(img, objs) && JobsOk(objs, jobs) && InRange(jobs) && Inside(Fixes(objs, jobs), |img|)
    requires i < |objs| && a != Bss && k < |Bytes(objs[i], a)| && p < |Bytes(objs[i], a)[k]|
    ensures ByteKept(PatchAll(img, Fixes(objs, jobs)), objs, jobs, i, a, k, p)
  {
    hide Judge, FixOf, FileOffset, PatchAll, AllStored, ObjectsOk, FileSize, Untouched, Resolves, Hits;
    StoredByte(img, objs, i, a, k, p);
    if forall x :: 0 <= x < |jobs| ==> !Hits(jobs[x], i, a, k, p) {
      UntouchedIs(objs, jobs, i, a, k, p);
      PatchKeeps(img, Fixes(objs, jobs), FileOffset(objs, i, a, k) + p);
    }
  }

  /**
   * The linked image: a byte of a loaded section is the input byte, unless a relocation covers it;
   * then it is its part of S + A or S + A - P, with the addend A read from the input.
   */
  lemma LinkedByte(img: seq<Byte>, objs: seq<Object>, jobs: seq<Job>, i: nat, a: Area, k: nat, p: nat)
    requires AllStored(img, objs) && JobsOk(objs, jobs) && InRange(jobs) && NoOverlap(jobs)
    requires i < |objs| && a != Bss && k < |Bytes(objs[i], a)| && p < |Bytes(objs[i], a)[k]|
    ensures Inside(Fixes(objs, jobs), |img|)
    ensures ByteLinked(PatchAll(img, Fixes(objs, jobs)), objs, jobs, i, a, k, p)
  {
    hide Judge, FixOf, FileOffset, PatchAll, Apart, NoOverlap, AllStored, ObjectsOk, FileSize, ByteSet, ByteKept, Bytes;
    StoredByte(img, objs, i, a, k, p);
    FixesApart(objs, jobs);
    KeptByte(img, objs, jobs, i, a, k, p);
    forall x | 0 <= x < |jobs| && Hits(jobs[x], i, a, k, p)
      ensures ByteSet(PatchAll(img, Fixes(objs, jobs)), objs, jobs[x], p) {
      JobByte(img, objs, Fixes(objs, jobs), x, jobs[x], p);
    }
  }
}
