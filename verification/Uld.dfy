/** The linker itself: layout, symbol collection, copying and relocation. */
module Uld {
  import opened Machine
  import opened UldLayout
  import opened UldPatch
  import opened UldObjects

  /** "_start" */
  const START: seq<Byte> := [95, 115, 116, 97, 114, 116]

  /** Section offsets by area, object after object, and the size of each area. */
  datatype Layout = Layout(text: seq<nat>, rodata: seq<nat>, data: seq<nat>, bss: seq<nat>,
                           textTotal: nat, rodataTotal: nat, dataTotal: nat, bssTotal: nat)

  function Offsets(lay: Layout, a: Area): seq<nat> {
    match a
    case Text => lay.text
    case Rodata => lay.rodata
    case Data => lay.data
    case Bss => lay.bss
  }

  ghost predicate Places(offsets: seq<nat>, sizes: seq<nat>) {
    |offsets| == |sizes| && forall k :: 0 <= k < |sizes| ==> offsets[k] == Offset(sizes, k)
  }

  ghost predicate LayoutOk(lay: Layout, objs: seq<Object>) {
    && Places(lay.text, Sizes(objs, Text)) && Places(lay.rodata, Sizes(objs, Rodata))
    && Places(lay.data, Sizes(objs, Data)) && Places(lay.bss, Sizes(objs, Bss))
    && lay.textTotal == Total(Sizes(objs, Text)) && lay.rodataTotal == Total(Sizes(objs, Rodata))
    && lay.dataTotal == Total(Sizes(objs, Data)) && lay.bssTotal == Total(Sizes(objs, Bss))
  }

  method CalculateLayout(objs: seq<Object>) returns (lay: Layout)
    ensures LayoutOk(lay, objs)
  {
    hide Sizes, Total, Offset;
    var text, textTotal := PlaceArea(Sizes(objs, Text));
    var rodata, rodataTotal := PlaceArea(Sizes(objs, Rodata));
    var data, dataTotal := PlaceArea(Sizes(objs, Data));
    var bss, bssTotal := PlaceArea(Sizes(objs, Bss));
    lay := Layout(text, rodata, data, bss, textTotal, rodataTotal, dataTotal, bssTotal);
  }

  function Start(lay: Layout, a: Area): nat {
    match a
    case Text => 0
    case Rodata => lay.textTotal
    case Data => lay.textTotal + lay.rodataTotal
    case Bss => lay.textTotal + lay.rodataTotal + lay.dataTotal
  }

  lemma PlacesArea(lay: Layout, objs: seq<Object>, a: Area)
    requires LayoutOk(lay, objs)
    ensures Places(Offsets(lay, a), Sizes(objs, a)) && Start(lay, a) == AreaStart(objs, a)
  {
  }

  /** File offset of a section from the computed layout. */
  method Locate(objs: seq<Object>, lay: Layout, i: nat, a: Area, k: nat) returns (at: nat)
    requires LayoutOk(lay, objs) && i < |objs| && k < |Parts(objs[i], a)|
    ensures at == FileOffset(objs, i, a, k)
  {
    hide Sizes, Total, Offset, Parts;
    PositionIs(objs, i, a, k);
    PlacesArea(lay, objs, a);
    at := HEADERS + Start(lay, a) + Offsets(lay, a)[Position(objs, i, a, k)];
  }

  /** The address of a section, from the layout and the chain of area bases, in 32 bits and apart from file offsets. */
  method AddressOf(objs: seq<Object>, lay: Layout, i: nat, s: Sec) returns (v: nat)
    requires LayoutOk(lay, objs) && i < |objs| && (s.Sec? ==> s.k < |Parts(objs[i], s.area)|)
    ensures v == Address(objs, i, s)
  {
    hide Sizes, Total, Offset, Parts, Wrap;
    var text := Wrap(BASE_ADDR + HEADERS);
    var rodata := Wrap(text + lay.textTotal);
    var data := Wrap(rodata + lay.rodataTotal);
    var bss := Wrap(data + lay.dataTotal);
    match s
    case Foreign => v := 0;
    case Sec(a, k) =>
      PositionIs(objs, i, a, k);
      PlacesArea(lay, objs, a);
      var base := match a case Text => text case Rodata => rodata case Data => data case Bss => bss;
      v := Wrap(base + Offsets(lay, a)[Position(objs, i, a, k)]);
  }

  // ---- symbols

  method FindGlobal(table: seq<Def>, name: seq<Byte>) returns (f: Found)
    ensures f == Lookup(table, name)
  {
    var i := 0;
    while i < |table|
      invariant 0 <= i <= |table| && Lookup(table[i..], name) == Lookup(table, name)
    {
      if table[i].name == name {
        return Value32(table[i].value);
      }
      assert table[i..][1..] == table[i + 1..];
      i := i + 1;
    }
    return Missing;
  }

  /** The two lists resolve every name alike. */
  ghost predicate Agree(table: seq<Def>, defs: seq<Def>) {
    forall name :: Lookup(table, name) == Lookup(defs, name)
  }

  /** A later definition of a known name changes nothing; a new name is added to both. */
  lemma AgreePush(table: seq<Def>, defs: seq<Def>, d: Def)
    requires Agree(table, defs)
    ensures Lookup(table, d.name) != Missing ==> Agree(table, defs + [d])
    ensures Lookup(table, d.name) == Missing ==> Agree(table + [d], defs + [d])
  {
    forall name ensures Lookup(table, d.name) != Missing ==> Lookup(table, name) == Lookup(defs + [d], name) {
      LookupPush(defs, d, name);
    }
    forall name ensures Lookup(table + [d], name) == Lookup(defs + [d], name) {
      LookupPush(defs, d, name);
      LookupPush(table, d, name);
    }
  }

  method ValueOf(objs: seq<Object>, lay: Layout, i: nat, s: Symbol) returns (v: nat)
    requires LayoutOk(lay, objs) && i < |objs| && SymbolOk(objs[i], s) && s.defined
    ensures v == SymbolValue(objs, i, s)
  {
    hide LayoutOk, Address, Wrap;
    var base := AddressOf(objs, lay, i, s.sec);
    v := Wrap(base + s.value);
  }

  /** Enters the global definitions of one object that are not known yet. */
  method CollectFrom(objs: seq<Object>, lay: Layout, i: nat, known: seq<Def>, ghost defs: seq<Def>)
                     returns (table: seq<Def>)
    requires LayoutOk(lay, objs) && ObjectsOk(objs) && i < |objs| && Agree(known, defs)
    ensures Agree(table, defs + DefsOf(objs, i, |objs[i].symbols|))
  {
    hide LayoutOk, Agree, SymbolValue, SymbolOk, DefsOf;
    table := known;
    DefsNone(objs, i, defs);
    for k := 0 to |objs[i].symbols|
      invariant Agree(table, defs + DefsOf(objs, i, k))
    {
      var s := objs[i].symbols[k];
      DefsNext(objs, i, k, defs);
      if s.global && s.defined {
        var v := ValueOf(objs, lay, i, s);
        var seen := FindGlobal(table, s.name);
        AgreePush(table, defs + DefsOf(objs, i, k), Def(s.name, v));
        if seen == Missing {
          table := table + [Def(s.name, v)];
        }
      }
    }
  }

  lemma DefsNone(objs: seq<Object>, i: nat, defs: seq<Def>)
    requires i < |objs| && ObjectOk(objs[i])
    ensures defs + DefsOf(objs, i, 0) == defs
  {
  }

  lemma DefsNext(objs: seq<Object>, i: nat, k: nat, defs: seq<Def>)
    requires i < |objs| && ObjectOk(objs[i]) && k < |objs[i].symbols|
    ensures SymbolOk(objs[i], objs[i].symbols[k])
    ensures var s, now := objs[i].symbols[k], defs + DefsOf(objs, i, k);
            defs + DefsOf(objs, i, k + 1) == if s.global && s.defined
              then now + [Def(s.name, SymbolValue(objs, i, s))] else now
  {
    hide SymbolValue;
  }

  /** The symbol table: for every name the first global definition in link order. */
  method CollectSymbols(objs: seq<Object>, lay: Layout) returns (table: seq<Def>)
    requires LayoutOk(lay, objs) && ObjectsOk(objs)
    ensures Agree(table, Definitions(objs, |objs|))
  {
    hide LayoutOk, DefsOf;
    table := [];
    for i := 0 to |objs|
      invariant Agree(table, Definitions(objs, i))
    {
      if objs[i].hasSymtab {
        table := CollectFrom(objs, lay, i, table, Definitions(objs, i));
      } else {
        assert Definitions(objs, i + 1) == Definitions(objs, i);
      }
    }
  }

  // ---- copying

  method CopyPart(out: array<Byte>, at: nat, bytes: seq<Byte>)
    requires at + |bytes| <= out.Length
    modifies out
    ensures out[at..at + |bytes|] == bytes
    ensures forall x :: 0 <= x < out.Length && !(at <= x < at + |bytes|) ==> out[x] == old(out[x])
  {
    forall p | 0 <= p < |bytes| {
      out[at + p] := bytes[p];
    }
  }

  /** Copying one section leaves every other one as it was stored. */
  ghost predicate ChangedAt(img: seq<Byte>, now: seq<Byte>, at: nat, n: nat) {
    |now| == |img| && forall x :: 0 <= x < |img| && !(at <= x < at + n) ==> now[x] == img[x]
  }

  lemma OthersStored(img: seq<Byte>, now: seq<Byte>, objs: seq<Object>, i: nat, a: Area, k: nat, j: nat, b: Area,
                     m: nat)
    requires i < |objs| && a != Bss && k < |Bytes(objs[i], a)| && j < |objs| && b != Bss && m < |Bytes(objs[j], b)|
    requires (i, a, k) != (j, b, m) && Stored(img, objs, j, b, m)
    requires ChangedAt(img, now, FileOffset(objs, i, a, k), |Bytes(objs[i], a)[k]|)
    ensures Stored(now, objs, j, b, m)
  {
    hide FileOffset, Bytes;
    PlacedApart(objs, i, a, k, j, b, m);
    PartLength(objs[i], a, k);
    PartLength(objs[j], b, m);
    var at2, n2 := FileOffset(objs, j, b, m), |Bytes(objs[j], b)[m]|;
    assert now[at2..at2 + n2] == img[at2..at2 + n2];
  }

  lemma PartLength(o: Object, a: Area, k: nat)
    requires a != Bss && k < |Bytes(o, a)|
    ensures k < |Parts(o, a)| && Parts(o, a)[k] == |Bytes(o, a)[k]|
  {
  }

  /** Which sections have been copied: those of earlier objects, and of this one the listed areas. */
  ghost predicate Copied(img: seq<Byte>, objs: seq<Object>, done: set<(nat, Area)>) {
    && |img| == FileSize(objs)
    && forall i: nat, a, k: nat :: (i, a) in done && i < |objs| && a != Bss && k < |Bytes(objs[i], a)| ==>
         Stored(img, objs, i, a, k)
  }

  method CopyArea(out: array<Byte>, objs: seq<Object>, lay: Layout, i: nat, a: Area, ghost done: set<(nat, Area)>)
    requires LayoutOk(lay, objs) && i < |objs| && a != Bss && Copied(out[..], objs, done) && (i, a) !in done
    modifies out
    ensures Copied(out[..], objs, done + {(i, a)})
  {
    hide LayoutOk, FileOffset, Stored, Bytes, FileSize;
    for k := 0 to |Bytes(objs[i], a)|
      invariant Copied(out[..], objs, done)
      invariant forall m: nat :: m < k ==> Stored(out[..], objs, i, a, m)
    {
      PartLength(objs[i], a, k);
      FitsArea(objs, i, a, k);
      var at := Locate(objs, lay, i, a, k);
      ghost var img := out[..];
      CopyPart(out, at, Bytes(objs[i], a)[k]);
      PartStored(out[..], objs, i, a, k);
      CopiedPart(img, out[..], objs, i, a, k, done);
    }
  }

  lemma PartStored(img: seq<Byte>, objs: seq<Object>, i: nat, a: Area, k: nat)
    requires i < |objs| && a != Bss && k < |Bytes(objs[i], a)|
    requires var at, b := FileOffset(objs, i, a, k), Bytes(objs[i], a)[k]; at + |b| <= |img| && img[at..at + |b|] == b
    ensures Stored(img, objs, i, a, k)
  {
  }

  /** Storing one more section keeps the areas that are done and the sections before it. */
  lemma CopiedPart(img: seq<Byte>, now: seq<Byte>, objs: seq<Object>, i: nat, a: Area, k: nat, done: set<(nat, Area)>)
    requires i < |objs| && a != Bss && k < |Bytes(objs[i], a)| && Copied(img, objs, done) && (i, a) !in done
    requires forall m: nat :: m < k ==> Stored(img, objs, i, a, m)
    requires ChangedAt(img, now, FileOffset(objs, i, a, k), |Bytes(objs[i], a)[k]|) && Stored(now, objs, i, a, k)
    ensures Copied(now, objs, done) && forall m: nat :: m <= k ==> Stored(now, objs, i, a, m)
  {
    hide Stored, FileOffset, Bytes, FileSize, ChangedAt;
    CopiedAreas(img, now, objs, i, a, k, done);
    hide Copied;
    forall m: nat | m < k ensures Stored(now, objs, i, a, m) {
      OthersStored(img, now, objs, i, a, k, i, a, m);
    }
  }

  lemma CopiedAreas(img: seq<Byte>, now: seq<Byte>, objs: seq<Object>, i: nat, a: Area, k: nat, done: set<(nat, Area)>)
    requires i < |objs| && a != Bss && k < |Bytes(objs[i], a)| && Copied(img, objs, done) && (i, a) !in done
    requires ChangedAt(img, now, FileOffset(objs, i, a, k), |Bytes(objs[i], a)[k]|)
    ensures Copied(now, objs, done)
  {
    assert |now| == |img|;
    hide Stored, FileOffset, Bytes, FileSize, ChangedAt;
    forall j: nat, b, m: nat | (j, b) in done && j < |objs| && b != Bss && m < |Bytes(objs[j], b)|
      ensures Stored(now, objs, j, b, m) {
      OthersStored(img, now, objs, i, a, k, j, b, m);
    }
  }

  ghost function DoneUpTo(n: nat): set<(nat, Area)> {
    if n == 0 then {} else DoneUpTo(n - 1) + {(n - 1, Text), (n - 1, Rodata), (n - 1, Data)}
  }

  lemma {:induction false} DoneIs(n: nat)
    ensures forall i: nat, a :: (i, a) in DoneUpTo(n) <==> i < n && a != Bss
  {
    if n > 0 {
      DoneIs(n - 1);
    }
  }

  method CopySections(out: array<Byte>, objs: seq<Object>, lay: Layout)
    requires LayoutOk(lay, objs) && out.Length == FileSize(objs)
    modifies out
    ensures AllStored(out[..], objs)
  {
    hide LayoutOk, Stored, Bytes, FileSize;
    for i := 0 to |objs|
      invariant Copied(out[..], objs, DoneUpTo(i))
    {
      DoneIs(i);
      ghost var done := DoneUpTo(i);
      CopyArea(out, objs, lay, i, Text, done);
      CopyArea(out, objs, lay, i, Rodata, done + {(i, Text)});
      CopyArea(out, objs, lay, i, Data, done + {(i, Text)} + {(i, Rodata)});
      assert done + {(i, Text)} + {(i, Rodata)} + {(i, Data)} == DoneUpTo(i + 1);
    }
    DoneIs(|objs|);
  }

  // ---- relocation

  /** The relocations among the first n entries of a section; kind 0 asks for nothing. */
  function EntryJobs(i: nat, t: Sec, es: seq<Entry>): seq<Job> {
    if es == [] then [] else
      EntryJobs(i, t, es[..|es| - 1]) + if es[|es| - 1].kind == 0 then [] else [Job(i, t, es[|es| - 1])]
  }

  /** Only loaded sections of objects with a symbol table are relocated. */
  function RelJobs(objs: seq<Object>, i: nat, r: RelSection): seq<Job>
    requires i < |objs|
  {
    if objs[i].hasSymtab && r.target.Sec? && r.target.area != Bss then EntryJobs(i, r.target, r.entries) else []
  }

  function ObjectJobs(objs: seq<Object>, i: nat, n: nat): seq<Job>
    requires i < |objs| && n <= |objs[i].rels|
    decreases n
  {
    if n == 0 then [] else ObjectJobs(objs, i, n - 1) + RelJobs(objs, i, objs[i].rels[n - 1])
  }

  function AllJobs(objs: seq<Object>, n: nat): seq<Job>
    requires n <= |objs|
    decreases n
  {
    if n == 0 then [] else AllJobs(objs, n - 1) + ObjectJobs(objs, n - 1, |objs[n - 1].rels|)
  }

  method Resolve(objs: seq<Object>, lay: Layout, table: seq<Def>, i: nat, t: Sec, e: Entry) returns (v: Verdict)
    requires LayoutOk(lay, objs) && ObjectsOk(objs) && Agree(table, Definitions(objs, |objs|))
    requires i < |objs| && t.Sec? && t.k < |Parts(objs[i], t.area)| && e.offset < U32
    ensures v == Judge(objs, i, t, e)
  {
    hide LayoutOk, SymbolValue, Wrap, Definitions, Parts, Lookup, Address;
    var o := objs[i];
    if e.kind == 0 {
      return Skip;
    }
    if e.kind != R_386_32 && e.kind != R_386_PC32 {
      return Fatal;
    }
    if e.symbol >= |o.symbols| {
      return Fatal;
    }
    if Wrap(e.offset + 4) > Parts(o, t.area)[t.k] {
      return Fatal;
    }
    var s := o.symbols[e.symbol];
    assert ObjectOk(o) && SymbolOk(o, s);
    var value;
    if !s.defined {
      var found := FindGlobal(table, s.name);
      if found == Missing {
        return Fatal;
      }
      value := found.value;
    } else {
      value := ValueOf(objs, lay, i, s);
    }
    var at := Locate(objs, lay, i, t.area, t.k);
    var base := AddressOf(objs, lay, i, t);
    return Do(Fix(PatchAt(at, e.offset), e.kind == R_386_PC32, value, Wrap(base + e.offset)));
  }

  method PatchWord(out: array<Byte>, f: Fix)
    requires f.at + 4 <= out.Length
    modifies out
    ensures out[..] == Patched(old(out[..]), f)
  {
    hide Le32, Value;
    var addend := WordAt(out[..], f.at);
    var word := Le32(Value(f, addend));
    var at := f.at;
    out[at], out[at + 1], out[at + 2], out[at + 3] := word[0], word[1], word[2], word[3];
  }

  lemma JobsConcat(objs: seq<Object>, a: seq<Job>, b: seq<Job>)
    requires ObjectsOk(objs)
    ensures JobsOk(objs, a + b) <==> JobsOk(objs, a) && JobsOk(objs, b)
    ensures JobsOk(objs, a + b) ==> Fixes(objs, a + b) == Fixes(objs, a) + Fixes(objs, b)
  {
    hide Judge, JobOk, ObjectsOk;
    assert forall x :: 0 <= x < |a| ==> (a + b)[x] == a[x];
    assert forall x :: 0 <= x < |b| ==> (a + b)[|a| + x] == b[x];
  }

  lemma FixesInside(objs: seq<Object>, jobs: seq<Job>)
    requires JobsOk(objs, jobs)
    ensures Inside(Fixes(objs, jobs), FileSize(objs))
  {
    hide Judge, JobOk, FileSize;
    forall x | 0 <= x < |jobs| ensures Fixes(objs, jobs)[x].at + 4 <= FileSize(objs) {
      FixInside(objs, jobs[x]);
    }
  }

  /** Patches for more jobs on top of those done. */
  lemma PatchMore(img: seq<Byte>, objs: seq<Object>, a: seq<Job>, b: seq<Job>)
    requires JobsOk(objs, a) && JobsOk(objs, b) && |img| == FileSize(objs)
    ensures JobsOk(objs, a + b) && Inside(Fixes(objs, a), |img|) && Inside(Fixes(objs, b), |img|)
            && Inside(Fixes(objs, a + b), |img|)
    ensures PatchAll(PatchAll(img, Fixes(objs, a)), Fixes(objs, b)) == PatchAll(img, Fixes(objs, a + b))
  {
    hide JobsOk, FileSize, Inside, PatchAll, ObjectsOk;
    JobsAre(objs, a);
    JobsConcat(objs, a, b);
    FixesInside(objs, a);
    FixesInside(objs, b);
    FixesInside(objs, a + b);
    PatchConcat(img, Fixes(objs, a), Fixes(objs, b));
  }

  lemma JobsAre(objs: seq<Object>, jobs: seq<Job>)
    requires JobsOk(objs, jobs)
    ensures ObjectsOk(objs)
  {
  }

  /** What has been done so far: the copied image with these relocations applied. */
  ghost predicate Relocated(img: seq<Byte>, now: seq<Byte>, objs: seq<Object>, jobs: seq<Job>) {
    JobsOk(objs, jobs) && |img| == FileSize(objs) && Inside(Fixes(objs, jobs), |img|)
      && now == PatchAll(img, Fixes(objs, jobs))
  }

  lemma RelocatedNone(img: seq<Byte>, objs: seq<Object>)
    requires ObjectsOk(objs) && |img| == FileSize(objs)
    ensures Relocated(img, img, objs, [])
  {
  }

  lemma RelocatedMore(img: seq<Byte>, mid: seq<Byte>, now: seq<Byte>, objs: seq<Object>, a: seq<Job>, b: seq<Job>)
    requires Relocated(img, mid, objs, a) && Relocated(mid, now, objs, b)
    ensures Relocated(img, now, objs, a + b)
  {
    hide JobsOk, FileSize, Inside, PatchAll, Fixes;
    PatchMore(img, objs, a, b);
  }

  lemma RelocatedOne(img: seq<Byte>, now: seq<Byte>, objs: seq<Object>, j: Job, f: Fix)
    requires ObjectsOk(objs) && JobOk(objs, j) && Judge(objs, j.i, j.t, j.e) == Do(f) && |img| == FileSize(objs)
    requires f.at + 4 <= |img| && now == Patched(img, f)
    ensures Relocated(img, now, objs, [j])
  {
    hide Judge, JobOk, FileSize, Patched, ObjectsOk;
    var fs := Fixes(objs, [j]);
    assert fs == [f];
    assert [f][..0] == [];
    assert PatchAll(img, []) == img;
    assert PatchAll(img, [f]) == Patched(PatchAll(img, [f][..0]), f);
  }

  /** One relocation section; a bad entry stops the link. */
  method Relocate(out: array<Byte>, objs: seq<Object>, lay: Layout, table: seq<Def>, i: nat, r: RelSection)
                  returns (ok: bool)
    requires LayoutOk(lay, objs) && ObjectsOk(objs) && Agree(table, Definitions(objs, |objs|))
    requires i < |objs| && RelOk(objs[i], r) && out.Length == FileSize(objs)
    modifies out
    ensures ok <==> JobsOk(objs, RelJobs(objs, i, r))
    ensures ok ==> Relocated(old(out[..]), out[..], objs, RelJobs(objs, i, r))
  {
    hide LayoutOk, Judge, Relocated, JobsOk, ObjectsOk, Agree, Definitions, Patched, FileSize, Parts;
    RelocatedNone(out[..], objs);
    NoJobs(objs);
    if !objs[i].hasSymtab || r.target.Foreign? || r.target.area == Bss {
      return true;
    }
    ghost var jobs := [];
    assert r.entries[..0] == [];
    for x := 0 to |r.entries|
      invariant jobs == EntryJobs(i, r.target, r.entries[..x]) && out.Length == FileSize(objs)
      invariant JobsOk(objs, jobs) && Relocated(old(out[..]), out[..], objs, jobs)
    {
      var e := r.entries[x];
      ghost var j := Job(i, r.target, e);
      assert r.entries[..x + 1][..x] == r.entries[..x];
      assert JobOk(objs, j);
      var v := Resolve(objs, lay, table, i, r.target, e);
      OneJob(objs, j, v);
      if v.Skip? {
        continue;
      }
      JobsConcat(objs, jobs, [j]);
      if v.Fatal? {
        StuckJobs(objs, i, r.target, r.entries, x);
        return false;
      }
      FixInside(objs, j);
      ghost var mid := out[..];
      PatchWord(out, v.fix);
      RelocatedOne(mid, out[..], objs, j, v.fix);
      RelocatedMore(old(out[..]), mid, out[..], objs, jobs, [j]);
      jobs := jobs + [j];
    }
    assert r.entries[..|r.entries|] == r.entries;
    return true;
  }

  lemma NoJobs(objs: seq<Object>)
    requires ObjectsOk(objs)
    ensures JobsOk(objs, [])
  {
  }

  lemma OneJob(objs: seq<Object>, j: Job, v: Verdict)
    requires ObjectsOk(objs) && JobOk(objs, j) && v == Judge(objs, j.i, j.t, j.e)
    ensures JobsOk(objs, [j]) <==> v.Do?
    ensures v.Skip? <==> j.e.kind == 0
  {
    hide JobOk;
    assert [j][0] == j;
  }

  /** A bad entry is among the jobs of the whole section. */
  lemma {:induction false} StuckJobs(objs: seq<Object>, i: nat, t: Sec, es: seq<Entry>, x: nat)
    requires ObjectsOk(objs) && x < |es| && !JobsOk(objs, EntryJobs(i, t, es[..x + 1]))
    ensures !JobsOk(objs, EntryJobs(i, t, es))
  {
    hide JobsOk, ObjectsOk;
    if x + 1 < |es| {
      var front, e := es[..|es| - 1], es[|es| - 1];
      assert front[..x + 1] == es[..x + 1];
      StuckJobs(objs, i, t, front, x);
      JobsConcat(objs, EntryJobs(i, t, front), if e.kind == 0 then [] else [Job(i, t, e)]);
    } else {
      assert es[..x + 1] == es;
    }
  }

  /** All relocation sections of one object. */
  method RelocateObject(out: array<Byte>, objs: seq<Object>, lay: Layout, table: seq<Def>, i: nat) returns (ok: bool)
    requires LayoutOk(lay, objs) && ObjectsOk(objs) && Agree(table, Definitions(objs, |objs|))
    requires i < |objs| && out.Length == FileSize(objs)
    modifies out
    ensures ok <==> JobsOk(objs, ObjectJobs(objs, i, |objs[i].rels|))
    ensures ok ==> Relocated(old(out[..]), out[..], objs, ObjectJobs(objs, i, |objs[i].rels|))
  {
    hide LayoutOk, Relocated, JobsOk, Agree, Definitions, FileSize, RelJobs;
    RelocatedNone(out[..], objs);
    NoJobs(objs);
    for n := 0 to |objs[i].rels|
      invariant JobsOk(objs, ObjectJobs(objs, i, n)) && Relocated(old(out[..]), out[..], objs, ObjectJobs(objs, i, n))
    {
      ghost var mid := out[..];
      assert ObjectOk(objs[i]) && RelOk(objs[i], objs[i].rels[n]);
      ok := Relocate(out, objs, lay, table, i, objs[i].rels[n]);
      ghost var before, more := ObjectJobs(objs, i, n), RelJobs(objs, i, objs[i].rels[n]);
      JobsConcat(objs, before, more);
      if !ok {
        StuckObject(objs, i, n + 1, |objs[i].rels|);
        return false;
      }
      RelocatedMore(old(out[..]), mid, out[..], objs, before, more);
    }
    return true;
  }

  lemma {:induction false} StuckObject(objs: seq<Object>, i: nat, m: nat, n: nat)
    requires ObjectsOk(objs) && i < |objs| && m <= n <= |objs[i].rels| && !JobsOk(objs, ObjectJobs(objs, i, m))
    ensures !JobsOk(objs, ObjectJobs(objs, i, n))
    decreases n
  {
    hide JobsOk, ObjectsOk;
    if m < n {
      StuckObject(objs, i, m, n - 1);
      JobsConcat(objs, ObjectJobs(objs, i, n - 1), RelJobs(objs, i, objs[i].rels[n - 1]));
    }
  }

  lemma {:induction false} StuckLink(objs: seq<Object>, m: nat, n: nat)
    requires ObjectsOk(objs) && m <= n <= |objs| && !JobsOk(objs, AllJobs(objs, m))
    ensures !JobsOk(objs, AllJobs(objs, n))
    decreases n
  {
    hide JobsOk, ObjectsOk, ObjectJobs;
    if m < n {
      StuckLink(objs, m, n - 1);
      JobsConcat(objs, AllJobs(objs, n - 1), ObjectJobs(objs, n - 1, |objs[n - 1].rels|));
    }
  }

  method RelocateAll(out: array<Byte>, objs: seq<Object>, lay: Layout, table: seq<Def>) returns (ok: bool)
    requires LayoutOk(lay, objs) && ObjectsOk(objs) && Agree(table, Definitions(objs, |objs|))
             && out.Length == FileSize(objs)
    modifies out
    ensures ok <==> JobsOk(objs, AllJobs(objs, |objs|))
    ensures ok ==> Relocated(old(out[..]), out[..], objs, AllJobs(objs, |objs|))
  {
    hide LayoutOk, Relocated, JobsOk, ObjectsOk, Agree, Definitions, FileSize, ObjectJobs;
    RelocatedNone(out[..], objs);
    NoJobs(objs);
    for i := 0 to |objs|
      invariant JobsOk(objs, AllJobs(objs, i)) && Relocated(old(out[..]), out[..], objs, AllJobs(objs, i))
    {
      ghost var mid := out[..];
      ok := RelocateObject(out, objs, lay, table, i);
      ghost var before, more := AllJobs(objs, i), ObjectJobs(objs, i, |objs[i].rels|);
      JobsConcat(objs, before, more);
      if !ok {
        StuckLink(objs, i + 1, |objs|);
        return false;
      }
      RelocatedMore(old(out[..]), mid, out[..], objs, before, more);
    }
    return true;
  }

  /** The image of a whole link, byte by byte, in terms of the objects alone. */
  lemma ImageLinked(img: seq<Byte>, out: seq<Byte>, objs: seq<Object>)
    requires AllStored(img, objs) && Relocated(img, out, objs, AllJobs(objs, |objs|))
    requires InRange(AllJobs(objs, |objs|)) && NoOverlap(AllJobs(objs, |objs|))
    ensures Linked(out, objs, AllJobs(objs, |objs|))
  {
    hide AllStored, InRange, NoOverlap, AllJobs, ByteLinked, JobsOk, Bytes, FileSize, Inside;
    var jobs := AllJobs(objs, |objs|);
    forall i, a, k, p | 0 <= i < |objs| && a != Bss && 0 <= k < |Bytes(objs[i], a)| && 0 <= p < |Bytes(objs[i], a)[k]|
      ensures ByteLinked(out, objs, jobs, i, a, k, p)
    {
      LinkedByte(img, objs, jobs, i, a, k, p);
    }
  }

  lemma TotalsAre(lay: Layout, objs: seq<Object>)
    requires LayoutOk(lay, objs)
    ensures HEADERS + lay.textTotal + lay.rodataTotal + lay.dataTotal == FileSize(objs)
  {
  }

  /**
   * The image: every loaded section copied to its place, then every relocation applied. The link
   * succeeds exactly when each relocation is of a known kind, in range and has a definition. If no
   * offset wraps and no two relocations overlap, each byte of the image is the one the objects call for.
   * Entry is the first global definition of _start.
   */
  method Link(objs: seq<Object>) returns (ok: bool, out: array<Byte>, entry: nat, ghost copied: seq<Byte>)
    requires ObjectsOk(objs)
    ensures ok <==> JobsOk(objs, AllJobs(objs, |objs|))
    ensures ok ==> AllStored(copied, objs) && Relocated(copied, out[..], objs, AllJobs(objs, |objs|))
    ensures ok && InRange(AllJobs(objs, |objs|)) && NoOverlap(AllJobs(objs, |objs|)) ==>
              Linked(out[..], objs, AllJobs(objs, |objs|))
    ensures entry == match Lookup(Definitions(objs, |objs|), START) case Missing => 0 case Value32(v) => v
  {
    hide LayoutOk, Relocated, JobsOk, ObjectsOk, Definitions, AllStored, AllJobs, Linked, InRange, NoOverlap;
    var lay := CalculateLayout(objs);
    var table := CollectSymbols(objs, lay);
    var start := FindGlobal(table, START);
    entry := match start case Missing => 0 case Value32(v) => v;
    TotalsAre(lay, objs);
    out := new Byte[HEADERS + lay.textTotal + lay.rodataTotal + lay.dataTotal](_ => 0);
    CopySections(out, objs, lay);
    copied := out[..];
    ok := RelocateAll(out, objs, lay, table);
    if ok && InRange(AllJobs(objs, |objs|)) && NoOverlap(AllJobs(objs, |objs|)) {
      ImageLinked(copied, out[..], objs);
    }
  }

  /** A relocation at offset 2^32 - 4 passes the range test of an empty section and patches the headers. */
  lemma PatchesHeaders(o: Object, e: Entry)
    requires e == Entry(U32 - 4, R_386_32, 0)
    requires o == Object([[]], [], [], [], true, [Symbol(START, true, true, Sec(Text, 0), 0)],
             [RelSection(Sec(Text, 0), [e])])
    ensures ObjectsOk([o]) && AllJobs([o], 1) == [Job(0, Sec(Text, 0), e)] && JobsOk([o], AllJobs([o], 1))
    ensures Fixes([o], AllJobs([o], 1))[0].at == HEADERS - 4
  {
    var r := RelSection(Sec(Text, 0), [e]);
    assert EntryJobs(0, r.target, [e][..0]) == [];
    assert RelJobs([o], 0, r) == [Job(0, r.target, e)];
    assert ObjectJobs([o], 0, 0) == [];
    assert ObjectJobs([o], 0, 1) == RelJobs([o], 0, r);
    assert AllJobs([o], 0) == [];
    assert AllJobs([o], 1) == AllJobs([o], 0) + ObjectJobs([o], 0, 1);
  }
}
