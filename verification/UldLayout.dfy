/** Section placement in the linker: each area packs its sections on 16-byte boundaries. */
module UldLayout {
  const ALIGN := 16

  function AlignUp(n: nat): (r: nat)
    ensures n <= r < n + ALIGN && r % ALIGN == 0
  {
    (n + ALIGN - 1) / ALIGN * ALIGN
  }

  /** Where an area ends after its sections. */
  function End(sizes: seq<nat>): nat {
    if sizes == [] then 0 else AlignUp(End(sizes[..|sizes| - 1])) + sizes[|sizes| - 1]
  }

  /** Where section k of an area starts. */
  function Offset(sizes: seq<nat>, k: nat): nat
    requires k < |sizes|
  {
    AlignUp(End(sizes[..k]))
  }

  function Total(sizes: seq<nat>): nat {
    AlignUp(End(sizes))
  }

  lemma EndNext(sizes: seq<nat>, k: nat)
    requires k < |sizes|
    ensures End(sizes[..k + 1]) == Offset(sizes, k) + sizes[k]
  {
    assert sizes[..k + 1][..k] == sizes[..k];
  }

  lemma {:induction false} EndGrows(sizes: seq<nat>, j: nat, k: nat)
    requires j <= k <= |sizes|
    ensures End(sizes[..j]) <= End(sizes[..k])
  {
    if j < k {
      EndGrows(sizes, j, k - 1);
      EndNext(sizes, k - 1);
    }
  }

  /** Sections are aligned, inside their area, and in order without overlap. */
  lemma SectionsApart(sizes: seq<nat>, j: nat, k: nat)
    requires j < k < |sizes|
    ensures Offset(sizes, j) + sizes[j] <= Offset(sizes, k) && Offset(sizes, k) % ALIGN == 0
  {
    EndNext(sizes, j);
    EndGrows(sizes, j + 1, k);
  }

  lemma SectionInside(sizes: seq<nat>, k: nat)
    requires k < |sizes|
    ensures Offset(sizes, k) + sizes[k] <= Total(sizes) && Offset(sizes, k) % ALIGN == 0
  {
    EndNext(sizes, k);
    EndGrows(sizes, k + 1, |sizes|);
    assert sizes[..|sizes|] == sizes;
  }

  lemma OffsetIs(sizes: seq<nat>, k: nat)
    requires k < |sizes|
    ensures Offset(sizes, k) == AlignUp(End(sizes[..k]))
  {
  }

  /** The placing loop. */
  method PlaceArea(sizes: seq<nat>) returns (offsets: seq<nat>, total: nat)
    ensures |offsets| == |sizes| && total == Total(sizes)
    ensures forall k :: 0 <= k < |sizes| ==> offsets[k] == Offset(sizes, k)
  {
    hide AlignUp, Offset;
    offsets := [];
    var off := 0;
    assert sizes[..0] == [];
    for i := 0 to |sizes|
      invariant |offsets| == i && off == End(sizes[..i])
      invariant forall k :: 0 <= k < i ==> offsets[k] == Offset(sizes, k)
    {
      EndNext(sizes, i);
      OffsetIs(sizes, i);
      off := AlignUp(off);
      offsets := offsets + [off];
      off := off + sizes[i];
    }
    assert sizes[..|sizes|] == sizes;
    total := AlignUp(off);
  }
}

/** Patching words of an image. */
module UldPatch {
  import opened Machine

  /** The word at a position. */
  function WordAt(b: seq<Byte>, at: nat): Word
    requires at + 4 <= |b|
  {
    Get32(b[at..at + 4])
  }

  /** A relocation resolved: where, against which symbol value, relative to itself or not. */
  datatype Fix = Fix(at: nat, pc: bool, symbol: nat, place: nat)

  /** S + A, or S + A - P, in 32 bits. */
  function Value(f: Fix, addend: nat): (v: nat)
    ensures v < U32
  {
    if f.pc then Wrap(f.symbol + addend - f.place) else Wrap(f.symbol + addend)
  }

  function Patched(img: seq<Byte>, f: Fix): (r: seq<Byte>)
    requires f.at + 4 <= |img|
    ensures |r| == |img|
  {
    img[..f.at] + Le32(Value(f, WordAt(img, f.at))) + img[f.at + 4..]
  }

  ghost predicate Inside(fixes: seq<Fix>, size: nat) {
    forall i :: 0 <= i < |fixes| ==> fixes[i].at + 4 <= size
  }

  /** No two relocations touch the same word. */
  ghost predicate Apart(fixes: seq<Fix>) {
    forall i, j :: 0 <= i < j < |fixes| ==> fixes[i].at + 4 <= fixes[j].at || fixes[j].at + 4 <= fixes[i].at
  }

  function PatchAll(img: seq<Byte>, fixes: seq<Fix>): (r: seq<Byte>)
    requires forall i :: 0 <= i < |fixes| ==> fixes[i].at + 4 <= |img|
    ensures |r| == |img|
  {
    if fixes == [] then img else Patched(PatchAll(img, fixes[..|fixes| - 1]), fixes[|fixes| - 1])
  }

  lemma {:induction false} PatchConcat(img: seq<Byte>, a: seq<Fix>, b: seq<Fix>)
    requires Inside(a, |img|) && Inside(b, |img|)
    ensures Inside(a + b, |img|) && PatchAll(PatchAll(img, a), b) == PatchAll(img, a + b)
  {
    if b == [] {
      assert a + b == a;
    } else {
      PatchConcat(img, a, b[..|b| - 1]);
      assert (a + b)[..|a + b| - 1] == a + b[..|b| - 1];
    }
  }

  predicate Covers(f: Fix, x: nat) {
    f.at <= x < f.at + 4
  }

  ghost predicate Untouched(fixes: seq<Fix>, x: nat) {
    forall i :: 0 <= i < |fixes| ==> !Covers(fixes[i], x)
  }

  lemma {:induction false} PatchKeeps(img: seq<Byte>, fixes: seq<Fix>, x: nat)
    requires Inside(fixes, |img|) && x < |img| && Untouched(fixes, x)
    ensures PatchAll(img, fixes)[x] == img[x]
  {
    if fixes != [] {
      PatchKeeps(img, fixes[..|fixes| - 1], x);
      assert !Covers(fixes[|fixes| - 1], x);
    }
  }

  lemma PatchedAt(img: seq<Byte>, f: Fix)
    requires f.at + 4 <= |img|
    ensures Patched(img, f)[f.at..f.at + 4] == Le32(Value(f, WordAt(img, f.at)))
    ensures forall x :: 0 <= x < |img| && !Covers(f, x) ==> Patched(img, f)[x] == img[x]
  {
  }

  lemma SameWord(a: seq<Byte>, b: seq<Byte>, at: nat)
    requires at + 4 <= |a| == |b| && forall x :: at <= x < at + 4 ==> a[x] == b[x]
    ensures WordAt(a, at) == WordAt(b, at)
  {
  }

  /** A relocated word is computed from the word the input had there, whatever the order. */
  lemma {:induction false} PatchSets(img: seq<Byte>, fixes: seq<Fix>, j: nat)
    requires Inside(fixes, |img|) && Apart(fixes) && j < |fixes|
    ensures PatchAll(img, fixes)[fixes[j].at..fixes[j].at + 4] == Le32(Value(fixes[j], WordAt(img, fixes[j].at)))
  {
    hide Value, Le32, WordAt, Patched;
    var last := |fixes| - 1;
    var front, f := fixes[..last], fixes[last];
    var at := fixes[j].at;
    var before := PatchAll(img, front);
    if j == last {
      forall x | at <= x < at + 4 ensures before[x] == img[x] {
        PatchKeeps(img, front, x);
      }
      SameWord(before, img, at);
      PatchedAt(before, f);
    } else {
      PatchSets(img, front, j);
      PatchedAt(before, f);
      assert Patched(before, f)[at..at + 4] == before[at..at + 4];
    }
  }

  /** A byte under a patch. */
  lemma PatchedByte(img: seq<Byte>, fixes: seq<Fix>, x: nat, y: nat)
    requires Inside(fixes, |img|) && Apart(fixes) && x < |fixes| && Covers(fixes[x], y)
    ensures y < |img| && PatchAll(img, fixes)[y] == Le32(Value(fixes[x], WordAt(img, fixes[x].at)))[y - fixes[x].at]
  {
    hide Le32, Value, WordAt, PatchAll, Apart;
    PatchSets(img, fixes, x);
    assert PatchAll(img, fixes)[fixes[x].at..fixes[x].at + 4][y - fixes[x].at] == PatchAll(img, fixes)[y];
  }
}
