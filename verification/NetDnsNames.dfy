/** DNS names: dotted text, labels and their wire form (sections 3.1 and 4.1.4 of RFC 1035). */
module NetDnsNames {
  import opened Machine

  type Label = seq<Byte>

  const DOT: Byte := 46
  const MAX_LABEL := 63

  /** The text cut at its dots; there is always a last label, maybe empty. */
  function Split(s: seq<Byte>): (ls: seq<Label>)
    ensures |ls| > 0
  {
    if s == [] then [[]]
    else
      var ls, c := Split(s[..|s| - 1]), s[|s| - 1];
      if c == DOT then ls + [[]] else Longer(ls, [c])
  }

  /** More bytes for the last label. */
  function Longer(ls: seq<Label>, l: Label): seq<Label>
    requires ls != []
  {
    ls[..|ls| - 1] + [ls[|ls| - 1] + l]
  }

  function Joined(ls: seq<Label>): seq<Byte> {
    if ls == [] then [] else if |ls| == 1 then ls[0] else Joined(ls[..|ls| - 1]) + [DOT] + ls[|ls| - 1]
  }

  predicate LabelOk(l: Label) {
    1 <= |l| <= MAX_LABEL && DOT !in l
  }

  ghost predicate LabelsOk(ls: seq<Label>) {
    forall i :: 0 <= i < |ls| ==> LabelOk(ls[i])
  }

  ghost predicate Dotless(ls: seq<Label>) {
    forall i :: 0 <= i < |ls| ==> DOT !in ls[i]
  }

  /** Labels of 1 to 63 bytes between dots. */
  ghost predicate NameOk(s: seq<Byte>) {
    LabelsOk(Split(s))
  }

  lemma {:induction false} JoinedSplit(s: seq<Byte>)
    ensures Joined(Split(s)) == s && Dotless(Split(s))
  {
    if s != [] {
      var front, c := s[..|s| - 1], s[|s| - 1];
      JoinedSplit(front);
      var ls := Split(front);
      assert s == front + [c];
      if c == DOT {
        assert (ls + [[]])[..|ls|] == ls;
      } else {
        var now := Longer(ls, [c]);
        assert now[..|now| - 1] == ls[..|ls| - 1];
        assert Joined(now) == Joined(ls) + [c];
      }
    }
  }

  lemma SplitPush(s: seq<Byte>, c: Byte)
    ensures var ls := Split(s);
            Split(s + [c]) == if c == DOT then ls + [[]] else Longer(ls, [c])
  {
    assert (s + [c])[..|s|] == s;
  }

  lemma LongerTwice(ls: seq<Label>, a: Label, b: Label)
    requires ls != []
    ensures Longer(Longer(ls, a), b) == Longer(ls, a + b) && Longer(ls, []) == ls
  {
    assert (ls[|ls| - 1] + a) + b == ls[|ls| - 1] + (a + b);
    assert ls[|ls| - 1] + [] == ls[|ls| - 1];
  }

  lemma {:induction false} SplitLabel(s: seq<Byte>, l: Label)
    requires DOT !in l
    ensures Split(s + l) == Longer(Split(s), l)
  {
    hide Split, Longer;
    if l == [] {
      assert s + l == s;
      LongerTwice(Split(s), [], []);
    } else {
      var front, c := l[..|l| - 1], l[|l| - 1];
      SplitLabel(s, front);
      assert s + l == (s + front) + [c];
      SplitPush(s + front, c);
      LongerTwice(Split(s), front, [c]);
      assert front + [c] == l;
    }
  }

  lemma {:induction false} SplitJoined(ls: seq<Label>)
    requires ls != [] && Dotless(ls)
    ensures Split(Joined(ls)) == ls
  {
    hide Split, Longer;
    var front, l := ls[..|ls| - 1], ls[|ls| - 1];
    if |ls| == 1 {
      SplitLabel([], l);
      assert [] + l == l;
      SplitNothing(l);
    } else {
      SplitJoined(front);
      SplitPush(Joined(front), DOT);
      SplitLabel(Joined(front) + [DOT], l);
      LongerNew(front, l);
      assert front + [l] == ls;
    }
  }

  /** Reading on can only lengthen the last label and add more. */
  lemma {:induction false} SplitGrows(s: seq<Byte>, t: seq<Byte>)
    ensures var a, b := Split(s), Split(s + t);
            |a| <= |b| && b[..|a| - 1] == a[..|a| - 1] && a[|a| - 1] <= b[|a| - 1]
  {
    if t == [] {
      assert s + t == s;
    } else {
      var front, c := t[..|t| - 1], t[|t| - 1];
      SplitGrows(s, front);
      assert s + t == (s + front) + [c];
      SplitPush(s + front, c);
    }
  }

  lemma SplitNothing(l: Label)
    ensures Longer(Split([]), l) == [l]
  {
    LongerNew([], l);
    var none: seq<Label> := [];
    assert none + [[]] == [[]] && none + [l] == [l];
  }

  lemma LongerNew(ls: seq<Label>, l: Label)
    ensures Longer(ls + [[]], l) == ls + [l]
  {
    assert [] + l == l;
  }

  // ---- the wire form

  /** Length and bytes of every label. */
  function Wire(ls: seq<Label>): seq<Byte>
    requires forall i :: 0 <= i < |ls| ==> |ls[i]| < 256
  {
    if ls == [] then [] else Wire(ls[..|ls| - 1]) + [|ls[|ls| - 1]|] + ls[|ls| - 1]
  }

  /** How a name ends: at the root, or with a pointer to an earlier name. */
  datatype Ending = Root | Pointer(hi: Byte, lo: Byte)

  datatype WireName = WireName(labels: seq<Label>, ending: Ending)

  ghost predicate WireNameOk(n: WireName) {
    && |n.labels| <= 255 && (forall i :: 0 <= i < |n.labels| ==> 1 <= |n.labels[i]| <= MAX_LABEL)
    && (n.ending.Pointer? ==> n.ending.hi >= 192)
  }

  function End(e: Ending): seq<Byte> {
    match e
    case Root => [0]
    case Pointer(hi, lo) => [hi, lo]
  }

  ghost function NameBytes(n: WireName): seq<Byte>
    requires WireNameOk(n)
  {
    Wire(n.labels) + End(n.ending)
  }

  lemma {:induction false} WireFirst(ls: seq<Label>)
    requires ls != [] && forall i :: 0 <= i < |ls| ==> |ls[i]| < 256
    ensures Wire(ls) == [|ls[0]|] + ls[0] + Wire(ls[1..])
  {
    if |ls| == 1 {
      assert ls[..0] == [] && ls[1..] == [];
    } else {
      var front, last := ls[..|ls| - 1], ls[|ls| - 1];
      WireFirst(front);
      assert front[1..] == ls[1..][..|ls| - 2];
      var head, mid, end := [|ls[0]|] + ls[0], Wire(front[1..]), [|last|] + last;
      assert Wire(ls[1..]) == mid + [|last|] + last == mid + end;
      assert Wire(ls) == head + mid + [|last|] + last == head + mid + end;
      hide Wire;
      assert head + mid + end == head + (mid + end);
    }
  }

  /** Leading labels take no more room than all of them. */
  lemma {:induction false} WireShorter(ls: seq<Label>, k: nat)
    requires k <= |ls| && forall i :: 0 <= i < |ls| ==> |ls[i]| < 256
    ensures |Wire(ls[..k])| <= |Wire(ls)|
  {
    if k < |ls| {
      WireShorter(ls[..|ls| - 1], k);
      assert ls[..|ls| - 1][..k] == ls[..k];
    } else {
      assert ls[..k] == ls;
    }
  }

  /** One dot becomes one length byte; the first length and the end are two more. */
  lemma {:induction false} WireLength(ls: seq<Label>)
    requires ls != [] && forall i :: 0 <= i < |ls| ==> |ls[i]| < 256
    ensures |Wire(ls)| == |Joined(ls)| + 1
  {
    if |ls| == 1 {
      assert Wire(ls[..0]) == [];
    } else {
      WireLength(ls[..|ls| - 1]);
    }
  }

  /** Reading labels up to the root. */
  datatype Decoded = Bad | Name(labels: seq<Label>, rest: seq<Byte>)

  function Decode(b: seq<Byte>): Decoded {
    if b == [] then Bad
    else if b[0] == 0 then Name([], b[1..])
    else if b[0] > MAX_LABEL || |b| < 1 + b[0] then Bad
    else
      match Decode(b[1 + b[0]..])
      case Bad => Bad
      case Name(ls, rest) => Name([b[1..1 + b[0]]] + ls, rest)
  }

  lemma {:induction false} DecodeWire(ls: seq<Label>, rest: seq<Byte>)
    requires forall i :: 0 <= i < |ls| ==> 1 <= |ls[i]| <= MAX_LABEL
    ensures Decode(Wire(ls) + [0] + rest) == Name(ls, rest)
  {
    var b := Wire(ls) + [0] + rest;
    if ls == [] {
      assert b == [0] + rest;
    } else {
      WireFirst(ls);
      var l := ls[0];
      assert b == [|l|] + l + (Wire(ls[1..]) + [0] + rest);
      assert b[1..1 + |l|] == l && b[1 + |l|..] == Wire(ls[1..]) + [0] + rest;
      DecodeWire(ls[1..], rest);
      assert [l] + ls[1..] == ls;
    }
  }
}
