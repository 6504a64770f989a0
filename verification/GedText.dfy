/** Texts as geditor means them: edits, line starts, and the history of undoable actions. */
module GedText {

  function Inserted<T>(t: seq<T>, pos: nat, s: seq<T>): seq<T>
    requires pos <= |t|
  {
    t[..pos] + s + t[pos..]
  }

  function Deleted<T>(t: seq<T>, start: nat, end: nat): seq<T>
    requires start <= end <= |t|
  {
    t[..start] + t[end..]
  }

  // ---- line starts

  /** Where new lines begin: one past every newline, counted from base. */
  function Breaks(t: string, base: nat): (b: seq<nat>)
    ensures |b| <= |t|
  {
    if t == [] then [] else (if t[0] == '\n' then [base + 1] else []) + Breaks(t[1..], base + 1)
  }

  /** What a full rescan of the text computes. */
  function Starts(t: string): seq<nat> {
    [0] + Breaks(t, 0)
  }

  lemma {:induction false} BreaksConcat(a: string, b: string, base: nat)
    ensures Breaks(a + b, base) == Breaks(a, base) + Breaks(b, base + |a|)
  {
    if a == [] {
      assert a + b == b;
    } else {
      assert (a + b)[1..] == a[1..] + b;
      BreaksConcat(a[1..], b, base + 1);
    }
  }

  lemma {:induction false} BreaksShift(t: string, base: nat, d: nat)
    ensures |Breaks(t, base + d)| == |Breaks(t, base)|
    ensures forall i :: 0 <= i < |Breaks(t, base)| ==> Breaks(t, base + d)[i] == Breaks(t, base)[i] + d
  {
    if t != [] {
      BreaksShift(t[1..], base + 1, d);
      var head, rest, moved := if t[0] == '\n' then [base + 1]
        else [], Breaks(t[1..], base + 1), Breaks(t[1..], base + 1 + d);
      assert Breaks(t, base) == head + rest;
      assert Breaks(t, base + d) == (if t[0] == '\n' then [base + d + 1] else []) + moved;
      hide Breaks;
    }
  }

  lemma {:induction false} BreaksRange(t: string, base: nat)
    ensures forall i :: 0 <= i < |Breaks(t, base)| ==> base < Breaks(t, base)[i] <= base + |t|
    ensures forall i, j :: 0 <= i < j < |Breaks(t, base)| ==> Breaks(t, base)[i] < Breaks(t, base)[j]
  {
    if t != [] {
      BreaksRange(t[1..], base + 1);
    }
  }

  /** The starts fall apart at any position: those up to it and those past it. */
  lemma StartsSplit(t: string, pos: nat)
    requires pos <= |t|
    ensures Starts(t) == [0] + Breaks(t[..pos], 0) + Breaks(t[pos..], pos)
    ensures forall i :: 0 <= i <= |Breaks(t[..pos], 0)| ==> Starts(t)[i] <= pos
    ensures forall i :: |Breaks(t[..pos], 0)| < i < |Starts(t)| ==> pos < Starts(t)[i]
  {
    hide Breaks;
    BreaksConcat(t[..pos], t[pos..], 0);
    assert t[..pos] + t[pos..] == t;
    BreaksRange(t[..pos], 0);
    BreaksRange(t[pos..], pos);
  }

  /** How many lines start at or before a position. */
  function LinesUpTo(t: string, pos: nat): nat
    requires pos <= |t|
  {
    1 + |Breaks(t[..pos], 0)|
  }

  lemma StartsIncrease(t: string)
    ensures forall i, j :: 0 <= i < j < |Starts(t)| ==> Starts(t)[i] < Starts(t)[j]
    ensures forall i :: 0 <= i < |Starts(t)| ==> Starts(t)[i] <= |t|
  {
    BreaksRange(t, 0);
  }

  lemma StartsOfInserted(t: string, pos: nat, s: string)
    requires pos <= |t|
    ensures Starts(Inserted(t, pos, s)) == [0] + Breaks(t[..pos], 0) + Breaks(s, pos) + Breaks(t[pos..], pos + |s|)
  {
    hide Breaks;
    BreaksConcat(t[..pos] + s, t[pos..], 0);
    BreaksConcat(t[..pos], s, 0);
    assert [0] + (Breaks(t[..pos], 0) + Breaks(s, pos) + Breaks(t[pos..], pos + |s|))
        == [0] + Breaks(t[..pos], 0) + Breaks(s, pos) + Breaks(t[pos..], pos + |s|);
  }

  /** The incremental update for an insertion: the old starts up to it, its own, and the shifted rest. */
  lemma StartsInserted(t: string, pos: nat, s: string)
    requires pos <= |t|
    ensures var k, was, now := LinesUpTo(t, pos), Starts(t), Starts(Inserted(t, pos, s));
            && k <= |was| && |now| == |was| + |Breaks(s, pos)|
            && now[..k] == was[..k] && now[k..k + |Breaks(s, pos)|] == Breaks(s, pos)
            && forall i :: k <= i < |was| ==> now[i + |Breaks(s, pos)|] == was[i] + |s|
  {
    hide Breaks, Starts, Inserted;
    StartsSplit(t, pos);
    StartsOfInserted(t, pos, s);
    BreaksShift(t[pos..], pos, |s|);
    Thirds([0] + Breaks(t[..pos], 0), Breaks(s, pos), Breaks(t[pos..], pos), Breaks(t[pos..], pos + |s|), |s|);
  }

  lemma Thirds(left: seq<nat>, mid: seq<nat>, was: seq<nat>, now: seq<nat>, d: nat)
    requires |now| == |was| && forall i :: 0 <= i < |was| ==> now[i] == was[i] + d
    ensures (left + mid + now)[..|left|] == (left + was)[..|left|]
    ensures (left + mid + now)[|left|..|left| + |mid|] == mid
    ensures forall i :: |left| <= i < |left + was| ==> (left + mid + now)[i + |mid|] == (left + was)[i] + d
  {
  }

  /** The incremental update for a deletion: starts inside the range go, later ones move down. */
  lemma StartsDeleted(t: string, start: nat, end: nat)
    requires start <= end <= |t|
    ensures var k0, k1, was, now := LinesUpTo(t, start), LinesUpTo(t, end), Starts(t), Starts(Deleted(t, start, end));
            && k0 <= k1 <= |was| && |now| == |was| - (k1 - k0)
            && now[..k0] == was[..k0]
            && forall i :: k0 <= i < |now| ==> now[i] == was[i + (k1 - k0)] - (end - start)
  {
    hide Breaks;
    StartsSplit(t, end);
    BreaksConcat(t[..start], t[start..end], 0);
    assert t[..start] + t[start..end] == t[..end];
    BreaksConcat(t[..start], t[end..], 0);
    BreaksShift(t[end..], start, end - start);
    var left, mid, right := [0] + Breaks(t[..start], 0), Breaks(t[start..end], start), Breaks(t[end..], end);
    assert Starts(t) == left + mid + right;
    assert Starts(Deleted(t, start, end)) == left + Breaks(t[end..], start);
  }

  // ---- the history of actions

  /** What a stacked action does: take away a range, or put a text back. */
  datatype Action = Delete(pos: nat, len: nat) | Insert(pos: nat, text: string)

  predicate Fits(t: string, a: Action) {
    match a
    case Delete(pos, len) => pos + len <= |t|
    case Insert(pos, _) => pos <= |t|
  }

  function Apply(t: string, a: Action): string
    requires Fits(t, a)
  {
    match a
    case Delete(pos, len) => Deleted(t, pos, pos + len)
    case Insert(pos, s) => Inserted(t, pos, s)
  }

  function Inverse(t: string, a: Action): Action
    requires Fits(t, a)
  {
    match a
    case Delete(pos, len) => Insert(pos, t[pos..pos + len])
    case Insert(pos, s) => Delete(pos, |s|)
  }

  /** Applying the inverse gives the text back, and the inverse of that is the action again. */
  lemma InverseUndoes(t: string, a: Action)
    requires Fits(t, a)
    ensures var u, b := Apply(t, a), Inverse(t, a);
            Fits(u, b) && Apply(u, b) == t && Inverse(u, b) == a
  {
    var u, b := Apply(t, a), Inverse(t, a);
    match a {
      case Delete(pos, len) =>
        assert u[..pos] == t[..pos] && u[pos..] == t[pos + len..];
        assert t == t[..pos] + t[pos..pos + len] + t[pos + len..];
      case Insert(pos, s) =>
        assert u[pos..pos + |s|] == s;
        assert u[..pos] == t[..pos] && u[pos + |s|..] == t[pos..];
        assert t == t[..pos] + t[pos..];
    }
  }

  /** The text with its two stacks, tops last. */
  datatype History = History(text: string, undo: seq<Action>, redo: seq<Action>)

  /** Each stacked action fits the text it will meet. */
  ghost predicate Applicable(t: string, stack: seq<Action>)
    decreases |stack|
  {
    stack == [] || (Fits(t, stack[|stack| - 1]) && Applicable(Apply(t, stack[|stack| - 1]), stack[..|stack| - 1]))
  }

  ghost function Unwound(t: string, stack: seq<Action>): string
    requires Applicable(t, stack)
    decreases |stack|
  {
    if stack == [] then t else Unwound(Apply(t, stack[|stack| - 1]), stack[..|stack| - 1])
  }

  /** Every run keeps this: both stacks replay, and undoing everything gives the loaded text. */
  ghost predicate HistoryOk(h: History, loaded: string) {
    Applicable(h.text, h.undo) && Applicable(h.text, h.redo) && Unwound(h.text, h.undo) == loaded
  }

  /** One action moves from one stack to the other, inverted. */
  ghost function Undone(h: History): History
    requires Applicable(h.text, h.undo)
  {
    if h.undo == [] then h
    else
      var a := h.undo[|h.undo| - 1];
      History(Apply(h.text, a), h.undo[..|h.undo| - 1], h.redo + [Inverse(h.text, a)])
  }

  ghost function Redone(h: History): History
    requires Applicable(h.text, h.redo)
  {
    if h.redo == [] then h
    else
      var a := h.redo[|h.redo| - 1];
      History(Apply(h.text, a), h.undo + [Inverse(h.text, a)], h.redo[..|h.redo| - 1])
  }

  /** A new edit is stacked by its inverse and forgets the redo stack. */
  ghost function Edited(h: History, a: Action): History
    requires Fits(h.text, a)
  {
    History(Apply(h.text, a), h.undo + [Inverse(h.text, a)], [])
  }

  lemma PushInverse(t: string, a: Action, stack: seq<Action>)
    requires Fits(t, a) && Applicable(t, stack)
    ensures Applicable(Apply(t, a), stack + [Inverse(t, a)])
    ensures Unwound(Apply(t, a), stack + [Inverse(t, a)]) == Unwound(t, stack)
  {
    InverseUndoes(t, a);
    assert (stack + [Inverse(t, a)])[..|stack|] == stack;
  }

  lemma UndoneOk(h: History, loaded: string)
    requires HistoryOk(h, loaded)
    ensures HistoryOk(Undone(h), loaded)
  {
    if h.undo != [] {
      PushInverse(h.text, h.undo[|h.undo| - 1], h.redo);
    }
  }

  lemma RedoneOk(h: History, loaded: string)
    requires HistoryOk(h, loaded)
    ensures HistoryOk(Redone(h), loaded)
  {
    if h.redo != [] {
      PushInverse(h.text, h.redo[|h.redo| - 1], h.undo);
    }
  }

  lemma EditedOk(h: History, a: Action, loaded: string)
    requires HistoryOk(h, loaded) && Fits(h.text, a)
    ensures HistoryOk(Edited(h, a), loaded)
  {
    PushInverse(h.text, a, h.undo);
  }

  /** Redo right after undo restores text and both stacks. */
  lemma RedoAfterUndo(h: History, loaded: string)
    requires HistoryOk(h, loaded) && h.undo != []
    ensures HistoryOk(Undone(h), loaded) && Redone(Undone(h)) == h
  {
    hide Apply, Inverse, Fits, Unwound;
    UndoneOk(h, loaded);
    var a := h.undo[|h.undo| - 1];
    InverseUndoes(h.text, a);
    assert h.undo[..|h.undo| - 1] + [a] == h.undo;
    assert (h.redo + [Inverse(h.text, a)])[..|h.redo|] == h.redo;
  }

  ghost function UndoneTimes(h: History, k: nat, loaded: string): History
    requires HistoryOk(h, loaded)
    decreases k
  {
    if k == 0 then h else UndoneOk(h, loaded); UndoneTimes(Undone(h), k - 1, loaded)
  }

  ghost function RedoneTimes(h: History, k: nat, loaded: string): History
    requires HistoryOk(h, loaded)
    decreases k
  {
    if k == 0 then h else RedoneOk(h, loaded); RedoneTimes(Redone(h), k - 1, loaded)
  }

  lemma {:induction false} UndoneTimesOk(h: History, k: nat, loaded: string)
    requires HistoryOk(h, loaded)
    ensures HistoryOk(UndoneTimes(h, k, loaded), loaded)
    decreases k
  {
    UndoneOk(h, loaded);
    if k > 0 {
      UndoneTimesOk(Undone(h), k - 1, loaded);
    }
  }

  lemma {:induction false} RedoneLast(h: History, k: nat, loaded: string)
    requires HistoryOk(h, loaded) && k > 0
    ensures HistoryOk(RedoneTimes(h, k - 1, loaded), loaded)
    ensures RedoneTimes(h, k, loaded) == Redone(RedoneTimes(h, k - 1, loaded))
    decreases k
  {
    if k > 1 {
      RedoneOk(h, loaded);
      RedoneLast(Redone(h), k - 1, loaded);
    }
  }

  /** As many redos as undos give back the whole state. */
  lemma {:induction false} RedosUndoUndos(h: History, k: nat, loaded: string)
    requires HistoryOk(h, loaded) && k <= |h.undo|
    ensures HistoryOk(UndoneTimes(h, k, loaded), loaded)
    ensures RedoneTimes(UndoneTimes(h, k, loaded), k, loaded) == h
    decreases k
  {
    assert k > 0 ==> |Undone(h).undo| == |h.undo| - 1;
    assert Applicable(h.text, h.undo);
    hide HistoryOk, Undone, Redone;
    UndoneTimesOk(h, k, loaded);
    if k > 0 {
      RedoAfterUndo(h, loaded);
      RedosUndoUndos(Undone(h), k - 1, loaded);
      RedoneLast(UndoneTimes(h, k, loaded), k, loaded);
    }
  }

  /** Undoing every edit since the load shows the loaded text. */
  lemma {:induction false} UndoAll(h: History, loaded: string)
    requires HistoryOk(h, loaded)
    ensures UndoneTimes(h, |h.undo|, loaded).text == loaded
    decreases |h.undo|
  {
    if h.undo != [] {
      UndoneOk(h, loaded);
      UndoAll(Undone(h), loaded);
    }
  }
}
