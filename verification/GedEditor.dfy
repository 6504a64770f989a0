/** The editing commands of geditor over gap buffer, line index and the two action stacks. */
module GedEditor {
  import opened GedText
  import opened GedBuffer
  import opened GedLines

  function Min(a: int, b: int): int {
    if a < b then a else b
  }

  function Max(a: int, b: int): int {
    if a > b then a else b
  }

  class Editor {
    const text: GapBuf
    const lines: LineIndex
    /** Action stacks, tops last. */
    var undo: seq<Action>
    var redo: seq<Action>
    var cursor: int
    /** The other end of the selection, -1 for none. */
    var selBound: int
    var dirty: bool
    /** The text at the last load. */
    ghost var loaded: string

    ghost predicate Separate()
      reads this, text, lines
    {
      text.buf as object != lines.starts as object
    }

    ghost function State(): History
      reads this, text, text.buf
      requires text.Valid()
    {
      History(text.Text(), undo, redo)
    }

    /** Index, history and positions all agree with the text. */
    ghost predicate Valid()
      reads this, text, text.buf, lines, lines.starts
    {
      && Separate() && text.Valid() && lines.Is(text.Text())
      && HistoryOk(State(), loaded)
      && 0 <= cursor <= |text.Text()| && -1 <= selBound <= |text.Text()|
    }

    /** The editor after loading a file. */
    constructor (content: string)
      ensures Valid() && State() == History(content, [], []) && loaded == content && cursor == 0 && selBound == -1
      ensures fresh(text) && fresh(text.buf) && fresh(lines) && fresh(lines.starts)
    {
      text := new GapBuf(|content|);
      lines := new LineIndex();
      undo, redo, cursor, selBound, dirty, loaded := [], [], 0, -1, false, content;
      new;
      var _ := text.InsertAt(0, content, true);
      assert text.Text() == content;
      lines.Rebuild(text, true);
    }

    /** When the index has no memory to follow, it is scanned anew. */
    method InsertRaw(pos: nat, s: string, memory: bool)
      requires Separate() && text.Valid() && lines.Is(text.Text()) && pos <= |text.Text()|
      modifies `dirty, text, text.buf, lines, lines.starts
      ensures Separate() && text.Valid() && lines.Is(text.Text()) && text.Text() == Inserted(old(text.Text()), pos, s)
      ensures (text.buf == old(text.buf) || fresh(text.buf))
              && (lines.starts == old(lines.starts) || fresh(lines.starts))
    {
      hide Starts, Inserted;
      ghost var was := text.Text();
      var _ := text.InsertAt(pos, s, true);
      var ok := lines.ApplyInsert(pos, s, memory, was);
      if !ok {
        lines.Rebuild(text, true);
      }
      dirty := true;
    }

    method DeleteRaw(start: nat, end: nat)
      requires Separate() && text.Valid() && lines.Is(text.Text()) && start <= end <= |text.Text()|
      modifies `dirty, text`gapStart, text`gapEnd, text.buf, lines`count, lines.starts
      ensures Separate() && text.Valid() && lines.Is(text.Text())
              && text.Text() == Deleted(old(text.Text()), start, end)
    {
      hide Starts, Deleted;
      ghost var was := text.Text();
      DeletedEmpty(was, start);
      text.DeleteRange(start, end);
      lines.ApplyDelete(start, end, was);
      dirty := true;
    }

    /** Applies an action to the text and gives back its inverse. */
    method Perform(a: Action, memory: bool) returns (inverse: Action)
      requires Separate() && text.Valid() && lines.Is(text.Text()) && Fits(text.Text(), a)
      modifies `dirty, `cursor, `selBound, text, text.buf, lines, lines.starts
      ensures Separate() && text.Valid() && lines.Is(text.Text())
      ensures text.Text() == Apply(old(text.Text()), a) && inverse == Inverse(old(text.Text()), a)
      ensures 0 <= cursor <= |text.Text()| && selBound == -1
      ensures (text.buf == old(text.buf) || fresh(text.buf))
              && (lines.starts == old(lines.starts) || fresh(lines.starts))
    {
      hide Starts;
      match a {
        case Delete(pos, len) =>
          var txt := text.CopyRange(pos, pos + len);
          DeleteRaw(pos, pos + len);
          cursor := pos;
          selBound := -1;
          inverse := Insert(pos, txt);
        case Insert(pos, s) =>
          InsertRaw(pos, s, memory);
          cursor := pos + |s|;
          selBound := -1;
          inverse := Delete(pos, |s|);
      }
    }

    method Undo(memory: bool)
      requires Valid()
      modifies this, text, text.buf, lines, lines.starts
      ensures Valid() && loaded == old(loaded) && State() == Undone(old(State()))
    {
      hide Starts, HistoryOk, Fits, Apply, Inverse;
      if undo == [] {
        return;
      }
      TopFits(State(), loaded);
      UndoneOk(State(), loaded);
      var a := undo[|undo| - 1];
      undo := undo[..|undo| - 1];
      var inverse := Perform(a, memory);
      redo := redo + [inverse];
    }

    method Redo(memory: bool)
      requires Valid()
      modifies this, text, text.buf, lines, lines.starts
      ensures Valid() && loaded == old(loaded) && State() == Redone(old(State()))
    {
      hide Starts, HistoryOk, Fits, Apply, Inverse;
      if redo == [] {
        return;
      }
      TopFits(State(), loaded);
      RedoneOk(State(), loaded);
      var a := redo[|redo| - 1];
      redo := redo[..|redo| - 1];
      var inverse := Perform(a, memory);
      undo := undo + [inverse];
    }

    /** An insertion that can be undone; it forgets the redo stack. */
    method InsertWithUndoAt(pos: nat, s: string, memory: bool)
      requires Valid() && pos <= |text.Text()|
      modifies this, text, text.buf, lines, lines.starts
      ensures Valid() && loaded == old(loaded) && cursor == old(cursor) && selBound == old(selBound)
      ensures State() == if s == [] then old(State()) else Edited(old(State()), Insert(pos, s))
      ensures |text.Text()| == |old(text.Text())| + |s|
    {
      hide Starts, HistoryOk, Inserted;
      if |s| == 0 {
        return;
      }
      EditedOk(State(), Insert(pos, s), loaded);
      InsertedLonger(text.Text(), pos, s);
      redo := [];
      undo := undo + [Delete(pos, |s|)];
      InsertRaw(pos, s, memory);
    }

    method DeleteRange(start: nat, end: nat)
      requires Valid() && end <= |text.Text()|
      modifies this, text, text.buf, lines, lines.starts
      ensures Valid() && loaded == old(loaded)
      ensures State() == if start < end then Edited(old(State()), Delete(start, end - start)) else old(State())
      ensures start < end ==> cursor == start && selBound == -1
      ensures start >= end ==> cursor == old(cursor) && selBound == old(selBound)
      ensures text.buf == old(text.buf) && lines.starts == old(lines.starts)
    {
      hide Starts, HistoryOk;
      if start >= end {
        return;
      }
      EditedOk(State(), Delete(start, end - start), loaded);
      var deleted := text.CopyRange(start, end);
      redo := [];
      undo := undo + [Insert(start, deleted)];
      DeleteRaw(start, end);
      cursor := start;
      selBound := -1;
    }

    /** Typing: the selection goes, then the text comes in at the cursor; an empty selection grows over it. */
    method InsertStr(s: string, memory: bool)
      requires Valid()
      modifies this, text, text.buf, lines, lines.starts
      ensures Valid() && loaded == old(loaded)
      ensures var lo, hi := Min(old(selBound), old(cursor)), Max(old(selBound), old(cursor));
              var cut := old(selBound) != -1 && lo < hi;
              var mid := if cut then Edited(old(State()), Delete(lo, hi - lo)) else old(State());
              var at := if cut then lo else old(cursor);
              && cursor == at + |s| && selBound == (if cut then -1 else old(selBound))
              && State() == if s == [] then mid else Edited(mid, Insert(at, s))
    {
      hide Starts, HistoryOk, Apply, Inverse;
      if selBound != -1 {
        DeleteRange(Min(selBound, cursor), Max(selBound, cursor));
      }
      InsertWithUndoAt(cursor, s, memory);
      cursor := cursor + |s|;
    }

    method Backspace()
      requires Valid()
      modifies this, text, text.buf, lines, lines.starts
      ensures Valid() && loaded == old(loaded)
      ensures var lo := if old(selBound) != -1 then Min(old(selBound), old(cursor)) else old(cursor) - 1;
              var hi := if old(selBound) != -1 then Max(old(selBound), old(cursor)) else old(cursor);
              if 0 <= lo < hi then cursor == lo && selBound == -1
                && State() == Edited(old(State()), Delete(lo, hi - lo))
              else cursor == old(cursor) && selBound == old(selBound) && State() == old(State())
    {
      hide Starts, HistoryOk;
      if selBound != -1 {
        DeleteRange(Min(selBound, cursor), Max(selBound, cursor));
      } else if cursor > 0 {
        DeleteRange(cursor - 1, cursor);
      }
    }
  }

  lemma DeletedEmpty(t: string, pos: nat)
    requires pos <= |t|
    ensures Deleted(t, pos, pos) == t
  {
  }

  lemma InsertedLonger(t: string, pos: nat, s: string)
    requires pos <= |t|
    ensures |Inserted(t, pos, s)| == |t| + |s|
  {
  }

  /** The top of either stack fits the text. */
  lemma TopFits(h: History, loaded: string)
    requires HistoryOk(h, loaded)
    ensures h.undo != [] ==> Fits(h.text, h.undo[|h.undo| - 1])
    ensures h.redo != [] ==> Fits(h.text, h.redo[|h.redo| - 1])
  {
  }
}
