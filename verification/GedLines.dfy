/** The line index of geditor: where every line starts, kept up to date edit by edit. */
module GedLines {
  import opened GedText
  import opened GedBuffer

  ghost predicate Increasing(a: seq<nat>) {
    forall i, j :: 0 <= i < j < |a| ==> a[i] < a[j]
  }

  class LineIndex {
    var starts: array<nat>
    var count: nat

    ghost predicate Valid()
      reads this
    {
      count <= starts.Length
    }

    /** The index is what a full rescan of this text would give. */
    ghost predicate Is(t: string)
      reads this, starts
    {
      Valid() && starts[..count] == Starts(t)
    }

    constructor ()
      ensures Valid() && fresh(starts) && count == 0
    {
      starts := new nat[0];
      count := 0;
    }

    /** The number of starts below the key. */
    method LowerBound(key: nat) returns (r: nat)
      requires Valid() && Increasing(starts[..count])
      ensures r <= count
      ensures forall i :: 0 <= i < r ==> starts[i] < key
      ensures forall i :: r <= i < count ==> key <= starts[i]
    {
      r := 0;
      var hi := count;
      while r < hi
        invariant r <= hi <= count
        invariant forall i :: 0 <= i < r ==> starts[..count][i] < key
        invariant forall i :: hi <= i < count ==> key <= starts[..count][i]
      {
        var mid := (r + hi) / 2;
        assert starts[mid] == starts[..count][mid];
        if starts[mid] < key {
          r := mid + 1;
        } else {
          hi := mid;
        }
      }
      assert forall i :: 0 <= i < count ==> starts[i] == starts[..count][i];
    }

    /** The number of starts not above the key. */
    method UpperBound(key: nat) returns (r: nat)
      requires Valid() && Increasing(starts[..count])
      ensures r <= count
      ensures forall i :: 0 <= i < r ==> starts[i] <= key
      ensures forall i :: r <= i < count ==> key < starts[i]
    {
      r := 0;
      var hi := count;
      while r < hi
        invariant r <= hi <= count
        invariant forall i :: 0 <= i < r ==> starts[..count][i] <= key
        invariant forall i :: hi <= i < count ==> key < starts[..count][i]
      {
        var mid := (r + hi) / 2;
        assert starts[mid] == starts[..count][mid];
        if starts[mid] <= key {
          r := mid + 1;
        } else {
          hi := mid;
        }
      }
      assert forall i :: 0 <= i < count ==> starts[i] == starts[..count][i];
    }

    /** The line that holds a position: the last one that starts at or before it. */
    method FindLine(pos: int) returns (line: nat)
      requires Valid() && Increasing(starts[..count]) && count > 0 && starts[0] == 0
      ensures line < count && (pos >= 0 ==> starts[line] <= pos)
      ensures line + 1 < count ==> pos < starts[line + 1]
    {
      assert forall i :: 0 <= i < count ==> starts[i] == starts[..count][i];
      line := 0;
      if pos > 0 {
        var lo, hi: int := 0, count - 1;
        while lo <= hi
          invariant 0 <= lo < count && lo <= hi + 1 <= count
          invariant starts[lo] <= pos && (hi + 1 < count ==> pos < starts[hi + 1])
        {
          var mid := (lo + hi) / 2;
          if starts[mid] <= pos {
            if mid + 1 >= count || starts[mid + 1] > pos {
              line := mid;
              break;
            }
            lo := mid + 1;
          } else {
            hi := mid - 1;
          }
        }
      }
    }

    /** Makes room for more entries; those in use are kept. */
    method Ensure(need: nat, memory: bool) returns (ok: bool)
      requires Valid()
      modifies this
      ensures Valid() && count == old(count) && starts[..count] == old(starts[..count])
      ensures starts == old(starts) || fresh(starts)
      ensures ok ==> need <= starts.Length
      ensures memory ==> ok
    {
      if need <= starts.Length {
        return true;
      }
      var newCap := if starts.Length > 0 then starts.Length else 64;
      while newCap < need
        invariant newCap >= starts.Length && newCap > 0
      {
        newCap := newCap * 2;
      }
      if !memory {
        return false;
      }
      var ns := new nat[newCap];
      forall i | 0 <= i < count {
        ns[i] := starts[i];
      }
      assert ns[..count] == starts[..count];
      starts := ns;
      return true;
    }

    /** Fills the index from the text, with room for all of it. */
    method Scan(g: GapBuf)
      requires Valid() && g.Valid() && |Breaks(g.Text(), 0)| + 1 < starts.Length
      modifies this`count, starts
      ensures Is(g.Text())
    {
      hide Breaks;
      ghost var t := g.Text();
      var len := g.Len();
      starts[0] := 0;
      var n, i := 1, 0;
      assert Breaks(t[..0], 0) == [] by { NoBreaks(t); }
      while i < len
        invariant 0 <= i <= len && g.Valid() && g.Text() == t
        invariant n == 1 + |Breaks(t[..i], 0)| <= 1 + |Breaks(t, 0)| < starts.Length
        invariant starts[..n] == [0] + Breaks(t[..i], 0)
      {
        BreaksNext(t, i, 0);
        BreaksBelow(t, i + 1, 0);
        if g.CharAt(i) == '\n' {
          starts[n] := i + 1;
          n := n + 1;
        }
        i := i + 1;
      }
      assert t[..len] == t;
      count := n;
    }

    /** One more than the lines of the text. */
    static method CountLines(g: GapBuf) returns (approx: nat)
      requires g.Valid()
      ensures approx == 2 + |Breaks(g.Text(), 0)|
    {
      hide Breaks;
      ghost var t := g.Text();
      var len := g.Len();
      approx := 2;
      NoBreaks(t);
      var i := 0;
      while i < len
        invariant 0 <= i <= len && approx == 2 + |Breaks(t[..i], 0)|
      {
        BreaksNext(t, i, 0);
        if g.CharAt(i) == '\n' {
          approx := approx + 1;
        }
        i := i + 1;
      }
      assert t[..len] == t;
    }

    /** A full rescan. */
    method Rebuild(g: GapBuf, memory: bool)
      requires Valid() && g.Valid()
      modifies this, starts
      ensures Valid() && (starts == old(starts) || fresh(starts))
      ensures memory ==> Is(g.Text())
    {
      var approx := CountLines(g);
      var ok := Ensure(approx, memory);
      if !ok {
        count := 0;
        return;
      }
      Scan(g);
    }

    /** The newlines of a string. */
    static method CountBreaks(s: string) returns (nl: nat)
      ensures nl == |Breaks(s, 0)|
    {
      hide Breaks;
      nl := 0;
      NoBreaks(s);
      for i := 0 to |s|
        invariant nl == |Breaks(s[..i], 0)|
      {
        BreaksNext(s, i, 0);
        if s[i] == '\n' {
          nl := nl + 1;
        }
      }
      assert s[..|s|] == s;
    }

    /** Adds to every entry from a position on. */
    method Shift(from: nat, d: int)
      requires Valid() && from <= count && forall i :: from <= i < count ==> starts[..count][i] + d >= 0
      modifies starts
      ensures starts[..count] == Shifted(old(starts[..count]), from, d)
    {
      for i := from to count
        invariant forall j :: from <= j < i ==> starts[j] == old(starts[j]) + d
        invariant forall j :: 0 <= j < from || i <= j < starts.Length ==> starts[j] == old(starts[j])
      {
        assert old(starts[..count])[i] == old(starts[i]);
        starts[i] := starts[i] + d;
      }
    }

    /** Moves the entries from a position on by nl places. */
    method OpenGap(at: nat, nl: nat)
      requires Valid() && at <= count && count + nl <= starts.Length
      modifies starts
      ensures starts[..at] == old(starts[..at]) && starts[at + nl..count + nl] == old(starts[at..count])
    {
      var tail := count - at;
      forall i | 0 <= i < tail {
        starts[at + nl + i] := starts[at + i];
      }
    }

    /** Writes the starts of the inserted lines at a position. */
    method WriteBreaks(at: nat, pos: nat, s: string)
      requires Valid() && at + |Breaks(s, pos)| <= starts.Length
      modifies starts
      ensures starts[at..at + |Breaks(s, pos)|] == Breaks(s, pos)
      ensures starts[..at] == old(starts[..at])
      ensures starts[at + |Breaks(s, pos)|..] == old(starts[at + |Breaks(s, pos)|..])
    {
      hide Breaks;
      ghost var nl := |Breaks(s, pos)|;
      var j := 0;
      NoBreaksAt(s, pos);
      for i := 0 to |s|
        invariant j == |Breaks(s[..i], pos)| <= nl && starts[..at] == old(starts[..at])
        invariant starts[at..at + j] == Breaks(s[..i], pos)
        invariant starts[at + nl..] == old(starts[at + nl..])
      {
        BreaksNext(s, i, pos);
        BreaksBelow(s, i + 1, pos);
        if s[i] == '\n' {
          starts[at + j] := pos + i + 1;
          j := j + 1;
        }
      }
      assert s[..|s|] == s;
    }

    method Splice(at: nat, nl: nat, pos: nat, s: string)
      requires Valid() && at <= count && count + nl <= starts.Length && nl == |Breaks(s, pos)|
      modifies this`count, starts
      ensures Valid() && starts[..count] == old(starts[..count])[..at] + Breaks(s, pos) + old(starts[..count])[at..]
    {
      hide Breaks;
      OpenGap(at, nl);
      ghost var rest := starts[at + nl..count + nl];
      WriteBreaks(at, pos, s);
      assert starts[at + nl..count + nl] == rest;
      count := count + nl;
    }

    /** Follows an insertion of s at pos; the index was right for the text before it. */
    method ApplyInsert(pos: nat, s: string, memory: bool, ghost t: string) returns (ok: bool)
      requires Is(t) && pos <= |t|
      modifies this, starts
      ensures Valid() && (starts == old(starts) || fresh(starts)) && (memory ==> ok)
      ensures ok ==> Is(Inserted(t, pos, s))
      ensures !ok ==> Is(t)
    {
      hide Breaks, Starts, Inserted, Shifted;
      IndexFacts(t, pos);
      var line := FindLine(pos);
      FoundLine(starts[..count], t, pos, line);
      var nl := CountBreaks(s);
      BreaksShift(s, 0, pos);
      InsertedIs(t, pos, s, line + 1);
      if nl > 0 {
        ok := Ensure(count + nl, memory);
        if !ok {
          return;
        }
        Splice(line + 1, nl, pos, s);
      } else {
        assert Starts(t)[..line + 1] + Breaks(s, pos) + Starts(t)[line + 1..] == Starts(t);
      }
      Shift(line + 1 + nl, |s|);
      return true;
    }

    /** Takes the entries from rm0 up to rm1 out. */
    method CloseGap(rm0: nat, rm1: nat)
      requires Valid() && rm0 <= rm1 <= count
      modifies this`count, starts
      ensures Valid() && starts[..count] == old(starts[..count])[..rm0] + old(starts[..count])[rm1..]
    {
      var tail := count - rm1;
      forall i | 0 <= i < tail {
        starts[rm0 + i] := starts[rm1 + i];
      }
      count := count - (rm1 - rm0);
    }

    /** Follows the deletion of a range; the index was right for the text before it. */
    method ApplyDelete(start: nat, end: nat, ghost t: string)
      requires Is(t) && start <= end <= |t|
      modifies this`count, starts
      ensures Is(Deleted(t, start, end))
    {
      hide Breaks, Starts, Deleted, Shifted;
      var delta := end - start;
      IndexFacts(t, start);
      if delta == 0 {
        assert Deleted(t, start, end) == t by { DeletedNone(t, start); }
        return;
      }
      var rm0 := LowerBound(start + 1);
      var rm1 := UpperBound(end);
      Boundary(starts[..count], t, start, rm0);
      Boundary(starts[..count], t, end, rm1);
      DeletedIs(t, start, end, rm0, rm1);
      CloseGap(rm0, rm1);
      Shift(rm0, -delta);
    }
  }

  lemma NoBreaks(t: string)
    ensures Breaks(t[..0], 0) == []
  {
  }

  lemma NoBreaksAt(t: string, base: nat)
    ensures Breaks(t[..0], base) == []
  {
  }

  lemma BreaksBelow(t: string, i: nat, base: nat)
    requires i <= |t|
    ensures |Breaks(t[..i], base)| <= |Breaks(t, base)|
  {
    BreaksConcat(t[..i], t[i..], base);
    assert t[..i] + t[i..] == t;
  }

  /** The breaks of a prefix grow with it. */
  lemma BreaksNext(t: string, i: nat, base: nat)
    requires i < |t|
    ensures Breaks(t[..0], base) == []
    ensures Breaks(t[..i + 1], base) == Breaks(t[..i], base) + if t[i] == '\n' then [base + i + 1] else []
  {
    BreaksConcat(t[..i], [t[i]], base);
    assert t[..i + 1] == t[..i] + [t[i]];
  }

  /** What the searches need to know of an index that is right. */
  lemma IndexFacts(t: string, pos: nat)
    requires pos <= |t|
    ensures |Starts(t)| > 0 && Starts(t)[0] == 0 && Increasing(Starts(t))
  {
    StartsIncrease(t);
  }

  /** The line of a position is the last of those that start up to it. */
  lemma FoundLine(a: seq<nat>, t: string, pos: nat, line: nat)
    requires a == Starts(t) && pos <= |t| && line < |a| && a[line] <= pos && (line + 1 < |a| ==> pos < a[line + 1])
    ensures line + 1 == LinesUpTo(t, pos)
  {
    StartsSplit(t, pos);
  }

  function Shifted(a: seq<nat>, from: nat, d: int): seq<nat>
    requires from <= |a| && forall i :: from <= i < |a| ==> a[i] + d >= 0
  {
    seq(|a|, i requires 0 <= i < |a| => if i < from then a[i] else a[i] + d)
  }

  /** Old starts up to the line, the new ones, and the shifted rest make up the new index. */
  lemma InsertedIs(t: string, pos: nat, s: string, at: nat)
    requires pos <= |t| && at == LinesUpTo(t, pos)
    ensures at <= |Starts(t)|
    ensures var a := Starts(t)[..at] + Breaks(s, pos) + Starts(t)[at..];
            Starts(Inserted(t, pos, s)) == Shifted(a, at + |Breaks(s, pos)|, |s|)
  {
    hide Breaks, Starts, Inserted;
    StartsInserted(t, pos, s);
    var was, mid, goal := Starts(t), Breaks(s, pos), Starts(Inserted(t, pos, s));
    var nl := |mid|;
    var now := Shifted(was[..at] + mid + was[at..], at + nl, |s|);
    forall i | 0 <= i < |now| ensures now[i] == goal[i] {
      if i < at {
        assert goal[i] == goal[..at][i];
      } else if i < at + nl {
        assert goal[i] == goal[at..at + nl][i - at];
      } else {
        assert goal[(i - nl) + nl] == was[i - nl] + |s|;
      }
    }
  }

  lemma DeletedNone(t: string, pos: nat)
    requires pos <= |t|
    ensures Deleted(t, pos, pos) == t
  {
  }

  /** Where the entries pass a position is where the lines up to it end. */
  lemma Boundary(a: seq<nat>, t: string, pos: nat, k: nat)
    requires a == Starts(t) && pos <= |t| && k <= |a|
    requires forall i :: 0 <= i < k ==> a[i] <= pos
    requires forall i :: k <= i < |a| ==> pos < a[i]
    ensures k == LinesUpTo(t, pos)
  {
    StartsSplit(t, pos);
    var n := LinesUpTo(t, pos);
    assert a[n - 1] <= pos && (n < |a| ==> pos < a[n]);
    assert (k > 0 ==> a[k - 1] <= pos) && (k < |a| ==> pos < a[k]);
  }

  /** Without the starts inside the range, and the later ones moved down, the index is right again. */
  lemma DeletedIs(t: string, start: nat, end: nat, rm0: nat, rm1: nat)
    requires start <= end <= |t| && rm0 == LinesUpTo(t, start) && rm1 == LinesUpTo(t, end)
    ensures rm0 <= rm1 <= |Starts(t)|
    ensures var a := Starts(t)[..rm0] + Starts(t)[rm1..];
            && (forall i :: rm0 <= i < |a| ==> a[i] - (end - start) >= 0)
            && Starts(Deleted(t, start, end)) == Shifted(a, rm0, -(end - start))
  {
    hide Breaks, Starts, Deleted;
    StartsDeleted(t, start, end);
    var was, goal := Starts(t), Starts(Deleted(t, start, end));
    var a := was[..rm0] + was[rm1..];
    forall i | rm0 <= i < |a| ensures a[i] - (end - start) == goal[i] {
      assert a[i] == was[i + (rm1 - rm0)];
    }
    var now := Shifted(a, rm0, -(end - start));
    forall i | 0 <= i < |now| ensures now[i] == goal[i] {
      if i < rm0 {
        assert goal[i] == goal[..rm0][i];
      }
    }
  }
}
