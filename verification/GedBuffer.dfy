/** The gap buffer of geditor: a text kept as two runs with a gap between them. */
module GedBuffer {
  import opened GedText

  function Clamp(pos: int, len: nat): nat {
    if pos < 0 then 0 else if pos > len then len else pos
  }

  class GapBuf {
    var buf: array<char>
    var gapStart: nat
    var gapEnd: nat

    ghost predicate Valid()
      reads this
    {
      gapStart <= gapEnd <= buf.Length && buf.Length > 0
    }

    /** The text: what lies before the gap and what lies after it. */
    ghost function Text(): string
      reads this, buf
      requires Valid()
    {
      buf[..gapStart] + buf[gapEnd..]
    }

    constructor (initialCap: int)
      ensures Valid() && fresh(buf) && Text() == []
    {
      buf := new char[if initialCap < 64 then 64 else initialCap];
      gapStart := 0;
      gapEnd := if initialCap < 64 then 64 else initialCap;
    }

    function Len(): (n: nat)
      reads this, buf
      requires Valid()
      ensures n == |Text()|
    {
      buf.Length - (gapEnd - gapStart)
    }

    /** The character at a position; zero outside the text. */
    function CharAt(pos: int): (c: char)
      reads this, buf
      requires Valid()
      ensures c == if 0 <= pos < |Text()| then Text()[pos] else 0 as char
    {
      if pos < 0 || pos >= Len() then 0 as char
      else if pos < gapStart then buf[pos]
      else buf[pos + (gapEnd - gapStart)]
    }

    /** The end of the first run moves over the gap. */
    method SlideLeft(move: nat)
      requires Valid() && move <= gapStart
      modifies this`gapStart, this`gapEnd, buf
      ensures Valid() && Text() == old(Text())
      ensures gapStart == old(gapStart) - move && gapEnd == old(gapEnd) - move
    {
      ghost var text := Text();
      var from, to := gapStart - move, gapEnd - move;
      forall i | 0 <= i < move {
        buf[to + i] := buf[from + i];
      }
      gapStart := gapStart - move;
      gapEnd := gapEnd - move;
      assert Text() == text;
    }

    /** The beginning of the second run moves over the gap. */
    method SlideRight(move: nat)
      requires Valid() && move <= buf.Length - gapEnd
      modifies this`gapStart, this`gapEnd, buf
      ensures Valid() && Text() == old(Text())
      ensures gapStart == old(gapStart) + move && gapEnd == old(gapEnd) + move
    {
      ghost var text := Text();
      var from, to := gapEnd, gapStart;
      forall i | 0 <= i < move {
        buf[to + i] := buf[from + i];
      }
      gapStart := gapStart + move;
      gapEnd := gapEnd + move;
      assert Text() == text;
    }

    method MoveGap(pos: int)
      requires Valid()
      modifies this`gapStart, this`gapEnd, buf
      ensures Valid() && Text() == old(Text()) && gapStart == Clamp(pos, |Text()|)
      ensures gapEnd - gapStart == old(gapEnd - gapStart)
    {
      var p := Clamp(pos, Len());
      if p < gapStart {
        SlideLeft(gapStart - p);
      } else if p > gapStart {
        SlideRight(p - gapStart);
      }
    }

    /** Makes room by doubling, then by half; the two runs keep to the two ends. */
    method EnsureGap(need: nat, memory: bool) returns (ok: bool)
      requires Valid()
      modifies this
      ensures Valid() && Text() == old(Text()) && gapStart == old(gapStart)
      ensures buf == old(buf) || fresh(buf)
      ensures ok ==> need <= gapEnd - gapStart
      ensures memory ==> ok
    {
      if need <= gapEnd - gapStart {
        return true;
      }
      var len := Len();
      var newCap := buf.Length;
      while newCap - len < need
        invariant newCap >= buf.Length
        decreases need - (newCap - len)
      {
        newCap := if newCap < 1024 then newCap * 2 else newCap + newCap / 2;
      }
      if !memory {
        return false;
      }
      Regrow(newCap);
      return true;
    }

    /** Moves to a larger buffer: the text before the gap to its start, the text after the gap to its end. */
    method Regrow(newCap: nat)
      requires Valid() && buf.Length <= newCap
      modifies this
      ensures Valid() && Text() == old(Text()) && gapStart == old(gapStart) && fresh(buf)
      ensures gapEnd - gapStart == newCap - |Text()|
    {
      var before, after := gapStart, buf.Length - gapEnd;
      var nb := new char[newCap];
      forall i | 0 <= i < before {
        nb[i] := buf[i];
      }
      var from, to := gapEnd, newCap - after;
      forall i | 0 <= i < after {
        nb[to + i] := buf[from + i];
      }
      assert nb[..before] == buf[..before] && nb[to..] == buf[gapEnd..];
      buf := nb;
      gapEnd := newCap - after;
    }

    method InsertAt(pos: int, s: string, memory: bool) returns (ok: bool)
      requires Valid()
      modifies this, buf
      ensures Valid() && (buf == old(buf) || fresh(buf)) && (memory ==> ok)
      ensures ok ==> Text() == Inserted(old(Text()), Clamp(pos, |old(Text())|), s)
      ensures !ok ==> Text() == old(Text())
    {
      if |s| == 0 {
        assert Inserted(Text(), Clamp(pos, |Text()|), s) == Text();
        return true;
      }
      ghost var text := Text();
      MoveGap(pos);
      ok := EnsureGap(|s|, memory);
      if !ok {
        return;
      }
      var at := gapStart;
      assert buf[..at] == text[..at] && buf[gapEnd..] == text[at..];
      ghost var left, right := buf[..at], buf[gapEnd..];
      forall i | 0 <= i < |s| {
        buf[at + i] := s[i];
      }
      gapStart := gapStart + |s|;
      assert buf[..gapStart] == left + s;
      assert buf[gapEnd..] == right;
    }

    method DeleteRange(start: int, end: int)
      requires Valid()
      modifies this`gapStart, this`gapEnd, buf
      ensures Valid()
      ensures var s, e := Clamp(start, |old(Text())|), Clamp(end, |old(Text())|);
              Text() == if s < e then Deleted(old(Text()), s, e) else old(Text())
    {
      var len := Len();
      var s, e := if start < 0 then 0 else start, if end > len then len else end;
      if s >= e {
        return;
      }
      ghost var text := Text();
      MoveGap(s);
      assert buf[..s] == text[..s] && buf[gapEnd..] == text[s..];
      gapEnd := gapEnd + (e - s);
      assert buf[gapEnd..] == text[s..][e - s..];
      assert text[s..][e - s..] == text[e..];
    }

    method CopyRange(start: int, end: int) returns (out: string)
      requires Valid()
      ensures var s, e := Clamp(start, |Text()|), Clamp(end, |Text()|);
              out == if s < e then Text()[s..e] else []
    {
      var len := Len();
      var s, e := if start < 0 then 0 else start, if end > len then len else end;
      out := [];
      if s >= e {
        return;
      }
      var i := 0;
      while i < e - s
        invariant 0 <= i <= e - s && out == Text()[s..s + i]
      {
        out := out + [CharAt(s + i)];
        i := i + 1;
      }
    }
  }
}
