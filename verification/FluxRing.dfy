/** The byte ring that both ends of the compositor protocol receive into. */
module FluxRing {
  import opened Machine

  /** The slot i places after a masked counter, which may go round the end once. */
  lemma SlotAfter(cap: nat, n: nat, i: nat)
    requires 0 < cap && i < cap
    ensures (n + i) % cap == if n % cap + i < cap then n % cap + i else n % cap + i - cap
  {
    var q, r := n / cap, n % cap;
    assert n == q * cap + r;
    if r + i < cap {
      Remainder(n + i, cap, q, r + i);
    } else {
      assert n + i == (q + 1) * cap + (r + i - cap);
      Remainder(n + i, cap, q + 1, r + i - cap);
    }
  }

  /** The stored bytes, oldest first, are where the read counter says. */
  ghost predicate Holds(buf: seq<Byte>, first: nat, content: seq<Byte>) {
    |content| <= |buf| && 0 < |buf| && forall i :: 0 <= i < |content| ==> buf[(first + i) % |buf|] == content[i]
  }

  /** The buffer after a copy in two pieces that goes round the end. */
  function Written(buf: seq<Byte>, at: nat, src: seq<Byte>): seq<Byte>
    requires at < |buf| && |src| <= |buf|
  {
    seq(|buf|, k requires 0 <= k < |buf| =>
      if at <= k < at + |src| then src[k - at]
      else if k + |buf| < at + |src| then src[k + |buf| - at]
      else buf[k])
  }

  /** Writing behind the stored bytes leaves them alone and stores the new ones after them. */
  lemma WrittenHolds(buf: seq<Byte>, first: nat, content: seq<Byte>, src: seq<Byte>)
    requires Holds(buf, first, content) && |content| + |src| <= |buf|
    ensures Holds(Written(buf, (first + |content|) % |buf|, src), first, content + src)
  {
    var cap, next := |buf|, first + |content|;
    var at := next % cap;
    var buf2 := Written(buf, at, src);
    forall i | 0 <= i < |content + src| ensures buf2[(first + i) % cap] == (content + src)[i] {
      if i < |content| {
        NotOverwritten(cap, first + i, next, |src|);
      } else if src != [] {
        SlotAfter(cap, next, i - |content|);
        assert first + i == next + (i - |content|);
      }
    }
  }

  /** A stored slot is not among the next ones to be written. */
  lemma NotOverwritten(cap: nat, pos: nat, next: nat, n: nat)
    requires 0 < cap && pos < next && next + n <= pos + cap
    ensures var k, at := pos % cap, next % cap; !(at <= k < at + n) && !(k + cap < at + n)
  {
    var k, at := pos % cap, next % cap;
    if at <= k < at + n {
      SlotAfter(cap, next, k - at);
      SlotsDiffer(cap, pos, next + (k - at));
    } else if k + cap < at + n {
      SlotAfter(cap, next, k + cap - at);
      SlotsDiffer(cap, pos, next + (k + cap - at));
    }
  }

  lemma DropHolds(buf: seq<Byte>, first: nat, content: seq<Byte>, n: nat)
    requires Holds(buf, first, content) && n <= |content|
    ensures Holds(buf, first + n, content[n..])
  {
    forall i | 0 <= i < |content| - n ensures buf[(first + n + i) % |buf|] == content[n..][i] {
      assert first + n + i == first + (n + i);
      assert buf[(first + (n + i)) % |buf|] == content[n + i];
    }
  }

  /** Reading in two pieces that go round the end. */
  lemma PeekHolds(buf: seq<Byte>, first: nat, content: seq<Byte>, off: nat, n: nat, ri: nat)
    requires Holds(buf, first, content) && off + n <= |content| && ri == (first + off) % |buf|
    ensures var head := if |buf| - ri > n then n else |buf| - ri;
            buf[ri..ri + head] + buf[..n - head] == content[off..off + n]
  {
    var cap := |buf|;
    var head := if cap - ri > n then n else cap - ri;
    var out := buf[ri..ri + head] + buf[..n - head];
    assert n <= cap && ri < cap;
    hide Holds;
    forall i: nat | i < n ensures out[i] == content[off + i] {
      PeekOne(buf, first, content, off, i);
    }
  }

  lemma PeekOne(buf: seq<Byte>, first: nat, content: seq<Byte>, off: nat, i: nat)
    requires Holds(buf, first, content) && off + i < |content|
    ensures var ri := (first + off) % |buf|;
            content[off + i] == buf[if ri + i < |buf| then ri + i else ri + i - |buf|]
  {
    SlotAfter(|buf|, first + off, i);
    assert first + off + i == first + (off + i);
    assert buf[(first + (off + i)) % |buf|] == content[off + i];
  }

  /** The last bytes of a stream, as many as fit. */
  function Newest(all: seq<Byte>, cap: nat): seq<Byte> {
    all[if |all| > cap then |all| - cap else 0..]
  }

  lemma NewestOf(content: seq<Byte>, src: seq<Byte>, cap: nat)
    requires |content| <= cap
    ensures |content| + |src| <= cap ==> Newest(content + src, cap) == content + src
    ensures src == [] ==> Newest(content + src, cap) == content
    ensures |src| > cap ==> Newest(content + src, cap) == [] + src[|src| - cap..]
    ensures |src| <= cap < |content| + |src| ==> Newest(content + src, cap) == content[|content| + |src| - cap..] + src
  {
  }

  class Ring {
    const buf: array<Byte>
    var r: nat
    var w: nat
    /** The counters without wrap-around, and the bytes between them. */
    ghost var readCount: nat
    ghost var content: seq<Byte>

    ghost predicate Valid()
      reads this, buf
    {
      && Capacity(buf.Length) && Holds(buf[..], readCount, content)
      && r == Wrap(readCount) && w == Wrap(readCount + |content|)
    }

    constructor (cap: nat)
      requires Capacity(cap)
      ensures Valid() && fresh(buf) && content == [] && buf.Length == cap
    {
      buf := new Byte[cap](_ => 0);
      r, w, readCount, content := 0, 0, 0, [];
    }

    method Count() returns (n: nat)
      requires Valid()
      ensures n == |content| <= buf.Length
    {
      WrapDistance(readCount, readCount + |content|);
      n := Wrap(w - r);
    }

    method Drop(n: nat)
      requires Valid()
      modifies `r, `readCount, `content
      ensures Valid() && content == old(content)[if n > |old(content)| then |old(content)| else n..]
    {
      var c := Count();
      var d := if n > c then c else n;
      DropHolds(buf[..], readCount, content, d);
      WrapAdd(readCount, d);
      r := Wrap(r + d);
      readCount := readCount + d;
      content := content[d..];
    }

    method Peek(off: nat, n: nat) returns (out: seq<Byte>)
      requires Valid() && off + n <= |content|
      ensures out == content[off..off + n]
    {
      var ri := Wrap(r + off) % buf.Length;
      WrapAdd(readCount, off);
      SlotOfCount(buf.Length, readCount + off);
      PeekHolds(buf[..], readCount, content, off, n, ri);
      var head := if buf.Length - ri > n then n else buf.Length - ri;
      out := buf[ri..ri + head] + buf[..n - head];
    }

    method Reset()
      requires Valid()
      modifies this
      ensures Valid() && content == []
    {
      r, w := 0, 0;
      readCount, content := 0, [];
    }

    /** Stores bytes; only when they do not fit are the oldest ones lost. */
    method Push(src: seq<Byte>)
      requires Valid()
      modifies this, buf
      ensures Valid() && content == Newest(old(content) + src, buf.Length)
    {
      hide Holds, Wrap, Capacity, Newest;
      var cap := buf.Length;
      var count := Count();
      NewestOf(content, src, cap);
      if |src| == 0 {
        return;
      }
      var s := src;
      if |s| > cap {
        s := s[|s| - cap..];
        Reset();
        count := 0;
      }
      if count + |s| > cap {
        Drop(count + |s| - cap);
      }
      Append(s);
    }

    method Append(s: seq<Byte>)
      requires Valid() && |content| + |s| <= buf.Length
      modifies `w, `content, buf
      ensures Valid() && content == old(content) + s
    {
      assert w == (readCount + |content|) % U32;
      hide Written, Holds, Wrap;
      var wi := w % buf.Length;
      SlotOfCount(buf.Length, readCount + |content|);
      WrittenHolds(buf[..], readCount, content, s);
      CopyIn(wi, s);
      WrapAdd(readCount + |content|, |s|);
      assert readCount + |content| + |s| == readCount + |content + s|;
      w := Wrap(w + |s|);
      content := content + s;
    }

    /** Two copies: up to the end of the buffer, then from its start. */
    method CopyIn(wi: nat, s: seq<Byte>)
      requires wi < buf.Length && |s| <= buf.Length
      modifies buf
      ensures buf[..] == Written(old(buf[..]), wi, s)
    {
      var first := if buf.Length - wi > |s| then |s| else buf.Length - wi;
      forall i | 0 <= i < first {
        buf[wi + i] := s[i];
      }
      forall i | 0 <= i < |s| - first {
        buf[i] := s[first + i];
      }
    }
  }
}
