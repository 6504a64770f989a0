/** Sending events to the window manager: a queue of frames, partial writes, and giving up. */
module FluxSend {
  import opened Machine
  import opened FluxFrames

  const SLOTS := 128
  const WM_EVENT := 9

  /** A queued frame and how much of it has been written. */
  datatype Slot = Slot(frame: seq<Byte>, off: nat)

  /** The bytes the queue still owes. */
  ghost function Owed(queue: seq<Slot>): seq<Byte> {
    if queue == [] then [] else Left(queue[0]) + Owed(queue[1..])
  }

  function Left(s: Slot): seq<Byte> {
    if s.off <= |s.frame| then s.frame[s.off..] else []
  }

  lemma {:induction false} OwedPush(queue: seq<Slot>, frame: seq<Byte>)
    ensures Owed(queue + [Slot(frame, 0)]) == Owed(queue) + frame
  {
    var s := Slot(frame, 0);
    if queue == [] {
      assert Owed([s]) == frame[0..] + Owed([]);
      assert queue + [s] == [s];
    } else {
      OwedPush(queue[1..], frame);
      var first, rest := Left(queue[0]), Owed(queue[1..]);
      assert (queue + [s])[1..] == queue[1..] + [s] && (queue + [s])[0] == queue[0];
      assert Owed(queue + [s]) == first + (rest + frame);
      assert Owed(queue) == first + rest;
      hide Owed, Left;
    }
  }

  /** Writing n bytes of the first frame. */
  lemma OwedWrite(queue: seq<Slot>, n: nat)
    requires queue != [] && queue[0].off + n <= |queue[0].frame|
    ensures var s := queue[0];
            Owed(queue) == s.frame[s.off..s.off + n] + Owed([s.(off := s.off + n)] + queue[1..])
  {
    var s := queue[0];
    var s2 := s.(off := s.off + n);
    LeftWrite(s, n);
    var q2 := [s2] + queue[1..];
    assert q2[1..] == queue[1..] && q2[0] == s2;
    hide Left;
    assert Owed(q2) == Left(s2) + Owed(queue[1..]);
    assert s.frame[s.off..s.off + n] + (Left(s2) + Owed(queue[1..]))
           == (s.frame[s.off..s.off + n] + Left(s2)) + Owed(queue[1..]);
  }

  lemma LeftWrite(s: Slot, n: nat)
    requires s.off + n <= |s.frame|
    ensures Left(s) == s.frame[s.off..s.off + n] + Left(s.(off := s.off + n))
  {
  }

  lemma OwedDone(queue: seq<Slot>)
    requires queue != [] && queue[0].off >= |queue[0].frame|
    ensures Owed(queue) == Owed(queue[1..])
  {
  }

  /** The queue sits in the ring of slots from the read counter on. */
  ghost predicate Queued(tx: seq<Slot>, first: nat, queue: seq<Slot>) {
    |tx| == SLOTS && |queue| <= SLOTS && forall i :: 0 <= i < |queue| ==> tx[(first + i) % SLOTS] == queue[i]
  }

  lemma QueuedPush(tx: seq<Slot>, first: nat, queue: seq<Slot>, s: Slot)
    requires Queued(tx, first, queue) && |queue| < SLOTS
    ensures Queued(tx[(first + |queue|) % SLOTS := s], first, queue + [s])
  {
    var tx2 := tx[(first + |queue|) % SLOTS := s];
    forall i | 0 <= i < |queue| ensures tx2[(first + i) % SLOTS] == queue[i] {
      SlotsDiffer(SLOTS, first + i, first + |queue|);
    }
  }

  lemma QueuedUpdate(tx: seq<Slot>, first: nat, queue: seq<Slot>, s: Slot)
    requires Queued(tx, first, queue) && queue != []
    ensures Queued(tx[first % SLOTS := s], first, [s] + queue[1..])
  {
    var tx2, queue2 := tx[first % SLOTS := s], [s] + queue[1..];
    forall i | 0 < i < |queue| ensures tx2[(first + i) % SLOTS] == queue2[i] {
      SlotsDiffer(SLOTS, first, first + i);
    }
  }

  lemma QueuedPop(tx: seq<Slot>, first: nat, queue: seq<Slot>)
    requires Queued(tx, first, queue) && queue != []
    ensures Queued(tx, first + 1, queue[1..]) && tx[first % SLOTS] == queue[0]
  {
    assert tx[(first + 0) % SLOTS] == queue[0];
    forall i | 0 <= i < |queue| - 1 ensures tx[(first + 1 + i) % SLOTS] == queue[1..][i] {
      assert first + 1 + i == first + (1 + i);
      assert tx[(first + (1 + i)) % SLOTS] == queue[1 + i];
    }
  }

  /** Accepted frames carry increasing sequence numbers, counted without wrap-around by marks. */
  ghost predicate Numbered(accepted: seq<Frame>, marks: seq<nat>, issued: nat) {
    && |marks| == |accepted|
    && (forall i :: 0 <= i < |marks| ==> marks[i] < issued && accepted[i].number == Wrap(marks[i]))
    && (forall i, j :: 0 <= i < j < |marks| ==> marks[i] < marks[j])
  }

  /** The first k frames whole, then less than the next one. */
  ghost predicate CutAt(out: seq<Byte>, frames: seq<Frame>, k: nat)
    requires FramesOk(frames)
  {
    && k <= |frames| && FramesOk(frames[..k]) && EncodeAll(frames[..k]) <= out
    && (out == EncodeAll(frames[..k]) || (k < |frames| && out < EncodeAll(frames[..k]) + Encode(frames[k])))
  }

  /** Whole frames in order, and at most one unfinished frame after them. */
  ghost predicate WholePlusTail(out: seq<Byte>, frames: seq<Frame>) {
    FramesOk(frames) && exists k: nat :: CutAt(out, frames, k)
  }

  lemma CutNext(out: seq<Byte>, frames: seq<Frame>, k: nat)
    requires frames != [] && FramesOk(frames) && FramesOk(frames[1..])
    requires |out| >= |Encode(frames[0])| && out[..|Encode(frames[0])|] == Encode(frames[0])
    requires CutAt(out[|Encode(frames[0])|..], frames[1..], k)
    ensures CutAt(out, frames, k + 1)
  {
    hide Encode;
    var e, rest := Encode(frames[0]), frames[1..];
    assert out == e + out[|e|..];
    assert frames[..k + 1][1..] == rest[..k] && frames[..k + 1][0] == frames[0];
    assert EncodeAll(frames[..k + 1]) == e + EncodeAll(rest[..k]);
  }

  lemma {:induction false} PrefixIsWhole(out: seq<Byte>, frames: seq<Frame>)
    requires FramesOk(frames) && out <= EncodeAll(frames)
    ensures WholePlusTail(out, frames)
  {
    hide Encode;
    assert FramesOk(frames[..0]) && EncodeAll(frames[..0]) == [];
    if frames == [] || |out| < |Encode(frames[0])| {
      assert frames != [] ==> out < EncodeAll(frames[..0]) + Encode(frames[0]);
      assert CutAt(out, frames, 0);
    } else {
      var e, rest := Encode(frames[0]), frames[1..];
      assert out[..|e|] == e && out[|e|..] <= EncodeAll(rest);
      PrefixIsWhole(out[|e|..], rest);
      var k: nat :| CutAt(out[|e|..], rest, k);
      CutNext(out, frames, k);
    }
  }

  /** What the pipe answers to each write of a flush, by turn and length: an error, or how many bytes it took. */
  type Pipe = (nat, nat) -> int

  ghost predicate NoError(pipe: Pipe) {
    forall turn, n :: pipe(turn, n) >= 0
  }

  /** Steps a flush can still take: bytes to write and slots to pass. */
  ghost function Debt(queue: seq<Slot>): nat {
    if queue == [] then 0 else
      1 + (if queue[0].off <= |queue[0].frame| then |queue[0].frame| - queue[0].off else 0) + Debt(queue[1..])
  }

  lemma DebtPop(queue: seq<Slot>)
    requires queue != []
    ensures Debt(queue[1..]) < Debt(queue)
  {
  }

  lemma DebtWrite(queue: seq<Slot>, n: nat)
    requires queue != [] && 0 < n && queue[0].off + n <= |queue[0].frame|
    ensures Debt([queue[0].(off := queue[0].off + n)] + queue[1..]) < Debt(queue)
  {
    var q2 := [queue[0].(off := queue[0].off + n)] + queue[1..];
    assert q2[1..] == queue[1..];
  }

  class Sender {
    const tx: array<Slot>
    var txR: nat
    var txW: nat
    var connected: bool
    var seqOut: Word
    ghost var readCount: nat
    ghost var queue: seq<Slot>
    /** Bytes written to the pipe, frames taken on in order, their numbers, and how many were handed out. */
    ghost var out: seq<Byte>
    ghost var accepted: seq<Frame>
    ghost var marks: seq<nat>
    ghost var issued: nat

    ghost predicate Ring()
      reads this, tx
    {
      tx.Length == SLOTS && Queued(tx[..], readCount, queue) && txR == Wrap(readCount)
        && txW == Wrap(readCount + |queue|)
    }

    /** What is written and what is owed are the accepted frames, in order. */
    ghost predicate Valid()
      reads this, tx
    {
      && Ring() && FramesOk(accepted) && Numbered(accepted, marks, issued) && seqOut == Wrap(issued)
      && out + Owed(queue) == EncodeAll(accepted)
    }

    constructor ()
      ensures Valid() && connected && fresh(tx) && out == [] && accepted == []
    {
      tx := new Slot[SLOTS](_ => Slot([], 0));
      txR, txW, connected, seqOut := 0, 0, true, 1;
      readCount, queue, out, accepted, marks, issued := 0, [], [], [], [], 1;
    }

    method Disconnect()
      requires tx.Length == SLOTS
      modifies this
      ensures !connected && Ring() && queue == [] && out == old(out) && accepted == old(accepted)
      ensures marks == old(marks) && issued == old(issued)
    {
      connected := false;
      txR, txW, seqOut := 0, 0, 1;
      readCount, queue := 0, [];
    }

    method Count() returns (n: nat)
      requires Ring()
      ensures n == |queue| <= SLOTS
    {
      WrapDistance(readCount, readCount + |queue|);
      n := Wrap(txW - txR);
    }

    method Pop()
      requires Valid() && queue != [] && queue[0].off >= |queue[0].frame|
      modifies `txR, `readCount, `queue
      ensures Valid() && queue == old(queue)[1..]
    {
      hide Queued, Numbered, FramesOk, EncodeAll, Owed, Left;
      QueuedPop(tx[..], readCount, queue);
      OwedDone(queue);
      WrapNext(readCount);
      txR := Wrap(txR + 1);
      readCount := readCount + 1;
      queue := queue[1..];
    }

    /** Part of the first frame goes out. */
    method Advance(n: nat)
      requires Valid() && queue != [] && queue[0].off + n <= |queue[0].frame|
      modifies tx, `queue, `out
      ensures Valid() && queue == [old(queue)[0].(off := old(queue)[0].off + n)] + old(queue)[1..] && old(out) <= out
    {
      hide Numbered, FramesOk, EncodeAll, Owed;
      SlotOfCount(SLOTS, readCount);
      ghost var s := queue[0];
      QueuedPop(tx[..], readCount, queue);
      QueuedUpdate(tx[..], readCount, queue, s.(off := s.off + n));
      OwedWrite(queue, n);
      var ri := txR % SLOTS;
      tx[ri] := tx[ri].(off := tx[ri].off + n);
      out := out + s.frame[s.off..s.off + n];
      queue := [s.(off := s.off + n)] + queue[1..];
    }

    /**
     * Writes what the pipe takes: on to the next frame after a whole one, on with the rest after a
     * part. An error drops the connection; only a pipe without room ends the flush with frames left.
     */
    method Flush(pipe: Pipe) returns (ghost turns: nat)
      requires Valid() && connected
      modifies this, tx
      ensures accepted == old(accepted) && marks == old(marks) && issued == old(issued) && old(out) <= out
      ensures connected ==> Valid() && |queue| <= |old(queue)| && seqOut == old(seqOut)
      ensures connected && queue != [] ==> pipe(turns, |Left(queue[0])|) == 0
      ensures NoError(pipe) ==> connected
      ensures !connected ==>
                Ring() && out <= EncodeAll(accepted) && FramesOk(accepted) && Numbered(accepted, marks, issued)
    {
      hide Queued, Numbered, FramesOk, EncodeAll, Owed;
      var turn := 0;
      turns := 0;
      while txR != txW
        invariant Valid() && connected && |queue| <= |old(queue)| && turns == turn && seqOut == old(seqOut)
        invariant accepted == old(accepted) && marks == old(marks) && issued == old(issued) && old(out) <= out
        decreases Debt(queue)
      {
        NotEmpty();
        QueuedPop(tx[..], readCount, queue);
        SlotOfCount(SLOTS, readCount);
        var slot := tx[txR % SLOTS];
        if slot.off >= |slot.frame| {
          DebtPop(queue);
          Pop();
          continue;
        }
        var wn := pipe(turn, |slot.frame| - slot.off);
        if wn < 0 {
          Disconnect();
          return;
        }
        if wn == 0 {
          return;
        }
        var n := if wn > |slot.frame| - slot.off then |slot.frame| - slot.off else wn;
        DebtWrite(queue, n);
        Advance(n);
        turn := turn + 1;
        turns := turn;
        if slot.off + n >= |slot.frame| {
          DebtPop(queue);
          Pop();
        }
      }
      NotEmpty();
    }

    /** Writes the next free slot. */
    method Put(s: Slot)
      requires Ring() && |queue| < SLOTS
      modifies tx, `txW, `queue
      ensures Ring() && queue == old(queue) + [s]
    {
      hide Queued;
      SlotOfCount(SLOTS, readCount + |queue|);
      QueuedPush(tx[..], readCount, queue, s);
      WrapNext(readCount + |queue|);
      tx[txW % SLOTS] := s;
      txW := Wrap(txW + 1);
      queue := queue + [s];
    }

    /** Gives a frame its slot at the end of the queue. */
    method Enqueue(f: Frame)
      requires Valid() && |queue| < SLOTS && FrameOk(f) && issued > 0
               && Numbered(accepted + [f], marks + [issued - 1], issued)
      modifies tx, `txW, `queue, `accepted, `marks
      ensures Valid() && queue == old(queue) + [Slot(Encode(f), 0)] && accepted == old(accepted) + [f]
    {
      hide Numbered, Owed, Encode, EncodeAll, FramesOk, Queued;
      OwedPush(queue, Encode(f));
      EncodePush(accepted, f);
      assert out + (Owed(queue) + Encode(f)) == (out + Owed(queue)) + Encode(f);
      Put(Slot(Encode(f), 0));
      accepted := accepted + [f];
      marks := marks + [issued - 1];
    }

    /**
     * Sends an event. An essential one is queued; any other is written at once or left out. A false
     * result means the caller must give the connection up: what went out is then whole frames and at
     * most one unfinished one.
     */
    method SendEvent(ev: seq<Byte>, essential: bool, first: Pipe, pipe: Pipe, direct: nat -> int) returns (ok: bool)
      requires |ev| <= MAX_PAYLOAD && (connected ==> Valid())
      modifies this, tx
      ensures !old(connected) ==> !ok && connected == old(connected) && out == old(out) && accepted == old(accepted)
      ensures ok ==> connected && Valid() && seqOut != old(seqOut)
      ensures ok && essential ==> accepted == old(accepted) + [Frame(WM_EVENT, old(seqOut), ev)]
      ensures old(connected) && essential && NoError(first) && NoError(pipe) && |old(queue)| < SLOTS ==> ok
      ensures ok && !essential ==>
                accepted == old(accepted) || accepted == old(accepted) + [Frame(WM_EVENT, old(seqOut), ev)]
      ensures old(connected) && !ok ==> Broken(old(accepted))
    {
      hide Queued, Numbered, Owed, Encode, EncodeAll;
      if !connected {
        return false;
      }
      var f := Frame(WM_EVENT, seqOut, ev);
      seqOut := Wrap(seqOut + 1);
      WrapNext(issued);
      NumberedNext(accepted, marks, issued, f);
      issued := issued + 1;
      if !essential {
        ok := SendIfFree(f, first, direct);
      } else {
        ok := SendQueued(f, first, pipe);
      }
    }

    /** Whatever has been written is a beginning of the accepted frames, which only grow. */
    ghost predicate Broken(before: seq<Frame>)
      reads this, tx
    {
      && tx.Length == SLOTS && FramesOk(accepted) && out <= EncodeAll(accepted)
      && Numbered(accepted, marks, issued) && before <= accepted
    }

    /** An event that may be left out: only past an empty queue. */
    method SendIfFree(f: Frame, first: Pipe, direct: nat -> int) returns (ok: bool)
      requires Valid() && connected && FrameOk(f) && issued > 0
               && Numbered(accepted + [f], marks + [issued - 1], issued)
      modifies this, tx
      ensures ok ==>
                && connected && Valid() && seqOut == old(seqOut)
                && (accepted == old(accepted) || accepted == old(accepted) + [f])
      ensures !ok ==> Broken(old(accepted))
    {
      hide Queued, Numbered, Owed, Encode, EncodeAll, FramesOk;
      ghost var _ := Flush(first);
      if !connected {
        return false;
      }
      var waiting := Count();
      if waiting != 0 {
        return true;
      }
      ok := WriteNow(f, direct(|Encode(f)|));
    }

    /**
     * An event that may not be left out: queued behind all others, if need be after making room. When that drops
     * the connection, the frame still gets a slot of the emptied ring, and goes nowhere.
     */
    method SendQueued(f: Frame, first: Pipe, pipe: Pipe) returns (ok: bool)
      requires Valid() && connected && FrameOk(f) && issued > 0
               && Numbered(accepted + [f], marks + [issued - 1], issued)
      modifies this, tx
      ensures ok ==> connected && Valid() && seqOut == old(seqOut) && accepted == old(accepted) + [f]
      ensures NoError(first) && NoError(pipe) && |old(queue)| < SLOTS ==> ok
      ensures !ok ==> Broken(old(accepted))
    {
      hide Queued, Numbered, Owed, Encode, EncodeAll, FramesOk, NoError;
      var waiting := Count();
      if waiting >= SLOTS {
        ghost var _ := Flush(first);
        waiting := Count();
        if waiting >= SLOTS {
          if connected {
            StillWritten();
          }
          return false;
        }
      }
      if connected {
        Enqueue(f);
        ghost var _ := Flush(pipe);
      } else {
        Put(Slot(Encode(f), 0));
      }
      return connected;
    }

    /** What is owed lies ahead, so what is written is a beginning of the accepted frames. */
    lemma StillWritten()
      requires Valid()
      ensures out <= EncodeAll(accepted)
    {
    }

    /** A write past the empty queue: all of the frame, none of it, or a torn one that ends the connection. */
    method WriteNow(f: Frame, wn: int) returns (ok: bool)
      requires Valid() && queue == [] && FrameOk(f) && issued > 0
               && Numbered(accepted + [f], marks + [issued - 1], issued)
      modifies `out, `accepted, `marks
      ensures ok ==> Valid() && (accepted == old(accepted) || accepted == old(accepted) + [f])
      ensures !ok ==>
                && FramesOk(accepted) && Numbered(accepted, marks, issued)
                && out <= EncodeAll(accepted) && old(accepted) <= accepted
    {
      hide Queued, Numbered, Encode, EncodeAll;
      EncodePush(accepted, f);
      var bytes := Encode(f);
      if wn < 0 {
        return false;
      }
      if wn == 0 {
        return true;
      }
      var n := if wn > |bytes| then |bytes| else wn;
      out := out + bytes[..n];
      accepted := accepted + [f];
      marks := marks + [issued - 1];
      return n == |bytes|;
    }

    /** What every caller does: a failed send ends the connection. */
    method Deliver(ev: seq<Byte>, essential: bool, first: Pipe, pipe: Pipe, direct: nat -> int)
      requires |ev| <= MAX_PAYLOAD && connected && Valid()
      modifies this, tx
      ensures connected ==> Valid()
      ensures connected && essential ==> accepted == old(accepted) + [Frame(WM_EVENT, old(seqOut), ev)]
      ensures WholePlusTail(out, accepted) && Numbered(accepted, marks, issued) && old(accepted) <= accepted
    {
      hide Queued, Numbered, Owed, Encode, EncodeAll, WholePlusTail;
      var ok := SendEvent(ev, essential, first, pipe, direct);
      if !ok {
        Disconnect();
      } else {
        StillWritten();
      }
      PrefixIsWhole(out, accepted);
    }

    lemma NotEmpty()
      requires Ring()
      ensures txR != txW <==> queue != []
    {
      WrapDistance(readCount, readCount + |queue|);
    }
  }

  lemma NumberedNext(accepted: seq<Frame>, marks: seq<nat>, issued: nat, f: Frame)
    requires Numbered(accepted, marks, issued) && f.number == Wrap(issued)
    ensures Numbered(accepted, marks, issued + 1) && Numbered(accepted + [f], marks + [issued], issued + 1)
  {
  }
}
