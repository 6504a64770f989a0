/** Receiving frames: filling the ring from a pipe in arbitrary chunks and taking frames out of it. */
module FluxReceive {
  import opened Machine
  import opened FluxRing
  import opened FluxFrames

  class Receiver {
    const rx: Ring
    /** Largest single read: 512 bytes in a client, 1024 in the compositor. */
    const chunk: nat
    /** The frames taken out so far. */
    ghost var taken: seq<Frame>

    ghost predicate Valid()
      reads this, rx, rx.buf
    {
      rx.Valid() && chunk > 0 && rx.buf.Length >= 2 * RESERVE
    }

    /** What is buffered is how the stream goes on after the frames already taken. */
    ghost predicate Synced(sent: seq<Frame>)
      reads this, rx
    {
      FramesOk(sent) && taken <= sent && FramesOk(sent[|taken|..]) && rx.content <= EncodeAll(sent[|taken|..])
    }

    constructor (cap: nat, chunk: nat)
      requires Capacity(cap) && cap >= 2 * RESERVE && chunk > 0
      ensures Valid() && fresh(rx) && fresh(rx.buf) && rx.content == [] && taken == []
    {
      rx := new Ring(cap);
      this.chunk := chunk;
      taken := [];
    }

    /** One read: as much as leaves room for a longest frame, as much as a chunk, as much as the pipe gives. */
    method ReadChunk(pending: seq<Byte>, offer: nat) returns (n: nat)
      requires Valid()
      modifies rx, rx.buf
      ensures Valid() && n <= |pending| && rx.content == old(rx.content) + pending[..n]
      ensures n == 0 <==> |old(rx.content)| + RESERVE >= rx.buf.Length || offer == 0 || pending == []
    {
      hide Ring.Valid, Newest;
      var count := rx.Count();
      var cap := rx.buf.Length;
      var space := if count < cap then cap - count else 0;
      if space <= RESERVE {
        return 0;
      }
      var want := if space - RESERVE > chunk then chunk else space - RESERVE;
      n := Least(Least(want, offer), |pending|);
      if n > 0 {
        NewestOf(rx.content, pending[..n], cap);
        rx.Push(pending[..n]);
      }
    }

    /**
     * Reads while more than one longest frame of room is left. The pipe has pending bytes and hands
     * over as many as offer says, nothing when it says zero. No byte is ever pushed out of the ring.
     */
    method Fill(pending: seq<Byte>, offer: nat -> nat) returns (n: nat)
      requires Valid()
      modifies rx, rx.buf
      ensures Valid() && n <= |pending| && rx.content == old(rx.content) + pending[..n]
      ensures |old(rx.content)| + RESERVE < rx.buf.Length && pending != [] && offer(0) > 0 ==> n > 0
    {
      hide Ring.Valid;
      n := 0;
      while true
        invariant Valid() && n <= |pending| && rx.content == old(rx.content) + pending[..n]
        decreases |pending| - n
      {
        var k := ReadChunk(pending[n..], offer(n));
        if k == 0 {
          break;
        }
        assert pending[..n] + pending[n..][..k] == pending[..n + k];
        n := n + k;
      }
    }

    /** One turn of the extraction loop, as often as there is junk at the front. */
    method TakeOne() returns (got: bool, frame: Frame)
      requires Valid()
      modifies rx`r, rx`readCount, rx`content
      ensures Valid() && (got <==> Take(old(rx.content)).Got?)
      ensures rx.content == Take(old(rx.content)).rest
      ensures got ==> frame == Take(old(rx.content)).frame
    {
      hide Ring.Valid, Get16, Get32;
      frame := Frame(0, 0, []);
      while true
        invariant Valid() && Take(rx.content) == Take(old(rx.content))
        decreases |rx.content|
      {
        var avail := rx.Count();
        ghost var b := rx.content;
        if avail < 4 {
          return false, frame;
        }
        var magic := rx.Peek(0, 4);
        if Get32(magic) != MAGIC {
          rx.Drop(1);
          continue;
        }
        if avail < HEADER {
          return false, frame;
        }
        var hdr := rx.Peek(0, HEADER);
        assert hdr[4..6] == b[4..6] && hdr[6..8] == b[6..8] && hdr[8..12] == b[8..12] && hdr[12..16] == b[12..16];
        var len := Get32(hdr[8..12]);
        if Get16(hdr[4..6]) != VERSION || len > MAX_PAYLOAD {
          rx.Drop(1);
          continue;
        }
        if avail < HEADER + len {
          return false, frame;
        }
        rx.Drop(HEADER);
        var payload := rx.Peek(0, len);
        rx.Drop(len);
        assert b[HEADER..][..len] == b[HEADER..HEADER + len] && b[HEADER..][len..] == b[HEADER + len..];
        return true, Frame(Get16(hdr[6..8]), Get32(hdr[12..16]), payload);
      }
    }

    /** Takes the next frame of the stream, if it has arrived; otherwise less than a frame is left. */
    method Receive(ghost sent: seq<Frame>) returns (got: bool, frame: Frame)
      requires Valid() && Synced(sent)
      modifies `taken, rx`r, rx`readCount, rx`content
      ensures Valid() && Synced(sent)
      ensures got ==> |old(taken)| < |sent| && frame == sent[|old(taken)|] && taken == old(taken) + [frame]
                      && FrameOk(frame) && old(rx.content) == Encode(frame) + rx.content
      ensures !got ==>
                && taken == old(taken) && rx.content == old(rx.content) && |rx.content| < RESERVE
                && Take(rx.content).Short?
    {
      hide Ring.Valid, Take, EncodeAll;
      ghost var left := sent[|taken|..];
      TakeFromStream(left, rx.content);
      got, frame := TakeOne();
      if got {
        taken := taken + [frame];
        assert left[1..] == sent[|taken|..];
      }
    }

    /** Bytes that continue the stream keep it in step, however they are cut up. */
    method FillFrom(pending: seq<Byte>, offer: nat -> nat, ghost sent: seq<Frame>) returns (n: nat)
      requires Valid() && Synced(sent) && rx.content + pending <= EncodeAll(sent[|taken|..])
      modifies rx, rx.buf
      ensures Valid() && Synced(sent) && n <= |pending| && rx.content == old(rx.content) + pending[..n]
      ensures |old(rx.content)| < RESERVE && pending != [] && offer(0) > 0 ==> n > 0
    {
      hide Ring.Valid, EncodeAll;
      n := Fill(pending, offer);
    }

    /** The compositor's pump: fill, then take every frame that is there. */
    method Pump(pending: seq<Byte>, offer: nat -> nat, ghost sent: seq<Frame>) returns (n: nat, frames: seq<Frame>)
      requires Valid() && Synced(sent) && rx.content + pending <= EncodeAll(sent[|taken|..])
      modifies `taken, rx, rx.buf
      ensures Valid() && Synced(sent) && n <= |pending| && |rx.content| < RESERVE && Take(rx.content).Short?
      ensures taken == old(taken) + frames
      ensures FramesOk(frames) && old(rx.content) + pending[..n] == EncodeAll(frames) + rx.content
      ensures |old(rx.content)| < RESERVE && pending != [] && offer(0) > 0 ==> n > 0
    {
      hide Ring.Valid, EncodeAll, Synced, Take, FrameOk, Encode;
      n := FillFrom(pending, offer, sent);
      frames := [];
      ghost var filled := rx.content;
      EncodeNone();
      while true
        invariant Valid() && Synced(sent) && taken == old(taken) + frames
        invariant FramesOk(frames) && filled == EncodeAll(frames) + rx.content
        decreases |rx.content|
      {
        var got, frame := Receive(sent);
        if !got {
          break;
        }
        EncodePush(frames, frame);
        frames := frames + [frame];
      }
    }

    /** A whole stream, handed over in whatever pieces over however many turns, comes out as its frames. */
    method PumpAll(stream: seq<Byte>, offer: nat -> nat -> nat, ghost sent: seq<Frame>) returns (frames: seq<Frame>)
      requires Valid() && taken == [] && rx.content == [] && FramesOk(sent) && stream == EncodeAll(sent)
      requires forall turn: nat :: offer(turn)(0) > 0
      modifies `taken, rx, rx.buf
      ensures Valid() && frames == sent && rx.content == []
    {
      hide Valid, EncodeAll, Take, FramesOk, InStep;
      frames := [];
      var left, turn := stream, 0;
      InStepAtFirst(sent);
      while |left| > 0
        invariant Valid() && frames == taken && InStep(sent, taken, rx.content, left)
        invariant |rx.content| < RESERVE && Take(rx.content).Short?
        decreases |left|
      {
        ghost var was, before := taken, rx.content;
        InStepMeans(sent, taken, rx.content, left);
        var n, more := Pump(left, offer(turn), sent);
        StreamGoesOn(sent, was, more, before, left, n, rx.content);
        frames := frames + more;
        left, turn := left[n..], turn + 1;
      }
      InStepMeans(sent, taken, rx.content, left);
      AllTaken(sent, taken, rx.content);
    }
  }

  /** What is buffered, followed by what is still to come, encodes the frames not taken yet. */
  ghost predicate InStep(sent: seq<Frame>, taken: seq<Frame>, content: seq<Byte>, left: seq<Byte>) {
    FramesOk(sent) && taken <= sent && FramesOk(sent[|taken|..]) && content + left == EncodeAll(sent[|taken|..])
  }

  lemma InStepAtFirst(sent: seq<Frame>)
    requires FramesOk(sent)
    ensures InStep(sent, [], [], EncodeAll(sent)) && Take([]) == Short([])
  {
    assert sent[0..] == sent;
    assert [] + EncodeAll(sent) == EncodeAll(sent);
    TakeNothing();
  }

  lemma InStepMeans(sent: seq<Frame>, taken: seq<Frame>, content: seq<Byte>, left: seq<Byte>)
    requires InStep(sent, taken, content, left)
    ensures FramesOk(sent) && taken <= sent && FramesOk(sent[|taken|..])
    ensures content + left <= EncodeAll(sent[|taken|..]) && content <= EncodeAll(sent[|taken|..])
    ensures left == [] ==> content == EncodeAll(sent[|taken|..])
  {
    hide EncodeAll, FrameOk;
    assert left == [] ==> content + left == content;
  }

  /** The bytes of a turn are those of the frames it took and what it left: the stream stays in step. */
  lemma StreamGoesOn(sent: seq<Frame>, was: seq<Frame>, more: seq<Frame>, before: seq<Byte>, left: seq<Byte>, n: nat,
                     content: seq<Byte>)
    requires InStep(sent, was, before, left) && was + more <= sent && FramesOk(more) && n <= |left|
    requires before + left[..n] == EncodeAll(more) + content
    ensures InStep(sent, was + more, content, left[n..])
  {
    hide EncodeAll, FrameOk;
    var rest := sent[|was + more|..];
    assert sent[|was|..] == more + rest;
    EncodeConcat(more, rest);
    Regrouped(EncodeAll(more), content, before, left, n, EncodeAll(rest));
  }

  lemma Regrouped(all: seq<Byte>, content: seq<Byte>, before: seq<Byte>, left: seq<Byte>, n: nat, rest: seq<Byte>)
    requires n <= |left| && before + left == all + rest && before + left[..n] == all + content
    ensures content + left[n..] == rest
  {
    assert before + left == (before + left[..n]) + left[n..];
    assert (all + content + left[n..])[|all|..] == content + left[n..];
    assert (all + rest)[|all|..] == rest;
  }

  function Least(a: nat, b: nat): nat {
    if a < b then a else b
  }

  /**
   * Extraction is complete: when all bytes of the stream have arrived and no frame can be taken,
   * every frame has been taken.
   */
  lemma AllTaken(sent: seq<Frame>, taken: seq<Frame>, content: seq<Byte>)
    requires FramesOk(sent) && taken <= sent && FramesOk(sent[|taken|..]) && content == EncodeAll(sent[|taken|..])
    requires Take(content).Short?
    ensures taken == sent && content == []
  {
    var left := sent[|taken|..];
    if left != [] {
      assert content == Encode(left[0]) + EncodeAll(left[1..]);
      TakeFrame(left[0], EncodeAll(left[1..]));
    }
  }

  /** A ring too full to read more holds a whole frame: the receiver never stalls. */
  lemma NeverStalls(sent: seq<Frame>, taken: seq<Frame>, content: seq<Byte>, cap: nat)
    requires FramesOk(sent) && taken <= sent && FramesOk(sent[|taken|..]) && content <= EncodeAll(sent[|taken|..])
    requires cap >= 2 * RESERVE && |content| + RESERVE >= cap
    ensures Take(content).Got?
  {
    TakeFromStream(sent[|taken|..], content);
  }
}
