/** Frames of the compositor protocol: their bytes, and taking them out of a byte stream. */
module FluxFrames {
  import opened Machine

  const MAGIC := 0x4349_5043
  const VERSION := 1
  const MAX_PAYLOAD := 512
  const HEADER := 16
  /** The longest frame. */
  const RESERVE := 528

  datatype Frame = Frame(kind: Half, number: Word, payload: seq<Byte>)

  ghost predicate FrameOk(f: Frame) {
    |f.payload| <= MAX_PAYLOAD
  }

  function Header(f: Frame): (h: seq<Byte>)
    requires |f.payload| <= MAX_PAYLOAD
    ensures |h| == HEADER
  {
    Le32(MAGIC) + Le16(VERSION) + Le16(f.kind) + Le32(|f.payload|) + Le32(f.number)
  }

  function Encode(f: Frame): (b: seq<Byte>)
    requires |f.payload| <= MAX_PAYLOAD
    ensures |b| == HEADER + |f.payload|
  {
    Header(f) + f.payload
  }

  /** The fields a receiver reads out of a header are the ones that were put in. */
  lemma HeaderFields(f: Frame, b: seq<Byte>)
    requires |f.payload| <= MAX_PAYLOAD && |b| >= HEADER && b[..HEADER] == Header(f)
    ensures Get32(b[..4]) == MAGIC && Get16(b[4..6]) == VERSION && Get16(b[6..8]) == f.kind
    ensures Get32(b[8..12]) == |f.payload| && Get32(b[12..16]) == f.number
  {
    var h := Header(f);
    assert b[..4] == h[..4] == Le32(MAGIC);
    assert b[4..6] == h[4..6] == Le16(VERSION);
    assert b[6..8] == h[6..8] == Le16(f.kind);
    assert b[8..12] == h[8..12] == Le32(|f.payload|);
    assert b[12..16] == h[12..16] == Le32(f.number);
    Get32Le32(MAGIC);
    Get16Le16(VERSION);
    Get16Le16(f.kind);
    Get32Le32(|f.payload|);
    Get32Le32(f.number);
  }

  // ---- taking one frame out of a byte stream

  /** What is at the front of the buffered bytes, as the receiver reads them. */
  datatype Taken = Short(rest: seq<Byte>) | Got(frame: Frame, rest: seq<Byte>)

  /** Too short to tell, not a frame here, or a whole frame. */
  datatype Sight = Wait | Junk | Whole(len: nat)

  function Look(b: seq<Byte>): Sight {
    if |b| < 4 then Wait
    else if Get32(b[..4]) != MAGIC then Junk
    else if |b| < HEADER then Wait
    else if Get16(b[4..6]) != VERSION || Get32(b[8..12]) > MAX_PAYLOAD then Junk
    else if |b| < HEADER + Get32(b[8..12]) then Wait
    else Whole(Get32(b[8..12]))
  }

  function FrontFrame(b: seq<Byte>): Frame
    requires Look(b).Whole?
  {
    Frame(Get16(b[6..8]), Get32(b[12..16]), b[HEADER..HEADER + Look(b).len])
  }

  /** The receiver's loop: junk is skipped byte by byte until a frame or a short rest is at the front. */
  function Take(b: seq<Byte>): Taken {
    match Look(b)
    case Wait => Short(b)
    case Junk => Take(b[1..])
    case Whole(len) => Got(FrontFrame(b), b[HEADER + len..])
  }

  /** A whole frame at the front is taken as it was sent, whatever follows it. */
  lemma TakeFrame(f: Frame, more: seq<Byte>)
    requires FrameOk(f)
    ensures Take(Encode(f) + more) == Got(f, more)
  {
    var b := Encode(f) + more;
    assert b[..HEADER] == Header(f);
    HeaderFields(f, b);
    assert b[HEADER..HEADER + |f.payload|] == f.payload;
    assert b[HEADER + |f.payload|..] == more;
  }

  /** A frame that has not arrived completely is left alone. */
  lemma TakePartial(f: Frame, b: seq<Byte>)
    requires FrameOk(f) && b <= Encode(f) && b != Encode(f)
    ensures Take(b) == Short(b)
  {
    var e := Encode(f);
    HeaderFields(f, e);
    assert e[..HEADER] == Header(f);
    if |b| >= 4 {
      assert b[..4] == e[..4];
    }
    if |b| >= HEADER {
      assert b[4..6] == e[4..6] && b[8..12] == e[8..12];
    }
  }

  // ---- streams of frames

  ghost predicate FramesOk(fs: seq<Frame>) {
    forall i :: 0 <= i < |fs| ==> FrameOk(fs[i])
  }

  ghost function EncodeAll(fs: seq<Frame>): seq<Byte>
    requires FramesOk(fs)
  {
    if fs == [] then [] else Encode(fs[0]) + EncodeAll(fs[1..])
  }

  lemma {:induction false} EncodeConcat(a: seq<Frame>, b: seq<Frame>)
    requires FramesOk(a) && FramesOk(b)
    ensures FramesOk(a + b) && EncodeAll(a + b) == EncodeAll(a) + EncodeAll(b)
  {
    hide Encode, FrameOk;
    if a == [] {
      assert a + b == b;
    } else {
      EncodeConcat(a[1..], b);
      assert (a + b)[1..] == a[1..] + b;
    }
  }

  lemma EncodeNone()
    ensures EncodeAll([]) == []
  {
  }

  lemma EncodePush(fs: seq<Frame>, f: Frame)
    requires FramesOk(fs) && FrameOk(f)
    ensures FramesOk(fs + [f]) && EncodeAll(fs + [f]) == EncodeAll(fs) + Encode(f)
  {
    EncodeConcat(fs, [f]);
    assert EncodeAll([f]) == Encode(f);
  }

  lemma TakeNothing()
    ensures Take([]) == Short([])
  {
  }

  /** What is buffered of a stream of frames: either a frame can be taken, or less than one frame is there. */
  lemma TakeFromStream(fs: seq<Frame>, b: seq<Byte>)
    requires FramesOk(fs) && b <= EncodeAll(fs)
    ensures Take(b).Got? ==>
              && fs != [] && Take(b).frame == fs[0] && b == Encode(fs[0]) + Take(b).rest
              && Take(b).rest <= EncodeAll(fs[1..])
    ensures Take(b).Short? ==> Take(b).rest == b && |b| < RESERVE && (b != [] ==> fs != [] && |b| < |Encode(fs[0])|)
  {
    hide Encode, Take, Header;
    if fs == [] {
      TakeNothing();
    } else {
      var f, rest := fs[0], EncodeAll(fs[1..]);
      assert b <= Encode(f) + rest;
      hide EncodeAll;
      PrefixOfTwo(b, Encode(f), rest);
      if |b| >= |Encode(f)| {
        TakeFrame(f, b[|Encode(f)|..]);
      } else {
        TakePartial(f, b);
      }
    }
  }

  lemma PrefixOfTwo(b: seq<Byte>, x: seq<Byte>, y: seq<Byte>)
    requires b <= x + y
    ensures |b| >= |x| ==> b == x + b[|x|..] && b[|x|..] <= y
    ensures |b| < |x| ==> b <= x
  {
    if |b| >= |x| {
      assert b[..|x|] == (x + y)[..|x|] == x;
    }
  }
}
