/**
 * The single-producer single-consumer queue of networkd and the pipe that wakes its consumer,
 * as a state machine over the memory accesses of the two threads.
 */
module NetSpsc {
  import opened Machine

  /** Where the producer is in push_and_wake. Its local copy of m_head is m_head itself: only it writes that. */
  datatype Producer<T> =
    | Idle
    | Checking(v: T)
    | Storing(v: T)
    | Tearing(v: T)
    | Stored(v: T)
    | Signalling

  /** Where the consumer is in its loop: wait in poll, drain the pipe, pop until empty. */
  datatype Consumer<T> =
    | Polling
    | Draining
    | Popping
    | Reading
    | Taken(out: T)

  /**
   * The shared memory, the two program counters and the wake pipe. pushed and popped are the
   * histories: the items published by a store to m_head and the items released by a store to m_tail.
   */
  datatype State<T> = State(cap: nat, head: nat, tail: nat, buf: seq<T>, prod: Producer<T>, cons: Consumer<T>,
                            pipe: nat, pipeCap: nat, pushed: seq<T>, popped: seq<T>)

  ghost predicate Init<T(!new)>(s: State<T>) {
    && Capacity(s.cap) && |s.buf| == s.cap && s.pipeCap > 0
    && s.head == s.tail == s.pipe == 0 && s.pushed == s.popped == []
    && s.prod == Idle && s.cons == Polling
  }

  // ---- push_and_wake, one shared access at a time

  /** The thread has something to send. */
  ghost predicate Start<T(!new)>(s: State<T>, s2: State<T>) {
    s.prod.Idle? && s2.prod.Checking? && s2 == s.(prod := s2.prod)
  }

  /** m_tail is read; a full queue refuses the item. */
  predicate Full<T>(s: State<T>) {
    Wrap(s.head + 1 - s.tail) > s.cap
  }

  ghost predicate Check<T(!new)>(s: State<T>, s2: State<T>) {
    s.prod.Checking? && s2 == s.(prod := if Full(s) then Idle else Storing(s.prod.v))
  }

  /** The masked counter. */
  function Slot<T>(s: State<T>, counter: nat): (k: nat)
    requires 0 < s.cap
    ensures k < s.cap
  {
    counter % s.cap
  }

  /** The copy into the slot is not atomic: in between the slot holds anything. */
  ghost predicate StoreBegins<T(!new)>(s: State<T>, s2: State<T>) {
    && s.prod.Storing? && 0 < s.cap == |s.buf|
    && s2 == s.(prod := Tearing(s.prod.v), buf := s2.buf) && |s2.buf| == |s.buf|
    && s2.buf == s.buf[Slot(s, s.head) := s2.buf[Slot(s, s.head)]]
  }

  ghost predicate StoreEnds<T(!new)>(s: State<T>, s2: State<T>) {
    && s.prod.Tearing? && 0 < s.cap == |s.buf|
    && s2 == s.(prod := Stored(s.prod.v), buf := s.buf[Slot(s, s.head) := s.prod.v])
  }

  ghost predicate Publish<T(!new)>(s: State<T>, s2: State<T>) {
    s.prod.Stored? && s2 == s.(prod := Signalling, head := Wrap(s.head + 1), pushed := s.pushed + [s.prod.v])
  }

  /** A byte goes into the pipe unless the pipe is full. */
  ghost predicate Signal<T(!new)>(s: State<T>, s2: State<T>) {
    s.prod.Signalling? && s2 == s.(prod := Idle, pipe := if s.pipe < s.pipeCap then s.pipe + 1 else s.pipe)
  }

  // ---- wait, drain and dispatch_core_events

  /** Poll returns when the pipe or another descriptor is ready; only a readable pipe is drained. */
  ghost predicate Wake<T(!new)>(s: State<T>, s2: State<T>) {
    s.cons.Polling? && s2 == s.(cons := if s.pipe > 0 then Draining else Popping)
  }

  /** One read of at most 64 bytes; an empty pipe ends the drain. */
  ghost predicate Drain<T(!new)>(s: State<T>, s2: State<T>) {
    && s.cons.Draining?
    && if s.pipe == 0 then s2 == s.(cons := Popping)
       else s2 == s.(pipe := s2.pipe) && s2.pipe < s.pipe <= s2.pipe + 64
  }

  /** m_head is read; equal counters end the loop and the consumer goes back to poll. */
  ghost predicate Look<T(!new)>(s: State<T>, s2: State<T>) {
    s.cons.Popping? && s2 == s.(cons := if s.tail == s.head then Polling else Reading)
  }

  ghost predicate Take<T(!new)>(s: State<T>, s2: State<T>) {
    && s.cons.Reading? && 0 < s.cap == |s.buf|
    && s2 == s.(cons := Taken(s.buf[Slot(s, s.tail)]))
  }

  ghost predicate Release<T(!new)>(s: State<T>, s2: State<T>) {
    s.cons.Taken? && s2 == s.(cons := Popping, tail := Wrap(s.tail + 1), popped := s.popped + [s.cons.out])
  }

  ghost predicate Next<T(!new)>(s: State<T>, s2: State<T>) {
    || Start(s, s2) || Check(s, s2) || StoreBegins(s, s2) || StoreEnds(s, s2) || Publish(s, s2) || Signal(s, s2)
    || Wake(s, s2) || Drain(s, s2) || Look(s, s2) || Take(s, s2) || Release(s, s2)
  }

  /** Any interleaving of the two threads. */
  ghost predicate Run<T(!new)>(run: seq<State<T>>) {
    |run| > 0 && Init(run[0]) && forall i :: 0 <= i < |run| - 1 ==> Next(run[i], run[i + 1])
  }

  // ---- what every interleaving keeps

  ghost predicate Counters<T(!new)>(s: State<T>) {
    && Capacity(s.cap) && |s.buf| == s.cap && s.pipeCap > 0
    && s.head == Wrap(|s.pushed|) && s.tail == Wrap(|s.popped|)
    && |s.popped| <= |s.pushed| <= |s.popped| + s.cap
  }

  ghost predicate Contents<T(!new)>(s: State<T>)
    requires 0 < s.cap == |s.buf| && |s.popped| <= |s.pushed|
  {
    && s.popped == s.pushed[..|s.popped|]
    && forall n :: |s.popped| <= n < |s.pushed| ==> s.buf[n % s.cap] == s.pushed[n]
  }

  /** The producer writes only with a free slot, the consumer reads only a published one. */
  ghost predicate Positions<T(!new)>(s: State<T>)
    requires 0 < s.cap == |s.buf|
  {
    && (s.prod.Storing? || s.prod.Tearing? || s.prod.Stored? ==> |s.pushed| < |s.popped| + s.cap)
    && (s.prod.Stored? ==> s.buf[|s.pushed| % s.cap] == s.prod.v)
    && (s.cons.Reading? || s.cons.Taken? ==> |s.popped| < |s.pushed|)
    && (s.cons.Taken? && |s.popped| < |s.pushed| ==> s.cons.out == s.pushed[|s.popped|])
  }

  ghost predicate Woken<T(!new)>(s: State<T>) {
    s.cons.Polling? && |s.popped| < |s.pushed| ==> s.pipe > 0 || s.prod.Signalling?
  }

  ghost predicate Inv<T(!new)>(s: State<T>) {
    Counters(s) && Contents(s) && Positions(s) && Woken(s)
  }

  lemma HalfRange(cap: nat)
    requires Capacity(cap)
    ensures cap <= U32 / 2
  {
    var q := U32 / cap;
    assert q * cap == U32;
    assert q != 0 && q != 1;
    assert 2 * cap <= q * cap;
  }

  /** The wrapping comparison refuses exactly when every slot is taken. */
  lemma FullMeansFull<T(!new)>(s: State<T>)
    requires Counters(s)
    ensures Full(s) <==> |s.pushed| - |s.popped| == s.cap
  {
    hide Wrap, Capacity;
    HalfRange(s.cap);
    WrapGap(|s.popped|, |s.pushed|);
  }

  lemma EmptyMeansEmpty<T(!new)>(s: State<T>)
    requires Counters(s)
    ensures s.head == s.tail <==> |s.pushed| == |s.popped|
  {
    hide Capacity;
    HalfRange(s.cap);
    WrapDistance(|s.popped|, |s.pushed|);
  }

  /** In no interleaving is a slot read while it is being written. */
  lemma NoRace<T(!new)>(s: State<T>)
    requires Inv(s) && s.prod.Tearing? && s.cons.Reading?
    ensures Slot(s, s.head) != Slot(s, s.tail)
  {
    SlotOfCount(s.cap, |s.pushed|);
    SlotOfCount(s.cap, |s.popped|);
    SlotsDiffer(s.cap, |s.popped|, |s.pushed|);
  }

  lemma InitInv<T(!new)>(s: State<T>)
    requires Init(s)
    ensures Inv(s)
  {
  }

  /** A write to the producer's slot leaves every published slot alone. */
  lemma WriteFree<T(!new)>(s: State<T>, v: T)
    requires Inv(s) && |s.pushed| < |s.popped| + s.cap
    ensures Slot(s, s.head) == |s.pushed| % s.cap < s.cap
    ensures Contents(s.(buf := s.buf[Slot(s, s.head) := v]))
  {
    SlotOfCount(s.cap, |s.pushed|);
    forall n | |s.popped| <= n < |s.pushed| ensures n % s.cap != |s.pushed| % s.cap {
      SlotsDiffer(s.cap, n, |s.pushed|);
    }
  }

  lemma CheckKeeps<T(!new)>(s: State<T>, s2: State<T>)
    requires Inv(s) && (Start(s, s2) || Check(s, s2) || Signal(s, s2))
    ensures Inv(s2)
  {
    hide Wrap, Full, Capacity;
    FullMeansFull(s);
  }

  lemma StoreKeeps<T(!new)>(s: State<T>, s2: State<T>)
    requires Inv(s) && (StoreBegins(s, s2) || StoreEnds(s, s2))
    ensures Inv(s2)
  {
    hide Wrap, Slot, Contents;
    WriteFree(s, s2.buf[Slot(s, s.head)]);
    assert Contents(s2) by { SameContents(s.(buf := s.buf[Slot(s, s.head) := s2.buf[Slot(s, s.head)]]), s2); }
  }

  lemma SameContents<T(!new)>(s: State<T>, s2: State<T>)
    requires 0 < s.cap == |s.buf| && |s.popped| <= |s.pushed| && Contents(s)
    requires s2.cap == s.cap && s2.buf == s.buf && s2.popped == s.popped && s2.pushed == s.pushed
    ensures Contents(s2)
  {
  }

  lemma PublishKeeps<T(!new)>(s: State<T>, s2: State<T>)
    requires Inv(s) && Publish(s, s2)
    ensures Inv(s2)
  {
    hide Wrap, Capacity;
    WrapNext(|s.pushed|);
    assert s2.pushed[..|s.popped|] == s.pushed[..|s.popped|];
  }

  lemma WaitKeeps<T(!new)>(s: State<T>, s2: State<T>)
    requires Inv(s) && (Wake(s, s2) || Drain(s, s2) || Look(s, s2))
    ensures Inv(s2)
  {
    hide Wrap, Capacity;
    EmptyMeansEmpty(s);
  }

  lemma TakeKeeps<T(!new)>(s: State<T>, s2: State<T>)
    requires Inv(s) && (Take(s, s2) || Release(s, s2))
    ensures Inv(s2)
  {
    hide Wrap, Capacity;
    SlotAtTail(s);
    WrapNext(|s.popped|);
  }

  lemma SlotAtTail<T(!new)>(s: State<T>)
    requires Counters(s)
    ensures Slot(s, s.tail) == |s.popped| % s.cap
  {
    SlotOfCount(s.cap, |s.popped|);
  }

  lemma {:induction false} Reachable<T(!new)>(run: seq<State<T>>, i: nat)
    requires Run(run) && i < |run|
    ensures Inv(run[i])
  {
    if i == 0 {
      InitInv(run[0]);
    } else {
      Reachable(run, i - 1);
      assert Next(run[i - 1], run[i - 1 + 1]);
      Keeps(run[i - 1], run[i]);
    }
  }

  lemma Keeps<T(!new)>(s: State<T>, s2: State<T>)
    requires Inv(s) && Next(s, s2)
    ensures Inv(s2)
  {
    hide Inv, Start, Check, StoreBegins, StoreEnds, Publish, Signal, Wake, Drain, Look, Take, Release;
    if Start(s, s2) || Check(s, s2) || Signal(s, s2) {
      CheckKeeps(s, s2);
    } else if StoreBegins(s, s2) || StoreEnds(s, s2) {
      StoreKeeps(s, s2);
    } else if Publish(s, s2) {
      PublishKeeps(s, s2);
    } else if Take(s, s2) || Release(s, s2) {
      TakeKeeps(s, s2);
    } else {
      WaitKeeps(s, s2);
    }
  }

  /**
   * Over every run: what was popped is a prefix of what was pushed, at most one capacity behind;
   * an item is refused only when the queue is full; no slot is read while it is written.
   */
  lemma QueueIsFifo<T(!new)>(run: seq<State<T>>, i: nat)
    requires Run(run) && i < |run|
    ensures run[i].popped <= run[i].pushed && |run[i].pushed| - |run[i].popped| <= run[i].cap
    ensures Full(run[i]) <==> |run[i].pushed| - |run[i].popped| == run[i].cap
    ensures run[i].cap > 0
    ensures run[i].prod.Tearing? && run[i].cons.Reading? ==> Slot(run[i], run[i].head) != Slot(run[i], run[i].tail)
  {
    Reachable(run, i);
    FullMeansFull(run[i]);
    if run[i].prod.Tearing? && run[i].cons.Reading? {
      NoRace(run[i]);
    }
  }

  /** The consumer never blocks on a non-empty queue without a wake byte there or about to be sent. */
  lemma NoLostWake<T(!new)>(run: seq<State<T>>, i: nat)
    requires Run(run) && i < |run| && run[i].cons.Polling? && |run[i].popped| < |run[i].pushed|
    ensures run[i].pipe > 0 || run[i].prod.Signalling?
  {
    Reachable(run, i);
  }
}
