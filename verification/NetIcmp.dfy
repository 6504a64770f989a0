/** The ping engine of networkd: pending echo requests, one index, results. */
module NetIcmp {
  import opened Machine
  import opened NetHashMap
  import opened NetTypes
  import opened NetIndex
  import opened NetIndexOps

  datatype PingState = ArpWait | Sent

  datatype PingOp = PingOp(key: Word, tag: Word, token: Word, dstIp: Word, ident: Port, seqNo: Port,
                           timeout: Word, deadline: Word, sentTime: Word, state: PingState)

  datatype PingResult = PingResult(tag: Word, token: Word, dstIp: Word, ident: Port, seqNo: Port, ok: bool, rtt: Word)

  function MakeKey(ident: Port, seqNo: Port): Word {
    ident * U16 + seqNo
  }

  function Rtt(op: PingOp, now: Word, ok: bool): Word {
    if ok && op.sentTime != 0 && now >= op.sentTime then now - op.sentTime else 0
  }

  function Outcome(op: PingOp, now: Word, ok: bool): PingResult {
    PingResult(op.tag, op.token, op.dstIp, op.ident, op.seqNo, ok, Rtt(op, now, ok))
  }

  function Keys(ops: seq<PingOp>): (ks: seq<nat>)
    ensures |ks| == |ops| && forall i :: 0 <= i < |ops| ==> ks[i] == ops[i].key
  {
    seq(|ops|, i requires 0 <= i < |ops| => ops[i].key)
  }

  function OpIds(ops: seq<PingOp>): (ids: seq<Id>)
    ensures |ids| == |ops| && forall i :: 0 <= i < |ops| ==> ids[i] == Id(ops[i].token, ops[i].tag)
  {
    seq(|ops|, i requires 0 <= i < |ops| => Id(ops[i].token, ops[i].tag))
  }

  function ResultIds(rs: seq<PingResult>): (ids: seq<Id>)
    ensures |ids| == |rs| && forall i :: 0 <= i < |rs| ==> ids[i] == Id(rs[i].token, rs[i].tag)
  {
    seq(|rs|, i requires 0 <= i < |rs| => Id(rs[i].token, rs[i].tag))
  }

  /** Requests accepted so far are pending, answered (waiting or polled), or their result was lost. */
  ghost predicate Balanced(accepted: multiset<Id>, ops: seq<PingOp>, results: seq<PingResult>,
                           polled: multiset<Id>, lost: multiset<Id>) {
    accepted == multiset(OpIds(ops)) + multiset(ResultIds(results)) + polled + lost
  }

  lemma BalancedAfterPush(accepted: multiset<Id>, ops: seq<PingOp>, op: PingOp, results: seq<PingResult>,
                          polled: multiset<Id>, lost: multiset<Id>)
    requires Balanced(accepted, ops, results, polled, lost)
    ensures Balanced(accepted + multiset{Id(op.token, op.tag)}, ops + [op], results, polled, lost)
  {
    assert OpIds(ops + [op]) == OpIds(ops) + [Id(op.token, op.tag)];
  }

  lemma BalancedAfterDone(accepted: multiset<Id>, ops: seq<PingOp>, i: nat, results: seq<PingResult>, r: PingResult,
                          polled: multiset<Id>, lost: multiset<Id>)
    requires i < |ops| && Balanced(accepted, ops, results, polled, lost) && r.token == ops[i].token
             && r.tag == ops[i].tag
    ensures Balanced(accepted, SwapRemove(ops, i), results + [r], polled, lost)
    ensures Balanced(accepted, SwapRemove(ops, i), results, polled, lost + multiset{Id(r.token, r.tag)})
  {
    MultisetSwapRemove(OpIds(ops), i);
    assert OpIds(SwapRemove(ops, i)) == SwapRemove(OpIds(ops), i);
    assert ResultIds(results + [r]) == ResultIds(results) + [Id(r.token, r.tag)];
  }

  lemma BalancedAfterSend(accepted: multiset<Id>, ops: seq<PingOp>, i: nat, op: PingOp, results: seq<PingResult>,
                          polled: multiset<Id>, lost: multiset<Id>)
    requires i < |ops| && Balanced(accepted, ops, results, polled, lost)
    requires op.key == ops[i].key && op.token == ops[i].token && op.tag == ops[i].tag
    ensures Balanced(accepted, ops[i := op], results, polled, lost)
    ensures Keys(ops[i := op]) == Keys(ops)
  {
    assert OpIds(ops[i := op]) == OpIds(ops);
  }

  /** Some pending request waits for this reply. */
  ghost predicate Pending(ops: seq<PingOp>, key: Word, srcIp: Word) {
    exists i :: 0 <= i < |ops| && ops[i].key == key && ops[i].dstIp == srcIp
  }

  /** Through a sound index a reply with a non-zero key finds its request, whichever position it has. */
  lemma ReplyFinds(m: map<nat, nat>, ops: seq<PingOp>, key: Word, srcIp: Word)
    requires Indexes(m, Keys(ops))
    ensures Pending(ops, key, srcIp) && key != 0 ==>
              key in m && m[key] < |ops| && ops[m[key]].key == key && ops[m[key]].dstIp == srcIp
    ensures key == 0 ==> key !in m
  {
    if Pending(ops, key, srcIp) && key != 0 {
      var i :| 0 <= i < |ops| && ops[i].key == key && ops[i].dstIp == srcIp;
      assert Keys(ops)[i] == key;
    }
  }

  /** The step loop's visit: expired and unsendable requests are dropped, the others may be sent. */
  function Visitor(now: Word, arp: PingOp -> bool, sent: PingOp -> bool): PingOp -> Visit<PingOp> {
    (op: PingOp) =>
      if now >= op.deadline then Drop
      else if op.state.ArpWait? && arp(op) then
        if !sent(op) then Drop
        else Keep(op.(sentTime := now, deadline := (now + op.timeout) % U32, state := Sent))
      else Keep(op)
  }

  ghost predicate Always(p: PingOp -> bool) {
    forall op :: p(op)
  }

  /** With nothing lost, what left the pending requests came to the results, once each. */
  lemma OneResultEach(accepted: multiset<Id>, ops: seq<PingOp>, ops2: seq<PingOp>, results: seq<PingResult>,
                      results2: seq<PingResult>,
                      polled: multiset<Id>, lost: multiset<Id>)
    requires Balanced(accepted, ops, results, polled, lost) && Balanced(accepted, ops2, results2, polled, lost)
             && results <= results2
    ensures multiset(OpIds(ops)) == multiset(OpIds(ops2)) + multiset(ResultIds(results2[|results|..]))
  {
    var before, now, more := multiset(OpIds(ops)), multiset(OpIds(ops2)), multiset(ResultIds(results2[|results|..]));
    assert ResultIds(results2) == ResultIds(results) + ResultIds(results2[|results|..]);
    var others := multiset(ResultIds(results)) + polled + lost;
    assert before + others == accepted == now + more + others;
    TakenAway(before, now + more, others);
  }

  class Ipv4Icmp {
    var ops: seq<PingOp>
    const byKey: HashMap<nat>
    var results: seq<PingResult>
    ghost var accepted: multiset<Id>
    ghost var polled: multiset<Id>
    ghost var lost: multiset<Id>
    /** No put on the index has failed so far. */
    ghost var indexed: bool

    ghost predicate Valid()
      reads this, byKey, byKey.keys, byKey.vals
    {
      && byKey.Valid()
      && (indexed ==> Indexes(byKey.m, Keys(ops)))
      && Balanced(accepted, ops, results, polled, lost)
    }

    constructor (hash: nat -> nat)
      ensures Valid() && fresh(byKey) && fresh(byKey.keys) && fresh(byKey.vals)
      ensures ops == [] && results == [] && accepted == multiset{} && indexed
    {
      ops := [];
      results := [];
      byKey := new HashMap<nat>(hash, 0);
      accepted, polled, lost, indexed := multiset{}, multiset{}, multiset{}, true;
    }

    /**
     * Accepts a request whose key is not indexed. A failing put is ignored, as the engine does:
     * the request stays pending but no reply can find it, which the flag records.
     */
    method SubmitPing(token: Word, tag: Word, dstIp: Word, ident: Port, seqNo: Port, timeout: Word, now: Word,
                      memOps: bool, memIndex: bool)
      returns (ok: bool)
      requires Valid()
      modifies this, byKey, byKey.keys, byKey.vals
      ensures Valid() && results == old(results) && polled == old(polled) && lost == old(lost)
      ensures ok <==> memOps && MakeKey(ident, seqNo) !in old(byKey.m)
      ensures ok ==> ops == old(ops) + [PingOp(MakeKey(ident, seqNo), tag, token, dstIp, ident, seqNo,
                                               timeout, (now + timeout) % U32, 0, ArpWait)]
                     && accepted == old(accepted) + multiset{Id(token, tag)}
      ensures !ok ==> ops == old(ops) && accepted == old(accepted) && byKey.m == old(byKey.m) && indexed == old(indexed)
      ensures old(indexed) && (memIndex || MakeKey(ident, seqNo) == 0) ==> indexed
    {
      hide HashMap.Valid, Balanced, Indexes, MakeKey;
      var op := PingOp(MakeKey(ident, seqNo), tag, token, dstIp, ident, seqNo, timeout, (now + timeout) % U32, 0,
        ArpWait);
      var dup, at := byKey.Get(op.key);
      if dup {
        return false;
      }
      if !memOps {
        return false;
      }
      ops := ops + [op];
      var put := byKey.Put(op.key, |ops| - 1, memIndex);
      accepted := accepted + multiset{Id(token, tag)};
      BalancedAfterPush(old(accepted), old(ops), op, results, polled, lost);
      indexed := indexed && (put || op.key == 0);
      if indexed {
        assert Keys(ops) == Keys(old(ops)) + [op.key];
        IndexAfterPush(old(byKey.m), Keys(old(ops)), op.key);
      }
      return true;
    }

    /**
     * Takes request i out of the index. The re-pointing put needs memory only when the removed
     * key is zero, since then the erase frees no slot.
     */
    method Unindex(i: nat, memory: bool) returns (put: bool)
      requires byKey.Valid() && i < |ops|
      modifies byKey, byKey.keys, byKey.vals
      ensures byKey.Valid()
      ensures (byKey.keys == old(byKey.keys) && byKey.vals == old(byKey.vals))
              || (fresh(byKey.keys) && fresh(byKey.vals))
      ensures put && Indexes(old(byKey.m), Keys(ops)) ==> Indexes(byKey.m, Keys(SwapRemove(ops, i)))
      ensures Indexes(old(byKey.m), Keys(ops)) && (memory || ops[i].key != 0) ==> put
    {
      hide HashMap.Valid, Indexes, Keys, SwapRemove, Moved;
      var last := |ops| - 1;
      if Indexes(byKey.m, Keys(ops)) {
        IndexAfterDone(byKey.m, ops, i);
      }
      put := RemoveAt(byKey, ops[i].key, if i != last then ops[last].key else 0, i, memory);
    }

    /** Moves request i to the results, or loses its result, and closes the gap with the last one. */
    method CompleteOp(i: nat, now: Word, ok: bool, memResult: bool, memIndex: bool)
      requires Valid()
      modifies this, byKey, byKey.keys, byKey.vals
      ensures Valid() && accepted == old(accepted) && polled == old(polled)
      ensures || (byKey.keys == old(byKey.keys) && byKey.vals == old(byKey.vals))
              || (fresh(byKey.keys) && fresh(byKey.vals))
      ensures i >= old(|ops|) ==>
                ops == old(ops) && results == old(results) && lost == old(lost) && indexed == old(indexed)
      ensures i < old(|ops|) ==> ops == SwapRemove(old(ops), i)
      ensures i < old(|ops|) && memResult ==>
                results == old(results) + [Outcome(old(ops)[i], now, ok)] && lost == old(lost)
      ensures i < old(|ops|) && !memResult ==>
                results == old(results) && lost == old(lost) + multiset{Id(old(ops)[i].token, old(ops)[i].tag)}
      ensures indexed ==> old(indexed)
      ensures old(indexed) && (i < old(|ops|) ==> memIndex || old(ops)[i].key != 0) ==> indexed
    {
      hide HashMap.Valid, Balanced, Indexes, Keys, SwapRemove, Outcome;
      if i < |ops| {
        Record(i, now, ok, memResult);
        var put := Unindex(i, memIndex);
        indexed := indexed && put;
        ops := SwapRemove(ops, i);
      }
    }

    /** Queues the result of request i, or loses it; what is left to do is to take the request out. */
    method Record(i: nat, now: Word, ok: bool, memResult: bool)
      requires Valid() && i < |ops|
      modifies `results, `lost
      ensures Balanced(accepted, SwapRemove(ops, i), results, polled, lost)
      ensures memResult ==> results == old(results) + [Outcome(ops[i], now, ok)] && lost == old(lost)
      ensures !memResult ==> results == old(results) && lost == old(lost) + multiset{Id(ops[i].token, ops[i].tag)}
    {
      hide HashMap.Valid, Balanced, Indexes, Keys, SwapRemove, Rtt;
      BalancedAfterDone(accepted, ops, i, results, Outcome(ops[i], now, ok), polled, lost);
      if memResult {
        results := results + [Outcome(ops[i], now, ok)];
      } else {
        lost := lost + multiset{Id(ops[i].token, ops[i].tag)};
      }
    }

    /** Writes back a request that stays pending. */
    method Retain(i: nat, op: PingOp, ghost visit: PingOp -> Visit<PingOp>)
      requires Valid() && i < |ops| && visit(ops[i]) == Keep(op)
      requires op.key == ops[i].key && op.token == ops[i].token && op.tag == ops[i].tag
      modifies `ops
      ensures Valid() && ops == old(ops)[i := op]
      ensures multiset(ops[..i + 1]) + Kept(ops[i + 1..], visit) == multiset(old(ops)[..i]) + Kept(old(ops)[i..], visit)
    {
      hide HashMap.Valid, Balanced, Indexes, Keys, Kept, KeptOne;
      BalancedAfterSend(accepted, ops, i, op, results, polled, lost);
      KeptAfterKeep(ops, i, visit, op);
      ops := ops[i := op];
    }

    /** Completes a request of the step loop as failed. */
    method Fail(i: nat, now: Word, memResult: bool, memIndex: bool, ghost visit: PingOp -> Visit<PingOp>)
      requires Valid() && i < |ops| && visit(ops[i]).Drop?
      modifies this, byKey, byKey.keys, byKey.vals
      ensures Valid() && accepted == old(accepted) && polled == old(polled) && |ops| == old(|ops|) - 1
      ensures (byKey.keys == old(byKey.keys) && byKey.vals == old(byKey.vals))
              || (fresh(byKey.keys) && fresh(byKey.vals))
      ensures multiset(ops[..i]) + Kept(ops[i..], visit) == multiset(old(ops)[..i]) + Kept(old(ops)[i..], visit)
      ensures old(results) <= results && forall j :: |old(results)| <= j < |results| ==> !results[j].ok
      ensures memResult ==> lost == old(lost)
      ensures old(indexed) && memIndex ==> indexed
    {
      hide HashMap.Valid, Balanced, Indexes, Keys, Kept, KeptOne, SwapRemove;
      KeptAfterDrop(ops, i, visit);
      CompleteOp(i, now, false, memResult, memIndex);
    }

    /** One turn of the step loop: fails, sends or leaves request i. */
    method StepOne(i: nat, now: Word, arp: PingOp -> bool, sent: PingOp -> bool, memResult: bool, memIndex: bool)
      returns (next: nat)
      requires Valid() && i < |ops|
      modifies this, byKey, byKey.keys, byKey.vals
      ensures Valid() && accepted == old(accepted) && polled == old(polled)
      ensures i <= next <= |ops| && |ops| - next == old(|ops|) - i - 1
      ensures (byKey.keys == old(byKey.keys) && byKey.vals == old(byKey.vals))
              || (fresh(byKey.keys) && fresh(byKey.vals))
      ensures multiset(ops[..next]) + Kept(ops[next..], Visitor(now, arp, sent))
           == multiset(old(ops)[..i]) + Kept(old(ops)[i..], Visitor(now, arp, sent))
      ensures old(results) <= results && forall j :: |old(results)| <= j < |results| ==> !results[j].ok
      ensures memResult ==> lost == old(lost)
      ensures old(indexed) && memIndex ==> indexed
    {
      hide HashMap.Valid, Balanced, Indexes, Keys, Kept, KeptOne;
      var op := ops[i];
      if now >= op.deadline {
        Fail(i, now, memResult, memIndex, Visitor(now, arp, sent));
        return i;
      }
      if op.state.ArpWait? && arp(op) {
        if !sent(op) {
          Fail(i, now, memResult, memIndex, Visitor(now, arp, sent));
          return i;
        }
        op := op.(sentTime := now, deadline := (now + op.timeout) % U32, state := Sent);
      }
      assert Visitor(now, arp, sent)(ops[i]) == Keep(op);
      Retain(i, op, Visitor(now, arp, sent));
      return i + 1;
    }

    /** Drops what expired or cannot be sent, sends what has an address, leaves the rest. */
    method Step(now: Word, arp: PingOp -> bool, sent: PingOp -> bool, memResult: PingOp -> bool,
                memIndex: PingOp -> bool)
      requires Valid()
      modifies this, byKey, byKey.keys, byKey.vals
      ensures Valid() && accepted == old(accepted) && polled == old(polled)
      ensures multiset(ops) == Kept(old(ops), Visitor(now, arp, sent))
      ensures old(results) <= results && forall j :: |old(results)| <= j < |results| ==> !results[j].ok
      ensures Always(memResult) ==>
                lost == old(lost) && multiset(OpIds(old(ops)))
                  == multiset(OpIds(ops)) + multiset(ResultIds(results[|old(results)|..]))
      ensures old(indexed) && Always(memIndex) ==> indexed
    {
      hide HashMap.Valid, Balanced, Indexes, Keys, Kept, KeptOne, Visitor;
      var i: nat := 0;
      assert ops[0..] == ops;
      assert multiset(ops[..0]) == multiset{};
      while i < |ops|
        invariant i <= |ops| && Valid() && accepted == old(accepted) && polled == old(polled)
        invariant (byKey.keys == old(byKey.keys) && byKey.vals == old(byKey.vals))
                  || (fresh(byKey.keys) && fresh(byKey.vals))
        invariant multiset(ops[..i]) + Kept(ops[i..], Visitor(now, arp, sent))
                  == Kept(old(ops), Visitor(now, arp, sent))
        invariant old(results) <= results && (Always(memResult) ==> lost == old(lost))
        invariant forall j :: |old(results)| <= j < |results| ==> !results[j].ok
        invariant old(indexed) && Always(memIndex) ==> indexed
        decreases |ops| - i
      {
        i := StepOne(i, now, arp, sent, memResult(ops[i]), memIndex(ops[i]));
      }
      assert ops[..i] == ops && ops[i..] == [];
      KeptNone(Visitor(now, arp, sent));
      if lost == old(lost) {
        OneResultEach(accepted, old(ops), ops, old(results), results, polled, lost);
      }
    }

    /**
     * An echo reply completes at most the request it names. While no put has failed it
     * completes one if and only if the key is non-zero and such a request is pending.
     */
    method HandleReply(ident: Port, seqNo: Port, srcIp: Word, now: Word, memResult: bool, memIndex: bool)
                       returns (ghost hit: bool)
      requires Valid()
      modifies this, byKey, byKey.keys, byKey.vals
      ensures Valid() && accepted == old(accepted) && polled == old(polled) && indexed == old(indexed)
      ensures !hit ==> ops == old(ops) && results == old(results) && lost == old(lost)
      ensures hit ==>
                exists i ::
                  && 0 <= i < |old(ops)| && old(ops)[i].key == MakeKey(ident, seqNo) && old(ops)[i].dstIp == srcIp
                  && ops == SwapRemove(old(ops), i)
                  && (memResult ==>
                        lost == old(lost) && results == old(results) + [Outcome(old(ops)[i], now, true)])
      ensures old(indexed) ==> (hit <==> MakeKey(ident, seqNo) != 0 && Pending(old(ops), MakeKey(ident, seqNo), srcIp))
    {
      hide HashMap.Valid, Balanced, Indexes, Keys, SwapRemove, MakeKey;
      var key := MakeKey(ident, seqNo);
      if indexed {
        ReplyFinds(byKey.m, ops, key, srcIp);
      }
      var found, index := byKey.Get(key);
      if !found {
        return false;
      }
      if index >= |ops| {
        return false;
      }
      var op := ops[index];
      if op.key != key || op.dstIp != srcIp {
        return false;
      }
      CompleteOp(index, now, true, memResult, memIndex);
      return true;
    }

    method PollResult() returns (got: bool, r: PingResult)
      requires Valid()
      modifies this
      ensures Valid() && accepted == old(accepted) && ops == old(ops) && lost == old(lost) && indexed == old(indexed)
      ensures got <==> old(results) != []
      ensures got ==>
                && r == old(results)[0] && results == SwapRemove(old(results), 0)
                && polled == old(polled) + multiset{Id(r.token, r.tag)}
      ensures !got ==> results == old(results) && polled == old(polled)
    {
      hide HashMap.Valid, Indexes, Keys;
      if |results| == 0 {
        return false, PingResult(0, 0, 0, 0, 0, false, 0);
      }
      r := results[0];
      MultisetSwapRemove(ResultIds(results), 0);
      assert ResultIds(SwapRemove(results, 0)) == SwapRemove(ResultIds(results), 0);
      results := SwapRemove(results, 0);
      polled := polled + multiset{Id(r.token, r.tag)};
      return true, r;
    }
  }

  lemma IndexAfterDone(m: map<nat, nat>, ops: seq<PingOp>, i: nat)
    requires Indexes(m, Keys(ops)) && i < |ops|
    ensures ops[i].key != 0 ==> ops[i].key in m
    ensures Indexes(Moved(m, ops[i].key, if i != |ops| - 1 then ops[|ops| - 1].key else 0, i), Keys(SwapRemove(ops, i)))
  {
    assert Keys(SwapRemove(ops, i)) == SwapRemove(Keys(ops), i);
    MovedIsRepointed(m, Keys(ops), i);
    IndexAfterRemove(m, Keys(ops), i);
  }
}
