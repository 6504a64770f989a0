/** The DNS operation engine of networkd: pending operations, two indexes, results. */
module NetDns {
  import opened Machine
  import opened NetHashMap
  import opened NetTypes
  import opened NetIndex
  import opened NetIndexOps
  import opened NetDnsWire

  const MAX_OPS := 64
  const DNS_PORT := 53
  datatype OpState = ArpWait | Tx

  datatype Op = Op(key: nat, tag: Word, token: Word, dstIp: Word, srcPort: Port, txid: Port,
                   deadline: Word, nextTx: Word, tries: nat, state: OpState)

  datatype ResolveResult = ResolveResult(ip: Word, ok: bool, tag: Word, token: Word)

  function MakeKey(token: Word, tag: Word): (k: nat)
    ensures k != 0
  {
    if token == 0 && tag == 0 then 1 else token * U32 + tag
  }

  function RespKey(ip: Word, port: Port, txid: Port): (k: nat)
    ensures txid != 0 ==> k != 0
  {
    ip * U32 + port * U16 + txid
  }

  /** The response key determines server address, port and transaction id. */
  lemma RespKeyInjective(a: Op, b: Op)
    requires RespKey(a.dstIp, a.srcPort, a.txid) == RespKey(b.dstIp, b.srcPort, b.txid)
    ensures a.dstIp == b.dstIp && a.srcPort == b.srcPort && a.txid == b.txid
  {
  }

  /** The source port a query goes out from; the entropy is the clock folded to 16 bits. */
  function SrcPort(entropy: Port): Port {
    40000 + entropy % 20000
  }

  function Deadline(now: Word, timeout: Word): Word {
    (now + if timeout != 0 then timeout else 2000) % U32
  }

  function Keys(ops: seq<Op>): (ks: seq<nat>)
    ensures |ks| == |ops| && forall i :: 0 <= i < |ops| ==> ks[i] == ops[i].key
  {
    seq(|ops|, i requires 0 <= i < |ops| => ops[i].key)
  }

  function RespKeys(ops: seq<Op>): (ks: seq<nat>)
    ensures |ks| == |ops| && forall i :: 0 <= i < |ops| ==> ks[i] == RespKey(ops[i].dstIp, ops[i].srcPort, ops[i].txid)
  {
    seq(|ops|, i requires 0 <= i < |ops| => RespKey(ops[i].dstIp, ops[i].srcPort, ops[i].txid))
  }

  function OpIds(ops: seq<Op>): (ids: seq<Id>)
    ensures |ids| == |ops| && forall i :: 0 <= i < |ops| ==> ids[i] == Id(ops[i].token, ops[i].tag)
  {
    seq(|ops|, i requires 0 <= i < |ops| => Id(ops[i].token, ops[i].tag))
  }

  function ResultIds(rs: seq<ResolveResult>): (ids: seq<Id>)
    ensures |ids| == |rs| && forall i :: 0 <= i < |rs| ==> ids[i] == Id(rs[i].token, rs[i].tag)
  {
    seq(|rs|, i requires 0 <= i < |rs| => Id(rs[i].token, rs[i].tag))
  }

  lemma ProjectionsAfterRemove(ops: seq<Op>, i: nat)
    requires i < |ops|
    ensures Keys(SwapRemove(ops, i)) == SwapRemove(Keys(ops), i)
    ensures RespKeys(SwapRemove(ops, i)) == SwapRemove(RespKeys(ops), i)
    ensures OpIds(SwapRemove(ops, i)) == SwapRemove(OpIds(ops), i)
  {
  }

  /** Requests accepted so far are pending, answered (waiting or polled), or their result was lost. */
  ghost predicate Balanced(accepted: multiset<Id>, ops: seq<Op>, results: seq<ResolveResult>,
                           polled: multiset<Id>, lost: multiset<Id>) {
    accepted == multiset(OpIds(ops)) + multiset(ResultIds(results)) + polled + lost
  }

  /** Both indexes agree with the vector of pending operations. */
  ghost predicate EngineOk(ops: seq<Op>, byKey: map<nat, nat>, byResp: map<nat, nat>) {
    && Indexes(byKey, Keys(ops))
    && Indexes(byResp, RespKeys(ops))
    && (forall i :: 0 <= i < |ops| ==> ops[i].key == MakeKey(ops[i].token, ops[i].tag) && ops[i].txid != 0)
    && |ops| <= MAX_OPS
  }

  lemma EngineIndexed(ops: seq<Op>, byKey: map<nat, nat>, byResp: map<nat, nat>, i: nat)
    requires EngineOk(ops, byKey, byResp) && i < |ops|
    ensures Indexes(byKey, Keys(ops)) && Indexes(byResp, RespKeys(ops))
    ensures Keys(ops)[i] == ops[i].key != 0 && Keys(ops)[|ops| - 1] == ops[|ops| - 1].key
    ensures RespKeys(ops)[i] == RespKey(ops[i].dstIp, ops[i].srcPort, ops[i].txid) != 0
  {
  }

  lemma EngineAfterRemove(ops: seq<Op>, byKey: map<nat, nat>, byResp: map<nat, nat>, i: nat)
    requires EngineOk(ops, byKey, byResp) && i < |ops|
    ensures EngineOk(SwapRemove(ops, i), Repointed(byKey, Keys(ops), i), Repointed(byResp, RespKeys(ops), i))
  {
    hide Indexes, Repointed;
    ProjectionsAfterRemove(ops, i);
    IndexAfterRemove(byKey, Keys(ops), i);
    IndexAfterRemove(byResp, RespKeys(ops), i);
  }

  lemma EngineAfterPush(ops: seq<Op>, byKey: map<nat, nat>, byResp: map<nat, nat>, op: Op)
    requires EngineOk(ops, byKey, byResp) && |ops| < MAX_OPS
    requires op.key == MakeKey(op.token, op.tag) && op.txid != 0
    requires op.key !in byKey && RespKey(op.dstIp, op.srcPort, op.txid) !in byResp
    ensures EngineOk(ops + [op], byKey[op.key := |ops|], byResp[RespKey(op.dstIp, op.srcPort, op.txid) := |ops|])
  {
    hide Indexes;
    assert Keys(ops + [op]) == Keys(ops) + [op.key];
    assert RespKeys(ops + [op]) == RespKeys(ops) + [RespKey(op.dstIp, op.srcPort, op.txid)];
    IndexAfterPush(byKey, Keys(ops), op.key);
    IndexAfterPush(byResp, RespKeys(ops), RespKey(op.dstIp, op.srcPort, op.txid));
  }

  lemma BalancedAfterPush(accepted: multiset<Id>, ops: seq<Op>, op: Op, results: seq<ResolveResult>,
                          polled: multiset<Id>, lost: multiset<Id>)
    requires Balanced(accepted, ops, results, polled, lost)
    ensures Balanced(accepted + multiset{Id(op.token, op.tag)}, ops + [op], results, polled, lost)
  {
    assert OpIds(ops + [op]) == OpIds(ops) + [Id(op.token, op.tag)];
  }

  /** Sending and waiting change nothing an index depends on. */
  lemma EngineAfterAdvance(ops: seq<Op>, byKey: map<nat, nat>, byResp: map<nat, nat>, i: nat, op: Op)
    requires EngineOk(ops, byKey, byResp) && i < |ops|
    requires op.(deadline := ops[i].deadline, nextTx := ops[i].nextTx, tries := ops[i].tries, state := ops[i].state)
             == ops[i]
    ensures EngineOk(ops[i := op], byKey, byResp)
    ensures OpIds(ops[i := op]) == OpIds(ops)
  {
    assert Keys(ops[i := op]) == Keys(ops);
    assert RespKeys(ops[i := op]) == RespKeys(ops);
  }

  /** One visit of the step loop to an operation that has not timed out. */
  function Advance(op: Op, now: Word, arp: bool, sent: bool): Op {
    match op.state
    case ArpWait => if arp then op.(state := Tx, nextTx := now) else op
    case Tx =>
      if op.tries >= 3 || now < op.nextTx then op
      else if !sent then op.(tries := 3)
      else op.(tries := op.tries + 1, nextTx := (now + 800) % U32)
  }

  /** The step loop's visit: dropped at the deadline, advanced before it. */
  function Visitor(now: Word, arp: Op -> bool, sent: Op -> bool): Op -> Visit<Op> {
    (op: Op) => if now >= op.deadline then Drop else Keep(Advance(op, now, arp(op), sent(op)))
  }

  /** A pending operation that the response key reaches is the one that sent the query. */
  lemma Matched(ops: seq<Op>, byKey: map<nat, nat>, byResp: map<nat, nat>, ip: Word, port: Port, txid: Port)
    requires EngineOk(ops, byKey, byResp)
    ensures RespKey(ip, port, txid) in byResp <==> Awaited(ops, ip, port, txid)
    ensures RespKey(ip, port, txid) in byResp ==>
              var i := byResp[RespKey(ip, port, txid)];
              i < |ops| && Awaits(ops[i], ip, port, txid)
  {
    var key := RespKey(ip, port, txid);
    if key in byResp {
      var op := ops[byResp[key]];
      RespKeyInjective(op, op.(dstIp := ip, srcPort := port, txid := txid));
    }
    forall i | 0 <= i < |ops| && Awaits(ops[i], ip, port, txid) ensures key in byResp {
      assert RespKeys(ops)[i] == key;
    }
  }

  predicate Awaits(op: Op, ip: Word, port: Port, txid: Port) {
    op.dstIp == ip && op.srcPort == port && op.txid == txid
  }

  function Reply(op: Op, answer: Answer): ResolveResult {
    match answer
    case Address(ip) => ResolveResult(ip, true, op.tag, op.token)
    case None => ResolveResult(0, false, op.tag, op.token)
  }

  lemma BalancedAfterAdvance(accepted: multiset<Id>, ops: seq<Op>, ops2: seq<Op>, results: seq<ResolveResult>,
                             polled: multiset<Id>, lost: multiset<Id>)
    requires Balanced(accepted, ops, results, polled, lost) && OpIds(ops2) == OpIds(ops)
    ensures Balanced(accepted, ops2, results, polled, lost)
  {
  }

  /** Query i, which awaited this reply, is no longer pending. */
  ghost predicate Answered(ops: seq<Op>, ops2: seq<Op>, i: int, ip: Word, port: Port, txid: Port) {
    0 <= i < |ops| && Awaits(ops[i], ip, port, txid) && ops2 == SwapRemove(ops, i)
  }

  /** Some pending query went to this server from this port with this transaction id. */
  ghost predicate Awaited(ops: seq<Op>, ip: Word, port: Port, txid: Port) {
    exists i :: 0 <= i < |ops| && Awaits(ops[i], ip, port, txid)
  }

  lemma StillBalanced(accepted: multiset<Id>, ops: seq<Op>, i: nat, results: seq<ResolveResult>,
                      results2: seq<ResolveResult>,
                      polled: multiset<Id>, lost: multiset<Id>, lost2: multiset<Id>)
    requires i < |ops| && Balanced(accepted, ops, results, polled, lost)
    requires || (lost2 == lost && |results2| == |results| + 1 && results2[..|results|] == results
                 && Id(results2[|results|].token, results2[|results|].tag) == Id(ops[i].token, ops[i].tag))
             || (results2 == results && lost2 == lost + multiset{Id(ops[i].token, ops[i].tag)})
    ensures Balanced(accepted, SwapRemove(ops, i), results2, polled, lost2)
  {
    ProjectionsAfterRemove(ops, i);
    MultisetSwapRemove(OpIds(ops), i);
    if results2 != results {
      assert ResultIds(results2) == ResultIds(results) + [Id(ops[i].token, ops[i].tag)];
    }
  }

  ghost predicate Always(p: Op -> bool) {
    forall op :: p(op)
  }

  /** With nothing lost, what left the pending operations came to the results, once each. */
  lemma OneResultEach(accepted: multiset<Id>, ops: seq<Op>, ops2: seq<Op>, results: seq<ResolveResult>,
                      results2: seq<ResolveResult>,
                      polled: multiset<Id>, lost: multiset<Id>)
    requires Balanced(accepted, ops, results, polled, lost) && Balanced(accepted, ops2, results2, polled, lost)
             && results <= results2
    ensures multiset(OpIds(ops)) == multiset(OpIds(ops2)) + multiset(ResultIds(results2[|results|..]))
  {
    var before, now, more := multiset(OpIds(ops)), multiset(OpIds(ops2)), multiset(ResultIds(results2[|results|..]));
    assert ResultIds(results2) == ResultIds(results) + ResultIds(results2[|results|..]);
    var others := multiset(ResultIds(results)) + polled + lost;
    assert before + others == accepted == now + more + others;
    TakenAway(before, now + more, others);
  }

  class DnsClient {
    var ops: seq<Op>
    const byKey: HashMap<nat>
    const byResp: HashMap<nat>
    var results: seq<ResolveResult>
    var nextTxid: Port
    var dnsIp: Word
    ghost var accepted: multiset<Id>
    ghost var polled: multiset<Id>
    ghost var lost: multiset<Id>

    ghost predicate Separate()
      reads this, byKey, byResp
    {
      && byKey != byResp
      && byKey.keys != byResp.keys && byKey.keys != byResp.vals
      && byKey.vals != byResp.keys && byKey.vals != byResp.vals
    }

    ghost predicate Valid()
      reads this, byKey, byResp, byKey.keys, byKey.vals, byResp.keys, byResp.vals
    {
      && Separate() && byKey.Valid() && byResp.Valid()
      && EngineOk(ops, byKey.m, byResp.m)
      && nextTxid != 0
      && Balanced(accepted, ops, results, polled, lost)
    }

    constructor (hash: nat -> nat, dnsIp: Word)
      ensures Valid() && fresh(byKey) && fresh(byResp)
      ensures fresh(byKey.keys) && fresh(byKey.vals) && fresh(byResp.keys) && fresh(byResp.vals)
      ensures ops == [] && results == [] && accepted == multiset{}
    {
      ops := [];
      results := [];
      nextTxid := 1;
      this.dnsIp := dnsIp;
      byKey := new HashMap<nat>(hash, 0);
      byResp := new HashMap<nat>(hash, 0);
      accepted, polled, lost := multiset{}, multiset{}, multiset{};
    }

    /** Takes operation i out of both indexes; the two re-pointing puts are given no memory and still succeed. */
    method Unindex(i: nat)
      requires Separate() && byKey.Valid() && byResp.Valid() && EngineOk(ops, byKey.m, byResp.m) && i < |ops|
      modifies byKey, byKey.keys, byKey.vals, byResp, byResp.keys, byResp.vals
      ensures Separate() && byKey.Valid() && byResp.Valid() && EngineOk(SwapRemove(ops, i), byKey.m, byResp.m)
      ensures byKey.keys == old(byKey.keys) && byKey.vals == old(byKey.vals)
      ensures byResp.keys == old(byResp.keys) && byResp.vals == old(byResp.vals)
    {
      hide HashMap.Valid, EngineOk, Indexes, Keys, RespKeys, RespKey, MakeKey, SwapRemove, Repointed, Moved;
      var last := |ops| - 1;
      var op, moved := ops[i], ops[last];
      EngineIndexed(ops, byKey.m, byResp.m, i);
      MovedIsRepointed(byKey.m, Keys(ops), i);
      MovedIsRepointed(byResp.m, RespKeys(ops), i);
      EngineAfterRemove(ops, byKey.m, byResp.m, i);
      var _ := RemoveAt(byKey, op.key, if i != last then moved.key else 0, i, false);
      var _ := RemoveAt(byResp, RespKey(op.dstIp, op.srcPort, op.txid),
                        if i != last then RespKey(moved.dstIp, moved.srcPort, moved.txid) else 0, i, false);
      assert byKey.Valid();
    }

    /** Moves operation i to the results, or loses its result, and closes the gap with the last one. */
    method CompleteOp(i: nat, ip: Word, ok: bool, memory: bool)
      requires Valid()
      modifies this, byKey, byKey.keys, byKey.vals, byResp, byResp.keys, byResp.vals
      ensures Valid() && accepted == old(accepted) && polled == old(polled)
      ensures nextTxid == old(nextTxid) && dnsIp == old(dnsIp)
      ensures byKey.keys == old(byKey.keys) && byKey.vals == old(byKey.vals)
      ensures byResp.keys == old(byResp.keys) && byResp.vals == old(byResp.vals)
      ensures i >= old(|ops|) ==> ops == old(ops) && results == old(results) && lost == old(lost)
      ensures i < old(|ops|) ==> ops == SwapRemove(old(ops), i)
      ensures i < old(|ops|) && memory ==>
                results == old(results) + [ResolveResult(ip, ok, old(ops)[i].tag, old(ops)[i].token)]
                  && lost == old(lost)
      ensures i < old(|ops|) && !memory ==>
                results == old(results) && lost == old(lost) + multiset{Id(old(ops)[i].token, old(ops)[i].tag)}
    {
      hide HashMap.Valid, EngineOk, Balanced, SwapRemove;
      if i >= |ops| {
        return;
      }
      var op := ops[i];
      if memory {
        results := results + [ResolveResult(ip, ok, op.tag, op.token)];
      } else {
        lost := lost + multiset{Id(op.token, op.tag)};
      }
      Unindex(i);
      StillBalanced(accepted, ops, i, old(results), results, polled, old(lost), lost);
      ops := SwapRemove(ops, i);
    }

    /** Appends an operation and enters it in both indexes, or leaves everything as it was. */
    method Enter(op: Op, memOps: bool, memKey: bool, memResp: bool) returns (ok: bool)
      requires Separate() && byKey.Valid() && byResp.Valid()
      requires op.key !in byKey.m && RespKey(op.dstIp, op.srcPort, op.txid) !in byResp.m
      requires op.key != 0 && RespKey(op.dstIp, op.srcPort, op.txid) != 0
      modifies `ops, byKey, byKey.keys, byKey.vals, byResp, byResp.keys, byResp.vals
      ensures Separate() && byKey.Valid() && byResp.Valid()
      ensures memOps && memKey && memResp ==> ok
      ensures ok ==> ops == old(ops) + [op] && byKey.m == old(byKey.m)[op.key := |old(ops)|]
                     && byResp.m == old(byResp.m)[RespKey(op.dstIp, op.srcPort, op.txid) := |old(ops)|]
      ensures !ok ==> ops == old(ops) && byKey.m == old(byKey.m) && byResp.m == old(byResp.m)
    {
      hide HashMap.Valid, RespKey;
      if !memOps {
        return false;
      }
      ops := ops + [op];
      var index := |ops| - 1;
      ok := byKey.Put(op.key, index, memKey);
      if !ok {
        ops := ops[..index];
        return;
      }
      ok := byResp.Put(RespKey(op.dstIp, op.srcPort, op.txid), index, memResp);
      if !ok {
        var _ := byKey.Erase(op.key);
        ops := ops[..index];
      }
    }

    /** Accepts a request unless its name is malformed, the engine is full, or it collides with a pending one. */
    method SubmitResolve(token: Word, tag: Word, nameLen: nat, timeout: Word, now: Word, entropy: Port,
                         memOps: bool, memKey: bool, memResp: bool)
      returns (ok: bool)
      requires Valid()
      modifies this, byKey, byKey.keys, byKey.vals, byResp, byResp.keys, byResp.vals
      ensures Valid() && results == old(results) && polled == old(polled) && lost == old(lost)
      ensures ok ==> ops == old(ops) + [Op(MakeKey(token, tag), tag, token, dnsIp, SrcPort(entropy), old(nextTxid),
                                           Deadline(now, timeout), now, 0, ArpWait)]
                     && accepted == old(accepted) + multiset{Id(token, tag)} && nextTxid != old(nextTxid)
      ensures !ok ==>
                ops == old(ops) && accepted == old(accepted) && byKey.m == old(byKey.m) && byResp.m == old(byResp.m)
      ensures memOps && memKey && memResp ==>
                (ok <==> 0 < nameLen <= 127 && old(|ops|) < MAX_OPS && MakeKey(token, tag) !in old(byKey.m)
                         && RespKey(dnsIp, SrcPort(entropy), old(nextTxid)) !in old(byResp.m))
    {
      hide HashMap.Valid, EngineOk, Balanced, MakeKey, RespKey, SrcPort, Deadline;
      if nameLen == 0 || nameLen > 127 {
        return false;
      }
      if |ops| >= MAX_OPS {
        return false;
      }
      var op := Op(MakeKey(token, tag), tag, token, dnsIp, SrcPort(entropy), nextTxid, Deadline(now, timeout), now, 0,
        ArpWait);
      nextTxid := if nextTxid + 1 == U16 then 1 else nextTxid + 1;
      var dup, at := byKey.Get(op.key);
      if dup {
        return false;
      }
      dup, at := byResp.Get(RespKey(op.dstIp, op.srcPort, op.txid));
      if dup {
        return false;
      }
      ok := Enter(op, memOps, memKey, memResp);
      if ok {
        EngineAfterPush(old(ops), old(byKey.m), old(byResp.m), op);
        accepted := accepted + multiset{Id(token, tag)};
        BalancedAfterPush(old(accepted), old(ops), op, results, polled, lost);
      }
    }

    /**
     * Times out every operation whose deadline is reached and advances the others.
     * What ARP and the send path answer, and whether a result fits, is up to the environment.
     */
    method Step(now: Word, arp: Op -> bool, sent: Op -> bool, memory: Op -> bool)
      requires Valid()
      modifies this, byKey, byKey.keys, byKey.vals, byResp, byResp.keys, byResp.vals
      ensures Valid() && accepted == old(accepted) && polled == old(polled)
      ensures multiset(ops) == Kept(old(ops), Visitor(now, arp, sent))
      ensures old(results) <= results && forall j :: |old(results)| <= j < |results| ==>
                results[j].ip == 0 && !results[j].ok
      ensures Always(memory) ==>
                lost == old(lost) && multiset(OpIds(old(ops)))
                  == multiset(OpIds(ops)) + multiset(ResultIds(results[|old(results)|..]))
    {
      hide HashMap.Valid, EngineOk, Balanced, OpIds, ResultIds, Kept, KeptOne, Advance, SwapRemove;
      var i: nat := 0;
      assert ops[0..] == ops;
      assert multiset(ops[..0]) == multiset{};
      while i < |ops|
        invariant i <= |ops| && Valid() && accepted == old(accepted) && polled == old(polled)
        invariant byKey.keys == old(byKey.keys) && byKey.vals == old(byKey.vals)
        invariant byResp.keys == old(byResp.keys) && byResp.vals == old(byResp.vals)
        invariant multiset(ops[..i]) + Kept(ops[i..], Visitor(now, arp, sent))
                  == Kept(old(ops), Visitor(now, arp, sent))
        invariant old(results) <= results && (Always(memory) ==> lost == old(lost))
        invariant forall j :: |old(results)| <= j < |results| ==> results[j].ip == 0 && !results[j].ok
        decreases |ops| - i
      {
        i := StepOne(i, now, arp, sent, memory(ops[i]));
      }
      assert ops[..i] == ops && ops[i..] == [];
      KeptNone(Visitor(now, arp, sent));
      if lost == old(lost) {
        OneResultEach(accepted, old(ops), ops, old(results), results, polled, lost);
      }
    }

    /** One turn of the step loop: operation i expires, or moves on. */
    method StepOne(i: nat, now: Word, arp: Op -> bool, sent: Op -> bool, memory: bool) returns (next: nat)
      requires Valid() && i < |ops|
      modifies this, byKey, byKey.keys, byKey.vals, byResp, byResp.keys, byResp.vals
      ensures Valid() && accepted == old(accepted) && polled == old(polled)
      ensures byKey.keys == old(byKey.keys) && byKey.vals == old(byKey.vals)
      ensures byResp.keys == old(byResp.keys) && byResp.vals == old(byResp.vals)
      ensures i <= next <= |ops| && |ops| - next == old(|ops|) - i - 1
      ensures multiset(ops[..next]) + Kept(ops[next..], Visitor(now, arp, sent))
           == multiset(old(ops)[..i]) + Kept(old(ops)[i..], Visitor(now, arp, sent))
      ensures old(results) <= results && forall j :: |old(results)| <= j < |results| ==>
                results[j].ip == 0 && !results[j].ok
      ensures memory ==> lost == old(lost)
    {
      hide HashMap.Valid, EngineOk, Balanced, OpIds, ResultIds, Kept, KeptOne, Advance, SwapRemove;
      if now >= ops[i].deadline {
        KeptAfterDrop(ops, i, Visitor(now, arp, sent));
        CompleteOp(i, 0, false, memory);
        return i;
      }
      Proceed(i, now, arp, sent);
      return i + 1;
    }

    method Proceed(i: nat, now: Word, arp: Op -> bool, sent: Op -> bool)
      requires Valid() && i < |ops| && now < ops[i].deadline
      modifies `ops
      ensures Valid() && |ops| == old(|ops|)
      ensures multiset(ops[..i + 1]) + Kept(ops[i + 1..], Visitor(now, arp, sent))
           == multiset(old(ops)[..i]) + Kept(old(ops)[i..], Visitor(now, arp, sent))
    {
      hide HashMap.Valid, EngineOk, Balanced, OpIds, ResultIds, Kept, KeptOne;
      var op := ops[i];
      var advanced := Advance(op, now, arp(op), sent(op));
      EngineAfterAdvance(ops, byKey.m, byResp.m, i, advanced);
      BalancedAfterAdvance(accepted, ops, ops[i := advanced], results, polled, lost);
      KeptAfterKeep(ops, i, Visitor(now, arp, sent), advanced);
      ops := ops[i := advanced];
    }

    /**
     * A reply is taken if and only if it comes from port 53 and carries the id of a pending query to that
     * server; that query completes with what the payload says.
     */
    method UdpHandler(srcIp: Word, srcPort: Port, dstPort: Port, payload: seq<Byte>, memory: bool)
      returns (handled: bool)
      requires Valid()
      modifies this, byKey, byKey.keys, byKey.vals, byResp, byResp.keys, byResp.vals
      ensures Valid() && accepted == old(accepted) && polled == old(polled)
      ensures handled <==>
                && srcPort == DNS_PORT && dstPort != 0 && |payload| >= 12
                && Awaited(old(ops), srcIp, dstPort, Field(payload, 0))
      ensures !handled ==> ops == old(ops) && results == old(results) && lost == old(lost)
      ensures handled ==>
                exists i ::
                  && Answered(old(ops), ops, i, srcIp, dstPort, Field(payload, 0))
                  && (memory ==>
                        && lost == old(lost)
                        && results == old(results) + [Reply(old(ops)[i], Parse(Field(payload, 0), payload))])
    {
      hide HashMap.Valid, EngineOk, Balanced, RespKey, SwapRemove, Field, Parse;
      if srcPort != DNS_PORT || dstPort == 0 || |payload| < 12 {
        return false;
      }
      var txid := Field(payload, 0);
      Matched(ops, byKey.m, byResp.m, srcIp, dstPort, txid);
      var found, index := byResp.Get(RespKey(srcIp, dstPort, txid));
      if !found {
        return false;
      }
      if index >= |ops| {
        return false;
      }
      var op := ops[index];
      if op.dstIp != srcIp || op.txid != txid || op.srcPort != dstPort {
        return false;
      }
      var answer := ParseResponse(txid, payload);
      match answer {
        case Address(ip) => CompleteOp(index, ip, true, memory);
        case None => CompleteOp(index, 0, false, memory);
      }
      assert Answered(old(ops), ops, index, srcIp, dstPort, txid);
      return true;
    }

    /**
     * The bytes of a success response to a pending query, from the server it went to: the query's one result is
     * the first address record of the response.
     */
    method Deliver(srcIp: Word, dstPort: Port, ghost r: Response, payload: seq<Byte>)
      requires Valid() && ResponseOk(r) && payload == ResponseBytes(r) && dstPort != 0
      requires Awaited(ops, srcIp, dstPort, r.id)
      modifies this, byKey, byKey.keys, byKey.vals, byResp, byResp.keys, byResp.vals
      ensures Valid() && accepted == old(accepted) && polled == old(polled) && lost == old(lost)
      ensures exists i :: Answered(old(ops), ops, i, srcIp, dstPort, r.id)
                          && results == old(results) + [Reply(old(ops)[i], FirstAddress(r.answers))]
    {
      hide HashMap.Valid, EngineOk, Balanced, RespKey, SwapRemove, Field, Parse, ResponseOk, ResponseBytes;
      ParseFindsFirst(r);
      var _ := UdpHandler(srcIp, DNS_PORT, dstPort, payload, true);
    }

    method PollResult() returns (got: bool, r: ResolveResult)
      requires Valid()
      modifies this
      ensures Valid() && accepted == old(accepted) && ops == old(ops) && lost == old(lost)
      ensures got <==> old(results) != []
      ensures got ==>
                && r == old(results)[0] && results == SwapRemove(old(results), 0)
                && polled == old(polled) + multiset{Id(r.token, r.tag)}
      ensures !got ==> results == old(results) && polled == old(polled)
    {
      hide HashMap.Valid, EngineOk;
      if |results| == 0 {
        return false, ResolveResult(0, false, 0, 0);
      }
      r := results[0];
      MultisetSwapRemove(ResultIds(results), 0);
      assert ResultIds(SwapRemove(results, 0)) == SwapRemove(ResultIds(results), 0);
      results := SwapRemove(results, 0);
      polled := polled + multiset{Id(r.token, r.tag)};
      return true, r;
    }
  }
}
