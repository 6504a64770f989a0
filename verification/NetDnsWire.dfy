/** Building DNS queries and reading responses (sections 4.1.1 to 4.1.4 of RFC 1035). */
module NetDnsWire {
  import opened Machine
  import opened NetDnsNames

  function Be16(v: Half): (b: seq<Byte>)
    ensures |b| == 2
  {
    [v / 256, v % 256]
  }

  function Field(pkt: seq<Byte>, off: nat): Half
    requires off + 2 <= |pkt|
  {
    (pkt[off] as int) * 256 + (pkt[off + 1] as int)
  }

  // ---- the bounded writer

  class BufWriter {
    const buf: array<Byte>
    var pos: nat

    ghost predicate Valid()
      reads this
    {
      pos <= buf.Length
    }

    ghost function Written(): seq<Byte>
      reads this, buf
      requires Valid()
    {
      buf[..pos]
    }

    constructor (cap: nat)
      ensures Valid() && fresh(buf) && buf.Length == cap && Written() == []
    {
      buf := new Byte[cap](_ => 0);
      pos := 0;
    }

    /** All of the bytes, or none when they do not fit. */
    method PutBytes(src: seq<Byte>) returns (ok: bool)
      requires Valid()
      modifies this, buf
      ensures Valid() && ok == (old(pos) + |src| <= buf.Length)
      ensures Written() == if ok then old(Written()) + src else old(Written())
    {
      if pos + |src| > buf.Length {
        return false;
      }
      forall i | 0 <= i < |src| {
        buf[pos + i] := src[i];
      }
      pos := pos + |src|;
      return true;
    }
  }

  /** What is in the buffer halfway through a name: the finished labels; the current one is still to come. */
  method PutLabel(w: BufWriter, l: Label) returns (ok: bool)
    requires w.Valid() && |l| < 256
    modifies w, w.buf
    ensures w.Valid() && ok == (old(w.pos) + 1 + |l| <= w.buf.Length)
    ensures ok ==> w.Written() == old(w.Written()) + [|l|] + l
  {
    ok := w.PutBytes([|l|]);
    if ok {
      ok := w.PutBytes(l);
    }
  }

  /** Halfway through a name: where the scan stands, and what of the name is written. */
  ghost predicate Scanned(name: seq<Byte>, i: nat, start: nat, before: seq<Byte>, written: seq<Byte>) {
    && start <= i <= |name|
    && var ls := Split(name[..i]);
       var k := |ls| - 1;
       LabelsOk(ls[..k]) && ls[k] == name[start..i] && written == before + Wire(ls[..k])
  }

  lemma ScanStart(name: seq<Byte>, before: seq<Byte>)
    ensures Scanned(name, 0, 0, before, before)
  {
    assert name[..0] == [];
    assert Split(name[..0]) == [[]];
  }

  /** A byte of a label. */
  lemma ScanByte(name: seq<Byte>, i: nat, start: nat, before: seq<Byte>, written: seq<Byte>)
    requires Scanned(name, i, start, before, written) && i < |name| && name[i] != DOT
    ensures Scanned(name, i + 1, start, before, written)
  {
    assert name[..i + 1] == name[..i] + [name[i]];
    SplitPush(name[..i], name[i]);
    hide Split;
    assert name[start..i] + [name[i]] == name[start..i + 1];
    var ls := Split(name[..i]);
    assert Longer(ls, [name[i]])[..|ls| - 1] == ls[..|ls| - 1];
  }

  /** A dot after a good label: the label has been written, a new one begins. */
  lemma ScanDot(name: seq<Byte>, i: nat, start: nat, before: seq<Byte>, written: seq<Byte>)
    requires Scanned(name, i, start, before, written) && i < |name| && name[i] == DOT && 1 <= i - start <= MAX_LABEL
    ensures Scanned(name, i + 1, i + 1, before, written + [i - start] + name[start..i])
  {
    assert name[..i + 1] == name[..i] + [name[i]];
    SplitPush(name[..i], name[i]);
    JoinedSplit(name[..i]);
    hide Split;
    var ls := Split(name[..i]);
    WireLast(ls);
    assert (ls + [[]])[..|ls|] == ls;
    assert before + (Wire(ls[..|ls| - 1]) + [i - start] + name[start..i])
        == before + Wire(ls[..|ls| - 1]) + [i - start] + name[start..i];
  }

  lemma LabelsLast(ls: seq<Label>)
    requires ls != [] && LabelsOk(ls[..|ls| - 1]) && 1 <= |ls[|ls| - 1]| <= MAX_LABEL && Dotless(ls)
    ensures LabelsOk(ls)
  {
    assert forall j :: 0 <= j < |ls| - 1 ==> ls[j] == ls[..|ls| - 1][j];
  }

  lemma WireLast(ls: seq<Label>)
    requires ls != [] && LabelsOk(ls[..|ls| - 1]) && |ls[|ls| - 1]| <= MAX_LABEL
    ensures Wire(ls) == Wire(ls[..|ls| - 1]) + [|ls[|ls| - 1]|] + ls[|ls| - 1]
  {
  }

  /** A label that is too long, or empty before a dot, makes the whole name bad. */
  lemma ScanBad(name: seq<Byte>, i: nat, start: nat, before: seq<Byte>, written: seq<Byte>)
    requires Scanned(name, i, start, before, written)
    requires i - start > MAX_LABEL || (i == start && (i == |name| || name[i] == DOT))
    ensures !NameOk(name)
  {
    hide Split, Joined, Wire;
    var a, b := Split(name[..i]), Split(name);
    var k := |a| - 1;
    assert name[..i] + name[i..] == name;
    SplitGrows(name[..i], name[i..]);
    if i == start && i < |name| {
      ScanEmpty(name, i);
    } else if i == |name| {
      assert name[..i] == name;
    }
    assert !LabelOk(b[k]);
  }

  /** An empty label stays one once a dot follows. */
  lemma ScanEmpty(name: seq<Byte>, i: nat)
    requires i < |name| && name[i] == DOT
    ensures var a, b := Split(name[..i]), Split(name); |a| <= |b| && b[|a| - 1] == a[|a| - 1]
  {
    hide Split;
    var a, b := Split(name[..i]), Split(name);
    assert name[..i + 1] == name[..i] + [DOT];
    SplitPush(name[..i], DOT);
    assert name[..i + 1] + name[i + 1..] == name;
    SplitGrows(name[..i + 1], name[i + 1..]);
    assert b[..|a|] == (a + [[]])[..|a|];
    assert b[..|a|][|a| - 1] == (a + [[]])[..|a|][|a| - 1];
  }

  /** A label that does not fit leaves no room for the whole name. */
  lemma ScanFull(name: seq<Byte>, i: nat, start: nat, before: seq<Byte>, written: seq<Byte>, cap: nat)
    requires Scanned(name, i, start, before, written) && NameOk(name) && |written| + 1 + (i - start) > cap
    ensures |before| + |name| + 2 > cap
  {
    var a, b := Split(name[..i]), Split(name);
    var k := |a| - 1;
    assert name[..i] + name[i..] == name;
    SplitGrows(name[..i], name[i..]);
    JoinedSplit(name);
    WireLength(b);
    WireShorter(b, k + 1);
    assert b[..k + 1][..k] == a[..k];
    WireLast(b[..k + 1]);
  }

  /** The last label and the root byte finish a good name. */
  lemma ScanEnd(name: seq<Byte>, start: nat, before: seq<Byte>, written: seq<Byte>)
    requires Scanned(name, |name|, start, before, written) && 1 <= |name| - start <= MAX_LABEL
    ensures NameOk(name) && written + [|name| - start] + name[start..] == before + Wire(Split(name))
    ensures |Wire(Split(name))| == |name| + 1
  {
    assert name[..|name|] == name;
    assert name[start..|name|] == name[start..];
    JoinedSplit(name);
    hide Split, Wire, Joined;
    var ls := Split(name);
    LabelsLast(ls);
    WireLength(ls);
    WireLast(ls);
    assert ls[|ls| - 1] == name[start..] && written == before + Wire(ls[..|ls| - 1]);
    hide LabelsOk, LabelOk, Dotless, Scanned;
    Flattened(before, Wire(ls[..|ls| - 1]), |name| - start, name[start..]);
  }

  lemma Flattened(a: seq<Byte>, b: seq<Byte>, n: Byte, c: seq<Byte>)
    ensures a + (b + [n] + c) == a + b + [n] + c
  {
  }

  /** Writes a dotted name in wire form; succeeds exactly on well-formed names that fit. */
  method EncodeName(name: seq<Byte>, w: BufWriter) returns (ok: bool)
    requires w.Valid()
    modifies w, w.buf
    ensures w.Valid()
    ensures ok <==> NameOk(name) && old(w.pos) + |name| + 2 <= w.buf.Length
    ensures ok ==> LabelsOk(Split(name)) && w.Written() == old(w.Written()) + Wire(Split(name)) + [0]
  {
    hide Scanned, Split, Wire;
    ghost var before := w.Written();
    ScanStart(name, before);
    if |name| == 0 {
      ScanBad(name, 0, 0, before, before);
      return false;
    }
    var start, len, any := 0, 0, false;
    var i := 0;
    while i < |name|
      invariant start <= i <= |name| && len == i - start <= MAX_LABEL && (len > 0 ==> any)
      invariant w.Valid() && Scanned(name, i, start, before, w.Written())
    {
      if name[i] == DOT {
        if !any || len == 0 || len > MAX_LABEL {
          ScanBad(name, i, start, before, w.Written());
          return false;
        }
        if NameOk(name) && |w.Written()| + 1 + len > w.buf.Length {
          ScanFull(name, i, start, before, w.Written(), w.buf.Length);
        }
        ScanDot(name, i, start, before, w.Written());
        ok := PutLabel(w, name[start..start + len]);
        if !ok {
          return false;
        }
        start := i + 1;
        len := 0;
      } else {
        ScanByte(name, i, start, before, w.Written());
        any := true;
        len := len + 1;
        if len > MAX_LABEL {
          ScanBad(name, i + 1, start, before, w.Written());
          return false;
        }
      }
      i := i + 1;
    }
    if !any || len == 0 || len > MAX_LABEL {
      ScanBad(name, i, start, before, w.Written());
      return false;
    }
    ScanEnd(name, start, before, w.Written());
    assert name[start..start + len] == name[start..];
    ok := PutLabel(w, name[start..start + len]);
    if ok {
      ok := w.PutBytes([0]);
    }
  }

  // ---- queries

  /** Header with recursion desired and one question: the name, type A, class IN. */
  function QueryBytes(txid: Half, ls: seq<Label>): seq<Byte>
    requires forall i :: 0 <= i < |ls| ==> |ls[i]| < 256
  {
    QueryHeader(txid) + (Wire(ls) + [0]) + (Be16(1) + Be16(1))
  }

  function QueryHeader(txid: Half): (h: seq<Byte>)
    ensures |h| == 12
  {
    Be16(txid) + Be16(0x0100) + Be16(1) + Be16(0) + Be16(0) + Be16(0)
  }

  /** Succeeds exactly on well-formed names of 1 to 127 bytes that fit with 18 bytes around them. */
  method BuildQuery(txid: Half, name: seq<Byte>, cap: nat) returns (ok: bool, out: seq<Byte>)
    ensures ok <==> 32 <= cap && 1 <= |name| <= 127 && NameOk(name) && |name| + 18 <= cap
    ensures ok ==> LabelsOk(Split(name)) && out == QueryBytes(txid, Split(name)) && |out| == |name| + 18
  {
    hide Wire, Split, Be16;
    if cap < 32 || |name| == 0 || |name| > 127 {
      return false, [];
    }
    var w := new BufWriter(cap);
    ok := w.PutBytes(Be16(txid) + Be16(0x0100) + Be16(1) + Be16(0) + Be16(0) + Be16(0));
    ghost var head := w.Written();
    assert head == QueryHeader(txid);
    ok := EncodeName(name, w);
    if !ok {
      return false, [];
    }
    NameLength(name);
    ok := w.PutBytes(Be16(1) + Be16(1));
    if !ok {
      return false, [];
    }
    assert w.Written() == head + (Wire(Split(name)) + [0]) + (Be16(1) + Be16(1));
    return true, w.buf[..w.pos];
  }

  lemma NameLength(name: seq<Byte>)
    requires NameOk(name)
    ensures |Wire(Split(name)) + [0]| == |name| + 2
  {
    JoinedSplit(name);
    WireLength(Split(name));
  }

  // ---- skipping a name

  datatype Skipped = Fail | To(off: nat)

  /** The skipping loop: labels, the root byte or a two-byte pointer; at most 255 labels. */
  function Skip(pkt: seq<Byte>, off: nat, jumps: nat): Skipped
    decreases |pkt| - off
  {
    if off >= |pkt| then Fail
    else if pkt[off] == 0 then To(off + 1)
    else if pkt[off] >= 192 then if off + 1 >= |pkt| then Fail else To(off + 2)
    else if off + 1 + pkt[off] > |pkt| || jumps + 1 > 255 then Fail
    else Skip(pkt, off + 1 + pkt[off], jumps + 1)
  }

  method SkipName(pkt: seq<Byte>, from: nat) returns (r: Skipped)
    ensures r == Skip(pkt, from, 0)
  {
    var off, jumps := from, 0;
    while true
      invariant Skip(pkt, off, jumps) == Skip(pkt, from, 0)
      decreases |pkt| - off
    {
      if off >= |pkt| {
        return Fail;
      }
      var c := pkt[off];
      if c == 0 {
        return To(off + 1);
      }
      if c >= 192 {
        if off + 1 >= |pkt| {
          return Fail;
        }
        return To(off + 2);
      }
      if off + 1 + c > |pkt| {
        return Fail;
      }
      if jumps + 1 > 255 {
        return Fail;
      }
      off := off + 1 + c;
      jumps := jumps + 1;
    }
  }

  /** A name is skipped exactly, wherever it stands and whatever follows. */
  lemma {:induction false} SkipsName(pre: seq<Byte>, n: WireName, post: seq<Byte>, jumps: nat)
    requires WireNameOk(n) && jumps + |n.labels| <= 255
    ensures Skip(pre + NameBytes(n) + post, |pre|, jumps) == To(|pre| + |NameBytes(n)|)
    decreases |n.labels|
  {
    var pkt := pre + NameBytes(n) + post;
    if n.labels == [] {
      assert NameBytes(n) == End(n.ending);
      assert pkt[|pre|] == End(n.ending)[0];
    } else {
      var l, rest := n.labels[0], WireName(n.labels[1..], n.ending);
      WireFirst(n.labels);
      assert NameBytes(n) == [|l|] + l + NameBytes(rest);
      var pre2 := pre + ([|l|] + l);
      assert pkt == pre2 + NameBytes(rest) + post;
      assert pkt[|pre|] == |l|;
      SkipsName(pre2, rest, post, jumps + 1);
    }
  }

  /** Skipping the name of a query lands on its type field. */
  lemma SkipLandsOnType(txid: Half, name: seq<Byte>)
    requires NameOk(name) && 1 <= |name| <= 127
    ensures var q := QueryBytes(txid, Split(name));
            && Skip(q, 12, 0) == To(|name| + 14) && |q| == |name| + 18
            && Field(q, |name| + 14) == 1 && Field(q, |name| + 16) == 1
            && Decode(q[12..]) == Name(Split(name), q[|name| + 14..])
  {
    hide Skip, Decode, Wire, Split;
    var ls := Split(name);
    NameLength(name);
    LabelsFew(name);
    var q, n := QueryBytes(txid, ls), WireName(ls, Root);
    var tail := Be16(1) + Be16(1);
    assert q == QueryHeader(txid) + NameBytes(n) + tail;
    SkipsName(QueryHeader(txid), n, tail, 0);
    assert q[12..] == Wire(ls) + [0] + tail;
    DecodeWire(ls, tail);
    assert q[|name| + 14..] == tail;
    assert tail == [0, 1, 0, 1];
    assert q[|name| + 14] == tail[0] && q[|name| + 15] == tail[1] && q[|name| + 16] == tail[2]
           && q[|name| + 17] == tail[3];
  }

  lemma {:induction false} LabelsFew(name: seq<Byte>)
    ensures |Split(name)| <= |name| + 1
  {
    if name != [] {
      LabelsFew(name[..|name| - 1]);
    }
  }

  // ---- responses

  /** The address as a word in network order: its first byte is the lowest. */
  datatype Answer = None | Address(ip: Word)

  /** Skips the questions: a name, a type and a class each. */
  function SkipQuestions(pkt: seq<Byte>, off: nat, n: nat): Skipped
    decreases n
  {
    if n == 0 then To(off)
    else
      match Skip(pkt, off, 0)
      case Fail => Fail
      case To(after) => if after + 4 > |pkt| then Fail else SkipQuestions(pkt, after + 4, n - 1)
  }

  /** The first record of type A and class IN with four bytes; a record that does not fit ends the search. */
  function FindAddress(pkt: seq<Byte>, off: nat, n: nat): Answer
    decreases n
  {
    if n == 0 then None
    else
      match Skip(pkt, off, 0)
      case Fail => None
      case To(after) =>
        if after + 10 > |pkt| || after + 10 + Field(pkt, after + 8) > |pkt| then None
        else if Field(pkt, after) == 1 && Field(pkt, after + 2) == 1 && Field(pkt, after + 8) == 4 then
          Address(Get32(pkt[after + 10..after + 14]))
        else FindAddress(pkt, after + 10 + Field(pkt, after + 8), n - 1)
  }

  function Parse(txid: Half, pkt: seq<Byte>): Answer {
    if |pkt| < 12 || Field(pkt, 0) != txid then None
    else if Field(pkt, 2) < 0x8000 || Field(pkt, 2) % 16 != 0 || Field(pkt, 4) == 0 || Field(pkt, 6) == 0 then None
    else
      match SkipQuestions(pkt, 12, Field(pkt, 4))
      case Fail => None
      case To(off) => FindAddress(pkt, off, Field(pkt, 6))
  }

  method ParseResponse(txid: Half, pkt: seq<Byte>) returns (a: Answer)
    ensures a == Parse(txid, pkt)
  {
    hide Skip, Field, Get32;
    if |pkt| < 12 {
      return None;
    }
    if Field(pkt, 0) != txid {
      return None;
    }
    var flags, qd, an := Field(pkt, 2), Field(pkt, 4), Field(pkt, 6);
    if flags < 0x8000 || flags % 16 != 0 || qd == 0 || an == 0 {
      return None;
    }
    var off: nat := 12;
    var i := 0;
    while i < qd
      invariant 0 <= i <= qd && SkipQuestions(pkt, off, qd - i) == SkipQuestions(pkt, 12, qd)
    {
      var r := SkipName(pkt, off);
      if r.Fail? {
        return None;
      }
      off := r.off;
      if off + 4 > |pkt| {
        return None;
      }
      off := off + 4;
      i := i + 1;
    }
    ghost var answers := off;
    i := 0;
    while i < an
      invariant 0 <= i <= an && FindAddress(pkt, off, an - i) == FindAddress(pkt, answers, an)
    {
      var r := SkipName(pkt, off);
      if r.Fail? {
        return None;
      }
      off := r.off;
      if off + 10 > |pkt| {
        return None;
      }
      var rtype, rclass, len := Field(pkt, off), Field(pkt, off + 2), Field(pkt, off + 8);
      off := off + 10;
      if off + len > |pkt| {
        return None;
      }
      if rtype == 1 && rclass == 1 && len == 4 {
        return Address(Get32(pkt[off..off + 4]));
      }
      off := off + len;
      i := i + 1;
    }
    return None;
  }

  /** A well-formed response, field by field. */
  datatype Question = Question(name: WireName, qtype: Half, qclass: Half)
  datatype Record = Record(name: WireName, rtype: Half, rclass: Half, ttl: seq<Byte>, data: seq<Byte>)
  datatype Response = Response(id: Half, flags: Half, questions: seq<Question>, answers: seq<Record>, ns: Half,
    ar: Half, more: seq<Byte>)

  ghost predicate RecordOk(r: Record) {
    WireNameOk(r.name) && |r.ttl| == 4 && |r.data| < 0x1_0000
  }

  ghost predicate QuestionsOk(qs: seq<Question>) {
    forall i :: 0 <= i < |qs| ==> WireNameOk(qs[i].name)
  }

  ghost predicate RecordsOk(rs: seq<Record>) {
    forall i :: 0 <= i < |rs| ==> RecordOk(rs[i])
  }

  ghost function QuestionBytes(q: Question): seq<Byte>
    requires WireNameOk(q.name)
  {
    NameBytes(q.name) + (Be16(q.qtype) + Be16(q.qclass))
  }

  ghost function RecordBytes(r: Record): seq<Byte>
    requires RecordOk(r)
  {
    NameBytes(r.name) + (Be16(r.rtype) + Be16(r.rclass) + r.ttl + Be16(|r.data|)) + r.data
  }

  ghost function QuestionsBytes(qs: seq<Question>): seq<Byte>
    requires QuestionsOk(qs)
  {
    if qs == [] then [] else QuestionBytes(qs[0]) + QuestionsBytes(qs[1..])
  }

  ghost function RecordsBytes(rs: seq<Record>): seq<Byte>
    requires RecordsOk(rs)
  {
    if rs == [] then [] else RecordBytes(rs[0]) + RecordsBytes(rs[1..])
  }

  /** A success response: the response bit, no error code, something asked and something answered. */
  ghost predicate ResponseOk(r: Response) {
    && r.flags >= 0x8000 && r.flags % 16 == 0 && 0 < |r.questions| < 0x1_0000 && 0 < |r.answers| < 0x1_0000
    && QuestionsOk(r.questions) && RecordsOk(r.answers)
  }

  ghost function ResponseHeader(r: Response): (h: seq<Byte>)
    requires |r.questions| < 0x1_0000 && |r.answers| < 0x1_0000
    ensures |h| == 12
  {
    Be16(r.id) + Be16(r.flags) + Be16(|r.questions|) + Be16(|r.answers|) + Be16(r.ns) + Be16(r.ar)
  }

  ghost function ResponseBytes(r: Response): seq<Byte>
    requires ResponseOk(r)
  {
    ResponseHeader(r) + QuestionsBytes(r.questions) + (RecordsBytes(r.answers) + r.more)
  }

  /** What a client wants: the first address record. */
  function FirstAddress(rs: seq<Record>): Answer {
    if rs == [] then None
    else if rs[0].rtype == 1 && rs[0].rclass == 1 && |rs[0].data| == 4 then Address(Get32(rs[0].data))
    else FirstAddress(rs[1..])
  }

  lemma FieldAt(pre: seq<Byte>, v: Half, post: seq<Byte>)
    ensures Field(pre + Be16(v) + post, |pre|) == v
  {
    var pkt := pre + Be16(v) + post;
    assert pkt[|pre|] == v / 256 && pkt[|pre| + 1] == v % 256;
  }

  lemma {:induction false} SkipsQuestions(pre: seq<Byte>, qs: seq<Question>, post: seq<Byte>)
    requires QuestionsOk(qs)
    ensures SkipQuestions(pre + QuestionsBytes(qs) + post, |pre|, |qs|) == To(|pre| + |QuestionsBytes(qs)|)
    decreases |qs|
  {
    hide Skip, NameBytes, WireNameOk;
    var pkt := pre + QuestionsBytes(qs) + post;
    if qs != [] {
      var q, rest := qs[0], qs[1..];
      var fixed := Be16(q.qtype) + Be16(q.qclass);
      assert pkt == pre + NameBytes(q.name) + (fixed + QuestionsBytes(rest) + post);
      SkipsWhole(pre, q.name, fixed + QuestionsBytes(rest) + post);
      var pre2 := pre + QuestionBytes(q);
      assert pkt == pre2 + QuestionsBytes(rest) + post;
      SkipsQuestions(pre2, rest, post);
    }
  }

  lemma SkipsWhole(pre: seq<Byte>, n: WireName, post: seq<Byte>)
    requires WireNameOk(n)
    ensures Skip(pre + NameBytes(n) + post, |pre|, 0) == To(|pre| + |NameBytes(n)|)
  {
    SkipsName(pre, n, post, 0);
  }

  /** The fixed part of a record as the parser reads it. */
  lemma RecordFields(pre: seq<Byte>, r: Record, post: seq<Byte>)
    requires RecordOk(r)
    ensures var pkt, after := pre + RecordBytes(r) + post, |pre| + |NameBytes(r.name)|;
            && after + 10 + |r.data| <= |pkt| && |pre + RecordBytes(r)| == after + 10 + |r.data|
            && Field(pkt, after) == r.rtype && Field(pkt, after + 2) == r.rclass && Field(pkt, after + 8) == |r.data|
            && pkt[after + 10..after + 10 + |r.data|] == r.data
  {
    hide NameBytes, WireNameOk;
    var pkt, head := pre + RecordBytes(r) + post, pre + NameBytes(r.name);
    var after := |head|;
    var t, c, l := Be16(r.rtype), Be16(r.rclass), Be16(|r.data|);
    assert pkt == head + t + (c + r.ttl + l + r.data + post);
    FieldAt(head, r.rtype, c + r.ttl + l + r.data + post);
    assert pkt == (head + t) + c + (r.ttl + l + r.data + post);
    FieldAt(head + t, r.rclass, r.ttl + l + r.data + post);
    assert pkt == (head + t + c + r.ttl) + l + (r.data + post);
    FieldAt(head + t + c + r.ttl, |r.data|, r.data + post);
    assert pkt == (head + t + c + r.ttl + l) + r.data + post;
  }

  lemma {:induction false} FindsAddress(pre: seq<Byte>, rs: seq<Record>, post: seq<Byte>)
    requires RecordsOk(rs)
    ensures FindAddress(pre + RecordsBytes(rs) + post, |pre|, |rs|) == FirstAddress(rs)
    decreases |rs|
  {
    hide Skip, NameBytes, WireNameOk, Field, RecordBytes, Get32;
    var pkt := pre + RecordsBytes(rs) + post;
    if rs != [] {
      var r, rest := rs[0], rs[1..];
      var tail := RecordsBytes(rest) + post;
      assert pkt == pre + RecordBytes(r) + tail;
      RecordFields(pre, r, tail);
      RecordSkips(pre, r, tail);
      var pre2 := pre + RecordBytes(r);
      assert pkt == pre2 + RecordsBytes(rest) + post;
      FindsAddress(pre2, rest, post);
    }
  }

  lemma RecordSkips(pre: seq<Byte>, r: Record, post: seq<Byte>)
    requires RecordOk(r)
    ensures Skip(pre + RecordBytes(r) + post, |pre|, 0) == To(|pre| + |NameBytes(r.name)|)
  {
    var fixed := Be16(r.rtype) + Be16(r.rclass) + r.ttl + Be16(|r.data|);
    assert pre + RecordBytes(r) + post == pre + NameBytes(r.name) + (fixed + r.data + post);
    SkipsWhole(pre, r.name, fixed + r.data + post);
  }

  /** Reading any success response yields its first address record. */
  lemma ParseFindsFirst(r: Response)
    requires ResponseOk(r)
    ensures |ResponseBytes(r)| >= 12 && Field(ResponseBytes(r), 0) == r.id
    ensures Parse(r.id, ResponseBytes(r)) == FirstAddress(r.answers)
  {
    hide QuestionsBytes, RecordsBytes, FindAddress, SkipQuestions;
    var pkt, head := ResponseBytes(r), ResponseHeader(r);
    HeaderFields(r, QuestionsBytes(r.questions) + (RecordsBytes(r.answers) + r.more));
    assert pkt == head + (QuestionsBytes(r.questions) + (RecordsBytes(r.answers) + r.more));
    SkipsQuestions(head, r.questions, RecordsBytes(r.answers) + r.more);
    var pre := head + QuestionsBytes(r.questions);
    assert pkt == pre + RecordsBytes(r.answers) + r.more;
    FindsAddress(pre, r.answers, r.more);
  }

  lemma HeaderFields(r: Response, rest: seq<Byte>)
    requires |r.questions| < 0x1_0000 && |r.answers| < 0x1_0000
    ensures var pkt := ResponseHeader(r) + rest;
            && Field(pkt, 0) == r.id && Field(pkt, 2) == r.flags
            && Field(pkt, 4) == |r.questions| && Field(pkt, 6) == |r.answers|
  {
  }
}
