/** sendRecords of internal/core/fragment.go: one TLS record re-framed as several records and
    several TCP writes (RFC 8446 section 5.1). */
module Fragment {
  import opened Bytes
  import opened Collections
  import opened Wrappers

  const HEADER_LEN: nat := 5

  // ---- The connection --------------------------------------------------------------------

  /** One write; urgent is the byte sent with MSG_OOB behind the data. */
  datatype Segment = Segment(data: bytes, urgent: Option<byte>)

  ghost predicate HasUrgent(log: seq<Segment>) {
    exists i :: 0 <= i < |log| && log[i].urgent.Some?
  }

  /** TCP has one urgent pointer: the last urgent byte is out of band, an urgent byte that a later
      one supersedes is ordinary stream data. */
  ghost function InBand(log: seq<Segment>): bytes {
    if log == [] then []
    else
      log[0].data + (if log[0].urgent.Some? && HasUrgent(log[1..]) then [log[0].urgent.value] else []) +
      InBand(log[1..])
  }

  /** A connection that accepts some number of writes, and acknowledges some, and then fails. */
  class Conn {
    var log: seq<Segment>
    var writes: nat
    var acks: nat

    method Write(data: bytes) returns (ok: bool)
      modifies this
      ensures ok <==> old(writes) > 0
      ensures log == if ok then old(log) + [Segment(data, None)] else old(log)
      ensures writes == old(writes) - (if ok then 1 else 0) && acks == old(acks)
    {
      ok := writes > 0;
      if ok {
        log, writes := log + [Segment(data, None)], writes - 1;
      }
    }

    method SendWithOOB(data: bytes, oob: byte) returns (ok: bool)
      modifies this
      ensures ok <==> old(writes) > 0
      ensures log == if ok then old(log) + [Segment(data, Some(oob))] else old(log)
      ensures writes == old(writes) - (if ok then 1 else 0) && acks == old(acks)
    {
      ok := writes > 0;
      if ok {
        log, writes := log + [Segment(data, Some(oob))], writes - 1;
      }
    }

    method WaitForAck(enabled: bool) returns (ok: bool)
      modifies this
      ensures ok <==> !enabled || old(acks) > 0
      ensures log == old(log) && writes == old(writes)
      ensures acks == old(acks) - (if enabled && ok then 1 else 0)
    {
      ok := !enabled || acks > 0;
      if enabled && ok {
        acks := acks - 1;
      }
    }

    /** The reason for every failure: nothing more is accepted, or nothing more acknowledged. */
    ghost predicate Spent(waitForAck: bool)
      reads this
    {
      writes == 0 || (waitForAck && acks == 0)
    }

    /** It would take more than n writes to wear the connection out. */
    predicate Lasts(n: nat, waitForAck: bool)
      reads this
    {
      writes > n && (waitForAck ==> acks > n)
    }

    /** At most n writes have been made, and no more acknowledgements awaited. */
    twostate predicate Spends(n: nat)
      reads this
    {
      && |log| <= old(|log|) + n
      && writes + |log| == old(writes + |log|)
      && acks + |log| >= old(acks + |log|)
    }
  }

  lemma UrgentAppend(log: seq<Segment>, w: Segment)
    ensures HasUrgent(log + [w]) <==> HasUrgent(log) || w.urgent.Some?
  {
    var l := log + [w];
    assert l[|log|] == w;
    assert forall i :: 0 <= i < |log| ==> l[i] == log[i];
  }

  lemma {:induction false} InBandAppend(log: seq<Segment>, w: Segment)
    ensures HasUrgent(log + [w]) <==> HasUrgent(log) || w.urgent.Some?
    ensures w.urgent.None? || !HasUrgent(log) ==> InBand(log + [w]) == InBand(log) + w.data
    ensures w.urgent.Some? && HasUrgent(log) ==> |InBand(log + [w])| == |InBand(log)| + |w.data| + 1
  {
    UrgentAppend(log, w);
    var l := log + [w];
    if log == [] {
      assert l[1..] == [] && InBand([]) == [];
    } else {
      var rest := log[1..];
      assert l[1..] == rest + [w] && l[0] == log[0];
      InBandAppend(rest, w);
      UrgentCons(log);
      UrgentAppend(rest, w);
    }
  }

  lemma UrgentCons(log: seq<Segment>)
    requires log != []
    ensures HasUrgent(log) <==> log[0].urgent.Some? || HasUrgent(log[1..])
  {
    var rest := log[1..];
    assert forall i :: 0 <= i < |rest| ==> rest[i] == log[i + 1];
  }

  /** Two urgent sends in a row: the first urgent byte becomes stream data. */
  lemma InBandPair(a: bytes, x: byte, b: bytes, y: byte)
    ensures var log := [Segment(a, Some(x)), Segment(b, Some(y))];
            HasUrgent(log) && InBand(log) == a + [x] + b
  {
    var log := [Segment(a, Some(x)), Segment(b, Some(y))];
    var last := [Segment(b, Some(y))];
    assert log[1..] == last && last[1..] == [];
    assert last[0].urgent.Some? && log[0].urgent.Some?;
    assert InBand(last) == b + [] + [];
    assert InBand(log) == a + [x] + InBand(last);
  }

  // ---- Records -------------------------------------------------------------------------------

  datatype Record = Record(header: bytes, payload: bytes)

  /** A receiver's view of a byte stream: complete records or nothing. */
  function ParseRecords(s: bytes): Option<seq<Record>> {
    if s == [] then Some([])
    else if |s| < HEADER_LEN then None
    else
      var len := Get16(s, 3);
      if |s| < HEADER_LEN + len then None
      else
        match ParseRecords(s[HEADER_LEN + len..])
        case None => None
        case Some(rs) => Some([Record(s[..3], s[HEADER_LEN..HEADER_LEN + len])] + rs)
  }

  function Payloads(rs: seq<Record>): bytes {
    if rs == [] then [] else rs[0].payload + Payloads(rs[1..])
  }

  /** makeRecord; the length field is cut to 16 bits. */
  function MakeRecord(header: bytes, payload: bytes): bytes
    requires |header| == 3
  {
    header + U16(|payload| % 65536) + payload
  }

  function MakeRecords(header: bytes, parts: seq<bytes>): seq<bytes>
    requires |header| == 3
  {
    seq(|parts|, i requires 0 <= i < |parts| => MakeRecord(header, parts[i]))
  }

  function RecordsOf(header: bytes, parts: seq<bytes>): seq<Record> {
    seq(|parts|, i requires 0 <= i < |parts| => Record(header, parts[i]))
  }

  lemma ParseOneRecord(header: bytes, payload: bytes, rest: bytes)
    requires |header| == 3 && |payload| < 65536
    ensures var s := MakeRecord(header, payload) + rest;
            && |s| >= HEADER_LEN && Get16(s, 3) == |payload| && |s| >= HEADER_LEN + |payload|
            && s[..3] == header && s[HEADER_LEN..HEADER_LEN + |payload|] == payload
            && s[HEADER_LEN + |payload|..] == rest
  {
    var s := MakeRecord(header, payload) + rest;
    var n := U16(|payload| % 65536);
    assert s[3] == n[0] && s[4] == n[1];
  }

  lemma ParseStep(header: bytes, payload: bytes, rest: bytes, rs: seq<Record>)
    requires |header| == 3 && |payload| < 65536 && ParseRecords(rest) == Some(rs)
    ensures ParseRecords(MakeRecord(header, payload) + rest) == Some([Record(header, payload)] + rs)
  {
    ParseOneRecord(header, payload, rest);
  }

  /** Framing and parsing are inverse. */
  lemma {:induction false} ParseMadeRecords(header: bytes, parts: seq<bytes>)
    requires |header| == 3 && forall i :: 0 <= i < |parts| ==> |parts[i]| < 65536
    ensures ParseRecords(Concat(MakeRecords(header, parts))) == Some(RecordsOf(header, parts))
  {
    if parts == [] {
      assert MakeRecords(header, parts) == [] && RecordsOf(header, parts) == [];
    } else {
      var rest := parts[1..];
      ParseMadeRecords(header, rest);
      ParseStep(header, parts[0], Concat(MakeRecords(header, rest)), RecordsOf(header, rest));
      MakeRecordsCons(header, parts[0], rest);
      assert parts == [parts[0]] + rest;
    }
  }

  lemma MakeRecordsCons(header: bytes, part: bytes, rest: seq<bytes>)
    requires |header| == 3
    ensures Concat(MakeRecords(header, [part] + rest)) == MakeRecord(header, part) + Concat(MakeRecords(header, rest))
    ensures RecordsOf(header, [part] + rest) == [Record(header, part)] + RecordsOf(header, rest)
  {
    assert MakeRecords(header, [part] + rest)[1..] == MakeRecords(header, rest);
  }

  lemma {:induction false} PayloadsOfRecords(header: bytes, parts: seq<bytes>)
    ensures Payloads(RecordsOf(header, parts)) == Concat(parts)
  {
    if parts != [] {
      PayloadsOfRecords(header, parts[1..]);
      assert RecordsOf(header, parts)[1..] == RecordsOf(header, parts[1..]);
    }
  }

  // ---- Splitting -----------------------------------------------------------------------------

  /** Where part i of equal parts begins. */
  function Offset(base: nat, i: nat): nat {
    if i == 0 then 0 else Offset(base, i - 1) + base
  }

  lemma {:induction false} OffsetIsProduct(base: nat, i: nat)
    ensures Offset(base, i) == i * base
  {
    if i > 0 {
      OffsetIsProduct(base, i - 1);
    }
  }

  lemma {:induction false} OffsetOrder(base: nat, i: nat, n: nat)
    requires i <= n
    ensures Offset(base, i) <= Offset(base, n)
    decreases n
  {
    if i < n {
      OffsetOrder(base, i, n - 1);
    }
  }

  lemma QuotientFacts(len: nat, n: nat)
    requires n > 0
    ensures Offset(len / n, n) <= len
    ensures len >= n ==> len / n >= 1
  {
    OffsetIsProduct(len / n, n);
  }

  function Part(data: bytes, base: nat, n: nat, i: nat): bytes
    requires i < n && Offset(base, n) <= |data|
  {
    OffsetOrder(base, i + 1, n);
    data[Offset(base, i)..if i == n - 1 then |data| else Offset(base, i + 1)]
  }

  /** n parts of length base, the last with the rest. */
  function EvenParts(data: bytes, base: nat, n: nat): seq<bytes>
    requires Offset(base, n) <= |data|
  {
    seq(n, i requires 0 <= i < n => Part(data, base, n, i))
  }

  /** The parts splitAndAppend makes of data. */
  function Parts(data: bytes, n: nat): seq<bytes>
    requires n > 0
  {
    if n == 1 || |data| < n then [data]
    else
      QuotientFacts(|data|, n);
      EvenParts(data, |data| / n, n)
  }

  lemma {:induction false} PartsPrefix(data: bytes, base: nat, n: nat, i: nat)
    requires Offset(base, n) <= |data| && i < n
    ensures Offset(base, i) <= |data|
    ensures Upto(EvenParts(data, base, n), i) == data[..Offset(base, i)]
  {
    OffsetOrder(base, i, n);
    if i > 0 {
      PartsPrefix(data, base, n, i - 1);
      var p, q := Offset(base, i - 1), Offset(base, i);
      assert EvenParts(data, base, n)[i - 1] == data[p..q];
      assert data[..p] + data[p..q] == data[..q];
    }
  }

  lemma JoinLast(ps: seq<bytes>, data: bytes, p: nat)
    requires |ps| > 0 && p <= |data| && Upto(ps, |ps| - 1) == data[..p] && ps[|ps| - 1] == data[p..]
    ensures Concat(ps) == data
  {
    UptoAll(ps);
    assert data[..p] + data[p..] == data;
  }

  lemma PartsConcat(data: bytes, base: nat, n: nat)
    requires Offset(base, n) <= |data| && n > 0
    ensures Concat(EvenParts(data, base, n)) == data
  {
    var ps, p := EvenParts(data, base, n), Offset(base, n - 1);
    PartsPrefix(data, base, n, n - 1);
    JoinLast(ps, data, p);
  }

  lemma PartSize(data: bytes, base: nat, n: nat, i: nat)
    requires Offset(base, n) <= |data| && i < n && base >= 1
    ensures Part(data, base, n, i) != [] && |Part(data, base, n, i)| <= |data|
  {
    OffsetOrder(base, i + 1, n);
  }

  /** Splitting loses nothing, makes at most n parts, and makes no empty part of non-empty data. */
  lemma PartsFacts(data: bytes, n: nat)
    requires n > 0
    ensures Concat(Parts(data, n)) == data
    ensures |Parts(data, n)| == if |data| < n then 1 else n
    ensures data != [] ==> forall i :: 0 <= i < |Parts(data, n)| ==> Parts(data, n)[i] != []
    ensures forall i :: 0 <= i < |Parts(data, n)| ==> |Parts(data, n)[i]| <= |data|
  {
    if n == 1 || |data| < n {
      assert Concat([data]) == data + Concat([]);
    } else {
      var base := |data| / n;
      QuotientFacts(|data|, n);
      PartsConcat(data, base, n);
      forall i | 0 <= i < n
        ensures Part(data, base, n, i) != [] && |Part(data, base, n, i)| <= |data|
      {
        PartSize(data, base, n, i);
      }
    }
  }

  /** The slice that both splitting loops take in round i. */
  method SlicePart(data: bytes, base: nat, n: nat, i: nat) returns (part: bytes)
    requires Offset(base, n) <= |data| && i < n
    ensures part == Part(data, base, n, i)
  {
    OffsetIsProduct(base, i);
    OffsetIsProduct(base, i + 1);
    OffsetOrder(base, i + 1, n);
    var start := i * base;
    var end := (i + 1) * base;
    if i == n - 1 {
      end := |data|;
    }
    part := data[start..end];
  }

  /** bytes.LastIndexByte, or -1. */
  function LastIndex(s: bytes, x: byte): int {
    if s == [] then -1
    else if s[|s| - 1] == x then |s| - 1
    else LastIndex(s[..|s| - 1], x)
  }

  lemma {:induction false} LastIndexIsLast(s: bytes, x: byte)
    ensures var i := LastIndex(s, x);
            if i == -1 then x !in s else 0 <= i < |s| && s[i] == x && x !in s[i + 1..]
  {
    if s != [] && s[|s| - 1] != x {
      var init := s[..|s| - 1];
      LastIndexIsLast(init, x);
      var i := LastIndex(init, x);
      assert s == init + [s[|s| - 1]];
      if i != -1 {
        assert s[i + 1..] == init[i + 1..] + [s[|s| - 1]];
      }
    }
  }

  const DOT: byte := 46

  /** Where the host name is cut: at its last dot, or in the middle. */
  function FindLastDotOrMidPos(data: bytes, sniStart: nat, sniLen: nat): int
    requires sniStart + sniLen <= |data|
  {
    var subIdx := LastIndex(data[sniStart..sniStart + sniLen], DOT);
    if subIdx == -1 then sniLen / 2 + sniStart else sniStart + subIdx
  }

  /** The cut leaves something of the name on both sides: its last dot is not its first byte, or it has no dot
      and more than one byte. */
  predicate CanBeCut(name: bytes) {
    var i := LastIndex(name, DOT);
    i > 0 || (i == -1 && |name| >= 2)
  }

  lemma CutInName(data: bytes, sniStart: nat, sniLen: nat)
    requires sniStart + sniLen <= |data|
    ensures var cut := FindLastDotOrMidPos(data, sniStart, sniLen);
            && sniStart <= cut <= sniStart + sniLen
            && (sniLen > 0 ==> cut < sniStart + sniLen)
            && (cut == |data| <==> sniLen == 0 && sniStart == |data|)
            && (sniStart < cut < sniStart + sniLen <==> CanBeCut(data[sniStart..sniStart + sniLen]))
  {
    LastIndexIsLast(data[sniStart..sniStart + sniLen], DOT);
  }

  /** The payload parts for two or more records. */
  function Chunks(buf: bytes, cut: nat, records: nat): seq<bytes>
    requires HEADER_LEN <= cut <= |buf| && records >= 2
  {
    Parts(buf[HEADER_LEN..cut], records / 2) + Parts(buf[cut..], records - records / 2)
  }

  /** The byte stream a receiver is to see. */
  function Stream(buf: bytes, cut: nat, records: nat): bytes
    requires HEADER_LEN <= cut <= |buf|
  {
    if records <= 1 then buf else Concat(MakeRecords(buf[..3], Chunks(buf, cut, records)))
  }

  // ---- Sending -------------------------------------------------------------------------------

  datatype Result = Done | IoError | Panic

  method SplitAndAppend(data: bytes, header: Option<bytes>, n: int, result: seq<bytes>)
    returns (ok: bool, r: seq<bytes>)
    requires header.Some? ==> |header.value| == 3
    ensures ok <==> n > 0
    ensures ok ==> r == result + if header.Some? then MakeRecords(header.value, Parts(data, n)) else Parts(data, n)
  {
    if n <= 0 {
      return false, result;
    }
    var addHeader := header.Some?;
    r := result;
    if n == 1 || |data| < n {
      if addHeader {
        r := r + [MakeRecord(header.value, data)];
      } else {
        r := r + [data];
      }
      return true, r;
    }
    var base := |data| / n;
    QuotientFacts(|data|, n);
    ghost var parts := EvenParts(data, base, n);
    for i := 0 to n
      invariant r == result + if addHeader then MakeRecords(header.value, parts[..i]) else parts[..i]
    {
      var part := SlicePart(data, base, n, i);
      assert parts[..i + 1] == parts[..i] + [part];
      if addHeader {
        MakeRecordsAppend(header.value, parts[..i], part);
        r := r + [MakeRecord(header.value, part)];
      } else {
        r := r + [part];
      }
    }
    assert parts[..n] == parts;
    return true, r;
  }

  lemma MakeRecordsAppend(header: bytes, parts: seq<bytes>, part: bytes)
    requires |header| == 3
    ensures MakeRecords(header, parts + [part]) == MakeRecords(header, parts) + [MakeRecord(header, part)]
  {
  }

  /** The first 35 bytes with two urgent bytes: byte 15 itself, then a filler. */
  method SendUrgentPrelude(conn: Conn, buf: bytes, waitForAck: bool) returns (ok: bool)
    requires conn.log == [] && |buf| >= 35
    modifies conn
    ensures InBand(conn.log) <= buf[..35]
    ensures ok ==> InBand(conn.log) == buf[..35] && HasUrgent(conn.log)
    ensures conn.Spends(2) && (!ok ==> conn.Spent(waitForAck))
  {
    ok := conn.SendWithOOB(buf[..15], buf[15]);
    if !ok {
      return;
    }
    InBandAppend([], Segment(buf[..15], Some(buf[15])));
    assert [] + [Segment(buf[..15], Some(buf[15]))] == [Segment(buf[..15], Some(buf[15]))];
    ok := conn.SendWithOOB(buf[16..35], 0x0);
    if !ok {
      return;
    }
    InBandPair(buf[..15], buf[15], buf[16..35], 0);
    assert buf[..15] + [buf[15]] + buf[16..35] == buf[..35];
    ok := conn.WaitForAck(waitForAck);
  }

  /** The log after some packets: exact, or, when a filler byte of an earlier urgent send has become
      stream data, one byte too long. */
  ghost predicate Delivered(log: seq<Segment>, sent: bytes, clash: bool) {
    if clash then |InBand(log)| == |sent| + 1 else InBand(log) == sent
  }

  lemma DeliveredAppend(log: seq<Segment>, sent: bytes, clash: bool, w: Segment)
    requires Delivered(log, sent, clash) && (w.urgent.Some? && HasUrgent(log) ==> !clash)
    ensures Delivered(log + [w], sent + w.data, clash || (w.urgent.Some? && HasUrgent(log)))
    ensures HasUrgent(log + [w]) <==> HasUrgent(log) || w.urgent.Some?
  {
    InBandAppend(log, w);
  }

  /** The sends for some packets: the first with an urgent filler byte if oob is set. */
  function Plan(packets: seq<bytes>, oob: bool): seq<Segment> {
    seq(|packets|, i requires 0 <= i < |packets| => Segment(packets[i], if i == 0 && oob then Some(0) else None))
  }

  lemma SentOneMore(before: bytes, parts: seq<bytes>, i: nat)
    requires i < |parts|
    ensures before + Upto(parts, i) + parts[i] == before + Upto(parts, i + 1)
  {
  }

  lemma {:induction false} DeliveredUpto(log: seq<Segment>, before: bytes, packets: seq<bytes>, oob: bool, i: nat)
    requires i <= |packets| && InBand(log) == before
    ensures Delivered(log + Plan(packets, oob)[..i], before + Upto(packets, i), oob && HasUrgent(log) && i > 0)
    ensures i == 0 ==> log + Plan(packets, oob)[..i] == log
  {
    var plan := Plan(packets, oob);
    if i == 0 {
      assert log + plan[..0] == log && before + [] == before;
    } else {
      DeliveredUpto(log, before, packets, oob, i - 1);
      var l := log + plan[..i - 1];
      DeliveredAppend(l, before + Upto(packets, i - 1), oob && HasUrgent(log) && i - 1 > 0, plan[i - 1]);
      SliceSnoc(log, plan, i - 1);
      SentOneMore(before, packets, i - 1);
    }
  }

  /** What any number of the planned sends delivers. */
  lemma PlanDelivers(log: seq<Segment>, before: bytes, packets: seq<bytes>, oob: bool, i: nat)
    requires i <= |packets| && InBand(log) == before
    ensures !(oob && HasUrgent(log)) ==> InBand(log + Plan(packets, oob)[..i]) <= before + Concat(packets)
    ensures i == |packets| ==>
              Delivered(log + Plan(packets, oob)[..i], before + Concat(packets), oob && HasUrgent(log) && packets != [])
  {
    DeliveredUpto(log, before, packets, oob, i);
    UptoIsPrefix(packets, i);
    UptoAll(packets);
  }

  /** One round of both sending loops: a write, urgent for the first packet with oob, and its acknowledgement. */
  method SendPacket(conn: Conn, packet: bytes, urgent: bool, waitForAck: bool) returns (ok: bool)
    modifies conn
    ensures var sent := old(conn.log) + [Segment(packet, if urgent then Some(0) else None)];
            conn.log == sent || (!ok && conn.log == old(conn.log))
    ensures conn.Spends(1) && (!ok ==> conn.Spent(waitForAck))
  {
    if urgent {
      ok := conn.SendWithOOB(packet, 0x0);
    } else {
      ok := conn.Write(packet);
    }
    if ok {
      ok := conn.WaitForAck(waitForAck);
    }
  }

  /** Packets one by one. */
  method SendPackets(conn: Conn, packets: seq<bytes>, oob: bool, waitForAck: bool, ghost before: bytes)
    returns (r: Result)
    requires InBand(conn.log) == before
    modifies conn
    ensures r != Panic
    ensures !(oob && old(HasUrgent(conn.log))) ==> InBand(conn.log) <= before + Concat(packets)
    ensures r == Done ==>
              Delivered(conn.log, before + Concat(packets), oob && old(HasUrgent(conn.log)) && packets != [])
    ensures conn.Spends(|packets|) && (r == IoError ==> conn.Spent(waitForAck))
  {
    ghost var log, plan := conn.log, Plan(packets, oob);
    for i := 0 to |packets|
      invariant conn.log == log + plan[..i] && conn.Spends(i)
    {
      PlanDelivers(log, before, packets, oob, i);
      PlanDelivers(log, before, packets, oob, i + 1);
      SliceSnoc(log, plan, i);
      var ok := SendPacket(conn, packets[i], i == 0 && oob, waitForAck);
      if !ok {
        return IoError;
      }
    }
    PlanDelivers(log, before, packets, oob, |packets|);
    return Done;
  }

  // ---- One record ----------------------------------------------------------------------------

  function AtLeastOne(n: int): nat {
    if n < 1 then 1 else n
  }

  /** records == 1: the bytes as they are, in one or more writes. */
  method SendSingle(conn: Conn, buf: bytes, offset: nat, length: nat, segments: int, oob: bool, oobex: bool,
                    waitForAck: bool)
    returns (r: Result)
    requires conn.log == [] && 58 <= offset && offset + length <= |buf| && segments != 0
    modifies conn
    ensures !(oob && oobex) ==> InBand(conn.log) <= buf
    ensures r == Done ==> segments >= 1 && Delivered(conn.log, buf, oob && oobex && segments >= 2)
    ensures segments < 0 ==> r != Done
    ensures r == Panic ==> segments < 0
    ensures conn.Spends(2 + AtLeastOne(segments)) && (r == IoError ==> conn.Spent(waitForAck))
  {
    var rest, at := buf, offset;
    ghost var before: bytes := [];
    if oobex {
      var ok := SendUrgentPrelude(conn, buf, waitForAck);
      assert buf == buf[..35] + buf[35..];
      if !ok {
        return IoError;
      }
      before := buf[..35];
      rest, at := buf[35..], offset - 35;
    }
    assert before + rest == buf;
    if segments == 1 {
      InBandAppend(conn.log, Segment(rest, None));
      var ok := conn.Write(rest);
      return if ok then Done else IoError;
    }
    if segments < 0 {
      return Panic;
    }
    var leftSegments := segments / 2;
    var rightSegments := segments - leftSegments;
    CutInName(rest, at, length);
    var cut := FindLastDotOrMidPos(rest, at, length);
    var ok, packets := SplitAndAppend(rest[..cut], None, leftSegments, []);
    ok, packets := SplitAndAppend(rest[cut..], None, rightSegments, packets);
    TwoSides(rest, cut, leftSegments, rightSegments);
    assert [] + Parts(rest[..cut], leftSegments) == Parts(rest[..cut], leftSegments);
    PartsFacts(rest[..cut], leftSegments);
    r := SendPackets(conn, packets, oob, waitForAck, before);
  }

  lemma TwoSides(data: bytes, cut: nat, left: nat, right: nat)
    requires cut <= |data| && left > 0 && right > 0
    ensures Concat(Parts(data[..cut], left) + Parts(data[cut..], right)) == data
  {
    PartsFacts(data[..cut], left);
    PartsFacts(data[cut..], right);
    ConcatAppend(Parts(data[..cut], left), Parts(data[cut..], right));
    assert data[..cut] + data[cut..] == data;
  }

  // ---- One write per record --------------------------------------------------------------------

  /** The log after i of the chunks: with oobex the last byte of the first chunk is urgent until a
      filler byte behind the second chunk supersedes it. */
  ghost predicate ChunkLog(log: seq<Segment>, chunks: seq<bytes>, i: nat, oob: bool, oobex: bool)
    requires i <= |chunks| && forall k :: 0 <= k < |chunks| ==> chunks[k] != []
  {
    && (HasUrgent(log) <==> i >= 1 && (oob || oobex))
    && if i == 1 && oobex && !oob then
         log == [Segment(chunks[0][..|chunks[0]| - 1], Some(chunks[0][|chunks[0]| - 1]))]
       else Delivered(log, Upto(chunks, i), oob && oobex && i >= 2)
  }

  lemma ChunkLogIsPrefix(log: seq<Segment>, chunks: seq<bytes>, i: nat, oob: bool, oobex: bool)
    requires i <= |chunks| && forall k :: 0 <= k < |chunks| ==> chunks[k] != []
    requires ChunkLog(log, chunks, i, oob, oobex) && !(oob && oobex)
    ensures InBand(log) <= Concat(chunks)
  {
    UptoIsPrefix(chunks, i);
    if i == 1 && oobex {
      var c := chunks[0];
      assert log[1..] == [];
      assert InBand(log) == c[..|c| - 1] + [] + [];
      assert Upto(chunks, 1) == [] + c;
      assert c[..|c| - 1] <= c <= Concat(chunks);
    }
  }

  /** How chunk i is sent. */
  function ChunkSegment(chunk: bytes, i: nat, oob: bool, oobex: bool): Segment
    requires chunk != []
  {
    if i == 0 && oob then Segment(chunk, Some(0))
    else if i == 0 && oobex then Segment(chunk[..|chunk| - 1], Some(chunk[|chunk| - 1]))
    else if i == 1 && oobex then Segment(chunk, Some(0))
    else Segment(chunk, None)
  }

  lemma FirstChunkLog(chunks: seq<bytes>, oob: bool, oobex: bool)
    requires |chunks| >= 2 && forall k :: 0 <= k < |chunks| ==> chunks[k] != []
    ensures ChunkLog([] + [ChunkSegment(chunks[0], 0, oob, oobex)], chunks, 1, oob, oobex)
  {
    assert Upto(chunks, 1) == [] + chunks[0];
    InBandAppend([], ChunkSegment(chunks[0], 0, oob, oobex));
  }

  lemma SecondChunkLog(log: seq<Segment>, chunks: seq<bytes>, oob: bool, oobex: bool)
    requires |chunks| >= 2 && forall k :: 0 <= k < |chunks| ==> chunks[k] != []
    requires ChunkLog(log, chunks, 1, oob, oobex) && oobex
    ensures ChunkLog(log + [Segment(chunks[1], Some(0))], chunks, 2, oob, oobex)
  {
    assert Upto(chunks, 1) == [] + chunks[0];
    var w := Segment(chunks[1], Some(0));
    InBandAppend(log, w);
    if !oob {
      var c := chunks[0];
      InBandPair(c[..|c| - 1], c[|c| - 1], chunks[1], 0);
      assert log + [w] == [log[0], w];
      assert c[..|c| - 1] + [c[|c| - 1]] == c;
    }
  }

  lemma LaterChunkLog(log: seq<Segment>, chunks: seq<bytes>, i: nat, oob: bool, oobex: bool)
    requires 1 <= i < |chunks| && forall k :: 0 <= k < |chunks| ==> chunks[k] != []
    requires ChunkLog(log, chunks, i, oob, oobex) && !(i == 1 && oobex)
    ensures ChunkLog(log + [Segment(chunks[i], None)], chunks, i + 1, oob, oobex)
  {
    InBandAppend(log, Segment(chunks[i], None));
  }

  lemma NextChunkLog(log: seq<Segment>, chunks: seq<bytes>, i: nat, oob: bool, oobex: bool)
    requires i < |chunks| && |chunks| >= 2 && forall k :: 0 <= k < |chunks| ==> chunks[k] != []
    requires ChunkLog(log, chunks, i, oob, oobex) && (i == 0 ==> log == [])
    ensures ChunkLog(log + [ChunkSegment(chunks[i], i, oob, oobex)], chunks, i + 1, oob, oobex)
  {
    if i == 0 {
      FirstChunkLog(chunks, oob, oobex);
    } else if i == 1 && oobex {
      SecondChunkLog(log, chunks, oob, oobex);
    } else {
      LaterChunkLog(log, chunks, i, oob, oobex);
    }
  }

  method SendChunk(conn: Conn, chunk: bytes, i: nat, oob: bool, oobex: bool) returns (ok: bool)
    requires chunk != []
    modifies conn
    ensures ok <==> old(conn.writes) > 0
    ensures conn.log == if ok then old(conn.log) + [ChunkSegment(chunk, i, oob, oobex)] else old(conn.log)
    ensures conn.writes == old(conn.writes) - (if ok then 1 else 0) && conn.acks == old(conn.acks)
  {
    if i == 0 {
      if oob {
        ok := conn.SendWithOOB(chunk, 0x0);
      } else if oobex {
        var l := |chunk|;
        ok := conn.SendWithOOB(chunk[..l - 1], chunk[l - 1]);
      } else {
        ok := conn.Write(chunk);
      }
    } else if i == 1 && oobex {
      ok := conn.SendWithOOB(chunk, 0x0);
    } else {
      ok := conn.Write(chunk);
    }
  }

  function ChunkPlan(chunks: seq<bytes>, oob: bool, oobex: bool): seq<Segment>
    requires forall k :: 0 <= k < |chunks| ==> chunks[k] != []
  {
    seq(|chunks|, i requires 0 <= i < |chunks| => ChunkSegment(chunks[i], i, oob, oobex))
  }

  lemma {:induction false} ChunkPlanLog(chunks: seq<bytes>, oob: bool, oobex: bool, i: nat)
    requires |chunks| >= 2 && forall k :: 0 <= k < |chunks| ==> chunks[k] != []
    requires i <= |chunks|
    ensures ChunkLog(ChunkPlan(chunks, oob, oobex)[..i], chunks, i, oob, oobex)
  {
    var plan := ChunkPlan(chunks, oob, oobex);
    if i == 0 {
      assert plan[..0] == [];
    } else {
      ChunkPlanLog(chunks, oob, oobex, i - 1);
      NextChunkLog(plan[..i - 1], chunks, i - 1, oob, oobex);
      TakeSnoc(plan, i - 1);
    }
  }

  lemma ChunkPlanDelivers(chunks: seq<bytes>, oob: bool, oobex: bool, i: nat)
    requires |chunks| >= 2 && forall k :: 0 <= k < |chunks| ==> chunks[k] != []
    requires i <= |chunks|
    ensures !(oob && oobex) ==> InBand(ChunkPlan(chunks, oob, oobex)[..i]) <= Concat(chunks)
    ensures i == |chunks| ==> Delivered(ChunkPlan(chunks, oob, oobex)[..i], Concat(chunks), oob && oobex)
  {
    ChunkPlanLog(chunks, oob, oobex, i);
    UptoAll(chunks);
    if !(oob && oobex) {
      ChunkLogIsPrefix(ChunkPlan(chunks, oob, oobex)[..i], chunks, i, oob, oobex);
    }
  }

  /** segments == -1: every record is a write of its own. */
  method SendChunks(conn: Conn, chunks: seq<bytes>, oob: bool, oobex: bool, waitForAck: bool) returns (r: Result)
    requires conn.log == [] && |chunks| >= 2 && forall k :: 0 <= k < |chunks| ==> chunks[k] != []
    modifies conn
    ensures r != Panic
    ensures !(oob && oobex) ==> InBand(conn.log) <= Concat(chunks)
    ensures r == Done ==> Delivered(conn.log, Concat(chunks), oob && oobex)
    ensures conn.Spends(|chunks|) && (r == IoError ==> conn.Spent(waitForAck))
  {
    ghost var plan := ChunkPlan(chunks, oob, oobex);
    for i := 0 to |chunks|
      invariant conn.log == plan[..i] && conn.Spends(i)
    {
      ChunkPlanDelivers(chunks, oob, oobex, i);
      ChunkPlanDelivers(chunks, oob, oobex, i + 1);
      TakeSnoc(plan, i);
      var ok := SendChunk(conn, chunks[i], i, oob, oobex);
      if !ok {
        return IoError;
      }
      ok := conn.WaitForAck(waitForAck);
      if !ok {
        return IoError;
      }
    }
    ChunkPlanDelivers(chunks, oob, oobex, |chunks|);
    return Done;
  }

  // ---- Records merged and cut into segments --------------------------------------------------

  method Merge(chunks: seq<bytes>) returns (merged: bytes)
    ensures merged == Concat(chunks)
  {
    merged := [];
    for i := 0 to |chunks|
      invariant merged == Upto(chunks, i)
    {
      merged := merged + chunks[i];
    }
    UptoAll(chunks);
  }

  /** The stream cut into equal segments; a negative count makes the loop body never run. */
  method SendSegments(conn: Conn, merged: bytes, segments: int, oob: bool, waitForAck: bool, ghost before: bytes)
    returns (r: Result)
    requires segments != 0 && InBand(conn.log) == before && segments < |merged|
    modifies conn
    ensures r != Panic
    ensures !(oob && old(HasUrgent(conn.log))) ==> InBand(conn.log) <= before + merged
    ensures segments > 0 && r == Done ==> Delivered(conn.log, before + merged, oob && old(HasUrgent(conn.log)))
    ensures segments < 0 ==> r == Done && conn.log == old(conn.log)
    ensures conn.Spends(AtLeastOne(segments)) && (r == IoError ==> conn.Spent(waitForAck))
  {
    if segments < 0 {
      return Done;
    }
    var base := |merged| / segments;
    QuotientFacts(|merged|, segments);
    ghost var parts := EvenParts(merged, base, segments);
    PartsConcat(merged, base, segments);
    ghost var log, plan := conn.log, Plan(parts, oob);
    for i := 0 to segments
      invariant conn.log == log + plan[..i] && conn.Spends(i)
    {
      PlanDelivers(log, before, parts, oob, i);
      PlanDelivers(log, before, parts, oob, i + 1);
      SliceSnoc(log, plan, i);
      var packet := SlicePart(merged, base, segments, i);
      var ok := SendPacket(conn, packet, i == 0 && oob, waitForAck);
      if !ok {
        return IoError;
      }
    }
    PlanDelivers(log, before, parts, oob, segments);
    return Done;
  }

  method SendMerged(conn: Conn, chunks: seq<bytes>, segments: int, oob: bool, oobex: bool, waitForAck: bool)
    returns (r: Result)
    requires conn.log == [] && |Concat(chunks)| > 35 && segments != 0
    modifies conn
    ensures r != Panic
    ensures !(oob && oobex) ==> InBand(conn.log) <= Concat(chunks)
    ensures segments > 0 && r == Done ==>
              Delivered(conn.log, Concat(chunks), oob && oobex && 1 < segments < |Concat(chunks)| - 35)
    ensures segments < 0 && r == Done ==> |InBand(conn.log)| < |Concat(chunks)|
    ensures conn.Spends(2 + AtLeastOne(segments)) && (r == IoError ==> conn.Spent(waitForAck))
  {
    var merged := Merge(chunks);
    ghost var stream := merged;
    ghost var before: bytes := [];
    if oobex {
      var ok := SendUrgentPrelude(conn, merged, waitForAck);
      assert merged == merged[..35] + merged[35..];
      if !ok {
        return IoError;
      }
      before := merged[..35];
      merged := merged[35..];
    }
    assert before + merged == stream;
    if segments == 1 || |merged| <= segments {
      InBandAppend(conn.log, Segment(merged, None));
      var ok := conn.Write(merged);
      return if ok then Done else IoError;
    }
    r := SendSegments(conn, merged, segments, oob, waitForAck, before);
  }

  // ---- sendRecords -----------------------------------------------------------------------------

  /** The chunks of two or more records are the payload, cut at cut into non-empty parts. */
  lemma ChunksFacts(buf: bytes, cut: nat, records: nat)
    requires HEADER_LEN < cut <= |buf| && records >= 2
    ensures var parts := Chunks(buf, cut, records);
            && 2 <= |parts| <= records
            && Concat(parts) == buf[HEADER_LEN..]
            && forall i :: 0 <= i < |parts| ==> |parts[i]| <= |buf| - HEADER_LEN
    ensures (forall i :: 0 <= i < |Chunks(buf, cut, records)| ==> Chunks(buf, cut, records)[i] != []) <==> cut < |buf|
  {
    var left, right := Parts(buf[HEADER_LEN..cut], records / 2), Parts(buf[cut..], records - records / 2);
    PartsFacts(buf[HEADER_LEN..cut], records / 2);
    PartsFacts(buf[cut..], records - records / 2);
    ConcatAppend(left, right);
    assert buf[HEADER_LEN..cut] + buf[cut..] == buf[HEADER_LEN..];
    var parts := left + right;
    assert forall i :: 0 <= i < |left| ==> parts[i] == left[i];
    assert forall i :: 0 <= i < |right| ==> parts[|left| + i] == right[i];
    if cut == |buf| {
      assert right == [[]];
      assert parts[|left|] == [];
    }
  }

  lemma {:induction false} RecordBytes(header: bytes, parts: seq<bytes>)
    requires |header| == 3
    ensures |Concat(MakeRecords(header, parts))| == |Concat(parts)| + 5 * |parts|
    ensures forall i :: 0 <= i < |parts| ==> MakeRecords(header, parts)[i] != []
  {
    if parts != [] {
      RecordBytes(header, parts[1..]);
      assert MakeRecords(header, parts)[1..] == MakeRecords(header, parts[1..]);
    }
  }

  /** The settings the function can carry out; segments is not 0. */
  predicate Handled(records: nat, segments: int) {
    segments >= 1 || (segments == -1 && records >= 2)
  }

  /** With both urgent modes set, a filler byte ends up in the stream, unless only one urgent mode
      comes into play. */
  predicate Clash(records: nat, segments: int, streamLen: int, oob: bool, oobex: bool) {
    oob && oobex &&
    if records < 2 then segments >= 2
    else segments == -1 || 1 < segments < streamLen - 35
  }

  function Rewrite(buf: bytes, minorVersion: Option<byte>): bytes
    requires |buf| >= 3
  {
    if minorVersion.Some? then buf[2 := minorVersion.value] else buf
  }

  /** The outcome of sending stream: never more than a prefix of it, all of it on success. */
  ghost predicate Outcome(r: Result, log: seq<Segment>, stream: bytes, records: nat, segments: int, oob: bool,
                          oobex: bool)
  {
    && (!(oob && oobex) ==> InBand(log) <= stream)
    && (r == Panic ==> records < 2 && segments < 0)
    && (r == Done ==> !(records < 2 && segments < 0))
    && (r == Done && Handled(records, segments) ==>
          Delivered(log, stream, Clash(records, segments, |stream|, oob, oobex)))
    && (r == Done && !Handled(records, segments) ==> |InBand(log)| < |stream|)
  }

  /** What two splits of the payload produce, as records. */
  lemma ChunksAreStream(buf: bytes, cut: nat, records: nat)
    requires 58 <= cut <= |buf| && records >= 2
    ensures var header := buf[..3];
            var cs := [] + MakeRecords(header, Parts(buf[HEADER_LEN..cut], records / 2)) +
                      MakeRecords(header, Parts(buf[cut..], records - records / 2));
            && Concat(cs) == Stream(buf, cut, records) && |Concat(cs)| > 35
            && 2 <= |cs| <= records && forall k :: 0 <= k < |cs| ==> cs[k] != []
  {
    var header := buf[..3];
    MakeRecordsJoin(header, Parts(buf[HEADER_LEN..cut], records / 2), Parts(buf[cut..], records - records / 2));
    ChunksFacts(buf, cut, records);
    RecordBytes(header, Chunks(buf, cut, records));
  }

  /** The chunks of two or more records, each a record of its own. */
  method MakeChunks(buf: bytes, cut: nat, records: nat) returns (chunks: seq<bytes>)
    requires 58 <= cut <= |buf| && records >= 2
    ensures Concat(chunks) == Stream(buf, cut, records) && |Concat(chunks)| > 35
    ensures 2 <= |chunks| <= records && forall k :: 0 <= k < |chunks| ==> chunks[k] != []
  {
    var leftChunks := records / 2;
    var rightChunks := records - leftChunks;
    var header := buf[..3];
    var ok;
    ok, chunks := SplitAndAppend(buf[HEADER_LEN..cut], Some(header), leftChunks, []);
    ok, chunks := SplitAndAppend(buf[cut..], Some(header), rightChunks, chunks);
    ChunksAreStream(buf, cut, records);
  }

  /** More writes than these are never made. */
  function MostWrites(records: nat, segments: int): nat {
    2 + records + AtLeastOne(segments)
  }

  /** Two or more records. */
  method SendMany(conn: Conn, buf: bytes, cut: nat, records: nat, segments: int, oob: bool, oobex: bool,
                  waitForAck: bool)
    returns (r: Result)
    requires conn.log == [] && 58 <= cut <= |buf| && records >= 2 && segments != 0
    modifies conn
    ensures Outcome(r, conn.log, Stream(buf, cut, records), records, segments, oob, oobex)
    ensures conn.Spends(MostWrites(records, segments)) && (r == IoError ==> conn.Spent(waitForAck))
  {
    var chunks := MakeChunks(buf, cut, records);
    if segments == -1 {
      r := SendChunks(conn, chunks, oob, oobex, waitForAck);
      return;
    }
    r := SendMerged(conn, chunks, segments, oob, oobex, waitForAck);
  }

  lemma MakeRecordsJoin(header: bytes, a: seq<bytes>, b: seq<bytes>)
    requires |header| == 3
    ensures [] + MakeRecords(header, a) + MakeRecords(header, b) == MakeRecords(header, a + b)
  {
  }

  /** Sends a ClientHello record as records records in segments writes (0 means 1 for both). It fails only if
      the connection does; on one that lasts it succeeds, but for the panic. */
  method SendRecords(conn: Conn, clientHello: array<byte>, offset: nat, length: nat, records: nat, segments: int,
                     minorVersion: Option<byte>, oob: bool, oobex: bool, waitForAck: bool)
    returns (r: Result)
    requires conn.log == []
    requires 58 <= offset && offset + length <= clientHello.Length
    modifies conn, clientHello
    ensures clientHello[..] == Rewrite(old(clientHello[..]), minorVersion)
    ensures var cut := FindLastDotOrMidPos(clientHello[..], offset, length);
            && offset <= cut <= clientHello.Length
            && Outcome(r, conn.log, Stream(clientHello[..], cut, records), records,
                       if segments == 0 then 1 else segments, oob, oobex)
    ensures r == IoError ==> conn.Spent(waitForAck)
    ensures old(conn.Lasts(MostWrites(records, segments), waitForAck)) ==>
              r == if records < 2 && segments < 0 then Panic else Done
  {
    if minorVersion.Some? {
      clientHello[2] := minorVersion.value;
    }
    var buf := clientHello[..];
    assert buf == Rewrite(old(clientHello[..]), minorVersion);
    var rs := if records == 0 then 1 else records;
    var s := if segments == 0 then 1 else segments;
    CutInName(buf, offset, length);
    if rs == 1 {
      r := SendSingle(conn, buf, offset, length, s, oob, oobex, waitForAck);
    } else {
      var cut := FindLastDotOrMidPos(buf, offset, length);
      r := SendMany(conn, buf, cut, rs, s, oob, oobex, waitForAck);
    }
  }

  // ---- What the receiver gets ------------------------------------------------------------------

  /** Where record i begins in the reassembled payload. */
  function Start(rs: seq<Record>, i: nat): nat
    requires i <= |rs|
  {
    if i == 0 then 0 else Start(rs, i - 1) + |rs[i - 1].payload|
  }

  lemma {:induction false} StartOfParts(header: bytes, parts: seq<bytes>, i: nat)
    requires i <= |parts|
    ensures Start(RecordsOf(header, parts), i) == |Upto(parts, i)|
  {
    if i > 0 {
      StartOfParts(header, parts, i - 1);
    }
  }

  lemma WholeRecord(buf: bytes)
    requires |buf| >= HEADER_LEN && HEADER_LEN + Get16(buf, 3) == |buf|
    ensures buf == MakeRecord(buf[..3], buf[HEADER_LEN..])
  {
    var n := U16((|buf| - HEADER_LEN) % 65536);
    assert n[0] == buf[3] && n[1] == buf[4];
  }

  /** The stream is a re-framing of the same record: RFC 8446 section 5.1 allows it as long as no
      fragment is empty, which fails only for an empty name at the very end. */
  lemma StreamMeansRecord(buf: bytes, cut: nat, records: nat)
    requires HEADER_LEN < cut <= |buf| && 5 + Get16(buf, 3) == |buf|
    ensures ParseRecords(Stream(buf, cut, records)).Some?
    ensures var rs := ParseRecords(Stream(buf, cut, records)).value;
            && 1 <= |rs| <= (if records <= 1 then 1 else records)
            && Payloads(rs) == buf[HEADER_LEN..]
            && (forall i :: 0 <= i < |rs| ==> rs[i].header == buf[..3])
            && ((forall i :: 0 <= i < |rs| ==> rs[i].payload != []) <==> records <= 1 || cut < |buf|)
  {
    if records <= 1 {
      WholeRecord(buf);
      ParseStep(buf[..3], buf[HEADER_LEN..], [], []);
      var one := Record(buf[..3], buf[HEADER_LEN..]);
      assert buf + [] == buf && [one] + [] == [one];
      assert Payloads([one]) == one.payload + Payloads([]);
    } else {
      var parts := Chunks(buf, cut, records);
      ChunksFacts(buf, cut, records);
      ParseMadeRecords(buf[..3], parts);
      PayloadsOfRecords(buf[..3], parts);
      var rs := RecordsOf(buf[..3], parts);
      assert forall i :: 0 <= i < |rs| ==> rs[i].payload == parts[i];
    }
  }

  ghost predicate SomeEmpty(rs: seq<Record>) {
    exists i :: 0 <= i < |rs| && rs[i].payload == []
  }

  /** In terms of what the parser reports: a fragment is empty exactly if there are two or more of them and the
      name is empty and ends the record. */
  lemma EmptyFragmentIff(buf: bytes, sniStart: nat, sniLen: nat, records: nat)
    requires HEADER_LEN < sniStart && sniStart + sniLen <= |buf| && 5 + Get16(buf, 3) == |buf|
    ensures var cut := FindLastDotOrMidPos(buf, sniStart, sniLen);
            && HEADER_LEN < cut <= |buf| && ParseRecords(Stream(buf, cut, records)).Some? &&
            (SomeEmpty(ParseRecords(Stream(buf, cut, records)).value) <==>
             records >= 2 && sniLen == 0 && sniStart == |buf|)
  {
    var cut := FindLastDotOrMidPos(buf, sniStart, sniLen);
    CutInName(buf, sniStart, sniLen);
    StreamMeansRecord(buf, cut, records);
  }

  /** Record i carries all of the name. */
  predicate Contains(rs: seq<Record>, i: nat, sniStart: nat, sniLen: nat)
    requires i < |rs|
  {
    var from := HEADER_LEN + Start(rs, i);
    from <= sniStart && sniStart + sniLen <= from + |rs[i].payload|
  }

  /** No record reaches across the cut, so a name with the cut strictly inside is in no single record. */
  lemma NoRecordHoldsName(buf: bytes, cut: nat, records: nat, sniStart: nat, sniLen: nat, i: nat)
    requires HEADER_LEN < cut <= |buf| && 5 + Get16(buf, 3) == |buf| && records >= 2
    requires ParseRecords(Stream(buf, cut, records)).Some?
    requires i < |ParseRecords(Stream(buf, cut, records)).value|
    requires HEADER_LEN <= sniStart < cut < sniStart + sniLen <= |buf|
    ensures !Contains(ParseRecords(Stream(buf, cut, records)).value, i, sniStart, sniLen)
  {
    var left, right := Parts(buf[HEADER_LEN..cut], records / 2), Parts(buf[cut..], records - records / 2);
    ChunksFacts(buf, cut, records);
    ParseMadeRecords(buf[..3], left + right);
    PartsFacts(buf[HEADER_LEN..cut], records / 2);
    NoRecordCrosses(buf[..3], left, right, i);
  }

  /** Of records made of two lists of parts, none lies on both sides. */
  lemma NoRecordCrosses(header: bytes, left: seq<bytes>, right: seq<bytes>, i: nat)
    requires i < |left + right|
    ensures var rs := RecordsOf(header, left + right);
            if i < |left| then Start(rs, i) + |rs[i].payload| <= |Concat(left)| else Start(rs, i) >= |Concat(left)|
  {
    var parts := left + right;
    StartOfParts(header, parts, i);
    StartOfParts(header, parts, i + 1);
    UptoAppend(left, right, |left|);
    UptoAll(left);
    if i < |left| {
      UptoPrefix(parts, i + 1, |left|);
    } else {
      UptoPrefix(parts, |left|, i);
    }
  }

  lemma {:induction false} UptoAppend(a: seq<bytes>, b: seq<bytes>, i: nat)
    requires i <= |a|
    ensures Upto(a + b, i) == Upto(a, i)
  {
    if i > 0 {
      UptoAppend(a, b, i - 1);
    }
  }
}
