/** handleTLS of internal/core/tunnel.go in its fragmenting mode: what the parser finds is what the
    splitter may cut, and the server still reads the same ClientHello. */
module Tunnel {
  import opened Wrappers
  import opened Bytes
  import C = ClientHello
  import F = Fragment

  /** The settings that decide what becomes of a ClientHello. */
  datatype Mode = TLSAlert | Direct | TLSRF

  datatype Policy = Policy(mode: Mode, tls13Only: bool, disableECHPassthrough: bool)

  /** Nothing is sent to the server, the record is sent as it is, or in fragments. */
  datatype Route = NotParsed(status: C.Status) | Blocked | Straight | Split

  /** What handleTLS decides to do with a parsed record. */
  function RouteOf(p: C.Parsed, policy: Policy, fromSNIProxy: bool): Route {
    if p.status != C.Done then NotParsed(p.status)
    else if policy.mode == TLSAlert || (policy.tls13Only && !p.found.isTLS13) then Blocked
    else if p.found.sniStart <= 0 then if fromSNIProxy then Blocked else Straight
    else if p.found.hasECH && fromSNIProxy then Blocked
    else if p.found.hasECH && !policy.disableECHPassthrough then Straight
    else if policy.mode == Direct then Straight
    else Split
  }

  /** In terms of what was encoded: which ClientHello is fragmented. */
  lemma SplitIff(h: C.Hello, policy: Policy, fromSNIProxy: bool)
    requires C.HelloOk(h)
    ensures RouteOf(C.Parse(C.Encode(h)), policy, fromSNIProxy) == Split <==>
            && C.Names(h.exts) == 1 && policy.mode == TLSRF
            && (policy.tls13Only ==> C.HasType(h.exts, C.EXT_SUPPORTED_VERSIONS))
            && (C.HasType(h.exts, C.EXT_ECH) ==> policy.disableECHPassthrough && !fromSNIProxy)
  {
    EncodedFound(h);
  }

  lemma EncodedFound(h: C.Hello)
    requires C.HelloOk(h)
    ensures var p := C.Parse(C.Encode(h));
            && (p.status == C.Done <==> C.Names(h.exts) <= 1)
            && (p.status == C.Done ==>
                  && (p.found.isTLS13 <==> C.HasType(h.exts, C.EXT_SUPPORTED_VERSIONS))
                  && (p.found.hasECH <==> C.HasType(h.exts, C.EXT_ECH))
                  && (p.found.sniStart > 0 <==> C.Names(h.exts) == 1))
  {
    C.ParseEncoded(h);
    C.NoNames(h.exts);
    if C.Names(h.exts) == 1 {
      var k :| 0 <= k < |h.exts| && h.exts[k].ServerName?;
      C.ParsedName(h, k);
    }
  }

  /** Reassembling the records a receiver got into one record. */
  function Reassemble(rs: seq<F.Record>): bytes
    requires |rs| > 0 && |rs[0].header| == 3
  {
    F.MakeRecord(rs[0].header, F.Payloads(rs))
  }

  /** The records are as many as asked for at most, and a receiver puts them together to a record that parses
      like the given one. */
  ghost predicate SameRecord(rs: seq<F.Record>, record: bytes, minorVersion: Option<byte>, records: nat)
    requires |record| >= 5
  {
    && 0 < |rs| <= (if records <= 1 then 1 else records)
    && |rs[0].header| == 3
    && Reassemble(rs) == F.Rewrite(record, minorVersion)
    && C.Parse(Reassemble(rs)) == C.Parse(record)
  }

  /** The parser does not look at the minor version of the record. */
  lemma MinorIsIgnored(data: bytes, minor: byte)
    requires |data| >= 5
    ensures C.Parse(data[2 := minor]) == C.Parse(data)
  {
    var data' := data[2 := minor];
    assert forall i :: 0 <= i < |data| && i != 2 ==> data'[i] == data[i];
    if |data| >= 43 {
      FieldsIgnorePrefix(data, data', 43);
      assert data'[9..11] == data[9..11];
    }
  }

  lemma FieldsIgnorePrefix(data: bytes, data': bytes, offset: nat)
    requires |data| == |data'| && offset <= |data| && forall i :: offset <= i < |data| ==> data'[i] == data[i]
    ensures C.ReadFields(data', offset) == C.ReadFields(data, offset)
  {
    if offset < |data| {
      var o1 := offset + 1 + data[offset] as int;
      if o1 + 2 <= |data| {
        var o2 := o1 + 2 + Get16(data, o1);
        if o2 < |data| {
          var o3 := o2 + 1 + data[o2] as int;
          if o3 + 2 <= |data| {
            var end := o3 + 2 + Get16(data, o3);
            if end <= |data| {
              ExtensionsIgnorePrefix(data, data', o3 + 2, end, C.Nothing);
            }
          }
        }
      }
    }
  }

  lemma {:induction false} ExtensionsIgnorePrefix(data: bytes, data': bytes, offset: nat, end: nat, s: C.Found)
    requires |data| == |data'| && end <= |data| && forall i :: offset <= i < |data| ==> data'[i] == data[i]
    ensures C.ReadExtensions(data', offset, end, s) == C.ReadExtensions(data, offset, end, s)
    decreases |data| - offset
  {
    if offset + 4 <= end {
      var extType, extLen := Get16(data, offset), Get16(data, offset + 2);
      if offset + 4 + extLen <= end {
        var (s', status) := C.ReadExtension(data, extType, offset + 4, extLen, s);
        assert C.ReadExtension(data', extType, offset + 4, extLen, s) == (s', status);
        if status == C.Done {
          ExtensionsIgnorePrefix(data, data', offset + 4 + extLen, end, s');
        }
      }
    }
  }

  /** Whatever the settings, the records of the stream reassemble into a record that parses like the
      original one. */
  lemma SameHello(record: bytes, buf: bytes, minorVersion: Option<byte>, cut: nat, records: nat)
    requires |record| >= 5 && 5 + Get16(record, 3) == |record| && buf == F.Rewrite(record, minorVersion)
    requires 58 <= cut <= |record|
    ensures F.ParseRecords(F.Stream(buf, cut, records)).Some?
    ensures SameRecord(F.ParseRecords(F.Stream(buf, cut, records)).value, record, minorVersion, records)
  {
    assert Get16(buf, 3) == Get16(record, 3);
    F.StreamMeansRecord(buf, cut, records);
    F.WholeRecord(buf);
    if minorVersion.Some? {
      MinorIsIgnored(record, minorVersion.value);
    }
  }

  /** The records carry the given one: the receiver reads the same ClientHello, no fragment is empty unless an
      empty name ends the record, and no fragment has all of a name that can be cut. */
  ghost predicate Carry(rs: seq<F.Record>, record: bytes, found: C.Found, minorVersion: Option<byte>, records: nat) {
    && |record| >= 5 && 0 <= found.sniStart && found.sniStart + found.sniLen <= |record|
    && SameRecord(rs, record, minorVersion, records)
    && EmptyOnlyAtEnd(rs, found, |record|, records)
    && (records >= 2 && F.CanBeCut(record[found.sniStart..found.sniStart + found.sniLen]) ==> NameIsCut(rs, found))
  }

  ghost predicate EmptyOnlyAtEnd(rs: seq<F.Record>, found: C.Found, end: nat, records: nat) {
    F.SomeEmpty(rs) <==> records >= 2 && found.sniLen == 0 && found.sniStart == end
  }

  ghost predicate NameIsCut(rs: seq<F.Record>, found: C.Found)
    requires found.sniStart >= 0
  {
    forall i :: 0 <= i < |rs| ==> !F.Contains(rs, i, found.sniStart, found.sniLen)
  }

  /** The stream on a connection parses as records that carry the given one. */
  ghost predicate Refragmented(log: seq<F.Segment>, record: bytes, found: C.Found, minorVersion: Option<byte>,
                               records: nat)
  {
    F.ParseRecords(F.InBand(log)).Some? &&
    Carry(F.ParseRecords(F.InBand(log)).value, record, found, minorVersion, records)
  }

  lemma StreamCutsName(buf: bytes, found: C.Found, cut: nat, records: nat)
    requires |buf| >= 5 && 5 + Get16(buf, 3) == |buf| && records >= 2
    requires 58 <= found.sniStart < cut < found.sniStart + found.sniLen <= |buf|
    ensures F.ParseRecords(F.Stream(buf, cut, records)).Some?
    ensures NameIsCut(F.ParseRecords(F.Stream(buf, cut, records)).value, found)
  {
    F.StreamMeansRecord(buf, cut, records);
    forall i | 0 <= i < |F.ParseRecords(F.Stream(buf, cut, records)).value|
      ensures !F.Contains(F.ParseRecords(F.Stream(buf, cut, records)).value, i, found.sniStart, found.sniLen)
    {
      F.NoRecordHoldsName(buf, cut, records, found.sniStart, found.sniLen, i);
    }
  }

  lemma RewriteKeeps(record: bytes, minorVersion: Option<byte>, from: nat, to: nat)
    requires |record| >= 5 && 5 <= from <= to <= |record|
    ensures var buf := F.Rewrite(record, minorVersion);
            |buf| == |record| && Get16(buf, 3) == Get16(record, 3) && buf[from..to] == record[from..to]
  {
  }

  /** What the fragments of a record are like, in terms of the record that is cut. */
  lemma StreamFragments(buf: bytes, found: C.Found, cut: nat, records: nat)
    requires |buf| >= 5 && 5 + Get16(buf, 3) == |buf|
    requires 58 <= found.sniStart && found.sniStart + found.sniLen <= |buf|
    requires cut == F.FindLastDotOrMidPos(buf, found.sniStart, found.sniLen) && 58 <= cut <= |buf|
    ensures F.ParseRecords(F.Stream(buf, cut, records)).Some?
    ensures var rs := F.ParseRecords(F.Stream(buf, cut, records)).value;
            && EmptyOnlyAtEnd(rs, found, |buf|, records)
            && (records >= 2 && F.CanBeCut(buf[found.sniStart..found.sniStart + found.sniLen]) ==> NameIsCut(rs, found))
  {
    F.EmptyFragmentIff(buf, found.sniStart, found.sniLen, records);
    F.CutInName(buf, found.sniStart, found.sniLen);
    if records >= 2 && F.CanBeCut(buf[found.sniStart..found.sniStart + found.sniLen]) {
      StreamCutsName(buf, found, cut, records);
    }
  }

  lemma StreamCarries(record: bytes, found: C.Found, minorVersion: Option<byte>, records: nat, buf: bytes, cut: nat)
    requires |record| >= 5 && 5 + Get16(record, 3) == |record| && buf == F.Rewrite(record, minorVersion)
    requires 58 <= found.sniStart && found.sniStart + found.sniLen <= |record| == |buf|
    requires cut == F.FindLastDotOrMidPos(buf, found.sniStart, found.sniLen) && 58 <= cut <= |buf|
    ensures F.ParseRecords(F.Stream(buf, cut, records)).Some?
    ensures Carry(F.ParseRecords(F.Stream(buf, cut, records)).value, record, found, minorVersion, records)
  {
    RewriteKeeps(record, minorVersion, found.sniStart, found.sniStart + found.sniLen);
    SameHello(record, buf, minorVersion, cut, records);
    StreamFragments(buf, found, cut, records);
  }

  /** The record of exactly 5 + length bytes that handleTLS has read is parsed, and then refused, sent as it is
      or sent in fragments. A connection that lasts makes every send succeed, but for the panic. */
  method ForwardClientHello(conn: F.Conn, record: array<byte>, policy: Policy, fromSNIProxy: bool, records: nat,
                            segments: int, minorVersion: Option<byte>, oob: bool, oobex: bool, waitForAck: bool)
    returns (route: Route, r: F.Result)
    requires conn.log == [] && record.Length >= 5 && 5 + Get16(record[..], 3) == record.Length
    modifies conn, record
    ensures route == RouteOf(C.Parse(old(record[..])), policy, fromSNIProxy)
    ensures route.NotParsed? || route.Blocked? ==> conn.log == [] && r == F.Done
    ensures route.Straight? ==> r != F.Panic && (r == F.Done ==> F.InBand(conn.log) == old(record[..]))
    ensures route.Split? && r == F.Done ==>
              F.Handled(records, if segments == 0 then 1 else segments) && !(oob && oobex) ==>
              Refragmented(conn.log, old(record[..]), C.Parse(old(record[..])).found, minorVersion, records)
    ensures old(conn.Lasts(F.MostWrites(records, segments), waitForAck)) ==>
              r == if route.Split? && records < 2 && segments < 0 then F.Panic else F.Done
  {
    ghost var original := record[..];
    var p := C.ParseClientHello(record[..]);
    if p.status != C.Done {
      return NotParsed(p.status), F.Done;
    }
    if policy.mode == TLSAlert || (policy.tls13Only && !p.found.isTLS13) {
      return Blocked, F.Done;
    }
    var mode := policy.mode;
    if p.found.sniStart <= 0 {
      if fromSNIProxy {
        return Blocked, F.Done;
      }
      mode := Direct;
    } else if p.found.hasECH {
      if fromSNIProxy {
        return Blocked, F.Done;
      }
      if !policy.disableECHPassthrough {
        mode := Direct;
      }
    }
    if mode == Direct {
      F.InBandAppend([], F.Segment(original, None));
      var ok := conn.Write(record[..]);
      return Straight, if ok then F.Done else F.IoError;
    }
    var sniStart: nat, sniLen := p.found.sniStart, p.found.sniLen;
    F.CutInName(F.Rewrite(original, minorVersion), sniStart, sniLen);
    r := F.SendRecords(conn, record, sniStart, sniLen, records, segments, minorVersion, oob, oobex, waitForAck);
    ghost var cut := F.FindLastDotOrMidPos(record[..], sniStart, sniLen);
    StreamCarries(original, p.found, minorVersion, records, record[..], cut);
    return Split, r;
  }

  // ---- An empty fragment is sent -------------------------------------------------------------

  /** In terms of what was encoded: some fragment of a ClientHello is empty exactly if the host name is empty
      and nothing follows it, neither in its extension nor behind. */
  lemma EmptyFragmentOfHello(h: C.Hello, k: nat, records: nat)
    requires C.HelloOk(h) && C.Names(h.exts) == 1 && k < |h.exts| && h.exts[k].ServerName?
    ensures var data, found := C.Encode(h), C.Parse(C.Encode(h)).found;
            && 58 <= found.sniStart && found.sniStart + found.sniLen <= |data|
            && var cut := F.FindLastDotOrMidPos(data, found.sniStart, found.sniLen);
            && 58 <= cut <= |data| && F.ParseRecords(F.Stream(data, cut, records)).Some?
            && (F.SomeEmpty(F.ParseRecords(F.Stream(data, cut, records)).value) <==>
                records >= 2 && h.exts[k].host == [] && h.exts[k].others == [] && k == |h.exts| - 1)
  {
    C.ParsedName(h, k);
    C.NamePlace(h, k);
    var data, found := C.Encode(h), C.Parse(C.Encode(h)).found;
    F.CutInName(data, found.sniStart, found.sniLen);
    F.EmptyFragmentIff(data, found.sniStart, found.sniLen, records);
  }

  /** Such a ClientHello exists: its last extension names a host of no bytes, it parses, and one of the two
      records it is sent in has no payload. */
  lemma EmptyFragmentIsSent()
    ensures var h := C.Hello(1, [3, 3], seq(32, _ => 0), [], [], [], true, [C.ServerName([], [])]);
            && C.HelloOk(h) && C.Parse(C.Encode(h)).status == C.Done
            && var data, found := C.Encode(h), C.Parse(C.Encode(h)).found;
            && 58 <= found.sniStart && found.sniStart + found.sniLen <= |data|
            && var cut := F.FindLastDotOrMidPos(data, found.sniStart, found.sniLen);
            && 58 <= cut <= |data| && F.ParseRecords(F.Stream(data, cut, 2)).Some?
            && F.SomeEmpty(F.ParseRecords(F.Stream(data, cut, 2)).value)
  {
    var e := C.ServerName([], []);
    var h := C.Hello(1, [3, 3], seq(32, _ => 0), [], [], [], true, [e]);
    assert |C.ExtBody(e)| == 5 && C.EncodeExts([e]) == C.EncodeExt(e) + C.EncodeExts([]);
    assert C.Names([e]) == 1;
    C.ParsedName(h, 0);
    EmptyFragmentOfHello(h, 0, 2);
  }
}
