/** parseClientHello of internal/core/tunnel.go against an encoder of ClientHello records
    (RFC 8446 sections 4.1.2, 4.2 and 5.1; server_name as in RFC 6066 section 3). */
module ClientHello {
  import opened Bytes
  import opened Collections

  const RECORD_TYPE_HANDSHAKE: byte := 0x16
  const MAJOR_VERSION: byte := 0x3
  const RECORD_HEADER_LEN: nat := 5
  const HANDSHAKE_HEADER_LEN: nat := 4
  const TYPE_CLIENT_HELLO: byte := 0x1
  const EXT_SNI: nat := 0x0000
  const EXT_SUPPORTED_VERSIONS: nat := 0x002b
  const EXT_ECH: nat := 0x00fe

  datatype Status =
    | Done
    | NotHandshakeRecord | NotStandardRecord | RecordTooLong
    | HandshakeTooShort | NotClientHello | HandshakeTooLong | HelloTooShort
    | EndAfterRandom | SessionIdTooLong | NoCipherSuites | CipherSuitesTooLong
    | NoCompression | CompressionTooLong | ExtensionsTooLong
    | ExtensionTooLong | DuplicateSni | SniTooShort | SniListMismatch
    | SniEntryTooShort | SniNameType | SniNameTooLong

  /** What the loop over the extensions has found. */
  datatype Found = Found(sniStart: int, sniLen: nat, isTLS13: bool, hasECH: bool)

  const Nothing: Found := Found(-1, 0, false, false)

  datatype Parsed = Parsed(prtVer: bytes, found: Found, status: Status)

  /** The checks on the body of a server_name extension; s carries the name found if all pass. */
  function ReadSni(data: bytes, start: nat, extLen: nat, s: Found): (Found, Status)
    requires start + extLen <= |data|
  {
    if s.sniStart != -1 then (s, DuplicateSni)
    else if extLen < 2 then (s, SniTooShort)
    else if Get16(data, start) + 2 != extLen then (s, SniListMismatch)
    else if start + 2 + 3 > start + extLen then (s, SniEntryTooShort)
    else if data[start + 2] != 0 then (s, SniNameType)
    else
      var nameLen := Get16(data, start + 3);
      if start + 5 + nameLen > start + extLen then (s, SniNameTooLong)
      else (s.(sniStart := start + 5, sniLen := nameLen), Done)
  }

  function ReadExtension(data: bytes, extType: nat, start: nat, extLen: nat, s: Found): (Found, Status)
    requires start + extLen <= |data|
  {
    if extType == EXT_SUPPORTED_VERSIONS then (s.(isTLS13 := true), Done)
    else if extType == EXT_ECH then (s.(hasECH := true), Done)
    else if extType == EXT_SNI then ReadSni(data, start, extLen, s)
    else (s, Done)
  }

  /** The extensions between offset and end. */
  function ReadExtensions(data: bytes, offset: nat, end: nat, s: Found): (Found, Status)
    requires end <= |data|
    decreases |data| - offset
  {
    if offset + 4 > end then (s, Done)
    else
      var extType, extLen := Get16(data, offset), Get16(data, offset + 2);
      if offset + 4 + extLen > end then (s, ExtensionTooLong)
      else
        var (s', status) := ReadExtension(data, extType, offset + 4, extLen, s);
        if status != Done then (s', status)
        else ReadExtensions(data, offset + 4 + extLen, end, s')
  }

  /** The extension block, which may be missing. */
  function ReadBlock(data: bytes, offset: nat): (Found, Status)
    requires offset <= |data|
  {
    if offset + 2 > |data| then (Nothing, Done)
    else
      var total := Get16(data, offset);
      if offset + 2 + total > |data| then (Nothing, ExtensionsTooLong)
      else ReadExtensions(data, offset + 2, offset + 2 + total, Nothing)
  }

  /** Session id, cipher suites and compression methods, from the end of the random. */
  function ReadFields(data: bytes, offset: nat): (Found, Status) {
    if offset >= |data| then (Nothing, EndAfterRandom)
    else
      var o1 := offset + 1 + data[offset];
      if o1 > |data| then (Nothing, SessionIdTooLong)
      else if o1 + 2 > |data| then (Nothing, NoCipherSuites)
      else
        var o2 := o1 + 2 + Get16(data, o1);
        if o2 > |data| then (Nothing, CipherSuitesTooLong)
        else if o2 >= |data| then (Nothing, NoCompression)
        else
          var o3 := o2 + 1 + data[o2];
          if o3 > |data| then (Nothing, CompressionTooLong) else ReadBlock(data, o3)
  }

  function Parse(data: bytes): Parsed
    requires |data| >= RECORD_HEADER_LEN
  {
    if data[0] != RECORD_TYPE_HANDSHAKE then Parsed([], Nothing, NotHandshakeRecord)
    else if data[1] != MAJOR_VERSION then Parsed([], Nothing, NotStandardRecord)
    else
      var recordLen := Get16(data, 3);
      if |data| < 5 + recordLen then Parsed([], Nothing, RecordTooLong)
      else if recordLen < 4 then Parsed([], Nothing, HandshakeTooShort)
      else if data[5] != TYPE_CLIENT_HELLO then Parsed([], Nothing, NotClientHello)
      else
        var handshakeLen := Get24(data, 6);
        if handshakeLen + 4 > recordLen then Parsed([], Nothing, HandshakeTooLong)
        else if handshakeLen < 2 + 32 + 1 then Parsed([], Nothing, HelloTooShort)
        else
          var (found, status) := ReadFields(data, 43);
          Parsed(data[9..11], found, status)
  }

  /** The loop of parseClientHello over the extension block. */
  method ScanExtensions(data: bytes, first: nat, extensionsEnd: nat) returns (s: Found, status: Status)
    requires first <= |data| && extensionsEnd <= |data|
    ensures (s, status) == ReadExtensions(data, first, extensionsEnd, Nothing)
  {
    var offset := first;
    s := Nothing;
    while offset + 4 <= extensionsEnd
      invariant first <= offset <= |data|
      invariant ReadExtensions(data, first, extensionsEnd, Nothing) == ReadExtensions(data, offset, extensionsEnd, s)
      decreases |data| - offset
    {
      var extType := Get16(data, offset);
      var extLen := Get16(data, offset + 2);
      var extDataStart := offset + 4;
      var extDataEnd := extDataStart + extLen;
      if extDataEnd > extensionsEnd {
        return s, ExtensionTooLong;
      }

      if extType == EXT_SUPPORTED_VERSIONS {
        s := s.(isTLS13 := true);
      } else if extType == EXT_ECH {
        s := s.(hasECH := true);
      } else if extType == EXT_SNI {
        if s.sniStart != -1 {
          return s, DuplicateSni;
        }
        if extLen < 2 {
          return s, SniTooShort;
        }
        var listLen := Get16(data, extDataStart);
        if listLen + 2 != extLen {
          return s, SniListMismatch;
        }
        var cursor := extDataStart + 2;
        if cursor + 3 > extDataEnd {
          return s, SniEntryTooShort;
        }
        var nameType := data[cursor];
        if nameType != 0 {
          return s, SniNameType;
        }
        var nameLen := Get16(data, cursor + 1);
        var nameStart := cursor + 3;
        var nameEnd := nameStart + nameLen;
        if nameEnd > extDataEnd {
          return s, SniNameTooLong;
        }
        s := s.(sniStart := nameStart, sniLen := nameLen);
      }
      offset := extDataEnd;
    }
    return s, Done;
  }

  /** No index is out of range for any input of at least five bytes. */
  method ParseClientHello(data: bytes) returns (r: Parsed)
    requires |data| >= RECORD_HEADER_LEN
    ensures r == Parse(data)
    ensures r.found.sniStart == -1 || (58 <= r.found.sniStart && r.found.sniStart + r.found.sniLen <= |data|)
  {
    ParsedSniInRange(data);
    if data[0] != RECORD_TYPE_HANDSHAKE {
      return Parsed([], Nothing, NotHandshakeRecord);
    }
    if data[1] != MAJOR_VERSION {
      return Parsed([], Nothing, NotStandardRecord);
    }
    var recordLen := Get16(data, 3);
    if |data| < RECORD_HEADER_LEN + recordLen {
      return Parsed([], Nothing, RecordTooLong);
    }
    var offset := RECORD_HEADER_LEN;

    if recordLen < HANDSHAKE_HEADER_LEN {
      return Parsed([], Nothing, HandshakeTooShort);
    }
    if data[offset] != TYPE_CLIENT_HELLO {
      return Parsed([], Nothing, NotClientHello);
    }
    var handshakeLen := Get24(data, offset + 1);
    if handshakeLen + HANDSHAKE_HEADER_LEN > recordLen {
      return Parsed([], Nothing, HandshakeTooLong);
    }
    offset := offset + HANDSHAKE_HEADER_LEN;

    if handshakeLen < 2 + 32 + 1 {
      return Parsed([], Nothing, HelloTooShort);
    }
    var prtVer := data[offset..offset + 2];
    offset := offset + 2 + 32;
    if offset >= |data| {
      return Parsed(prtVer, Nothing, EndAfterRandom);
    }
    var sessionIDLen := data[offset];
    offset := offset + 1;
    if offset + sessionIDLen > |data| {
      return Parsed(prtVer, Nothing, SessionIdTooLong);
    }
    offset := offset + sessionIDLen;

    if offset + 2 > |data| {
      return Parsed(prtVer, Nothing, NoCipherSuites);
    }
    var csLen := Get16(data, offset);
    offset := offset + 2;
    if offset + csLen > |data| {
      return Parsed(prtVer, Nothing, CipherSuitesTooLong);
    }
    offset := offset + csLen;

    if offset >= |data| {
      return Parsed(prtVer, Nothing, NoCompression);
    }
    var compMethodsLen := data[offset];
    offset := offset + 1;
    if offset + compMethodsLen > |data| {
      return Parsed(prtVer, Nothing, CompressionTooLong);
    }
    offset := offset + compMethodsLen;

    if offset + 2 > |data| {
      return Parsed(prtVer, Nothing, Done);
    }
    var extTotalLen := Get16(data, offset);
    offset := offset + 2;
    if offset + extTotalLen > |data| {
      return Parsed(prtVer, Nothing, ExtensionsTooLong);
    }
    var s, status := ScanExtensions(data, offset, offset + extTotalLen);
    r := Parsed(prtVer, s, status);
  }

  // ---- Where a name can be found ---------------------------------------------------------------

  ghost predicate SniInRange(s: Found, least: nat, end: nat) {
    s.sniStart == -1 || (least <= s.sniStart && s.sniStart + s.sniLen <= end)
  }

  lemma {:induction false} SniInBlock(data: bytes, offset: nat, end: nat, s: Found, least: nat)
    requires end <= |data| && least <= offset + 9 && SniInRange(s, least, end)
    ensures SniInRange(ReadExtensions(data, offset, end, s).0, least, end)
    decreases |data| - offset
  {
    if offset + 4 <= end {
      var extType, extLen := Get16(data, offset), Get16(data, offset + 2);
      if offset + 4 + extLen <= end {
        var (s', status) := ReadExtension(data, extType, offset + 4, extLen, s);
        if status == Done {
          SniInBlock(data, offset + 4 + extLen, end, s', least);
        }
      }
    }
  }

  /** A host name starts at byte 58 at the earliest and ends inside the data. */
  lemma ParsedSniInRange(data: bytes)
    requires |data| >= RECORD_HEADER_LEN
    ensures SniInRange(Parse(data).found, 58, |data|)
  {
    if 43 < |data| {
      var sidLen: nat := data[43];
      var o1 := 44 + sidLen;
      if o1 + 2 <= |data| {
        var o2 := o1 + 2 + Get16(data, o1);
        if o2 < |data| {
          var o3 := o2 + 1 + data[o2];
          if o3 + 2 <= |data| {
            var end := o3 + 2 + Get16(data, o3);
            if end <= |data| {
              SniInBlock(data, o3 + 2, end, Nothing, 58);
              assert ReadBlock(data, o3) == ReadExtensions(data, o3 + 2, end, Nothing);
            }
          }
        }
      }
    }
  }

  // ---- The encoder -------------------------------------------------------------------------

  /** A server_name extension lists the host name first; others are further entries. */
  datatype Ext = ServerName(host: bytes, others: bytes) | Other(typ: nat, body: bytes)

  datatype Hello = Hello(
    minor: byte,
    version: bytes,
    random: bytes,
    session: bytes,
    suites: bytes,
    compression: bytes,
    hasBlock: bool,
    exts: seq<Ext>)

  function ExtType(e: Ext): nat {
    if e.ServerName? then EXT_SNI else e.typ
  }

  function ExtBody(e: Ext): bytes {
    match e
    case ServerName(host, others) => U16(3 + |host| + |others|) + ([0] + (U16(|host|) + (host + others)))
    case Other(_, body) => body
  }

  function EncodeExt(e: Ext): bytes {
    U16(ExtType(e)) + (U16(|ExtBody(e)|) + ExtBody(e))
  }

  function EncodeExts(es: seq<Ext>): bytes {
    if es == [] then [] else EncodeExt(es[0]) + EncodeExts(es[1..])
  }

  function EncodeBlock(h: Hello): bytes {
    if h.hasBlock then U16(|EncodeExts(h.exts)|) + EncodeExts(h.exts) else []
  }

  function EncodeFields(h: Hello): bytes {
    [|h.session| % 256] + (h.session +
    (U16(|h.suites|) + (h.suites +
    ([|h.compression| % 256] + (h.compression + EncodeBlock(h))))))
  }

  function EncodeBody(h: Hello): bytes {
    h.version + (h.random + EncodeFields(h))
  }

  function Enclose(minor: byte, body: bytes): bytes {
    [RECORD_TYPE_HANDSHAKE, MAJOR_VERSION, minor] +
    (U16(4 + |body|) + ([TYPE_CLIENT_HELLO] + (U24(|body|) + body)))
  }

  /** The record a client sends: one record holding exactly one ClientHello. */
  function Encode(h: Hello): bytes {
    Enclose(h.minor, EncodeBody(h))
  }

  ghost predicate ExtOk(e: Ext) {
    |ExtBody(e)| < 65536 && (e.Other? ==> 0 < e.typ < 65536)
  }

  /** Every length fits its field. */
  ghost predicate HelloOk(h: Hello) {
    && |h.version| == 2 && |h.random| == 32
    && |h.session| < 256 && |h.suites| < 65536 && |h.compression| < 256
    && (forall i :: 0 <= i < |h.exts| ==> ExtOk(h.exts[i]))
    && (!h.hasBlock ==> h.exts == [])
    && |EncodeExts(h.exts)| < 65536
    && 4 + |EncodeBody(h)| < 65536
  }

  function Names(es: seq<Ext>): nat {
    if es == [] then 0 else (if es[0].ServerName? then 1 else 0) + Names(es[1..])
  }

  ghost predicate HasType(es: seq<Ext>, typ: nat) {
    exists i :: 0 <= i < |es| && ExtType(es[i]) == typ
  }

  /** Where extension i begins behind the first. */
  function ExtOffset(es: seq<Ext>, i: nat): nat
    requires i <= |es|
    decreases i
  {
    if i == 0 then 0 else |EncodeExt(es[0])| + ExtOffset(es[1..], i - 1)
  }

  /** Where the first extension of an encoded ClientHello begins. */
  function ExtsAt(h: Hello): nat {
    49 + |h.session| + |h.suites| + |h.compression|
  }

  /** What the loop is to find in es, which begin at position at, given what it had found before: the host
      name is where its own extension has it. */
  ghost predicate FoundIn(data: bytes, at: nat, es: seq<Ext>, before: Found, s: Found) {
    && (s.isTLS13 <==> before.isTLS13 || HasType(es, EXT_SUPPORTED_VERSIONS))
    && (s.hasECH <==> before.hasECH || HasType(es, EXT_ECH))
    && (Names(es) == 0 ==> s.sniStart == before.sniStart && s.sniLen == before.sniLen)
    && NamesFound(data, at, es, s)
  }

  ghost predicate NamesFound(data: bytes, at: nat, es: seq<Ext>, s: Found) {
    forall i :: 0 <= i < |es| && es[i].ServerName? ==> NameIs(data, at + ExtOffset(es, i) + 9, es[i].host, s)
  }

  ghost predicate NameIs(data: bytes, start: nat, host: bytes, s: Found) {
    s.sniStart == start && s.sniLen == |host| && Holds(data, start, host)
  }

  lemma {:induction false} NoNames(es: seq<Ext>)
    ensures Names(es) == 0 <==> forall i :: 0 <= i < |es| ==> es[i].Other?
  {
    if es != [] {
      NoNames(es[1..]);
      assert Names(es) == 0 ==> forall i :: 0 < i < |es| ==> es[i] == es[1..][i - 1];
    }
  }

  /** One encoded extension is read back. */
  lemma ReadEncodedExt(data: bytes, offset: nat, e: Ext, s: Found)
    requires ExtOk(e) && Holds(data, offset, EncodeExt(e))
    ensures offset + 4 + |ExtBody(e)| <= |data|
    ensures Get16(data, offset) == ExtType(e) && Get16(data, offset + 2) == |ExtBody(e)|
    ensures e.Other? ==>
              ReadExtension(data, ExtType(e), offset + 4, |ExtBody(e)|, s) ==
              (s.(isTLS13 := s.isTLS13 || ExtType(e) == EXT_SUPPORTED_VERSIONS,
                  hasECH := s.hasECH || ExtType(e) == EXT_ECH), Done)
    ensures e.ServerName? ==>
              ReadExtension(data, ExtType(e), offset + 4, |ExtBody(e)|, s) ==
              if s.sniStart != -1 then (s, DuplicateSni)
              else (s.(sniStart := offset + 9, sniLen := |e.host|), Done)
    ensures e.ServerName? ==> Holds(data, offset + 9, e.host)
  {
    var body := ExtBody(e);
    HoldsSplit(data, offset, U16(ExtType(e)), U16(|body|) + body);
    HoldsSplit(data, offset + 2, U16(|body|), body);
    Holds16(data, offset, ExtType(e));
    Holds16(data, offset + 2, |body|);
    if e.ServerName? {
      var tail := U16(|e.host|) + (e.host + e.others);
      HoldsSplit(data, offset + 4, U16(3 + |e.host| + |e.others|), [0] + tail);
      HoldsSplit(data, offset + 6, [0], tail);
      HoldsSplit(data, offset + 7, U16(|e.host|), e.host + e.others);
      HoldsSplit(data, offset + 9, e.host, e.others);
      Holds16(data, offset + 4, 3 + |e.host| + |e.others|);
      HoldsOne(data, offset + 6, 0);
      Holds16(data, offset + 7, |e.host|);
    }
  }

  /** What the loop knows after extension e, encoded at offset. */
  function After(e: Ext, offset: nat, s: Found): Found {
    if e.ServerName? then s.(sniStart := offset + 9, sniLen := |e.host|)
    else s.(isTLS13 := s.isTLS13 || ExtType(e) == EXT_SUPPORTED_VERSIONS, hasECH := s.hasECH || ExtType(e) == EXT_ECH)
  }

  /** One round of the loop over an encoded extension. */
  lemma ReadOneExt(data: bytes, offset: nat, e: Ext, end: nat, s: Found)
    requires ExtOk(e) && Holds(data, offset, EncodeExt(e)) && offset + |EncodeExt(e)| <= end <= |data|
    ensures ReadExtensions(data, offset, end, s) ==
            if e.ServerName? && s.sniStart != -1 then (s, DuplicateSni)
            else ReadExtensions(data, offset + |EncodeExt(e)|, end, After(e, offset, s))
    ensures e.ServerName? ==> Holds(data, offset + 9, e.host)
  {
    ReadEncodedExt(data, offset, e, s);
    assert |EncodeExt(e)| == 4 + |ExtBody(e)|;
  }

  /** The outcome of the loop over es when it starts from s. */
  ghost predicate Outcome(data: bytes, at: nat, es: seq<Ext>, s: Found, out: (Found, Status)) {
    if Names(es) + (if s.sniStart == -1 then 0 else 1) <= 1 then out.1 == Done && FoundIn(data, at, es, s, out.0)
    else out.1 == DuplicateSni
  }

  lemma OutcomeOfNone(data: bytes, at: nat, s: Found)
    requires s.sniStart >= -1
    ensures Outcome(data, at, [], s, (s, Done))
  {
  }

  lemma OutcomeOfDuplicate(data: bytes, at: nat, es: seq<Ext>, s: Found)
    requires es != [] && es[0].ServerName? && s.sniStart != -1
    ensures Outcome(data, at, es, s, (s, DuplicateSni))
  {
  }

  lemma OutcomeOneMore(data: bytes, offset: nat, es: seq<Ext>, s: Found, out: (Found, Status))
    requires s.sniStart >= -1 && es != [] && !(es[0].ServerName? && s.sniStart != -1)
    requires es[0].ServerName? ==> Holds(data, offset + 9, es[0].host)
    requires Outcome(data, offset + |EncodeExt(es[0])|, es[1..], After(es[0], offset, s), out)
    ensures Outcome(data, offset, es, s, out)
  {
    var e, rest := es[0], es[1..];
    assert es == [e] + rest;
    NamesCons(e, rest);
    if Names(rest) + (if After(e, offset, s).sniStart == -1 then 0 else 1) <= 1 {
      FoundOneMore(data, offset, e, rest, s, out.0);
    }
  }

  lemma SplitFirstExt(data: bytes, offset: nat, es: seq<Ext>)
    requires es != [] && Holds(data, offset, EncodeExts(es))
    ensures Holds(data, offset, EncodeExt(es[0]))
    ensures Holds(data, offset + |EncodeExt(es[0])|, EncodeExts(es[1..]))
    ensures |EncodeExts(es)| == |EncodeExt(es[0])| + |EncodeExts(es[1..])|
    ensures offset + |EncodeExts(es)| <= |data|
  {
    HoldsSplit(data, offset, EncodeExt(es[0]), EncodeExts(es[1..]));
  }

  /** What the loop is left with after es, encoded at offset. */
  function Collect(offset: nat, es: seq<Ext>, s: Found): (Found, Status)
    decreases |es|
  {
    if es == [] then (s, Done)
    else if es[0].ServerName? && s.sniStart != -1 then (s, DuplicateSni)
    else Collect(offset + |EncodeExt(es[0])|, es[1..], After(es[0], offset, s))
  }

  lemma {:induction false} ReadIsCollect(data: bytes, offset: nat, es: seq<Ext>, end: nat, s: Found)
    requires forall i :: 0 <= i < |es| ==> ExtOk(es[i])
    requires Holds(data, offset, EncodeExts(es)) && end == offset + |EncodeExts(es)|
    ensures ReadExtensions(data, offset, end, s) == Collect(offset, es, s)
    decreases |es|
  {
    if es != [] {
      SplitFirstExt(data, offset, es);
      ReadOneExt(data, offset, es[0], end, s);
      if !(es[0].ServerName? && s.sniStart != -1) {
        ReadIsCollect(data, offset + |EncodeExt(es[0])|, es[1..], end, After(es[0], offset, s));
      }
    }
  }

  lemma {:induction false} CollectOutcome(data: bytes, offset: nat, es: seq<Ext>, s: Found)
    requires s.sniStart >= -1 && forall i :: 0 <= i < |es| ==> ExtOk(es[i])
    requires Holds(data, offset, EncodeExts(es))
    ensures Outcome(data, offset, es, s, Collect(offset, es, s))
    decreases |es|
  {
    if es == [] {
      OutcomeOfNone(data, offset, s);
    } else if es[0].ServerName? && s.sniStart != -1 {
      OutcomeOfDuplicate(data, offset, es, s);
    } else {
      var next, s' := offset + |EncodeExt(es[0])|, After(es[0], offset, s);
      SplitFirstExt(data, offset, es);
      ReadEncodedExt(data, offset, es[0], s);
      CollectOutcome(data, next, es[1..], s');
      OutcomeOneMore(data, offset, es, s, Collect(next, es[1..], s'));
    }
  }

  lemma ReadEncodedExts(data: bytes, offset: nat, es: seq<Ext>, end: nat, s: Found)
    requires s.sniStart >= -1 && forall i :: 0 <= i < |es| ==> ExtOk(es[i])
    requires Holds(data, offset, EncodeExts(es)) && end == offset + |EncodeExts(es)|
    ensures Outcome(data, offset, es, s, ReadExtensions(data, offset, end, s))
  {
    ReadIsCollect(data, offset, es, end, s);
    CollectOutcome(data, offset, es, s);
  }

  lemma HasTypeCons(e: Ext, rest: seq<Ext>, typ: nat)
    ensures HasType([e] + rest, typ) <==> ExtType(e) == typ || HasType(rest, typ)
  {
    var es := [e] + rest;
    assert es[0] == e;
    if HasType(rest, typ) {
      var i :| 0 <= i < |rest| && ExtType(rest[i]) == typ;
      assert es[i + 1] == rest[i];
    }
  }

  lemma NamesCons(e: Ext, rest: seq<Ext>)
    ensures Names([e] + rest) == (if e.ServerName? then 1 else 0) + Names(rest)
  {
    assert ([e] + rest)[1..] == rest;
  }

  lemma ExtOffsetCons(e: Ext, rest: seq<Ext>, i: nat)
    requires i <= |rest|
    ensures ExtOffset([e] + rest, i + 1) == |EncodeExt(e)| + ExtOffset(rest, i)
  {
    assert ([e] + rest)[1..] == rest;
  }

  lemma FoundOneMore(data: bytes, offset: nat, e: Ext, rest: seq<Ext>, s: Found, r: Found)
    requires s.sniStart >= -1 && FoundIn(data, offset + |EncodeExt(e)|, rest, After(e, offset, s), r)
    requires Names(rest) + (if After(e, offset, s).sniStart == -1 then 0 else 1) <= 1
    requires e.ServerName? ==> s.sniStart == -1 && Holds(data, offset + 9, e.host)
    ensures FoundIn(data, offset, [e] + rest, s, r)
  {
    HasTypeCons(e, rest, EXT_SUPPORTED_VERSIONS);
    HasTypeCons(e, rest, EXT_ECH);
    NamesCons(e, rest);
    if e.ServerName? {
      assert Names(rest) == 0;
      assert NameIs(data, offset + 9, e.host, r);
    }
    NamesOneMore(data, offset, e, rest, r);
  }

  lemma NamesOneMore(data: bytes, offset: nat, e: Ext, rest: seq<Ext>, r: Found)
    requires NamesFound(data, offset + |EncodeExt(e)|, rest, r)
    requires e.ServerName? ==> NameIs(data, offset + 9, e.host, r)
    ensures NamesFound(data, offset, [e] + rest, r)
  {
    forall i | 0 <= i < |[e] + rest| && ([e] + rest)[i].ServerName?
      ensures NameIs(data, offset + ExtOffset([e] + rest, i) + 9, ([e] + rest)[i].host, r)
    {
      NameOneMore(data, offset, e, rest, r, i);
    }
  }

  lemma NameOneMore(data: bytes, offset: nat, e: Ext, rest: seq<Ext>, r: Found, i: nat)
    requires i < |[e] + rest| && ([e] + rest)[i].ServerName?
    requires NamesFound(data, offset + |EncodeExt(e)|, rest, r)
    requires e.ServerName? ==> NameIs(data, offset + 9, e.host, r)
    ensures NameIs(data, offset + ExtOffset([e] + rest, i) + 9, ([e] + rest)[i].host, r)
  {
    if i > 0 {
      ExtOffsetCons(e, rest, i - 1);
      assert ([e] + rest)[i] == rest[i - 1];
      assert NameIs(data, offset + |EncodeExt(e)| + ExtOffset(rest, i - 1) + 9, rest[i - 1].host, r);
    }
  }

  /** The fields before the extension block are walked over exactly. */
  lemma ReadEncodedFields(data: bytes, offset: nat, h: Hello)
    requires HelloOk(h) && Holds(data, offset, EncodeFields(h)) && offset + |EncodeFields(h)| == |data|
    ensures var at := offset + 4 + |h.session| + |h.suites| + |h.compression|;
            at <= |data| && Holds(data, at, EncodeBlock(h)) && at + |EncodeBlock(h)| == |data| &&
            ReadFields(data, offset) == ReadBlock(data, at)
  {
    var block := EncodeBlock(h);
    var t3 := [|h.compression| % 256] + (h.compression + block);
    var t2 := U16(|h.suites|) + (h.suites + t3);
    HoldsField8(data, offset, h.session, t2);
    HoldsField16(data, offset + 1 + |h.session|, h.suites, t3);
    HoldsField8(data, offset + 3 + |h.session| + |h.suites|, h.compression, block);
  }

  lemma ReadEncodedBlock(data: bytes, offset: nat, at: nat, h: Hello)
    requires at == offset + 2
    requires HelloOk(h) && Holds(data, offset, EncodeBlock(h)) && offset + |EncodeBlock(h)| == |data|
    ensures var (r, status) := ReadBlock(data, offset);
            if Names(h.exts) <= 1 then status == Done && FoundIn(data, at, h.exts, Nothing, r)
            else status == DuplicateSni
  {
    if h.hasBlock {
      var es := EncodeExts(h.exts);
      HoldsSplit(data, offset, U16(|es|), es);
      Holds16(data, offset, |es|);
      ReadEncodedExts(data, at, h.exts, at + |es|, Nothing);
    }
  }

  lemma HoldsWhole(data: bytes)
    ensures Holds(data, 0, data)
  {
  }

  lemma Enclosed(data: bytes, minor: byte, body: bytes)
    requires 4 + |body| < 65536 && data == Enclose(minor, body)
    ensures && |data| == 9 + |body|
            && data[0] == RECORD_TYPE_HANDSHAKE && data[1] == MAJOR_VERSION && Get16(data, 3) == 4 + |body|
            && data[5] == TYPE_CLIENT_HELLO && Get24(data, 6) == |body| && Holds(data, 9, body)
  {
    var header := [RECORD_TYPE_HANDSHAKE, MAJOR_VERSION, minor];
    var t := U24(|body|) + body;
    HoldsWhole(data);
    HoldsSplit(data, 0, header, U16(4 + |body|) + ([TYPE_CLIENT_HELLO] + t));
    assert data[0 + 0] == header[0] && data[0 + 1] == header[1];
    HoldsSplit(data, 3, U16(4 + |body|), [TYPE_CLIENT_HELLO] + t);
    Holds16(data, 3, 4 + |body|);
    HoldsSplit(data, 5, [TYPE_CLIENT_HELLO], t);
    HoldsOne(data, 5, TYPE_CLIENT_HELLO);
    HoldsSplit(data, 6, U24(|body|), body);
    Holds24(data, 6, |body|);
  }

  lemma EncodedVersion(data: bytes, h: Hello)
    requires HelloOk(h) && Holds(data, 9, EncodeBody(h))
    ensures 43 <= |data| && data[9..11] == h.version && Holds(data, 43, EncodeFields(h))
    ensures |EncodeBody(h)| == 34 + |EncodeFields(h)| >= 35
  {
    HoldsSplit(data, 9, h.version, h.random + EncodeFields(h));
    HoldsSlice(data, 9, h.version);
    HoldsSplit(data, 11, h.random, EncodeFields(h));
  }

  /** Past the two headers, the outcome is that of the fields behind the random. */
  lemma ParsePastHeaders(data: bytes)
    requires |data| >= 44 && data[0] == RECORD_TYPE_HANDSHAKE && data[1] == MAJOR_VERSION
    requires Get16(data, 3) == |data| - 5 && data[5] == TYPE_CLIENT_HELLO && Get24(data, 6) == |data| - 9
    ensures Parse(data).prtVer == data[9..11]
    ensures (Parse(data).found, Parse(data).status) == ReadFields(data, 43)
  {
  }

  lemma ReadEncodedAll(data: bytes, h: Hello)
    requires HelloOk(h) && Holds(data, 43, EncodeFields(h)) && 43 + |EncodeFields(h)| == |data|
    ensures var (r, status) := ReadFields(data, 43);
            if Names(h.exts) <= 1 then status == Done && FoundIn(data, ExtsAt(h), h.exts, Nothing, r)
            else status == DuplicateSni
  {
    ReadEncodedFields(data, 43, h);
    ReadEncodedBlock(data, 47 + |h.session| + |h.suites| + |h.compression|, ExtsAt(h), h);
  }

  /** The parser inverts the encoder: for every well-formed ClientHello it succeeds unless
      server_name is repeated, the flags say which extensions are there, and sniStart and sniLen
      delimit the host name in its own extension. */
  lemma ParseEncoded(h: Hello)
    requires HelloOk(h)
    ensures var data, p := Encode(h), Parse(Encode(h));
            && p.prtVer == h.version
            && Get16(data, 3) == |data| - 5
            && if Names(h.exts) <= 1 then p.status == Done && FoundIn(data, ExtsAt(h), h.exts, Nothing, p.found)
               else p.status == DuplicateSni
  {
    var data := Encode(h);
    Enclosed(data, h.minor, EncodeBody(h));
    EncodedVersion(data, h);
    ParsePastHeaders(data);
    ReadEncodedAll(data, h);
  }

  /** The one name of a ClientHello, in extension k, is what the parser delimits. */
  lemma ParsedName(h: Hello, k: nat)
    requires HelloOk(h) && Names(h.exts) == 1 && k < |h.exts| && h.exts[k].ServerName?
    ensures Parse(Encode(h)).status == Done
    ensures NameIs(Encode(h), ExtsAt(h) + ExtOffset(h.exts, k) + 9, h.exts[k].host, Parse(Encode(h)).found)
    ensures Get16(Encode(h), 3) == |Encode(h)| - 5
  {
    ParseEncoded(h);
  }

  lemma {:induction false} ExtsLength(es: seq<Ext>, k: nat)
    requires k < |es|
    ensures |EncodeExts(es)| == ExtOffset(es, k) + |EncodeExt(es[k])| + |EncodeExts(es[k + 1..])|
    ensures |EncodeExt(es[k])| >= 4
  {
    if k > 0 {
      ExtsLength(es[1..], k - 1);
      assert es[1..][k..] == es[k + 1..];
    }
  }

  lemma EncodedLength(h: Hello)
    requires HelloOk(h) && h.hasBlock
    ensures |Encode(h)| == ExtsAt(h) + |EncodeExts(h.exts)|
  {
  }

  /** Where the name in extension k stands in the record: within it, and at its end only if nothing follows. */
  lemma NamePlace(h: Hello, k: nat)
    requires HelloOk(h) && k < |h.exts| && h.exts[k].ServerName?
    ensures var start, host := ExtsAt(h) + ExtOffset(h.exts, k) + 9, h.exts[k].host;
            && start + |host| <= |Encode(h)|
            && (start + |host| == |Encode(h)| <==> h.exts[k].others == [] && k == |h.exts| - 1)
  {
    EncodedLength(h);
    ExtsLength(h.exts, k);
    assert |EncodeExt(h.exts[k])| == 9 + |h.exts[k].host| + |h.exts[k].others|;
    if k < |h.exts| - 1 {
      ExtsLength(h.exts[k + 1..], 0);
    }
  }
}
