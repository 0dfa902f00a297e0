/** The ClientHello walk, with byte spans into the outermost buffer. */
module ClientHello {
  import opened Locks
  import opened Bits
  import opened Results
  import opened Readers

  const HANDSHAKE: u8 := 0x16
  const CLIENT_HELLO: u8 := 0x01
  const MAX_RETAINED_HELLO := 8192

  /** A byte range within the whole captured buffer. */
  datatype Span = Span(start: nat, len: nat)

  datatype RawExt = RawExt(id: u16, body: Bytes, span: Span)

  datatype RawHello = RawHello(
    legacyVersion: u16, ciphers: seq<u16>, extensions: seq<RawExt>, cipherSpan: Span, extensionsSpan: Span)

  function U16Of(s: Bytes): u16
    requires |s| == 2
  {
    BigEndianOfFew(s);
    BigEndian(s)
  }

  /** Consecutive big-endian pairs; a last odd octet is left out. */
  function U16s(s: Bytes): (r: seq<u16>)
    ensures |r| == |s| / 2
    ensures forall i :: 0 <= i < |r| ==> r[i] == 0x100 * (s[2 * i] as int) + s[2 * i + 1]
    decreases |s|
  {
    if |s| < 2 then []
    else
      BigEndianOfFew(s[|s| / 2 * 2 - 2..|s| / 2 * 2]);
      U16s(s[..|s| / 2 * 2 - 2]) + [U16Of(s[|s| / 2 * 2 - 2..|s| / 2 * 2])]
  }

  // ----- the layout, by absolute offset -----

  /** Where the TLS record ends. */
  function RecordEnd(raw: Bytes): Result<nat, ParseError> {
    if |raw| < 1 then Err(Truncated)
    else if raw[0] != HANDSHAKE then Err(NotHandshake)
    else if |raw| < 5 then Err(Truncated)
    else
      var end := 5 + BigEndian(raw[3..5]);
      if end > |raw| then Err(Truncated) else Ok(end)
  }

  /** Where the handshake message ends, in a buffer cut off at the end of the record. */
  function HandshakeEnd(s: Bytes): Result<nat, ParseError> {
    if |s| < 6 then Err(Truncated)
    else if s[5] != CLIENT_HELLO then Err(NotClientHello)
    else if |s| < 9 then Err(Truncated)
    else
      var end := 9 + BigEndian(s[6..9]);
      if end > |s| then Err(Truncated) else Ok(end)
  }

  /** The extensions from `pos` on, in a buffer cut off at the end of the extensions block. */
  function ExtensionsFrom(s: Bytes, pos: nat): Result<seq<RawExt>, ParseError>
    requires pos <= |s|
    decreases |s| - pos
  {
    if |s| - pos < 4 then Ok([])
    else
      var next := pos + 4 + BigEndian(s[pos + 2..pos + 4]);
      if next > |s| then Err(Truncated)
      else Prepend([ExtensionAt(s, pos, next)], ExtensionsFrom(s, next))
  }

  function ExtensionAt(s: Bytes, pos: nat, next: nat): RawExt
    requires pos + 4 <= next <= |s|
  {
    RawExt(U16Of(s[pos..pos + 2]), s[pos + 4..next], Span(pos, next - pos))
  }

  /** The fixed and variable parts between the handshake header and the extensions. */
  datatype Head = Head(cipherStart: nat, cipherEnd: nat, end: nat)

  /** Where the session identifier ends, behind the version and the random octets. */
  function SessionEnd(s: Bytes): (r: Result<nat, ParseError>)
    ensures r.Ok? ==> 44 <= r.value <= |s|
  {
    if |s| < 44 then Err(Truncated)
    else
      var end := 44 + (s[43] as int);
      if end > |s| then Err(Truncated) else Ok(end)
  }

  function HeadIn(s: Bytes): (r: Result<Head, ParseError>)
    ensures r.Ok? ==> 46 <= r.value.cipherStart <= r.value.cipherEnd < r.value.end <= |s|
    ensures r.Ok? ==> (r.value.cipherEnd - r.value.cipherStart) % 2 == 0
  {
    match SessionEnd(s)
    case Err(e) => Err(e)
    case Ok(session) =>
      var cipherStart := session + 2;
      if cipherStart > |s| then Err(Truncated)
      else
        var length := BigEndian(s[session..cipherStart]);
        var cipherEnd := cipherStart + length;
        if length % 2 != 0 then Err(Malformed("cipher_suites length"))
        else if cipherEnd + 1 > |s| then Err(Truncated)
        else
          var end := cipherEnd + 1 + (s[cipherEnd] as int);
          if end > |s| then Err(Truncated) else Ok(Head(cipherStart, cipherEnd, end))
  }

  /** The extensions block, which may be missing, behind the head of a message. */
  function BlockIn(s: Bytes, end: nat): Result<(seq<RawExt>, Span), ParseError>
    requires end <= |s|
  {
    if |s| - end < 2 then Ok(([], Span(end, 0)))
    else
      var total := BigEndian(s[end..end + 2]);
      if end + 2 + total > |s| then Err(Truncated)
      else
        match ExtensionsFrom(s[..end + 2 + total], end + 2)
        case Err(e) => Err(e)
        case Ok(exts) => Ok((exts, Span(end + 2, total)))
  }

  /** The message in a buffer cut off at its end. */
  function MessageIn(s: Bytes): Result<RawHello, ParseError> {
    match HeadIn(s)
    case Err(e) => Err(e)
    case Ok(h) =>
      match BlockIn(s, h.end)
      case Err(e) => Err(e)
      case Ok(block) =>
        var cipherSpan := Span(h.cipherStart, h.cipherEnd - h.cipherStart);
        Ok(RawHello(U16Of(s[9..11]), U16s(s[h.cipherStart..h.cipherEnd]), block.0, cipherSpan, block.1))
  }

  function HelloOf(raw: Bytes): Result<RawHello, ParseError> {
    var record := RecordEnd(raw);
    if record.Err? then Err(record.error)
    else
      var handshake := HandshakeEnd(raw[..record.value]);
      if handshake.Err? then Err(handshake.error) else MessageIn(raw[..handshake.value])
  }

  // ----- the nested cursors -----

  /** Reading one extension at `pos` gives `r` and leaves the cursor at `at`. */
  ghost predicate ExtensionRead(s: Bytes, pos: nat, r: Result<RawExt, ParseError>, at: nat) {
    forall k: int {:trigger Key(k)} :: Key(k) && k == EXTENSIONS_LOOP ==>
      && pos + 4 <= |s|
      && var next := pos + 4 + BigEndian(s[pos + 2..pos + 4]);
         if next > |s| then r == Err(Truncated) else r == Ok(ExtensionAt(s, pos, next)) && at == next
  }

  /** One extension; its span is taken before its id and length are read, so that it covers the whole record. */
  method ParseExtension(e: Reader, extBase: nat) returns (r: Result<RawExt, ParseError>)
    requires e.Valid() && extBase == e.base && e.At() + 4 <= |e.source|
    modifies e
    ensures e.Valid() && ExtensionRead(e.source, old(e.At()), r, e.At())
    ensures r.Ok? ==> e.At() >= old(e.At()) + 4
  {
    var start := extBase + e.pos;
    var id := e.U16();
    var len := e.U16();
    var body :- e.Take(len.value);
    var length: nat := len.value;
    return Ok(RawExt(id.value, body, Span(start, length + 4)));
  }

  /** The walk has read `front` and stands at `pos`; `whole` is what it comes to. */
  ghost predicate WalkingAt(s: Bytes, pos: nat, front: seq<RawExt>, whole: Result<seq<RawExt>, ParseError>) {
    forall k: int {:trigger Key(k)} :: Key(k) && k == EXTENSIONS_LOOP ==>
      pos <= |s| && Prepend(front, ExtensionsFrom(s, pos)) == whole
  }

  lemma {:induction false} WalkStarts(s: Bytes, pos: nat)
    requires pos <= |s|
    ensures WalkingAt(s, pos, [], ExtensionsFrom(s, pos))
  {
    PrependNothing(ExtensionsFrom(s, pos));
  }

  lemma {:induction false} WalkTurns(s: Bytes, pos: nat, front: seq<RawExt>, whole: Result<seq<RawExt>, ParseError>,
                                     r: Result<RawExt, ParseError>, at: nat)
    requires WalkingAt(s, pos, front, whole) && ExtensionRead(s, pos, r, at)
    ensures if r.Err? then whole == Err(r.error) else WalkingAt(s, at, front + [r.value], whole)
  {
    assert Key(EXTENSIONS_LOOP);
    if r.Ok? {
      PrependTwice(front, [r.value], ExtensionsFrom(s, at));
    }
  }

  lemma {:induction false} WalkEnds(s: Bytes, pos: nat, front: seq<RawExt>, whole: Result<seq<RawExt>, ParseError>)
    requires pos <= |s| < pos + 4 && WalkingAt(s, pos, front, whole)
    ensures whole == Ok(front)
  {
    assert Key(EXTENSIONS_LOOP);
    assert front + [] == front;
  }

  method ParseExtensions(e: Reader, extBase: nat) returns (r: Result<seq<RawExt>, ParseError>)
    requires e.Valid() && extBase == e.base && e.pos == 0
    modifies e
    ensures r == ExtensionsFrom(e.source, extBase)
  {
    var extensions: seq<RawExt> := [];
    ghost var s, whole := e.source, ExtensionsFrom(e.source, extBase);
    WalkStarts(s, extBase);
    while e.Remaining() >= 4
      invariant e.Valid() && WalkingAt(s, e.At(), extensions, whole)
      decreases |s| - e.At()
    {
      ghost var pos := e.At();
      var ext := ParseExtension(e, extBase);
      WalkTurns(s, pos, extensions, whole, ext, e.At());
      if ext.Err? {
        return Err(ext.error);
      }
      extensions := extensions + [ext.value];
    }
    WalkEnds(s, e.At(), extensions, whole);
    return Ok(extensions);
  }

  /** The version, behind which the random octets and the session identifier are skipped. */
  method ParseSession(c: Reader) returns (r: Result<u16, ParseError>)
    requires c.Valid() && c.base == 9 && c.pos == 0
    modifies c
    ensures c.Valid()
    ensures var end := SessionEnd(c.source);
      if end.Err? then r == Err(end.error) else c.At() == end.value && r == Ok(U16Of(c.source[9..11]))
  {
    var legacyVersion :- c.U16();
    var random :- c.Take(32);
    var sidLen :- c.U8();
    var sessionId :- c.Take(sidLen);
    return Ok(legacyVersion);
  }

  /** The fixed and variable parts of the message, up to the extensions block. */
  method ParseHead(c: Reader, hsBase: nat) returns (r: Result<(u16, seq<u16>, Span), ParseError>)
    requires c.Valid() && hsBase == c.base == 9 && c.pos == 0
    modifies c
    ensures c.Valid()
    ensures var s, h := c.source, HeadIn(c.source);
      if h.Err? then r == Err(h.error)
      else
        var start, end := h.value.cipherStart, h.value.cipherEnd;
        c.At() == h.value.end && r == Ok((U16Of(s[9..11]), U16s(s[start..end]), Span(start, end - start)))
  {
    var legacyVersion :- ParseSession(c);
    var csLen :- c.U16();
    if csLen % 2 != 0 {
      return Err(Malformed("cipher_suites length"));
    }
    var cipherSpan := Span(hsBase + c.pos, csLen);
    var csBytes :- c.Take(csLen);
    var compLen :- c.U8();
    var compression :- c.Take(compLen);
    return Ok((legacyVersion, U16s(csBytes), cipherSpan));
  }

  method ParseBlock(c: Reader, hsBase: nat) returns (r: Result<(seq<RawExt>, Span), ParseError>)
    requires c.Valid() && hsBase == c.base
    modifies c
    ensures r == BlockIn(c.source, old(c.At()))
  {
    // Fewer than two octets cannot hold a length: there is no block.
    if c.Remaining() < 2 {
      return Ok(([], Span(hsBase + c.pos, 0)));
    }
    var extTotal := c.U16();
    var extBase := hsBase + c.pos;
    ghost var s := c.source;
    var block :- c.Take(extTotal.value);
    var e := new Reader(block, s[..extBase + extTotal.value], extBase);
    var extensions :- ParseExtensions(e, extBase);
    return Ok((extensions, Span(extBase, extTotal.value)));
  }

  method ParseMessage(c: Reader, hsBase: nat) returns (r: Result<RawHello, ParseError>)
    requires c.Valid() && hsBase == c.base == 9 && c.pos == 0
    modifies c
    ensures r == MessageIn(c.source)
  {
    var head :- ParseHead(c, hsBase);
    var block :- ParseBlock(c, hsBase);
    return Ok(RawHello(head.0, head.1, block.0, head.2, block.1));
  }

  lemma CutTwice(s: Bytes, a: nat, b: nat)
    requires b <= a <= |s|
    ensures s[..a][..b] == s[..b]
  {
  }

  method ParseHello(raw: Bytes) returns (result: Result<RawHello, ParseError>)
    ensures result == HelloOf(raw)
  {
    var r := new Reader(raw, raw, 0);
    var kind :- r.U8();
    if kind != HANDSHAKE {
      return Err(NotHandshake);
    }
    var recordVersion :- r.U16();
    var recordLen :- r.U16();
    var recordBase := r.pos;
    var recordBody :- r.Take(recordLen);

    ghost var record := raw[..recordBase + recordLen];
    assert RecordEnd(raw) == Ok(|record|);
    var h := new Reader(recordBody, record, recordBase);
    var message :- ParseHandshake(h, recordBase);
    CutTwice(raw, |record|, 9 + |message.0|);
    var c := new Reader(message.0, record[..9 + |message.0|], message.1);
    result := ParseMessage(c, message.1);
  }

  /** The handshake message's octets and their offset in the captured buffer. */
  method ParseHandshake(h: Reader, recordBase: nat) returns (r: Result<(Bytes, nat), ParseError>)
    requires h.Valid() && recordBase == h.base == 5 && h.pos == 0
    modifies h
    ensures var end := HandshakeEnd(h.source);
      if end.Err? then r == Err(end.error)
      else 9 <= end.value <= |h.source| && r == Ok((h.source[9..end.value], 9))
  {
    var kind :- h.U8();
    if kind != CLIENT_HELLO {
      return Err(NotClientHello);
    }
    var hsLen :- h.U24();
    var hsBase := recordBase + h.pos;
    var message :- h.Take(hsLen);
    return Ok((message, hsBase));
  }
}
