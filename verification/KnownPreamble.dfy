/** The first octets a browser sends on an HTTP/2 connection, and what they are fingerprinted as. */
module KnownPreamble {
  import opened Locks
  import opened Bits
  import opened Results
  import opened Texts
  import opened HuffmanCode
  import opened HeaderTables
  import opened HpackDecoder
  import opened H2Frames
  import opened H2Fields
  import opened HttpLayer
  import opened Akamai
  import Emission
  import opened HpackReading
  import opened H2Reading
  import opened RfcStrings
  import opened RfcExamples

  /** HEADER_TABLE_SIZE, ENABLE_PUSH, INITIAL_WINDOW_SIZE and MAX_HEADER_LIST_SIZE. */
  const SETTINGS_OCTETS: Bytes :=
    [0, 1, 0x00, 0x01, 0x00, 0x00] + [0, 2, 0x00, 0x00, 0x00, 0x00]
    + [0, 4, 0x00, 0x60, 0x00, 0x00] + [0, 6, 0x00, 0x04, 0x00, 0x00]

  const SETTINGS_READ := [Setting(1, 65536), Setting(2, 0), Setting(4, 6291456), Setting(6, 262144)]

  /** A GET for https://www.example.com/, in Huffman code. */
  function RequestBlock(): (r: Bytes)
    ensures |r| == 17
  {
    [0x82] + ([0x41] + ([0x8c] + WwwCode())) + [0x87] + [0x84]
  }

  const REQUEST_READ := [GET, AUTHORITY, HTTPS, ROOT]
  const ORDER_READ := Ascii("m,a,s,p")

  /** The preamble, and whatever is sent behind it. */
  function BrowserPreamble(rest: Bytes): Bytes {
    Ascii("PRI * HTTP/2.0\r\n\r\nSM\r\n\r\n")
    + ([0, 0, 24, 4, 0, 0, 0, 0, 0] + (SETTINGS_OCTETS
    + ([0, 0, 4, 8, 0, 0, 0, 0, 0] + ([0x00, 0xef, 0x00, 0x01]
    + ([0, 0, 22, 1, 0x25, 0, 0, 0, 1] + (([0x80, 0x00, 0x00, 0x00, 0xff] + RequestBlock()) + rest))))))
  }

  /** `raw` is the preamble, and `rest` behind it. */
  ghost predicate Starts(raw: Bytes, rest: Bytes) {
    forall k: int {:trigger Key(k)} :: Key(k) && k == LAYOUT ==> raw == BrowserPreamble(rest)
  }

  // ----- the frames -----

  lemma {:induction false} OneFrame(length: u8, kind: u8, flags: u8, stream: u8, payload: Bytes, tail: Bytes)
    requires |payload| == length as int
    ensures var f := Frame(kind, flags, stream, payload);
      FramesFrom([0, 0, length, kind, flags, 0, 0, 0, stream] + (payload + tail)) ==
        if kind == 1 then Ok([f]) else Prepend([f], FramesFrom(tail))
  {
    var head := [0, 0, length, kind, flags, 0, 0, 0, stream];
    var buf := head + (payload + tail);
    FrameReads(buf);
    assert buf[9..9 + |payload|] == payload && buf[9 + |payload|..] == tail;
  }

  function FramesRead(): seq<Frame> {
    [Frame(4, 0, 0, SETTINGS_OCTETS), Frame(8, 0, 0, [0x00, 0xef, 0x00, 0x01]),
     Frame(1, 0x25, 1, [0x80, 0x00, 0x00, 0x00, 0xff] + RequestBlock())]
  }

  lemma {:induction false} PrefaceOff(tail: Bytes)
    ensures var raw := Ascii("PRI * HTTP/2.0\r\n\r\nSM\r\n\r\n") + tail;
      PreambleFrames(raw) == FramesFrom(tail)
  {
    var raw := Preface() + tail;
    assert raw[..24] == Preface() && raw[24..] == tail;
  }

  lemma {:induction false} FramesAreRead(rest: Bytes)
    ensures PreambleFrames(BrowserPreamble(rest)) == Ok(FramesRead())
  {
    var update, request := [0x00, 0xef, 0x00, 0x01], [0x80, 0x00, 0x00, 0x00, 0xff] + RequestBlock();
    var third := [0, 0, 22, 1, 0x25, 0, 0, 0, 1] + (request + rest);
    var second := [0, 0, 4, 8, 0, 0, 0, 0, 0] + (update + third);
    OneFrame(22, 1, 0x25, 1, request, rest);
    OneFrame(4, 8, 0, 0, update, third);
    OneFrame(24, 4, 0, 0, SETTINGS_OCTETS, second);
    PrefaceOff([0, 0, 24, 4, 0, 0, 0, 0, 0] + (SETTINGS_OCTETS + second));
    assert [Frame(8, 0, 0, update)] + [Frame(1, 0x25, 1, request)] == FramesRead()[1..];
    assert [Frame(4, 0, 0, SETTINGS_OCTETS)] + FramesRead()[1..] == FramesRead();
  }

  // ----- the header list -----

  lemma {:induction false} RequestIsRead(tb: Tables)
    requires Codec(tb)
    ensures InRange(tb.huffman) && DecodeBlock(tb, RequestBlock()) == Ok(REQUEST_READ)
  {
    CodecIsValid(tb);
    CodecStatics(tb);
    HuffmanRequests(tb) by {
      CodecIs(tb);
    }
    ReadsNothing(tb, EMPTY);
    ThenIndexed(tb, [], EMPTY, [], EMPTY, 2, GET);
    assert [] + [0x82] == [0x82] && [] + [GET] == [GET];
    var t := Inserted(EMPTY, AUTHORITY);
    ThenNamed(tb, [0x82], EMPTY, [GET], EMPTY, 1, [0x8c] + WwwCode(), AUTHORITY, t);
    var block, hs := [0x82] + ([0x41] + ([0x8c] + WwwCode())), [GET] + [AUTHORITY];
    ThenIndexed(tb, block, EMPTY, hs, t, 7, HTTPS);
    ThenIndexed(tb, block + [0x87], EMPTY, hs + [HTTPS], t, 4, ROOT);
    assert hs + [HTTPS] + [ROOT] == REQUEST_READ;
    WholeBlock(tb, RequestBlock(), EMPTY, REQUEST_READ, t);
  }

  lemma {:induction false} HeadersAreRead(tb: Tables)
    requires Codec(tb)
    ensures InRange(tb.huffman) && HeadersOf(tb, FramesRead()) == REQUEST_READ
  {
    RequestIsRead(tb);
    var fs := FramesRead();
    FirstIsFound(fs[..2], fs[2], []);
    assert fs[..2] + [fs[2]] + [] == fs;
    assert HasFlag(0x25, 4) && HasFlag(0x25, 0x20) && !HasFlag(0x25, 8);
    assert fs[2].payload[5..22] == RequestBlock();
  }

  // ----- the fields -----

  lemma {:induction false} PairsAreRead(payload: Bytes)
    requires payload == SETTINGS_OCTETS
    ensures PairsOf(payload) == SETTINGS_READ
  {
    PairsRead(payload, 0);
    PairsRead(payload, 1);
    PairsRead(payload, 2);
    PairsRead(payload, 3);
  }

  lemma {:induction false} SettingsAreRead()
    ensures SettingsOf(FramesRead()) == SETTINGS_READ
  {
    var fs := FramesRead();
    PairsAreRead(fs[0].payload);
    Emission.SettingsFirst(fs[0], fs[1..]);
    assert [fs[0]] + fs[1..] == fs;
  }

  lemma {:induction false} OthersAreRead()
    ensures WindowUpdate(FramesRead()) == Some(15663105) && Priorities(FramesRead()) == []
  {
    var fs := FramesRead();
    WindowReads(fs[..1], fs[1], fs[2..]);
    assert fs[..1] + [fs[1]] + fs[2..] == fs;
    NoPriorities(fs);
  }

  lemma {:induction false} FirstLetter(h: Header, others: seq<Header>)
    ensures Letters([h] + others) == LetterOf(h.name) + Letters(others)
  {
    assert ([h] + others)[1..] == others;
  }

  lemma {:induction false} OrderIsRead()
    ensures PseudoOrder(REQUEST_READ) == ORDER_READ
  {
    FourNames();
    var m, a, s, p := ['m' as int], ['a' as int], ['s' as int], ['p' as int];
    FirstLetter(ROOT, []);
    FirstLetter(HTTPS, [ROOT]);
    FirstLetter(AUTHORITY, [HTTPS] + [ROOT]);
    FirstLetter(GET, [AUTHORITY] + ([HTTPS] + [ROOT]));
    assert [GET] + ([AUTHORITY] + ([HTTPS] + [ROOT])) == REQUEST_READ && [ROOT] + [] == [ROOT];
    assert [p] + [] == [p];
    assert Letters(REQUEST_READ) == [m] + ([a] + ([s] + [p]));
    JoinStep(s, [p], COMMA);
    JoinStep(a, [s] + [p], COMMA);
    JoinStep(m, [a] + ([s] + [p]), COMMA);
  }

  /** The preamble of a browser, octet by octet, is fingerprinted as these settings, this increment, no priorities, and
    * this header list in the order m, a, s, p, whatever follows it. */
  lemma {:induction false} BrowserIsFingerprinted(tb: Tables, rest: Bytes, raw: Bytes) returns (o: H2Fingerprint)
    requires Codec(tb) && Starts(raw, rest)
    ensures InRange(tb.huffman) && FingerprintOf(tb, raw) == Ok(o)
    ensures o.settings == SETTINGS_READ && o.windowUpdate == Some(15663105) && o.priorities == []
    ensures o.headers == REQUEST_READ && o.pseudoOrder == ORDER_READ
  {
    assert Key(LAYOUT);
    FramesAreRead(rest);
    HeadersAreRead(tb);
    SettingsAreRead();
    OthersAreRead();
    OrderIsRead();
    o := Assembled(SETTINGS_READ, Some(15663105), [], REQUEST_READ);
  }
}
