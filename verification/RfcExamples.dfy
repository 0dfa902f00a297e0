/** The examples of Appendix C of RFC 7541, from the octets to the header lists. */
module RfcExamples {
  import opened Locks
  import opened Bits
  import opened Results
  import opened HuffmanCode
  import opened HuffmanTable
  import opened Texts
  import opened HeaderTables
  import opened HpackDecoder
  import opened HpackEncoder
  import opened TextHeaders
  import opened HpackReading
  import opened RfcTables
  import opened StaticEntries
  import opened RfcStrings

  // ----- what is sent -----

  /** C.3.1 and C.4.1, with the value of `:authority` as it is sent. */
  function Request1(authority: Bytes): Bytes {
    [0x82] + [0x86] + [0x84] + ([0x41] + authority)
  }

  /** C.3.2 and C.4.2. */
  function Request2(cacheControl: Bytes): Bytes {
    [0x82] + [0x86] + [0x84] + [0xbe] + ([0x58] + cacheControl)
  }

  /** C.3.3 and C.4.3. */
  function Request3(name: Bytes, value: Bytes): Bytes {
    [0x82] + [0x87] + [0x85] + [0xbf] + ([0x40] + (name + value))
  }

  /** C.5.1 and C.6.1. */
  function Response1(status: Bytes, cacheControl: Bytes, date: Bytes, location: Bytes): Bytes {
    [0x48] + status + ([0x58] + cacheControl) + ([0x61] + date) + ([0x6e] + location)
  }

  /** C.5.2 and C.6.2. */
  function Response2(status: Bytes): Bytes {
    [0x48] + status + [0xc1] + [0xc0] + [0xbf]
  }

  /** C.5.3 and C.6.3. */
  function Response3(date: Bytes, encoding: Bytes, cookie: Bytes): Bytes {
    [0x88] + [0xc1] + ([0x61] + date) + [0xc0] + ([0x5a] + encoding) + ([0x77] + cookie)
  }

  // ----- what it stands for -----

  const AUTHORITY := Header(Ascii(":authority"), Www())
  const NO_CACHE := Header(Ascii("cache-control"), NoCache())
  const CUSTOM := Header(CustomKey(), CustomValue())
  const GET := Header(Ascii(":method"), Ascii("GET"))
  const HTTP := Header(Ascii(":scheme"), Ascii("http"))
  const HTTPS := Header(Ascii(":scheme"), Ascii("https"))
  const ROOT := Header(Ascii(":path"), Ascii("/"))
  const INDEX := Header(Ascii(":path"), Ascii("/index.html"))

  const STATUS_200 := Header(Ascii(":status"), Ascii("200"))
  const STATUS_302 := Header(Ascii(":status"), Found())
  const STATUS_307 := Header(Ascii(":status"), Redirect())
  const PRIVATE_CACHE := Header(Ascii("cache-control"), Private())
  const DATE_21 := Header(Ascii("date"), Date21())
  const DATE_22 := Header(Ascii("date"), Date22())
  const LOCATION_WWW := Header(Ascii("location"), Location())
  const GZIP_ENCODING := Header(Ascii("content-encoding"), Gzip())
  const SET_COOKIE := Header(Ascii("set-cookie"), Cookie())

  const REQUEST_1 := [GET, HTTP, ROOT, AUTHORITY]
  const REQUEST_2 := [GET, HTTP, ROOT, AUTHORITY, NO_CACHE]
  const REQUEST_3 := [GET, HTTPS, INDEX, AUTHORITY, CUSTOM]

  const RESPONSE_1 := [STATUS_302, PRIVATE_CACHE, DATE_21, LOCATION_WWW]
  const RESPONSE_2 := [STATUS_307, PRIVATE_CACHE, DATE_21, LOCATION_WWW]
  const RESPONSE_3 := [STATUS_200, PRIVATE_CACHE, DATE_22, LOCATION_WWW, GZIP_ENCODING, SET_COOKIE]

  // ----- how it is read -----

  /** The codec's own tables, and a conversion that leaves text alone. */
  ghost predicate Codec(tb: Tables) {
    forall k: int {:trigger Key(k)} :: Key(k) && k == MESSAGE ==>
      tb.huffman == HUFFMAN && tb.statics == StaticTable() && Converts(tb.lossy)
  }

  lemma {:induction false} CodecIs(tb: Tables)
    requires Codec(tb)
    ensures tb.huffman == HUFFMAN && tb.statics == StaticTable() && Converts(tb.lossy)
  {
    assert Key(MESSAGE);
  }

  lemma {:induction false} CodecIsValid(tb: Tables)
    requires Codec(tb)
    ensures InRange(tb.huffman) && Valid(tb)
  {
    CodecIs(tb);
    CodecTablesAreValid(tb);
    RfcTableIsCode();
  }

  lemma {:induction false} CodecStatics(tb: Tables)
    requires Codec(tb)
    ensures RequestStatics(tb.statics) && ResponseStatics(tb.statics)
  {
    CodecIs(tb);
    RequestStaticsAre(tb.statics);
    ResponseStaticsAre(tb.statics);
  }

  /** The static entries the requests use. */
  ghost predicate RequestStatics(s: seq<Header>) {
    && IsAt(s, 1, Ascii(":authority"), []) && IsAt(s, 2, Ascii(":method"), Ascii("GET"))
    && IsAt(s, 4, Ascii(":path"), Ascii("/")) && IsAt(s, 5, Ascii(":path"), Ascii("/index.html"))
    && IsAt(s, 6, Ascii(":scheme"), Ascii("http")) && IsAt(s, 7, Ascii(":scheme"), Ascii("https"))
    && IsAt(s, 24, Ascii("cache-control"), []) && |s| == 61
  }

  lemma {:induction false} RequestStaticsAre(s: seq<Header>)
    requires s == StaticTable()
    ensures RequestStatics(s)
  {
    StaticParts(s);
    Statics1To8(s);
    Statics17To24(s);
    assert Ascii("") == [];
  }

  lemma {:induction false} Request1Reads(tb: Tables, authority: Bytes) returns (t: Table)
    requires InRange(tb.huffman) && RequestStatics(tb.statics) && IsString(tb, authority, Www())
    ensures Reads(tb, Request1(authority), EMPTY, REQUEST_1, t) && Holding(t, [AUTHORITY], 57, 4096)
  {
    ReadsNothing(tb, EMPTY);
    ThenIndexed(tb, [], EMPTY, [], EMPTY, 2, GET);
    assert [] + [0x82] == [0x82] && [] + [GET] == [GET];
    ThenIndexed(tb, [0x82], EMPTY, [GET], EMPTY, 6, HTTP);
    ThenIndexed(tb, [0x82] + [0x86], EMPTY, [GET] + [HTTP], EMPTY, 4, ROOT);
    t := Inserted(EMPTY, AUTHORITY);
    ThenNamed(tb, [0x82] + [0x86] + [0x84], EMPTY, [GET] + [HTTP] + [ROOT], EMPTY, 1, authority, AUTHORITY, t);
    Added(EMPTY, [], 0, 4096, AUTHORITY);
    assert [GET] + [HTTP] + [ROOT] + [AUTHORITY] == REQUEST_1;
  }

  lemma {:induction false} Request2Reads(tb: Tables, cacheControl: Bytes, t: Table) returns (next: Table)
    requires InRange(tb.huffman) && RequestStatics(tb.statics) && IsString(tb, cacheControl, NoCache())
    requires Holding(t, [AUTHORITY], 57, 4096)
    ensures Reads(tb, Request2(cacheControl), t, REQUEST_2, next) && Holding(next, [NO_CACHE, AUTHORITY], 110, 4096)
  {
    ReadsNothing(tb, t);
    ThenIndexed(tb, [], t, [], t, 2, GET);
    assert [] + [0x82] == [0x82] && [] + [GET] == [GET];
    ThenIndexed(tb, [0x82], t, [GET], t, 6, HTTP);
    ThenIndexed(tb, [0x82] + [0x86], t, [GET] + [HTTP], t, 4, ROOT);
    var block, hs := [0x82] + [0x86] + [0x84], [GET] + [HTTP] + [ROOT];
    ThenIndexed(tb, block, t, hs, t, 62, AUTHORITY);
    next := Inserted(t, NO_CACHE);
    ThenNamed(tb, block + [0xbe], t, hs + [AUTHORITY], t, 24, cacheControl, NO_CACHE, next);
    Added(t, [AUTHORITY], 57, 4096, NO_CACHE);
    assert [NO_CACHE] + [AUTHORITY] == [NO_CACHE, AUTHORITY];
    assert hs + [AUTHORITY] + [NO_CACHE] == REQUEST_2;
  }

  lemma {:induction false} Request3Reads(tb: Tables, name: Bytes, value: Bytes, t: Table) returns (next: Table)
    requires InRange(tb.huffman) && RequestStatics(tb.statics)
    requires IsString(tb, name, CustomKey()) && IsString(tb, value, CustomValue())
    requires Holding(t, [NO_CACHE, AUTHORITY], 110, 4096)
    ensures Reads(tb, Request3(name, value), t, REQUEST_3, next)
    ensures Holding(next, [CUSTOM, NO_CACHE, AUTHORITY], 164, 4096)
  {
    ReadsNothing(tb, t);
    ThenIndexed(tb, [], t, [], t, 2, GET);
    assert [] + [0x82] == [0x82] && [] + [GET] == [GET];
    ThenIndexed(tb, [0x82], t, [GET], t, 7, HTTPS);
    ThenIndexed(tb, [0x82] + [0x87], t, [GET] + [HTTPS], t, 5, INDEX);
    var block, hs := [0x82] + [0x87] + [0x85], [GET] + [HTTPS] + [INDEX];
    ThenIndexed(tb, block, t, hs, t, 63, AUTHORITY);
    next := Inserted(t, CUSTOM);
    InlineDoes(tb, name, CustomKey(), value, CustomValue(), t);
    OneMore(tb, block + [0xbf], t, hs + [AUTHORITY], t, [0x40] + (name + value), Some(CUSTOM), next);
    Added(t, [NO_CACHE, AUTHORITY], 110, 4096, CUSTOM);
    assert [CUSTOM] + [NO_CACHE, AUTHORITY] == [CUSTOM, NO_CACHE, AUTHORITY];
    assert hs + [AUTHORITY] + [CUSTOM] == REQUEST_3;
  }

  /** The three requests behind one another, as one block. */
  lemma {:induction false} RequestsRead(tb: Tables, authority: Bytes, cacheControl: Bytes, name: Bytes, value: Bytes)
    requires InRange(tb.huffman) && RequestStatics(tb.statics)
    requires IsString(tb, authority, Www()) && IsString(tb, cacheControl, NoCache())
    requires IsString(tb, name, CustomKey()) && IsString(tb, value, CustomValue())
    ensures DecodeBlock(tb, Request1(authority)) == Ok(REQUEST_1)
    ensures DecodeBlock(tb, Request1(authority) + Request2(cacheControl)) == Ok(REQUEST_1 + REQUEST_2)
    ensures DecodeBlock(tb, Request1(authority) + Request2(cacheControl) + Request3(name, value)) ==
      Ok(REQUEST_1 + REQUEST_2 + REQUEST_3)
  {
    var a, b, c := Request1(authority), Request2(cacheControl), Request3(name, value);
    var t1 := Request1Reads(tb, authority);
    var t2 := Request2Reads(tb, cacheControl, t1);
    var t3 := Request3Reads(tb, name, value, t2);
    BlockMore(tb, a, EMPTY, REQUEST_1, t1, b, REQUEST_2, t2);
    BlockMore(tb, a + b, EMPTY, REQUEST_1 + REQUEST_2, t2, c, REQUEST_3, t3);
    WholeBlock(tb, a, EMPTY, REQUEST_1, t1);
    WholeBlock(tb, a + b, EMPTY, REQUEST_1 + REQUEST_2, t2);
    WholeBlock(tb, a + b + c, EMPTY, REQUEST_1 + REQUEST_2 + REQUEST_3, t3);
  }

  // ----- the responses, with a table of 256 octets -----

  /** The static entries the responses use. */
  ghost predicate ResponseStatics(s: seq<Header>) {
    && IsAt(s, 8, Ascii(":status"), Ascii("200")) && IsAt(s, 24, Ascii("cache-control"), [])
    && IsAt(s, 26, Ascii("content-encoding"), []) && IsAt(s, 33, Ascii("date"), [])
    && IsAt(s, 46, Ascii("location"), []) && IsAt(s, 55, Ascii("set-cookie"), []) && |s| == 61
  }

  lemma {:induction false} ResponseStaticsAre(s: seq<Header>)
    requires s == StaticTable()
    ensures ResponseStatics(s)
  {
    StaticParts(s);
    Statics1To8(s);
    Statics17To24(s);
    Statics25To32(s);
    Statics33To40(s);
    Statics41To48(s);
    Statics49To56(s);
    assert Ascii("") == [];
  }

  lemma {:induction false} Costs()
    ensures Cost(STATUS_302) == 42 && Cost(STATUS_307) == 42 && Cost(PRIVATE_CACHE) == 52
    ensures Cost(DATE_21) == 65 && Cost(DATE_22) == 65 && Cost(LOCATION_WWW) == 63
    ensures Cost(GZIP_ENCODING) == 52 && Cost(SET_COOKIE) == 98
  {
  }

  lemma {:induction false} Response1Reads(tb: Tables, status: Bytes, cacheControl: Bytes, date: Bytes, location: Bytes,
                                          t: Table) returns (next: Table)
    requires InRange(tb.huffman) && ResponseStatics(tb.statics) && Holding(t, [], 0, 256)
    requires IsString(tb, status, Found()) && IsString(tb, cacheControl, Private())
    requires IsString(tb, date, Date21()) && IsString(tb, location, Location())
    ensures Reads(tb, Response1(status, cacheControl, date, location), t, RESPONSE_1, next)
    ensures Holding(next, [LOCATION_WWW, DATE_21, PRIVATE_CACHE, STATUS_302], 222, 256)
  {
    Costs();
    ReadsNothing(tb, t);
    var t1 := Inserted(t, STATUS_302);
    ThenNamed(tb, [], t, [], t, 8, status, STATUS_302, t1);
    assert [] + ([0x48] + status) == [0x48] + status && [] + [STATUS_302] == [STATUS_302];
    Added(t, [], 0, 256, STATUS_302);
    var block, hs := [0x48] + status, [STATUS_302];
    var t2 := Inserted(t1, PRIVATE_CACHE);
    ThenNamed(tb, block, t, hs, t1, 24, cacheControl, PRIVATE_CACHE, t2);
    Added(t1, [STATUS_302], 42, 256, PRIVATE_CACHE);
    block, hs := block + ([0x58] + cacheControl), hs + [PRIVATE_CACHE];
    var t3 := Inserted(t2, DATE_21);
    ThenNamed(tb, block, t, hs, t2, 33, date, DATE_21, t3);
    Added(t2, [PRIVATE_CACHE] + [STATUS_302], 94, 256, DATE_21);
    block, hs := block + ([0x61] + date), hs + [DATE_21];
    next := Inserted(t3, LOCATION_WWW);
    ThenNamed(tb, block, t, hs, t3, 46, location, LOCATION_WWW, next);
    Added(t3, [DATE_21] + ([PRIVATE_CACHE] + [STATUS_302]), 159, 256, LOCATION_WWW);
    assert hs + [LOCATION_WWW] == RESPONSE_1;
    assert [LOCATION_WWW] + ([DATE_21] + ([PRIVATE_CACHE] + [STATUS_302]))
      == [LOCATION_WWW, DATE_21, PRIVATE_CACHE, STATUS_302];
  }

  lemma {:induction false} Response2Reads(tb: Tables, status: Bytes, t: Table) returns (next: Table)
    requires InRange(tb.huffman) && ResponseStatics(tb.statics) && IsString(tb, status, Redirect())
    requires Holding(t, [LOCATION_WWW, DATE_21, PRIVATE_CACHE, STATUS_302], 222, 256)
    ensures Reads(tb, Response2(status), t, RESPONSE_2, next)
    ensures Holding(next, [STATUS_307, LOCATION_WWW, DATE_21, PRIVATE_CACHE], 222, 256)
  {
    Costs();
    ReadsNothing(tb, t);
    next := Inserted(t, STATUS_307);
    ThenNamed(tb, [], t, [], t, 8, status, STATUS_307, next);
    assert [] + ([0x48] + status) == [0x48] + status && [] + [STATUS_307] == [STATUS_307];
    MakesRoom(t, [LOCATION_WWW, DATE_21, PRIVATE_CACHE], STATUS_302, 222, STATUS_307);
    assert [STATUS_307] + [LOCATION_WWW, DATE_21, PRIVATE_CACHE] == [STATUS_307, LOCATION_WWW, DATE_21, PRIVATE_CACHE];
    var block, hs := [0x48] + status, [STATUS_307];
    ThenIndexed(tb, block, t, hs, next, 65, PRIVATE_CACHE);
    ThenIndexed(tb, block + [0xc1], t, hs + [PRIVATE_CACHE], next, 64, DATE_21);
    ThenIndexed(tb, block + [0xc1] + [0xc0], t, hs + [PRIVATE_CACHE] + [DATE_21], next, 63, LOCATION_WWW);
    assert hs + [PRIVATE_CACHE] + [DATE_21] + [LOCATION_WWW] == RESPONSE_2;
  }

  /** One entry makes room for another. */
  lemma {:induction false} MakesRoom(t: Table, kept: seq<Header>, oldest: Header, size: nat, h: Header)
    requires Holding(t, kept + [oldest], size, 256) && Cost(oldest) <= size
    requires size + Cost(h) - Cost(oldest) <= 256 < size + Cost(h)
    ensures Holding(Inserted(t, h), [h] + kept, size + Cost(h) - Cost(oldest), 256)
  {
    assert [oldest][..0] == [];
    assert SizeOf([oldest]) == Cost(oldest);
    AddedForOldest(t, kept, [oldest], size, 256, h);
  }

  lemma {:induction false} Response3Starts(tb: Tables, date: Bytes, t: Table) returns (next: Table)
    requires InRange(tb.huffman) && ResponseStatics(tb.statics) && IsString(tb, date, Date22())
    requires Holding(t, [STATUS_307, LOCATION_WWW, DATE_21, PRIVATE_CACHE], 222, 256)
    ensures Reads(tb, [0x88] + [0xc1] + ([0x61] + date) + [0xc0], t,
                  [STATUS_200] + [PRIVATE_CACHE] + [DATE_22] + [LOCATION_WWW], next)
    ensures Holding(next, [DATE_22, STATUS_307, LOCATION_WWW, DATE_21], 235, 256)
  {
    Costs();
    ReadsNothing(tb, t);
    ThenIndexed(tb, [], t, [], t, 8, STATUS_200);
    assert [] + [0x88] == [0x88] && [] + [STATUS_200] == [STATUS_200];
    ThenIndexed(tb, [0x88], t, [STATUS_200], t, 65, PRIVATE_CACHE);
    var block, hs := [0x88] + [0xc1], [STATUS_200] + [PRIVATE_CACHE];
    next := Inserted(t, DATE_22);
    ThenNamed(tb, block, t, hs, t, 33, date, DATE_22, next);
    MakesRoom(t, [STATUS_307, LOCATION_WWW, DATE_21], PRIVATE_CACHE, 222, DATE_22);
    assert [DATE_22] + [STATUS_307, LOCATION_WWW, DATE_21] == [DATE_22, STATUS_307, LOCATION_WWW, DATE_21];
    ThenIndexed(tb, block + ([0x61] + date), t, hs + [DATE_22], next, 64, LOCATION_WWW);
  }

  lemma {:induction false} Response3Ends(tb: Tables, encoding: Bytes, cookie: Bytes, block: Bytes, hs: seq<Header>,
                                         start: Table, t: Table) returns (next: Table)
    requires InRange(tb.huffman) && ResponseStatics(tb.statics) && Reads(tb, block, start, hs, t)
    requires IsString(tb, encoding, Gzip()) && IsString(tb, cookie, Cookie())
    requires Holding(t, [DATE_22, STATUS_307, LOCATION_WWW, DATE_21], 235, 256)
    ensures Reads(tb, block + ([0x5a] + encoding) + ([0x77] + cookie), start, hs + [GZIP_ENCODING] + [SET_COOKIE], next)
    ensures Holding(next, [SET_COOKIE, GZIP_ENCODING, DATE_22], 215, 256)
  {
    Costs();
    var t1 := Inserted(t, GZIP_ENCODING);
    ThenNamed(tb, block, start, hs, t, 26, encoding, GZIP_ENCODING, t1);
    MakesRoom(t, [DATE_22, STATUS_307, LOCATION_WWW], DATE_21, 235, GZIP_ENCODING);
    assert [GZIP_ENCODING] + [DATE_22, STATUS_307, LOCATION_WWW]
      == [GZIP_ENCODING, DATE_22] + [STATUS_307, LOCATION_WWW];
    next := Inserted(t1, SET_COOKIE);
    ThenNamed(tb, block + ([0x5a] + encoding), start, hs + [GZIP_ENCODING], t1, 55, cookie, SET_COOKIE, next);
    SizeOfConcat([STATUS_307], [LOCATION_WWW]);
    assert [STATUS_307] + [LOCATION_WWW] == [STATUS_307, LOCATION_WWW];
    assert [STATUS_307][..0] == [] && [LOCATION_WWW][..0] == [];
    AddedForOldest(t1, [GZIP_ENCODING, DATE_22], [STATUS_307, LOCATION_WWW], 222, 256, SET_COOKIE);
    assert [SET_COOKIE] + [GZIP_ENCODING, DATE_22] == [SET_COOKIE, GZIP_ENCODING, DATE_22];
  }

  lemma {:induction false} Response3Reads(tb: Tables, date: Bytes, encoding: Bytes, cookie: Bytes, t: Table)
    returns (next: Table)
    requires InRange(tb.huffman) && ResponseStatics(tb.statics)
    requires IsString(tb, date, Date22()) && IsString(tb, encoding, Gzip()) && IsString(tb, cookie, Cookie())
    requires Holding(t, [STATUS_307, LOCATION_WWW, DATE_21, PRIVATE_CACHE], 222, 256)
    ensures Reads(tb, Response3(date, encoding, cookie), t, RESPONSE_3, next)
    ensures Holding(next, [SET_COOKIE, GZIP_ENCODING, DATE_22], 215, 256)
  {
    var t1 := Response3Starts(tb, date, t);
    var hs := [STATUS_200] + [PRIVATE_CACHE] + [DATE_22] + [LOCATION_WWW];
    next := Response3Ends(tb, encoding, cookie, [0x88] + [0xc1] + ([0x61] + date) + [0xc0], hs, t, t1);
    assert hs + [GZIP_ENCODING] + [SET_COOKIE] == RESPONSE_3;
  }

  /** The three responses behind one another, behind a size update to 256. */
  lemma {:induction false} ResponsesRead(tb: Tables, s1: Bytes, cacheControl: Bytes, date1: Bytes, location: Bytes,
                                         s2: Bytes, date2: Bytes, encoding: Bytes, cookie: Bytes)
    requires InRange(tb.huffman) && ResponseStatics(tb.statics)
    requires IsString(tb, s1, Found()) && IsString(tb, cacheControl, Private()) && IsString(tb, date1, Date21())
    requires IsString(tb, location, Location()) && IsString(tb, s2, Redirect()) && IsString(tb, date2, Date22())
    requires IsString(tb, encoding, Gzip()) && IsString(tb, cookie, Cookie())
    ensures DecodeBlock(tb, [0x3f, 0xe1, 0x01] + Response1(s1, cacheControl, date1, location) + Response2(s2)
                            + Response3(date2, encoding, cookie)) ==
      Ok(RESPONSE_1 + RESPONSE_2 + RESPONSE_3)
  {
    var r0, t0 := [0x3f, 0xe1, 0x01], Resized(EMPTY, 256);
    var r1, r2, r3 := Response1(s1, cacheControl, date1, location), Response2(s2), Response3(date2, encoding, cookie);
    ReadsNothing(tb, EMPTY);
    ResizingDoes(tb, 97, 1, EMPTY);
    OneMore(tb, [], EMPTY, [], EMPTY, r0, None, t0);
    assert [] + r0 == r0;
    var t1 := Response1Reads(tb, s1, cacheControl, date1, location, t0);
    var t2 := Response2Reads(tb, s2, t1);
    var t3 := Response3Reads(tb, date2, encoding, cookie, t2);
    BlockMore(tb, r0, EMPTY, [], t0, r1, RESPONSE_1, t1);
    assert [] + RESPONSE_1 == RESPONSE_1;
    BlockMore(tb, r0 + r1, EMPTY, RESPONSE_1, t1, r2, RESPONSE_2, t2);
    BlockMore(tb, r0 + r1 + r2, EMPTY, RESPONSE_1 + RESPONSE_2, t2, r3, RESPONSE_3, t3);
    WholeBlock(tb, r0 + r1 + r2 + r3, EMPTY, RESPONSE_1 + RESPONSE_2 + RESPONSE_3, t3);
  }

  // ----- the strings, with and without Huffman code -----

  lemma {:induction false} RawIs(tb: Tables, s: Bytes, n: nat)
    requires InRange(tb.huffman) && Converts(tb.lossy) && IsAscii(s) && |s| == n < 127
    ensures IsString(tb, [n] + s, s)
  {
    RawString(tb, s);
  }

  lemma {:induction false} HuffmanIs(tb: Tables, s: Bytes, code: Bytes, n: nat)
    requires InRange(tb.huffman) && Valid(tb) && Converts(tb.lossy) && IsAscii(s) && |code| == n < 127
    requires HuffmanEncode(tb.huffman, s) == code
    ensures IsString(tb, [0x80 + n] + code, s)
  {
    HuffmanString(tb, s, code);
  }

  lemma {:induction false} RawRequests(tb: Tables)
    requires InRange(tb.huffman) && Converts(tb.lossy)
    ensures IsString(tb, [0x0f] + Www(), Www()) && IsString(tb, [0x08] + NoCache(), NoCache())
    ensures IsString(tb, [0x0a] + CustomKey(), CustomKey()) && IsString(tb, [0x0c] + CustomValue(), CustomValue())
  {
    RawIs(tb, Www(), 15);
    RawIs(tb, NoCache(), 8);
    RawIs(tb, CustomKey(), 10);
    RawIs(tb, CustomValue(), 12);
  }

  lemma {:induction false} RawResponses(tb: Tables)
    requires InRange(tb.huffman) && Converts(tb.lossy)
    ensures IsString(tb, [0x03] + Found(), Found()) && IsString(tb, [0x07] + Private(), Private())
    ensures IsString(tb, [0x1d] + Date21(), Date21()) && IsString(tb, [0x17] + Location(), Location())
    ensures IsString(tb, [0x03] + Redirect(), Redirect()) && IsString(tb, [0x1d] + Date22(), Date22())
    ensures IsString(tb, [0x04] + Gzip(), Gzip()) && IsString(tb, [0x38] + Cookie(), Cookie())
  {
    RawIs(tb, Found(), 3);
    RawIs(tb, Private(), 7);
    RawIs(tb, Date21(), 29);
    RawIs(tb, Location(), 23);
    RawIs(tb, Redirect(), 3);
    RawIs(tb, Date22(), 29);
    RawIs(tb, Gzip(), 4);
    RawIs(tb, Cookie(), 56);
  }

  lemma {:induction false} HuffmanRequests(tb: Tables)
    requires InRange(tb.huffman) && Valid(tb) && tb.huffman == HUFFMAN && Converts(tb.lossy)
    ensures IsString(tb, [0x8c] + WwwCode(), Www()) && IsString(tb, [0x86] + NoCacheCode(), NoCache())
    ensures IsString(tb, [0x88] + CustomKeyCode(), CustomKey())
    ensures IsString(tb, [0x89] + CustomValueCode(), CustomValue())
  {
    WwwIsCoded(tb.huffman);
    HuffmanIs(tb, Www(), WwwCode(), 12);
    NoCacheIsCoded(tb.huffman);
    HuffmanIs(tb, NoCache(), NoCacheCode(), 6);
    CustomKeyIsCoded(tb.huffman);
    HuffmanIs(tb, CustomKey(), CustomKeyCode(), 8);
    CustomValueIsCoded(tb.huffman);
    HuffmanIs(tb, CustomValue(), CustomValueCode(), 9);
  }

  lemma {:induction false} HuffmanResponses(tb: Tables)
    requires InRange(tb.huffman) && Valid(tb) && tb.huffman == HUFFMAN && Converts(tb.lossy)
    ensures IsString(tb, [0x82] + FoundCode(), Found()) && IsString(tb, [0x85] + PrivateCode(), Private())
    ensures IsString(tb, [0x96] + Date21Code(), Date21()) && IsString(tb, [0x91] + LocationCode(), Location())
  {
    FoundIsCoded(tb.huffman);
    HuffmanIs(tb, Found(), FoundCode(), 2);
    PrivateIsCoded(tb.huffman);
    HuffmanIs(tb, Private(), PrivateCode(), 5);
    Date21IsCoded(tb.huffman);
    HuffmanIs(tb, Date21(), Date21Code(), 22);
    LocationIsCoded(tb.huffman);
    HuffmanIs(tb, Location(), LocationCode(), 17);
  }

  lemma {:induction false} HuffmanResponsesToo(tb: Tables)
    requires InRange(tb.huffman) && Valid(tb) && tb.huffman == HUFFMAN && Converts(tb.lossy)
    ensures IsString(tb, [0x83] + RedirectCode(), Redirect()) && IsString(tb, [0x96] + Date22Code(), Date22())
    ensures IsString(tb, [0x83] + GzipCode(), Gzip()) && IsString(tb, [0xad] + CookieCode(), Cookie())
  {
    RedirectIsCoded(tb.huffman);
    HuffmanIs(tb, Redirect(), RedirectCode(), 3);
    Date22IsCoded(tb.huffman);
    HuffmanIs(tb, Date22(), Date22Code(), 22);
    GzipIsCoded(tb.huffman);
    HuffmanIs(tb, Gzip(), GzipCode(), 3);
    CookieIsCoded(tb.huffman);
    HuffmanIs(tb, Cookie(), CookieCode(), 45);
  }

  // ----- the examples -----

  /** C.3: three requests without Huffman code, as one block. */
  lemma {:induction false} RequestsAreRead(tb: Tables)
    requires Codec(tb)
    ensures InRange(tb.huffman)
    ensures DecodeBlock(tb, Request1([0x0f] + Www())) == Ok(REQUEST_1)
    ensures DecodeBlock(tb, Request1([0x0f] + Www()) + Request2([0x08] + NoCache())
                            + Request3([0x0a] + CustomKey(), [0x0c] + CustomValue())) ==
      Ok(REQUEST_1 + REQUEST_2 + REQUEST_3)
  {
    CodecIsValid(tb);
    CodecStatics(tb);
    RawRequests(tb) by {
      CodecIs(tb);
    }
    RequestsRead(tb, [0x0f] + Www(), [0x08] + NoCache(), [0x0a] + CustomKey(), [0x0c] + CustomValue());
  }

  /** C.4: the same requests with Huffman code. */
  lemma {:induction false} HuffmanRequestsAreRead(tb: Tables)
    requires Codec(tb)
    ensures InRange(tb.huffman)
    ensures DecodeBlock(tb, Request1([0x8c] + WwwCode())) == Ok(REQUEST_1)
    ensures DecodeBlock(tb, Request1([0x8c] + WwwCode()) + Request2([0x86] + NoCacheCode())
                            + Request3([0x88] + CustomKeyCode(), [0x89] + CustomValueCode())) ==
      Ok(REQUEST_1 + REQUEST_2 + REQUEST_3)
  {
    CodecIsValid(tb);
    CodecStatics(tb);
    HuffmanRequests(tb) by {
      CodecIs(tb);
    }
    RequestsRead(tb, [0x8c] + WwwCode(), [0x86] + NoCacheCode(), [0x88] + CustomKeyCode(), [0x89] + CustomValueCode());
  }

  /** C.5: three responses without Huffman code. */
  lemma {:induction false} ResponsesAreRead(tb: Tables)
    requires Codec(tb)
    ensures InRange(tb.huffman)
    ensures DecodeBlock(tb, [0x3f, 0xe1, 0x01]
                            + Response1([0x03] + Found(), [0x07] + Private(), [0x1d] + Date21(), [0x17] + Location())
                            + Response2([0x03] + Redirect())
                            + Response3([0x1d] + Date22(), [0x04] + Gzip(), [0x38] + Cookie())) ==
      Ok(RESPONSE_1 + RESPONSE_2 + RESPONSE_3)
  {
    CodecIsValid(tb);
    CodecStatics(tb);
    RawResponses(tb) by {
      CodecIs(tb);
    }
    ResponsesRead(tb, [0x03] + Found(), [0x07] + Private(), [0x1d] + Date21(), [0x17] + Location(),
                  [0x03] + Redirect(), [0x1d] + Date22(), [0x04] + Gzip(), [0x38] + Cookie());
  }

  /** C.6: the same responses with Huffman code. */
  lemma {:induction false} HuffmanResponsesAreRead(tb: Tables)
    requires Codec(tb)
    ensures InRange(tb.huffman)
    ensures DecodeBlock(tb, [0x3f, 0xe1, 0x01]
                            + Response1([0x82] + FoundCode(), [0x85] + PrivateCode(), [0x96] + Date21Code(),
                                        [0x91] + LocationCode())
                            + Response2([0x83] + RedirectCode())
                            + Response3([0x96] + Date22Code(), [0x83] + GzipCode(), [0xad] + CookieCode())) ==
      Ok(RESPONSE_1 + RESPONSE_2 + RESPONSE_3)
  {
    CodecIsValid(tb);
    CodecStatics(tb);
    HuffmanResponses(tb) by {
      CodecIs(tb);
    }
    HuffmanResponsesToo(tb) by {
      CodecIs(tb);
    }
    ResponsesRead(tb, [0x82] + FoundCode(), [0x85] + PrivateCode(), [0x96] + Date21Code(), [0x91] + LocationCode(),
                  [0x83] + RedirectCode(), [0x96] + Date22Code(), [0x83] + GzipCode(), [0xad] + CookieCode());
  }

  // ----- representations that leave the table alone -----

  /** C.2.2 and C.2.3: a literal without indexing whose name is at an index, and one never to be indexed. */
  lemma {:induction false} UnindexedAreRead(tb: Tables)
    requires Codec(tb)
    ensures InRange(tb.huffman)
    ensures DecodeBlock(tb, [0x04] + ([0x0c] + Ascii("/sample/path"))) ==
      Ok([Header(Ascii(":path"), Ascii("/sample/path"))])
    ensures DecodeBlock(tb, [0x10] + (([0x08] + Ascii("password")) + ([0x06] + Ascii("secret")))) ==
      Ok([Header(Ascii("password"), Ascii("secret"))])
  {
    CodecIsValid(tb);
    CodecStatics(tb);
    RawUnindexed(tb) by {
      CodecIs(tb);
    }
    UnindexedNamedDoes(tb, 0, 4, [0x0c] + Ascii("/sample/path"), Ascii("/sample/path"), EMPTY, ROOT);
    OnlyOne(tb, [0x04] + ([0x0c] + Ascii("/sample/path")), Header(Ascii(":path"), Ascii("/sample/path")));
    UnindexedDoes(tb, 0x10, [0x08] + Ascii("password"), Ascii("password"), [0x06] + Ascii("secret"), Ascii("secret"),
                  EMPTY);
    OnlyOne(tb, [0x10] + (([0x08] + Ascii("password")) + ([0x06] + Ascii("secret"))),
            Header(Ascii("password"), Ascii("secret")));
  }

  lemma {:induction false} RawUnindexed(tb: Tables)
    requires InRange(tb.huffman) && Converts(tb.lossy)
    ensures IsString(tb, [0x0c] + Ascii("/sample/path"), Ascii("/sample/path"))
    ensures IsString(tb, [0x08] + Ascii("password"), Ascii("password"))
    ensures IsString(tb, [0x06] + Ascii("secret"), Ascii("secret"))
  {
    RawIs(tb, Ascii("/sample/path"), 12);
    RawIs(tb, Ascii("password"), 8);
    RawIs(tb, Ascii("secret"), 6);
  }

  lemma {:induction false} OnlyOne(tb: Tables, octets: Bytes, h: Header)
    requires InRange(tb.huffman) && Does(tb, octets, EMPTY, Some(h), EMPTY)
    ensures DecodeBlock(tb, octets) == Ok([h])
  {
    ReadsNothing(tb, EMPTY);
    OneMore(tb, [], EMPTY, [], EMPTY, octets, Some(h), EMPTY);
    assert [] + octets == octets && [] + [h] == [h];
    WholeBlock(tb, octets, EMPTY, [h], EMPTY);
  }
}
