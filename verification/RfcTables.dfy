/** The codec's own data: the static table of Appendix A of RFC 7541 beside the code of its Appendix B. */
module RfcTables {
  import opened Results
  import opened HuffmanCode
  import opened HuffmanTable
  import opened Texts
  import opened HeaderTables
  import opened HpackDecoder
  import opened HpackEncoder
  import opened TextHeaders

  type AsciiHeader = h: Header | IsAscii(h.name) && IsAscii(h.value) witness Header([], [])

  function Entry(name: string, value: string): AsciiHeader
    requires forall i :: 0 <= i < |name| ==> name[i] as int < 0x80
    requires forall i :: 0 <= i < |value| ==> value[i] as int < 0x80
  {
    Header(Ascii(name), Ascii(value))
  }

  function StaticTable(): (r: seq<AsciiHeader>)
    ensures |r| == STATIC_LENGTH
  {
    Entries1To8() + Entries9To16() + Entries17To24() + Entries25To32()
    + Entries33To40() + Entries41To48() + Entries49To56() + Entries57To61()
  }

  function Entries1To8(): (r: seq<AsciiHeader>)
    ensures |r| == 8
  {
    [
      Entry(":authority", ""),
      Entry(":method", "GET"),
      Entry(":method", "POST"),
      Entry(":path", "/"),
      Entry(":path", "/index.html"),
      Entry(":scheme", "http"),
      Entry(":scheme", "https"),
      Entry(":status", "200")
    ]
  }

  function Entries9To16(): (r: seq<AsciiHeader>)
    ensures |r| == 8
  {
    [
      Entry(":status", "204"),
      Entry(":status", "206"),
      Entry(":status", "304"),
      Entry(":status", "400"),
      Entry(":status", "404"),
      Entry(":status", "500"),
      Entry("accept-charset", ""),
      Entry("accept-encoding", "gzip, deflate")
    ]
  }

  function Entries17To24(): (r: seq<AsciiHeader>)
    ensures |r| == 8
  {
    [
      Entry("accept-language", ""),
      Entry("accept-ranges", ""),
      Entry("accept", ""),
      Entry("access-control-allow-origin", ""),
      Entry("age", ""),
      Entry("allow", ""),
      Entry("authorization", ""),
      Entry("cache-control", "")
    ]
  }

  function Entries25To32(): (r: seq<AsciiHeader>)
    ensures |r| == 8
  {
    [
      Entry("content-disposition", ""),
      Entry("content-encoding", ""),
      Entry("content-language", ""),
      Entry("content-length", ""),
      Entry("content-location", ""),
      Entry("content-range", ""),
      Entry("content-type", ""),
      Entry("cookie", "")
    ]
  }

  function Entries33To40(): (r: seq<AsciiHeader>)
    ensures |r| == 8
  {
    [
      Entry("date", ""),
      Entry("etag", ""),
      Entry("expect", ""),
      Entry("expires", ""),
      Entry("from", ""),
      Entry("host", ""),
      Entry("if-match", ""),
      Entry("if-modified-since", "")
    ]
  }

  function Entries41To48(): (r: seq<AsciiHeader>)
    ensures |r| == 8
  {
    [
      Entry("if-none-match", ""),
      Entry("if-range", ""),
      Entry("if-unmodified-since", ""),
      Entry("last-modified", ""),
      Entry("link", ""),
      Entry("location", ""),
      Entry("max-forwards", ""),
      Entry("proxy-authenticate", "")
    ]
  }

  function Entries49To56(): (r: seq<AsciiHeader>)
    ensures |r| == 8
  {
    [
      Entry("proxy-authorization", ""),
      Entry("range", ""),
      Entry("referer", ""),
      Entry("refresh", ""),
      Entry("retry-after", ""),
      Entry("server", ""),
      Entry("set-cookie", ""),
      Entry("strict-transport-security", "")
    ]
  }

  function Entries57To61(): (r: seq<AsciiHeader>)
    ensures |r| == 5
  {
    [
      Entry("transfer-encoding", ""),
      Entry("user-agent", ""),
      Entry("vary", ""),
      Entry("via", ""),
      Entry("www-authenticate", "")
    ]
  }

  /** The tables this codec runs with are ones the codec's theorems hold for, whatever the conversion of octets to
    * text. */
  lemma CodecTablesAreValid(tb: Tables)
    requires tb.huffman == HUFFMAN && tb.statics == StaticTable()
    ensures Valid(tb)
  {
    RfcTableIsCode();
    ValidMeans(tb);
  }

  lemma {:induction false} StaticsAreText(tb: Tables)
    requires tb.statics == StaticTable() && Converts(tb.lossy)
    ensures AllText(tb, tb.statics)
  {
    var s: seq<AsciiHeader> := StaticTable();
    forall i | 0 <= i < |s|
      ensures IsText(tb, s[i])
    {
      assert IsAscii(s[i].name) && IsAscii(s[i].value);
    }
  }

  /** The header list round trip of the codec as it is configured. */
  lemma {:induction false} CodecRoundTrip(tb: Tables, hs: seq<Header>)
    requires tb.huffman == HUFFMAN && tb.statics == StaticTable() && AllText(tb, hs)
    ensures InRange(tb.huffman)
    ensures DecodeBlock(tb, HeaderBlock(tb, hs)) == Ok(hs) <==> |hs| <= MAX_HEADERS && AllEncodable(tb, hs)
  {
    CodecTablesAreValid(tb);
    HeaderListRoundTrip(tb, hs);
  }
}
