/** What every index into the static table stands for: the list of Appendix A of RFC 7541, by its one-based indices. */
module StaticEntries {
  import opened Bits
  import opened Results
  import opened HuffmanCode
  import opened Texts
  import opened HeaderTables
  import opened HpackDecoder
  import opened HpackReading
  import opened RfcTables

  /** At `index` is this header. */
  ghost predicate IsAt(statics: seq<Header>, index: nat, name: Bytes, value: Bytes) {
    0 < index <= |statics| && statics[index - 1] == Header(name, value)
  }

  lemma {:induction false} InSlice(s: seq<Header>, from: nat, part: seq<Header>, i: nat)
    requires from + |part| <= |s| && s[from..from + |part|] == part && i < |part|
    ensures s[from + i] == part[i]
  {
    assert s[from..from + |part|][i] == s[from + i];
  }

  /** The parts of the table; what each of them holds follows, index by index. */
  lemma {:induction false} StaticParts(s: seq<Header>)
    requires s == StaticTable()
    ensures |s| == 61 && s[..8] == Entries1To8() && s[8..16] == Entries9To16() && s[16..24] == Entries17To24()
    ensures s[24..32] == Entries25To32() && s[32..40] == Entries33To40() && s[40..48] == Entries41To48()
    ensures s[48..56] == Entries49To56() && s[56..61] == Entries57To61()
  {
  }

  lemma {:induction false} Statics1To8(s: seq<Header>)
    requires |s| == 61 && s[..8] == Entries1To8()
    ensures IsAt(s, 1, Ascii(":authority"), Ascii(""))
    ensures IsAt(s, 2, Ascii(":method"), Ascii("GET"))
    ensures IsAt(s, 3, Ascii(":method"), Ascii("POST"))
    ensures IsAt(s, 4, Ascii(":path"), Ascii("/"))
    ensures IsAt(s, 5, Ascii(":path"), Ascii("/index.html"))
    ensures IsAt(s, 6, Ascii(":scheme"), Ascii("http"))
    ensures IsAt(s, 7, Ascii(":scheme"), Ascii("https"))
    ensures IsAt(s, 8, Ascii(":status"), Ascii("200"))
  {
    InSlice(s, 0, Entries1To8(), 0);
    InSlice(s, 0, Entries1To8(), 1);
    InSlice(s, 0, Entries1To8(), 2);
    InSlice(s, 0, Entries1To8(), 3);
    InSlice(s, 0, Entries1To8(), 4);
    InSlice(s, 0, Entries1To8(), 5);
    InSlice(s, 0, Entries1To8(), 6);
    InSlice(s, 0, Entries1To8(), 7);
  }

  lemma {:induction false} Statics9To16(s: seq<Header>)
    requires |s| == 61 && s[8..16] == Entries9To16()
    ensures IsAt(s, 9, Ascii(":status"), Ascii("204"))
    ensures IsAt(s, 10, Ascii(":status"), Ascii("206"))
    ensures IsAt(s, 11, Ascii(":status"), Ascii("304"))
    ensures IsAt(s, 12, Ascii(":status"), Ascii("400"))
    ensures IsAt(s, 13, Ascii(":status"), Ascii("404"))
    ensures IsAt(s, 14, Ascii(":status"), Ascii("500"))
    ensures IsAt(s, 15, Ascii("accept-charset"), Ascii(""))
    ensures IsAt(s, 16, Ascii("accept-encoding"), Ascii("gzip, deflate"))
  {
    InSlice(s, 8, Entries9To16(), 0);
    InSlice(s, 8, Entries9To16(), 1);
    InSlice(s, 8, Entries9To16(), 2);
    InSlice(s, 8, Entries9To16(), 3);
    InSlice(s, 8, Entries9To16(), 4);
    InSlice(s, 8, Entries9To16(), 5);
    InSlice(s, 8, Entries9To16(), 6);
    InSlice(s, 8, Entries9To16(), 7);
  }

  lemma {:induction false} Statics17To24(s: seq<Header>)
    requires |s| == 61 && s[16..24] == Entries17To24()
    ensures IsAt(s, 17, Ascii("accept-language"), Ascii(""))
    ensures IsAt(s, 18, Ascii("accept-ranges"), Ascii(""))
    ensures IsAt(s, 19, Ascii("accept"), Ascii(""))
    ensures IsAt(s, 20, Ascii("access-control-allow-origin"), Ascii(""))
    ensures IsAt(s, 21, Ascii("age"), Ascii(""))
    ensures IsAt(s, 22, Ascii("allow"), Ascii(""))
    ensures IsAt(s, 23, Ascii("authorization"), Ascii(""))
    ensures IsAt(s, 24, Ascii("cache-control"), Ascii(""))
  {
    InSlice(s, 16, Entries17To24(), 0);
    InSlice(s, 16, Entries17To24(), 1);
    InSlice(s, 16, Entries17To24(), 2);
    InSlice(s, 16, Entries17To24(), 3);
    InSlice(s, 16, Entries17To24(), 4);
    InSlice(s, 16, Entries17To24(), 5);
    InSlice(s, 16, Entries17To24(), 6);
    InSlice(s, 16, Entries17To24(), 7);
  }

  lemma {:induction false} Statics25To32(s: seq<Header>)
    requires |s| == 61 && s[24..32] == Entries25To32()
    ensures IsAt(s, 25, Ascii("content-disposition"), Ascii(""))
    ensures IsAt(s, 26, Ascii("content-encoding"), Ascii(""))
    ensures IsAt(s, 27, Ascii("content-language"), Ascii(""))
    ensures IsAt(s, 28, Ascii("content-length"), Ascii(""))
    ensures IsAt(s, 29, Ascii("content-location"), Ascii(""))
    ensures IsAt(s, 30, Ascii("content-range"), Ascii(""))
    ensures IsAt(s, 31, Ascii("content-type"), Ascii(""))
    ensures IsAt(s, 32, Ascii("cookie"), Ascii(""))
  {
    InSlice(s, 24, Entries25To32(), 0);
    InSlice(s, 24, Entries25To32(), 1);
    InSlice(s, 24, Entries25To32(), 2);
    InSlice(s, 24, Entries25To32(), 3);
    InSlice(s, 24, Entries25To32(), 4);
    InSlice(s, 24, Entries25To32(), 5);
    InSlice(s, 24, Entries25To32(), 6);
    InSlice(s, 24, Entries25To32(), 7);
  }

  lemma {:induction false} Statics33To40(s: seq<Header>)
    requires |s| == 61 && s[32..40] == Entries33To40()
    ensures IsAt(s, 33, Ascii("date"), Ascii(""))
    ensures IsAt(s, 34, Ascii("etag"), Ascii(""))
    ensures IsAt(s, 35, Ascii("expect"), Ascii(""))
    ensures IsAt(s, 36, Ascii("expires"), Ascii(""))
    ensures IsAt(s, 37, Ascii("from"), Ascii(""))
    ensures IsAt(s, 38, Ascii("host"), Ascii(""))
    ensures IsAt(s, 39, Ascii("if-match"), Ascii(""))
    ensures IsAt(s, 40, Ascii("if-modified-since"), Ascii(""))
  {
    InSlice(s, 32, Entries33To40(), 0);
    InSlice(s, 32, Entries33To40(), 1);
    InSlice(s, 32, Entries33To40(), 2);
    InSlice(s, 32, Entries33To40(), 3);
    InSlice(s, 32, Entries33To40(), 4);
    InSlice(s, 32, Entries33To40(), 5);
    InSlice(s, 32, Entries33To40(), 6);
    InSlice(s, 32, Entries33To40(), 7);
  }

  lemma {:induction false} Statics41To48(s: seq<Header>)
    requires |s| == 61 && s[40..48] == Entries41To48()
    ensures IsAt(s, 41, Ascii("if-none-match"), Ascii(""))
    ensures IsAt(s, 42, Ascii("if-range"), Ascii(""))
    ensures IsAt(s, 43, Ascii("if-unmodified-since"), Ascii(""))
    ensures IsAt(s, 44, Ascii("last-modified"), Ascii(""))
    ensures IsAt(s, 45, Ascii("link"), Ascii(""))
    ensures IsAt(s, 46, Ascii("location"), Ascii(""))
    ensures IsAt(s, 47, Ascii("max-forwards"), Ascii(""))
    ensures IsAt(s, 48, Ascii("proxy-authenticate"), Ascii(""))
  {
    InSlice(s, 40, Entries41To48(), 0);
    InSlice(s, 40, Entries41To48(), 1);
    InSlice(s, 40, Entries41To48(), 2);
    InSlice(s, 40, Entries41To48(), 3);
    InSlice(s, 40, Entries41To48(), 4);
    InSlice(s, 40, Entries41To48(), 5);
    InSlice(s, 40, Entries41To48(), 6);
    InSlice(s, 40, Entries41To48(), 7);
  }

  lemma {:induction false} Statics49To56(s: seq<Header>)
    requires |s| == 61 && s[48..56] == Entries49To56()
    ensures IsAt(s, 49, Ascii("proxy-authorization"), Ascii(""))
    ensures IsAt(s, 50, Ascii("range"), Ascii(""))
    ensures IsAt(s, 51, Ascii("referer"), Ascii(""))
    ensures IsAt(s, 52, Ascii("refresh"), Ascii(""))
    ensures IsAt(s, 53, Ascii("retry-after"), Ascii(""))
    ensures IsAt(s, 54, Ascii("server"), Ascii(""))
    ensures IsAt(s, 55, Ascii("set-cookie"), Ascii(""))
    ensures IsAt(s, 56, Ascii("strict-transport-security"), Ascii(""))
  {
    InSlice(s, 48, Entries49To56(), 0);
    InSlice(s, 48, Entries49To56(), 1);
    InSlice(s, 48, Entries49To56(), 2);
    InSlice(s, 48, Entries49To56(), 3);
    InSlice(s, 48, Entries49To56(), 4);
    InSlice(s, 48, Entries49To56(), 5);
    InSlice(s, 48, Entries49To56(), 6);
    InSlice(s, 48, Entries49To56(), 7);
  }

  lemma {:induction false} Statics57To61(s: seq<Header>)
    requires |s| == 61 && s[56..61] == Entries57To61()
    ensures IsAt(s, 57, Ascii("transfer-encoding"), Ascii(""))
    ensures IsAt(s, 58, Ascii("user-agent"), Ascii(""))
    ensures IsAt(s, 59, Ascii("vary"), Ascii(""))
    ensures IsAt(s, 60, Ascii("via"), Ascii(""))
    ensures IsAt(s, 61, Ascii("www-authenticate"), Ascii(""))
  {
    InSlice(s, 56, Entries57To61(), 0);
    InSlice(s, 56, Entries57To61(), 1);
    InSlice(s, 56, Entries57To61(), 2);
    InSlice(s, 56, Entries57To61(), 3);
    InSlice(s, 56, Entries57To61(), 4);
  }

  /** An octet above 0x80 alone is the block of the header at that index. */
  lemma {:induction false} OneOctet(tb: Tables, index: nat, name: Bytes, value: Bytes)
    requires InRange(tb.huffman) && IsAt(tb.statics, index, name, value) && index <= 61
    ensures DecodeBlock(tb, [0x80 + index]) == Ok([Header(name, value)])
  {
    ReadsNothing(tb, EMPTY);
    IndexedDoes(tb, index, EMPTY, Header(name, value));
    OneMore(tb, [], EMPTY, [], EMPTY, [0x80 + index], Some(Header(name, value)), EMPTY);
    assert [] + [0x80 + index] == [0x80 + index] && [] + [Header(name, value)] == [Header(name, value)];
    WholeBlock(tb, [0x80 + index], EMPTY, [Header(name, value)], EMPTY);
  }
}
