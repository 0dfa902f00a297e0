/** The header block encoder, and the round trip through the decoder. */
module HpackEncoder {
  import opened Sequences
  import opened Locks
  import opened Bits
  import opened Results
  import opened HpackErrors
  import opened HuffmanCode
  import HuffmanDecoder
  import HuffmanEncoder
  import opened Integers
  import opened HeaderTables
  import opened HpackDecoder

  /** Tables the codec works with: a complete prefix code, and a static table of the RFC's length. */
  ghost predicate Valid(tb: Tables) {
    && |tb.statics| == STATIC_LENGTH
    && InRange(tb.huffman)
    && forall k: int {:trigger Key(k)} :: Key(k) && k == HUFFMAN_CODE ==> IsCode(tb.huffman)
  }

  lemma ValidMeans(tb: Tables)
    ensures Valid(tb) <==> IsCode(tb.huffman) && |tb.statics| == STATIC_LENGTH
  {
    assert Key(HUFFMAN_CODE);
  }

  // ----- static table search -----

  /** One-based index of the first static entry equal to `h`. */
  function FindExact(statics: seq<Header>, h: Header, from: nat := 0): (r: Option<nat>)
    requires from <= |statics|
    ensures r.Some? ==>
      from < r.value <= |statics| && statics[r.value - 1] == h && h !in statics[from..r.value - 1]
    ensures r.None? ==> h !in statics[from..]
    decreases |statics| - from
  {
    if from == |statics| then None
    else if statics[from] == h then Some(from + 1)
    else FindExact(statics, h, from + 1)
  }

  /** One-based index of the first static entry named `name`. */
  function FindName(statics: seq<Header>, name: Bytes, from: nat := 0): (r: Option<nat>)
    requires from <= |statics|
    ensures r.Some? ==> from < r.value <= |statics| && statics[r.value - 1].name == name
    ensures r.Some? ==> forall i :: from <= i < r.value - 1 ==> statics[i].name != name
    ensures r.None? ==> forall i :: from <= i < |statics| ==> statics[i].name != name
    decreases |statics| - from
  {
    if from == |statics| then None
    else if statics[from].name == name then Some(from + 1)
    else FindName(statics, name, from + 1)
  }

  // ----- what is written -----

  lemma PrefixesAreFree()
    ensures IsPrefix(7, 0x80) && IsPrefix(7, 0) && IsPrefix(6, 0x40)
    ensures Pow2(7) == 128 && Pow2(6) == 64
  {
    assert Pow2(7) == 128 && Pow2(6) == 64;
  }

  /** A string literal: Huffman coded when that is strictly shorter. */
  ghost function StringOctets(tb: Tables, s: Bytes): (r: Bytes)
    requires InRange(tb.huffman)
    ensures r != []
  {
    PrefixesAreFree();
    var huff := HuffmanEncode(tb.huffman, s);
    if |huff| < |s| then IntegerOctets(|huff|, 7, 0x80) + huff else IntegerOctets(|s|, 7, 0) + s
  }

  /** One header: indexed when the static table has it, otherwise a literal with incremental indexing. */
  ghost function HeaderOctets(tb: Tables, h: Header): (r: Bytes)
    requires InRange(tb.huffman)
    ensures r != []
  {
    PrefixesAreFree();
    match FindExact(tb.statics, h)
    case Some(index) => IntegerOctets(index, 7, 0x80)
    case None =>
      match FindName(tb.statics, h.name)
      case Some(index) => IntegerOctets(index, 6, 0x40) + StringOctets(tb, h.value)
      case None => [0x40] + StringOctets(tb, h.name) + StringOctets(tb, h.value)
  }

  ghost function HeaderBlock(tb: Tables, hs: seq<Header>): Bytes
    requires InRange(tb.huffman)
  {
    if hs == [] then [] else HeaderOctets(tb, hs[0]) + HeaderBlock(tb, hs[1..])
  }

  method EncodeString(tb: Tables, s: Bytes) returns (out: Bytes)
    requires InRange(tb.huffman)
    ensures out == StringOctets(tb, s)
  {
    PrefixesAreFree();
    var huff := HuffmanEncoder.EncodeHuffman(tb.huffman, s);
    if |huff| < |s| {
      out := EncodeInteger(|huff|, 7, 0x80);
      out := out + huff;
    } else {
      out := EncodeInteger(|s|, 7, 0x00);
      out := out + s;
    }
  }

  method EncodeHeaders(tb: Tables, headers: seq<Header>) returns (out: Bytes)
    requires InRange(tb.huffman)
    ensures out == HeaderBlock(tb, headers)
  {
    out := [];
    for i := 0 to |headers|
      invariant out + HeaderBlock(tb, headers[i..]) == HeaderBlock(tb, headers)
    {
      var one := EncodeHeader(tb, headers[i]);
      BlockTurn(tb, headers, i, out, one);
      out := out + one;
    }
  }

  lemma {:induction false} BlockTurn(tb: Tables, headers: seq<Header>, i: nat, out: Bytes, one: Bytes)
    requires InRange(tb.huffman) && i < |headers|
    requires one == HeaderOctets(tb, headers[i])
    ensures out + one + HeaderBlock(tb, headers[i + 1..]) == out + HeaderBlock(tb, headers[i..])
  {
    assert headers[i..][1..] == headers[i + 1..];
    Associate(out, one, HeaderBlock(tb, headers[i + 1..]));
  }

  method EncodeHeader(tb: Tables, h: Header) returns (out: Bytes)
    requires InRange(tb.huffman)
    ensures out == HeaderOctets(tb, h)
  {
    PrefixesAreFree();
    var exact := FindExact(tb.statics, h);
    if exact.Some? {
      // Indexed header field.
      out := EncodeInteger(exact.value, 7, 0x80);
      return;
    }
    var named := FindName(tb.statics, h.name);
    if named.Some? {
      // Literal with incremental indexing, name indexed.
      out := EncodeInteger(named.value, 6, 0x40);
    } else {
      // Literal with incremental indexing, new name.
      var name := EncodeString(tb, h.name);
      out := [0x40] + name;
    }
    var value := EncodeString(tb, h.value);
    out := out + value;
  }

  // ----- round trip -----

  /** The octets sent for `s`, after its length. */
  ghost function Sent(tb: Tables, s: Bytes): Bytes
    requires InRange(tb.huffman)
  {
    var huff := HuffmanEncode(tb.huffman, s);
    if |huff| < |s| then huff else s
  }

  /** A header the decoder will take back: its literal strings are within the decoder's bound as sent. */
  ghost predicate Encodable(tb: Tables, h: Header)
    requires InRange(tb.huffman)
  {
    || FindExact(tb.statics, h).Some?
    || (|Sent(tb, h.value)| <= MAX_STRING
        && (FindName(tb.statics, h.name).Some? || |Sent(tb, h.name)| <= MAX_STRING))
  }

  /** Text is what the lossy conversion leaves alone. */
  predicate IsText(tb: Tables, h: Header) {
    tb.lossy(h.name) == h.name && tb.lossy(h.value) == h.value
  }

  /** A string read from its length and its octets. */
  lemma StringOfParts(tb: Tables, length: Bytes, sent: Bytes, rest: Bytes, s: Bytes)
    requires InRange(tb.huffman) && tb.lossy(s) == s && length != []
    requires DecodeInteger(length + (sent + rest), 7) == Ok(Decoded(|sent|, |length|))
    requires Plain(tb, length[0] >= 0x80, sent) == Ok(s)
    ensures StringAt(tb, length + (sent + rest)) ==
      if |sent| <= MAX_STRING then Ok(Text(s, |length| + |sent|)) else Err(BadInteger)
  {
    var buf := length + (sent + rest);
    assert buf[|length|..|length| + |sent|] == sent;
  }

  lemma StringRoundTrip(tb: Tables, s: Bytes, rest: Bytes)
    requires Valid(tb) && tb.lossy(s) == s
    ensures StringAt(tb, StringOctets(tb, s) + rest) ==
      if |Sent(tb, s)| <= MAX_STRING then Ok(Text(s, |StringOctets(tb, s)|)) else Err(BadInteger)
  {
    PrefixesAreFree();
    Pow2Values();
    var sent := Sent(tb, s);
    var huffman := |HuffmanEncode(tb.huffman, s)| < |s|;
    var flag := if huffman then 0x80 else 0;
    var length := IntegerOctets(|sent|, 7, flag);
    Associate(length, sent, rest);
    IntegerRoundTrip(|sent|, 7, flag, sent + rest);
    ValidMeans(tb);
    HuffmanDecoder.HuffmanRoundTrip(tb.huffman, s);
    if |sent| < 127 + Pow2(63) {
      StringOfParts(tb, length, sent, rest, s);
    }
  }

  /** The dynamic table after the decoder has read `h`. */
  function AfterHeader(tb: Tables, table: Table, h: Header): Table {
    if FindExact(tb.statics, h).Some? then table else Inserted(table, h)
  }

  lemma {:induction false} IndexedRoundTrip(tb: Tables, h: Header, rest: Bytes, table: Table)
    requires Valid(tb) && FindExact(tb.statics, h).Some?
    ensures StepAt(tb, HeaderOctets(tb, h) + rest, table) == Ok(Step(Some(h), table, |HeaderOctets(tb, h)|))
  {
    PrefixesAreFree();
    Pow2Values();
    IntegerRoundTrip(FindExact(tb.statics, h).value, 7, 0x80, rest);
    assert Key(REPRESENTATION);
  }

  /** The name part of a literal, followed by anything. */
  ghost function NameOctets(tb: Tables, name: Bytes): Bytes
    requires InRange(tb.huffman)
  {
    PrefixesAreFree();
    match FindName(tb.statics, name)
    case Some(index) => IntegerOctets(index, 6, 0x40)
    case None => [0x40] + StringOctets(tb, name)
  }

  /** The decoder reads the name back off the front of `buf`, or rejects it for its length. */
  ghost predicate NameReadBack(tb: Tables, name: Bytes, buf: Bytes, entries: seq<Header>)
    requires InRange(tb.huffman)
  {
    && buf != [] && 0x40 <= buf[0] < 0x80
    && DecodeInteger(buf, 6).Ok?
    && var d := DecodeInteger(buf, 6).value;
       NameAt(tb, buf[d.used..], d.value, entries) ==
         if FindName(tb.statics, name).Some? || |Sent(tb, name)| <= MAX_STRING then
           Ok(Text(name, SaturatingSub(|NameOctets(tb, name)|, d.used)))
         else Err(BadInteger)
  }

  lemma {:induction false} IndexedNameRoundTrip(tb: Tables, name: Bytes, rest: Bytes, entries: seq<Header>)
    requires Valid(tb) && FindName(tb.statics, name).Some?
    ensures NameReadBack(tb, name, NameOctets(tb, name) + rest, entries)
    ensures DecodeInteger(NameOctets(tb, name) + rest, 6).value.used == |NameOctets(tb, name)|
  {
    PrefixesAreFree();
    Pow2Values();
    IntegerRoundTrip(FindName(tb.statics, name).value, 6, 0x40, rest);
  }

  lemma {:induction false} InlineNameRoundTrip(tb: Tables, name: Bytes, rest: Bytes, entries: seq<Header>)
    requires Valid(tb) && tb.lossy(name) == name && FindName(tb.statics, name).None?
    ensures NameReadBack(tb, name, NameOctets(tb, name) + rest, entries)
    ensures DecodeInteger(NameOctets(tb, name) + rest, 6).value.used == 1
  {
    PrefixesAreFree();
    var literal := StringOctets(tb, name) + rest;
    var buf := NameOctets(tb, name) + rest;
    assert buf == [0x40] + literal;
    assert DecodeInteger(buf, 6) == Ok(Decoded(0, 1));
    assert buf[1..] == literal;
    StringRoundTrip(tb, name, rest);
  }

  lemma NameRoundTrip(tb: Tables, name: Bytes, rest: Bytes, entries: seq<Header>)
    requires Valid(tb) && tb.lossy(name) == name
    ensures NameReadBack(tb, name, NameOctets(tb, name) + rest, entries)
    ensures DecodeInteger(NameOctets(tb, name) + rest, 6).value.used <= |NameOctets(tb, name)|
  {
    if FindName(tb.statics, name).Some? {
      IndexedNameRoundTrip(tb, name, rest, entries);
    } else {
      InlineNameRoundTrip(tb, name, rest, entries);
    }
  }

  /** A literal with incremental indexing, put together from its parts. */
  lemma LiteralStep(tb: Tables, buf: Bytes, table: Table, d: Decoded, n: Result<Text, HpackError>,
                    v: Result<Text, HpackError>)
    requires InRange(tb.huffman) && buf != [] && 0x40 <= buf[0] < 0x80
    requires DecodeInteger(buf, 6) == Ok(d)
    requires NameAt(tb, buf[d.used..], d.value, table.entries) == n
    requires n.Ok? ==> d.used + n.value.used <= |buf| && StringAt(tb, buf[d.used + n.value.used..]) == v
    ensures StepAt(tb, buf, table) ==
      if n.Err? then Err(n.error)
      else if v.Err? then Err(v.error)
      else
        var h := Header(n.value.octets, v.value.octets);
        Ok(Step(Some(h), Inserted(table, h), d.used + n.value.used + v.value.used))
  {
    assert Key(REPRESENTATION);
  }

  lemma {:induction false} LiteralRoundTrip(tb: Tables, h: Header, rest: Bytes, table: Table)
    requires Valid(tb) && IsText(tb, h) && FindExact(tb.statics, h).None?
    ensures StepAt(tb, HeaderOctets(tb, h) + rest, table) ==
      if Encodable(tb, h) then Ok(Step(Some(h), Inserted(table, h), |HeaderOctets(tb, h)|)) else Err(BadInteger)
  {
    var name, value := NameOctets(tb, h.name), StringOctets(tb, h.value);
    var buf := name + (value + rest);
    LiteralIsNameAndValue(tb, h, rest);
    NameRoundTrip(tb, h.name, value + rest, table.entries);
    StringRoundTrip(tb, h.value, rest);
    assert buf[|name|..] == value + rest;
    var d := DecodeInteger(buf, 6).value;
    LiteralStep(tb, buf, table, d, NameAt(tb, buf[d.used..], d.value, table.entries), StringAt(tb, value + rest));
  }

  lemma {:induction false} LiteralIsNameAndValue(tb: Tables, h: Header, rest: Bytes)
    requires InRange(tb.huffman) && FindExact(tb.statics, h).None?
    ensures HeaderOctets(tb, h) == NameOctets(tb, h.name) + StringOctets(tb, h.value)
    ensures HeaderOctets(tb, h) + rest == NameOctets(tb, h.name) + (StringOctets(tb, h.value) + rest)
  {
    Associate(NameOctets(tb, h.name), StringOctets(tb, h.value), rest);
  }

  /** Reading back one header from the front of anything, in any dynamic table. */
  lemma HeaderRoundTrip(tb: Tables, h: Header, rest: Bytes, table: Table)
    requires Valid(tb) && IsText(tb, h)
    ensures StepAt(tb, HeaderOctets(tb, h) + rest, table) ==
      if Encodable(tb, h) then Ok(Step(Some(h), AfterHeader(tb, table, h), |HeaderOctets(tb, h)|))
      else Err(BadInteger)
  {
    if FindExact(tb.statics, h).Some? {
      IndexedRoundTrip(tb, h, rest, table);
    } else {
      LiteralRoundTrip(tb, h, rest, table);
    }
  }

  function AfterHeaders(tb: Tables, table: Table, hs: seq<Header>): Table
    decreases |hs|
  {
    if hs == [] then table else AfterHeaders(tb, AfterHeader(tb, table, hs[0]), hs[1..])
  }

  /** What the encoder is promised to send back: text, within the decoder's bounds. */
  predicate AllText(tb: Tables, hs: seq<Header>) {
    forall i :: 0 <= i < |hs| ==> IsText(tb, hs[i])
  }

  ghost predicate AllEncodable(tb: Tables, hs: seq<Header>)
    requires InRange(tb.huffman)
  {
    forall i :: 0 <= i < |hs| ==> Encodable(tb, hs[i])
  }

  /** One header decoded, then the rest. */
  lemma {:induction false} StepThen(tb: Tables, a: Bytes, tail: Bytes, table: Table, count: nat, h: Header, next: Table)
    requires InRange(tb.huffman) && a != []
    requires StepAt(tb, a + tail, table) == Ok(Step(Some(h), next, |a|))
    ensures DecodeFrom(tb, a + tail, table, count) ==
      if count >= MAX_HEADERS then Err(BadInteger) else Prepend([h], DecodeFrom(tb, tail, next, count + 1))
  {
    DecodeFromStep(tb, a + tail, table, count);
    assert (a + tail)[|a|..] == tail;
  }

  lemma {:induction false} StepFails(tb: Tables, block: Bytes, table: Table, count: nat)
    requires InRange(tb.huffman) && block != []
    requires StepAt(tb, block, table) == Err(BadInteger)
    ensures DecodeFrom(tb, block, table, count) == Err(BadInteger)
  {
  }

  lemma {:induction false} BlockHead(tb: Tables, hs: seq<Header>, rest: Bytes)
    requires InRange(tb.huffman) && hs != []
    ensures HeaderBlock(tb, hs) + rest == HeaderOctets(tb, hs[0]) + (HeaderBlock(tb, hs[1..]) + rest)
  {
    Associate(HeaderOctets(tb, hs[0]), HeaderBlock(tb, hs[1..]), rest);
  }

  /** What decoding an encoded list, followed by `rest`, comes to. */
  ghost function Outcome(tb: Tables, hs: seq<Header>, rest: Bytes, table: Table, count: nat)
    : Result<seq<Header>, HpackError>
    requires InRange(tb.huffman)
  {
    if hs != [] && !(count + |hs| <= MAX_HEADERS && AllEncodable(tb, hs)) then Err(BadInteger)
    else Prepend(hs, DecodeFrom(tb, rest, AfterHeaders(tb, table, hs), count + |hs|))
  }

  lemma OutcomeStep(tb: Tables, hs: seq<Header>, rest: Bytes, table: Table, count: nat)
    requires InRange(tb.huffman) && hs != []
    ensures Outcome(tb, hs, rest, table, count) ==
      if count >= MAX_HEADERS || !Encodable(tb, hs[0]) then Err(BadInteger)
      else Prepend([hs[0]], Outcome(tb, hs[1..], rest, AfterHeader(tb, table, hs[0]), count + 1))
  {
    var h, others := hs[0], hs[1..];
    AllOfHeadAndOthers(tb, hs);
    var r := DecodeFrom(tb, rest, AfterHeaders(tb, table, hs), count + |hs|);
    PrependTwice([h], others, r);
    assert [h] + others == hs;
  }

  /** Decoding an encoded list from any table and any count, with anything after it: the headers come back in order
    * and decoding goes on behind them, or the block is rejected. */
  lemma {:induction false} BlockRoundTrip(tb: Tables, hs: seq<Header>, rest: Bytes, table: Table, count: nat)
    requires Valid(tb) && AllText(tb, hs)
    ensures DecodeFrom(tb, HeaderBlock(tb, hs) + rest, table, count) == Outcome(tb, hs, rest, table, count)
    decreases |hs|
  {
    if hs == [] {
      assert HeaderBlock(tb, hs) + rest == rest;
      PrependNothing(DecodeFrom(tb, rest, table, count));
    } else {
      var h := hs[0];
      var head, tail := HeaderOctets(tb, h), HeaderBlock(tb, hs[1..]) + rest;
      BlockHead(tb, hs, rest);
      HeaderRoundTrip(tb, h, tail, table);
      OutcomeStep(tb, hs, rest, table, count);
      if Encodable(tb, h) {
        StepThen(tb, head, tail, table, count, h, AfterHeader(tb, table, h));
        BlockRoundTrip(tb, hs[1..], rest, AfterHeader(tb, table, h), count + 1);
      } else {
        StepFails(tb, head + tail, table, count);
      }
    }
  }

  lemma AllOfHeadAndOthers(tb: Tables, hs: seq<Header>)
    requires InRange(tb.huffman) && hs != []
    ensures AllEncodable(tb, hs) <==> Encodable(tb, hs[0]) && AllEncodable(tb, hs[1..])
  {
    if Encodable(tb, hs[0]) && AllEncodable(tb, hs[1..]) {
      forall i | 0 <= i < |hs|
        ensures Encodable(tb, hs[i])
      {
        if i > 0 {
          assert Encodable(tb, hs[1..][i - 1]);
        }
      }
    }
    if AllEncodable(tb, hs) {
      forall i | 0 <= i < |hs| - 1
        ensures Encodable(tb, hs[1..][i])
      {
        assert Encodable(tb, hs[i + 1]);
      }
    }
  }

  /** Header list round trip: an encoded list decodes to itself, order kept, exactly when the list is no longer than
    * the decoder's bound and every literal string is within its length bound as sent. */
  lemma {:induction false} HeaderListRoundTrip(tb: Tables, hs: seq<Header>)
    requires Valid(tb) && AllText(tb, hs)
    ensures DecodeBlock(tb, HeaderBlock(tb, hs)) == Ok(hs) <==> |hs| <= MAX_HEADERS && AllEncodable(tb, hs)
    ensures !(|hs| <= MAX_HEADERS && AllEncodable(tb, hs)) ==>
      DecodeBlock(tb, HeaderBlock(tb, hs)) == Err(BadInteger)
  {
    BlockRoundTrip(tb, hs, [], EMPTY, 0);
    assert HeaderBlock(tb, hs) + [] == HeaderBlock(tb, hs);
    assert hs + [] == hs;
  }
}
