/** The header block decoder of section 6 of RFC 7541. */
module HpackDecoder {
  import opened Locks
  import opened Bits
  import opened Results
  import opened HpackErrors
  import opened HuffmanCode
  import HuffmanDecoder
  import opened Integers
  import opened HeaderTables

  /** The data the codec is parameterised by: the Huffman code, the static table, and the lossy conversion of octets
    * to text, which is the identity on octets that are valid UTF-8 already. */
  datatype Tables = Tables(huffman: seq<Row>, statics: seq<Header>, lossy: Bytes -> Bytes)

  const MAX_STRING := 0x1_0000
  const MAX_HEADERS := 512

  // ----- one representation -----

  datatype Text = Text(octets: Bytes, used: nat)

  ghost function Plain(tb: Tables, huffmanEncoded: bool, raw: Bytes): Result<Bytes, HpackError>
    requires InRange(tb.huffman)
  {
    if huffmanEncoded then HuffmanDecoder.HuffmanDecode(tb.huffman, raw) else Ok(raw)
  }

  ghost function StringAt(tb: Tables, buf: Bytes): (r: Result<Text, HpackError>)
    requires InRange(tb.huffman)
    ensures r.Ok? ==> 1 <= r.value.used <= |buf|
  {
    if buf == [] then Err(Truncated)
    else
      match DecodeInteger(buf, 7)
      case Err(e) => Err(e)
      case Ok(d) =>
        var end := d.used + d.value;
        if d.value > MAX_STRING then Err(BadInteger)
        else if end > |buf| then Err(Truncated)
        else
          match Plain(tb, buf[0] >= 0x80, buf[d.used..end])
          case Err(e) => Err(e)
          case Ok(plain) => Ok(Text(tb.lossy(plain), end))
  }

  datatype Field = Field(header: Header, used: nat)

  ghost function LiteralAt(tb: Tables, buf: Bytes, p: nat, entries: seq<Header>): (r: Result<Field, HpackError>)
    requires InRange(tb.huffman)
    ensures r.Ok? ==> 1 <= r.value.used <= |buf|
  {
    match DecodeInteger(buf, p)
    case Err(e) => Err(e)
    case Ok(d) =>
      match NameAt(tb, buf[d.used..], d.value, entries)
      case Err(e) => Err(e)
      case Ok(n) =>
        var used := d.used + n.used;
        match StringAt(tb, buf[used..])
        case Err(e) => Err(e)
        case Ok(v) => Ok(Field(Header(n.octets, v.octets), used + v.used))
  }

  /** The name of a literal: written out when the index is zero, otherwise from the tables. */
  ghost function NameAt(tb: Tables, rest: Bytes, index: nat, entries: seq<Header>): (r: Result<Text, HpackError>)
    requires InRange(tb.huffman)
    ensures r.Ok? ==> r.value.used <= |rest|
  {
    if index == 0 then StringAt(tb, rest)
    else
      match Lookup(tb.statics, entries, index)
      case Err(e) => Err(e)
      case Ok(h) => Ok(Text(h.name, 0))
  }

  /** What one representation does: the header it yields, if any, the table after it, and the octets it takes. */
  datatype Step = Step(header: Option<Header>, table: Table, used: nat)

  ghost function StepOf(tb: Tables, buf: Bytes, table: Table): (r: Result<Step, HpackError>)
    requires InRange(tb.huffman) && buf != []
    ensures r.Ok? ==> 1 <= r.value.used <= |buf|
  {
    if buf[0] >= 0x80 then
      match DecodeInteger(buf, 7)
      case Err(e) => Err(e)
      case Ok(d) =>
        match Lookup(tb.statics, table.entries, d.value)
        case Err(e) => Err(e)
        case Ok(h) => Ok(Step(Some(h), table, d.used))
    else if buf[0] >= 0x40 then
      match LiteralAt(tb, buf, 6, table.entries)
      case Err(e) => Err(e)
      case Ok(f) => Ok(Step(Some(f.header), Inserted(table, f.header), f.used))
    else if buf[0] >= 0x20 then
      match DecodeInteger(buf, 5)
      case Err(e) => Err(e)
      case Ok(d) => Ok(Step(None, Resized(table, d.value), d.used))
    else
      match LiteralAt(tb, buf, 4, table.entries)
      case Err(e) => Err(e)
      case Ok(f) => Ok(Step(Some(f.header), table, f.used))
  }

  ghost predicate IsStep(tb: Tables, buf: Bytes, table: Table, r: Result<Step, HpackError>)
    requires InRange(tb.huffman) && buf != []
  {
    forall k: int {:trigger Key(k)} :: Key(k) && k == REPRESENTATION ==> r == StepOf(tb, buf, table)
  }

  lemma StepExists(tb: Tables, buf: Bytes, table: Table)
    requires InRange(tb.huffman) && buf != []
    ensures exists r :: IsStep(tb, buf, table, r)
  {
    assert IsStep(tb, buf, table, StepOf(tb, buf, table));
  }

  /** `StepOf`, closed: its definition is seen only where a key is mentioned. */
  ghost function StepAt(tb: Tables, buf: Bytes, table: Table): (r: Result<Step, HpackError>)
    requires InRange(tb.huffman) && buf != []
    ensures IsStep(tb, buf, table, r)
    ensures r.Ok? ==> 1 <= r.value.used <= |buf|
  {
    StepExists(tb, buf, table);
    var r :| IsStep(tb, buf, table, r);
    assert Key(REPRESENTATION);
    r
  }

  function Yield(header: Option<Header>): seq<Header> {
    match header
    case None => []
    case Some(h) => [h]
  }

  /** The rest of a block, when `count` headers have been produced and the dynamic table is `table`. */
  ghost function DecodeFrom(tb: Tables, block: Bytes, table: Table, count: nat): (r: Result<seq<Header>, HpackError>)
    requires InRange(tb.huffman)
    decreases |block|
  {
    if block == [] then Ok([])
    else if count >= MAX_HEADERS then Err(BadInteger)
    else
      var r := StepAt(tb, block, table);
      if r.Err? then Err(r.error)
      else
        var yielded := Yield(r.value.header);
        Prepend(yielded, DecodeFrom(tb, block[r.value.used..], r.value.table, count + |yielded|))
  }

  ghost function DecodeBlock(tb: Tables, block: Bytes): Result<seq<Header>, HpackError>
    requires InRange(tb.huffman)
  {
    DecodeFrom(tb, block, EMPTY, 0)
  }

  // ----- the methods -----

  method DecodeString(tb: Tables, buf: Bytes) returns (r: Result<Text, HpackError>)
    requires IsCode(tb.huffman)
    ensures r == StringAt(tb, buf)
  {
    if buf == [] {
      return Err(Truncated);
    }
    var huffmanEncoded := buf[0] >= 0x80;
    var d :- Integers.Decode(buf, 7);
    if d.value > MAX_STRING {
      return Err(BadInteger);
    }
    var end := d.used + d.value;
    if end > |buf| {
      return Err(Truncated);
    }
    var raw := buf[d.used..end];
    var bytes := raw;
    if huffmanEncoded {
      bytes :- HuffmanDecoder.Decode(tb.huffman, raw);
    }
    return Ok(Text(tb.lossy(bytes), end));
  }

  method DecodeName(tb: Tables, rest: Bytes, index: nat, dynamic: DynamicTable) returns (r: Result<Text, HpackError>)
    requires IsCode(tb.huffman)
    ensures r == NameAt(tb, rest, index, dynamic.entries)
  {
    if index == 0 {
      r := DecodeString(tb, rest);
    } else {
      var h :- Lookup(tb.statics, dynamic.entries, index);
      return Ok(Text(h.name, 0));
    }
  }

  method DecodeLiteral(tb: Tables, buf: Bytes, prefixBits: nat, dynamic: DynamicTable)
    returns (r: Result<Field, HpackError>)
    requires IsCode(tb.huffman)
    ensures r == LiteralAt(tb, buf, prefixBits, dynamic.entries)
  {
    var d :- Integers.Decode(buf, prefixBits);
    var n :- DecodeName(tb, buf[d.used..], d.value, dynamic);
    var used := d.used + n.used;
    var v :- DecodeString(tb, buf[used..]);
    return Ok(Field(Header(n.octets, v.octets), used + v.used));
  }

  /** One representation, applied to the dynamic table. */
  method DecodeRepresentation(tb: Tables, rest: Bytes, dynamic: DynamicTable)
    returns (r: Result<(Option<Header>, nat), HpackError>)
    requires IsCode(tb.huffman) && rest != [] && dynamic.Valid()
    modifies dynamic
    ensures dynamic.Valid()
    ensures var s := StepAt(tb, rest, old(dynamic.Abstract()));
      if s.Err? then r == Err(s.error)
      else r == Ok((s.value.header, s.value.used)) && dynamic.Abstract() == s.value.table
  {
    assert Key(REPRESENTATION);
    var first := rest[0];
    if first / 0x80 == 1 {
      // Indexed header field.
      var d :- Integers.Decode(rest, 7);
      var h :- Lookup(tb.statics, dynamic.entries, d.value);
      return Ok((Some(h), d.used));
    } else if first / 0x40 == 1 {
      // Literal with incremental indexing.
      var f :- DecodeLiteral(tb, rest, 6, dynamic);
      dynamic.Insert(f.header.name, f.header.value);
      return Ok((Some(f.header), f.used));
    } else if first / 0x20 == 1 {
      // Dynamic table size update.
      var d :- Integers.Decode(rest, 5);
      dynamic.SetMaxSize(d.value);
      return Ok((None, d.used));
    } else if first / 0x10 == 1 {
      // Literal never indexed.
      var f :- DecodeLiteral(tb, rest, 4, dynamic);
      return Ok((Some(f.header), f.used));
    } else {
      // Literal without indexing.
      var f :- DecodeLiteral(tb, rest, 4, dynamic);
      return Ok((Some(f.header), f.used));
    }
  }

  /** The decoding loop with `rest` still to read: decoding it completes what has been put out to the whole result. */
  ghost predicate LoopAt(tb: Tables, block: Bytes, rest: Bytes, table: Table, out: seq<Header>)
    requires InRange(tb.huffman)
  {
    forall k: int {:trigger Key(k)} :: Key(k) && k == DECODING_LOOP ==>
      DecodeBlock(tb, block) == Prepend(out, DecodeFrom(tb, rest, table, |out|))
  }

  lemma LoopStarts(tb: Tables, block: Bytes)
    requires InRange(tb.huffman)
    ensures LoopAt(tb, block, block, EMPTY, [])
  {
    var r := DecodeBlock(tb, block);
    assert r.Ok? ==> [] + r.value == r.value;
  }

  lemma DecodeFromStep(tb: Tables, rest: Bytes, table: Table, count: nat)
    requires InRange(tb.huffman) && rest != []
    ensures var s := StepAt(tb, rest, table);
      DecodeFrom(tb, rest, table, count) ==
        if count >= MAX_HEADERS then Err(BadInteger)
        else if s.Err? then Err(s.error)
        else
          var yielded := Yield(s.value.header);
          Prepend(yielded, DecodeFrom(tb, rest[s.value.used..], s.value.table, count + |yielded|))
  {
  }

  /** One turn of the decoding loop, given what the next representation does. */
  lemma LoopTurns(tb: Tables, block: Bytes, rest: Bytes, table: Table, out: seq<Header>)
    requires InRange(tb.huffman) && LoopAt(tb, block, rest, table, out) && rest != []
    ensures |out| >= MAX_HEADERS ==> DecodeBlock(tb, block) == Err(BadInteger)
    ensures |out| < MAX_HEADERS ==>
      var s := StepAt(tb, rest, table);
      if s.Err? then DecodeBlock(tb, block) == Err(s.error)
      else LoopAt(tb, block, rest[s.value.used..], s.value.table, out + Yield(s.value.header))
  {
    assert Key(DECODING_LOOP);
    DecodeFromStep(tb, rest, table, |out|);
    var s := StepAt(tb, rest, table);
    if |out| < MAX_HEADERS && s.Ok? {
      var yielded := Yield(s.value.header);
      PrependTwice(out, yielded, DecodeFrom(tb, rest[s.value.used..], s.value.table, |out| + |yielded|));
      assert |out + yielded| == |out| + |yielded|;
    }
  }

  lemma LoopEnds(tb: Tables, block: Bytes, table: Table, out: seq<Header>)
    requires InRange(tb.huffman) && LoopAt(tb, block, [], table, out)
    ensures DecodeBlock(tb, block) == Ok(out)
  {
    assert Key(DECODING_LOOP);
    assert out + [] == out;
  }

  method Decode(tb: Tables, block: Bytes) returns (r: Result<seq<Header>, HpackError>)
    requires IsCode(tb.huffman)
    ensures r == DecodeBlock(tb, block)
    ensures r.Ok? ==> |r.value| <= MAX_HEADERS
  {
    var dynamic := new DynamicTable();
    var out: seq<Header> := [];
    var pos: nat := 0;
    assert block[0..] == block;
    LoopStarts(tb, block);

    while pos < |block|
      invariant pos <= |block| && |out| <= MAX_HEADERS
      invariant dynamic.Valid() && fresh(dynamic)
      invariant LoopAt(tb, block, block[pos..], dynamic.Abstract(), out)
    {
      var rest := block[pos..];
      LoopTurns(tb, block, rest, dynamic.Abstract(), out);
      if |out| >= MAX_HEADERS {
        return Err(BadInteger);
      }
      var read :- DecodeRepresentation(tb, rest, dynamic);
      assert rest[read.1..] == block[pos + read.1..];
      pos := pos + read.1;
      out := out + Yield(read.0);
    }
    LoopEnds(tb, block, dynamic.Abstract(), out);
    return Ok(out);
  }
}
