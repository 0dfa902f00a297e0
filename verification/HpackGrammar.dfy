/** A two-phase reading of a header block: first the grammar of section 6 of RFC 7541, then the effect of each
  * representation on the tables. The one-pass decoder agrees with it.
  */
module HpackGrammar {
  import opened Bits
  import opened Locks
  import opened Results
  import opened HpackErrors
  import opened HuffmanCode
  import opened Integers
  import opened HeaderTables
  import opened HpackDecoder

  datatype Name = AtIndex(index: nat) | Inline(name: Bytes)

  datatype Representation =
    | Indexed(index: nat)
    | Literal(name: Name, value: Bytes, indexing: bool)
    | SizeUpdate(size: nat)

  datatype Parsed = Parsed(rep: Representation, used: nat)

  // ----- phase one: context-free parsing -----

  ghost function ParseLiteral(tb: Tables, buf: Bytes, p: nat, indexing: bool): (r: Result<Parsed, HpackError>)
    requires InRange(tb.huffman)
    ensures r.Ok? ==> 1 <= r.value.used <= |buf|
  {
    match DecodeInteger(buf, p)
    case Err(e) => Err(e)
    case Ok(d) =>
      var name := if d.value == 0 then StringAt(tb, buf[d.used..]) else Ok(Text([], 0));
      if name.Err? then Err(name.error)
      else
        var used := d.used + name.value.used;
        match StringAt(tb, buf[used..])
        case Err(e) => Err(e)
        case Ok(v) =>
          var n := if d.value == 0 then Inline(name.value.octets) else AtIndex(d.value);
          Ok(Parsed(Literal(n, v.octets, indexing), used + v.used))
  }

  ghost function ParseOne(tb: Tables, buf: Bytes): (r: Result<Parsed, HpackError>)
    requires InRange(tb.huffman) && buf != []
    ensures r.Ok? ==> 1 <= r.value.used <= |buf|
  {
    if buf[0] >= 0x80 then
      match DecodeInteger(buf, 7)
      case Err(e) => Err(e)
      case Ok(d) => Ok(Parsed(Indexed(d.value), d.used))
    else if buf[0] >= 0x40 then ParseLiteral(tb, buf, 6, true)
    else if buf[0] >= 0x20 then
      match DecodeInteger(buf, 5)
      case Err(e) => Err(e)
      case Ok(d) => Ok(Parsed(SizeUpdate(d.value), d.used))
    else ParseLiteral(tb, buf, 4, false)
  }

  /** The block cut into representations; each takes at least one octet, and together they take all of it. */
  ghost function Parse(tb: Tables, block: Bytes): (r: Result<seq<Representation>, HpackError>)
    requires InRange(tb.huffman)
    ensures r.Ok? ==> |r.value| <= |block|
    decreases |block|
  {
    if block == [] then Ok([])
    else
      var p := ParseOne(tb, block);
      if p.Err? then Err(p.error)
      else
        var others := Parse(tb, block[p.value.used..]);
        if others.Err? then Err(others.error) else Ok([p.value.rep] + others.value)
  }

  // ----- phase two: meaning over the tables -----

  function NameOf(statics: seq<Header>, entries: seq<Header>, name: Name): Result<Bytes, HpackError> {
    match name
    case Inline(n) => Ok(n)
    case AtIndex(index) =>
      var h := Lookup(statics, entries, index);
      if h.Err? then Err(h.error) else Ok(h.value.name)
  }

  datatype Effect = Effect(header: Option<Header>, table: Table)

  function Apply(statics: seq<Header>, table: Table, rep: Representation): Result<Effect, HpackError> {
    match rep
    case Indexed(index) =>
      var h := Lookup(statics, table.entries, index);
      if h.Err? then Err(h.error) else Ok(Effect(Some(h.value), table))
    case Literal(name, value, indexing) =>
      var n := NameOf(statics, table.entries, name);
      if n.Err? then Err(n.error)
      else
        var h := Header(n.value, value);
        Ok(Effect(Some(h), if indexing then Inserted(table, h) else table))
    case SizeUpdate(size) => Ok(Effect(None, Resized(table, size)))
  }

  /** The headers a list of representations stands for, at most `MAX_HEADERS` of them. */
  function Interpret(statics: seq<Header>, table: Table, reps: seq<Representation>, count: nat)
    : (r: Result<seq<Header>, HpackError>)
    ensures r.Ok? && reps != [] ==> count + |r.value| <= MAX_HEADERS
    decreases |reps|
  {
    if reps == [] then Ok([])
    else if count >= MAX_HEADERS then Err(BadInteger)
    else
      var a := Apply(statics, table, reps[0]);
      if a.Err? then Err(a.error)
      else
        var yielded := Yield(a.value.header);
        Prepend(yielded, Interpret(statics, a.value.table, reps[1..], count + |yielded|))
  }

  ghost function TwoPhase(tb: Tables, block: Bytes, table: Table, count: nat): Result<seq<Header>, HpackError>
    requires InRange(tb.huffman)
  {
    var reps := Parse(tb, block);
    if reps.Err? then Err(reps.error) else Interpret(tb.statics, table, reps.value, count)
  }

  // ----- agreement -----

  /** The same headers, or an error on both sides (not always the same one: parsing the whole block first can meet a
    * later fault before an earlier bad index). */
  ghost predicate Agree<T>(a: Result<T, HpackError>, b: Result<T, HpackError>) {
    a == b || (a.Err? && b.Err?)
  }

  ghost function OneByOne(tb: Tables, buf: Bytes, table: Table): Result<Step, HpackError>
    requires InRange(tb.huffman) && buf != []
  {
    var p := ParseOne(tb, buf);
    if p.Err? then Err(p.error)
    else
      var a := Apply(tb.statics, table, p.value.rep);
      if a.Err? then Err(a.error) else Ok(Step(a.value.header, a.value.table, p.value.used))
  }

  lemma LiteralsAgree(tb: Tables, buf: Bytes, p: nat, table: Table, indexing: bool)
    requires InRange(tb.huffman)
    ensures var f, q := LiteralAt(tb, buf, p, table.entries), ParseLiteral(tb, buf, p, indexing);
      if q.Err? then f.Err?
      else
        var a := Apply(tb.statics, table, q.value.rep);
        if a.Err? then f.Err?
        else f.Ok? && a.value.header == Some(f.value.header) && f.value.used == q.value.used
             && a.value.table == if indexing then Inserted(table, f.value.header) else table
  {
    var d := DecodeInteger(buf, p);
    if d.Ok? && d.value.value != 0 {
      var h := Lookup(tb.statics, table.entries, d.value.value);
      assert NameAt(tb, buf[d.value.used..], d.value.value, table.entries) ==
        if h.Err? then Err(h.error) else Ok(Text(h.value.name, 0));
    }
  }

  lemma StepsAgree(tb: Tables, buf: Bytes, table: Table)
    requires InRange(tb.huffman) && buf != []
    ensures Agree(StepAt(tb, buf, table), OneByOne(tb, buf, table))
  {
    assert Key(REPRESENTATION);
    if 0x40 <= buf[0] < 0x80 {
      LiteralsAgree(tb, buf, 6, table, true);
    } else if buf[0] < 0x20 {
      LiteralsAgree(tb, buf, 4, table, false);
    }
  }

  /** The two-phase reading of a block, by what its first representation does. */
  lemma TwoPhaseStep(tb: Tables, block: Bytes, table: Table, count: nat)
    requires InRange(tb.huffman) && block != []
    ensures var whole, s := TwoPhase(tb, block, table, count), OneByOne(tb, block, table);
      if count >= MAX_HEADERS || s.Err? then whole.Err?
      else
        var yielded := Yield(s.value.header);
        var others := TwoPhase(tb, block[s.value.used..], s.value.table, count + |yielded|);
        if others.Err? then whole.Err? else whole == Prepend(yielded, others)
  {
    var p := ParseOne(tb, block);
    if p.Ok? {
      var others := Parse(tb, block[p.value.used..]);
      if others.Ok? {
        assert ([p.value.rep] + others.value)[1..] == others.value;
      }
    }
  }

  lemma AgreeOnPrepending(front: seq<Header>, a: Result<seq<Header>, HpackError>, b: Result<seq<Header>, HpackError>,
                          whole: Result<seq<Header>, HpackError>)
    requires Agree(a, b)
    requires if b.Err? then whole.Err? else whole == Prepend(front, b)
    ensures Agree(Prepend(front, a), whole)
  {
  }

  /** The two readings agree on the rest of a block. */
  ghost predicate ReadingsAgree(tb: Tables, block: Bytes, table: Table, count: nat)
    requires InRange(tb.huffman)
  {
    forall k: int {:trigger Key(k)} :: Key(k) && k == AGREEMENT ==>
      Agree(DecodeFrom(tb, block, table, count), TwoPhase(tb, block, table, count))
  }

  /** The same by what the decoder's step does. */
  lemma {:induction false} TwoPhaseBehind(tb: Tables, block: Bytes, table: Table, count: nat,
                                          s: Result<Step, HpackError>)
    requires InRange(tb.huffman) && block != [] && StepAt(tb, block, table) == s
    ensures var whole := TwoPhase(tb, block, table, count);
      if count >= MAX_HEADERS || s.Err? then whole.Err?
      else
        var yielded := Yield(s.value.header);
        var others := TwoPhase(tb, block[s.value.used..], s.value.table, count + |yielded|);
        if others.Err? then whole.Err? else whole == Prepend(yielded, others)
  {
    TwoPhaseStep(tb, block, table, count);
    StepsAgree(tb, block, table);
  }

  lemma {:induction false} ReadingsAgreeMeans(tb: Tables, block: Bytes, table: Table, count: nat)
    requires InRange(tb.huffman) && ReadingsAgree(tb, block, table, count)
    ensures Agree(DecodeFrom(tb, block, table, count), TwoPhase(tb, block, table, count))
  {
    assert Key(AGREEMENT);
  }

  lemma {:induction false} AgreeOnError(tb: Tables, block: Bytes, table: Table, count: nat)
    requires InRange(tb.huffman) && block != [] && (count >= MAX_HEADERS || StepAt(tb, block, table).Err?)
    ensures ReadingsAgree(tb, block, table, count)
  {
    DecodeFromStep(tb, block, table, count);
    TwoPhaseBehind(tb, block, table, count, StepAt(tb, block, table));
  }

  /** If the two readings agree behind the first representation, they agree. */
  lemma {:induction false} AgreeBehind(tb: Tables, block: Bytes, table: Table, count: nat, s: Step)
    requires InRange(tb.huffman) && block != [] && count < MAX_HEADERS && StepAt(tb, block, table) == Ok(s)
    requires ReadingsAgree(tb, block[s.used..], s.table, count + |Yield(s.header)|)
    ensures ReadingsAgree(tb, block, table, count)
  {
    DecodeFromStep(tb, block, table, count);
    TwoPhaseBehind(tb, block, table, count, Ok(s));
    var yielded, rest, n := Yield(s.header), block[s.used..], count + |Yield(s.header)|;
    ReadingsAgreeMeans(tb, rest, s.table, n);
    AgreeOnPrepending(yielded, DecodeFrom(tb, rest, s.table, n), TwoPhase(tb, rest, s.table, n),
                      TwoPhase(tb, block, table, count));
  }

  lemma {:induction false} ReadingsAlwaysAgree(tb: Tables, block: Bytes, table: Table, count: nat)
    requires InRange(tb.huffman)
    ensures ReadingsAgree(tb, block, table, count)
    decreases |block|
  {
    if block != [] {
      var s := StepAt(tb, block, table);
      if s.Ok? && count < MAX_HEADERS {
        ReadingsAlwaysAgree(tb, block[s.value.used..], s.value.table, count + |Yield(s.value.header)|);
        AgreeBehind(tb, block, table, count, s.value);
      } else {
        AgreeOnError(tb, block, table, count);
      }
    }
  }

  /** The one-pass decoder refines the two-phase reading, from any table and count: the same headers, or an error. */
  lemma {:induction false} DecoderRefinesGrammar(tb: Tables, block: Bytes, table: Table, count: nat)
    requires InRange(tb.huffman)
    ensures Agree(DecodeFrom(tb, block, table, count), TwoPhase(tb, block, table, count))
  {
    ReadingsAlwaysAgree(tb, block, table, count);
    ReadingsAgreeMeans(tb, block, table, count);
  }
}
