/** The Huffman decoder, a bit-by-bit walk of the tree, proved to be exactly the inverse of the encoding. */
module HuffmanDecoder {
  import opened Sequences
  import opened Locks
  import opened Bits
  import opened HuffmanCode
  import opened HuffmanTree
  import opened Results
  import opened HpackErrors

  ghost predicate Undecodable(t: seq<Row>, x: Bytes)
    requires InRange(t)
  {
    forall s: Bytes :: HuffmanEncode(t, s) != x
  }

  /** `r` is the string whose encoding is `x`, or the error when no string has that encoding. */
  ghost predicate DecodesTo(t: seq<Row>, x: Bytes, r: Result<Bytes, HpackError>)
    requires InRange(t)
  {
    forall k: int {:trigger Key(k)} :: Key(k) && k == HUFFMAN_DECODE ==>
      if r.Ok? then HuffmanEncode(t, r.value) == x
      else r.error == BadHuffman && Undecodable(t, x)
  }

  lemma SomethingDecoded(t: seq<Row>, x: Bytes)
    requires InRange(t)
    ensures exists r :: DecodesTo(t, x, r)
  {
    if s: Bytes :| HuffmanEncode(t, s) == x {
      assert DecodesTo(t, x, Ok(s));
    } else {
      assert DecodesTo(t, x, Err(BadHuffman));
    }
  }

  /** What decoding means: the inverse of the encoding. */
  ghost function HuffmanDecode(t: seq<Row>, x: Bytes): (r: Result<Bytes, HpackError>)
    requires InRange(t)
    ensures DecodesTo(t, x, r)
  {
    SomethingDecoded(t, x);
    var r :| DecodesTo(t, x, r);
    r
  }

  /** Decoding inverts encoding in both directions: a string is the result exactly when it encodes to the input. */
  lemma DecodeInvertsEncode(t: seq<Row>, x: Bytes, s: Bytes)
    requires IsCode(t)
    ensures HuffmanDecode(t, x) == Ok(s) <==> HuffmanEncode(t, s) == x
    ensures HuffmanDecode(t, x).Err? ==> HuffmanDecode(t, x) == Err(BadHuffman)
  {
    assert Key(HUFFMAN_DECODE);
    var r := HuffmanDecode(t, x);
    if r.Ok? && HuffmanEncode(t, s) == x {
      HuffmanInjective(t, r.value, s);
    }
  }

  lemma UndecodableIsError(t: seq<Row>, x: Bytes)
    requires IsCode(t) && Undecodable(t, x)
    ensures HuffmanDecode(t, x) == Err(BadHuffman)
  {
    assert Key(HUFFMAN_DECODE);
  }

  /** Round trip: every string decodes from its own encoding. */
  lemma HuffmanRoundTrip(t: seq<Row>, s: Bytes)
    requires IsCode(t)
    ensures HuffmanDecode(t, HuffmanEncode(t, s)) == Ok(s)
  {
    DecodeInvertsEncode(t, HuffmanEncode(t, s), s);
  }

  /** The walk so far: the bits read spell the symbols put out and then the path to the current node. */
  ghost predicate Reading(t: seq<Row>, path: BitString, bits: BitString, out: Bytes, since: nat, ones: bool)
    requires InRange(t)
  {
    bits == Encoded(t, out) + path && since == |path| && (ones <==> path == Ones(since))
  }

  lemma ReadOn(t: seq<Row>, path: BitString, bits: BitString, out: Bytes, since: nat, ones: bool, bit: bool)
    requires InRange(t) && Reading(t, path, bits, out, since, ones)
    ensures Reading(t, path + [bit], bits + [bit], out, since + 1, ones && bit)
  {
    assert bits + [bit] == Encoded(t, out) + (path + [bit]);
    var next := path + [bit];
    assert path == next[..since] && bit == next[since];
    if ones && bit {
      assert next == Ones(since + 1);
    } else if next == Ones(since + 1) {
      assert path == Ones(since);
    }
  }

  lemma ReadSymbol(t: seq<Row>, path: BitString, bits: BitString, out: Bytes, since: nat, ones: bool, symbol: u8)
    requires InRange(t) && Reading(t, path, bits, out, since, ones)
    requires path == Word(t, symbol)
    ensures Reading(t, [], bits, out + [symbol], 0, true)
  {
    assert (out + [symbol])[..|out|] == out;
    assert Encoded(t, out + [symbol]) == Encoded(t, out) + Word(t, symbol);
    assert Ones(0) == [];
  }

  /** The end-of-string symbol is among the symbols read. */
  ghost predicate HitsEos(t: seq<Row>, bits: BitString)
    requires InRange(t)
  {
    exists out: Bytes :: Encoded(t, out) + Word(t, EOS) <= bits
  }

  lemma {:induction false} EosIsNotEncodedBy(t: seq<Row>, x: Bytes, out: Bytes, s: Bytes)
    requires IsCode(t) && Encoded(t, out) + Word(t, EOS) <= Unpack(x)
    ensures HuffmanEncode(t, s) != x
  {
    var read: seq<Symbol> := out + [EOS];
    assert read[..|out|] == out;
    var rest := Unpack(x)[|Encoded(t, read)|..];
    assert Unpack(x) == Encoded(t, read) + rest;
    if HuffmanEncode(t, s) == x {
      ReadingIsPrefix(t, read, rest, s, x);
      EosNotInBytes(out, s);
      assert false;
    }
  }

  /** After reading the end-of-string symbol no string has this encoding. */
  lemma {:induction false} EosIsNoEncoding(t: seq<Row>, x: Bytes)
    requires IsCode(t) && HitsEos(t, Unpack(x))
    ensures Undecodable(t, x)
  {
    var out: Bytes :| Encoded(t, out) + Word(t, EOS) <= Unpack(x);
    forall s: Bytes
      ensures HuffmanEncode(t, s) != x
    {
      EosIsNotEncodedBy(t, x, out, s);
    }
  }

  lemma {:induction false} ReadingIsPrefix(t: seq<Row>, read: seq<Symbol>, rest: BitString, s: Bytes, x: Bytes)
    requires IsCode(t) && HuffmanEncode(t, s) == x && Unpack(x) == Encoded(t, read) + rest
    ensures read <= s
  {
    var k := Padding(|Encoded(t, s)|);
    BitsOfEncoding(t, s, x);
    PaddingIsUnfinished(t, k);
    ReadingsAgree(t, read, rest, s, Ones(k));
  }

  lemma EosNotInBytes(out: Bytes, s: Bytes)
    ensures !(out + [EOS] <= s)
  {
    if |out| < |s| {
      assert s[|out|] != EOS;
    }
  }

  lemma EmptyIsUnfinished(t: seq<Row>)
    requires InRange(t)
    ensures ProperPrefixOfWord(t, [])
  {
    assert [] < Word(t, EOS);
  }

  /** All bits read: the padding rule decides. */
  lemma {:induction false} EndOfInput(t: seq<Row>, path: BitString, out: Bytes, since: nat, ones: bool, x: Bytes)
    requires IsCode(t) && Reading(t, path, Unpack(x), out, since, ones)
    requires Unfinished(t, path)
    ensures HuffmanDecode(t, x) == if since > 7 || !ones then Err(BadHuffman) else Ok(out)
  {
    EmptyIsUnfinished(t);
    if since <= 7 && ones {
      EncodingByBits(t, out, since, x);
      HuffmanRoundTrip(t, out);
    } else {
      forall s: Bytes
        ensures HuffmanEncode(t, s) != x
      {
        if HuffmanEncode(t, s) == x {
          OneReading(t, path, out, s, x);
          assert false;
        }
      }
      UndecodableIsError(t, x);
    }
  }

  lemma {:induction false} OneReading(t: seq<Row>, path: BitString, out: Bytes, s: Bytes, x: Bytes)
    requires IsCode(t) && ProperPrefixOfWord(t, path)
    requires Unpack(x) == Encoded(t, out) + path
    requires HuffmanEncode(t, s) == x
    ensures out == s && path == Ones(|path|) && |path| < 8
  {
    var k := Padding(|Encoded(t, s)|);
    BitsOfEncoding(t, s, x);
    PaddingIsUnfinished(t, k);
    ReadingsAgree(t, out, path, s, Ones(k));
    ReadingsAgree(t, s, Ones(k), out, path);
    MutualPrefixes<Symbol>(out, s);
    SameTail(Encoded(t, s), Ones(k), path);
  }

  lemma MutualPrefixes<T>(a: seq<T>, b: seq<T>)
    requires a <= b && b <= a
    ensures a == b
  {
  }

  lemma SameTail(a: BitString, b: BitString, c: BitString)
    requires a + b == a + c
    ensures b == c
  {
    assert b == (a + b)[|a|..];
    assert c == (a + c)[|a|..];
  }

  /** Where the decoder stands between two bits: the node reached, the symbols put out, the bits read since the
    * last of them and whether those were all ones. */
  datatype Cursor = Cursor(at: nat, out: Bytes, bitsSinceSymbol: nat, paddingIsAllOnes: bool)

  /** No slot holds a terminal beyond the end-of-string symbol. */
  ghost predicate SymbolsInRange(nodes: seq<Node>) {
    forall n, b {:trigger nodes[n].At(b)} :: 0 <= n < |nodes| ==> nodes[n].At(b) >= -EOS - 1
  }

  /** One bit of the walk; None on leaving the tree, on an unset slot and on the end-of-string symbol. */
  function Step(nodes: seq<Node>, c: Cursor, bit: bool): Option<Cursor> {
    if c.at >= |nodes| then None
    else
      var slot := nodes[c.at].At(bit);
      if slot > 0 then Some(Cursor(slot, c.out, c.bitsSinceSymbol + 1, c.paddingIsAllOnes && bit))
      else if slot == 0 || slot < -EOS then None
      else Some(Cursor(0, c.out + [-slot - 1], 0, true))
  }

  /** The walk over all of `bits`. */
  function Run(nodes: seq<Node>, bits: BitString): Option<Cursor> {
    if bits == [] then Some(Cursor(0, [], 0, true))
    else
      match Run(nodes, bits[..|bits| - 1])
      case None => None
      case Some(c) => Step(nodes, c, bits[|bits| - 1])
  }

  /** The walk, then the padding rule. */
  function Walked(nodes: seq<Node>, x: Bytes): Result<Bytes, HpackError> {
    match Run(nodes, Unpack(x))
    case None => Err(BadHuffman)
    case Some(c) => if c.bitsSinceSymbol > 7 || !c.paddingIsAllOnes then Err(BadHuffman) else Ok(c.out)
  }

  lemma {:induction false} RunStops(nodes: seq<Node>, a: BitString, b: BitString)
    requires Run(nodes, a) == None
    ensures Run(nodes, a + b) == None
  {
    if b == [] {
      assert a + b == a;
    } else {
      RunStops(nodes, a, b[..|b| - 1]);
      LastOff(a, b);
    }
  }

  lemma {:induction false} RunNext(nodes: seq<Node>, a: BitString, bit: bool, c: Cursor)
    requires Run(nodes, a) == Some(c)
    ensures Run(nodes, a + [bit]) == Step(nodes, c, bit)
  {
    assert (a + [bit])[..|a|] == a;
  }

  // ----- what the walk reads -----

  ghost predicate Stands(t: seq<Row>, paths: seq<BitString>, bits: BitString, c: Cursor)
    requires InRange(t)
  {
    c.at < |paths| && Reading(t, paths[c.at], bits, c.out, c.bitsSinceSymbol, c.paddingIsAllOnes)
  }

  /** What reading one more bit leads to: another node, a symbol, or the end-of-string symbol. */
  lemma AfterBit(t: seq<Row>, nodes: seq<Node>, paths: seq<BitString>, bits: BitString,
                 at: nat, out: Bytes, since: nat, ones: bool, bit: bool)
    requires IsCode(t) && IsTree(t, nodes, paths) && at < |nodes|
    requires Reading(t, paths[at], bits, out, since, ones)
    ensures var slot := nodes[at].At(bit);
      if slot > 0 then
        slot < |nodes| && Reading(t, paths[slot], bits + [bit], out, since + 1, ones && bit)
      else if slot == -(EOS + 1) then Reading(t, Word(t, EOS), bits + [bit], out, since + 1, ones && bit)
      else -EOS <= slot < 0 && Reading(t, [], bits + [bit], out + [-slot - 1], 0, true)
  {
    var slot := nodes[at].At(bit);
    TreeSlot(t, nodes, paths, at, bit);
    ReadOn(t, paths[at], bits, out, since, ones, bit);
    if slot < 0 && slot != -(EOS + 1) {
      ReadSymbol(t, paths[at] + [bit], bits + [bit], out, since + 1, ones && bit, -slot - 1);
    }
  }

  lemma StepStands(t: seq<Row>, nodes: seq<Node>, paths: seq<BitString>, bits: BitString, bit: bool, c: Cursor)
    requires IsCode(t) && IsTree(t, nodes, paths) && Stands(t, paths, bits, c)
    ensures match Step(nodes, c, bit)
      case Some(d) => Stands(t, paths, bits + [bit], d)
      case None =>
        Reading(t, Word(t, EOS), bits + [bit], c.out, c.bitsSinceSymbol + 1, c.paddingIsAllOnes && bit)
  {
    AfterBit(t, nodes, paths, bits, c.at, c.out, c.bitsSinceSymbol, c.paddingIsAllOnes, bit);
  }

  /** The walk reads code words, and stops only at the end-of-string symbol. */
  lemma {:induction false} RunReads(t: seq<Row>, nodes: seq<Node>, paths: seq<BitString>, bits: BitString)
    requires IsCode(t) && IsTree(t, nodes, paths)
    ensures match Run(nodes, bits)
      case Some(c) => Stands(t, paths, bits, c)
      case None => HitsEos(t, bits)
  {
    if bits == [] {
      assert Encoded(t, []) + paths[0] == [];
    } else {
      var init, bit := bits[..|bits| - 1], bits[|bits| - 1];
      assert bits == init + [bit];
      RunReads(t, nodes, paths, init);
      if c :| Run(nodes, init) == Some(c) {
        StepStands(t, nodes, paths, init, bit, c);
        RunNext(nodes, init, bit, c);
      } else {
        HitsEosOn(t, init, bits);
      }
    }
  }

  lemma HitsEosOn(t: seq<Row>, a: BitString, b: BitString)
    requires InRange(t) && HitsEos(t, a) && a <= b
    ensures HitsEos(t, b)
  {
    var out: Bytes :| Encoded(t, out) + Word(t, EOS) <= a;
    assert Encoded(t, out) + Word(t, EOS) <= b;
  }

  /** Walking a finished tree decodes: it inverts the encoder and rejects everything else. */
  lemma WalkDecodes(t: seq<Row>, nodes: seq<Node>, paths: seq<BitString>, x: Bytes)
    requires IsCode(t) && IsTree(t, nodes, paths)
    ensures Walked(nodes, x) == HuffmanDecode(t, x)
  {
    RunReads(t, nodes, paths, Unpack(x));
    if c :| Run(nodes, Unpack(x)) == Some(c) {
      EndOfInput(t, paths[c.at], c.out, c.bitsSinceSymbol, c.paddingIsAllOnes, x);
    } else {
      EosIsNoEncoding(t, x);
      UndecodableIsError(t, x);
    }
  }

  /** The walk fails, and then with the Huffman error, exactly on what is no string's encoding. */
  lemma WalkRejects(t: seq<Row>, nodes: seq<Node>, paths: seq<BitString>, x: Bytes)
    requires IsCode(t) && IsTree(t, nodes, paths)
    ensures Walked(nodes, x).Err? <==> Undecodable(t, x)
    ensures Walked(nodes, x).Err? ==> Walked(nodes, x) == Err(BadHuffman)
  {
    WalkDecodes(t, nodes, paths, x);
    assert Key(HUFFMAN_DECODE);
    if Undecodable(t, x) {
      UndecodableIsError(t, x);
    }
  }

  // ----- the loops -----

  lemma {:induction false} WalkTurn(nodes: seq<Node>, before: BitString, bits: BitString, j: nat, c: Cursor)
    requires j < |bits| && Run(nodes, before + bits[..j]) == Some(c)
    ensures Run(nodes, before + bits[..j + 1]) == Step(nodes, c, bits[j])
    ensures Step(nodes, c, bits[j]) == None ==> Run(nodes, before + bits) == None
  {
    RunNext(nodes, before + bits[..j], bits[j], c);
    assert before + bits[..j] + [bits[j]] == before + bits[..j + 1];
    RunStopsEarly(nodes, before, bits, j + 1);
  }

  /** The eight bits of one octet; `ok` is false when the walk fails on one of them. */
  method WalkOctet(nodes: seq<Node>, byte: u8, ghost before: BitString, c: Cursor) returns (ok: bool, d: Cursor)
    requires SymbolsInRange(nodes)
    requires Run(nodes, before) == Some(c)
    ensures Run(nodes, before + BitsOf(byte, 8)) == if ok then Some(d) else None
  {
    var at: nat, out: Bytes := c.at, c.out;
    var bitsSinceSymbol: nat, paddingIsAllOnes := c.bitsSinceSymbol, c.paddingIsAllOnes;
    ghost var bits := BitsOf(byte, 8);
    assert before + bits[..0] == before;
    for i := 8 downto 0
      invariant Run(nodes, before + bits[..8 - i]) == Some(Cursor(at, out, bitsSinceSymbol, paddingIsAllOnes))
    {
      var bit := BitOf(byte, 8, i);
      WalkTurn(nodes, before, bits, 7 - i, Cursor(at, out, bitsSinceSymbol, paddingIsAllOnes));
      if !bit {
        paddingIsAllOnes := false;
      }
      bitsSinceSymbol := bitsSinceSymbol + 1;

      if at >= |nodes| {
        return false, c;
      }
      var slot := nodes[at].At(bit);
      if slot < 0 {
        var symbol := -slot - 1;
        if symbol == EOS {
          return false, c;
        }
        out := out + [symbol];
        at := 0;
        bitsSinceSymbol := 0;
        paddingIsAllOnes := true;
      } else if slot > 0 {
        at := slot;
      } else {
        return false, c;
      }
    }
    assert bits[..8] == bits;
    return true, Cursor(at, out, bitsSinceSymbol, paddingIsAllOnes);
  }

  lemma {:induction false} RunStopsEarly(nodes: seq<Node>, before: BitString, bits: BitString, j: nat)
    requires j <= |bits|
    ensures Run(nodes, before + bits[..j]) == None ==> Run(nodes, before + bits) == None
  {
    if Run(nodes, before + bits[..j]) == None {
      RunStops(nodes, before + bits[..j], bits[j..]);
      assert before + bits[..j] + bits[j..] == before + bits;
    }
  }

  method DecodeWith(nodes: seq<Node>, input: Bytes) returns (r: Result<Bytes, HpackError>)
    requires SymbolsInRange(nodes)
    ensures r == Walked(nodes, input)
  {
    var c := Cursor(0, [], 0, true);
    for n := 0 to |input|
      invariant Run(nodes, Unpack(input[..n])) == Some(c)
    {
      var ok;
      UnpackNext(input, n);
      ok, c := WalkOctet(nodes, input[n], Unpack(input[..n]), c);
      if !ok {
        RejectsEarly(nodes, input[..n + 1], input[n + 1..], input);
        return Err(BadHuffman);
      }
    }
    assert input[..|input|] == input;
    if c.bitsSinceSymbol > 7 || !c.paddingIsAllOnes {
      return Err(BadHuffman);
    }
    return Ok(c.out);
  }

  lemma {:induction false} RejectsEarly(nodes: seq<Node>, a: Bytes, b: Bytes, x: Bytes)
    requires x == a + b && Run(nodes, Unpack(a)) == None
    ensures Walked(nodes, x) == Err(BadHuffman)
  {
    UnpackConcat(a, b);
    RunStops(nodes, Unpack(a), Unpack(b));
  }

  lemma UnpackNext(x: Bytes, n: nat)
    requires n < |x|
    ensures Unpack(x[..n + 1]) == Unpack(x[..n]) + BitsOf(x[n], 8)
  {
    assert x[..n + 1][..n] == x[..n];
  }

  /** Decodes a Huffman-coded string: exactly the inverse of the encoding. */
  method Decode(t: seq<Row>, input: Bytes) returns (r: Result<Bytes, HpackError>)
    requires IsCode(t)
    ensures r == HuffmanDecode(t, input)
  {
    var nodes, paths := Build(t);
    TreeSymbols(t, nodes, paths);
    r := DecodeWith(nodes, input);
    WalkDecodes(t, nodes, paths, input);
  }

  lemma TreeSymbols(t: seq<Row>, nodes: seq<Node>, paths: seq<BitString>)
    requires InRange(t) && IsTree(t, nodes, paths)
    ensures SymbolsInRange(nodes)
  {
    forall n, b | 0 <= n < |nodes|
      ensures nodes[n].At(b) >= -EOS - 1
    {
      TreeSlot(t, nodes, paths, n, b);
    }
  }

  /** A decompression bound: the shortest code word has five bits. */
  lemma DecodedLength(t: seq<Row>, x: Bytes)
    requires IsCode(t) && HuffmanDecode(t, x).Ok?
    ensures 5 * |HuffmanDecode(t, x).value| <= 8 * |x|
  {
    DecodeInvertsEncode(t, x, HuffmanDecode(t, x).value);
    ExpansionBound(t, HuffmanDecode(t, x).value);
  }
}
