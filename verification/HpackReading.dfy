/** What the octets of a header block do, one representation at a time, said by the octets themselves. */
module HpackReading {
  import opened Locks
  import opened Sequences
  import opened Bits
  import opened Results
  import opened HuffmanCode
  import HuffmanDecoder
  import opened Integers
  import opened HeaderTables
  import opened HpackDecoder
  import opened HpackEncoder

  // ----- strings -----

  /** Read from the front of anything, `octets` is the string `s`. */
  ghost predicate IsString(tb: Tables, octets: Bytes, s: Bytes)
    requires InRange(tb.huffman)
  {
    forall k: int {:trigger Key(k)} :: Key(k) && k == PARTS ==>
      octets != [] && forall rest: Bytes :: StringAt(tb, octets + rest) == Ok(Text(s, |octets|))
  }

  lemma {:induction false} ShortInteger(first: u8, rest: Bytes, p: nat)
    requires 4 <= p <= 7 && first % Pow2(p) < Pow2(p) - 1
    ensures DecodeInteger([first] + rest, p) == Ok(Decoded(first % Pow2(p), 1))
  {
  }

  lemma {:induction false} ShortString(tb: Tables, length: u8, sent: Bytes, s: Bytes)
    requires InRange(tb.huffman) && tb.lossy(s) == s && length % 128 == |sent| < 127
    requires Plain(tb, length >= 0x80, sent) == Ok(s)
    ensures IsString(tb, [length] + sent, s)
  {
    Pow2Values();
    var octets := [length] + sent;
    forall rest: Bytes
      ensures StringAt(tb, octets + rest) == Ok(Text(s, |octets|))
    {
      ShortInteger(length, sent + rest, 7);
      StringOfParts(tb, [length], sent, rest, s);
      Associate([length], sent, rest);
    }
  }

  /** A string of fewer than 127 octets as it is, behind its length. */
  lemma {:induction false} RawString(tb: Tables, s: Bytes)
    requires InRange(tb.huffman) && tb.lossy(s) == s && |s| < 127
    ensures IsString(tb, [|s|] + s, s)
  {
    ShortString(tb, |s|, s, s);
  }

  /** The same in Huffman code, behind the length of the code with the flag above it. */
  lemma {:induction false} HuffmanString(tb: Tables, s: Bytes, sent: Bytes)
    requires Valid(tb) && tb.lossy(s) == s && HuffmanEncode(tb.huffman, s) == sent && |sent| < 127
    ensures IsString(tb, [0x80 + |sent|] + sent, s)
  {
    ValidMeans(tb);
    HuffmanDecoder.HuffmanRoundTrip(tb.huffman, s);
    ShortString(tb, 0x80 + |sent|, sent, s);
  }

  // ----- representations -----

  /** From the front of anything, `octets` yields `header` and turns `table` into `next`. */
  ghost predicate Does(tb: Tables, octets: Bytes, table: Table, header: Option<Header>, next: Table)
    requires InRange(tb.huffman)
  {
    forall k: int {:trigger Key(k)} :: Key(k) && k == LAYOUT ==>
      && octets != []
      && forall rest: Bytes :: StepAt(tb, octets + rest, table) == Ok(Step(header, next, |octets|))
  }

  lemma {:induction false} IndexedStep(tb: Tables, index: nat, table: Table, h: Header, rest: Bytes)
    requires InRange(tb.huffman) && index < 127 && Lookup(tb.statics, table.entries, index) == Ok(h)
    ensures StepAt(tb, [0x80 + index] + rest, table) == Ok(Step(Some(h), table, 1))
  {
    Pow2Values();
    ShortInteger(0x80 + index, rest, 7);
    assert Key(REPRESENTATION);
  }

  /** An octet above 0x80 stands for the header at that index. */
  lemma {:induction false} IndexedDoes(tb: Tables, index: nat, table: Table, h: Header)
    requires InRange(tb.huffman) && index < 127 && Lookup(tb.statics, table.entries, index) == Ok(h)
    ensures Does(tb, [0x80 + index], table, Some(h), table)
  {
    var octets := [0x80 + index];
    forall rest: Bytes
      ensures StepAt(tb, octets + rest, table) == Ok(Step(Some(h), table, |octets|))
    {
      IndexedStep(tb, index, table, h, rest);
    }
  }

  lemma {:induction false} StringThen(tb: Tables, octets: Bytes, s: Bytes, rest: Bytes)
    requires InRange(tb.huffman) && IsString(tb, octets, s)
    ensures StringAt(tb, octets + rest) == Ok(Text(s, |octets|))
  {
    assert Key(PARTS);
  }

  lemma {:induction false} TwoParts(first: u8, a: Bytes, rest: Bytes)
    ensures var whole := ([first] + a) + rest; whole == [first] + (a + rest) && whole[1..] == a + rest
  {
  }

  lemma {:induction false} NamedStep(tb: Tables, index: nat, octets: Bytes, value: Bytes, table: Table, h: Header,
                                     rest: Bytes)
    requires InRange(tb.huffman) && 0 < index < 63 && Lookup(tb.statics, table.entries, index) == Ok(h)
    requires IsString(tb, octets, value)
    ensures StepAt(tb, ([0x40 + index] + octets) + rest, table) ==
      Ok(Step(Some(Header(h.name, value)), Inserted(table, Header(h.name, value)), 1 + |octets|))
  {
    Pow2Values();
    var buf := ([0x40 + index] + octets) + rest;
    TwoParts(0x40 + index, octets, rest);
    ShortInteger(0x40 + index, octets + rest, 6);
    StringThen(tb, octets, value, rest);
    LiteralStep(tb, buf, table, Decoded(index, 1), Ok(Text(h.name, 0)), Ok(Text(value, |octets|)));
  }

  /** A literal whose name is at an index, added to the table. */
  lemma {:induction false} NamedDoes(tb: Tables, index: nat, octets: Bytes, value: Bytes, table: Table, h: Header)
    requires InRange(tb.huffman) && 0 < index < 63 && Lookup(tb.statics, table.entries, index) == Ok(h)
    requires IsString(tb, octets, value)
    ensures Does(tb, [0x40 + index] + octets, table, Some(Header(h.name, value)),
                 Inserted(table, Header(h.name, value)))
  {
    var whole := [0x40 + index] + octets;
    forall rest: Bytes
      ensures StepAt(tb, whole + rest, table) ==
        Ok(Step(Some(Header(h.name, value)), Inserted(table, Header(h.name, value)), |whole|))
    {
      NamedStep(tb, index, octets, value, table, h, rest);
    }
  }

  lemma {:induction false} ThreeParts(first: u8, a: Bytes, b: Bytes, rest: Bytes)
    ensures var whole := ([first] + (a + b)) + rest;
      && whole == [first] + (a + (b + rest))
      && whole[1..] == a + (b + rest) && whole[1 + |a|..] == b + rest
  {
  }

  lemma {:induction false} InlineStep(tb: Tables, a: Bytes, name: Bytes, b: Bytes, value: Bytes, table: Table,
                                      rest: Bytes)
    requires InRange(tb.huffman) && IsString(tb, a, name) && IsString(tb, b, value)
    ensures StepAt(tb, ([0x40] + (a + b)) + rest, table) ==
      Ok(Step(Some(Header(name, value)), Inserted(table, Header(name, value)), 1 + |a| + |b|))
  {
    Pow2Values();
    var buf := ([0x40] + (a + b)) + rest;
    ThreeParts(0x40, a, b, rest);
    ShortInteger(0x40, a + (b + rest), 6);
    StringThen(tb, a, name, b + rest);
    StringThen(tb, b, value, rest);
    LiteralStep(tb, buf, table, Decoded(0, 1), Ok(Text(name, |a|)), Ok(Text(value, |b|)));
  }

  /** A literal with its name written out, added to the table. */
  lemma {:induction false} InlineDoes(tb: Tables, a: Bytes, name: Bytes, b: Bytes, value: Bytes, table: Table)
    requires InRange(tb.huffman) && IsString(tb, a, name) && IsString(tb, b, value)
    ensures Does(tb, [0x40] + (a + b), table, Some(Header(name, value)), Inserted(table, Header(name, value)))
  {
    var whole := [0x40] + (a + b);
    forall rest: Bytes
      ensures StepAt(tb, whole + rest, table) ==
        Ok(Step(Some(Header(name, value)), Inserted(table, Header(name, value)), |whole|))
    {
      InlineStep(tb, a, name, b, value, table, rest);
    }
  }

  lemma {:induction false} Unindexed(tb: Tables, buf: Bytes, table: Table, d: Decoded, n: Text, v: Text)
    requires InRange(tb.huffman) && buf != [] && buf[0] < 0x20 && DecodeInteger(buf, 4) == Ok(d)
    requires NameAt(tb, buf[d.used..], d.value, table.entries) == Ok(n) && d.used + n.used <= |buf|
    requires StringAt(tb, buf[d.used + n.used..]) == Ok(v)
    ensures StepAt(tb, buf, table) == Ok(Step(Some(Header(n.octets, v.octets)), table, d.used + n.used + v.used))
  {
    assert Key(REPRESENTATION);
  }

  lemma {:induction false} UnindexedNamedStep(tb: Tables, first: u8, index: nat, octets: Bytes, value: Bytes,
                                              table: Table, h: Header, rest: Bytes)
    requires InRange(tb.huffman) && first < 0x20 && first % 16 == index
    requires 0 < index < 15 && Lookup(tb.statics, table.entries, index) == Ok(h) && IsString(tb, octets, value)
    ensures StepAt(tb, ([first] + octets) + rest, table) == Ok(Step(Some(Header(h.name, value)), table, 1 + |octets|))
  {
    Pow2Values();
    TwoParts(first, octets, rest);
    ShortInteger(first, octets + rest, 4);
    StringThen(tb, octets, value, rest);
    Unindexed(tb, ([first] + octets) + rest, table, Decoded(index, 1), Text(h.name, 0), Text(value, |octets|));
  }

  /** A literal that is not added to the table, whose name is at an index; from 0x10 on it is never to be indexed. */
  lemma {:induction false} UnindexedNamedDoes(tb: Tables, kind: u8, index: nat, octets: Bytes, value: Bytes,
                                              table: Table, h: Header)
    requires InRange(tb.huffman) && (kind == 0 || kind == 0x10)
    requires 0 < index < 15 && Lookup(tb.statics, table.entries, index) == Ok(h) && IsString(tb, octets, value)
    ensures Does(tb, [kind + index] + octets, table, Some(Header(h.name, value)), table)
  {
    var whole := [kind + index] + octets;
    forall rest: Bytes
      ensures StepAt(tb, whole + rest, table) == Ok(Step(Some(Header(h.name, value)), table, |whole|))
    {
      UnindexedNamedStep(tb, kind + index, index, octets, value, table, h, rest);
    }
  }

  lemma {:induction false} UnindexedStep(tb: Tables, kind: u8, a: Bytes, name: Bytes, b: Bytes, value: Bytes,
                                         table: Table, rest: Bytes)
    requires InRange(tb.huffman) && (kind == 0 || kind == 0x10) && IsString(tb, a, name) && IsString(tb, b, value)
    ensures StepAt(tb, ([kind] + (a + b)) + rest, table) ==
      Ok(Step(Some(Header(name, value)), table, 1 + |a| + |b|))
  {
    Pow2Values();
    ThreeParts(kind, a, b, rest);
    ShortInteger(kind, a + (b + rest), 4);
    StringThen(tb, a, name, b + rest);
    StringThen(tb, b, value, rest);
    Unindexed(tb, ([kind] + (a + b)) + rest, table, Decoded(0, 1), Text(name, |a|), Text(value, |b|));
  }

  /** The same with its name written out. */
  lemma {:induction false} UnindexedDoes(tb: Tables, kind: u8, a: Bytes, name: Bytes, b: Bytes, value: Bytes,
                                         table: Table)
    requires InRange(tb.huffman) && (kind == 0 || kind == 0x10) && IsString(tb, a, name) && IsString(tb, b, value)
    ensures Does(tb, [kind] + (a + b), table, Some(Header(name, value)), table)
  {
    var whole := [kind] + (a + b);
    forall rest: Bytes
      ensures StepAt(tb, whole + rest, table) == Ok(Step(Some(Header(name, value)), table, |whole|))
    {
      UnindexedStep(tb, kind, a, name, b, value, table, rest);
    }
  }

  lemma {:induction false} ResizingStep(tb: Tables, a: u8, b: u8, table: Table, rest: Bytes)
    requires InRange(tb.huffman) && a < 128 && b < 128
    ensures StepAt(tb, [0x3f, 0x80 + a, b] + rest, table) == Ok(Step(None, Resized(table, 31 + a + 128 * b), 3))
  {
    var buf := [0x3f, 0x80 + a, b] + rest;
    Pow2Values();
    assert buf[1..] == [0x80 + a, b] + rest;
    TwoMore(a, b, rest);
    assert DecodeInteger(buf, 5) == Ok(Decoded(31 + a + 128 * b, 3));
    assert Key(REPRESENTATION);
  }

  lemma {:induction false} LastOne(b: u8, rest: Bytes, value: nat)
    requires b < 128 && value < 0x100
    ensures Continue([b] + rest, value, 7) == Ok(Decoded(value + 128 * b, 1))
  {
    Pow2Values();
  }

  lemma {:induction false} TwoMore(a: u8, b: u8, rest: Bytes)
    requires a < 128 && b < 128
    ensures Continue([0x80 + a, b] + rest, 31, 0) == Ok(Decoded(31 + a + 128 * b, 2))
  {
    var s := [0x80 + a, b] + rest;
    assert s[1..] == [b] + rest;
    LastOne(b, rest, 31 + a);
  }

  /** A size update in three octets. */
  lemma {:induction false} ResizingDoes(tb: Tables, a: u8, b: u8, table: Table)
    requires InRange(tb.huffman) && a < 128 && b < 128
    ensures Does(tb, [0x3f, 0x80 + a, b], table, None, Resized(table, 31 + a + 128 * b))
  {
    var next := Resized(table, 31 + a + 128 * b);
    var octets := [0x3f, 0x80 + a, b];
    forall rest: Bytes
      ensures StepAt(tb, octets + rest, table) == Ok(Step(None, next, |octets|))
    {
      ResizingStep(tb, a, b, table, rest);
    }
  }

  // ----- blocks -----

  /** In front of anything, and with fewer headers before it than may be, `block` yields `hs` and leaves `next`. */
  ghost predicate Reads(tb: Tables, block: Bytes, table: Table, hs: seq<Header>, next: Table)
    requires InRange(tb.huffman)
  {
    forall k: int {:trigger Key(k)} :: Key(k) && k == DECODING_LOOP ==>
      forall rest: Bytes, count: nat {:trigger DecodeFrom(tb, block + rest, table, count)} ::
        count + |hs| < MAX_HEADERS ==>
          DecodeFrom(tb, block + rest, table, count) == Prepend(hs, DecodeFrom(tb, rest, next, count + |hs|))
  }

  lemma {:induction false} ReadsNothing(tb: Tables, table: Table)
    requires InRange(tb.huffman)
    ensures Reads(tb, [], table, [], table)
  {
    forall rest: Bytes, count: nat
      ensures DecodeFrom(tb, [] + rest, table, count) == Prepend([], DecodeFrom(tb, rest, table, count))
    {
      assert [] + rest == rest;
      PrependNothing(DecodeFrom(tb, rest, table, count));
    }
  }

  lemma {:induction false} StepIn(tb: Tables, octets: Bytes, rest: Bytes, table: Table, header: Option<Header>,
                                  next: Table, count: nat)
    requires InRange(tb.huffman) && Does(tb, octets, table, header, next) && count < MAX_HEADERS
    ensures DecodeFrom(tb, octets + rest, table, count) ==
      Prepend(Yield(header), DecodeFrom(tb, rest, next, count + |Yield(header)|))
  {
    assert Key(LAYOUT);
    DecodeFromStep(tb, octets + rest, table, count);
    assert (octets + rest)[|octets|..] == rest;
  }

  lemma {:induction false} ReadThen(tb: Tables, block: Bytes, table: Table, hs: seq<Header>, next: Table, rest: Bytes,
                                    count: nat)
    requires InRange(tb.huffman) && Reads(tb, block, table, hs, next) && count + |hs| < MAX_HEADERS
    ensures DecodeFrom(tb, block + rest, table, count) == Prepend(hs, DecodeFrom(tb, rest, next, count + |hs|))
  {
    assert Key(DECODING_LOOP);
  }

  /** One representation more. */
  lemma {:induction false} OneMore(tb: Tables, block: Bytes, start: Table, hs: seq<Header>, table: Table,
                                   octets: Bytes, header: Option<Header>, next: Table)
    requires InRange(tb.huffman) && Reads(tb, block, start, hs, table) && Does(tb, octets, table, header, next)
    ensures Reads(tb, block + octets, start, hs + Yield(header), next)
  {
    var more := Yield(header);
    forall rest: Bytes, count: nat | count + |hs + more| < MAX_HEADERS
      ensures DecodeFrom(tb, (block + octets) + rest, start, count) ==
        Prepend(hs + more, DecodeFrom(tb, rest, next, count + |hs + more|))
    {
      Associate(block, octets, rest);
      ReadThen(tb, block, start, hs, table, octets + rest, count);
      StepIn(tb, octets, rest, table, header, next, count + |hs|);
      PrependTwice(hs, more, DecodeFrom(tb, rest, next, count + |hs + more|));
    }
  }

  /** One more header from an index. */
  lemma {:induction false} ThenIndexed(tb: Tables, block: Bytes, start: Table, hs: seq<Header>, table: Table,
                                       index: nat, h: Header)
    requires InRange(tb.huffman) && Reads(tb, block, start, hs, table)
    requires index < 127 && Lookup(tb.statics, table.entries, index) == Ok(h)
    ensures Reads(tb, block + [0x80 + index], start, hs + [h], table)
  {
    IndexedDoes(tb, index, table, h);
    OneMore(tb, block, start, hs, table, [0x80 + index], Some(h), table);
  }

  /** One more header with its name at an index, added to the table. */
  lemma {:induction false} ThenNamed(tb: Tables, block: Bytes, start: Table, hs: seq<Header>, table: Table,
                                     index: nat, octets: Bytes, h: Header, next: Table)
    requires InRange(tb.huffman) && Reads(tb, block, start, hs, table) && IsString(tb, octets, h.value)
    requires 0 < index < 63 && Lookup(tb.statics, table.entries, index).Ok?
    requires Lookup(tb.statics, table.entries, index).value.name == h.name && next == Inserted(table, h)
    ensures Reads(tb, block + ([0x40 + index] + octets), start, hs + [h], next)
  {
    NamedDoes(tb, index, octets, h.value, table, Lookup(tb.statics, table.entries, index).value);
    OneMore(tb, block, start, hs, table, [0x40 + index] + octets, Some(h), next);
  }

  /** One block more. */
  lemma {:induction false} BlockMore(tb: Tables, a: Bytes, start: Table, hs: seq<Header>, table: Table,
                                     b: Bytes, more: seq<Header>, next: Table)
    requires InRange(tb.huffman) && Reads(tb, a, start, hs, table) && Reads(tb, b, table, more, next)
    ensures Reads(tb, a + b, start, hs + more, next)
  {
    forall rest: Bytes, count: nat | count + |hs + more| < MAX_HEADERS
      ensures DecodeFrom(tb, (a + b) + rest, start, count) ==
        Prepend(hs + more, DecodeFrom(tb, rest, next, count + |hs + more|))
    {
      Associate(a, b, rest);
      ReadThen(tb, a, start, hs, table, b + rest, count);
      ReadThen(tb, b, table, more, next, rest, count + |hs|);
      PrependTwice(hs, more, DecodeFrom(tb, rest, next, count + |hs + more|));
    }
  }

  lemma {:induction false} WholeBlock(tb: Tables, block: Bytes, table: Table, hs: seq<Header>, next: Table)
    requires InRange(tb.huffman) && Reads(tb, block, table, hs, next) && |hs| < MAX_HEADERS
    ensures DecodeFrom(tb, block, table, 0) == Ok(hs)
  {
    ReadThen(tb, block, table, hs, next, [], 0);
    assert block + [] == block && hs + [] == hs;
  }

  // ----- what the encoder writes -----

  /** A header of the static table is the octet of the first index it is at. */
  lemma {:induction false} IndexedIsWritten(tb: Tables, i: nat, h: Header)
    requires InRange(tb.huffman) && i < |tb.statics| && i < 126 && tb.statics[i] == h && h !in tb.statics[..i]
    ensures HeaderOctets(tb, h) == [0x81 + i]
  {
    PrefixesAreFree();
  }

  /** One that only shares its name with the static table is the octet of the first index of the name and its value, and
    * one with a new name is the octet 0x40, its name and its value. */
  lemma {:induction false} LiteralIsWritten(tb: Tables, i: nat, h: Header)
    requires InRange(tb.huffman) && i <= |tb.statics| && i < 62 && h !in tb.statics
    requires i < |tb.statics| ==> tb.statics[i].name == h.name
    requires forall j :: 0 <= j < i ==> tb.statics[j].name != h.name
    ensures HeaderOctets(tb, h) ==
      if i < |tb.statics| then [0x41 + i] + StringOctets(tb, h.value)
      else [0x40] + StringOctets(tb, h.name) + StringOctets(tb, h.value)
  {
    PrefixesAreFree();
  }

  /** A short string is written behind its length, in Huffman code exactly when that is shorter. */
  lemma {:induction false} StringIsWritten(tb: Tables, s: Bytes)
    requires InRange(tb.huffman) && |s| < 127
    ensures var sent := HuffmanEncode(tb.huffman, s);
      StringOctets(tb, s) == if |sent| < |s| then [0x80 + |sent|] + sent else [|s|] + s
  {
    PrefixesAreFree();
  }

  // ----- tables -----

  /** A table with entries of this size in all. */
  ghost predicate Holding(t: Table, entries: seq<Header>, size: nat, maxSize: nat) {
    t == Table(entries, maxSize) && SizeOf(entries) == size <= maxSize
  }

  /** What fits is added in front. */
  lemma {:induction false} Added(t: Table, entries: seq<Header>, size: nat, maxSize: nat, h: Header)
    requires Holding(t, entries, size, maxSize) && size + Cost(h) <= maxSize
    ensures Holding(Inserted(t, h), [h] + entries, size + Cost(h), maxSize)
  {
    SizeOfConcat([h], entries);
    assert [h][..0] == [];
  }

  lemma {:induction false} FitDrops(kept: seq<Header>, gone: seq<Header>, maxSize: nat)
    requires gone != [] && SizeOf(kept) <= maxSize < SizeOf(kept) + Cost(gone[0])
    ensures Fit(kept + gone, maxSize) == kept
  {
    SizeOfConcat(kept, gone);
    SizeOfConcat(gone[..1], gone[1..]);
    assert gone == gone[..1] + gone[1..] && gone[..1][..0] == [];
    assert (kept + gone)[..|kept + gone| - 1] == kept + gone[..|gone| - 1];
    if |gone| > 1 {
      FitDrops(kept, gone[..|gone| - 1], maxSize);
    } else {
      assert kept + [] == kept;
    }
  }

  /** The oldest entries make room for one that would not fit beside the newest of them. */
  lemma {:induction false} AddedForOldest(t: Table, kept: seq<Header>, gone: seq<Header>, size: nat, maxSize: nat,
                                          h: Header)
    requires Holding(t, kept + gone, size, maxSize) && gone != [] && SizeOf(gone) <= size
    requires size + Cost(h) - SizeOf(gone) <= maxSize < size + Cost(h) - SizeOf(gone) + Cost(gone[0])
    ensures Holding(Inserted(t, h), [h] + kept, size + Cost(h) - SizeOf(gone), maxSize)
  {
    SizeOfConcat(kept, gone);
    SizeOfConcat([h], kept);
    assert [h][..0] == [];
    FitDrops([h] + kept, gone, maxSize);
    Associate([h], kept, gone);
  }
}
