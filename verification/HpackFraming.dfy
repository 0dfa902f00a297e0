/** Representations are self-delimiting: what a header block means does not depend on what follows it. */
module HpackFraming {
  import opened Locks
  import opened Bits
  import opened Results
  import opened HuffmanCode
  import opened Integers
  import opened HeaderTables
  import opened HpackDecoder

  lemma {:induction false} ContinueIsLocal(s: Bytes, more: Bytes, value: nat, shift: nat)
    requires Continue(s, value, shift).Ok?
    ensures Continue(s + more, value, shift) == Continue(s, value, shift)
    decreases |s|
  {
    assert (s + more)[0] == s[0];
    if s[0] >= 128 {
      assert (s + more)[1..] == s[1..] + more;
      ContinueIsLocal(s[1..], more, value + ((s[0] % 128) * Pow2(shift)) % WORD, shift + 7);
    }
  }

  lemma {:induction false} IntegerIsLocal(buf: Bytes, more: Bytes, p: nat)
    requires DecodeInteger(buf, p).Ok?
    ensures DecodeInteger(buf + more, p) == DecodeInteger(buf, p)
  {
    assert (buf + more)[0] == buf[0];
    if buf[0] % Pow2(p) >= Pow2(p) - 1 {
      assert (buf + more)[1..] == buf[1..] + more;
      ContinueIsLocal(buf[1..], more, buf[0] % Pow2(p), 0);
    }
  }

  lemma SlicesOfFront(buf: Bytes, more: Bytes, from: nat, to: nat)
    requires from <= to <= |buf|
    ensures (buf + more)[from..to] == buf[from..to] && (buf + more)[from..] == buf[from..] + more
  {
  }

  lemma StringIsLocal(tb: Tables, buf: Bytes, more: Bytes)
    requires InRange(tb.huffman) && StringAt(tb, buf).Ok?
    ensures StringAt(tb, buf + more) == StringAt(tb, buf)
  {
    IntegerIsLocal(buf, more, 7);
    var d := DecodeInteger(buf, 7).value;
    SlicesOfFront(buf, more, d.used, d.used + d.value);
    assert (buf + more)[0] == buf[0];
  }

  lemma NameIsLocal(tb: Tables, rest: Bytes, more: Bytes, index: nat, entries: seq<Header>)
    requires InRange(tb.huffman) && NameAt(tb, rest, index, entries).Ok?
    ensures NameAt(tb, rest + more, index, entries) == NameAt(tb, rest, index, entries)
  {
    if index == 0 {
      StringIsLocal(tb, rest, more);
    }
  }

  lemma ValueIsLocal(tb: Tables, buf: Bytes, more: Bytes, used: nat)
    requires InRange(tb.huffman) && used <= |buf| && StringAt(tb, buf[used..]).Ok?
    ensures StringAt(tb, (buf + more)[used..]) == StringAt(tb, buf[used..])
  {
    SlicesOfFront(buf, more, used, used);
    StringIsLocal(tb, buf[used..], more);
  }

  lemma NameBehind(tb: Tables, buf: Bytes, more: Bytes, used: nat, index: nat, entries: seq<Header>)
    requires InRange(tb.huffman) && used <= |buf| && NameAt(tb, buf[used..], index, entries).Ok?
    ensures NameAt(tb, (buf + more)[used..], index, entries) == NameAt(tb, buf[used..], index, entries)
  {
    SlicesOfFront(buf, more, used, used);
    NameIsLocal(tb, buf[used..], more, index, entries);
  }

  lemma LiteralIsLocal(tb: Tables, buf: Bytes, more: Bytes, p: nat, entries: seq<Header>)
    requires InRange(tb.huffman) && LiteralAt(tb, buf, p, entries).Ok?
    ensures LiteralAt(tb, buf + more, p, entries) == LiteralAt(tb, buf, p, entries)
  {
    IntegerIsLocal(buf, more, p);
    var d := DecodeInteger(buf, p).value;
    NameBehind(tb, buf, more, d.used, d.value, entries);
    ValueIsLocal(tb, buf, more, d.used + NameAt(tb, buf[d.used..], d.value, entries).value.used);
  }

  /** A representation is decoded the same whatever follows it. */
  lemma RepresentationIsLocal(tb: Tables, buf: Bytes, more: Bytes, table: Table)
    requires InRange(tb.huffman) && buf != [] && StepAt(tb, buf, table).Ok?
    ensures StepAt(tb, buf + more, table) == StepAt(tb, buf, table)
  {
    assert Key(REPRESENTATION);
    assert (buf + more)[0] == buf[0];
    if buf[0] >= 0x80 {
      IntegerIsLocal(buf, more, 7);
    } else if buf[0] >= 0x40 {
      LiteralIsLocal(tb, buf, more, 6, table.entries);
    } else if buf[0] >= 0x20 {
      IntegerIsLocal(buf, more, 5);
    } else {
      LiteralIsLocal(tb, buf, more, 4, table.entries);
    }
  }

  // ----- blocks that share a table -----

  /** The table a block that decodes leaves behind. */
  ghost function TableBehind(tb: Tables, block: Bytes, table: Table): Table
    requires InRange(tb.huffman)
    decreases |block|
  {
    if block == [] then table
    else
      var s := StepAt(tb, block, table);
      if s.Err? then table else TableBehind(tb, block[s.value.used..], s.value.table)
  }

  /** Decoding one block behind another is decoding the first, and then the second with the table and the count the
    * first left behind. */
  lemma {:induction false} BlocksShareTheTable(tb: Tables, a: Bytes, b: Bytes, table: Table, count: nat)
    requires InRange(tb.huffman) && DecodeFrom(tb, a, table, count).Ok?
    ensures var hs := DecodeFrom(tb, a, table, count).value;
      DecodeFrom(tb, a + b, table, count) ==
        Prepend(hs, DecodeFrom(tb, b, TableBehind(tb, a, table), count + |hs|))
    decreases |a|
  {
    if a == [] {
      assert a + b == b;
      PrependNothing(DecodeFrom(tb, b, table, count));
    } else {
      var s := StepAt(tb, a, table).value;
      var yielded, rest := Yield(s.header), a[s.used..];
      DecodeFromStep(tb, a, table, count);
      DecodeFromStep(tb, a + b, table, count);
      RepresentationIsLocal(tb, a, b, table);
      SlicesOfFront(a, b, s.used, s.used);
      BlocksShareTheTable(tb, rest, b, s.table, count + |yielded|);
      var hs := DecodeFrom(tb, rest, s.table, count + |yielded|).value;
      PrependTwice(yielded, hs, DecodeFrom(tb, b, TableBehind(tb, a, table), count + |yielded + hs|));
    }
  }
}
