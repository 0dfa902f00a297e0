/** Decoded headers are text: whatever a client sends, what the decoder yields has been through the conversion. */
module TextHeaders {
  import opened Locks
  import opened Bits
  import opened HuffmanCode
  import opened Integers
  import opened Texts
  import opened HeaderTables
  import opened HpackDecoder
  import opened HpackEncoder
  import opened HttpLayer

  predicate IsAscii(s: Bytes) {
    forall i :: 0 <= i < |s| ==> s[i] < 0x80
  }

  /** The conversion of octets to text leaves text alone, which is to say what it gives, ASCII, and text in lower
    * case. */
  ghost predicate Converts(lossy: Bytes -> Bytes) {
    && (forall s: Bytes :: lossy(lossy(s)) == lossy(s))
    && (forall s: Bytes :: IsAscii(s) ==> lossy(s) == s)
    && (forall s: Bytes {:trigger Lower(s)} :: lossy(s) == s ==> lossy(Lower(s)) == Lower(s))
  }

  predicate AreText(tb: Tables, names: seq<Bytes>) {
    forall i :: 0 <= i < |names| ==> tb.lossy(names[i]) == names[i]
  }

  // ----- the decoder -----

  lemma {:induction false} StringIsText(tb: Tables, buf: Bytes)
    requires InRange(tb.huffman) && Converts(tb.lossy) && StringAt(tb, buf).Ok?
    ensures var s := StringAt(tb, buf).value.octets; tb.lossy(s) == s
  {
  }

  lemma {:induction false} EntryIsText(tb: Tables, entries: seq<Header>, index: nat)
    requires AllText(tb, tb.statics) && AllText(tb, entries) && Lookup(tb.statics, entries, index).Ok?
    ensures IsText(tb, Lookup(tb.statics, entries, index).value)
  {
  }

  lemma {:induction false} LiteralIsText(tb: Tables, buf: Bytes, p: nat, entries: seq<Header>)
    requires InRange(tb.huffman) && Converts(tb.lossy) && AllText(tb, tb.statics) && AllText(tb, entries)
    requires LiteralAt(tb, buf, p, entries).Ok?
    ensures IsText(tb, LiteralAt(tb, buf, p, entries).value.header)
  {
    var d := DecodeInteger(buf, p).value;
    var n := NameAt(tb, buf[d.used..], d.value, entries).value;
    if d.value == 0 {
      StringIsText(tb, buf[d.used..]);
    } else {
      EntryIsText(tb, entries, d.value);
    }
    StringIsText(tb, buf[d.used + n.used..]);
  }

  lemma {:induction false} KeptIsText(tb: Tables, entries: seq<Header>, maxSize: nat)
    requires AllText(tb, entries)
    ensures AllText(tb, Fit(entries, maxSize))
  {
    FitIsLongest(entries, maxSize);
  }

  lemma {:induction false} InsertedIsText(tb: Tables, table: Table, h: Header)
    requires AllText(tb, table.entries) && IsText(tb, h)
    ensures AllText(tb, Inserted(table, h).entries)
  {
    KeptIsText(tb, [h] + table.entries, table.maxSize);
  }

  /** One representation yields text and leaves text in the table. */
  lemma {:induction false} StepIsText(tb: Tables, buf: Bytes, table: Table)
    requires InRange(tb.huffman) && Converts(tb.lossy) && AllText(tb, tb.statics) && AllText(tb, table.entries)
    requires buf != [] && StepAt(tb, buf, table).Ok?
    ensures var s := StepAt(tb, buf, table).value;
      AllText(tb, Yield(s.header)) && AllText(tb, s.table.entries)
  {
    assert Key(REPRESENTATION);
    if buf[0] >= 0x80 {
      EntryIsText(tb, table.entries, DecodeInteger(buf, 7).value.value);
    } else if buf[0] >= 0x40 {
      LiteralIsText(tb, buf, 6, table.entries);
      InsertedIsText(tb, table, LiteralAt(tb, buf, 6, table.entries).value.header);
    } else if buf[0] >= 0x20 {
      var size := DecodeInteger(buf, 5).value.value;
      KeptIsText(tb, table.entries, if size < ABSOLUTE_MAX_SIZE then size else ABSOLUTE_MAX_SIZE);
    } else {
      LiteralIsText(tb, buf, 4, table.entries);
    }
  }

  /** Every header of a decoded block is text. */
  lemma {:induction false} DecodedIsText(tb: Tables, block: Bytes, table: Table, count: nat)
    requires InRange(tb.huffman) && Converts(tb.lossy) && AllText(tb, tb.statics) && AllText(tb, table.entries)
    ensures var r := DecodeFrom(tb, block, table, count); r.Ok? ==> AllText(tb, r.value)
    decreases |block|
  {
    if block != [] && DecodeFrom(tb, block, table, count).Ok? {
      DecodeFromStep(tb, block, table, count);
      StepIsText(tb, block, table);
      var s := StepAt(tb, block, table).value;
      DecodedIsText(tb, block[s.used..], s.table, count + |Yield(s.header)|);
    }
  }

  // ----- names -----

  lemma {:induction false} NamesAreText(tb: Tables, hs: seq<Header>)
    requires Converts(tb.lossy) && AllText(tb, hs)
    ensures AreText(tb, RegularNames(hs))
  {
    if hs != [] {
      assert IsText(tb, hs[|hs| - 1]);
      NamesAreText(tb, hs[..|hs| - 1]);
    }
  }

  lemma {:induction false} ComparableAreText(tb: Tables, names: seq<Bytes>)
    requires AreText(tb, names)
    ensures AreText(tb, Comparable(names))
  {
    if names != [] {
      ComparableAreText(tb, names[..|names| - 1]);
    }
  }
}
