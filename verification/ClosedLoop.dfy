/** The loop of capturing, profiling, emitting, parsing and comparing: what is emitted from a profile matches it. */
module ClosedLoop {
  import opened Bits
  import opened Results
  import opened HuffmanCode
  import opened Texts
  import opened HeaderTables
  import opened HpackDecoder
  import opened HpackEncoder
  import opened H2Frames
  import opened H2Fields
  import opened HttpLayer
  import opened Akamai
  import opened Profiles
  import opened Emission
  import opened TextHeaders
  import opened HuffmanTable
  import opened RfcTables

  // ----- pseudo-header order -----

  /** The letters m, a, s and p, comma joined, as the parser writes them. */
  predicate PlainOrder(order: Bytes) {
    order == [] || forall part :: part in Split(order, COMMA) ==> IsLetter(part)
  }

  lemma {:induction false} TrimLetter(x: Bytes)
    requires IsLetter(x)
    ensures Trim(x) == x
  {
    assert WhiteAt(x) == 0;
    assert x[|x| - 1..] == x;
    assert WhiteBefore(x) == 0;
  }

  function LettersAmong(parts: seq<Bytes>): (r: seq<Bytes>)
    ensures forall x :: x in r ==> IsLetter(x)
  {
    if parts == [] then []
    else (if IsLetter(Trim(parts[0])) then [Trim(parts[0])] else []) + LettersAmong(parts[1..])
  }

  lemma {:induction false} LettersKept(parts: seq<Bytes>)
    requires forall x :: x in parts ==> IsLetter(x)
    ensures LettersAmong(parts) == parts
  {
    if parts != [] {
      TrimLetter(parts[0]);
      LettersKept(parts[1..]);
      assert parts == [parts[0]] + parts[1..];
    }
  }

  lemma NamesDiffer()
    ensures MethodName() != AuthorityName() && MethodName() != SchemeName() && MethodName() != PathName()
    ensures AuthorityName() != SchemeName() && AuthorityName() != PathName() && SchemeName() != PathName()
  {
    assert MethodName()[1] == 0x6d && SchemeName()[1] == 0x73;
    assert |MethodName()| == 7 && |AuthorityName()| == 10 && |SchemeName()| == 7 && |PathName()| == 5;
  }

  lemma LetterBack(x: Bytes, authority: Bytes, scheme: Bytes, path: Bytes)
    ensures Letters(PseudoHeader(x, authority, scheme, path)) == if IsLetter(x) then [x] else []
  {
    NamesDiffer();
    var hs := PseudoHeader(x, authority, scheme, path);
    if hs != [] {
      assert hs[1..] == [];
      assert Letters(hs) == LetterOf(hs[0].name) + [];
    }
  }

  lemma {:induction false} LettersBack(parts: seq<Bytes>, authority: Bytes, scheme: Bytes, path: Bytes)
    ensures Letters(PseudoList(parts, authority, scheme, path)) == LettersAmong(parts)
  {
    if parts != [] {
      var x := Trim(parts[0]);
      LetterBack(x, authority, scheme, path);
      LettersBack(parts[1..], authority, scheme, path);
      LettersOfConcat(PseudoHeader(x, authority, scheme, path), PseudoList(parts[1..], authority, scheme, path));
    }
  }

  /** A pseudo-header order is reproduced exactly when it is one the parser could have written. */
  lemma OrderRoundTrip(order: Bytes, authority: Bytes, scheme: Bytes, path: Bytes)
    ensures PseudoOrder(PseudoHeaders(order, authority, scheme, path)) == order <==> PlainOrder(order)
  {
    var parts := Split(order, COMMA);
    var letters := LettersAmong(parts);
    LettersBack(parts, authority, scheme, path);
    JoinOfSplit(order, COMMA);
    if order == [] {
      assert parts == [[]];
      assert LettersAmong(parts) == [] by {
        assert Trim([]) == [];
        assert parts[1..] == [];
      }
    } else if PlainOrder(order) {
      LettersKept(parts);
    } else if Join(letters, COMMA) == order {
      WrittenIsPlain(letters);
    }
  }

  lemma {:induction false} WrittenIsPlain(letters: seq<Bytes>)
    requires forall x :: x in letters ==> IsLetter(x)
    ensures PlainOrder(Join(letters, COMMA))
  {
    if letters != [] {
      forall i | 0 <= i < |letters|
        ensures COMMA !in letters[i]
      {
        assert IsLetter(letters[i]);
      }
      SplitOfJoin(letters, COMMA);
    }
  }

  // ----- header names -----

  /** Names as the profiler stores them: regular, in lower case, not request scoped. */
  predicate ProfileNames(names: seq<Bytes>) {
    forall x :: x in names ==> IsRegular(x) && Lower(x) == x && !RequestScoped(x)
  }

  lemma PseudoNames()
    ensures IsPseudo(MethodName()) && IsPseudo(AuthorityName()) && IsPseudo(SchemeName()) && IsPseudo(PathName())
  {
  }

  lemma LetterIsPseudo(name: Bytes)
    ensures LetterOf(name) != [] ==> IsPseudo(name) && IsPseudo(Lower(name)) && |LetterOf(name)| == 1
  {
    PseudoNames();
  }

  lemma {:induction false} LettersOfRegular(hs: seq<Header>)
    requires forall i :: 0 <= i < |hs| ==> IsRegular(hs[i].name)
    ensures Letters(hs) == []
  {
    if hs != [] {
      LetterIsPseudo(hs[0].name);
      LettersOfRegular(hs[1..]);
    }
  }

  lemma {:induction false} NamesOfPseudo(hs: seq<Header>)
    requires forall i :: 0 <= i < |hs| ==> IsPseudo(hs[i].name)
    ensures RegularNames(hs) == []
  {
    if hs != [] {
      assert IsPseudo(Lower(hs[|hs| - 1].name));
      NamesOfPseudo(hs[..|hs| - 1]);
    }
  }

  lemma {:induction false} PseudoListIsPseudo(parts: seq<Bytes>, authority: Bytes, scheme: Bytes, path: Bytes)
    ensures forall h :: h in PseudoList(parts, authority, scheme, path) ==> IsPseudo(h.name)
  {
    if parts != [] {
      PseudoNames();
      PseudoListIsPseudo(parts[1..], authority, scheme, path);
    }
  }

  lemma {:induction false} NamesOfRegular(hs: seq<Header>, names: seq<Bytes>)
    requires |hs| == |names| && forall i :: 0 <= i < |hs| ==> hs[i].name == names[i]
    requires ProfileNames(names)
    ensures RegularNames(hs) == names
  {
    if hs != [] {
      var last := |hs| - 1;
      assert names[last] in names;
      NamesOfRegular(hs[..last], names[..last]);
      assert names == names[..last] + [names[last]];
    }
  }

  lemma {:induction false} AllComparable(names: seq<Bytes>)
    requires forall i :: 0 <= i < |names| ==> !RequestScoped(names[i])
    ensures Comparable(names) == names
  {
    if names != [] {
      var last := |names| - 1;
      AllComparable(names[..last]);
      assert names == names[..last] + [names[last]];
    }
  }

  lemma {:induction false} ProfileNamesAreComparable(names: seq<Bytes>)
    requires ProfileNames(names)
    ensures Comparable(names) == names
  {
    forall i | 0 <= i < |names|
      ensures !RequestScoped(names[i])
    {
      assert names[i] in names;
    }
    AllComparable(names);
  }

  /** The emitted header list has the profile's pseudo-header order and its header names. */
  lemma ListReadBack(p: Profile, authority: Bytes, values: seq<Header>)
    requires p.h2.Some? && PlainOrder(p.h2.value.pseudoOrder) && ProfileNames(NamesIn(p))
    ensures var hs := HeaderList(p, authority, values);
      && PseudoOrder(hs) == p.h2.value.pseudoOrder
      && RegularNames(hs) == NamesIn(p)
      && Comparable(RegularNames(hs)) == NamesIn(p)
  {
    var order, scheme, path := p.h2.value.pseudoOrder, Ascii("https"), Ascii("/");
    var pseudo, regular := PseudoHeaders(order, authority, scheme, path), RegularHeaders(NamesIn(p), values);
    OrderRoundTrip(order, authority, scheme, path);
    PseudoListIsPseudo(Split(order, COMMA), authority, scheme, path);
    NamesOfPseudo(pseudo);
    NamesOfRegular(regular, NamesIn(p));
    RegularNamesAreRegular(NamesIn(p), regular);
    LettersOfRegular(regular);
    LettersOfConcat(pseudo, regular);
    NamesOfConcat(pseudo, regular);
    ProfileNamesAreComparable(NamesIn(p));
    assert Letters(pseudo) + [] == Letters(pseudo) && [] + NamesIn(p) == NamesIn(p);
  }

  lemma RegularNamesAreRegular(names: seq<Bytes>, hs: seq<Header>)
    requires ProfileNames(names) && |hs| == |names| && forall i :: 0 <= i < |hs| ==> hs[i].name == names[i]
    ensures forall i :: 0 <= i < |hs| ==> IsRegular(hs[i].name)
  {
    forall i | 0 <= i < |hs|
      ensures IsRegular(hs[i].name)
    {
      assert names[i] in names;
    }
  }

  // ----- a profile read back -----

  /** A profile in the form the profiler writes. */
  predicate WellFormed(p: Profile) {
    && p.h2.Some?
    && PlainOrder(p.h2.value.pseudoOrder)
    && (p.h2.value.windowUpdate.Some? ==> p.h2.value.windowUpdate.value < RESERVED_BIT)
    && ProfileNames(NamesIn(p))
    && (p.http.Some? ==> (p.http.value.hasAcceptLanguage <==> AcceptLanguageName() in p.http.value.headerNames))
  }

  /** What is emitted fits the wire format and the parser's bounds. */
  ghost predicate WithinBounds(tb: Tables, p: Profile, authority: Bytes, values: seq<Header>)
    requires InRange(tb.huffman) && p.h2.Some?
  {
    var hs := HeaderList(p, authority, values);
    && AllText(tb, hs) && AllEncodable(tb, hs) && |hs| <= MAX_HEADERS
    && 6 * |p.h2.value.settings| < FRAME_LIMIT && |HeaderBlock(tb, hs)| < FRAME_LIMIT
  }

  lemma {:induction false} HttpAssembled(o: H2Fingerprint, p: Profile, hs: seq<Header>)
    requires WellFormed(p) && o.http == HttpOf(hs)
    requires RegularNames(hs) == NamesIn(p) && Comparable(RegularNames(hs)) == NamesIn(p)
    ensures HttpMatches(Some(o), p.http)
  {
  }

  lemma {:induction false} AssembledMatches(p: Profile, authority: Bytes, values: seq<Header>)
    requires WellFormed(p)
    ensures var h, hs := p.h2.value, HeaderList(p, authority, values);
      var o := Assembled(h.settings, Masked31(h.windowUpdate), [], hs);
      && Masked31(h.windowUpdate) == h.windowUpdate
      && o.pseudoOrder == h.pseudoOrder
      && H2Matches(Some(o), p.h2) && HttpMatches(Some(o), p.http)
  {
    var h, hs := p.h2.value, HeaderList(p, authority, values);
    ListReadBack(p, authority, values);
    HttpAssembled(Assembled(h.settings, Masked31(h.windowUpdate), [], hs), p, hs);
  }

  /** Parsing an emitted preamble, whatever follows it, gives an observation that matches the profile in every HTTP/2
    * and HTTP field, and whose Akamai string is the rendering of the profile's own fields without priorities. */
  lemma ProfileReadBack(tb: Tables, p: Profile, authority: Bytes, values: seq<Header>, rest: Bytes)
    requires Valid(tb) && WellFormed(p) && WithinBounds(tb, p, authority, values)
    ensures FingerprintOf(tb, Emitted(tb, p, authority, values) + rest).Ok?
    ensures var o, h := FingerprintOf(tb, Emitted(tb, p, authority, values) + rest).value, p.h2.value;
      && o.headers == HeaderList(p, authority, values)
      && H2Matches(Some(o), p.h2) && HttpMatches(Some(o), p.http)
      && o.akamai == RenderAkamai(h.settings, h.windowUpdate, [], h.pseudoOrder)
  {
    EmittedFingerprint(tb, p, authority, values, rest);
    AssembledMatches(p, authority, values);
  }

  /** So the comparison with the profile finds every HTTP/2 and HTTP field in order. */
  lemma EmissionMatchesProfile(tb: Tables, p: Profile, authority: Bytes, values: seq<Header>)
    requires Valid(tb) && WellFormed(p) && WithinBounds(tb, p, authority, values)
    ensures FingerprintOf(tb, Emitted(tb, p, authority, values)).Ok?
    ensures var o := FingerprintOf(tb, Emitted(tb, p, authority, values)).value;
      IsClean(H2FieldsOf(Some(o), p.h2)) && IsClean(HttpFields(Some(o), p.http))
  {
    ProfileReadBack(tb, p, authority, values, []);
    var raw := Emitted(tb, p, authority, values);
    assert raw + [] == raw;
    var o := FingerprintOf(tb, raw).value;
    H2Clean(Some(o), p.h2);
    HttpClean(Some(o), p.http);
  }

  // ----- the loop -----

  /** A profile made from an observed preamble is well formed. */
  lemma {:induction false} ObservedIsWellFormed(tb: Tables, raw: Bytes, r: ClientReport, name: Bytes)
    requires InRange(tb.huffman) && FingerprintOf(tb, raw).Ok? && r.h2 == Some(FingerprintOf(tb, raw).value)
    ensures WellFormed(FromReport(r, name))
  {
    var o := r.h2.value;
    WrittenIsPlain(Letters(o.headers));
    Distinctions();
  }

  lemma {:induction false} PseudoCount(parts: seq<Bytes>, authority: Bytes, scheme: Bytes, path: Bytes)
    ensures |PseudoList(parts, authority, scheme, path)| == |LettersAmong(parts)|
  {
    if parts != [] {
      PseudoCount(parts[1..], authority, scheme, path);
    }
  }

  lemma {:induction false} NamesCount(hs: seq<Header>)
    ensures |Letters(hs)| + |RegularNames(hs)| <= |hs|
  {
    if hs != [] {
      var init, h := hs[..|hs| - 1], hs[|hs| - 1];
      NamesCount(init);
      LettersOfConcat(init, [h]);
      assert hs == init + [h] && [h][1..] == [];
      assert Letters([h]) == LetterOf(h.name) + [];
      LetterIsPseudo(h.name);
    }
  }

  lemma {:induction false} ComparableCount(names: seq<Bytes>)
    ensures |Comparable(names)| <= |names|
  {
    if names != [] {
      ComparableCount(names[..|names| - 1]);
    }
  }

  lemma {:induction false} DecodedCount(tb: Tables, block: Bytes, table: Table, count: nat)
    requires InRange(tb.huffman) && count <= MAX_HEADERS
    ensures var r := DecodeFrom(tb, block, table, count);
      r.Ok? ==> count + |r.value| <= MAX_HEADERS
    decreases |block|
  {
    if block != [] {
      DecodeFromStep(tb, block, table, count);
      var s := StepAt(tb, block, table);
      if count < MAX_HEADERS && s.Ok? {
        DecodedCount(tb, block[s.value.used..], s.value.table, count + |Yield(s.value.header)|);
      }
    }
  }

  lemma {:induction false} ObservedCount(tb: Tables, raw: Bytes)
    requires InRange(tb.huffman) && FingerprintOf(tb, raw).Ok?
    ensures |FingerprintOf(tb, raw).value.headers| <= MAX_HEADERS
  {
    var f := FirstOfKind(PreambleFrames(raw).value, FRAME_HEADERS);
    if f.Some? {
      DecodedCount(tb, Fragment(f.value), EMPTY, 0);
    }
  }

  lemma ListLength(p: Profile, authority: Bytes, values: seq<Header>)
    requires p.h2.Some?
    ensures |HeaderList(p, authority, values)| ==
      |LettersAmong(Split(p.h2.value.pseudoOrder, COMMA))| + |NamesIn(p)|
  {
    PseudoCount(Split(p.h2.value.pseudoOrder, COMMA), authority, Ascii("https"), Ascii("/"));
  }

  /** What is emitted for an observed client has no more headers than the client sent. */
  lemma EmittedIsNotLonger(r: ClientReport, name: Bytes, authority: Bytes, hs: seq<Header>)
    requires r.h2.Some? && r.h2.value.pseudoOrder == PseudoOrder(hs) && r.h2.value.http == HttpOf(hs)
    ensures |HeaderList(FromReport(r, name), authority, [])| <= |hs|
  {
    NamesCount(hs);
    ComparableCount(RegularNames(hs));
    ListLength(FromReport(r, name), authority, []);
    LettersOfWritten(Letters(hs));
  }

  lemma {:induction false} LettersOfWritten(letters: seq<Bytes>)
    requires forall x :: x in letters ==> IsLetter(x)
    ensures LettersAmong(Split(Join(letters, COMMA), COMMA)) == letters
  {
    if letters == [] {
      var parts: seq<Bytes> := Split([], COMMA);
      assert parts == [[]] && parts[1..] == [] && Trim([]) == [];
    } else {
      forall i | 0 <= i < |letters|
        ensures COMMA !in letters[i]
      {
        assert IsLetter(letters[i]);
      }
      SplitOfJoin(letters, COMMA);
      LettersKept(letters);
    }
  }

  lemma {:induction false} ObservedAreText(tb: Tables, raw: Bytes)
    requires InRange(tb.huffman) && Converts(tb.lossy) && AllText(tb, tb.statics) && FingerprintOf(tb, raw).Ok?
    ensures AllText(tb, FingerprintOf(tb, raw).value.headers)
  {
    var f := FirstOfKind(PreambleFrames(raw).value, FRAME_HEADERS);
    if f.Some? {
      DecodedIsText(tb, Fragment(f.value), EMPTY, 0);
    }
  }

  lemma {:induction false} PseudoAreText(tb: Tables, parts: seq<Bytes>, authority: Bytes, scheme: Bytes, path: Bytes)
    requires Converts(tb.lossy) && tb.lossy(authority) == authority && IsAscii(scheme) && IsAscii(path)
    ensures AllText(tb, PseudoList(parts, authority, scheme, path))
  {
    if parts != [] {
      PseudoIsText(tb, Trim(parts[0]), authority, scheme, path);
      PseudoAreText(tb, parts[1..], authority, scheme, path);
    }
  }

  lemma {:induction false} PseudoIsText(tb: Tables, letter: Bytes, authority: Bytes, scheme: Bytes, path: Bytes)
    requires Converts(tb.lossy) && tb.lossy(authority) == authority && IsAscii(scheme) && IsAscii(path)
    ensures AllText(tb, PseudoHeader(letter, authority, scheme, path))
  {
    assert IsAscii(MethodName()) && IsAscii(AuthorityName()) && IsAscii(SchemeName()) && IsAscii(PathName());
    assert IsAscii(Ascii("GET"));
  }

  /** What is emitted for an observed client is text, whatever octets the client sent. */
  lemma {:induction false} EmittedIsText(tb: Tables, r: ClientReport, name: Bytes, authority: Bytes, hs: seq<Header>)
    requires Converts(tb.lossy) && tb.lossy(authority) == authority && AllText(tb, hs)
    requires r.h2.Some? && r.h2.value.http == HttpOf(hs)
    ensures AllText(tb, HeaderList(FromReport(r, name), authority, []))
  {
    var p := FromReport(r, name);
    var scheme, path := Ascii("https"), Ascii("/");
    NamesAreText(tb, hs);
    ComparableAreText(tb, RegularNames(hs));
    PseudoAreText(tb, Split(p.h2.value.pseudoOrder, COMMA), authority, scheme, path);
    assert IsAscii([]);
    assert AllText(tb, RegularHeaders(NamesIn(p), []));
  }

  /** The closed loop: a profile is made from an observed client, its preamble is emitted and read by the same parser,
    * and the comparison with the profile is clean in every HTTP/2 and HTTP field, given that the strings are within the
    * decoder's length bound and the two payloads fit the frame length field. The Akamai string is reproduced exactly
    * when the client sent no PRIORITY frames. */
  lemma {:induction false} LoopCloses(tb: Tables, raw: Bytes, r: ClientReport, name: Bytes, authority: Bytes)
    requires Valid(tb) && Converts(tb.lossy) && AllText(tb, tb.statics) && tb.lossy(authority) == authority
    requires FingerprintOf(tb, raw).Ok? && r.h2 == Some(FingerprintOf(tb, raw).value)
    requires var hs := HeaderList(FromReport(r, name), authority, []);
      AllEncodable(tb, hs) && |HeaderBlock(tb, hs)| < FRAME_LIMIT
    requires 6 * |r.h2.value.settings| < FRAME_LIMIT
    ensures var p := FromReport(r, name);
      var again := FingerprintOf(tb, Emitted(tb, p, authority, []));
      && again.Ok?
      && IsClean(H2FieldsOf(Some(again.value), p.h2)) && IsClean(HttpFields(Some(again.value), p.http))
      && (again.value.akamai == r.h2.value.akamai <==> r.h2.value.priorities == [])
  {
    var p, o := FromReport(r, name), r.h2.value;
    ObservedIsWellFormed(tb, raw, r, name);
    ObservedCount(tb, raw);
    ObservedAreText(tb, raw);
    EmittedIsText(tb, r, name, authority, o.headers);
    EmittedIsNotLonger(r, name, authority, o.headers);
    EmissionMatchesProfile(tb, p, authority, []);
    ProfileReadBack(tb, p, authority, [], []);
    assert Emitted(tb, p, authority, []) + [] == Emitted(tb, p, authority, []);
    OrderLacksBar(o.headers);
    AkamaiInjective(o.settings, o.windowUpdate, [], o.pseudoOrder,
                    o.settings, o.windowUpdate, o.priorities, o.pseudoOrder);
  }

  /** The loop of the codec as it is configured. */
  lemma {:induction false} CodecLoopCloses(tb: Tables, raw: Bytes, r: ClientReport, name: Bytes, authority: Bytes)
    requires tb.huffman == HUFFMAN && tb.statics == StaticTable()
    requires Converts(tb.lossy) && tb.lossy(authority) == authority
    requires InRange(tb.huffman) && FingerprintOf(tb, raw).Ok? && r.h2 == Some(FingerprintOf(tb, raw).value)
    requires var hs := HeaderList(FromReport(r, name), authority, []);
      AllEncodable(tb, hs) && |HeaderBlock(tb, hs)| < FRAME_LIMIT
    requires 6 * |r.h2.value.settings| < FRAME_LIMIT
    ensures var p := FromReport(r, name);
      var again := FingerprintOf(tb, Emitted(tb, p, authority, []));
      && again.Ok?
      && IsClean(H2FieldsOf(Some(again.value), p.h2)) && IsClean(HttpFields(Some(again.value), p.http))
      && (again.value.akamai == r.h2.value.akamai <==> r.h2.value.priorities == [])
  {
    CodecTablesAreValid(tb);
    StaticsAreText(tb);
    LoopCloses(tb, raw, r, name, authority);
  }
}
