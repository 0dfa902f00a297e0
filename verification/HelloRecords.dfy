/** ClientHello records written field by field, and read back: the order and the lengths of everything in them. */
module HelloRecords {
  import opened Locks
  import opened Bits
  import opened Results
  import opened Readers
  import opened ClientHello
  import opened HelloSpans
  import opened Extensions
  import opened HelloWriting

  // ----- what is written -----

  /** Everything in a ClientHello that its sender chooses. */
  datatype Content = Content(
    version: u16, random: Bytes, session: Bytes, ciphers: seq<u16>, compression: Bytes, fields: seq<Field>)

  predicate Valid(c: Content) {
    |c.random| == 32 && |c.session| < 0x100 && |c.compression| < 0x100 && Writable(c.fields)
  }

  function PairOctets(values: seq<u16>): (r: Bytes)
    ensures |r| == 2 * |values|
  {
    if values == [] then [] else PairOctets(values[..|values| - 1]) + Octets(values[|values| - 1], 2)
  }

  /** The extensions behind their length. */
  function ExtensionList(c: Content): Bytes {
    Octets(|Written(c.fields)|, 2) + Written(c.fields)
  }

  /** Behind the ciphers: the compression methods behind their length, and then `last`. */
  function CompressionOn(c: Content, last: Bytes): Bytes
    requires Valid(c)
  {
    [|c.compression|] + (c.compression + last)
  }

  /** Behind the session identifier: the ciphers behind their length, and so on. */
  function CiphersOn(c: Content, last: Bytes): Bytes
    requires Valid(c)
  {
    Octets(2 * |c.ciphers|, 2) + (PairOctets(c.ciphers) + CompressionOn(c, last))
  }

  /** Behind the random octets: the session identifier behind its length, and so on. */
  function SessionOn(c: Content, last: Bytes): Bytes
    requires Valid(c)
  {
    [|c.session|] + (c.session + CiphersOn(c, last))
  }

  /** The message of section 4.1.2 of RFC 8446, up to the compression methods, and then `last`. */
  function Message(c: Content, last: Bytes): Bytes
    requires Valid(c)
  {
    Octets(c.version, 2) + (c.random + SessionOn(c, last))
  }

  /** The message behind its handshake header, in one record. */
  function Record(c: Content, recordVersion: Bytes, last: Bytes): Bytes
    requires Valid(c)
  {
    var n := |Message(c, last)|;
    [0x16] + (recordVersion + (Octets(4 + n, 2) + ([0x01] + (Octets(n, 3) + Message(c, last)))))
  }

  // ----- where it is -----

  function CipherStart(c: Content): nat {
    46 + |c.session|
  }

  /** Behind the compression methods. */
  function FrontEnd(c: Content): nat {
    CipherStart(c) + 2 * |c.ciphers| + 1 + |c.compression|
  }

  /** What the record is to be read as when it ends with the extensions `exts`, which take up `span`. */
  function Read(c: Content, exts: seq<RawExt>, span: Span): RawHello {
    RawHello(c.version, c.ciphers, exts, Span(CipherStart(c), 2 * |c.ciphers|), span)
  }

  /** From `pos` on `s` is `t`. */
  ghost predicate From(s: Bytes, pos: nat, t: Bytes) {
    forall k: int {:trigger Key(k)} :: Key(k) && k == LAYOUT ==> pos <= |s| && s[pos..] == t
  }

  /** At `pos` `s` holds `part`. */
  ghost predicate Has(s: Bytes, pos: nat, part: Bytes) {
    forall k: int {:trigger Key(k)} :: Key(k) && k == LAYOUT ==>
      pos + |part| <= |s| && s[pos..pos + |part|] == part
  }

  lemma {:induction false} Peel(s: Bytes, pos: nat, part: Bytes, rest: Bytes)
    requires From(s, pos, part + rest)
    ensures Has(s, pos, part) && From(s, pos + |part|, rest)
  {
    assert Key(LAYOUT);
    Slices(s, pos);
    assert s[pos..][0..|part|] == part && s[pos..][|part|..] == rest;
  }

  lemma {:induction false} FromEnd(s: Bytes, pos: nat, t: Bytes)
    requires From(s, pos, t)
    ensures pos + |t| == |s| && s[pos..] == t
  {
    assert Key(LAYOUT);
  }

  lemma {:induction false} HasSlice(s: Bytes, pos: nat, part: Bytes)
    requires Has(s, pos, part)
    ensures pos + |part| <= |s| && s[pos..pos + |part|] == part
  {
    assert Key(LAYOUT);
  }

  lemma {:induction false} HasOne(s: Bytes, pos: nat, one: u8)
    requires Has(s, pos, [one])
    ensures pos < |s| && s[pos] == one
  {
    HasSlice(s, pos, [one]);
    assert s[pos] == s[pos..pos + 1][0];
  }

  lemma {:induction false} HasNumber(s: Bytes, pos: nat, v: nat, n: nat)
    requires Has(s, pos, Octets(v, n)) && v < Pow256(n)
    ensures pos + n <= |s| && BigEndian(s[pos..pos + n]) == v
  {
    HasSlice(s, pos, Octets(v, n));
    BigEndianOfOctets(v, n);
  }

  // ----- read back -----

  /** `s` is read as these pairs. */
  predicate Pairs(s: Bytes, values: seq<u16>) {
    |s| == 2 * |values| && U16s(s) == values
  }

  lemma {:induction false} PairBack(v: u16)
    ensures U16Of(Octets(v, 2)) == v
  {
    Pow256Values();
    BigEndianOfOctets(v, 2);
  }

  lemma {:induction false} LastPairOff(s: Bytes, pair: Bytes)
    requires |s| % 2 == 0 && |pair| == 2
    ensures var whole := s + pair;
      && |whole| >= 2 && |whole| / 2 * 2 - 2 == |s| && |whole| / 2 * 2 == |whole|
      && whole[|s|..|whole|] == pair && whole[..|s|] == s
  {
  }

  lemma {:induction false} OneMorePair(s: Bytes, values: seq<u16>, v: u16, pair: Bytes)
    requires Pairs(s, values) && |pair| == 2 && U16Of(pair) == v
    ensures Pairs(s + pair, values + [v])
  {
    LastPairOff(s, pair);
  }

  lemma {:induction false} PairsBack(values: seq<u16>)
    ensures Pairs(PairOctets(values), values)
  {
    if values != [] {
      var init, last := values[..|values| - 1], values[|values| - 1];
      PairsBack(init);
      PairBack(last);
      LastPair(values, init, last);
      OneMorePair(PairOctets(init), init, last, Octets(last, 2));
    }
  }

  lemma {:induction false} LastPair(values: seq<u16>, init: seq<u16>, last: u16)
    requires values != [] && init == values[..|values| - 1] && last == values[|values| - 1]
    ensures values == init + [last] && PairOctets(values) == PairOctets(init) + Octets(last, 2)
  {
  }

  /** Where the parts of a message are up to its session identifier, and what follows. */
  lemma {:induction false} FrontLayout(s: Bytes, version: Bytes, random: Bytes, length: u8, session: Bytes, rest: Bytes)
    requires |version| == 2 && |random| == 32 && |session| == length as int
    requires From(s, 9, version + (random + ([length] + (session + rest))))
    ensures 44 + |session| <= |s| && s[9..11] == version && s[43] == length && s[44 + |session|..] == rest
  {
    Peel(s, 9, version, random + ([length] + (session + rest)));
    HasSlice(s, 9, version);
    Peel(s, 11, random, [length] + (session + rest));
    Peel(s, 43, [length], session + rest);
    HasOne(s, 43, length);
    Peel(s, 44, session, rest);
    FromEnd(s, 44 + |session|, rest);
  }

  /** And where the lists behind it are. */
  lemma {:induction false} ListLayout(s: Bytes, at: nat, n: Bytes, ciphers: Bytes, m: u8, compression: Bytes,
                                      last: Bytes)
    requires |n| == 2 && |compression| == m as int
    requires From(s, at, n + (ciphers + ([m] + (compression + last))))
    ensures var end := at + 2 + |ciphers|;
      && end + 1 + |compression| <= |s| && s[at..at + 2] == n && s[at + 2..end] == ciphers && s[end] == m
      && s[end + 1 + |compression|..] == last
  {
    var end := at + 2 + |ciphers|;
    Peel(s, at, n, ciphers + ([m] + (compression + last)));
    HasSlice(s, at, n);
    Peel(s, at + 2, ciphers, [m] + (compression + last));
    HasSlice(s, at + 2, ciphers);
    Peel(s, end, [m], compression + last);
    HasOne(s, end, m);
    Peel(s, end + 1, compression, last);
    FromEnd(s, end + 1 + |compression|, last);
  }

  /** `part` is the number `v`, most significant octet first. */
  ghost predicate IsNumber(part: Bytes, v: nat) {
    forall k: int {:trigger Key(k)} :: Key(k) && k == PARTS ==> BigEndian(part) == v
  }

  /** `part` is the list `values`. */
  ghost predicate IsList(part: Bytes, values: seq<u16>) {
    forall k: int {:trigger Key(k)} :: Key(k) && k == PARTS ==> U16s(part) == values
  }

  /** The extensions block at `end` is `block`. */
  ghost predicate IsBlock(s: Bytes, end: nat, block: (seq<RawExt>, Span)) {
    forall k: int {:trigger Key(k)} :: Key(k) && k == PARTS ==> end <= |s| && BlockIn(s, end) == Ok(block)
  }

  /** The message is read as `h`. */
  ghost predicate IsMessage(s: Bytes, h: RawHello) {
    forall k: int {:trigger Key(k)} :: Key(k) && k == MESSAGE ==> MessageIn(s) == Ok(h)
  }

  lemma {:induction false} NumberBack(v: nat, part: Bytes)
    requires v < 0x1_0000 && part == Octets(v, 2)
    ensures IsNumber(part, v)
  {
    Pow256Values();
    BigEndianOfOctets(v, 2);
  }

  lemma {:induction false} ListBack(values: seq<u16>, part: Bytes)
    requires part == PairOctets(values)
    ensures IsList(part, values)
  {
    PairsBack(values);
  }

  lemma {:induction false} HeadOf(s: Bytes, n: nat, start: nat, end: nat, m: nat)
    requires 44 + n + 2 == start && start <= end < |s| && s[43] as int == n
    requires IsNumber(s[start - 2..start], end - start) && (end - start) % 2 == 0
    requires s[end] as int == m && end + 1 + m <= |s|
    ensures HeadIn(s) == Ok(Head(start, end, end + 1 + m))
  {
    assert Key(PARTS);
    assert SessionEnd(s) == Ok(44 + n);
  }

  lemma {:induction false} MessageOf(s: Bytes, version: u16, ciphers: seq<u16>, h: Head, block: (seq<RawExt>, Span))
    requires HeadIn(s) == Ok(h) && IsBlock(s, h.end, block)
    requires IsNumber(s[9..11], version) && IsList(s[h.cipherStart..h.cipherEnd], ciphers)
    ensures MessageIn(s) ==
      Ok(RawHello(version, ciphers, block.0, Span(h.cipherStart, h.cipherEnd - h.cipherStart), block.1))
  {
    assert Key(PARTS);
  }

  lemma {:induction false} BlockPlaced(s: Bytes, end: nat, c: Content, last: Bytes, block: (seq<RawExt>, Span))
    requires Valid(c) && |Written(c.fields)| < 0x1_0000 && last == ExtensionList(c) && end <= |s| && s[end..] == last
    requires block == (LaidAt(end + 2, c.fields), Span(end + 2, |Written(c.fields)|))
    ensures IsBlock(s, end, block)
  {
    var k, extensions := Octets(|Written(c.fields)|, 2), Written(c.fields);
    TwoSlices(s, end, k, extensions);
    Blocked(s, end, c.fields);
  }

  lemma {:induction false} TwoSlices(s: Bytes, at: nat, a: Bytes, b: Bytes)
    requires at <= |s| && s[at..] == a + b
    ensures at + |a| <= |s| && s[at..at + |a|] == a && s[at + |a|..] == b
  {
    Slices(s, at);
  }

  /** A message that holds `last` from `end` to its end has this extensions block there. */
  ghost predicate EndsWith(end: nat, last: Bytes, block: (seq<RawExt>, Span)) {
    forall s: Bytes {:trigger IsBlock(s, end, block)} :: end <= |s| && s[end..] == last ==> IsBlock(s, end, block)
  }

  lemma {:induction false} NoBlockPlaced(s: Bytes, end: nat, last: Bytes)
    requires |last| < 2 && end <= |s| && s[end..] == last
    ensures IsBlock(s, end, ([], Span(end, 0)))
  {
  }

  /** A message whose parts are where they should be. */
  lemma {:induction false} PlacedBack(s: Bytes, version: u16, sid: nat, ciphers: seq<u16>, m: nat, start: nat, end: nat,
                                      block: (seq<RawExt>, Span))
    requires start == 46 + sid && end == start + 2 * |ciphers| && end + 1 + m <= |s|
    requires IsNumber(s[9..11], version) && s[43] as int == sid
    requires IsNumber(s[start - 2..start], end - start) && IsList(s[start..end], ciphers) && s[end] as int == m
    requires IsBlock(s, end + 1 + m, block)
    ensures IsMessage(s, RawHello(version, ciphers, block.0, Span(start, end - start), block.1))
  {
    HeadOf(s, sid, start, end, m);
    MessageOf(s, version, ciphers, Head(start, end, end + 1 + m), block);
  }

  /** Where the parts of a message are. */
  lemma {:induction false} PartsPlaced(s: Bytes, version: Bytes, random: Bytes, session: Bytes, n: Bytes, pairs: Bytes,
                                       compression: Bytes, last: Bytes, start: nat, end: nat)
    requires |version| == 2 && |random| == 32 && |session| < 0x100 && |n| == 2 && |compression| < 0x100
    requires start == 46 + |session| && end == start + |pairs|
    requires From(s, 9, version + (random + ([|session|] + (session + (n + (pairs
      + ([|compression|] + (compression + last))))))))
    ensures end + 1 + |compression| <= |s| && s[9..11] == version && s[43] as int == |session|
    ensures s[start - 2..start] == n && s[start..end] == pairs && s[end] as int == |compression|
    ensures s[end + 1 + |compression|..] == last
  {
    var lists := n + (pairs + ([|compression|] + (compression + last)));
    FrontLayout(s, version, random, |session|, session, lists);
    ListLayout(s, start - 2, n, pairs, |compression|, compression, last);
  }

  lemma {:induction false} MessagePlaced(s: Bytes, c: Content, last: Bytes, start: nat, end: nat)
    requires Valid(c) && From(s, 9, Message(c, last))
    requires start == CipherStart(c) && end == start + 2 * |c.ciphers|
    ensures FrontEnd(c) <= |s| && s[9..11] == Octets(c.version, 2) && s[43] as int == |c.session|
    ensures s[start - 2..start] == Octets(2 * |c.ciphers|, 2) && s[start..end] == PairOctets(c.ciphers)
    ensures s[end] as int == |c.compression| && s[FrontEnd(c)..] == last
  {
    PartsPlaced(s, Octets(c.version, 2), c.random, c.session, Octets(2 * |c.ciphers|, 2), PairOctets(c.ciphers),
                c.compression, last, start, end);
  }

  lemma {:induction false} NumbersPlaced(s: Bytes, c: Content, last: Bytes, start: nat, end: nat)
    requires Valid(c) && 2 * |c.ciphers| < 0x1_0000 && From(s, 9, Message(c, last))
    requires start == CipherStart(c) && end == start + 2 * |c.ciphers|
    ensures FrontEnd(c) <= |s| && s[43] as int == |c.session| && s[end] as int == |c.compression|
    ensures IsNumber(s[9..11], c.version) && IsNumber(s[start - 2..start], 2 * |c.ciphers|)
    ensures IsList(s[start..end], c.ciphers) && s[FrontEnd(c)..] == last
  {
    MessagePlaced(s, c, last, start, end);
    NumberBack(c.version, s[9..11]);
    NumberBack(2 * |c.ciphers|, s[start - 2..start]);
    ListBack(c.ciphers, s[start..end]);
  }

  /** The parts of a message are where they should be, behind them the extensions block. */
  ghost predicate Placed(s: Bytes, c: Content, start: nat, end: nat) {
    forall k: int {:trigger Key(k)} :: Key(k) && k == PLACED ==>
      && end + 1 + |c.compression| <= |s| && start >= 46 && end == start + 2 * |c.ciphers|
      && s[43] as int == |c.session| && s[end] as int == |c.compression|
      && IsNumber(s[9..11], c.version) && IsNumber(s[start - 2..start], end - start)
      && IsList(s[start..end], c.ciphers)
  }

  lemma {:induction false} AllPlaced(s: Bytes, c: Content, start: nat, end: nat)
    requires start >= 46 && end == start + 2 * |c.ciphers| && end + 1 + |c.compression| <= |s|
    requires s[43] as int == |c.session| && s[end] as int == |c.compression|
    requires IsNumber(s[9..11], c.version) && IsNumber(s[start - 2..start], 2 * |c.ciphers|)
    requires IsList(s[start..end], c.ciphers)
    ensures Placed(s, c, start, end)
  {
  }

  lemma {:induction false} IsPlaced(s: Bytes, c: Content, last: Bytes, start: nat, end: nat)
    requires Valid(c) && 2 * |c.ciphers| < 0x1_0000 && From(s, 9, Message(c, last))
    requires start == CipherStart(c) && end == start + 2 * |c.ciphers|
    ensures Placed(s, c, start, end) && FrontEnd(c) <= |s| && s[FrontEnd(c)..] == last
  {
    NumbersPlaced(s, c, last, start, end);
    AllPlaced(s, c, start, end);
  }

  lemma {:induction false} PlacedIsRead(s: Bytes, c: Content, start: nat, end: nat, h: RawHello)
    requires Placed(s, c, start, end) && start == 46 + |c.session| && end == start + 2 * |c.ciphers|
    requires IsBlock(s, end + 1 + |c.compression|, (h.extensions, h.extensionsSpan))
    requires h == RawHello(c.version, c.ciphers, h.extensions, Span(start, end - start), h.extensionsSpan)
    ensures IsMessage(s, h)
  {
    assert Key(PLACED);
    PlacedBack(s, c.version, |c.session|, c.ciphers, |c.compression|, start, end, (h.extensions, h.extensionsSpan));
  }

  lemma {:induction false} FrontBack(s: Bytes, c: Content, last: Bytes, h: RawHello)
    requires Valid(c) && 2 * |c.ciphers| < 0x1_0000 && From(s, 9, Message(c, last))
    requires EndsWith(FrontEnd(c), last, (h.extensions, h.extensionsSpan))
    requires h == Read(c, h.extensions, h.extensionsSpan)
    ensures IsMessage(s, h)
  {
    var start := CipherStart(c);
    IsPlaced(s, c, last, start, start + 2 * |c.ciphers|);
    assert IsBlock(s, FrontEnd(c), (h.extensions, h.extensionsSpan));
    PlacedIsRead(s, c, start, start + 2 * |c.ciphers|, h);
  }

  lemma {:induction false} MessageLength(c: Content, last: Bytes)
    requires Valid(c)
    ensures 9 + |Message(c, last)| == FrontEnd(c) + |last|
  {
  }

  lemma {:induction false} Whole(s: Bytes)
    ensures From(s, 0, s) && s[..|s|] == s
  {
    assert s[0..] == s;
  }

  lemma {:induction false} FramedBack(r: Bytes, n: nat)
    requires 4 + n < 0x1_0000 && |r| == 9 + n && r[0] == HANDSHAKE && BigEndian(r[3..5]) == 4 + n
    requires r[5] == CLIENT_HELLO && BigEndian(r[6..9]) == n
    ensures RecordEnd(r) == Ok(|r|) && HandshakeEnd(r[..|r|]) == Ok(|r|)
  {
    assert r[..|r|] == r;
  }

  /** Where the parts of a record are. */
  lemma {:induction false} RecordLayout(r: Bytes, kind: u8, version: Bytes, n: Bytes, what: u8, m: Bytes,
                                        message: Bytes)
    requires |version| == 2 && |n| == 2 && |m| == 3
    requires r == [kind] + (version + (n + ([what] + (m + message))))
    ensures |r| == 9 + |message| && r[0] == kind && r[3..5] == n && r[5] == what && r[6..9] == m && From(r, 9, message)
  {
    Whole(r);
    Peel(r, 0, [kind], version + (n + ([what] + (m + message))));
    HasOne(r, 0, kind);
    Peel(r, 1, version, n + ([what] + (m + message)));
    Peel(r, 3, n, [what] + (m + message));
    HasSlice(r, 3, n);
    Peel(r, 5, [what], m + message);
    HasOne(r, 5, what);
    Peel(r, 6, m, message);
    HasSlice(r, 6, m);
  }

  lemma {:induction false} RecordBack(r: Bytes, c: Content, recordVersion: Bytes, last: Bytes, message: Bytes)
    requires Valid(c) && |recordVersion| == 2 && message == Message(c, last) && 4 + |message| < 0x1_0000
    requires r == Record(c, recordVersion, last)
    ensures From(r, 9, message) && RecordEnd(r) == Ok(|r|) && HandshakeEnd(r[..|r|]) == Ok(|r|)
  {
    var n := |message|;
    Pow256Values();
    BigEndianOfOctets(4 + n, 2);
    BigEndianOfOctets(n, 3);
    RecordLayout(r, 0x16, recordVersion, Octets(4 + n, 2), 0x01, Octets(n, 3), message);
    FramedBack(r, n);
  }

  /** A record is read as `h` when the octets behind the compression methods are. */
  lemma {:induction false} FrontIsRead(c: Content, recordVersion: Bytes, last: Bytes, h: RawHello, more: Bytes)
    requires Valid(c) && |recordVersion| == 2 && 4 + |Message(c, last)| < 0x1_0000
    requires EndsWith(FrontEnd(c), last, (h.extensions, h.extensionsSpan))
    requires h == Read(c, h.extensions, h.extensionsSpan)
    ensures HelloOf(Record(c, recordVersion, last) + more) == Ok(h)
  {
    var r := Record(c, recordVersion, last);
    MessageLength(c, last);
    RecordBack(r, c, recordVersion, last, Message(c, last));
    FrontBack(r, c, last, h);
    assert Key(MESSAGE);
    Whole(r);
    HelloParts(r, h);
    OnlyTheRecordMatters(r, more);
  }

  lemma {:induction false} ExtensionsEnd(c: Content, end: nat, last: Bytes, block: (seq<RawExt>, Span))
    requires Valid(c) && |Written(c.fields)| < 0x1_0000 && last == ExtensionList(c)
    requires block == (LaidAt(end + 2, c.fields), Span(end + 2, |Written(c.fields)|))
    ensures EndsWith(end, last, block)
  {
    forall s: Bytes | end <= |s| && s[end..] == last
      ensures IsBlock(s, end, block)
    {
      BlockPlaced(s, end, c, last, block);
    }
  }

  lemma {:induction false} NothingEnds(end: nat, last: Bytes)
    requires |last| < 2
    ensures EndsWith(end, last, ([], Span(end, 0)))
  {
    forall s: Bytes | end <= |s| && s[end..] == last
      ensures IsBlock(s, end, ([], Span(end, 0)))
    {
      NoBlockPlaced(s, end, last);
    }
  }

  lemma {:induction false} ExtensionsAreRead(c: Content, recordVersion: Bytes, more: Bytes, h: RawHello)
    requires Valid(c) && |recordVersion| == 2 && 4 + |Message(c, ExtensionList(c))| < 0x1_0000
    requires h == Read(c, LaidAt(FrontEnd(c) + 2, c.fields), Span(FrontEnd(c) + 2, |Written(c.fields)|))
    ensures HelloOf(Record(c, recordVersion, ExtensionList(c)) + more) == Ok(h)
  {
    var last := ExtensionList(c);
    MessageLength(c, last);
    ExtensionsEnd(c, FrontEnd(c), last, (h.extensions, h.extensionsSpan));
    FrontIsRead(c, recordVersion, last, h, more);
  }

  lemma {:induction false} NoBlockIsRead(c: Content, recordVersion: Bytes, last: Bytes, more: Bytes, h: RawHello)
    requires Valid(c) && |recordVersion| == 2 && |last| < 2 && 4 + |Message(c, last)| < 0x1_0000
    requires h == Read(c, [], Span(FrontEnd(c), 0))
    ensures HelloOf(Record(c, recordVersion, last) + more) == Ok(h)
  {
    NothingEnds(FrontEnd(c), last);
    FrontIsRead(c, recordVersion, last, h, more);
  }

  lemma {:induction false} ReadIs(c: Content, exts: seq<RawExt>, span: Span)
    ensures Read(c, exts, span) ==
      RawHello(c.version, c.ciphers, exts, Span(46 + |c.session|, 2 * |c.ciphers|), span)
    ensures FrontEnd(c) == 46 + |c.session| + 2 * |c.ciphers| + 1 + |c.compression|
  {
  }

  /** Whatever the version, the random octets, the session identifier, the ciphers, the compression methods and the
    * extensions are, the record that writes them in this order, each list behind its length, is read to exactly this
    * version, these ciphers and extensions, with spans that follow from the lengths, whatever follows the record. */
  lemma {:induction false} AnyHelloIsRead(c: Content, recordVersion: Bytes, more: Bytes, start: nat)
    requires Valid(c) && |recordVersion| == 2 && 4 + |Message(c, ExtensionList(c))| < 0x1_0000
    requires start == 46 + |c.session| + 2 * |c.ciphers| + 1 + |c.compression| + 2
    ensures HelloOf(Record(c, recordVersion, ExtensionList(c)) + more) ==
      Ok(RawHello(c.version, c.ciphers, LaidAt(start, c.fields), Span(46 + |c.session|, 2 * |c.ciphers|),
                  Span(start, |Written(c.fields)|)))
  {
    var exts, span := LaidAt(start, c.fields), Span(start, |Written(c.fields)|);
    ReadIs(c, exts, span);
    ExtensionsAreRead(c, recordVersion, more, Read(c, exts, span));
  }

  /** And a record that ends behind the compression methods, or one octet later, is read to no extensions. */
  lemma {:induction false} HelloWithoutBlockIsRead(c: Content, recordVersion: Bytes, last: Bytes, more: Bytes, end: nat)
    requires Valid(c) && |recordVersion| == 2 && |last| < 2 && 4 + |Message(c, last)| < 0x1_0000
    requires end == 46 + |c.session| + 2 * |c.ciphers| + 1 + |c.compression|
    ensures HelloOf(Record(c, recordVersion, last) + more) ==
      Ok(RawHello(c.version, c.ciphers, [], Span(46 + |c.session|, 2 * |c.ciphers|), Span(end, 0)))
  {
    ReadIs(c, [], Span(end, 0));
    NoBlockIsRead(c, recordVersion, last, more, Read(c, [], Span(end, 0)));
  }
}
