/** ClientHellos written down: any list of extensions can be captured, and those of a captured ClientHello can be
  * captured in any order. */
module HelloWriting {
  import opened Sequences
  import opened Locks
  import opened Bits
  import opened Results
  import opened Readers
  import opened Lists
  import opened ClientHello
  import opened HelloSpans
  import opened Extensions

  /** An extension on the wire: identifier, length, body. */
  function FieldOctets(f: Field): (r: Bytes)
    ensures |r| == 4 + |f.body|
  {
    Octets(f.id, 2) + Octets(|f.body|, 2) + f.body
  }

  function Written(fields: seq<Field>): Bytes {
    if fields == [] then [] else FieldOctets(fields[0]) + Written(fields[1..])
  }

  /** The extensions as the walk reports them when they start at offset `pos`. */
  function LaidAt(pos: nat, fields: seq<Field>): (r: seq<RawExt>)
    ensures |r| == |fields|
    decreases |fields|
  {
    if fields == [] then []
    else
      var f := fields[0];
      [RawExt(f.id, f.body, Span(pos, 4 + |f.body|))] + LaidAt(pos + 4 + |f.body|, fields[1..])
  }

  lemma {:induction false} FirstMapped(exts: seq<RawExt>)
    requires exts != []
    ensures Map(exts, FieldOf) == [FieldOf(exts[0])] + Map(exts[1..], FieldOf)
  {
  }

  lemma {:induction false} LaidFields(pos: nat, fields: seq<Field>)
    ensures Map(LaidAt(pos, fields), FieldOf) == fields
    decreases |fields|
  {
    if fields != [] {
      var next := pos + 4 + |fields[0].body|;
      LaidFields(next, fields[1..]);
      FirstMapped(LaidAt(pos, fields));
      assert LaidAt(pos, fields)[1..] == LaidAt(next, fields[1..]);
      assert fields == [fields[0]] + fields[1..];
    }
  }

  predicate Writable(fields: seq<Field>) {
    forall f :: f in fields ==> |f.body| < 0x1_0000
  }

  /** `s` holds the field from offset `pos` on. */
  ghost predicate Holds(s: Bytes, pos: nat, f: Field) {
    forall k: int {:trigger Key(k)} :: Key(k) && k == EXTENSIONS ==>
      && |f.body| < 0x1_0000 && pos + 4 + |f.body| <= |s|
      && s[pos..pos + 2] == Octets(f.id, 2)
      && s[pos + 2..pos + 4] == Octets(|f.body|, 2)
      && s[pos + 4..pos + 4 + |f.body|] == f.body
  }

  lemma {:induction false} HeldField(s: Bytes, pos: nat, f: Field, tail: Bytes)
    requires |f.body| < 0x1_0000 && pos <= |s| && s[pos..] == FieldOctets(f) + tail
    ensures Holds(s, pos, f) && pos + 4 + |f.body| <= |s| && s[pos + 4 + |f.body|..] == tail
  {
    var t, n := s[pos..], 4 + |f.body|;
    Slices(s, pos);
    assert t[0..2] == Octets(f.id, 2) && t[2..4] == Octets(|f.body|, 2) && t[4..n] == f.body && t[n..] == tail;
  }

  lemma {:induction false} HeldExtension(s: Bytes, pos: nat, f: Field)
    requires Holds(s, pos, f)
    ensures pos + 4 + |f.body| <= |s| && BigEndian(s[pos + 2..pos + 4]) == |f.body|
    ensures ExtensionAt(s, pos, pos + 4 + |f.body|) == RawExt(f.id, f.body, Span(pos, 4 + |f.body|))
  {
    assert Key(EXTENSIONS);
    Pow256Values();
    BigEndianOfOctets(f.id, 2);
    BigEndianOfOctets(|f.body|, 2);
  }

  lemma {:induction false} FirstRead(s: Bytes, pos: nat, f: Field)
    requires Holds(s, pos, f)
    ensures pos + 4 + |f.body| <= |s|
    ensures ExtensionsFrom(s, pos) ==
      Prepend([RawExt(f.id, f.body, Span(pos, 4 + |f.body|))], ExtensionsFrom(s, pos + 4 + |f.body|))
  {
    HeldExtension(s, pos, f);
  }

  /** The walk reads the fields from offset `pos` on. */
  ghost predicate ReadsAs(s: Bytes, pos: nat, fields: seq<Field>) {
    forall k: int {:trigger Key(k)} :: Key(k) && k == EXTENSIONS ==>
      pos <= |s| && ExtensionsFrom(s, pos) == Ok(LaidAt(pos, fields))
  }

  lemma {:induction false} ReadsOneMore(s: Bytes, pos: nat, fields: seq<Field>)
    requires fields != [] && Holds(s, pos, fields[0])
    requires ReadsAs(s, pos + 4 + |fields[0].body|, fields[1..])
    ensures ReadsAs(s, pos, fields)
  {
    FirstRead(s, pos, fields[0]);
    assert Key(EXTENSIONS);
  }

  lemma {:induction false} WrittenHead(fields: seq<Field>, tail: Bytes)
    requires fields != []
    ensures Written(fields) + tail == FieldOctets(fields[0]) + (Written(fields[1..]) + tail)
  {
    Associate(FieldOctets(fields[0]), Written(fields[1..]), tail);
  }

  /** From offset `pos` on `s` holds the fields, and then fewer octets than an extension header. */
  ghost predicate HoldsAll(s: Bytes, pos: nat, fields: seq<Field>, tail: Bytes) {
    forall k: int {:trigger Key(k)} :: Key(k) && k == EXTENSIONS ==>
      Writable(fields) && |tail| < 4 && pos <= |s| && s[pos..] == Written(fields) + tail
  }

  lemma {:induction false} FirstHeld(s: Bytes, pos: nat, fields: seq<Field>, tail: Bytes)
    requires fields != [] && HoldsAll(s, pos, fields, tail)
    ensures Holds(s, pos, fields[0]) && HoldsAll(s, pos + 4 + |fields[0].body|, fields[1..], tail)
  {
    assert Key(EXTENSIONS);
    WrittenHead(fields, tail);
    HeldField(s, pos, fields[0], Written(fields[1..]) + tail);
  }

  lemma {:induction false} NoneRead(s: Bytes, pos: nat, tail: Bytes)
    requires HoldsAll(s, pos, [], tail)
    ensures ReadsAs(s, pos, [])
  {
    assert Key(EXTENSIONS);
    assert s[pos..] == tail;
  }

  lemma {:induction false} FieldsRead(s: Bytes, pos: nat, fields: seq<Field>, tail: Bytes)
    requires HoldsAll(s, pos, fields, tail)
    ensures ReadsAs(s, pos, fields)
    decreases |fields|
  {
    if fields == [] {
      NoneRead(s, pos, tail);
    } else {
      FirstHeld(s, pos, fields, tail);
      FieldsRead(s, pos + 4 + |fields[0].body|, fields[1..], tail);
      ReadsOneMore(s, pos, fields);
    }
  }

  /** Written extensions are read back, wherever they start and with up to three octets behind them. */
  lemma {:induction false} ExtensionsReadBack(s: Bytes, pos: nat, fields: seq<Field>, tail: Bytes)
    requires Writable(fields) && |tail| < 4
    requires pos <= |s| && s[pos..] == Written(fields) + tail
    ensures ExtensionsFrom(s, pos) == Ok(LaidAt(pos, fields))
  {
    FieldsRead(s, pos, fields, tail);
    assert Key(EXTENSIONS);
  }

  lemma {:induction false} WrittenConcat(a: seq<Field>, b: seq<Field>)
    ensures Written(a + b) == Written(a) + Written(b)
  {
    if a == [] {
      assert a + b == b;
    } else {
      assert (a + b)[1..] == a[1..] + b;
      WrittenConcat(a[1..], b);
    }
  }

  lemma {:induction false} WrittenFirst(f: Field, others: seq<Field>)
    ensures Written([f] + others) == FieldOctets(f) + Written(others)
  {
    assert ([f] + others)[1..] == others;
  }

  lemma {:induction false} TileEndStep(pos: nat, exts: seq<RawExt>)
    requires exts != []
    ensures TileEnd(pos, exts) == TileEnd(End(exts[0].span), exts[1..])
  {
  }

  /** Extensions that tile a block take as much room as they do written down. */
  lemma {:induction false} TilesAreWritten(s: Bytes, pos: nat, exts: seq<RawExt>)
    requires Tiles(s, pos, exts)
    ensures |Written(Map(exts, FieldOf))| == TileEnd(pos, exts) - pos
    decreases |exts|
  {
    if exts != [] {
      var next, others := End(exts[0].span), Map(exts[1..], FieldOf);
      TilesStep(s, pos, exts);
      TileEndStep(pos, exts);
      TilesAreWritten(s, next, exts[1..]);
      FirstMapped(exts);
      WrittenFirst(FieldOf(exts[0]), others);
      assert |FieldOctets(FieldOf(exts[0]))| == next - pos;
    }
  }

  lemma {:induction false} TilesAreWritable(s: Bytes, pos: nat, exts: seq<RawExt>)
    requires Tiles(s, pos, exts)
    ensures Writable(Map(exts, FieldOf))
  {
    Pow256Values();
    forall i | 0 <= i < |exts|
      ensures |Map(exts, FieldOf)[i].body| < 0x1_0000
    {
      assert Describes(s, exts[i]);
    }
  }

  // ----- a captured ClientHello with other extensions -----

  lemma {:induction false} SameSlice(s: Bytes, t: Bytes, n: nat, from: nat, to: nat)
    requires from <= to <= n <= |s| && n <= |t| && s[..n] == t[..n]
    ensures s[from..to] == t[from..to]
  {
    assert s[..n][from..to] == s[from..to] && t[..n][from..to] == t[from..to];
  }

  lemma {:induction false} SameOctet(s: Bytes, t: Bytes, n: nat, i: nat)
    requires i < n <= |s| && n <= |t| && s[..n] == t[..n]
    ensures s[i] == t[i]
  {
    assert s[..n][i] == s[i] && t[..n][i] == t[i];
  }

  /** The head of a message is read off the octets in front of the extensions. */
  lemma {:induction false} HeadIsLocal(s: Bytes, t: Bytes, n: nat)
    requires |s| == |t| && HeadIn(s).Ok? && HeadIn(s).value.end <= n <= |s| && s[..n] == t[..n]
    ensures HeadIn(t) == HeadIn(s)
  {
    var h := HeadIn(s).value;
    SameOctet(s, t, n, 43);
    SameSlice(s, t, n, h.cipherStart - 2, h.cipherStart);
    SameOctet(s, t, n, h.cipherEnd);
  }

  /** The extensions block of a message that holds `fields` from its start on. */
  lemma {:induction false} BlockRelaid(s: Bytes, t: Bytes, end: nat, fields: seq<Field>, tail: Bytes)
    requires |s| == |t| && end + 2 <= |s| && BlockIn(s, end).Ok? && s[..end + 2] == t[..end + 2]
    requires Writable(fields) && |tail| < 4
    requires t[end + 2..End(BlockIn(s, end).value.1)] == Written(fields) + tail
    ensures BlockIn(t, end) == Ok((LaidAt(end + 2, fields), BlockIn(s, end).value.1))
  {
    var span := BlockIn(s, end).value.1;
    SameSlice(s, t, end + 2, end, end + 2);
    ExtensionsReadBack(t[..End(span)], end + 2, fields, tail);
  }

  /** What a message is read to, by its head and its extensions block. */
  function Assembled(s: Bytes, h: Head, block: (seq<RawExt>, Span)): RawHello
    requires 11 <= |s| && h.cipherStart <= h.cipherEnd <= |s|
  {
    RawHello(U16Of(s[9..11]), U16s(s[h.cipherStart..h.cipherEnd]), block.0,
             Span(h.cipherStart, h.cipherEnd - h.cipherStart), block.1)
  }

  lemma {:induction false} MessageParts(s: Bytes, a: RawHello)
    ensures MessageIn(s) == Ok(a) <==>
      && HeadIn(s).Ok? && BlockIn(s, HeadIn(s).value.end).Ok?
      && a == Assembled(s, HeadIn(s).value, BlockIn(s, HeadIn(s).value.end).value)
  {
  }

  lemma {:induction false} BlockStarts(s: Bytes, end: nat)
    requires end <= |s| && BlockIn(s, end).Ok? && BlockIn(s, end).value.0 != []
    ensures end + 2 <= |s| && BlockIn(s, end).value.1.start == end + 2
  {
  }

  lemma {:induction false} AssembledAlike(s: Bytes, t: Bytes, n: nat, h: Head, block: (seq<RawExt>, Span),
                                          exts: seq<RawExt>)
    requires 11 <= n <= |s| == |t| && h.cipherStart <= h.cipherEnd <= n && s[..n] == t[..n]
    ensures Assembled(t, h, (exts, block.1)) == Assembled(s, h, block).(extensions := exts)
  {
    SameSlice(s, t, n, 9, 11);
    SameSlice(s, t, n, h.cipherStart, h.cipherEnd);
  }

  lemma {:induction false} HeadRelaid(s: Bytes, t: Bytes, h: Head, block: (seq<RawExt>, Span))
    requires |s| == |t| && HeadIn(s) == Ok(h) && BlockIn(s, h.end) == Ok(block) && block.0 != []
    requires block.1.start <= |s| && s[..block.1.start] == t[..block.1.start]
    ensures block.1.start == h.end + 2 && HeadIn(t) == Ok(h)
  {
    BlockStarts(s, h.end);
    HeadIsLocal(s, t, block.1.start);
  }

  lemma {:induction false} PartsRelaid(s: Bytes, t: Bytes, h: Head, block: (seq<RawExt>, Span), fields: seq<Field>,
                                       tail: Bytes)
    requires |s| == |t| && HeadIn(s) == Ok(h) && BlockIn(s, h.end) == Ok(block) && block.0 != []
    requires block.1.start <= |s| && s[..block.1.start] == t[..block.1.start] && End(block.1) <= |t|
    requires Writable(fields) && |tail| < 4 && t[block.1.start..End(block.1)] == Written(fields) + tail
    ensures block.1.start == h.end + 2 && HeadIn(t) == Ok(h)
    ensures BlockIn(t, h.end) == Ok((LaidAt(block.1.start, fields), block.1))
  {
    HeadRelaid(s, t, h, block);
    BlockRelaid(s, t, h.end, fields, tail);
  }

  lemma {:induction false} MessageRelaid(s: Bytes, t: Bytes, a: RawHello, fields: seq<Field>, tail: Bytes)
    requires |s| == |t| && MessageIn(s) == Ok(a) && a.extensions != []
    requires a.extensionsSpan.start <= |s| && s[..a.extensionsSpan.start] == t[..a.extensionsSpan.start]
    requires Writable(fields) && |tail| < 4 && End(a.extensionsSpan) <= |t|
    requires t[a.extensionsSpan.start..End(a.extensionsSpan)] == Written(fields) + tail
    ensures MessageIn(t) == Ok(a.(extensions := LaidAt(a.extensionsSpan.start, fields)))
  {
    MessageParts(s, a);
    var h, n := HeadIn(s).value, a.extensionsSpan.start;
    var block := BlockIn(s, h.end).value;
    PartsRelaid(s, t, h, block, fields, tail);
    AssembledAlike(s, t, n, h, block, LaidAt(n, fields));
    MessageParts(t, a.(extensions := LaidAt(n, fields)));
  }

  /** The captured octets with other extensions in the place of the ones sent. */
  function Relaid(raw: Bytes, a: RawHello, fields: seq<Field>): (r: Bytes)
    requires a.extensionsSpan.start + |Written(fields)| <= |raw|
    ensures |r| == |raw|
  {
    var start := a.extensionsSpan.start;
    raw[..start] + Written(fields) + raw[start + |Written(fields)|..]
  }

  lemma {:induction false} Replaced(raw: Bytes, start: nat, w: Bytes, n: nat)
    requires start + |w| <= n <= |raw|
    ensures var r := raw[..start] + w + raw[start + |w|..];
      r[..start] == raw[..start] && r[..n][..start] == raw[..n][..start] && r[..n][start..] == w + raw[start + |w|..n]
  {
    var r := raw[..start] + w + raw[start + |w|..];
    assert r[..n] == raw[..start] + w + raw[start + |w|..n];
  }

  lemma {:induction false} RelaidSlices(raw: Bytes, a: RawHello, fields: seq<Field>, n: nat)
    requires a.extensionsSpan.start + |Written(fields)| <= n <= |raw|
    ensures var start, r := a.extensionsSpan.start, Relaid(raw, a, fields);
      && r[..start] == raw[..start] && r[..n][..start] == raw[..n][..start]
      && r[..n][start..] == Written(fields) + raw[start + |Written(fields)|..n]
  {
    Replaced(raw, a.extensionsSpan.start, Written(fields), n);
  }

  lemma {:induction false} FramedAlike(raw: Bytes, t: Bytes, n: nat)
    requires |raw| == |t| && 9 <= n <= |raw| && raw[..n] == t[..n] && RecordEnd(raw).Ok?
    ensures RecordEnd(t) == RecordEnd(raw)
    ensures n <= RecordEnd(raw).value ==>
      HandshakeEnd(t[..RecordEnd(t).value]) == HandshakeEnd(raw[..RecordEnd(raw).value])
  {
    SameOctet(raw, t, n, 0);
    SameOctet(raw, t, n, 5);
    SameSlice(raw, t, n, 3, 5);
    SameSlice(raw, t, n, 6, 9);
    if n <= RecordEnd(raw).value {
      var end := RecordEnd(raw).value;
      assert raw[..end][6..9] == raw[6..9] && t[..end][6..9] == t[6..9];
    }
  }

  lemma {:induction false} HelloParts(raw: Bytes, a: RawHello)
    ensures HelloOf(raw) == Ok(a) <==>
      && RecordEnd(raw).Ok? && HandshakeEnd(raw[..RecordEnd(raw).value]).Ok?
      && MessageIn(raw[..HandshakeEnd(raw[..RecordEnd(raw).value]).value]) == Ok(a)
  {
  }

  /** The extensions of a message in `s`, and the room they take. */
  lemma {:induction false} ExtensionsLieIn(s: Bytes, a: RawHello)
    requires MessageIn(s) == Ok(a)
    ensures 46 < a.extensionsSpan.start && End(a.extensionsSpan) <= |s|
    ensures var n := |Written(Map(a.extensions, FieldOf))|;
      a.extensionsSpan.start + n <= End(a.extensionsSpan) < a.extensionsSpan.start + n + 4
    ensures Writable(Map(a.extensions, FieldOf))
  {
    MessageSpans(s);
    var start, block := a.extensionsSpan.start, End(a.extensionsSpan);
    TilesAreWritten(s[..block], start, a.extensions);
    TilesAreWritable(s[..block], start, a.extensions);
    MessageParts(s, a);
  }

  lemma {:induction false} RelaidInside(raw: Bytes, a: RawHello, fields: seq<Field>, block: nat, end: nat)
    requires a.extensionsSpan.start + |Written(fields)| <= block <= end <= |raw|
    ensures var start, t := a.extensionsSpan.start, Relaid(raw, a, fields)[..end];
      && |t| == end && raw[..end][..start] == t[..start]
      && t[start..block] == Written(fields) + raw[start + |Written(fields)|..block]
  {
    RelaidSlices(raw, a, fields, block);
    RelaidSlices(raw, a, fields, end);
    var t := Relaid(raw, a, fields);
    assert t[..end][a.extensionsSpan.start..block] == t[..block][a.extensionsSpan.start..];
  }

  /** The room written extensions take in place of the ones in `s`. */
  lemma {:induction false} RoomFor(s: Bytes, a: RawHello, fields: seq<Field>)
    requires MessageIn(s) == Ok(a) && |Written(fields)| == |Written(Map(a.extensions, FieldOf))|
    ensures var start, block, n := a.extensionsSpan.start, End(a.extensionsSpan), |Written(fields)|;
      46 < start && start + n <= block < start + n + 4 && block <= |s|
  {
    ExtensionsLieIn(s, a);
  }

  lemma {:induction false} RelaidMessage(raw: Bytes, a: RawHello, fields: seq<Field>, end: nat)
    requires end <= |raw| && MessageIn(raw[..end]) == Ok(a) && a.extensions != [] && Writable(fields)
    requires var start, block, n := a.extensionsSpan.start, End(a.extensionsSpan), |Written(fields)|;
      start + n <= block < start + n + 4 && block <= end
    ensures MessageIn(Relaid(raw, a, fields)[..end]) == Ok(a.(extensions := LaidAt(a.extensionsSpan.start, fields)))
  {
    var start, block := a.extensionsSpan.start, End(a.extensionsSpan);
    RelaidInside(raw, a, fields, block, end);
    MessageRelaid(raw[..end], Relaid(raw, a, fields)[..end], a, fields, raw[start + |Written(fields)|..block]);
  }

  /** A captured ClientHello whose extensions are replaced by others that take the same room is captured as the same
    * ClientHello with those extensions. */
  lemma {:induction false} HelloRelaid(raw: Bytes, a: RawHello, fields: seq<Field>)
    requires HelloOf(raw) == Ok(a) && a.extensions != [] && Writable(fields)
    requires |Written(fields)| == |Written(Map(a.extensions, FieldOf))|
    ensures a.extensionsSpan.start + |Written(fields)| <= |raw|
    ensures HelloOf(Relaid(raw, a, fields)) == Ok(a.(extensions := LaidAt(a.extensionsSpan.start, fields)))
  {
    HelloParts(raw, a);
    var end := HandshakeEnd(raw[..RecordEnd(raw).value]).value;
    RoomFor(raw[..end], a, fields);
    RelaidMessage(raw, a, fields, end);
    RelaidSlices(raw, a, fields, end);
    FramedAlike(raw, Relaid(raw, a, fields), a.extensionsSpan.start);
    HelloParts(Relaid(raw, a, fields), a.(extensions := LaidAt(a.extensionsSpan.start, fields)));
  }

  // ----- in any order -----

  lemma {:induction false} WrittenWithout(fields: seq<Field>, j: nat)
    requires j < |fields|
    ensures |Written(fields)| == |Written(Without(fields, j))| + 4 + |fields[j].body|
  {
    var a, b := fields[..j], fields[j + 1..];
    assert fields == a + ([fields[j]] + b);
    WrittenConcat(a, [fields[j]] + b);
    WrittenFirst(fields[j], b);
    WrittenConcat(a, b);
  }

  /** A rearrangement takes the same room. */
  lemma {:induction false} WrittenOfPermutation(a: seq<Field>, b: seq<Field>)
    requires multiset(a) == multiset(b)
    ensures |Written(a)| == |Written(b)|
    decreases |a|
  {
    if a == [] {
      assert |multiset(b)| == 0;
    } else {
      var j := FirstElsewhere(a, b);
      WrittenWithout(a, 0);
      WrittenWithout(b, j);
      WrittenOfPermutation(Without(a, 0), Without(b, j));
    }
  }

  lemma {:induction false} SameWritable(a: seq<Field>, b: seq<Field>)
    requires multiset(a) == multiset(b) && Writable(a)
    ensures Writable(b)
  {
    forall f | f in b
      ensures |f.body| < 0x1_0000
    {
      assert f in multiset(b);
    }
  }

  /** The extensions of a captured ClientHello can be captured in any order, everything else being the same. */
  lemma {:induction false} AnyOrderIsCaptured(raw: Bytes, a: RawHello, fields: seq<Field>)
    requires HelloOf(raw) == Ok(a) && multiset(fields) == multiset(Map(a.extensions, FieldOf))
    ensures exists t :: HelloOf(t) == Ok(a.(extensions := LaidAt(a.extensionsSpan.start, fields)))
  {
    if a.extensions == [] {
      assert |multiset(fields)| == 0;
      assert HelloOf(raw) == Ok(a.(extensions := LaidAt(a.extensionsSpan.start, fields)));
    } else {
      HelloParts(raw, a);
      ExtensionsLieIn(raw[..HandshakeEnd(raw[..RecordEnd(raw).value]).value], a);
      SameWritable(Map(a.extensions, FieldOf), fields);
      WrittenOfPermutation(fields, Map(a.extensions, FieldOf));
      HelloRelaid(raw, a, fields);
    }
  }

  // ----- a ClientHello from scratch -----

  const VERSION_TLS12: u16 := 0x0303
  const TLS_AES_128_GCM_SHA256: u16 := 0x1301

  function RecordFront(n: nat): (r: Bytes)
    ensures |r| == 9
  {
    [HANDSHAKE, 0x03, 0x01] + Octets(47 + n, 2) + [CLIENT_HELLO] + Octets(43 + n, 3)
  }

  /** Version, random octets, no session identifier, one cipher, no compression. */
  function MessageFront(): (r: Bytes)
    ensures |r| == 41
    ensures r[0..2] == [0x03, 0x03] && r[34] == 0 && r[35..37] == [0x00, 0x02] && r[37..39] == [0x13, 0x01]
    ensures r[39] == 1
  {
    [0x03, 0x03] + seq(32, _ => 0) + [0x00, 0x00, 0x02, 0x13, 0x01, 0x01, 0x00]
  }

  /** A ClientHello with these extensions. */
  function SmallHello(fields: seq<Field>): (r: Bytes)
    ensures |r| == 52 + |Written(fields)|
  {
    var n := |Written(fields)|;
    RecordFront(n) + (MessageFront() + (Octets(n, 2) + Written(fields)))
  }

  lemma {:induction false} RecordFrontSlices(n: nat)
    ensures var r := RecordFront(n);
      r[0] == HANDSHAKE && r[3..5] == Octets(47 + n, 2) && r[5] == CLIENT_HELLO && r[6..9] == Octets(43 + n, 3)
  {
  }

  lemma {:induction false} FourParts(a: Bytes, b: Bytes, c: Bytes, d: Bytes)
    ensures var r, m, n := a + (b + (c + d)), |a| + |b|, |a| + |b| + |c|;
      r[..|a|] == a && r[|a|..m] == b && r[m..n] == c && r[n..] == d
  {
  }

  lemma {:induction false} SliceWithin(r: Bytes, from: nat, to: nat, part: Bytes)
    requires from <= to <= |r| && r[from..to] == part
    ensures forall i {:trigger part[i]} :: 0 <= i < |part| ==> part[i] == r[from + i]
    ensures forall i, j {:trigger part[i..j]} :: 0 <= i <= j <= |part| ==> part[i..j] == r[from + i..from + j]
  {
  }

  lemma {:induction false} Framed(r: Bytes, n: nat)
    requires |r| == 52 + n && 47 + n < 0x1_0000
    requires r[0] == HANDSHAKE && r[3..5] == Octets(47 + n, 2) && r[5] == CLIENT_HELLO && r[6..9] == Octets(43 + n, 3)
    ensures RecordEnd(r) == Ok(|r|) && HandshakeEnd(r[..|r|]) == Ok(|r|)
  {
    Pow256Values();
    BigEndianOfOctets(47 + n, 2);
    BigEndianOfOctets(43 + n, 3);
    assert r[..|r|] == r;
  }

  lemma {:induction false} Headed(r: Bytes)
    requires |r| >= 52 && r[43] == 0 && r[44..46] == [0x00, 0x02] && r[48] == 1
    ensures HeadIn(r) == Ok(Head(46, 48, 50))
  {
    BigEndianOfFew(r[44..46]);
  }

  lemma {:induction false} BlockOf(r: Bytes, end: nat, n: nat, exts: seq<RawExt>)
    requires |r| == end + 2 + n && BigEndian(r[end..end + 2]) == n && ExtensionsFrom(r, end + 2) == Ok(exts)
    ensures BlockIn(r, end) == Ok((exts, Span(end + 2, n)))
  {
    assert r[..|r|] == r;
  }

  lemma {:induction false} Blocked(r: Bytes, end: nat, fields: seq<Field>)
    requires Writable(fields) && |Written(fields)| < 0x1_0000 && |r| == end + 2 + |Written(fields)|
    requires r[end..end + 2] == Octets(|Written(fields)|, 2) && r[end + 2..] == Written(fields)
    ensures BlockIn(r, end) == Ok((LaidAt(end + 2, fields), Span(end + 2, |Written(fields)|)))
  {
    Pow256Values();
    BigEndianOfOctets(|Written(fields)|, 2);
    assert r[end + 2..] == Written(fields) + [];
    ExtensionsReadBack(r, end + 2, fields, []);
    BlockOf(r, end, |Written(fields)|, LaidAt(end + 2, fields));
  }

  lemma {:induction false} FrontSlices(r: Bytes, n: nat)
    requires |r| >= 9 && r[0..9] == RecordFront(n)
    ensures r[0] == HANDSHAKE && r[3..5] == Octets(47 + n, 2) && r[5] == CLIENT_HELLO && r[6..9] == Octets(43 + n, 3)
  {
    RecordFrontSlices(n);
    SliceWithin(r, 0, 9, RecordFront(n));
    assert RecordFront(n)[0] == r[0] && RecordFront(n)[5] == r[5];
  }

  lemma {:induction false} MessageSlices(r: Bytes, front: Bytes)
    requires |r| >= 50 && r[9..50] == front && |front| == 41
    requires front[0..2] == [0x03, 0x03] && front[34] == 0 && front[35..37] == [0x00, 0x02]
    requires front[37..39] == [0x13, 0x01] && front[39] == 1
    ensures r[9..11] == [0x03, 0x03] && r[43] == 0 && r[44..46] == [0x00, 0x02] && r[46..48] == [0x13, 0x01]
    ensures r[48] == 1
  {
    SliceWithin(r, 9, 50, front);
    assert front[34] == r[43] && front[39] == r[48];
  }

  lemma {:induction false} SmallHelloParts(fields: seq<Field>)
    ensures var r, n := SmallHello(fields), |Written(fields)|;
      r[0..9] == RecordFront(n) && r[9..50] == MessageFront() && r[50..52] == Octets(n, 2) && r[52..] == Written(fields)
  {
    FourParts(RecordFront(|Written(fields)|), MessageFront(), Octets(|Written(fields)|, 2), Written(fields));
  }

  lemma {:induction false} OneCipher()
    ensures U16s([0x13, 0x01]) == [TLS_AES_128_GCM_SHA256]
  {
    var s: Bytes := [0x13, 0x01];
    assert s[..0] == [] && s[0..2] == s;
    BigEndianOfFew(s);
  }

  /** What `SmallHello` is to be read as. */
  function SmallHelloRead(fields: seq<Field>): RawHello {
    RawHello(VERSION_TLS12, [TLS_AES_128_GCM_SHA256], LaidAt(52, fields), Span(46, 2), Span(52, |Written(fields)|))
  }

  lemma {:induction false} SmallRead(r: Bytes, fields: seq<Field>)
    requires Writable(fields) && 47 + |Written(fields)| < 0x1_0000 && |r| == 52 + |Written(fields)|
    requires RecordEnd(r) == Ok(|r|) && HandshakeEnd(r[..|r|]) == Ok(|r|) && HeadIn(r) == Ok(Head(46, 48, 50))
    requires BlockIn(r, 50) == Ok((LaidAt(52, fields), Span(52, |Written(fields)|)))
    requires r[9..11] == [0x03, 0x03] && r[46..48] == [0x13, 0x01]
    ensures HelloOf(r) == Ok(SmallHelloRead(fields))
  {
    BigEndianOfFew(r[9..11]);
    OneCipher();
    assert r[..|r|] == r;
    MessageParts(r, SmallHelloRead(fields));
    HelloParts(r, SmallHelloRead(fields));
  }

  /** Any list of extensions that fits a record can be captured. */
  lemma {:induction false} AnyExtensionsAreCaptured(fields: seq<Field>)
    requires Writable(fields) && 47 + |Written(fields)| < 0x1_0000
    ensures HelloOf(SmallHello(fields)) == Ok(SmallHelloRead(fields))
  {
    SmallHelloParts(fields);
    FrontSlices(SmallHello(fields), |Written(fields)|);
    MessageSlices(SmallHello(fields), MessageFront());
    Framed(SmallHello(fields), |Written(fields)|);
    Headed(SmallHello(fields));
    Blocked(SmallHello(fields), 50, fields);
    SmallRead(SmallHello(fields), fields);
  }
}
