/** What the spans of an accepted ClientHello promise, and what the walk depends on. */
module HelloSpans {
  import opened Bits
  import opened Results
  import opened Readers
  import opened ClientHello

  function End(span: Span): nat {
    span.start + span.len
  }

  predicate Within(span: Span, s: Bytes) {
    End(span) <= |s|
  }

  /** The span of `ext` covers its header and its body: identifier, length, then the body itself. */
  ghost predicate Describes(s: Bytes, ext: RawExt) {
    var start := ext.span.start;
    && Within(ext.span, s) && ext.span.len == 4 + |ext.body|
    && U16Of(s[start..start + 2]) == ext.id
    && BigEndian(s[start + 2..start + 4]) == |ext.body|
    && s[start + 4..End(ext.span)] == ext.body
  }

  function TileEnd(pos: nat, exts: seq<RawExt>): nat {
    if exts == [] then pos else End(exts[|exts| - 1].span)
  }

  /** Extension `i` starts where the one before it ends, the first one at `pos`. */
  predicate Abuts(pos: nat, exts: seq<RawExt>, i: nat)
    requires i < |exts|
  {
    exts[i].span.start == if i == 0 then pos else End(exts[i - 1].span)
  }

  /** The extensions lie end to end from `pos` on and leave less than an extension header at the end of `s`. */
  ghost predicate Tiles(s: Bytes, pos: nat, exts: seq<RawExt>) {
    && (forall i :: 0 <= i < |exts| ==> Describes(s, exts[i]))
    && (forall i {:trigger Abuts(pos, exts, i)} :: 0 <= i < |exts| ==> Abuts(pos, exts, i))
    && TileEnd(pos, exts) <= |s| < TileEnd(pos, exts) + 4
  }

  /** There is one extension a span starting at `pos` can describe. */
  lemma DescribedAt(s: Bytes, pos: nat, ext: RawExt)
    ensures ext.span.start == pos && Describes(s, ext) <==>
      && pos + 4 <= |s|
      && var next := pos + 4 + BigEndian(s[pos + 2..pos + 4]);
         next <= |s| && ext == ExtensionAt(s, pos, next)
  {
  }

  lemma AbutsStep(pos: nat, exts: seq<RawExt>)
    requires exts != []
    ensures (forall i {:trigger Abuts(pos, exts, i)} :: 0 <= i < |exts| ==> Abuts(pos, exts, i)) <==>
      && exts[0].span.start == pos
      && forall i {:trigger Abuts(End(exts[0].span), exts[1..], i)} :: 0 <= i < |exts| - 1 ==>
           Abuts(End(exts[0].span), exts[1..], i)
  {
    var next, tail := End(exts[0].span), exts[1..];
    forall i | 0 <= i < |tail|
      ensures Abuts(next, tail, i) <==> Abuts(pos, exts, i + 1)
    {
    }
    assert Abuts(pos, exts, 0) <==> exts[0].span.start == pos;
    forall i | 0 < i < |exts|
      ensures Abuts(pos, exts, i) <==> Abuts(next, tail, i - 1)
    {
    }
  }

  lemma TilesStep(s: Bytes, pos: nat, exts: seq<RawExt>)
    requires exts != []
    ensures Tiles(s, pos, exts) <==>
      exts[0].span.start == pos && Describes(s, exts[0]) && Tiles(s, End(exts[0].span), exts[1..])
  {
    AbutsStep(pos, exts);
    var tail := exts[1..];
    assert TileEnd(pos, exts) == TileEnd(End(exts[0].span), tail);
    assert exts == [exts[0]] + tail;
    assert (forall i :: 0 <= i < |exts| ==> Describes(s, exts[i])) <==>
      Describes(s, exts[0]) && forall i :: 0 <= i < |tail| ==> Describes(s, tail[i]) by {
      if Describes(s, exts[0]) && forall i :: 0 <= i < |tail| ==> Describes(s, tail[i]) {
        forall i | 0 <= i < |exts|
          ensures Describes(s, exts[i])
        {
          if i > 0 {
            assert exts[i] == tail[i - 1];
          }
        }
      }
    }
  }

  lemma ExtensionsHead(s: Bytes, pos: nat, exts: seq<RawExt>)
    requires pos <= |s| && exts != []
    ensures ExtensionsFrom(s, pos) == Ok(exts) <==>
      && pos + 4 <= |s|
      && var next := pos + 4 + BigEndian(s[pos + 2..pos + 4]);
         next <= |s| && exts[0] == ExtensionAt(s, pos, next) && ExtensionsFrom(s, next) == Ok(exts[1..])
  {
    if pos + 4 <= |s| {
      var next := pos + 4 + BigEndian(s[pos + 2..pos + 4]);
      if next <= |s| {
        FollowedBy(ExtensionAt(s, pos, next), ExtensionsFrom(s, next), exts);
      }
    }
  }

  /** The walk accepts an extensions block with a list of extensions exactly when they tile it. */
  lemma {:induction false} ExtensionsTile(s: Bytes, pos: nat, exts: seq<RawExt>)
    requires pos <= |s|
    ensures ExtensionsFrom(s, pos) == Ok(exts) <==> Tiles(s, pos, exts)
    decreases |exts|
  {
    if exts == [] {
      ExtensionsEmpty(s, pos);
    } else {
      var next := End(exts[0].span);
      if next <= |s| {
        ExtensionsTile(s, next, exts[1..]);
      }
      TileTurn(s, pos, exts, next);
    }
  }

  lemma {:induction false} TileTurn(s: Bytes, pos: nat, exts: seq<RawExt>, next: nat)
    requires pos <= |s| && exts != [] && next == End(exts[0].span)
    requires next <= |s| ==> (ExtensionsFrom(s, next) == Ok(exts[1..]) <==> Tiles(s, next, exts[1..]))
    ensures ExtensionsFrom(s, pos) == Ok(exts) <==> Tiles(s, pos, exts)
  {
    ExtensionsHead(s, pos, exts);
    TilesStep(s, pos, exts);
    DescribedAt(s, pos, exts[0]);
  }

  lemma {:induction false} ExtensionsEmpty(s: Bytes, pos: nat)
    requires pos <= |s|
    ensures ExtensionsFrom(s, pos) == Ok([]) <==> Tiles(s, pos, [])
  {
  }

  lemma FollowedBy(ext: RawExt, r: Result<seq<RawExt>, ParseError>, exts: seq<RawExt>)
    requires exts != []
    ensures Prepend([ext], r) == Ok(exts) <==> exts[0] == ext && r == Ok(exts[1..])
  {
    assert exts == [exts[0]] + exts[1..];
    if r.Ok? {
      assert ([ext] + r.value)[1..] == r.value;
    }
  }

  // ----- the whole message -----

  lemma BlockSpans(s: Bytes, end: nat)
    requires end <= |s| && BlockIn(s, end).Ok?
    ensures var (exts, span) := BlockIn(s, end).value;
      end <= span.start && End(span) <= |s| && Tiles(s[..End(span)], span.start, exts)
  {
    var (exts, span) := BlockIn(s, end).value;
    if |s| - end < 2 {
      ExtensionsEmpty(s[..end], end);
    } else {
      ExtensionsTile(s[..End(span)], span.start, exts);
    }
  }

  lemma {:induction false} MessageSpans(s: Bytes)
    requires MessageIn(s).Ok?
    ensures var h := MessageIn(s).value;
      && End(h.cipherSpan) < h.extensionsSpan.start && End(h.extensionsSpan) <= |s|
      && U16s(s[h.cipherSpan.start..End(h.cipherSpan)]) == h.ciphers
      && 2 * |h.ciphers| == h.cipherSpan.len
      && Tiles(s[..End(h.extensionsSpan)], h.extensionsSpan.start, h.extensions)
  {
    BlockSpans(s, HeadIn(s).value.end);
  }

  /** The spans of an accepted ClientHello are right for the captured buffer: the cipher span lies in it and decodes to
    * the cipher list, every extension's span describes that extension, and the extensions tile the extensions block,
    * which follows the ciphers and ends within the record. */
  lemma {:induction false} SpansAreRight(raw: Bytes, h: RawHello)
    requires HelloOf(raw) == Ok(h)
    ensures RecordEnd(raw).Ok?
    ensures End(h.cipherSpan) < h.extensionsSpan.start && End(h.extensionsSpan) <= RecordEnd(raw).value <= |raw|
    ensures U16s(raw[h.cipherSpan.start..End(h.cipherSpan)]) == h.ciphers
    ensures 2 * |h.ciphers| == h.cipherSpan.len
    ensures Tiles(raw[..End(h.extensionsSpan)], h.extensionsSpan.start, h.extensions)
  {
    var end := HandshakeEnd(raw[..RecordEnd(raw).value]).value;
    var s := raw[..end];
    MessageSpans(s);
    CutTwice(raw, end, End(h.extensionsSpan));
    assert s[h.cipherSpan.start..End(h.cipherSpan)] == raw[h.cipherSpan.start..End(h.cipherSpan)];
  }

  /** Describing an extension in the front of a buffer is describing it in the buffer. */
  lemma DescribesInWhole(raw: Bytes, cut: nat, ext: RawExt)
    requires cut <= |raw| && Describes(raw[..cut], ext)
    ensures Describes(raw, ext)
  {
    var start, s := ext.span.start, raw[..cut];
    assert s[start..start + 2] == raw[start..start + 2];
    assert s[start + 2..start + 4] == raw[start + 2..start + 4];
    assert s[start + 4..End(ext.span)] == raw[start + 4..End(ext.span)];
  }

  /** Slicing the captured buffer with an extension's span gives that extension. */
  lemma ExtensionSpansSlice(raw: Bytes, h: RawHello, ext: RawExt)
    requires HelloOf(raw) == Ok(h) && ext in h.extensions
    ensures Describes(raw, ext)
  {
    SpansAreRight(raw, h);
    DescribesInWhole(raw, End(h.extensionsSpan), ext);
  }

  // ----- one record only -----

  /** Nothing behind a complete record matters. */
  lemma OnlyTheRecordMatters(raw: Bytes, more: Bytes)
    requires RecordEnd(raw).Ok?
    ensures HelloOf(raw + more) == HelloOf(raw)
  {
    assert (raw + more)[3..5] == raw[3..5];
    var end := RecordEnd(raw).value;
    assert (raw + more)[..end] == raw[..end];
    var handshake := HandshakeEnd(raw[..end]);
    if handshake.Ok? {
      assert (raw + more)[..handshake.value] == raw[..handshake.value];
    }
  }

  /** A buffer that stops short of the end of its record is truncated, wherever it stops. */
  lemma PrefixIsTruncated(raw: Bytes, cut: nat)
    requires RecordEnd(raw).Ok? && cut < RecordEnd(raw).value
    ensures HelloOf(raw[..cut]) == Err(Truncated)
  {
    if cut >= 5 {
      assert raw[..cut][3..5] == raw[3..5];
    }
  }

  /** What is kept of a captured buffer. */
  function Retain(raw: Bytes): Bytes {
    raw[..if |raw| < MAX_RETAINED_HELLO then |raw| else MAX_RETAINED_HELLO]
  }

  /** Keeping the front of the buffer keeps an accepted ClientHello exactly when its record fits. */
  lemma RetainedHello(raw: Bytes)
    requires HelloOf(raw).Ok?
    ensures RecordEnd(raw).Ok?
    ensures HelloOf(Retain(raw)) == if RecordEnd(raw).value <= MAX_RETAINED_HELLO then HelloOf(raw) else Err(Truncated)
  {
    var kept := |Retain(raw)|;
    if RecordEnd(raw).value <= kept {
      assert raw == Retain(raw) + raw[kept..];
      RecordOfPrefix(raw, kept);
      OnlyTheRecordMatters(Retain(raw), raw[kept..]);
    } else {
      PrefixIsTruncated(raw, kept);
    }
  }

  lemma RecordOfPrefix(raw: Bytes, cut: nat)
    requires RecordEnd(raw).Ok? && RecordEnd(raw).value <= cut <= |raw|
    ensures RecordEnd(raw[..cut]) == RecordEnd(raw)
  {
    assert raw[..cut][3..5] == raw[3..5];
  }
}
