/** The JA4 fingerprint, and what it tells apart. */
module Ja4 {
  import opened Bits
  import opened Results
  import opened Texts
  import opened Lists
  import opened Readers
  import opened ClientHello
  import opened HelloSpans
  import opened Extensions
  import opened Ja3

  const UNDERSCORE: u8 := 0x5f

  /** Code this model does not look into: whether octets are text, the first twelve digits of a SHA-256, and an MD5. */
  datatype Outside = Outside(isText: Bytes -> bool, hash12: Bytes -> Bytes, md5: Bytes -> Bytes)

  // ----- segment a -----

  /** Two decimal digits, at most 99. */
  function Count2(n: nat): (r: Bytes)
    ensures |r| == 2
  {
    var m := if n < 99 then n else 99;
    [0x30 + m / 10, 0x30 + m % 10]
  }

  function VersionText(v: u16): (r: Bytes)
    ensures |r| == 2
  {
    match v
    case 0x0304 => Ascii("13")
    case 0x0303 => Ascii("12")
    case 0x0302 => Ascii("11")
    case 0x0301 => Ascii("10")
    case 0x0300 => Ascii("s3")
    case 0x0002 => Ascii("s2")
    case 0xfeff => Ascii("d1")
    case 0xfefd => Ascii("d2")
    case 0xfefc => Ascii("d3")
    case _ => Ascii("00")
  }

  predicate IsAlphanumeric(c: u8) {
    IsDigit(c) || 0x41 <= c <= 0x5a || 0x61 <= c <= 0x7a
  }

  /** First and last character of the first protocol; two hexadecimal digits when either is not alphanumeric. */
  function AlpnChars(alpn: Option<Bytes>): (r: Bytes)
    ensures |r| == 2
  {
    if alpn.None? || alpn.value == [] then Ascii("00")
    else
      var first, last := alpn.value[0], alpn.value[|alpn.value| - 1];
      if IsAlphanumeric(first) && IsAlphanumeric(last) then [first, last]
      else [HexDigit(first / 0x10), HexDigit(last % 0x10)]
  }

  function SegmentAOf(version: Bytes, sni: bool, ciphers: nat, extensions: nat, alpn: Bytes): (r: Bytes)
    requires |version| == 2 && |alpn| == 2
    ensures |r| == 10 && r[1..3] == version && r[8..] == alpn
  {
    Ascii("t") + version + (if sni then Ascii("d") else Ascii("i")) + Count2(ciphers) + Count2(extensions) + alpn
  }

  function SegmentA(h: RawHello, x: Outside): (r: Bytes)
    ensures |r| == 10
  {
    SegmentAOf(VersionText(NegotiatedVersion(h.extensions, h.legacyVersion)), HasSni(h.extensions), |Strip(h.ciphers)|,
               |Strip(Ids(h.extensions))|, AlpnChars(FirstAlpn(h.extensions, x.isText)))
  }

  // ----- segments b and c -----

  function HexList(values: seq<u16>): Bytes {
    Join(Map(values, Hex4), COMMA)
  }

  function CipherText(ciphers: seq<u16>): Bytes {
    HexList(Sorted(Strip(ciphers)))
  }

  /** Segment a already carries SNI and ALPN. */
  predicate Carried(id: u16) {
    id != EXT_SERVER_NAME && id != EXT_ALPN
  }

  function Hashed(extensions: seq<u16>): seq<u16> {
    Filter(Strip(extensions), Carried)
  }

  function ExtensionText(extensions: seq<u16>, sigAlgs: seq<u16>): Bytes {
    Join([HexList(Sorted(Hashed(extensions))), HexList(sigAlgs)], UNDERSCORE)
  }

  function EmptyHash(): Bytes {
    Ascii("000000000000")
  }

  function SegmentB(ciphers: seq<u16>, x: Outside): Bytes {
    if CipherText(ciphers) == [] then EmptyHash() else x.hash12(CipherText(ciphers))
  }

  function SegmentC(extensions: seq<u16>, sigAlgs: seq<u16>, x: Outside): Bytes {
    if Hashed(extensions) == [] && sigAlgs == [] then EmptyHash() else x.hash12(ExtensionText(extensions, sigAlgs))
  }

  function Ja4Of(h: RawHello, x: Outside): Bytes {
    Join([SegmentA(h, x), SegmentB(h.ciphers, x), SegmentC(Ids(h.extensions), SigAlgs(h.extensions), x)], UNDERSCORE)
  }

  /** The same before hashing. */
  function Ja4Raw(h: RawHello, x: Outside): Bytes {
    Join([SegmentA(h, x), CipherText(h.ciphers), ExtensionText(Ids(h.extensions), SigAlgs(h.extensions))], UNDERSCORE)
  }

  // ----- what equal texts say -----

  lemma HexListParts(values: seq<u16>)
    ensures forall i :: 0 <= i < |values| ==>
      COMMA !in Hex4(values[i]) && UNDERSCORE !in Hex4(values[i]) && Hex4(values[i]) != []
  {
  }

  lemma {:induction false} HexListLacks(values: seq<u16>, c: u8)
    requires c == UNDERSCORE
    ensures c !in HexList(values)
  {
    HexListParts(values);
    JoinLacks(Map(values, Hex4), COMMA, c);
  }

  lemma HexListInjective(a: seq<u16>, b: seq<u16>)
    requires HexList(a) == HexList(b)
    ensures a == b
  {
    HexListParts(a);
    HexListParts(b);
    var p, q := Map(a, Hex4), Map(b, Hex4);
    JoinInjective(p, q, COMMA);
    forall i | 0 <= i < |a|
      ensures a[i] == b[i]
    {
      assert p[i] == q[i];
      Hex4Injective(a[i], b[i]);
    }
  }

  /** The cipher text before hashing agrees exactly when the ciphers agree as multisets, GREASE aside. */
  lemma {:induction false} CipherTextAgrees(a: seq<u16>, b: seq<u16>)
    ensures CipherText(a) == CipherText(b) <==> multiset(Strip(a)) == multiset(Strip(b))
  {
    SortedAlike(Strip(a), Strip(b));
    if CipherText(a) == CipherText(b) {
      HexListInjective(Sorted(Strip(a)), Sorted(Strip(b)));
    }
  }

  lemma ExtensionTextSplits(extensions: seq<u16>, sigAlgs: seq<u16>)
    ensures Split(ExtensionText(extensions, sigAlgs), UNDERSCORE) ==
      [HexList(Sorted(Hashed(extensions))), HexList(sigAlgs)]
  {
    HexListLacks(Sorted(Hashed(extensions)), UNDERSCORE);
    HexListLacks(sigAlgs, UNDERSCORE);
    SplitOfJoin([HexList(Sorted(Hashed(extensions))), HexList(sigAlgs)], UNDERSCORE);
  }

  /** The extension text before hashing agrees exactly when the extensions agree as multisets, GREASE, SNI and ALPN
    * aside, and the signature algorithms agree in order. */
  lemma ExtensionTextAgrees(a: seq<u16>, s: seq<u16>, b: seq<u16>, t: seq<u16>)
    ensures ExtensionText(a, s) == ExtensionText(b, t) <==> multiset(Hashed(a)) == multiset(Hashed(b)) && s == t
  {
    SortedAlike(Hashed(a), Hashed(b));
    if ExtensionText(a, s) == ExtensionText(b, t) {
      ExtensionTextSplits(a, s);
      ExtensionTextSplits(b, t);
      var p := [HexList(Sorted(Hashed(a))), HexList(s)];
      var q := [HexList(Sorted(Hashed(b))), HexList(t)];
      assert p == q;
      assert p[0] == q[0] && p[1] == q[1];
      HexListInjective(Sorted(Hashed(a)), Sorted(Hashed(b)));
      HexListInjective(s, t);
    }
  }

  lemma {:induction false} JoinedTwice(a: Bytes, b: Bytes, e: Bytes, s: Bytes, c: u8)
    ensures Join([a, b, Join([e, s], c)], c) == a + [c] + Join([b, e, s], c)
  {
    var inner := Join([e, s], c);
    JoinStep(b, [inner], c);
    JoinStep(b, [e, s], c);
    JoinStep(a, [b, inner], c);
    assert [b] + [inner] == [b, inner] && [b] + [e, s] == [b, e, s] && [a] + [b, inner] == [a, b, inner];
  }

  lemma {:induction false} SplitsBehindHead(a: Bytes, b: Bytes, e: Bytes, s: Bytes, c: u8)
    requires c !in b && c !in e && c !in s
    ensures var w := Join([a, b, Join([e, s], c)], c);
      |w| > |a| && w[..|a|] == a && Split(w[|a| + 1..], c) == [b, e, s]
  {
    SplitOfJoin([b, e, s], c);
    JoinedTwice(a, b, e, s, c);
    HeadOff(a, c, Join([b, e, s], c));
  }

  lemma {:induction false} RawSplits(h: RawHello, x: Outside)
    ensures |Ja4Raw(h, x)| >= 11 && Ja4Raw(h, x)[..10] == SegmentA(h, x)
    ensures Split(Ja4Raw(h, x)[11..], UNDERSCORE) ==
      [CipherText(h.ciphers), HexList(Sorted(Hashed(Ids(h.extensions)))), HexList(SigAlgs(h.extensions))]
  {
    var e, s := Sorted(Hashed(Ids(h.extensions))), SigAlgs(h.extensions);
    HexListLacks(Sorted(Strip(h.ciphers)), UNDERSCORE);
    HexListLacks(e, UNDERSCORE);
    HexListLacks(s, UNDERSCORE);
    SplitsBehindHead(SegmentA(h, x), CipherText(h.ciphers), HexList(e), HexList(s), UNDERSCORE);
  }

  lemma HeadOff(a: Bytes, c: u8, rest: Bytes)
    ensures (a + [c] + rest)[..|a|] == a && (a + [c] + rest)[|a| + 1..] == rest
  {
  }

  /** The readable JA4 agrees exactly when segment a agrees, the ciphers and the hashed extensions agree as multisets
    * and the signature algorithms agree in order. */
  lemma {:induction false} Ja4RawAgrees(a: RawHello, b: RawHello, x: Outside)
    ensures Ja4Raw(a, x) == Ja4Raw(b, x) <==>
      && SegmentA(a, x) == SegmentA(b, x)
      && multiset(Strip(a.ciphers)) == multiset(Strip(b.ciphers))
      && multiset(Hashed(Ids(a.extensions))) == multiset(Hashed(Ids(b.extensions)))
      && SigAlgs(a.extensions) == SigAlgs(b.extensions)
  {
    var s, t := SigAlgs(a.extensions), SigAlgs(b.extensions);
    CipherTextAgrees(a.ciphers, b.ciphers);
    ExtensionTextAgrees(Ids(a.extensions), s, Ids(b.extensions), t);
    if Ja4Raw(a, x) == Ja4Raw(b, x) {
      RawSplits(a, x);
      RawSplits(b, x);
      var p := [CipherText(a.ciphers), HexList(Sorted(Hashed(Ids(a.extensions)))), HexList(s)];
      var q := [CipherText(b.ciphers), HexList(Sorted(Hashed(Ids(b.extensions)))), HexList(t)];
      assert p == q;
      assert p[0] == q[0] && p[1] == q[1] && p[2] == q[2];
      HexListInjective(Sorted(Hashed(Ids(a.extensions))), Sorted(Hashed(Ids(b.extensions))));
      HexListInjective(s, t);
    }
  }

  // ----- the TLS fingerprint -----

  /** Where in the captured buffer each fingerprinted field came from. */
  datatype Provenance = Provenance(ciphers: Span, extensions: Span, perExtension: seq<(u16, Span)>)

  datatype TlsFingerprint = TlsFingerprint(
    ja3: Bytes, ja3Text: Bytes, ja4: Bytes, ja4Raw: Bytes, ciphers: seq<u16>, extensions: seq<u16>,
    greaseCipherPositions: seq<nat>, greaseExtPositions: seq<nat>,
    alpn: Option<Bytes>, hasSni: bool, provenance: Provenance)

  function Place(e: RawExt): (u16, Span) { (e.id, e.span) }

  function TlsOf(h: RawHello, x: Outside): TlsFingerprint {
    var ids := Ids(h.extensions);
    var ja3 := Ja3Of(h);
    TlsFingerprint(x.md5(ja3), ja3, Ja4Of(h, x), Ja4Raw(h, x), h.ciphers, ids, Positions(h.ciphers), Positions(ids),
                   FirstAlpn(h.extensions, x.isText), HasSni(h.extensions),
                   Provenance(h.cipherSpan, h.extensionsSpan, Map(h.extensions, Place)))
  }

  function FingerprintOf(raw: Bytes, x: Outside): Result<TlsFingerprint, ParseError> {
    match HelloOf(raw)
    case Err(e) => Err(e)
    case Ok(h) => Ok(TlsOf(h, x))
  }

  method Fingerprint(raw: Bytes, x: Outside) returns (r: Result<TlsFingerprint, ParseError>)
    ensures r == FingerprintOf(raw, x)
  {
    var h :- ParseHello(raw);
    var ids := Ids(h.extensions);
    var sigAlgs := ReadSigAlgs(h.extensions);
    var groups := ReadGroups(h.extensions);
    var formats := ReadPointFormats(h.extensions);
    var alpn := ReadAlpn(h.extensions, x.isText);
    var version := ReadVersion(h.extensions, h.legacyVersion);
    var ja3 := Ja3Text(h.legacyVersion, h.ciphers, ids, groups, formats);
    var a := SegmentAOf(VersionText(version), HasSni(h.extensions), |Strip(h.ciphers)|, |Strip(ids)|, AlpnChars(alpn));
    var ja4 := Join([a, SegmentB(h.ciphers, x), SegmentC(ids, sigAlgs, x)], UNDERSCORE);
    var ja4Raw := Join([a, CipherText(h.ciphers), ExtensionText(ids, sigAlgs)], UNDERSCORE);
    var provenance := Provenance(h.cipherSpan, h.extensionsSpan, Map(h.extensions, Place));
    return Ok(TlsFingerprint(x.md5(ja3), ja3, ja4, ja4Raw, h.ciphers, ids, Positions(h.ciphers), Positions(ids),
                             alpn, HasSni(h.extensions), provenance));
  }

  /** The fingerprint of the octets kept for a report is the fingerprint of the connection, exactly when the record fits
    * in what is kept. */
  lemma {:induction false} RetainedFingerprint(raw: Bytes, x: Outside)
    requires HelloOf(raw).Ok?
    ensures RecordEnd(raw).Ok?
    ensures FingerprintOf(Retain(raw), x) == FingerprintOf(raw, x) <==> RecordEnd(raw).value <= MAX_RETAINED_HELLO
  {
    RetainedHello(raw);
  }

  /** The span holds an extension with this identifier, header included. */
  predicate Locates(raw: Bytes, id: u16, span: Span) {
    && 4 <= span.len && End(span) <= |raw|
    && U16Of(raw[span.start..span.start + 2]) == id
    && BigEndian(raw[span.start + 2..span.start + 4]) == span.len - 4
  }

  lemma LocatesDescribed(raw: Bytes, e: RawExt)
    requires Describes(raw, e)
    ensures Locates(raw, e.id, e.span)
  {
  }

  /** The recorded places are parallel to the recorded identifiers, and slicing the captured buffer at one gives the
    * extension of that identifier. */
  lemma ProvenanceIsRight(raw: Bytes, h: RawHello, x: Outside, i: nat)
    requires HelloOf(raw) == Ok(h)
    ensures var ids, places := TlsOf(h, x).extensions, TlsOf(h, x).provenance.perExtension;
      && |places| == |ids| == |h.extensions|
      && (i < |ids| ==> places[i].0 == ids[i] && Locates(raw, places[i].0, places[i].1))
  {
    if i < |h.extensions| {
      var e := h.extensions[i];
      ExtensionSpansSlice(raw, h, e);
      LocatesDescribed(raw, e);
      PlacedAt(h, x, i);
    }
  }

  lemma PlacedAt(h: RawHello, x: Outside, i: nat)
    requires i < |h.extensions|
    ensures TlsOf(h, x).extensions == Ids(h.extensions)
    ensures TlsOf(h, x).provenance.perExtension == Map(h.extensions, Place)
    ensures Map(h.extensions, Place)[i] == (h.extensions[i].id, h.extensions[i].span)
  {
  }
}
