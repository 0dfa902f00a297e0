/** What a ClientHello written field by field is fingerprinted as. */
module KnownHello {
  import opened Bits
  import opened Results
  import opened Texts
  import opened ClientHello
  import opened Extensions
  import opened HelloWriting
  import opened HelloRecords
  import opened HelloReading
  import opened Ja4

  // ----- versions offered as a list -----

  /** The greatest of `versions` that is not GREASE, or the legacy field when there is none. */
  ghost predicate IsGreatest(versions: seq<u16>, legacy: u16, v: u16) {
    if forall w :: w in versions ==> !Plain(w) then v == legacy
    else v in versions && Plain(v) && forall w :: w in versions && Plain(w) ==> w <= v
  }

  /** A supported_versions body that offers these. */
  function VersionsBody(versions: seq<u16>): Bytes
    requires |versions| <= 127
  {
    [2 * |versions|] + PairOctets(versions)
  }

  lemma {:induction false} PairsBehind(first: u8, octets: Bytes, values: seq<u16>)
    requires Pairs(octets, values)
    ensures ArePairs([first] + octets, 1, |octets|, values)
  {
    var body := [first] + octets;
    forall k: nat | k < |values|
      ensures values[k] == PairAt(body, 1, k)
    {
      assert body[1 + 2 * k] == octets[2 * k] && body[2 + 2 * k] == octets[2 * k + 1];
    }
  }

  lemma {:induction false} BodyPairs(versions: seq<u16>)
    requires |versions| <= 127
    ensures ArePairs(VersionsBody(versions), 1, 2 * |versions|, versions)
  {
    PairsBack(versions);
    PairsBehind(2 * |versions|, PairOctets(versions), versions);
  }

  lemma {:induction false} OffersAll(body: Bytes, versions: seq<u16>, legacy: u16, v: u16)
    requires body != [] && body[0] as int == 2 * |versions| && 1 + body[0] as int <= |body|
    requires ArePairs(body, 1, body[0], versions) && Offers(body, legacy, v)
    ensures IsGreatest(versions, legacy, v)
  {
    forall k: nat | k < |versions|
      ensures versions[k] == PairAt(body, 1, k)
    {
    }
    if exists w :: w in versions && Plain(w) {
      var w :| w in versions && Plain(w);
      var k: nat :| k < |versions| && versions[k] == w;
      assert PairAt(body, 1, k) == w && !AllGrease(body, body[0]);
      forall w | w in versions && Plain(w)
        ensures w <= v
      {
        var k: nat :| k < |versions| && versions[k] == w;
        assert PairAt(body, 1, k) == w;
      }
    }
  }

  /** Whatever versions the first supported_versions extension offers, the greatest that is not GREASE is taken. */
  lemma {:induction false} VersionOfList(exts: seq<RawExt>, legacy: u16, versions: seq<u16>)
    requires |versions| <= 127 && IsFirst(exts, 0x002b, VersionsBody(versions))
    ensures IsGreatest(versions, legacy, NegotiatedVersion(exts, legacy))
  {
    VersionReads(exts, legacy);
    BodyPairs(versions);
    OffersAll(VersionsBody(versions), versions, legacy, NegotiatedVersion(exts, legacy));
  }

  // ----- from the record to the fingerprint -----

  lemma {:induction false} LaidFields(pos: nat, fields: seq<Field>)
    ensures forall i {:trigger fields[i]} :: 0 <= i < |fields| ==>
      LaidAt(pos, fields)[i].id == fields[i].id && LaidAt(pos, fields)[i].body == fields[i].body
    decreases |fields|
  {
    if fields != [] {
      LaidFields(pos + 4 + |fields[0].body|, fields[1..]);
    }
  }

  /** The first field with this identifier has this body. */
  ghost predicate IsFirstField(fields: seq<Field>, id: u16, body: Bytes) {
    exists i :: 0 <= i < |fields| && fields[i].id == id && fields[i].body == body
      && forall j :: 0 <= j < i ==> fields[j].id != id
  }

  lemma {:induction false} FirstIsLaid(pos: nat, fields: seq<Field>, id: u16, body: Bytes)
    requires IsFirstField(fields, id, body)
    ensures IsFirst(LaidAt(pos, fields), id, body)
  {
    LaidFields(pos, fields);
    var i :| 0 <= i < |fields| && fields[i].id == id && fields[i].body == body
      && forall j :: 0 <= j < i ==> fields[j].id != id;
    assert LaidAt(pos, fields)[i].body == body;
    forall j | 0 <= j < i
      ensures LaidAt(pos, fields)[j].id != id
    {
      assert fields[j].id != id;
    }
  }

  lemma {:induction false} ModernVersion(exts: seq<RawExt>, legacy: u16)
    requires IsFirst(exts, 43, [4, 3, 4, 3, 3])
    ensures NegotiatedVersion(exts, legacy) == 0x0304
  {
    var body: Bytes := [4, 3, 4, 3, 3];
    VersionReads(exts, legacy);
    assert Offers(body, legacy, NegotiatedVersion(exts, legacy));
    assert PairAt(body, 1, 0) == 0x0304 && PairAt(body, 1, 1) == 0x0303;
  }

  lemma {:induction false} ThirteenText(s: Bytes, v: u16)
    requires IsVersionText(s, v) && v == 0x0304
    ensures s == ['1' as int, '3' as int]
  {
  }

  lemma {:induction false} SegmentStarts(h: RawHello, x: Outside, s: Bytes)
    requires s == SegmentA(h, x)
    ensures |s| == 10 && s[0] == 't' as int
    ensures IsVersionText(s[1..3], NegotiatedVersion(h.extensions, h.legacyVersion))
  {
    SegmentAReads(h, x);
  }

  lemma {:induction false} ModernSegment(h: RawHello, x: Outside, s: Bytes)
    requires IsFirst(h.extensions, 43, [4, 3, 4, 3, 3]) && s == SegmentA(h, x)
    ensures |s| == 10 && s[..3] == ['t' as int, '1' as int, '3' as int]
  {
    var v := NegotiatedVersion(h.extensions, h.legacyVersion);
    ModernVersion(h.extensions, h.legacyVersion);
    SegmentStarts(h, x, s);
    ThirteenText(s[1..3], v);
    assert s[1] == s[1..3][0] && s[2] == s[1..3][1];
  }

  lemma {:induction false} JoinStarts(a: Bytes, b: Bytes, c: Bytes)
    requires |a| == 10
    ensures var s := Join([a, b, c], UNDERSCORE); |s| > 3 && s[..3] == a[..3]
  {
    ThreeJoined(a, b, c);
    assert a + ['_' as int] + b + ['_' as int] + c == a + (['_' as int] + b + ['_' as int] + c);
  }

  lemma {:induction false} ModernJa4(h: RawHello, x: Outside)
    requires IsFirst(h.extensions, 43, [4, 3, 4, 3, 3])
    ensures |Ja4Of(h, x)| > 3 && Ja4Of(h, x)[..3] == ['t' as int, '1' as int, '3' as int]
  {
    ModernSegment(h, x, SegmentA(h, x));
    JoinStarts(SegmentA(h, x), SegmentB(h.ciphers, x), SegmentC(Ids(h.extensions), SigAlgs(h.extensions), x));
  }

  lemma {:induction false} Ja4OfParsed(raw: Bytes, h: RawHello, x: Outside)
    requires HelloOf(raw) == Ok(h)
    ensures Ja4.FingerprintOf(raw, x).Ok? && Ja4.FingerprintOf(raw, x).value.ja4 == Ja4Of(h, x)
  {
  }

  /** A ClientHello with TLS 1.3 on top of the versions it offers, whatever else is in it, has a JA4 that starts with
    * t13. */
  lemma {:induction false} ModernHelloIsT13(c: Content, recordVersion: Bytes, more: Bytes, x: Outside)
    requires Valid(c) && |recordVersion| == 2 && 4 + |Message(c, ExtensionList(c))| < 0x1_0000
    requires IsFirstField(c.fields, 43, [4, 3, 4, 3, 3])
    ensures var r := Ja4.FingerprintOf(Record(c, recordVersion, ExtensionList(c)) + more, x);
      r.Ok? && |r.value.ja4| > 3 && r.value.ja4[..3] == ['t' as int, '1' as int, '3' as int]
  {
    var start := 46 + |c.session| + 2 * |c.ciphers| + 1 + |c.compression| + 2;
    var exts := LaidAt(start, c.fields);
    var h := RawHello(c.version, c.ciphers, exts, Span(46 + |c.session|, 2 * |c.ciphers|),
                      Span(start, |Written(c.fields)|));
    AnyHelloIsRead(c, recordVersion, more, start);
    FirstIsLaid(start, c.fields, 43, [4, 3, 4, 3, 3]);
    ModernJa4(h, x);
    Ja4OfParsed(Record(c, recordVersion, ExtensionList(c)) + more, h, x);
  }
}
