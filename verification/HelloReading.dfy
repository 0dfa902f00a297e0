/** What the TLS fingerprints say of a ClientHello, read off their text, with the extensions read off their octets. */
module HelloReading {
  import opened Bits
  import opened Results
  import opened Texts
  import opened NumeralReading
  import opened Lists
  import opened Readers
  import opened ClientHello
  import opened Extensions
  import opened Ja3
  import opened Ja4

  // ----- GREASE -----

  /** Not one of 0x0a0a, 0x1a1a and so on up to 0xfafa. */
  function Plain(v: u16): bool {
    v % 0x1010 != 0x0a0a
  }

  lemma {:induction false} GreaseIsNotPlain(v: u16)
    ensures IsGrease(v) <==> !Plain(v)
  {
    GreaseValues(v);
    if !Plain(v) {
      var k := v / 0x1010;
      assert v == 0x1010 * k + 0x0a0a && 0 <= k < 16;
    }
  }

  lemma {:induction false} StripKeepsPlain(values: seq<u16>)
    ensures Strip(values) == Filter(values, Plain)
  {
    if values != [] {
      StripKeepsPlain(values[..|values| - 1]);
      GreaseIsNotPlain(values[|values| - 1]);
    }
  }

  // ----- extension bodies, by their octets -----

  /** `body` is that of the first extension with this identifier. */
  ghost predicate IsFirst(exts: seq<RawExt>, id: u16, body: Bytes) {
    exists i :: 0 <= i < |exts| && exts[i].id == id && exts[i].body == body
      && forall j :: 0 <= j < i ==> exts[j].id != id
  }

  ghost predicate HasNone(exts: seq<RawExt>, id: u16) {
    forall e :: e in exts ==> e.id != id
  }

  lemma {:induction false} FirstIsBody(exts: seq<RawExt>, id: u16, body: Bytes)
    requires IsFirst(exts, id, body)
    ensures BodyOf(exts, id) == Some(body)
  {
    var i :| 0 <= i < |exts| && exts[i].id == id && exts[i].body == body && forall j :: 0 <= j < i ==> exts[j].id != id;
    if i > 0 {
      var others := exts[1..];
      assert others[i - 1] == exts[i] && forall j :: 0 <= j < i - 1 ==> others[j] == exts[j + 1];
      FirstIsBody(others, id, body);
    }
  }

  lemma {:induction false} NoneIsNoBody(exts: seq<RawExt>, id: u16)
    requires HasNone(exts, id)
    ensures BodyOf(exts, id) == None
  {
    if exts != [] {
      NoneIsNoBody(exts[1..], id);
    }
  }

  /** Pair `k` of `body` behind `at` octets. */
  function PairAt(body: Bytes, at: nat, k: nat): u16
    requires at + 2 * k + 2 <= |body|
  {
    0x100 * (body[at + 2 * k] as int) + body[at + 2 * k + 1]
  }

  /** `v` is a pair of the `n` octets behind the first, not GREASE, and no other is greater. */
  ghost predicate IsHighest(body: Bytes, n: nat, v: u16)
    requires 1 + n <= |body|
  {
    && (exists k: nat :: 2 * k + 1 < n && PairAt(body, 1, k) == v && Plain(v))
    && forall k: nat {:trigger PairAt(body, 1, k)} :: 2 * k + 1 < n && Plain(PairAt(body, 1, k)) ==>
         PairAt(body, 1, k) <= v
  }

  ghost predicate AllGrease(body: Bytes, n: nat)
    requires 1 + n <= |body|
  {
    forall k: nat {:trigger PairAt(body, 1, k)} :: 2 * k + 1 < n ==> !Plain(PairAt(body, 1, k))
  }

  lemma {:induction false} ItemsOf(body: Bytes, width: nat)
    requires width == 1 || width == 2
    ensures |body| < width ==> Vector(body, width) == None
    ensures |body| >= width ==>
      var n := if width == 1 then body[0] as int else 0x100 * (body[0] as int) + body[1];
      Vector(body, width) == if width + n > |body| then None else Some(body[width..width + n])
  {
    if |body| >= width {
      BigEndianOfFew(body[..width]);
    }
  }

  /** `values` are the pairs of the `n` octets behind `at`. */
  ghost predicate ArePairs(body: Bytes, at: nat, n: nat, values: seq<u16>)
    requires at + n <= |body|
  {
    && |values| == n / 2
    && forall k: nat {:trigger PairAt(body, at, k)} :: k < |values| ==> values[k] == PairAt(body, at, k)
  }

  lemma {:induction false} ItemsArePairs(body: Bytes, at: nat, n: nat, values: seq<u16>)
    requires at + n <= |body| && values == U16s(body[at..at + n])
    ensures ArePairs(body, at, n, values)
  {
  }

  lemma {:induction false} GreatestIsHighest(body: Bytes, n: nat, legacy: u16, values: seq<u16>)
    requires 1 + n <= |body| && ArePairs(body, 1, n, values)
    ensures var v := Greatest(Strip(values), legacy);
      if AllGrease(body, n) then v == legacy else IsHighest(body, n, v)
  {
    var v := Greatest(Strip(values), legacy);
    forall k: nat | 2 * k + 1 < n
      ensures values[k] == PairAt(body, 1, k) && (Plain(values[k]) <==> values[k] in Strip(values))
    {
      GreaseIsNotPlain(values[k]);
    }
    if Strip(values) != [] {
      var k: nat :| k < |values| && values[k] == v;
      assert PairAt(body, 1, k) == v;
    }
  }

  /** What a supported_versions body says: the greatest version it offers that is not GREASE, or the legacy field when
    * its length does not fit or it offers nothing but GREASE. */
  ghost predicate Offers(body: Bytes, legacy: u16, v: u16) {
    if body == [] || 1 + body[0] as int > |body| || AllGrease(body, body[0]) then v == legacy
    else IsHighest(body, body[0], v)
  }

  lemma {:induction false} FittingVersion(body: Bytes, legacy: u16, values: seq<u16>)
    requires body != [] && 1 + body[0] as int <= |body| && values == U16s(body[1..1 + body[0] as int])
    ensures VersionIn(body, legacy) == Greatest(Strip(values), legacy)
  {
    ItemsOf(body, 1);
  }

  lemma {:induction false} HighestOffered(body: Bytes, legacy: u16, values: seq<u16>)
    requires body != [] && 1 + body[0] as int <= |body| && ArePairs(body, 1, body[0], values)
    ensures Offers(body, legacy, Greatest(Strip(values), legacy))
  {
    GreatestIsHighest(body, body[0], legacy, values);
  }

  lemma {:induction false} FittingOffers(body: Bytes, legacy: u16)
    requires body != [] && 1 + body[0] as int <= |body|
    ensures Offers(body, legacy, VersionIn(body, legacy))
  {
    var values := U16s(body[1..1 + body[0] as int]);
    ItemsArePairs(body, 1, body[0], values);
    FittingVersion(body, legacy, values);
    HighestOffered(body, legacy, values);
  }

  lemma {:induction false} BodyOffers(body: Bytes, legacy: u16)
    ensures Offers(body, legacy, VersionIn(body, legacy))
  {
    if body == [] || 1 + body[0] as int > |body| {
      ItemsOf(body, 1);
    } else {
      FittingOffers(body, legacy);
    }
  }

  /** The version is what the first supported_versions extension says, or the legacy field when there is none. */
  lemma {:induction false} VersionReads(exts: seq<RawExt>, legacy: u16)
    ensures HasNone(exts, 0x002b) ==> NegotiatedVersion(exts, legacy) == legacy
    ensures forall body :: IsFirst(exts, 0x002b, body) ==> Offers(body, legacy, NegotiatedVersion(exts, legacy))
  {
    if HasNone(exts, 0x002b) {
      NoneIsNoBody(exts, 0x002b);
    }
    forall body | IsFirst(exts, 0x002b, body)
      ensures Offers(body, legacy, NegotiatedVersion(exts, legacy))
    {
      FirstIsBody(exts, 0x002b, body);
      BodyOffers(body, legacy);
    }
  }

  // ----- the other extensions -----

  /** The pairs of a body behind a length of two octets, in order; none when the length does not fit. */
  ghost predicate ListsPairs(body: Bytes, values: seq<u16>) {
    if |body| < 2 || 2 + PairAt(body, 0, 0) > |body| then values == []
    else ArePairs(body, 2, PairAt(body, 0, 0), values)
  }

  lemma {:induction false} FittingList(body: Bytes, n: nat, values: seq<u16>)
    requires |body| >= 2 && n == PairAt(body, 0, 0) && 2 + n <= |body| && values == U16s(body[2..2 + n])
    ensures U16List(Some(body)) == values
  {
    ItemsOf(body, 2);
  }

  lemma {:induction false} FittingPairs(body: Bytes, n: nat)
    requires |body| >= 2 && n == PairAt(body, 0, 0) && 2 + n <= |body|
    ensures ListsPairs(body, U16List(Some(body)))
  {
    var values := U16s(body[2..2 + n]);
    FittingList(body, n, values);
    ItemsArePairs(body, 2, n, values);
  }

  lemma {:induction false} BodyLists(body: Bytes)
    ensures ListsPairs(body, U16List(Some(body)))
  {
    if |body| < 2 || 2 + PairAt(body, 0, 0) > |body| {
      ItemsOf(body, 2);
    } else {
      FittingPairs(body, PairAt(body, 0, 0));
    }
  }

  /** Signature algorithms and groups are those of the first extension of identifier 13 or 10. */
  lemma {:induction false} ListsRead(exts: seq<RawExt>)
    ensures HasNone(exts, 13) ==> SigAlgs(exts) == []
    ensures forall body :: IsFirst(exts, 13, body) ==> ListsPairs(body, SigAlgs(exts))
    ensures HasNone(exts, 10) ==> Groups(exts) == []
    ensures forall body :: IsFirst(exts, 10, body) ==> ListsPairs(body, Groups(exts))
  {
    forall id: u16 | HasNone(exts, id)
      ensures BodyOf(exts, id) == None
    {
      NoneIsNoBody(exts, id);
    }
    forall id: u16, body | IsFirst(exts, id, body)
      ensures BodyOf(exts, id) == Some(body) && ListsPairs(body, U16List(BodyOf(exts, id)))
    {
      FirstIsBody(exts, id, body);
      BodyLists(body);
    }
  }

  /** Point formats are the octets behind the length octet of the first extension of identifier 11. */
  lemma {:induction false} FormatsRead(exts: seq<RawExt>)
    ensures HasNone(exts, 11) ==> PointFormats(exts) == []
    ensures forall body :: IsFirst(exts, 11, body) ==>
      PointFormats(exts) ==
        if body == [] || 1 + body[0] as int > |body| then [] else body[1..1 + body[0] as int]
  {
    if HasNone(exts, 11) {
      NoneIsNoBody(exts, 11);
    }
    forall body | IsFirst(exts, 11, body)
      ensures PointFormats(exts) ==
        if body == [] || 1 + body[0] as int > |body| then [] else body[1..1 + body[0] as int]
    {
      FirstIsBody(exts, 11, body);
      ItemsOf(body, 1);
    }
  }

  /** The first protocol of a body: behind two octets of list length and one of its own, both of which have to fit. */
  function FirstProtocol(body: Bytes): Option<Bytes> {
    if |body| < 3 || 2 + PairAt(body, 0, 0) > |body| || 1 + body[2] as int > PairAt(body, 0, 0) then None
    else Some(body[3..3 + body[2] as int])
  }

  lemma {:induction false} Resliced(body: Bytes, n: nat, m: nat)
    requires 2 + n <= |body| && 1 + m <= n
    ensures body[2..2 + n][1..1 + m] == body[3..3 + m]
  {
    var a, b := body[2..2 + n][1..1 + m], body[3..3 + m];
    forall i | 0 <= i < m
      ensures a[i] == b[i]
    {
      assert a[i] == body[2..2 + n][1 + i];
    }
  }

  lemma {:induction false} BodyNames(body: Bytes, isText: Bytes -> bool)
    ensures AlpnIn(body, isText) ==
      if FirstProtocol(body).Some? && isText(FirstProtocol(body).value) then FirstProtocol(body) else None
  {
    ItemsOf(body, 2);
    if |body| >= 2 && 2 + PairAt(body, 0, 0) <= |body| {
      var list := body[2..2 + PairAt(body, 0, 0)];
      ItemsOf(list, 1);
      if |body| >= 3 && 1 + body[2] as int <= |list| {
        Resliced(body, PairAt(body, 0, 0), body[2]);
      }
    }
  }

  /** The protocol is the first one of the first extension of identifier 16, if it is text. */
  lemma {:induction false} AlpnReads(exts: seq<RawExt>, isText: Bytes -> bool)
    ensures HasNone(exts, 16) ==> FirstAlpn(exts, isText) == None
    ensures forall body :: IsFirst(exts, 16, body) ==>
      FirstAlpn(exts, isText) ==
        if FirstProtocol(body).Some? && isText(FirstProtocol(body).value) then FirstProtocol(body) else None
  {
    if HasNone(exts, 16) {
      NoneIsNoBody(exts, 16);
    }
    forall body | IsFirst(exts, 16, body)
      ensures FirstAlpn(exts, isText) ==
        if FirstProtocol(body).Some? && isText(FirstProtocol(body).value) then FirstProtocol(body) else None
    {
      FirstIsBody(exts, 16, body);
      BodyNames(body, isText);
    }
  }

  // ----- segment a -----

  /** The two characters of a version. */
  predicate IsVersionText(s: Bytes, v: u16) {
    && (v == 0x0304 ==> s == Ascii("13")) && (v == 0x0303 ==> s == Ascii("12")) && (v == 0x0302 ==> s == Ascii("11"))
    && (v == 0x0301 ==> s == Ascii("10")) && (v == 0x0300 ==> s == Ascii("s3")) && (v == 0x0002 ==> s == Ascii("s2"))
    && (v == 0xfeff ==> s == Ascii("d1")) && (v == 0xfefd ==> s == Ascii("d2")) && (v == 0xfefc ==> s == Ascii("d3"))
    && (v !in {0x0304, 0x0303, 0x0302, 0x0301, 0x0300, 0x0002, 0xfeff, 0xfefd, 0xfefc} ==> s == Ascii("00"))
  }

  /** Two digits, which stop at 99. */
  predicate IsCount(s: Bytes, n: nat) {
    && |s| == 2 && (forall i :: 0 <= i < 2 ==> '0' as int <= s[i] <= '9' as int)
    && Value(s, 10) == if n < 99 then n else 99
  }

  predicate LetterOrDigit(c: u8) {
    || '0' as int <= c <= '9' as int || 'A' as int <= c <= 'Z' as int || 'a' as int <= c <= 'z' as int
  }

  predicate IsHexDigit(c: u8, n: nat) {
    ('0' as int <= c <= '9' as int || 'a' as int <= c <= 'f' as int) && DigitValue(c) == n
  }

  /** The two characters of a protocol: its first and its last when both are letters or digits, and otherwise the upper
    * half of the first and the lower half of the last in hexadecimal. */
  predicate IsProtocolText(s: Bytes, alpn: Option<Bytes>) {
    if alpn.None? || alpn.value == [] then s == Ascii("00")
    else
      var first, last := alpn.value[0], alpn.value[|alpn.value| - 1];
      && |s| == 2
      && if LetterOrDigit(first) && LetterOrDigit(last) then s[0] == first && s[1] == last
         else IsHexDigit(s[0], first / 16) && IsHexDigit(s[1], last % 16)
  }

  lemma {:induction false} VersionIsText(v: u16)
    ensures IsVersionText(VersionText(v), v)
  {
  }

  lemma {:induction false} CountIsDigits(n: nat)
    ensures IsCount(Count2(n), n)
  {
    var m := if n < 99 then n else 99;
    ValueOfOne(0x30 + m / 10, 10);
    ValueGrows([0x30 + m / 10], 0x30 + m % 10, 10);
    assert Count2(n) == [0x30 + m / 10] + [0x30 + m % 10];
  }

  lemma {:induction false} ProtocolIsText(alpn: Option<Bytes>)
    ensures IsProtocolText(AlpnChars(alpn), alpn)
  {
  }

  lemma {:induction false} SixParts(version: Bytes, sni: bool, c: Bytes, e: Bytes, alpn: Bytes, s: Bytes)
    requires |version| == 2 && |c| == 2 && |e| == 2 && |alpn| == 2
    requires s == Ascii("t") + version + (if sni then Ascii("d") else Ascii("i")) + c + e + alpn
    ensures |s| == 10 && s[0] == 't' as int && s[1..3] == version && s[3] == (if sni then 'd' else 'i') as int
    ensures s[4..6] == c && s[6..8] == e && s[8..10] == alpn
  {
  }

  function HasId(e: RawExt): bool {
    Plain(e.id)
  }

  lemma {:induction false} PlainIds(exts: seq<RawExt>)
    ensures |Strip(Ids(exts))| == |Filter(exts, HasId)|
  {
    if exts != [] {
      var init := exts[..|exts| - 1];
      PlainIds(init);
      assert Ids(exts)[..|exts| - 1] == Ids(init);
      GreaseIsNotPlain(exts[|exts| - 1].id);
    }
  }

  /** Segment a, character by character: the letter t, the version, whether there is a server name, how many ciphers and
    * extensions there are that are not GREASE, and the protocol. */
  lemma {:induction false} SegmentAReads(h: RawHello, x: Outside)
    ensures var s := SegmentA(h, x);
      && |s| == 10 && s[0] == 't' as int
      && IsVersionText(s[1..3], NegotiatedVersion(h.extensions, h.legacyVersion))
      && s[3] == (if HasNone(h.extensions, 0) then 'i' else 'd') as int
      && IsCount(s[4..6], |Filter(h.ciphers, Plain)|)
      && IsCount(s[6..8], |Filter(h.extensions, HasId)|)
      && IsProtocolText(s[8..10], FirstAlpn(h.extensions, x.isText))
  {
    var v, alpn := NegotiatedVersion(h.extensions, h.legacyVersion), FirstAlpn(h.extensions, x.isText);
    var ciphers, exts := |Strip(h.ciphers)|, |Strip(Ids(h.extensions))|;
    StripKeepsPlain(h.ciphers);
    PlainIds(h.extensions);
    VersionIsText(v);
    CountIsDigits(ciphers);
    CountIsDigits(exts);
    ProtocolIsText(alpn);
    ServerNameSent(h.extensions);
    SixParts(VersionText(v), HasSni(h.extensions), Count2(ciphers), Count2(exts), AlpnChars(alpn), SegmentA(h, x));
  }

  lemma {:induction false} ServerNameSent(exts: seq<RawExt>)
    ensures HasSni(exts) <==> !HasNone(exts, 0)
  {
    if !HasNone(exts, 0) {
      var i :| 0 <= i < |exts| && exts[i].id == 0;
      assert Ids(exts)[i] == 0;
    }
  }

  // ----- the other segments -----

  /** Cut at the commas, `s` is `values` in hexadecimal; it is empty when there are none. */
  predicate IsHexList(s: Bytes, values: seq<u16>) {
    if values == [] then s == []
    else
      var items := Split(s, ',' as int);
      |items| == |values| && forall i :: 0 <= i < |values| ==> IsHex4(items[i], values[i])
  }

  /** Neither GREASE nor one of the two that segment a speaks of. */
  function IsHashed(e: RawExt): bool {
    Plain(e.id) && e.id != 0 && e.id != 16
  }

  lemma {:induction false} HexListReads(values: seq<u16>)
    ensures IsHexList(HexList(values), values)
  {
    if values != [] {
      var items := Map(values, Hex4);
      HexListParts(values);
      SplitOfJoin(items, COMMA);
      forall i | 0 <= i < |values|
        ensures IsHex4(items[i], values[i])
      {
        Hex4IsHex4(values[i]);
      }
    }
  }

  lemma {:induction false} FilterStep<T(!new)>(s: seq<T>, x: T, keep: T -> bool)
    ensures Filter(s + [x], keep) == Filter(s, keep) + if keep(x) then [x] else []
  {
    assert (s + [x])[..|s|] == s;
  }

  lemma {:induction false} MapStep<T, U>(s: seq<T>, x: T, f: T -> U)
    ensures Map(s + [x], f) == Map(s, f) + [f(x)]
  {
  }

  lemma {:induction false} HashedStep(values: seq<u16>, v: u16)
    ensures Hashed(values + [v]) == Hashed(values) + if Plain(v) && v != 0 && v != 16 then [v] else []
  {
    GreaseIsNotPlain(v);
    FilterStep(values, v, NotGrease);
    if IsGrease(v) {
      assert Strip(values) + [] == Strip(values);
    } else {
      FilterStep(Strip(values), v, Carried);
    }
  }

  lemma {:induction false} OneMoreHashed(ids: seq<u16>, kept: seq<RawExt>, e: RawExt)
    requires Hashed(ids) == Map(kept, Id)
    ensures Hashed(ids + [e.id]) == Map(if IsHashed(e) then kept + [e] else kept, Id)
  {
    HashedStep(ids, e.id);
    if IsHashed(e) {
      MapStep(kept, e, Id);
    } else {
      assert Hashed(ids) + [] == Hashed(ids);
    }
  }

  lemma {:induction false} KeptStep(s: seq<RawExt>)
    requires s != []
    ensures var init, e := s[..|s| - 1], s[|s| - 1];
      && Ids(s) == Ids(init) + [e.id]
      && Filter(s, IsHashed) == if IsHashed(e) then Filter(init, IsHashed) + [e] else Filter(init, IsHashed)
  {
  }

  lemma {:induction false} HashedIds(exts: seq<RawExt>)
    ensures Hashed(Ids(exts)) == Map(Filter(exts, IsHashed), Id)
  {
    if exts != [] {
      var init, e := exts[..|exts| - 1], exts[|exts| - 1];
      HashedIds(init);
      KeptStep(exts);
      OneMoreHashed(Ids(init), Filter(init, IsHashed), e);
    }
  }

  /** Behind segment a the readable JA4 is three lists of hexadecimal numbers: the ciphers and the extensions, GREASE
    * left out, in ascending order, and the signature algorithms in the order in which they were sent. */
  lemma {:induction false} Ja4RawReads(h: RawHello, x: Outside) returns (ciphers: seq<u16>, extensions: seq<u16>)
    ensures var raw := Ja4Raw(h, x);
      && |raw| > 10 && raw[..10] == SegmentA(h, x) && raw[10] == '_' as int
      && var parts := Split(raw[11..], '_' as int);
         && |parts| == 3 && IsHexList(parts[0], ciphers) && IsHexList(parts[1], extensions)
         && IsHexList(parts[2], SigAlgs(h.extensions))
    ensures Ascending(ciphers) && multiset(ciphers) == multiset(Filter(h.ciphers, Plain))
    ensures Ascending(extensions) && multiset(extensions) == multiset(Map(Filter(h.extensions, IsHashed), Id))
  {
    ciphers, extensions := Sorted(Strip(h.ciphers)), Sorted(Hashed(Ids(h.extensions)));
    StripKeepsPlain(h.ciphers);
    HashedIds(h.extensions);
    RawSplits(h, x);
    HexListReads(ciphers);
    HexListReads(extensions);
    HexListReads(SigAlgs(h.extensions));
  }

  lemma {:induction false} ThreeJoined(a: Bytes, b: Bytes, c: Bytes)
    ensures Join([a, b, c], UNDERSCORE) == a + ['_' as int] + b + ['_' as int] + c
  {
    JoinStep(b, [c], UNDERSCORE);
    JoinStep(a, [b, c], UNDERSCORE);
    assert [b] + [c] == [b, c] && [a] + [b, c] == [a, b, c];
  }

  const ZEROS: Bytes := Ascii("000000000000")

  /** Segment a and two hashes: that of the first of the three lists, and that of the other two with a low line between
    * them; twelve zeros for what is empty. */
  predicate IsJa4(s: Bytes, a: Bytes, lists: seq<Bytes>, x: Outside) {
    && |lists| == 3
    && var b := if lists[0] == [] then ZEROS else x.hash12(lists[0]);
       var c := if lists[1] == [] && lists[2] == [] then ZEROS else x.hash12(lists[1] + ['_' as int] + lists[2]);
       s == a + ['_' as int] + b + ['_' as int] + c
  }

  /** JA4 is made of segment a and the three lists of the readable form. */
  lemma {:induction false} Ja4Reads(h: RawHello, x: Outside)
    ensures |Ja4Raw(h, x)| > 10
    ensures IsJa4(Ja4Of(h, x), SegmentA(h, x), Split(Ja4Raw(h, x)[11..], '_' as int), x)
  {
    RawSplits(h, x);
    ListsHashed(h, x);
  }

  lemma {:induction false} ListsHashed(h: RawHello, x: Outside)
    ensures var ids, algs := Ids(h.extensions), SigAlgs(h.extensions);
      IsJa4(Ja4Of(h, x), SegmentA(h, x),
            [CipherText(h.ciphers), HexList(Sorted(Hashed(ids))), HexList(algs)], x)
  {
    var ids, algs := Ids(h.extensions), SigAlgs(h.extensions);
    var hashed := Sorted(Hashed(ids));
    EmptyHexList(hashed);
    EmptyHexList(algs);
    assert hashed == [] <==> Hashed(ids) == [];
    JoinStep(HexList(hashed), [HexList(algs)], UNDERSCORE);
    assert [HexList(hashed)] + [HexList(algs)] == [HexList(hashed), HexList(algs)];
    ThreeJoined(SegmentA(h, x), SegmentB(h.ciphers, x), SegmentC(ids, algs, x));
  }

  lemma {:induction false} EmptyHexList(values: seq<u16>)
    ensures HexList(values) == [] <==> values == []
  {
    assert values != [] ==> |Map(values, Hex4)[0]| == 4;
  }

  // ----- JA3 -----

  lemma {:induction false} NumeralsRead(values: seq<nat>)
    ensures NumeralList(Numerals(values), '-' as int, values)
  {
    if values != [] {
      var parts := Map(values, Decimal);
      forall i | 0 <= i < |values|
        ensures IsNumeral(parts[i], values[i])
      {
        DecimalIsNumeral(values[i]);
      }
      JoinedNumerals(parts, DASH, values);
    }
  }

  /** The JA3 text, cut at the commas: the version field, the ciphers, the extensions and the groups, GREASE left out,
    * and the point formats, all in the order in which they were sent and in decimal with dashes between them. */
  lemma {:induction false} Ja3Reads(h: RawHello)
    ensures var parts := Split(Ja3Of(h), ',' as int);
      && |parts| == 5 && IsNumeral(parts[0], h.legacyVersion)
      && NumeralList(parts[1], '-' as int, Filter(h.ciphers, Plain))
      && NumeralList(parts[2], '-' as int, Filter(Ids(h.extensions), Plain))
      && NumeralList(parts[3], '-' as int, Filter(Groups(h.extensions), Plain))
      && NumeralList(parts[4], '-' as int, PointFormats(h.extensions))
  {
    var ids, groups, formats := Ids(h.extensions), Groups(h.extensions), PointFormats(h.extensions);
    Ja3Splits(h.legacyVersion, h.ciphers, ids, groups, formats);
    DecimalIsNumeral(h.legacyVersion);
    StripKeepsPlain(h.ciphers);
    StripKeepsPlain(ids);
    StripKeepsPlain(groups);
    NumeralsRead(Strip(h.ciphers));
    NumeralsRead(Strip(ids));
    NumeralsRead(Strip(groups));
    NumeralsRead(formats);
  }
}
