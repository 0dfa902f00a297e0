/** What JA4 does and does not depend on: the client, and not the order or the GREASE of one connection. */
module Ja4Stability {
  import opened Bits
  import opened Results
  import opened Texts
  import opened Lists
  import opened Readers
  import opened ClientHello
  import opened Extensions
  import opened HelloWriting
  import opened Ja3
  import opened Ja4

  // ----- what JA4 sees -----

  /** What JA4 reads in an extension: little of three bodies, and of the others that they are there. */
  datatype Seen = Protocol(chars: Bytes) | Algorithms(values: seq<u16>) | Version(text: Bytes) | Presence(id: u16)

  function SeenIn(f: Field, legacy: u16, x: Outside): Seen {
    if f.id == EXT_ALPN then Protocol(AlpnChars(AlpnIn(f.body, x.isText)))
    else if f.id == EXT_SIG_ALGS then Algorithms(U16List(Some(f.body)))
    else if f.id == EXT_SUPPORTED_VERSIONS then Version(VersionText(VersionIn(f.body, legacy)))
    else Presence(f.id)
  }

  /** What it reads tells the extension. */
  function SeenId(s: Seen): u16 {
    match s
    case Protocol(_) => EXT_ALPN
    case Algorithms(_) => EXT_SIG_ALGS
    case Version(_) => EXT_SUPPORTED_VERSIONS
    case Presence(id) => id
  }

  function SeenAmong(fields: seq<Field>, legacy: u16, x: Outside): (r: seq<Seen>)
    ensures |r| == |fields| && forall i :: 0 <= i < |r| ==> r[i] == SeenIn(fields[i], legacy, x)
  {
    seq(|fields|, i requires 0 <= i < |fields| => SeenIn(fields[i], legacy, x))
  }

  function SeenOf(h: RawHello, x: Outside): seq<Seen> {
    SeenAmong(Fields(h.extensions), h.legacyVersion, x)
  }

  /** The same client as far as JA4 can see: the same ciphers and the same to be seen in the extensions, in any order,
    * whatever GREASE is mixed in and whatever else the bodies hold. */
  ghost predicate SameClient(a: RawHello, b: RawHello, x: Outside) {
    && a.legacyVersion == b.legacyVersion
    && multiset(Strip(a.ciphers)) == multiset(Strip(b.ciphers))
    && multiset(SeenOf(a, x)) == multiset(SeenOf(b, x))
  }

  /** An extension that is sent more than once reads the same each time. */
  ghost predicate RepeatsReadAlike(h: RawHello, x: Outside) {
    forall f, g :: f in Fields(h.extensions) && g in Fields(h.extensions) && f.id == g.id ==>
      SeenIn(f, h.legacyVersion, x) == SeenIn(g, h.legacyVersion, x)
  }

  lemma {:induction false} SeenTellsId(fields: seq<Field>, legacy: u16, x: Outside)
    ensures Map(SeenAmong(fields, legacy, x), SeenId) == Map(fields, FieldId)
  {
  }

  lemma {:induction false} SameIds(a: RawHello, b: RawHello, x: Outside)
    requires multiset(SeenOf(a, x)) == multiset(SeenOf(b, x))
    ensures multiset(Strip(Ids(a.extensions))) == multiset(Strip(Ids(b.extensions)))
  {
    StrippedIds(a.extensions);
    StrippedIds(b.extensions);
    SeenTellsId(Fields(a.extensions), a.legacyVersion, x);
    SeenTellsId(Fields(b.extensions), b.legacyVersion, x);
    MapOfPermutation(SeenOf(a, x), SeenOf(b, x), SeenId);
  }

  lemma {:induction false} SameCounts(a: seq<RawExt>, b: seq<RawExt>)
    requires multiset(Strip(Ids(a))) == multiset(Strip(Ids(b)))
    ensures |Strip(Ids(a))| == |Strip(Ids(b))| && HasSni(a) == HasSni(b)
  {
    var p, q := Strip(Ids(a)), Strip(Ids(b));
    assert |multiset(p)| == |multiset(q)|;
    assert EXT_SERVER_NAME in p <==> EXT_SERVER_NAME in multiset(p);
    assert EXT_SERVER_NAME in q <==> EXT_SERVER_NAME in multiset(q);
  }

  lemma {:induction false} FoundInPermutation<T>(a: seq<T>, b: seq<T>, i: nat) returns (j: nat)
    requires multiset(a) == multiset(b) && i < |a|
    ensures j < |b| && b[j] == a[i]
  {
    assert a[i] in multiset(b);
    j :| 0 <= j < |b| && b[j] == a[i];
  }

  /** What is seen in an extension of one client is seen in one of the same client. */
  lemma {:induction false} SeenElsewhere(a: RawHello, b: RawHello, f: Field, x: Outside) returns (g: Field)
    requires SameClient(a, b, x) && f in Fields(a.extensions)
    ensures g in Fields(b.extensions) && g.id == f.id
    ensures SeenIn(g, b.legacyVersion, x) == SeenIn(f, a.legacyVersion, x)
  {
    var p, q := Fields(a.extensions), Fields(b.extensions);
    var i :| 0 <= i < |p| && p[i] == f;
    var j := FoundInPermutation(SeenOf(a, x), SeenOf(b, x), i);
    g := q[j];
    SeenIds(f, g, a.legacyVersion, x);
  }

  lemma {:induction false} SeenIds(f: Field, g: Field, legacy: u16, x: Outside)
    requires SeenIn(f, legacy, x) == SeenIn(g, legacy, x)
    ensures f.id == g.id
  {
    assert SeenId(SeenIn(f, legacy, x)) == f.id && SeenId(SeenIn(g, legacy, x)) == g.id;
  }

  /** The bodies found for an identifier in two ClientHellos of the same client read alike. */
  lemma {:induction false} FoundReadAlike(a: RawHello, b: RawHello, id: u16, x: Outside)
    requires RepeatsReadAlike(a, x) && SameClient(a, b, x) && !IsGrease(id)
    ensures BodyOf(a.extensions, id).Some? <==> BodyOf(b.extensions, id).Some?
    ensures BodyOf(b.extensions, id).Some? ==>
      SeenIn(Field(id, BodyOf(a.extensions, id).value), a.legacyVersion, x) ==
      SeenIn(Field(id, BodyOf(b.extensions, id).value), b.legacyVersion, x)
  {
    var p, q := BodyOf(a.extensions, id), BodyOf(b.extensions, id);
    FoundIsField(a.extensions, id);
    FoundIsField(b.extensions, id);
    if q.Some? {
      var f := SeenElsewhere(b, a, Field(id, q.value), x);
    } else if p.Some? {
      var g := SeenElsewhere(a, b, Field(id, p.value), x);
    }
  }

  // ----- any order, any GREASE -----

  lemma {:induction false} SameVersion(a: RawHello, b: RawHello, x: Outside)
    requires RepeatsReadAlike(a, x) && SameClient(a, b, x)
    ensures VersionText(NegotiatedVersion(a.extensions, a.legacyVersion)) ==
      VersionText(NegotiatedVersion(b.extensions, b.legacyVersion))
  {
    FoundReadAlike(a, b, EXT_SUPPORTED_VERSIONS, x);
  }

  lemma {:induction false} SameAlpn(a: RawHello, b: RawHello, x: Outside)
    requires RepeatsReadAlike(a, x) && SameClient(a, b, x)
    ensures AlpnChars(FirstAlpn(a.extensions, x.isText)) == AlpnChars(FirstAlpn(b.extensions, x.isText))
  {
    FoundReadAlike(a, b, EXT_ALPN, x);
  }

  lemma {:induction false} SameSigAlgs(a: RawHello, b: RawHello, x: Outside)
    requires RepeatsReadAlike(a, x) && SameClient(a, b, x)
    ensures SigAlgs(a.extensions) == SigAlgs(b.extensions)
  {
    FoundReadAlike(a, b, EXT_SIG_ALGS, x);
  }

  lemma SameHashed(a: seq<u16>, b: seq<u16>)
    requires multiset(Strip(a)) == multiset(Strip(b))
    ensures multiset(Hashed(a)) == multiset(Hashed(b))
    ensures Hashed(a) == [] <==> Hashed(b) == []
  {
    FilterOfPermutation(Strip(a), Strip(b), Carried);
    assert |multiset(Hashed(a))| == |multiset(Hashed(b))|;
  }

  /** The same in everything that segment a shows. */
  ghost predicate ShowAlike(a: RawHello, b: RawHello, x: Outside) {
    && multiset(Strip(a.ciphers)) == multiset(Strip(b.ciphers))
    && multiset(Strip(Ids(a.extensions))) == multiset(Strip(Ids(b.extensions)))
    && VersionText(NegotiatedVersion(a.extensions, a.legacyVersion)) ==
         VersionText(NegotiatedVersion(b.extensions, b.legacyVersion))
    && AlpnChars(FirstAlpn(a.extensions, x.isText)) == AlpnChars(FirstAlpn(b.extensions, x.isText))
  }

  lemma {:induction false} SameSegmentA(a: RawHello, b: RawHello, x: Outside)
    requires ShowAlike(a, b, x)
    ensures SegmentA(a, x) == SegmentA(b, x)
  {
    var c, d := Strip(a.ciphers), Strip(b.ciphers);
    assert |multiset(c)| == |multiset(d)|;
    SameCounts(a.extensions, b.extensions);
  }

  /** Of two ClientHellos that show alike the readable JA4 is the same exactly when the signature algorithms are, in
    * order and GREASE included. */
  lemma {:induction false} SigAlgsDecide(a: RawHello, b: RawHello, x: Outside)
    requires ShowAlike(a, b, x)
    ensures Ja4Raw(a, x) == Ja4Raw(b, x) <==> SigAlgs(a.extensions) == SigAlgs(b.extensions)
  {
    SameSegmentA(a, b, x);
    SameHashed(Ids(a.extensions), Ids(b.extensions));
    Ja4RawAgrees(a, b, x);
  }

  lemma {:induction false} SameSegmentC(a: seq<u16>, b: seq<u16>, sigAlgs: seq<u16>, x: Outside)
    requires multiset(Strip(a)) == multiset(Strip(b))
    ensures SegmentC(a, sigAlgs, x) == SegmentC(b, sigAlgs, x)
  {
    SameHashed(a, b);
    ExtensionTextAgrees(a, sigAlgs, b, sigAlgs);
  }

  /** JA4 does not change when ciphers and extensions are permuted, when GREASE is added to them, removed or changed, or
    * when what JA4 does not read changes in the extensions, given that extensions sent more than once read alike. */
  lemma {:induction false} Ja4OfMultisets(a: RawHello, b: RawHello, x: Outside)
    requires SameClient(a, b, x) && RepeatsReadAlike(a, x)
    ensures Ja4Of(a, x) == Ja4Of(b, x)
    ensures Ja4Raw(a, x) == Ja4Raw(b, x)
  {
    SameIds(a, b, x);
    SameVersion(a, b, x);
    SameAlpn(a, b, x);
    SameSigAlgs(a, b, x);
    SameSegmentA(a, b, x);
    CipherTextAgrees(a.ciphers, b.ciphers);
    SameSegmentC(Ids(a.extensions), Ids(b.extensions), SigAlgs(a.extensions), x);
    SigAlgsDecide(a, b, x);
  }

  // ----- which bodies read alike -----

  lemma {:induction false} GreatestOfSame(s: seq<u16>, t: seq<u16>, default: u16)
    requires forall v :: v in s <==> v in t
    ensures Greatest(s, default) == Greatest(t, default)
  {
    assert s != [] ==> s[0] in t;
    assert t != [] ==> t[0] in s;
  }

  /** Two lists of versions read alike when they offer the same, in any order and whatever GREASE is among them. */
  lemma {:induction false} VersionsReadAlike(p: Bytes, q: Bytes, legacy: u16, x: Outside)
    requires Vector(p, 1).Some? && Vector(q, 1).Some?
    requires var s, t := U16s(Vector(p, 1).value), U16s(Vector(q, 1).value);
      forall v :: !IsGrease(v) ==> (v in s <==> v in t)
    ensures SeenIn(Field(EXT_SUPPORTED_VERSIONS, p), legacy, x) == SeenIn(Field(EXT_SUPPORTED_VERSIONS, q), legacy, x)
  {
    GreatestOfSame(Strip(U16s(Vector(p, 1).value)), Strip(U16s(Vector(q, 1).value)), legacy);
  }

  /** Two extensions that differ in their GREASE alone, or in what JA4 does not read. */
  predicate Alike(f: Field, g: Field, legacy: u16, x: Outside) {
    if IsGrease(f.id) then IsGrease(g.id)
    else !IsGrease(g.id) && SeenIn(f, legacy, x) == SeenIn(g, legacy, x)
  }

  lemma {:induction false} SeenAppended(fields: seq<Field>, f: Field, legacy: u16, x: Outside)
    ensures SeenAmong(fields + [f], legacy, x) == SeenAmong(fields, legacy, x) + [SeenIn(f, legacy, x)]
  {
  }

  lemma {:induction false} AlikeSeen(p: seq<Field>, q: seq<Field>, legacy: u16, x: Outside)
    requires |p| == |q| && forall i :: 0 <= i < |p| ==> Alike(p[i], q[i], legacy, x)
    ensures SeenAmong(Filter(p, Meaningful), legacy, x) == SeenAmong(Filter(q, Meaningful), legacy, x)
  {
    if p != [] {
      var last := |p| - 1;
      AlikeSeen(p[..last], q[..last], legacy, x);
      SeenAppended(Filter(p[..last], Meaningful), p[last], legacy, x);
      SeenAppended(Filter(q[..last], Meaningful), q[last], legacy, x);
    }
  }

  /** A ClientHello whose extensions are alike one by one is the same client: one with fresh key shares, say, or other
    * GREASE among its versions. */
  lemma {:induction false} AlikeIsSameClient(a: RawHello, b: RawHello, x: Outside)
    requires a.legacyVersion == b.legacyVersion && multiset(Strip(a.ciphers)) == multiset(Strip(b.ciphers))
    requires |a.extensions| == |b.extensions|
    requires forall i :: 0 <= i < |a.extensions| ==>
      Alike(FieldOf(a.extensions[i]), FieldOf(b.extensions[i]), a.legacyVersion, x)
    ensures SameClient(a, b, x)
  {
    AlikeSeen(Map(a.extensions, FieldOf), Map(b.extensions, FieldOf), a.legacyVersion, x);
  }

  /** What is seen in the first of the fields with this identifier. */
  function FirstSeen(fields: seq<Field>, id: u16, legacy: u16, x: Outside): (s: Seen)
    ensures (exists f :: f in fields && f.id == id) ==>
      exists f :: f in fields && f.id == id && s == SeenIn(f, legacy, x)
  {
    if fields == [] then Presence(id)
    else if fields[0].id == id then SeenIn(fields[0], legacy, x)
    else FirstSeen(fields[1..], id, legacy, x)
  }

  /** The same non-GREASE identifiers, and wherever one is in both, it reads alike. */
  ghost predicate PairsReadAlike(a: RawHello, b: RawHello, x: Outside) {
    && a.legacyVersion == b.legacyVersion
    && multiset(Strip(a.ciphers)) == multiset(Strip(b.ciphers))
    && multiset(Strip(Ids(a.extensions))) == multiset(Strip(Ids(b.extensions)))
    && forall f, g :: f in Fields(a.extensions) && g in Fields(b.extensions) && f.id == g.id ==>
         SeenIn(f, a.legacyVersion, x) == SeenIn(g, b.legacyVersion, x)
  }

  lemma {:induction false} IdElsewhere(a: seq<RawExt>, b: seq<RawExt>, f: Field) returns (g: Field)
    requires multiset(Strip(Ids(a))) == multiset(Strip(Ids(b))) && f in Fields(a)
    ensures g in Fields(b) && g.id == f.id
  {
    StrippedIds(a);
    StrippedIds(b);
    var i :| 0 <= i < |Fields(a)| && Fields(a)[i] == f;
    var j := FoundInPermutation(Strip(Ids(a)), Strip(Ids(b)), i);
    g := Fields(b)[j];
  }

  lemma {:induction false} ReadAlikeOver(p: seq<Field>, q: seq<Field>, f: Field, g: Field, h: Field, legacy: u16,
                                         x: Outside)
    requires forall f, g :: f in p && g in q && f.id == g.id ==> SeenIn(f, legacy, x) == SeenIn(g, legacy, x)
    requires f in p && g in p && h in q && f.id == g.id == h.id
    ensures SeenIn(f, legacy, x) == SeenIn(g, legacy, x)
  {
  }

  lemma {:induction false} PairReadsAlike(a: RawHello, b: RawHello, f: Field, g: Field, x: Outside)
    requires PairsReadAlike(a, b, x) && f in Fields(a.extensions) && g in Fields(a.extensions) && f.id == g.id
    ensures SeenIn(f, a.legacyVersion, x) == SeenIn(g, a.legacyVersion, x)
  {
    var h := IdElsewhere(a.extensions, b.extensions, f);
    ReadAlikeOver(Fields(a.extensions), Fields(b.extensions), f, g, h, a.legacyVersion, x);
  }

  lemma {:induction false} PairsAreRepeats(a: RawHello, b: RawHello, x: Outside)
    requires PairsReadAlike(a, b, x)
    ensures RepeatsReadAlike(a, x)
  {
    forall f, g | f in Fields(a.extensions) && g in Fields(a.extensions) && f.id == g.id
      ensures SeenIn(f, a.legacyVersion, x) == SeenIn(g, a.legacyVersion, x)
    {
      PairReadsAlike(a, b, f, g, x);
    }
  }

  lemma {:induction false} SeenById(h: RawHello, fields: seq<Field>, x: Outside)
    requires forall g :: g in Fields(h.extensions) ==>
      SeenIn(g, h.legacyVersion, x) == FirstSeen(fields, g.id, h.legacyVersion, x)
    ensures SeenOf(h, x) ==
      Map(Strip(Ids(h.extensions)), (id: u16) => FirstSeen(fields, id, h.legacyVersion, x))
  {
    StrippedIds(h.extensions);
  }

  lemma {:induction false} PairsAreSameClient(a: RawHello, b: RawHello, x: Outside)
    requires PairsReadAlike(a, b, x)
    ensures SameClient(a, b, x)
  {
    var fields, legacy := Fields(a.extensions), a.legacyVersion;
    PairsAreRepeats(a, b, x);
    forall g | g in Fields(b.extensions)
      ensures SeenIn(g, legacy, x) == FirstSeen(fields, g.id, legacy, x)
    {
      var f := IdElsewhere(b.extensions, a.extensions, g);
    }
    SeenById(a, fields, x);
    SeenById(b, fields, x);
    MapOfPermutation(Strip(Ids(a.extensions)), Strip(Ids(b.extensions)), (id: u16) => FirstSeen(fields, id, legacy, x));
  }

  /** The same client said pair by pair. */
  lemma {:induction false} SameClientByPairs(a: RawHello, b: RawHello, x: Outside)
    ensures SameClient(a, b, x) && RepeatsReadAlike(a, x) <==> PairsReadAlike(a, b, x)
  {
    if SameClient(a, b, x) && RepeatsReadAlike(a, x) {
      SameIds(a, b, x);
      forall f, g | f in Fields(a.extensions) && g in Fields(b.extensions) && f.id == g.id
        ensures SeenIn(f, a.legacyVersion, x) == SeenIn(g, b.legacyVersion, x)
      {
        var h := SeenElsewhere(b, a, g, x);
      }
    } else if PairsReadAlike(a, b, x) {
      PairsAreRepeats(a, b, x);
      PairsAreSameClient(a, b, x);
    }
  }

  // ----- exactly when -----

  /** The same ciphers and the same extensions in any order, GREASE aside. */
  ghost predicate Rearranged(a: RawHello, b: RawHello) {
    && a.legacyVersion == b.legacyVersion
    && multiset(Strip(a.ciphers)) == multiset(Strip(b.ciphers))
    && multiset(Fields(a.extensions)) == multiset(Fields(b.extensions))
  }

  lemma {:induction false} RearrangedIsSameClient(a: RawHello, b: RawHello, x: Outside)
    requires Rearranged(a, b)
    ensures SameClient(a, b, x)
  {
    var legacy := a.legacyVersion;
    var seen := (f: Field) => SeenIn(f, legacy, x);
    MapOfPermutation(Fields(a.extensions), Fields(b.extensions), seen);
    assert SeenOf(a, x) == Map(Fields(a.extensions), seen);
    assert SeenOf(b, x) == Map(Fields(b.extensions), seen);
  }

  /** The extensions with the one at `i` moved to the front. */
  function MovedToFront(fields: seq<Field>, i: nat): (r: seq<Field>)
    requires i < |fields|
    ensures multiset(r) == multiset(fields)
  {
    TakenOut(fields, i);
    [fields[i]] + Without(fields, i)
  }

  /** The ClientHello with these extensions, everything else being the same. */
  function WithFields(h: RawHello, fields: seq<Field>): RawHello {
    h.(extensions := LaidAt(h.extensionsSpan.start, fields))
  }

  lemma {:induction false} OtherOrder(h: RawHello, fields: seq<Field>)
    requires multiset(fields) == multiset(Map(h.extensions, FieldOf))
    ensures Rearranged(h, WithFields(h, fields))
  {
    LaidFields(h.extensionsSpan.start, fields);
    FilterOfPermutation(fields, Map(h.extensions, FieldOf), Meaningful);
  }

  lemma {:induction false} FrontIsFound(h: RawHello, fields: seq<Field>)
    requires fields != []
    ensures BodyOf(WithFields(h, fields).extensions, fields[0].id) == Some(fields[0].body)
  {
  }

  lemma {:induction false} SeenAlike(f: Field, g: Field, legacy: u16, x: Outside)
    requires f.id == g.id
    requires f.id == EXT_ALPN ==> AlpnChars(AlpnIn(f.body, x.isText)) == AlpnChars(AlpnIn(g.body, x.isText))
    requires f.id == EXT_SIG_ALGS ==> U16List(Some(f.body)) == U16List(Some(g.body))
    requires f.id == EXT_SUPPORTED_VERSIONS ==>
      VersionText(VersionIn(f.body, legacy)) == VersionText(VersionIn(g.body, legacy))
    ensures SeenIn(f, legacy, x) == SeenIn(g, legacy, x)
  {
  }

  lemma {:induction false} PartsAlike(a: RawHello, b: RawHello, x: Outside)
    requires Ja4Raw(a, x) == Ja4Raw(b, x)
    ensures VersionText(NegotiatedVersion(a.extensions, a.legacyVersion)) ==
      VersionText(NegotiatedVersion(b.extensions, b.legacyVersion))
    ensures AlpnChars(FirstAlpn(a.extensions, x.isText)) == AlpnChars(FirstAlpn(b.extensions, x.isText))
    ensures SigAlgs(a.extensions) == SigAlgs(b.extensions)
  {
    Ja4RawAgrees(a, b, x);
    assert SegmentA(a, x)[1..3] == SegmentA(b, x)[1..3] && SegmentA(a, x)[8..] == SegmentA(b, x)[8..];
  }

  /** Where the first extension of its kind is another, the readable JA4 shows what is seen in it. */
  lemma {:induction false} FrontsReadAlike(a: RawHello, b: RawHello, f: Field, g: Field, legacy: u16, x: Outside)
    requires a.legacyVersion == b.legacyVersion == legacy && f.id == g.id && Ja4Raw(a, x) == Ja4Raw(b, x)
    requires BodyOf(a.extensions, f.id) == Some(f.body) && BodyOf(b.extensions, g.id) == Some(g.body)
    ensures SeenIn(f, legacy, x) == SeenIn(g, legacy, x)
  {
    PartsAlike(a, b, x);
    SeenAlike(f, g, legacy, x);
  }

  /** No captured ClientHello of the same client has another readable JA4. */
  ghost predicate OrderNeverShows(a: RawHello, x: Outside) {
    forall raw, b :: HelloOf(raw) == Ok(b) && SameClient(a, b, x) ==> Ja4Raw(b, x) == Ja4Raw(a, x)
  }

  lemma {:induction false} MovedIsCaptured(raw: Bytes, a: RawHello, i: nat)
    requires HelloOf(raw) == Ok(a) && i < |a.extensions|
    ensures var b := WithFields(a, MovedToFront(Map(a.extensions, FieldOf), i));
      Rearranged(a, b) && exists t :: HelloOf(t) == Ok(b)
  {
    var fields := MovedToFront(Map(a.extensions, FieldOf), i);
    AnyOrderIsCaptured(raw, a, fields);
    OtherOrder(a, fields);
  }

  lemma {:induction false} SeenInFront(raw: Bytes, a: RawHello, i: nat, x: Outside)
    requires HelloOf(raw) == Ok(a) && OrderNeverShows(a, x) && i < |a.extensions|
    ensures var b := WithFields(a, MovedToFront(Map(a.extensions, FieldOf), i));
      Ja4Raw(b, x) == Ja4Raw(a, x) && BodyOf(b.extensions, a.extensions[i].id) == Some(a.extensions[i].body)
  {
    var fields := MovedToFront(Map(a.extensions, FieldOf), i);
    MovedIsCaptured(raw, a, i);
    RearrangedIsSameClient(a, WithFields(a, fields), x);
    FrontIsFound(a, fields);
  }

  lemma {:induction false} PlaceOfField(exts: seq<RawExt>, f: Field) returns (i: nat)
    requires f in Fields(exts)
    ensures i < |exts| && FieldOf(exts[i]) == f
  {
    FieldsOf(exts, f);
    var e :| e in exts && FieldOf(e) == f;
    i :| i < |exts| && exts[i] == e;
  }

  lemma {:induction false} RepeatsSeen(raw: Bytes, a: RawHello, f: Field, g: Field, x: Outside)
    requires HelloOf(raw) == Ok(a) && OrderNeverShows(a, x)
    requires f in Fields(a.extensions) && g in Fields(a.extensions) && f.id == g.id
    ensures SeenIn(f, a.legacyVersion, x) == SeenIn(g, a.legacyVersion, x)
  {
    var i := PlaceOfField(a.extensions, f);
    var j := PlaceOfField(a.extensions, g);
    SeenInFront(raw, a, i, x);
    SeenInFront(raw, a, j, x);
    var p, q := MovedToFront(Map(a.extensions, FieldOf), i), MovedToFront(Map(a.extensions, FieldOf), j);
    FrontsReadAlike(WithFields(a, p), WithFields(a, q), f, g, a.legacyVersion, x);
  }

  /** JA4 is the same for every captured ClientHello of the same client exactly when the extensions the client sends
    * more than once read alike: of several the first is read, and any can be sent first. */
  lemma {:induction false} OrderNeverShowsIff(raw: Bytes, a: RawHello, x: Outside)
    requires HelloOf(raw) == Ok(a)
    ensures OrderNeverShows(a, x) <==> RepeatsReadAlike(a, x)
  {
    if RepeatsReadAlike(a, x) {
      forall t, b | HelloOf(t) == Ok(b) && SameClient(a, b, x)
        ensures Ja4Raw(b, x) == Ja4Raw(a, x)
      {
        Ja4OfMultisets(a, b, x);
      }
    } else if OrderNeverShows(a, x) {
      forall f, g | f in Fields(a.extensions) && g in Fields(a.extensions) && f.id == g.id
        ensures SeenIn(f, a.legacyVersion, x) == SeenIn(g, a.legacyVersion, x)
      {
        RepeatsSeen(raw, a, f, g, x);
      }
    }
  }

  // ----- two orders of one client -----

  /** An ALPN extension that offers one protocol. */
  function AlpnNaming(name: Bytes): (r: Field)
    requires |name| == 2
    ensures |r.body| == 5
  {
    Field(EXT_ALPN, [0, 3, 2] + name)
  }

  lemma {:induction false} AlpnRead(name: Bytes, isText: Bytes -> bool)
    requires |name| == 2 && isText(name)
    ensures AlpnIn(AlpnNaming(name).body, isText) == Some(name)
  {
    var body := AlpnNaming(name).body;
    BigEndianOfFew(body[..2]);
    assert body[2..5] == [2] + name;
    BigEndianOfFew(body[2..5][..1]);
    assert body[2..5][1..3] == name;
  }

  lemma {:induction false} ShownInFull(name: Bytes)
    requires |name| == 2 && IsAlphanumeric(name[0]) && IsAlphanumeric(name[1])
    ensures AlpnChars(Some(name)) == name
  {
  }

  /** A protocol name that JA4 shows in full. */
  predicate IsName(name: Bytes, x: Outside) {
    |name| == 2 && x.isText(name) && IsAlphanumeric(name[0]) && IsAlphanumeric(name[1])
  }

  lemma {:induction false} TwoWritten(f: Field, g: Field)
    ensures |Written([f, g])| == 8 + |f.body| + |g.body|
  {
    WrittenFirst(g, []);
    WrittenFirst(f, [g]);
    assert [f] + [g] == [f, g] && [g] + [] == [g];
  }

  lemma {:induction false} TwoAlpnCaptured(f: Field, g: Field, p: Bytes, x: Outside)
    requires IsName(p, x) && f == AlpnNaming(p) && |g.body| == 5
    ensures HelloOf(SmallHello([f, g])) == Ok(SmallHelloRead([f, g])) && SegmentA(SmallHelloRead([f, g]), x)[8..] == p
  {
    TwoWritten(f, g);
    AnyExtensionsAreCaptured([f, g]);
    AlpnRead(p, x.isText);
    ShownInFull(p);
    FrontIsFound(SmallHelloRead([f, g]), [f, g]);
  }

  lemma {:induction false} HeadOfJoin(a: Bytes, b: Bytes, d: Bytes, c: u8)
    ensures |Join([a, b, d], c)| > |a| && Join([a, b, d], c)[..|a|] == a
  {
    JoinStep(a, [b, d], c);
    assert [a] + [b, d] == [a, b, d];
    HeadOff(a, c, Join([b, d], c));
  }

  lemma {:induction false} SegmentAInFront(h: RawHello, x: Outside)
    ensures |Ja4Of(h, x)| > 10 && Ja4Of(h, x)[..10] == SegmentA(h, x)
    ensures |Ja4Raw(h, x)| > 10 && Ja4Raw(h, x)[..10] == SegmentA(h, x)
  {
    var ids, sigAlgs := Ids(h.extensions), SigAlgs(h.extensions);
    HeadOfJoin(SegmentA(h, x), SegmentB(h.ciphers, x), SegmentC(ids, sigAlgs, x), UNDERSCORE);
    HeadOfJoin(SegmentA(h, x), CipherText(h.ciphers), ExtensionText(ids, sigAlgs), UNDERSCORE);
  }

  lemma {:induction false} SegmentAShows(a: RawHello, b: RawHello, x: Outside)
    requires SegmentA(a, x) != SegmentA(b, x)
    ensures Ja4Of(a, x) != Ja4Of(b, x) && Ja4Raw(a, x) != Ja4Raw(b, x)
  {
    SegmentAInFront(a, x);
    SegmentAInFront(b, x);
  }

  lemma {:induction false} SwappedIsRearranged(f: Field, g: Field)
    ensures Rearranged(SmallHelloRead([f, g]), SmallHelloRead([g, f]))
  {
    LaidFields(52, [f, g]);
    LaidFields(52, [g, f]);
    FilterOfPermutation([f, g], [g, f], Meaningful);
  }

  lemma {:induction false} NamesShow(f: Field, g: Field, p: Bytes, q: Bytes, x: Outside)
    requires SegmentA(SmallHelloRead([f, g]), x)[8..] == p && SegmentA(SmallHelloRead([g, f]), x)[8..] == q && p != q
    ensures var a, b := SmallHelloRead([f, g]), SmallHelloRead([g, f]);
      Rearranged(a, b) && Ja4Of(a, x) != Ja4Of(b, x) && Ja4Raw(a, x) != Ja4Raw(b, x)
  {
    SwappedIsRearranged(f, g);
    SegmentAShows(SmallHelloRead([f, g]), SmallHelloRead([g, f]), x);
  }

  /** Two captured ClientHellos that differ in the order of their two ALPN extensions alone, and in their JA4. */
  lemma {:induction false} OrderOfDuplicatesShows(f: Field, g: Field, p: Bytes, q: Bytes, x: Outside)
    requires IsName(p, x) && IsName(q, x) && p != q && f == AlpnNaming(p) && g == AlpnNaming(q)
    ensures var a, b := SmallHelloRead([f, g]), SmallHelloRead([g, f]);
      && HelloOf(SmallHello([f, g])) == Ok(a) && HelloOf(SmallHello([g, f])) == Ok(b)
      && Rearranged(a, b) && Ja4Of(a, x) != Ja4Of(b, x) && Ja4Raw(a, x) != Ja4Raw(b, x)
  {
    TwoAlpnCaptured(f, g, p, x);
    TwoAlpnCaptured(g, f, q, x);
    NamesShow(f, g, p, q, x);
  }

  // ----- GREASE among the signature algorithms -----

  /** A signature algorithms extension that lists one value, both octets of which are `v`. */
  function AlgorithmTwice(v: u8): (r: Field)
    ensures |r.body| == 4 && r.body[0] == 0 && r.body[1] == 2 && r.body[2] == v && r.body[3] == v
  {
    Field(EXT_SIG_ALGS, [0, 2, v, v])
  }

  lemma {:induction false} WholeVector(body: Bytes, width: nat)
    requires width <= |body| && BigEndian(body[..width]) == |body| - width
    ensures Vector(body, width) == Some(body[width..])
  {
    assert body[width..|body|] == body[width..];
  }

  lemma {:induction false} OnePair(items: Bytes)
    requires |items| == 2
    ensures U16s(items) == [0x100 * (items[0] as int) + items[1]]
  {
  }

  lemma {:induction false} ListRead(body: Bytes, items: Bytes)
    requires Vector(body, 2) == Some(items)
    ensures U16List(Some(body)) == U16s(items)
  {
  }

  lemma {:induction false} OneValueRead(body: Bytes, width: nat, v: u8)
    requires width == 2 && |body| == 4 && body[0] == 0 && body[1] == 2 && body[2] == v && body[3] == v
    ensures U16List(Some(body)) == [0x101 * (v as int)]
  {
    BigEndianOfFew(body[..width]);
    WholeVector(body, width);
    ListRead(body, body[width..]);
    OnePair(body[width..]);
  }

  /** One extension, and that of signature algorithms. */
  predicate OnlyAlgorithms(h: RawHello) {
    |h.extensions| == 1 && h.extensions[0].id == EXT_SIG_ALGS
  }

  lemma {:induction false} AlgorithmCaptured(f: Field, v: u8)
    requires f == AlgorithmTwice(v)
    ensures var h := SmallHelloRead([f]);
      HelloOf(SmallHello([f])) == Ok(h) && OnlyAlgorithms(h) && SigAlgs(h.extensions) == [0x101 * (v as int)]
  {
    WrittenFirst(f, []);
    assert [f] + [] == [f];
    AnyExtensionsAreCaptured([f]);
    FrontIsFound(SmallHelloRead([f]), [f]);
    OneValueRead(f.body, 2, v);
  }

  lemma {:induction false} AlgorithmsAlone(h: RawHello, x: Outside)
    requires OnlyAlgorithms(h)
    ensures Ids(h.extensions) == [EXT_SIG_ALGS]
    ensures NegotiatedVersion(h.extensions, h.legacyVersion) == h.legacyVersion
    ensures FirstAlpn(h.extensions, x.isText) == None
  {
  }

  lemma {:induction false} OnlyAlgorithmsDecide(a: RawHello, b: RawHello, x: Outside)
    requires OnlyAlgorithms(a) && OnlyAlgorithms(b) && a.legacyVersion == b.legacyVersion && a.ciphers == b.ciphers
    ensures Ja4Raw(a, x) == Ja4Raw(b, x) <==> SigAlgs(a.extensions) == SigAlgs(b.extensions)
  {
    AlgorithmsAlone(a, x);
    AlgorithmsAlone(b, x);
    SigAlgsDecide(a, b, x);
  }

  /** GREASE among the signature algorithms is not left out: two captured ClientHellos that differ in one such value
    * alone have different readable JA4s. */
  lemma {:induction false} GreaseAlgorithmShows(v: u8, w: u8, x: Outside)
    requires v % 0x10 == 0x0a && w % 0x10 == 0x0a
    ensures IsGrease(0x101 * (v as int)) && IsGrease(0x101 * (w as int))
    ensures var a, b := SmallHelloRead([AlgorithmTwice(v)]), SmallHelloRead([AlgorithmTwice(w)]);
      && HelloOf(SmallHello([AlgorithmTwice(v)])) == Ok(a) && HelloOf(SmallHello([AlgorithmTwice(w)])) == Ok(b)
      && (Ja4Raw(a, x) == Ja4Raw(b, x) <==> v == w)
  {
    AlgorithmCaptured(AlgorithmTwice(v), v);
    AlgorithmCaptured(AlgorithmTwice(w), w);
    OneValueTwice(v);
    OneValueTwice(w);
    OnlyAlgorithmsDecide(SmallHelloRead([AlgorithmTwice(v)]), SmallHelloRead([AlgorithmTwice(w)]), x);
  }

  lemma {:induction false} OneValueTwice(v: u8)
    ensures 0x101 * (v as int) / 0x100 == v && 0x101 * (v as int) % 0x100 == v
  {
  }

  // ----- JA3 beside it -----

  lemma {:induction false} FrontIsFirstId(h: RawHello, fields: seq<Field>, i: nat)
    requires i < |fields| && !IsGrease(fields[i].id)
    ensures var ids := Strip(Ids(WithFields(h, MovedToFront(fields, i)).extensions));
      ids != [] && ids[0] == fields[i].id
  {
    var f, rest := fields[i], Without(fields, i);
    var exts := WithFields(h, [f] + rest).extensions;
    LaidFields(h.extensionsSpan.start, [f] + rest);
    StrippedIds(exts);
    FilterOfConcat([f], rest, Meaningful);
    FilterKeepsAll([f], Meaningful);
  }

  /** JA3 is stable for no client that sends two different extensions, GREASE aside: one of their orders can be captured
    * and has another JA3 text. */
  lemma {:induction false} Ja3OrderShows(raw: Bytes, a: RawHello, f: Field, g: Field)
    requires HelloOf(raw) == Ok(a) && f in Fields(a.extensions) && g in Fields(a.extensions) && f.id != g.id
    ensures exists t, b :: HelloOf(t) == Ok(b) && Rearranged(a, b) && Ja3Of(b) != Ja3Of(a)
  {
    var all := Map(a.extensions, FieldOf);
    var i := PlaceOfField(a.extensions, f);
    var j := PlaceOfField(a.extensions, g);
    MovedIsCaptured(raw, a, i);
    MovedIsCaptured(raw, a, j);
    FrontIsFirstId(a, all, i);
    FrontIsFirstId(a, all, j);
    Ja3Agrees(WithFields(a, MovedToFront(all, i)), WithFields(a, MovedToFront(all, j)));
  }

  lemma {:induction false} ConsistentReadAlike(h: RawHello, x: Outside)
    requires Consistent(h.extensions)
    ensures RepeatsReadAlike(h, x)
  {
  }

  lemma {:induction false} SameCurves(a: seq<RawExt>, b: seq<RawExt>)
    requires Consistent(a) && multiset(Fields(a)) == multiset(Fields(b))
    ensures Groups(a) == Groups(b) && PointFormats(a) == PointFormats(b)
  {
    SameBody(a, b, EXT_SUPPORTED_GROUPS);
    SameBody(a, b, EXT_EC_POINT_FORMATS);
  }

  /** Of two orders of one client that uses no identifier with two bodies the JA4 is the same, and the JA3 text is
    * exactly when the orders are, GREASE aside. */
  lemma {:induction false} OnlyJa3Shows(a: RawHello, b: RawHello, x: Outside)
    requires Rearranged(a, b) && Consistent(a.extensions)
    ensures Ja4Of(a, x) == Ja4Of(b, x) && Ja4Raw(a, x) == Ja4Raw(b, x)
    ensures Ja3Of(a) == Ja3Of(b) <==>
      Strip(a.ciphers) == Strip(b.ciphers) && Strip(Ids(a.extensions)) == Strip(Ids(b.extensions))
  {
    RearrangedIsSameClient(a, b, x);
    ConsistentReadAlike(a, x);
    Ja4OfMultisets(a, b, x);
    SameCurves(a.extensions, b.extensions);
    Ja3Agrees(a, b);
  }
}
