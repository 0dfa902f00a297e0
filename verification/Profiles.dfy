/** Profiles made from observations, and the comparison of an observation with a profile. */
module Profiles {
  import opened Bits
  import opened Results
  import opened Texts
  import opened Lists
  import opened Extensions
  import opened Ja4
  import opened H2Fields
  import opened HttpLayer
  import opened Akamai

  datatype Order = Fixed | Permuted | Unknown

  datatype TlsProfile = TlsProfile(
    ja4: Bytes, ciphers: seq<u16>, extensions: seq<u16>,
    greaseCipherPositions: seq<nat>, greaseExtPositions: seq<nat>, alpn: Option<Bytes>, hasSni: bool)

  datatype H2Profile = H2Profile(
    akamai: Bytes, settings: seq<Setting>, windowUpdate: Option<u32>, pseudoOrder: Bytes)

  datatype HttpStored = HttpStored(headerNames: seq<Bytes>, headerCount: nat, hasAcceptLanguage: bool)

  datatype Profile = Profile(
    name: Bytes, resumed: bool, cipherOrder: Order, extensionOrder: Order,
    tls: TlsProfile, h2: Option<H2Profile>, http: Option<HttpStored>)

  /** What one client looked like: the part of a report that profiles and comparisons read. */
  datatype ClientReport = ClientReport(tls: TlsFingerprint, h2: Option<H2Fingerprint>)

  /** Present only when resuming. */
  const EXT_PRE_SHARED_KEY: u16 := 41

  function StoredHttp(h: H2Fingerprint): HttpStored {
    HttpStored(Comparable(h.http.headerNames), h.http.headerCount, h.http.hasAcceptLanguage)
  }

  function StoredH2(h: H2Fingerprint): H2Profile {
    H2Profile(h.akamai, h.settings, h.windowUpdate, h.pseudoOrder)
  }

  function FromReport(r: ClientReport, name: Bytes): Profile {
    Profile(name, EXT_PRE_SHARED_KEY in r.tls.extensions, Unknown, Unknown,
            TlsProfile(r.tls.ja4, Strip(r.tls.ciphers), Strip(r.tls.extensions), r.tls.greaseCipherPositions,
                       r.tls.greaseExtPositions, r.tls.alpn, r.tls.hasSni),
            if r.h2.Some? then Some(StoredH2(r.h2.value)) else None,
            if r.h2.Some? then Some(StoredHttp(r.h2.value)) else None)
  }

  // ----- ordering rules -----

  /** Two lists under an ordering rule; an unknown rule is read as the looser one. */
  function CompareOrdered(observed: seq<u16>, expected: seq<u16>, order: Order): bool {
    match order
    case Fixed => observed == expected
    case Permuted => Sorted(observed) == Sorted(expected)
    case Unknown => Sorted(observed) == Sorted(expected)
  }

  /** What the rules mean. */
  ghost predicate Alike(a: seq<u16>, b: seq<u16>, order: Order) {
    if order == Fixed then a == b else multiset(a) == multiset(b)
  }

  lemma CompareMeans(a: seq<u16>, b: seq<u16>, order: Order)
    ensures CompareOrdered(a, b, order) <==> Alike(a, b, order)
  {
    SortedAlike(a, b);
  }

  /** The rule repeated samples support. One sample is not evidence that an order is stable. */
  function InferOrder(samples: seq<seq<u16>>): Order {
    if |samples| < 2 then Unknown
    else if forall i :: 0 <= i < |samples| ==> samples[i] == samples[0] then Fixed
    else Permuted
  }

  /** Two samples and more that are all the same make a fixed order, and two that differ a permuted one. */
  lemma {:induction false} InferOrderMeans(samples: seq<seq<u16>>)
    ensures InferOrder(samples) == Unknown <==> |samples| <= 1
    ensures InferOrder(samples) == Fixed <==>
      |samples| >= 2 && forall i, j :: 0 <= i < |samples| && 0 <= j < |samples| ==> samples[i] == samples[j]
    ensures InferOrder(samples) == Permuted <==>
      exists i, j :: 0 <= i < |samples| && 0 <= j < |samples| && samples[i] != samples[j]
  {
    if i :| 0 <= i < |samples| && samples[i] != samples[0] {
      assert samples[i] != samples[0];
    }
  }

  /** The inferred rule accepts every sample against a stored one exactly when all are rearrangements of it. */
  lemma InferredOrderAccepts(samples: seq<seq<u16>>, stored: nat)
    requires stored < |samples|
    ensures (forall i :: 0 <= i < |samples| ==> CompareOrdered(samples[i], samples[stored], InferOrder(samples))) <==>
      forall i :: 0 <= i < |samples| ==> multiset(samples[i]) == multiset(samples[stored])
  {
    forall i | 0 <= i < |samples|
      ensures CompareOrdered(samples[i], samples[stored], InferOrder(samples)) <==>
        multiset(samples[i]) == multiset(samples[stored])
    {
      CompareMeans(samples[i], samples[stored], InferOrder(samples));
    }
  }

  // ----- comparison -----

  /** The outcome for one field; how it is displayed is not modelled. */
  datatype FieldDiff = FieldDiff(field: string, ok: bool)

  predicate NotPsk(id: u16) {
    id != EXT_PRE_SHARED_KEY
  }

  function StripPsk(v: seq<u16>): seq<u16> {
    Filter(Strip(v), NotPsk)
  }

  function AlpnShown(alpn: Option<Bytes>): Bytes {
    if alpn.Some? then alpn.value else Ascii("none")
  }

  method Diff(r: ClientReport, p: Profile) returns (fields: seq<FieldDiff>)
    ensures IsClean(fields) <==> Matches(r, p)
    ensures fields == DiffOf(r, p)
  {
    fields := [];
    // Ciphers keep their order even where extensions do not.
    var obsCiphers := Strip(r.tls.ciphers);
    fields := fields + [FieldDiff("ciphers", CompareOrdered(obsCiphers, p.tls.ciphers, p.cipherOrder))];

    // The pre-shared key extension depends on the session, on both sides.
    var obsExt, expExt := StripPsk(r.tls.extensions), StripPsk(p.tls.extensions);
    fields := fields + [FieldDiff("extensions", CompareOrdered(obsExt, expExt, p.extensionOrder))];

    var sameGrease := |r.tls.greaseCipherPositions| == |p.tls.greaseCipherPositions|
      && |r.tls.greaseExtPositions| == |p.tls.greaseExtPositions|;
    fields := fields + [FieldDiff("GREASE", sameGrease)];
    fields := fields + [FieldDiff("ALPN", AlpnShown(r.tls.alpn) == AlpnShown(p.tls.alpn))];
    fields := fields + [FieldDiff("SNI", r.tls.hasSni == p.tls.hasSni)];
    ghost var tls := fields;
    assert tls == TlsFields(r.tls, p);

    if r.h2.Some? && p.h2.Some? {
      var obs, exp := r.h2.value, p.h2.value;
      fields := fields + [FieldDiff("SETTINGS", RenderSettings(obs.settings) == RenderSettings(exp.settings))];
      fields := fields + [FieldDiff("WINDOW_UPDATE", obs.windowUpdate == exp.windowUpdate)];
      fields := fields + [FieldDiff("pseudo-header", obs.pseudoOrder == exp.pseudoOrder)];
    } else if r.h2.None? && p.h2.Some? {
      fields := fields + [FieldDiff("HTTP/2", false)];
    }

    ghost var both := fields;
    assert both == tls + H2FieldsOf(r.h2, p.h2);

    if r.h2.Some? && p.http.Some? {
      var obs, exp := r.h2.value.http, p.http.value;
      fields := fields + [FieldDiff("header order", Comparable(obs.headerNames) == exp.headerNames)];
      fields := fields + [FieldDiff("accept-language", obs.hasAcceptLanguage == exp.hasAcceptLanguage)];
    }
    assert fields == both + HttpFields(r.h2, p.http);
    CleanMeans(r, p);
  }

  function TlsFields(r: TlsFingerprint, p: Profile): seq<FieldDiff> {
    [FieldDiff("ciphers", CompareOrdered(Strip(r.ciphers), p.tls.ciphers, p.cipherOrder)),
     FieldDiff("extensions", CompareOrdered(StripPsk(r.extensions), StripPsk(p.tls.extensions), p.extensionOrder)),
     FieldDiff("GREASE", |r.greaseCipherPositions| == |p.tls.greaseCipherPositions|
                         && |r.greaseExtPositions| == |p.tls.greaseExtPositions|),
     FieldDiff("ALPN", AlpnShown(r.alpn) == AlpnShown(p.tls.alpn)),
     FieldDiff("SNI", r.hasSni == p.tls.hasSni)]
  }

  function H2FieldsOf(obs: Option<H2Fingerprint>, exp: Option<H2Profile>): seq<FieldDiff> {
    if exp.None? then []
    else if obs.None? then [FieldDiff("HTTP/2", false)]
    else [FieldDiff("SETTINGS", RenderSettings(obs.value.settings) == RenderSettings(exp.value.settings)),
          FieldDiff("WINDOW_UPDATE", obs.value.windowUpdate == exp.value.windowUpdate),
          FieldDiff("pseudo-header", obs.value.pseudoOrder == exp.value.pseudoOrder)]
  }

  function HttpFields(obs: Option<H2Fingerprint>, exp: Option<HttpStored>): seq<FieldDiff> {
    if obs.None? || exp.None? then []
    else [FieldDiff("header order", Comparable(obs.value.http.headerNames) == exp.value.headerNames),
          FieldDiff("accept-language", obs.value.http.hasAcceptLanguage == exp.value.hasAcceptLanguage)]
  }

  function DiffOf(r: ClientReport, p: Profile): seq<FieldDiff> {
    TlsFields(r.tls, p) + H2FieldsOf(r.h2, p.h2) + HttpFields(r.h2, p.http)
  }

  predicate IsClean(fields: seq<FieldDiff>) {
    forall f :: f in fields ==> f.ok
  }

  ghost predicate TlsMatches(r: TlsFingerprint, p: Profile) {
    && Alike(Strip(r.ciphers), p.tls.ciphers, p.cipherOrder)
    && Alike(StripPsk(r.extensions), StripPsk(p.tls.extensions), p.extensionOrder)
    && |r.greaseCipherPositions| == |p.tls.greaseCipherPositions|
    && |r.greaseExtPositions| == |p.tls.greaseExtPositions|
    && AlpnShown(r.alpn) == AlpnShown(p.tls.alpn)
    && r.hasSni == p.tls.hasSni
  }

  /** A profile with an HTTP/2 section needs an observation with one; settings agree as lists, not only as text. */
  ghost predicate H2Matches(obs: Option<H2Fingerprint>, exp: Option<H2Profile>) {
    exp.Some? ==>
      && obs.Some?
      && obs.value.settings == exp.value.settings
      && obs.value.windowUpdate == exp.value.windowUpdate
      && obs.value.pseudoOrder == exp.value.pseudoOrder
  }

  ghost predicate HttpMatches(obs: Option<H2Fingerprint>, exp: Option<HttpStored>) {
    obs.Some? && exp.Some? ==>
      && Comparable(obs.value.http.headerNames) == exp.value.headerNames
      && obs.value.http.hasAcceptLanguage == exp.value.hasAcceptLanguage
  }

  ghost predicate Matches(r: ClientReport, p: Profile) {
    TlsMatches(r.tls, p) && H2Matches(r.h2, p.h2) && HttpMatches(r.h2, p.http)
  }

  lemma CleanParts(a: seq<FieldDiff>, b: seq<FieldDiff>)
    ensures IsClean(a + b) <==> IsClean(a) && IsClean(b)
  {
    if IsClean(a + b) {
      assert forall f :: f in a ==> f in a + b;
      assert forall f :: f in b ==> f in a + b;
    }
  }

  lemma {:induction false} TlsClean(r: TlsFingerprint, p: Profile)
    ensures IsClean(TlsFields(r, p)) <==> TlsMatches(r, p)
  {
    CompareMeans(Strip(r.ciphers), p.tls.ciphers, p.cipherOrder);
    CompareMeans(StripPsk(r.extensions), StripPsk(p.tls.extensions), p.extensionOrder);
    var fs := TlsFields(r, p);
    assert fs[0] in fs && fs[1] in fs && fs[2] in fs && fs[3] in fs && fs[4] in fs;
  }

  lemma H2Clean(obs: Option<H2Fingerprint>, exp: Option<H2Profile>)
    ensures IsClean(H2FieldsOf(obs, exp)) <==> H2Matches(obs, exp)
  {
    var fs := H2FieldsOf(obs, exp);
    if exp.Some? {
      assert fs[0] in fs;
      if obs.Some? {
        assert fs[1] in fs && fs[2] in fs;
        if RenderSettings(obs.value.settings) == RenderSettings(exp.value.settings) {
          SettingsInjective(obs.value.settings, exp.value.settings);
        }
      }
    }
  }

  lemma HttpClean(obs: Option<H2Fingerprint>, exp: Option<HttpStored>)
    ensures IsClean(HttpFields(obs, exp)) <==> HttpMatches(obs, exp)
  {
    var fs := HttpFields(obs, exp);
    if obs.Some? && exp.Some? {
      assert fs[0] in fs && fs[1] in fs;
    }
  }

  /** A comparison is clean exactly when the observation matches the profile. */
  lemma {:induction false} CleanMeans(r: ClientReport, p: Profile)
    ensures IsClean(DiffOf(r, p)) <==> Matches(r, p)
  {
    CleanParts(TlsFields(r.tls, p) + H2FieldsOf(r.h2, p.h2), HttpFields(r.h2, p.http));
    CleanParts(TlsFields(r.tls, p), H2FieldsOf(r.h2, p.h2));
    TlsClean(r.tls, p);
    H2Clean(r.h2, p.h2);
    HttpClean(r.h2, p.http);
  }

  // ----- matching a profile made from a report -----

  lemma StripPskOfStripped(v: seq<u16>)
    ensures StripPsk(Strip(v)) == StripPsk(v)
  {
    FilterKeepsAll(Strip(v), NotGrease);
  }

  /** What matching the profile of another report means. */
  lemma MatchesReport(r: ClientReport, s: ClientReport, name: Bytes)
    ensures Matches(r, FromReport(s, name)) <==>
      && multiset(Strip(r.tls.ciphers)) == multiset(Strip(s.tls.ciphers))
      && multiset(StripPsk(r.tls.extensions)) == multiset(StripPsk(s.tls.extensions))
      && |r.tls.greaseCipherPositions| == |s.tls.greaseCipherPositions|
      && |r.tls.greaseExtPositions| == |s.tls.greaseExtPositions|
      && AlpnShown(r.tls.alpn) == AlpnShown(s.tls.alpn)
      && r.tls.hasSni == s.tls.hasSni
      && (s.h2.Some? ==>
        && r.h2.Some?
        && H2Matches(r.h2, Some(StoredH2(s.h2.value)))
        && HttpMatches(r.h2, Some(StoredHttp(s.h2.value))))
  {
    StripPskOfStripped(s.tls.extensions);
  }

  /** Every observation matches the profile made from it. */
  lemma {:induction false} SelfMatch(r: ClientReport, name: Bytes)
    ensures IsClean(DiffOf(r, FromReport(r, name)))
  {
    CleanMeans(r, FromReport(r, name));
    MatchesReport(r, r, name);
  }

  /** Matching is transitive through profiles, and symmetric between observations that agree on having HTTP/2. */
  lemma {:induction false} MatchIsPreorder(r: ClientReport, s: ClientReport, t: ClientReport, name: Bytes)
    ensures IsClean(DiffOf(r, FromReport(s, name))) && IsClean(DiffOf(s, FromReport(t, name))) ==>
      IsClean(DiffOf(r, FromReport(t, name)))
    ensures r.h2.Some? == s.h2.Some? ==>
      (IsClean(DiffOf(r, FromReport(s, name))) <==> IsClean(DiffOf(s, FromReport(r, name))))
  {
    CleanMeans(r, FromReport(s, name));
    CleanMeans(s, FromReport(t, name));
    CleanMeans(r, FromReport(t, name));
    CleanMeans(s, FromReport(r, name));
    MatchesReport(r, s, name);
    MatchesReport(s, t, name);
    MatchesReport(r, t, name);
    MatchesReport(s, r, name);
  }

  // ----- a profile captured from several samples -----

  function StrippedCiphers(r: ClientReport): seq<u16> { Strip(r.tls.ciphers) }

  function StrippedExtensions(r: ClientReport): seq<u16> { Strip(r.tls.extensions) }

  /** The last sample's profile, with the ordering rules all samples support. */
  function Captured(samples: seq<ClientReport>, name: Bytes): Profile
    requires samples != []
  {
    FromReport(samples[|samples| - 1], name).(
      cipherOrder := InferOrder(Map(samples, StrippedCiphers)),
      extensionOrder := InferOrder(Map(samples, StrippedExtensions)))
  }

  lemma InferredMeans(lists: seq<seq<u16>>, i: nat, j: nat)
    requires i < |lists| && j < |lists|
    ensures InferOrder(lists) == Fixed ==> lists[i] == lists[j]
  {
  }

  lemma {:induction false} FirstFields(r: TlsFingerprint, p: Profile)
    ensures TlsFields(r, p)[0].ok <==> Alike(Strip(r.ciphers), p.tls.ciphers, p.cipherOrder)
    ensures TlsFields(r, p)[1].ok <==> Alike(StripPsk(r.extensions), StripPsk(p.tls.extensions), p.extensionOrder)
  {
    CompareMeans(Strip(r.ciphers), p.tls.ciphers, p.cipherOrder);
    CompareMeans(StripPsk(r.extensions), StripPsk(p.tls.extensions), p.extensionOrder);
  }

  lemma {:induction false} CapturedCiphers(samples: seq<ClientReport>, name: Bytes, i: nat)
    requires i < |samples|
    ensures var sample, last, p := samples[i].tls, samples[|samples| - 1].tls, Captured(samples, name);
      Alike(Strip(sample.ciphers), p.tls.ciphers, p.cipherOrder) <==>
        multiset(Strip(sample.ciphers)) == multiset(Strip(last.ciphers))
  {
    InferredMeans(Map(samples, StrippedCiphers), i, |samples| - 1);
  }

  lemma {:induction false} CapturedExtensions(samples: seq<ClientReport>, name: Bytes, i: nat)
    requires i < |samples|
    ensures var sample, last, p := samples[i].tls, samples[|samples| - 1].tls, Captured(samples, name);
      Alike(StripPsk(sample.extensions), StripPsk(p.tls.extensions), p.extensionOrder) <==>
        multiset(StripPsk(sample.extensions)) == multiset(StripPsk(last.extensions))
  {
    InferredMeans(Map(samples, StrippedExtensions), i, |samples| - 1);
    StripPskOfStripped(samples[i].tls.extensions);
    StripPskOfStripped(samples[|samples| - 1].tls.extensions);
  }

  /** A captured profile accepts the ciphers and extensions of a sample exactly when they rearrange those of the last
    * sample, the session dependent extension aside. */
  lemma {:induction false} CapturedAcceptsSamples(samples: seq<ClientReport>, name: Bytes, i: nat)
    requires i < |samples|
    ensures var sample, last, fields := samples[i].tls, samples[|samples| - 1].tls,
        TlsFields(samples[i].tls, Captured(samples, name));
      && (fields[0].ok <==> multiset(Strip(sample.ciphers)) == multiset(Strip(last.ciphers)))
      && (fields[1].ok <==> multiset(StripPsk(sample.extensions)) == multiset(StripPsk(last.extensions)))
  {
    var p := Captured(samples, name);
    CapturedCiphers(samples, name, i);
    CapturedExtensions(samples, name, i);
    FirstFields(samples[i].tls, p);
  }
}
