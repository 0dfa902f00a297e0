/** What profiles hold and what comparisons ask, in terms of what was observed. */
module ProfileReading {
  import opened Locks
  import opened Bits
  import opened Results
  import opened Texts
  import opened Lists
  import opened Extensions
  import opened Ja4
  import opened H2Fields
  import opened HttpLayer
  import opened Akamai
  import opened HelloReading
  import opened H2Reading
  import opened Profiles

  /** Neither GREASE nor the pre-shared key. */
  function Lasting(id: u16): bool {
    Plain(id) && id != 41
  }

  /** The same protocol; one called none is taken for no protocol. */
  predicate SameProtocol(a: Option<Bytes>, b: Option<Bytes>) {
    a == b || (a.None? && b == Some(Ascii("none"))) || (b.None? && a == Some(Ascii("none")))
  }

  /** In the order of `b`, or in any order unless the order is fixed. */
  ghost predicate InOrder(a: seq<u16>, b: seq<u16>, order: Order) {
    if order.Fixed? then a == b else multiset(a) == multiset(b)
  }

  lemma {:induction false} LastingStep(init: seq<u16>, id: u16)
    ensures StripPsk(init + [id]) == StripPsk(init) + if Lasting(id) then [id] else []
  {
    GreaseIsNotPlain(id);
    FilterStep(init, id, NotGrease);
    if IsGrease(id) {
      assert Strip(init) + [] == Strip(init);
    } else {
      FilterStep(Strip(init), id, NotPsk);
    }
  }

  lemma {:induction false} OneMoreLeft(ids: seq<u16>, kept: seq<u16>, id: u16)
    requires StripPsk(ids) == kept
    ensures StripPsk(ids + [id]) == if Lasting(id) then kept + [id] else kept
  {
    LastingStep(ids, id);
  }

  lemma {:induction false} KeptLasting(s: seq<u16>)
    requires s != []
    ensures var init, id := s[..|s| - 1], s[|s| - 1];
      && s == init + [id]
      && Filter(s, Lasting) == if Lasting(id) then Filter(init, Lasting) + [id] else Filter(init, Lasting)
  {
  }

  lemma {:induction false} LastingLeft(ids: seq<u16>)
    ensures StripPsk(ids) == Filter(ids, Lasting)
  {
    if ids != [] {
      var init, id := ids[..|ids| - 1], ids[|ids| - 1];
      LastingLeft(init);
      OneMoreLeft(init, Filter(init, Lasting), id);
      KeptLasting(ids);
    }
  }

  /** What is asked of the TLS fingerprint. */
  ghost predicate TlsAgrees(t: TlsFingerprint, p: Profile) {
    && InOrder(Filter(t.ciphers, Plain), p.tls.ciphers, p.cipherOrder)
    && InOrder(Filter(t.extensions, Lasting), Filter(p.tls.extensions, Lasting), p.extensionOrder)
    && |t.greaseCipherPositions| == |p.tls.greaseCipherPositions|
    && |t.greaseExtPositions| == |p.tls.greaseExtPositions|
    && SameProtocol(t.alpn, p.tls.alpn) && t.hasSni == p.tls.hasSni
  }

  /** What is asked of the HTTP/2 fingerprint. */
  ghost predicate H2Agrees(o: H2Fingerprint, p: Profile) {
    && (p.h2.Some? ==>
          && o.settings == p.h2.value.settings && o.windowUpdate == p.h2.value.windowUpdate
          && o.pseudoOrder == p.h2.value.pseudoOrder)
    && (p.http.Some? ==>
          && Filter(o.http.headerNames, NotOfSite) == p.http.value.headerNames
          && o.http.hasAcceptLanguage == p.http.value.hasAcceptLanguage)
  }

  lemma {:induction false} TlsReads(t: TlsFingerprint, p: Profile)
    ensures TlsMatches(t, p) <==> TlsAgrees(t, p)
  {
    StripKeepsPlain(t.ciphers);
    LastingLeft(t.extensions);
    LastingLeft(p.tls.extensions);
  }

  /** A comparison is clean exactly when the TLS fingerprint agrees with the profile, and the HTTP/2 one too, which may
    * only be missing when the profile has no HTTP/2 either. */
  lemma {:induction false} CleanReads(r: ClientReport, p: Profile)
    ensures IsClean(DiffOf(r, p)) <==>
      && TlsAgrees(r.tls, p)
      && match r.h2
         case None => p.h2.None?
         case Some(o) => H2Agrees(o, p)
  {
    CleanMeans(r, p);
    TlsReads(r.tls, p);
    if r.h2.Some? {
      ComparableReads(r.h2.value.http.headerNames);
    }
  }

  /** What a profile made from a report holds of it. */
  lemma {:induction false} ProfileReads(r: ClientReport, name: Bytes)
    ensures var p := FromReport(r, name);
      && p.name == name && (p.resumed <==> 41 in r.tls.extensions)
      && p.tls.ciphers == Filter(r.tls.ciphers, Plain) && p.tls.extensions == Filter(r.tls.extensions, Plain)
      && p.tls.alpn == r.tls.alpn && p.tls.hasSni == r.tls.hasSni && p.tls.ja4 == r.tls.ja4
      && p.h2.Some? == p.http.Some? == r.h2.Some?
      && (r.h2.Some? ==>
            && p.h2.value.settings == r.h2.value.settings && p.h2.value.windowUpdate == r.h2.value.windowUpdate
            && p.h2.value.pseudoOrder == r.h2.value.pseudoOrder && p.h2.value.akamai == r.h2.value.akamai
            && p.http.value.headerNames == Filter(r.h2.value.http.headerNames, NotOfSite))
  {
    StripKeepsPlain(r.tls.ciphers);
    StripKeepsPlain(r.tls.extensions);
    if r.h2.Some? {
      ComparableReads(r.h2.value.http.headerNames);
    }
  }

  // ----- trimming -----

  predicate IsWhite(c: u8) {
    c in {0x09, 0x0a, 0x0b, 0x0c, 0x0d, 0x20}
  }

  /** `s` trimmed is `r`. */
  ghost predicate Trims(s: Bytes, r: Bytes) {
    forall k: int {:trigger Key(k)} :: Key(k) && k == PARTS ==> Trim(s) == r
  }

  lemma {:induction false} TrimFront(c: u8, w: Bytes, r: Bytes)
    requires IsWhite(c) && Trims(w, r)
    ensures Trims([c] + w, r)
  {
    assert Key(PARTS);
    var s := [c] + w;
    assert WhiteAt(s) == 1 && s[1..] == w;
  }

  lemma {:induction false} TrimBack(w: Bytes, c: u8, r: Bytes)
    requires w != [] && 0x20 < w[0] < 0x80 && IsWhite(c) && Trims(w, r)
    ensures Trims(w + [c], r)
  {
    assert Key(PARTS);
    WhiteLast(w, c);
    TrimStep(w + [c]);
    assert (w + [c])[..|w|] == w;
  }

  lemma {:induction false} NotWhiteFront(s: Bytes)
    requires s != [] && 0x20 < s[0] < 0x80
    ensures WhiteAt(s) == 0
  {
  }

  lemma {:induction false} OneWhite(s: Bytes, last: Bytes)
    requires s != [] && last == s[|s| - 1..] && IsWhite(last[0])
    ensures WhiteBefore(s) == 1
  {
  }

  lemma {:induction false} WhiteLast(w: Bytes, c: u8)
    requires w != [] && 0x20 < w[0] < 0x80 && IsWhite(c)
    ensures WhiteAt(w + [c]) == 0 && WhiteBefore(w + [c]) == 1
  {
    NotWhiteFront(w + [c]);
    OneWhite(w + [c], (w + [c])[|w|..]);
  }

  lemma {:induction false} TrimStep(s: Bytes)
    requires WhiteAt(s) == 0 && WhiteBefore(s) == 1
    ensures Trim(s) == Trim(s[..|s| - 1])
  {
  }

  lemma {:induction false} NotWhite(t: Bytes)
    requires 1 <= |t| <= 3 && 0x20 < t[|t| - 1] < 0x80
    ensures WhiteAt(t) != |t|
  {
  }

  lemma {:induction false} TailNotWhite(s: Bytes, n: nat)
    requires 1 <= n <= 3 && n <= |s| && 0x20 < s[|s| - 1] < 0x80
    ensures WhiteAt(s[|s| - n..]) != n
  {
    NotWhite(s[|s| - n..]);
  }

  lemma {:induction false} NoWhiteBefore(s: Bytes)
    requires s != [] && 0x20 < s[|s| - 1] < 0x80
    ensures WhiteBefore(s) == 0
  {
    TailNotWhite(s, 1);
    if |s| >= 2 {
      TailNotWhite(s, 2);
    }
    if |s| >= 3 {
      TailNotWhite(s, 3);
    }
  }

  lemma {:induction false} TrimNothing(s: Bytes)
    requires s != [] && 0x20 < s[0] < 0x80 && 0x20 < s[|s| - 1] < 0x80
    ensures Trims(s, s)
  {
    NoWhiteBefore(s);
    assert WhiteAt(s) == 0;
  }

  lemma {:induction false} TrimAllBack(s: Bytes, b: Bytes)
    requires s != [] && 0x20 < s[0] < 0x80 && 0x20 < s[|s| - 1] < 0x80 && forall c :: c in b ==> IsWhite(c)
    ensures Trims(s + b, s)
  {
    if b == [] {
      assert s + b == s;
      TrimNothing(s);
    } else {
      var init, c := b[..|b| - 1], b[|b| - 1];
      TrimAllBack(s, init);
      TrimBack(s + init, c, s);
      assert s + b == s + init + [c];
    }
  }

  lemma {:induction false} TrimAllFront(a: Bytes, s: Bytes, b: Bytes)
    requires forall c :: c in a || c in b ==> IsWhite(c)
    requires s != [] && 0x20 < s[0] < 0x80 && 0x20 < s[|s| - 1] < 0x80
    ensures Trims(a + s + b, s)
  {
    if a == [] {
      assert a + s + b == s + b;
      TrimAllBack(s, b);
    } else {
      TrimAllFront(a[1..], s, b);
      TrimFront(a[0], a[1..] + s + b, s);
      assert a + s + b == [a[0]] + (a[1..] + s + b);
    }
  }

  /** ASCII white space on both sides is taken off, and nothing else is. */
  lemma {:induction false} TrimTakesWhite(a: Bytes, s: Bytes, b: Bytes)
    requires forall c :: c in a || c in b ==> IsWhite(c)
    requires s != [] && 0x20 < s[0] < 0x80 && 0x20 < s[|s| - 1] < 0x80
    ensures Trim(a + s + b) == s
  {
    TrimAllFront(a, s, b);
    assert Key(PARTS);
  }
}
