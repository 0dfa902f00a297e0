/** The JA3 text, which keeps the order of everything it lists. */
module Ja3 {
  import opened Bits
  import opened Texts
  import opened Lists
  import opened ClientHello
  import opened Extensions

  const DASH: u8 := 0x2d

  function Numerals(values: seq<nat>): Bytes {
    Join(Map(values, Decimal), DASH)
  }

  function Ja3Parts(version: u16, ciphers: seq<u16>, extensions: seq<u16>, groups: seq<u16>, formats: Bytes)
    : (r: seq<Bytes>)
    ensures |r| == 5
  {
    [Decimal(version), Numerals(Strip(ciphers)), Numerals(Strip(extensions)), Numerals(Strip(groups)),
     Numerals(formats)]
  }

  /** Version, ciphers, extensions, groups and point formats, in wire order, GREASE left out. */
  function Ja3Text(version: u16, ciphers: seq<u16>, extensions: seq<u16>, groups: seq<u16>, formats: Bytes): Bytes {
    Join(Ja3Parts(version, ciphers, extensions, groups, formats), COMMA)
  }

  function Ja3Of(h: RawHello): Bytes {
    Ja3Text(h.legacyVersion, h.ciphers, Ids(h.extensions), Groups(h.extensions), PointFormats(h.extensions))
  }

  lemma {:induction false} NumeralParts(values: seq<nat>)
    ensures forall i :: 0 <= i < |values| ==>
      var part := Map(values, Decimal)[i]; part != [] && COMMA !in part && DASH !in part
  {
  }

  lemma {:induction false} NumeralsLackComma(values: seq<nat>)
    ensures COMMA !in Numerals(values)
  {
    NumeralParts(values);
    JoinLacks(Map(values, Decimal), DASH, COMMA);
  }

  lemma {:induction false} NumeralsInjective(a: seq<nat>, b: seq<nat>)
    requires Numerals(a) == Numerals(b)
    ensures a == b
  {
    NumeralParts(a);
    NumeralParts(b);
    var p, q := Map(a, Decimal), Map(b, Decimal);
    JoinInjective(p, q, DASH);
    forall i | 0 <= i < |a|
      ensures a[i] == b[i]
    {
      assert p[i] == q[i];
      DecimalInjective(a[i], b[i]);
    }
  }

  lemma {:induction false} Ja3Splits(version: u16, ciphers: seq<u16>, extensions: seq<u16>, groups: seq<u16>,
                                     formats: Bytes)
    ensures Split(Ja3Text(version, ciphers, extensions, groups, formats), COMMA) ==
      Ja3Parts(version, ciphers, extensions, groups, formats)
  {
    NumeralsLackComma(Strip(ciphers));
    NumeralsLackComma(Strip(extensions));
    NumeralsLackComma(Strip(groups));
    NumeralsLackComma(formats);
    SplitOfJoin(Ja3Parts(version, ciphers, extensions, groups, formats), COMMA);
  }

  /** Two ClientHellos have the same JA3 text exactly when they agree in the version field and, in order, in ciphers,
    * extensions, groups and point formats, GREASE aside: JA3 changes with every rearrangement. */
  lemma {:induction false} Ja3Agrees(a: RawHello, b: RawHello)
    ensures Ja3Of(a) == Ja3Of(b) <==>
      && a.legacyVersion == b.legacyVersion
      && Strip(a.ciphers) == Strip(b.ciphers)
      && Strip(Ids(a.extensions)) == Strip(Ids(b.extensions))
      && Strip(Groups(a.extensions)) == Strip(Groups(b.extensions))
      && PointFormats(a.extensions) == PointFormats(b.extensions)
  {
    if Ja3Of(a) == Ja3Of(b) {
      Ja3Splits(a.legacyVersion, a.ciphers, Ids(a.extensions), Groups(a.extensions), PointFormats(a.extensions));
      Ja3Splits(b.legacyVersion, b.ciphers, Ids(b.extensions), Groups(b.extensions), PointFormats(b.extensions));
      PartsAgree(a.legacyVersion, a.ciphers, Ids(a.extensions), Groups(a.extensions), PointFormats(a.extensions),
                 b.legacyVersion, b.ciphers, Ids(b.extensions), Groups(b.extensions), PointFormats(b.extensions));
    }
  }

  lemma {:induction false} PartsAgree(v: u16, c: seq<u16>, e: seq<u16>, g: seq<u16>, f: Bytes,
                                      w: u16, d: seq<u16>, k: seq<u16>, h: seq<u16>, i: Bytes)
    requires Ja3Parts(v, c, e, g, f) == Ja3Parts(w, d, k, h, i)
    ensures v == w && Strip(c) == Strip(d) && Strip(e) == Strip(k) && Strip(g) == Strip(h) && f == i
  {
    var p, q := Ja3Parts(v, c, e, g, f), Ja3Parts(w, d, k, h, i);
    assert p[0] == q[0] && p[1] == q[1] && p[2] == q[2] && p[3] == q[3] && p[4] == q[4];
    DecimalInjective(v, w);
    NumeralsInjective(Strip(c), Strip(d));
    NumeralsInjective(Strip(e), Strip(k));
    NumeralsInjective(Strip(g), Strip(h));
    NumeralsInjective(f, i);
  }
}
