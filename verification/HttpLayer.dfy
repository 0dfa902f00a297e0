/** What a header list says about its sender: the order of its pseudo-headers and the names of the others. */
module HttpLayer {
  import opened Sequences
  import opened Bits
  import opened Results
  import opened Texts
  import opened HeaderTables

  // ----- pseudo-header order -----

  const LETTER_M: Bytes := [0x6d]
  const LETTER_A: Bytes := [0x61]
  const LETTER_S: Bytes := [0x73]
  const LETTER_P: Bytes := [0x70]

  function MethodName(): Bytes { Ascii(":method") }
  function AuthorityName(): Bytes { Ascii(":authority") }
  function SchemeName(): Bytes { Ascii(":scheme") }
  function PathName(): Bytes { Ascii(":path") }

  predicate IsLetter(part: Bytes) {
    part == LETTER_M || part == LETTER_A || part == LETTER_S || part == LETTER_P
  }

  /** The letter a header name contributes, if any; other pseudo-headers are skipped. */
  function LetterOf(name: Bytes): (r: seq<Bytes>)
    ensures forall x :: x in r ==> IsLetter(x)
  {
    if name == MethodName() then [LETTER_M]
    else if name == AuthorityName() then [LETTER_A]
    else if name == SchemeName() then [LETTER_S]
    else if name == PathName() then [LETTER_P]
    else []
  }

  function Letters(hs: seq<Header>): (r: seq<Bytes>)
    ensures forall x :: x in r ==> IsLetter(x)
  {
    if hs == [] then [] else LetterOf(hs[0].name) + Letters(hs[1..])
  }

  function PseudoOrder(hs: seq<Header>): Bytes {
    Join(Letters(hs), COMMA)
  }

  lemma {:induction false} LettersOfConcat(a: seq<Header>, b: seq<Header>)
    ensures Letters(a + b) == Letters(a) + Letters(b)
  {
    if a == [] {
      assert a + b == b;
    } else {
      assert (a + b)[1..] == a[1..] + b;
      LettersOfConcat(a[1..], b);
    }
  }

  // ----- header names -----

  function CookieName(): Bytes { Ascii("cookie") }
  function RefererName(): Bytes { Ascii("referer") }
  function AcceptLanguageName(): Bytes { Ascii("accept-language") }
  function OwnPrefix(): Bytes { Ascii("x-fp-") }

  datatype HttpProfile = HttpProfile(
    headerNames: seq<Bytes>, headerCount: nat, hasAcceptLanguage: bool,
    method_: Option<Bytes>, cookieHeaderCount: nat, hasReferer: bool)

  predicate IsPseudo(name: Bytes) {
    name != [] && name[0] == COLON
  }

  /** A property of the site or the navigation rather than of the client. */
  predicate RequestScoped(name: Bytes) {
    name == CookieName() || name == RefererName()
  }

  /** Neither a pseudo-header nor in this program's own namespace. */
  predicate IsRegular(name: Bytes) {
    !IsPseudo(name) && !(OwnPrefix() <= name)
  }

  /** The regular names in wire order, in lower case. */
  function RegularNames(hs: seq<Header>): (r: seq<Bytes>)
    ensures forall x :: x in r ==> IsRegular(x) && Lower(x) == x
  {
    if hs == [] then []
    else
      var name := Lower(hs[|hs| - 1].name);
      LowerTwice(hs[|hs| - 1].name);
      RegularNames(hs[..|hs| - 1]) + if IsRegular(name) then [name] else []
  }

  function Comparable(names: seq<Bytes>): (r: seq<Bytes>)
    ensures forall x :: x in r <==> x in names && !RequestScoped(x)
  {
    if names == [] then []
    else
      var name := names[|names| - 1];
      Comparable(names[..|names| - 1]) + if RequestScoped(name) then [] else [name]
  }

  function LastMethod(hs: seq<Header>): Option<Bytes> {
    if hs == [] then None
    else
      var h := hs[|hs| - 1];
      if Lower(h.name) == MethodName() then Some(h.value) else LastMethod(hs[..|hs| - 1])
  }

  function HttpOf(hs: seq<Header>): HttpProfile {
    var names := RegularNames(hs);
    HttpProfile(names, |Comparable(names)|, AcceptLanguageName() in names,
                LastMethod(hs), multiset(names)[CookieName()], RefererName() in names)
  }

  lemma Distinctions()
    ensures CookieName() != RefererName() && CookieName() != AcceptLanguageName()
    ensures RefererName() != AcceptLanguageName()
    ensures IsPseudo(MethodName())
  {
    assert |CookieName()| == 6 && |RefererName()| == 7 && |AcceptLanguageName()| == 15;
  }

  lemma NamesTurn(headers: seq<Header>, i: nat)
    requires i < |headers|
    ensures var name, names := Lower(headers[i].name), RegularNames(headers[..i]);
      RegularNames(headers[..i + 1]) == if IsRegular(name) then names + [name] else names
    ensures LastMethod(headers[..i + 1]) ==
      if Lower(headers[i].name) == MethodName() then Some(headers[i].value) else LastMethod(headers[..i])
  {
    assert headers[..i + 1][..i] == headers[..i];
  }

  method FromHeaders(headers: seq<Header>) returns (p: HttpProfile)
    ensures p == HttpOf(headers)
  {
    Distinctions();
    var headerNames: seq<Bytes> := [];
    var cookieHeaderCount: nat := 0;
    var hasReferer := false;
    var hasAcceptLanguage := false;
    var method_: Option<Bytes> := None;
    for i := 0 to |headers|
      invariant headerNames == RegularNames(headers[..i])
      invariant cookieHeaderCount == multiset(headerNames)[CookieName()]
      invariant hasReferer <==> RefererName() in headerNames
      invariant hasAcceptLanguage <==> AcceptLanguageName() in headerNames
      invariant method_ == LastMethod(headers[..i])
    {
      var name, value := headers[i].name, headers[i].value;
      var lower := Lower(name);
      NamesTurn(headers, i);
      if IsPseudo(lower) {
        if lower == MethodName() {
          method_ := Some(value);
        }
        continue;
      }
      if OwnPrefix() <= lower {
        continue;
      }
      if lower == CookieName() {
        cookieHeaderCount := cookieHeaderCount + 1;
      } else if lower == RefererName() {
        hasReferer := true;
      } else if lower == AcceptLanguageName() {
        hasAcceptLanguage := true;
      }
      headerNames := headerNames + [lower];
    }
    assert headers[..|headers|] == headers;
    return HttpProfile(headerNames, |Comparable(headerNames)|, hasAcceptLanguage,
                       method_, cookieHeaderCount, hasReferer);
  }

  lemma {:induction false} NamesOfConcat(a: seq<Header>, b: seq<Header>)
    ensures RegularNames(a + b) == RegularNames(a) + RegularNames(b)
  {
    if b == [] {
      assert a + b == a;
    } else {
      LastOff(a, b);
      NamesOfConcat(a, b[..|b| - 1]);
    }
  }

  lemma {:induction false} ComparableOfConcat(a: seq<Bytes>, b: seq<Bytes>)
    ensures Comparable(a + b) == Comparable(a) + Comparable(b)
  {
    if b == [] {
      assert a + b == a;
    } else {
      LastOff(a, b);
      ComparableOfConcat(a, b[..|b| - 1]);
    }
  }

  /** Only header names enter the profile: values matter for the method pseudo-header alone. */
  lemma {:induction false} ValuesAreNotRead(a: seq<Header>, b: seq<Header>)
    requires |a| == |b|
    requires forall i :: 0 <= i < |a| ==> a[i].name == b[i].name
    requires forall i :: 0 <= i < |a| && Lower(a[i].name) == MethodName() ==> a[i].value == b[i].value
    ensures HttpOf(a) == HttpOf(b)
  {
    if a != [] {
      ValuesAreNotRead(a[..|a| - 1], b[..|b| - 1]);
    }
  }

  lemma NameAlone(h: Header)
    requires RequestScoped(Lower(h.name)) || OwnPrefix() <= Lower(h.name)
    ensures Comparable(RegularNames([h])) == []
    ensures AcceptLanguageName() !in RegularNames([h])
  {
    Distinctions();
    var name := Lower(h.name);
    assert [h][..0] == [];
    if IsRegular(name) {
      assert RegularNames([h]) == [name];
      assert RegularNames([h])[..0] == [];
    } else {
      assert RegularNames([h]) == [];
    }
  }

  /** A header the site caused, or one in this program's own namespace, can be added anywhere without changing what is
    * compared. */
  lemma {:induction false} AddedHeaderIsNotCompared(a: seq<Header>, h: Header, b: seq<Header>)
    requires RequestScoped(Lower(h.name)) || OwnPrefix() <= Lower(h.name)
    ensures var with, without := HttpOf(a + [h] + b), HttpOf(a + b);
      && Comparable(with.headerNames) == Comparable(without.headerNames)
      && with.headerCount == without.headerCount
      && with.hasAcceptLanguage == without.hasAcceptLanguage
  {
    NameAlone(h);
    NamesOfConcat(a, [h]);
    NamesOfConcat(a + [h], b);
    NamesOfConcat(a, b);
    MiddleIsNotCompared(RegularNames(a), RegularNames([h]), RegularNames(b));
  }

  lemma {:induction false} MiddleIsNotCompared(n: seq<Bytes>, x: seq<Bytes>, m: seq<Bytes>)
    requires Comparable(x) == []
    ensures Comparable(n + x + m) == Comparable(n + m)
  {
    ComparableOfConcat(n, x);
    ComparableOfConcat(n + x, m);
    ComparableOfConcat(n, m);
  }
}
