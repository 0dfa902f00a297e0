/** What the HTTP/2 fingerprint says, read off its text and off the octets it comes from. */
module H2Reading {
  import opened Bits
  import opened Results
  import opened Readers
  import opened Texts
  import opened NumeralReading
  import opened Lists
  import opened HuffmanCode
  import opened HeaderTables
  import opened HpackDecoder
  import opened H2Frames
  import opened H2Fields
  import opened HttpLayer
  import opened Akamai

  // ----- the Akamai string -----

  /** Cut at the semicolons, `s` is the identifier and the value of each setting, with a colon between them. */
  predicate ReadsAsSettings(s: Bytes, settings: seq<Setting>) {
    if settings == [] then s == []
    else
      var items := Split(s, ';' as int);
      && |items| == |settings|
      && forall i :: 0 <= i < |settings| ==> ReadsAs(items[i], ':' as int, [settings[i].id, settings[i].value])
  }

  /** Cut at the commas, `s` is the stream, the exclusive bit, the parent and the weight of each priority, with colons
    * between them; a zero when there is none. */
  predicate ReadsAsPriorities(s: Bytes, ps: seq<Priority>) {
    if ps == [] then s == ['0' as int]
    else
      var items := Split(s, ',' as int);
      && |items| == |ps|
      && forall i :: 0 <= i < |ps| ==>
           var bit := if ps[i].exclusive then 1 else 0;
           ReadsAs(items[i], ':' as int, [ps[i].streamId, bit, ps[i].dependsOn, ps[i].weight])
  }

  lemma {:induction false} SettingReads(s: Setting)
    ensures ReadsAs(RenderSetting(s), ':' as int, [s.id, s.value])
  {
    var parts := [Decimal(s.id), Decimal(s.value)];
    DecimalIsNumeral(s.id);
    DecimalIsNumeral(s.value);
    JoinedNumerals(parts, COLON, [s.id, s.value]);
    JoinStep(Decimal(s.id), [Decimal(s.value)], COLON);
    assert [Decimal(s.id)] + [Decimal(s.value)] == parts;
  }

  lemma {:induction false} SettingsRead(settings: seq<Setting>)
    ensures ReadsAsSettings(RenderSettings(settings), settings)
  {
    if settings != [] {
      var items := seq(|settings|, i requires 0 <= i < |settings| => RenderSetting(settings[i]));
      forall i | 0 <= i < |items|
        ensures SEMICOLON !in items[i] && ReadsAs(items[i], ':' as int, [settings[i].id, settings[i].value])
      {
        SettingLacks(settings[i], SEMICOLON);
        SettingReads(settings[i]);
      }
      SplitOfJoin(items, SEMICOLON);
    }
  }

  lemma {:induction false} PriorityReads(p: Priority)
    ensures var bit := if p.exclusive then 1 else 0;
      ReadsAs(RenderPriority(p), ':' as int, [p.streamId, bit, p.dependsOn, p.weight])
  {
    var bit := if p.exclusive then 1 else 0;
    DecimalIsNumeral(p.streamId);
    DecimalIsNumeral(bit);
    DecimalIsNumeral(p.dependsOn);
    DecimalIsNumeral(p.weight);
    JoinedNumerals(PriorityFields(p), COLON, [p.streamId, bit, p.dependsOn, p.weight]);
  }

  lemma {:induction false} PrioritiesRead(ps: seq<Priority>)
    ensures ReadsAsPriorities(RenderPriorities(ps), ps)
  {
    if ps != [] {
      var items := seq(|ps|, i requires 0 <= i < |ps| => RenderPriority(ps[i]));
      PrioritiesAreParts(ps);
      forall i | 0 <= i < |items|
        ensures var bit := if ps[i].exclusive then 1 else 0;
          ReadsAs(items[i], ':' as int, [ps[i].streamId, bit, ps[i].dependsOn, ps[i].weight])
      {
        PriorityReads(ps[i]);
      }
      SplitOfJoin(items, COMMA);
    }
  }

  /** The Akamai string of any preamble, cut at the bars: the settings, the increment or zero, the priorities and the
    * order of the pseudo-headers. */
  lemma {:induction false} AkamaiReads(tb: Tables, raw: Bytes)
    requires InRange(tb.huffman) && FingerprintOf(tb, raw).Ok?
    ensures var o := FingerprintOf(tb, raw).value;
      var parts := Split(o.akamai, '|' as int);
      && |parts| == 4
      && ReadsAsSettings(parts[0], o.settings)
      && IsNumeral(parts[1], if o.windowUpdate.Some? then o.windowUpdate.value else 0)
      && ReadsAsPriorities(parts[2], o.priorities)
      && parts[3] == o.pseudoOrder
  {
    var o := FingerprintOf(tb, raw).value;
    OrderLacksBar(o.headers);
    AkamaiSplits(o.settings, o.windowUpdate, o.priorities, o.pseudoOrder);
    SettingsRead(o.settings);
    DecimalIsNumeral(UnwrapOr(o.windowUpdate, 0));
    PrioritiesRead(o.priorities);
  }

  // ----- the order of the pseudo-headers -----

  /** The names that have a letter in the order. */
  function Ordered(h: Header): bool {
    h.name in {Ascii(":method"), Ascii(":authority"), Ascii(":scheme"), Ascii(":path")}
  }

  /** `part` is the letter of this name. */
  predicate IsLetterOf(part: Bytes, name: Bytes) {
    && (name == Ascii(":method") ==> part == ['m' as int])
    && (name == Ascii(":authority") ==> part == ['a' as int])
    && (name == Ascii(":scheme") ==> part == ['s' as int])
    && (name == Ascii(":path") ==> part == ['p' as int])
  }

  predicate AreLettersOf(parts: seq<Bytes>, hs: seq<Header>) {
    |parts| == |hs| && forall i :: 0 <= i < |hs| ==> IsLetterOf(parts[i], hs[i].name)
  }

  lemma {:induction false} FourNames()
    ensures Ascii(":method") != Ascii(":authority") && Ascii(":method") != Ascii(":scheme")
    ensures Ascii(":method") != Ascii(":path") && Ascii(":authority") != Ascii(":scheme")
    ensures Ascii(":authority") != Ascii(":path") && Ascii(":scheme") != Ascii(":path")
  {
    assert Ascii(":method")[1] == 'm' as int && Ascii(":authority")[1] == 'a' as int;
    assert Ascii(":scheme")[1] == 's' as int && Ascii(":path")[1] == 'p' as int;
  }

  lemma {:induction false} OneLetter(h: Header)
    ensures AreLettersOf(LetterOf(h.name), if Ordered(h) then [h] else [])
  {
    FourNames();
  }

  lemma {:induction false} LettersAreInOrder(hs: seq<Header>)
    ensures AreLettersOf(Letters(hs), Filter(hs, Ordered))
  {
    if hs != [] {
      var init, h := hs[..|hs| - 1], hs[|hs| - 1];
      LettersAreInOrder(init);
      OneLetter(h);
      LettersOfConcat(init, [h]);
      assert hs == init + [h] && [h][1..] == [];
      assert Letters([h]) == LetterOf(h.name) + [];
    }
  }

  /** Cut at the commas, the order is a letter for each of the four pseudo-headers, as often and in the order in which
    * they were sent. */
  lemma {:induction false} OrderReads(hs: seq<Header>)
    ensures var sent := Filter(hs, Ordered);
      if sent == [] then PseudoOrder(hs) == [] else AreLettersOf(Split(PseudoOrder(hs), ',' as int), sent)
  {
    LettersAreInOrder(hs);
    if Filter(hs, Ordered) != [] {
      forall i | 0 <= i < |Letters(hs)|
        ensures COMMA !in Letters(hs)[i]
      {
        assert IsLetter(Letters(hs)[i]);
      }
      SplitOfJoin(Letters(hs), COMMA);
    }
  }

  // ----- the other headers -----

  const COOKIE := Ascii("cookie")
  const REFERER := Ascii("referer")
  const ACCEPT_LANGUAGE := Ascii("accept-language")
  const METHOD := Ascii(":method")
  const OWN_PREFIX := Ascii("x-fp-")

  function LowerName(h: Header): Bytes {
    Lower(h.name)
  }

  function Regular(h: Header): bool {
    var name := Lower(h.name);
    !([':' as int] <= name) && !(OWN_PREFIX <= name)
  }

  function NotOfSite(name: Bytes): bool {
    name != COOKIE && name != REFERER
  }

  function IsCookie(name: Bytes): bool {
    name == COOKIE
  }

  lemma {:induction false} NamesReads(hs: seq<Header>)
    ensures RegularNames(hs) == Map(Filter(hs, Regular), LowerName)
  {
    if hs != [] {
      NamesReads(hs[..|hs| - 1]);
    }
  }

  lemma {:induction false} ComparableReads(names: seq<Bytes>)
    ensures Comparable(names) == Filter(names, NotOfSite)
  {
    if names != [] {
      ComparableReads(names[..|names| - 1]);
    }
  }

  lemma {:induction false} CookiesCounted(names: seq<Bytes>)
    ensures multiset(names)[COOKIE] == |Filter(names, IsCookie)|
  {
    if names != [] {
      var init, last := names[..|names| - 1], names[|names| - 1];
      CookiesCounted(init);
      assert names == init + [last];
    }
  }

  /** `v` is the value of the last header named `name` in lower case. */
  ghost predicate IsLast(hs: seq<Header>, name: Bytes, v: Bytes) {
    exists i :: 0 <= i < |hs| && Lower(hs[i].name) == name && hs[i].value == v
      && forall j :: i < j < |hs| ==> Lower(hs[j].name) != name
  }

  lemma {:induction false} LastMethodReads(hs: seq<Header>)
    ensures match LastMethod(hs)
      case None => forall h :: h in hs ==> Lower(h.name) != METHOD
      case Some(v) => IsLast(hs, METHOD, v)
  {
    if hs != [] {
      var init, h := hs[..|hs| - 1], hs[|hs| - 1];
      LastMethodReads(init);
      if Lower(h.name) == METHOD {
        assert hs[|hs| - 1].value == h.value;
      } else if LastMethod(init).Some? {
        var i :| 0 <= i < |init| && Lower(init[i].name) == METHOD && init[i].value == LastMethod(init).value
          && forall j :: i < j < |init| ==> Lower(init[j].name) != METHOD;
        assert hs[i] == init[i];
      }
    }
  }

  /** What is said of the headers that are not pseudo-headers, and of the method, is what was sent: the names in order
    * and in lower case, less those that start with x-fp-, how many there are that the site did not cause, the cookies,
    * and whether there is a referer and an accepted language. */
  lemma {:induction false} HttpReads(hs: seq<Header>)
    ensures var p := HttpOf(hs);
      && p.headerNames == Map(Filter(hs, Regular), LowerName)
      && p.headerCount == |Filter(p.headerNames, NotOfSite)|
      && p.cookieHeaderCount == |Filter(p.headerNames, IsCookie)|
      && (p.hasReferer <==> REFERER in p.headerNames)
      && (p.hasAcceptLanguage <==> ACCEPT_LANGUAGE in p.headerNames)
      && match p.method_
         case None => forall h :: h in hs ==> Lower(h.name) != METHOD
         case Some(v) => IsLast(hs, METHOD, v)
  {
    NamesReads(hs);
    ComparableReads(RegularNames(hs));
    CookiesCounted(RegularNames(hs));
    LastMethodReads(hs);
  }

  // ----- from the octets -----

  /** Four octets, most significant first, less the top bit. */
  function Low31Of(s: Bytes, at: nat): nat
    requires at + 4 <= |s|
  {
    0x100_0000 * (s[at] as int % 0x80) + 0x1_0000 * (s[at + 1] as int) + 0x100 * (s[at + 2] as int) + s[at + 3]
  }

  lemma {:induction false} Low31Reads(s: Bytes)
    requires |s| >= 4
    ensures Low31(s) == Low31Of(s, 0)
  {
    BigEndianOfFew(s[..4]);
    DivModUnique(BigEndian(s[..4]), RESERVED_BIT, s[0] / 0x80, Low31Of(s, 0));
  }

  /** A frame: three octets of length, the kind, the flags, and the stream less the reserved bit, then the payload. */
  lemma {:induction false} FrameReads(buf: Bytes)
    requires |buf| >= 9
    ensures var end := 9 + 0x1_0000 * (buf[0] as int) + 0x100 * (buf[1] as int) + buf[2];
      FrameAt(buf) == if end > |buf| then None else Some(Frame(buf[3], buf[4], Low31Of(buf, 5), buf[9..end]))
  {
    BigEndianOfFew(buf[..3]);
    Low31Reads(buf[5..9]);
    assert buf[5..9][..4] == buf[5..9];
  }

  lemma {:induction false} PairsRead(payload: Bytes, i: nat)
    requires |payload| % 6 == 0 && 6 * i < |payload|
    ensures PairsOf(payload)[i].id == 0x100 * (payload[6 * i] as int) + payload[6 * i + 1]
    ensures PairsOf(payload)[i].value ==
      0x100_0000 * (payload[6 * i + 2] as int) + 0x1_0000 * (payload[6 * i + 3] as int)
      + 0x100 * (payload[6 * i + 4] as int) + payload[6 * i + 5]
  {
    if i == 0 {
      BigEndianOfFew(payload[..6][..2]);
      BigEndianOfFew(payload[..6][2..]);
    } else {
      PairsRead(payload[6..], i - 1);
    }
  }

  /** A frame of kind 2 and at least five octets is a priority: the exclusive bit, the parent below it, and the weight
    * less one. */
  lemma {:induction false} PriorityFrameReads(f: Frame)
    ensures var p := f.payload;
      Priorities([f]) ==
        if f.kind == 2 && |p| >= 5 then [Priority(f.streamId, p[0] >= 0x80, Low31Of(p, 0), p[4] as int + 1)] else []
  {
    assert [f][1..] == [];
    if f.kind == 2 && |f.payload| >= 5 {
      Low31Reads(f.payload);
    }
  }

  lemma {:induction false} PrioritiesOfConcat(a: seq<Frame>, b: seq<Frame>)
    ensures Priorities(a + b) == Priorities(a) + Priorities(b)
  {
    if a == [] {
      assert a + b == b;
    } else {
      assert (a + b)[1..] == a[1..] + b;
      PrioritiesOfConcat(a[1..], b);
    }
  }

  /** The increment is that of the first frame of kind 8, if it has four octets. */
  lemma {:induction false} WindowReads(a: seq<Frame>, f: Frame, b: seq<Frame>)
    requires f.kind == 8 && forall g :: g in a ==> g.kind != 8
    ensures WindowUpdate(a + [f] + b) == if |f.payload| >= 4 then Some(Low31Of(f.payload, 0)) else None
  {
    FirstIsFound(a, f, b);
    if |f.payload| >= 4 {
      Low31Reads(f.payload);
    }
  }

  lemma {:induction false} FirstIsFound(a: seq<Frame>, f: Frame, b: seq<Frame>)
    requires forall g :: g in a ==> g.kind != f.kind
    ensures FirstOfKind(a + [f] + b, f.kind) == Some(f)
  {
    if a != [] {
      assert (a + [f] + b)[1..] == a[1..] + [f] + b;
      FirstIsFound(a[1..], f, b);
    }
  }
}
