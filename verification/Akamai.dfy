/** The Akamai HTTP/2 fingerprint: what a preamble says about its sender, and its rendering as one string. */
module Akamai {
  import opened Bits
  import opened Results
  import opened HuffmanCode
  import opened Texts
  import opened HeaderTables
  import opened HpackDecoder
  import opened H2Frames
  import opened H2Fields
  import opened HttpLayer

  // ----- rendering -----

  function RenderSetting(s: Setting): Bytes {
    Decimal(s.id) + [COLON] + Decimal(s.value)
  }

  function RenderSettings(pairs: seq<Setting>): Bytes {
    Join(seq(|pairs|, i requires 0 <= i < |pairs| => RenderSetting(pairs[i])), SEMICOLON)
  }

  function RenderPriority(p: Priority): Bytes {
    Join(PriorityFields(p), COLON)
  }

  function PriorityFields(p: Priority): (r: seq<Bytes>)
    ensures |r| == 4 && r[2] == Decimal(p.dependsOn) && r[3] == Decimal(p.weight)
  {
    [Decimal(p.streamId), Decimal(if p.exclusive then 1 else 0), Decimal(p.dependsOn), Decimal(p.weight)]
  }

  /** A lone zero when there are none. */
  function RenderPriorities(ps: seq<Priority>): Bytes {
    if ps == [] then Decimal(0)
    else Join(seq(|ps|, i requires 0 <= i < |ps| => RenderPriority(ps[i])), COMMA)
  }

  function UnwrapOr(o: Option<u32>, default: u32): u32 {
    if o.Some? then o.value else default
  }

  function RenderAkamai(settings: seq<Setting>, windowUpdate: Option<u32>, priorities: seq<Priority>,
                        pseudoOrder: Bytes): Bytes {
    Join([RenderSettings(settings), Decimal(UnwrapOr(windowUpdate, 0)), RenderPriorities(priorities), pseudoOrder], BAR)
  }

  // ----- rendering loses nothing -----

  lemma {:induction false} DecimalLacks(n: nat, c: u8)
    requires !IsDigit(c)
    ensures c !in Decimal(n)
  {
  }

  lemma SettingInjective(a: Setting, b: Setting)
    requires RenderSetting(a) == RenderSetting(b)
    ensures a == b
  {
    DecimalLacks(a.id, COLON);
    DecimalLacks(b.id, COLON);
    BeforeSeparator(Decimal(a.id), COLON, Decimal(a.value));
    BeforeSeparator(Decimal(b.id), COLON, Decimal(b.value));
    var n := |Decimal(a.id)| + 1;
    assert RenderSetting(a)[n..] == Decimal(a.value) && RenderSetting(b)[n..] == Decimal(b.value);
    DecimalInjective(a.id, b.id);
    DecimalInjective(a.value, b.value);
  }

  lemma SettingLacks(s: Setting, c: u8)
    requires !IsDigit(c) && c != COLON
    ensures c !in RenderSetting(s)
  {
    DecimalLacks(s.id, c);
    DecimalLacks(s.value, c);
  }

  /** Two settings lists render alike only when they are the same list. */
  lemma SettingsInjective(a: seq<Setting>, b: seq<Setting>)
    requires RenderSettings(a) == RenderSettings(b)
    ensures a == b
  {
    var p := seq(|a|, i requires 0 <= i < |a| => RenderSetting(a[i]));
    var q := seq(|b|, i requires 0 <= i < |b| => RenderSetting(b[i]));
    forall i | 0 <= i < |a|
      ensures SEMICOLON !in p[i]
    {
      SettingLacks(a[i], SEMICOLON);
    }
    forall i | 0 <= i < |b|
      ensures SEMICOLON !in q[i]
    {
      SettingLacks(b[i], SEMICOLON);
    }
    JoinInjective(p, q, SEMICOLON);
    forall i | 0 <= i < |a|
      ensures a[i] == b[i]
    {
      assert p[i] == q[i];
      SettingInjective(a[i], b[i]);
    }
  }

  lemma SettingsLack(pairs: seq<Setting>, c: u8)
    requires !IsDigit(c) && c != COLON && c != SEMICOLON
    ensures c !in RenderSettings(pairs)
  {
    var p := seq(|pairs|, i requires 0 <= i < |pairs| => RenderSetting(pairs[i]));
    forall i | 0 <= i < |pairs|
      ensures c !in p[i]
    {
      SettingLacks(pairs[i], c);
    }
    JoinLacks(p, SEMICOLON, c);
  }

  lemma PriorityLacks(p: Priority, c: u8)
    requires !IsDigit(c)
    ensures c != COLON ==> c !in RenderPriority(p)
    ensures forall i :: 0 <= i < 4 ==> c !in PriorityFields(p)[i]
  {
    if c != COLON {
      JoinLacks(PriorityFields(p), COLON, c);
    }
  }

  lemma PriorityInjective(a: Priority, b: Priority)
    requires RenderPriority(a) == RenderPriority(b)
    ensures a == b
  {
    var f, g := PriorityFields(a), PriorityFields(b);
    PriorityLacks(a, COLON);
    PriorityLacks(b, COLON);
    JoinInjective(f, g, COLON);
    assert f[0] == g[0] && f[1] == g[1];
    DecimalInjective(a.streamId, b.streamId);
    DecimalInjective(if a.exclusive then 1 else 0, if b.exclusive then 1 else 0);
    DecimalInjective(a.dependsOn, b.dependsOn);
    DecimalInjective(a.weight, b.weight);
  }

  /** A rendered priority holds a colon, so no list of priorities renders as the lone zero. */
  lemma PriorityHasColon(ps: seq<Priority>)
    ensures COLON in RenderPriorities(ps) <==> ps != []
  {
    if ps == [] {
      DecimalLacks(0, COLON);
    } else {
      var f := PriorityFields(ps[0]);
      assert (f[0] + [COLON] + Join(f[1..], COLON))[|f[0]|] == COLON;
      assert COLON in RenderPriority(ps[0]);
      var parts := seq(|ps|, i requires 0 <= i < |ps| => RenderPriority(ps[i]));
      assert parts[0] <= Join(parts, COMMA);
    }
  }

  lemma PrioritiesInjective(a: seq<Priority>, b: seq<Priority>)
    requires RenderPriorities(a) == RenderPriorities(b)
    ensures a == b
  {
    PriorityHasColon(a);
    PriorityHasColon(b);
    if a != [] {
      var p := seq(|a|, i requires 0 <= i < |a| => RenderPriority(a[i]));
      var q := seq(|b|, i requires 0 <= i < |b| => RenderPriority(b[i]));
      PrioritiesAreParts(a);
      PrioritiesAreParts(b);
      JoinInjective(p, q, COMMA);
      forall i | 0 <= i < |a|
        ensures a[i] == b[i]
      {
        assert p[i] == q[i];
        PriorityInjective(a[i], b[i]);
      }
    }
  }

  lemma PrioritiesAreParts(ps: seq<Priority>)
    ensures forall i :: 0 <= i < |ps| ==> COMMA !in RenderPriority(ps[i]) && RenderPriority(ps[i]) != []
  {
    forall i | 0 <= i < |ps|
      ensures COMMA !in RenderPriority(ps[i]) && RenderPriority(ps[i]) != []
    {
      PriorityLacks(ps[i], COMMA);
    }
  }

  lemma PrioritiesLack(ps: seq<Priority>, c: u8)
    requires !IsDigit(c) && c != COLON && c != COMMA
    ensures c !in RenderPriorities(ps)
  {
    if ps == [] {
      DecimalLacks(0, c);
    } else {
      var p := seq(|ps|, i requires 0 <= i < |ps| => RenderPriority(ps[i]));
      forall i | 0 <= i < |ps|
        ensures c !in p[i]
      {
        PriorityLacks(ps[i], c);
      }
      JoinLacks(p, COMMA, c);
    }
  }

  /** The rendering is injective up to an absent increment reading as zero: two fingerprints have the same string
    * exactly when settings, increment, priorities and pseudo-header order all agree. */
  lemma AkamaiInjective(s: seq<Setting>, w: Option<u32>, p: seq<Priority>, o: Bytes,
                        s': seq<Setting>, w': Option<u32>, p': seq<Priority>, o': Bytes)
    requires BAR !in o && BAR !in o'
    ensures RenderAkamai(s, w, p, o) == RenderAkamai(s', w', p', o') <==>
      s == s' && UnwrapOr(w, 0) == UnwrapOr(w', 0) && p == p' && o == o'
  {
    if RenderAkamai(s, w, p, o) == RenderAkamai(s', w', p', o') {
      var a := [RenderSettings(s), Decimal(UnwrapOr(w, 0)), RenderPriorities(p), o];
      var b := [RenderSettings(s'), Decimal(UnwrapOr(w', 0)), RenderPriorities(p'), o'];
      AkamaiSplits(s, w, p, o);
      AkamaiSplits(s', w', p', o');
      assert a == b;
      assert a[0] == b[0] && a[1] == b[1] && a[2] == b[2] && a[3] == b[3];
      SettingsInjective(s, s');
      DecimalInjective(UnwrapOr(w, 0), UnwrapOr(w', 0));
      PrioritiesInjective(p, p');
    }
  }

  lemma AkamaiSplits(s: seq<Setting>, w: Option<u32>, p: seq<Priority>, o: Bytes)
    requires BAR !in o
    ensures Split(RenderAkamai(s, w, p, o), BAR) ==
      [RenderSettings(s), Decimal(UnwrapOr(w, 0)), RenderPriorities(p), o]
  {
    SettingsLack(s, BAR);
    DecimalLacks(UnwrapOr(w, 0), BAR);
    PrioritiesLack(p, BAR);
    SplitOfJoin([RenderSettings(s), Decimal(UnwrapOr(w, 0)), RenderPriorities(p), o], BAR);
  }

  lemma OrderLacksBar(hs: seq<Header>)
    ensures BAR !in PseudoOrder(hs)
  {
    forall i | 0 <= i < |Letters(hs)|
      ensures BAR !in Letters(hs)[i]
    {
      assert IsLetter(Letters(hs)[i]);
    }
    JoinLacks(Letters(hs), COMMA, BAR);
  }

  // ----- the fingerprint -----

  datatype H2Fingerprint = H2Fingerprint(
    settings: seq<Setting>, windowUpdate: Option<u32>, priorities: seq<Priority>,
    pseudoOrder: Bytes, headers: seq<Header>, akamai: Bytes, http: HttpProfile)

  /** The headers of a HEADERS frame; none when the block is unfinished or malformed. */
  ghost function HeadersIn(tb: Tables, f: Frame): seq<Header>
    requires InRange(tb.huffman)
  {
    if !HasFlag(f.flags, FLAG_END_HEADERS) then []
    else
      match DecodeBlock(tb, Fragment(f))
      case Ok(hs) => hs
      case Err(_) => []
  }

  ghost function HeadersOf(tb: Tables, frames: seq<Frame>): seq<Header>
    requires InRange(tb.huffman)
  {
    match FirstOfKind(frames, FRAME_HEADERS)
    case Some(f) => HeadersIn(tb, f)
    case None => []
  }

  function Assembled(settings: seq<Setting>, windowUpdate: Option<u32>, priorities: seq<Priority>,
                     headers: seq<Header>): H2Fingerprint {
    var order := PseudoOrder(headers);
    H2Fingerprint(settings, windowUpdate, priorities, order, headers,
                  RenderAkamai(settings, windowUpdate, priorities, order), HttpOf(headers))
  }

  ghost function FingerprintOf(tb: Tables, raw: Bytes): Result<H2Fingerprint, H2Error>
    requires InRange(tb.huffman)
  {
    match PreambleFrames(raw)
    case Err(e) => Err(e)
    case Ok(frames) =>
      Ok(Assembled(SettingsOf(frames), WindowUpdate(frames), Priorities(frames), HeadersOf(tb, frames)))
  }

  method DecodeHeaders(tb: Tables, f: Frame) returns (hs: seq<Header>)
    requires IsCode(tb.huffman)
    ensures hs == HeadersIn(tb, f)
  {
    if !HasFlag(f.flags, FLAG_END_HEADERS) {
      // A CONTINUATION frame follows, and it is not here.
      return [];
    }
    var fragment := HeaderBlockFragment(f);
    var r := HpackDecoder.Decode(tb, fragment);
    match r
    case Ok(decoded) => hs := decoded;
    case Err(_) => hs := [];
  }

  method Fingerprint(tb: Tables, raw: Bytes) returns (r: Result<H2Fingerprint, H2Error>)
    requires IsCode(tb.huffman)
    ensures r == FingerprintOf(tb, raw)
  {
    var frames :- ParsePreamble(raw);
    var headers: seq<Header> := [];
    var first := FirstOfKind(frames, FRAME_HEADERS);
    if first.Some? {
      headers := DecodeHeaders(tb, first.value);
    }
    var settings := SettingsPairs(frames);
    var windowUpdate := WindowUpdate(frames);
    var priorities := Priorities(frames);
    var order := PseudoOrder(headers);
    var http := FromHeaders(headers);
    return Ok(H2Fingerprint(settings, windowUpdate, priorities, order, headers,
                            RenderAkamai(settings, windowUpdate, priorities, order), http));
  }
}
