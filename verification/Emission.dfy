/** Emitting the preamble of a profile. Read back by the parser that reads real clients, it gives the profile. */
module Emission {
  import opened Sequences
  import opened Bits
  import opened Results
  import opened HuffmanCode
  import opened Texts
  import opened Readers
  import opened HeaderTables
  import opened HpackDecoder
  import opened HpackEncoder
  import opened H2Frames
  import opened H2Fields
  import opened HttpLayer
  import opened Akamai
  import opened Profiles

  const END_FLAGS: u8 := FLAG_END_STREAM + FLAG_END_HEADERS

  datatype EmulateError = NoHttp2

  // ----- the header list -----

  /** The pseudo-header a letter stands for; anything else is dropped. */
  function PseudoHeader(letter: Bytes, authority: Bytes, scheme: Bytes, path: Bytes): seq<Header> {
    if letter == LETTER_M then [Header(MethodName(), Ascii("GET"))]
    else if letter == LETTER_A then [Header(AuthorityName(), authority)]
    else if letter == LETTER_S then [Header(SchemeName(), scheme)]
    else if letter == LETTER_P then [Header(PathName(), path)]
    else []
  }

  function PseudoList(parts: seq<Bytes>, authority: Bytes, scheme: Bytes, path: Bytes): seq<Header> {
    if parts == [] then []
    else PseudoHeader(Trim(parts[0]), authority, scheme, path) + PseudoList(parts[1..], authority, scheme, path)
  }

  /** The pseudo-headers in the order the profile recorded. */
  function PseudoHeaders(order: Bytes, authority: Bytes, scheme: Bytes, path: Bytes): seq<Header> {
    PseudoList(Split(order, COMMA), authority, scheme, path)
  }

  /** The value given for a name, whatever its case; empty when there is none. */
  function ValueFor(name: Bytes, values: seq<Header>): Bytes {
    if values == [] then []
    else if Lower(values[0].name) == Lower(name) then values[0].value
    else ValueFor(name, values[1..])
  }

  function RegularHeaders(names: seq<Bytes>, values: seq<Header>): (r: seq<Header>)
    ensures |r| == |names| && forall i :: 0 <= i < |r| ==> r[i].name == names[i]
  {
    seq(|names|, i requires 0 <= i < |names| => Header(names[i], ValueFor(names[i], values)))
  }

  function NamesIn(p: Profile): seq<Bytes> {
    if p.http.Some? then p.http.value.headerNames else []
  }

  function HeaderList(p: Profile, authority: Bytes, values: seq<Header>): seq<Header>
    requires p.h2.Some?
  {
    PseudoHeaders(p.h2.value.pseudoOrder, authority, Ascii("https"), Ascii("/")) + RegularHeaders(NamesIn(p), values)
  }

  // ----- the preamble -----

  function SettingOctets(s: Setting): Bytes {
    Octets(s.id, 2) + Octets(s.value, 4)
  }

  function PairOctets(settings: seq<Setting>): (r: Bytes)
    ensures |r| == 6 * |settings|
  {
    if settings == [] then [] else SettingOctets(settings[0]) + PairOctets(settings[1..])
  }

  function SettingsFrame(h: H2Profile): Frame {
    Frame(FRAME_SETTINGS, 0, 0, PairOctets(h.settings))
  }

  function WindowFrames(increment: Option<u32>): seq<Frame> {
    match increment
    case None => []
    case Some(n) => [Frame(FRAME_WINDOW_UPDATE, 0, 0, Octets(n % RESERVED_BIT, 4))]
  }

  function HeadersFrame(block: Bytes): Frame {
    Frame(FRAME_HEADERS, END_FLAGS, 1, block)
  }

  function PreambleFramesOf(h: H2Profile, block: Bytes): seq<Frame> {
    [SettingsFrame(h)] + WindowFrames(h.windowUpdate) + [HeadersFrame(block)]
  }

  ghost function Emitted(tb: Tables, p: Profile, authority: Bytes, values: seq<Header>): Bytes
    requires InRange(tb.huffman) && p.h2.Some?
  {
    Preface() + AllOctets(PreambleFramesOf(p.h2.value, HeaderBlock(tb, HeaderList(p, authority, values))))
  }

  method PreambleWithValues(tb: Tables, p: Profile, authority: Bytes, values: seq<Header>)
    returns (r: Result<Bytes, EmulateError>)
    requires InRange(tb.huffman)
    ensures r == if p.h2.None? then Err(NoHttp2) else Ok(Emitted(tb, p, authority, values))
  {
    if p.h2.None? {
      return Err(NoHttp2);
    }
    var h := p.h2.value;
    var out := EmitControl(h);
    var headers := PseudoHeaders(h.pseudoOrder, authority, Ascii("https"), Ascii("/"));
    headers := headers + RegularHeaders(NamesIn(p), values);
    var block := EncodeHeaders(tb, headers);
    var frame := EmitFrame(FRAME_HEADERS, END_FLAGS, 1, block);
    ConcatenatedFrames(h, block);
    Associate(Preface(), ControlOctets(h), frame);
    out := out + frame;
    return Ok(out);
  }

  /** The SETTINGS frame and the WINDOW_UPDATE frame, if there is one. */
  function ControlOctets(h: H2Profile): Bytes {
    FrameOctets(SettingsFrame(h)) + if h.windowUpdate.Some? then FrameOctets(WindowFrames(h.windowUpdate)[0]) else []
  }

  method EmitControl(h: H2Profile) returns (out: Bytes)
    ensures out == Preface() + ControlOctets(h)
  {
    out := Preface();
    var settings := EmitSettings(h.settings);
    var frame := EmitFrame(FRAME_SETTINGS, 0, 0, settings);
    out := out + frame;
    if h.windowUpdate.Some? {
      LowWord(h.windowUpdate.value % RESERVED_BIT);
      var update := EmitFrame(FRAME_WINDOW_UPDATE, 0, 0, ToBeBytes(h.windowUpdate.value % RESERVED_BIT));
      Associate(Preface(), frame, update);
      out := out + update;
    } else {
      assert frame + [] == frame;
    }
  }

  lemma SettingWritten(s: Setting)
    ensures [s.id / 0x100, s.id % 0x100] + ToBeBytes(s.value) == SettingOctets(s)
  {
    LowOctets(s.id);
    LowWord(s.value);
  }

  lemma {:induction false} SettingsTurn(pairs: seq<Setting>, i: nat, out: Bytes, id: Bytes, value: Bytes)
    requires i < |pairs| && id + value == SettingOctets(pairs[i])
    ensures (out + id) + value + PairOctets(pairs[i + 1..]) == out + PairOctets(pairs[i..])
  {
    assert pairs[i..][1..] == pairs[i + 1..];
    Associate(out, id, value);
    Associate(out, SettingOctets(pairs[i]), PairOctets(pairs[i + 1..]));
  }

  method EmitSettings(pairs: seq<Setting>) returns (settings: Bytes)
    ensures settings == PairOctets(pairs)
  {
    settings := [];
    for i := 0 to |pairs|
      invariant settings + PairOctets(pairs[i..]) == PairOctets(pairs)
    {
      SettingWritten(pairs[i]);
      var id, value: Bytes := [pairs[i].id / 0x100, pairs[i].id % 0x100], ToBeBytes(pairs[i].value);
      SettingsTurn(pairs, i, settings, id, value);
      settings := settings + id;
      settings := settings + value;
    }
    assert settings + [] == settings;
  }

  lemma {:induction false} AllOctetsStep(f: Frame, others: seq<Frame>)
    ensures AllOctets([f] + others) == FrameOctets(f) + AllOctets(others)
  {
    assert ([f] + others)[1..] == others;
  }

  lemma ConcatenatedFrames(h: H2Profile, block: Bytes)
    ensures AllOctets(PreambleFramesOf(h, block)) == ControlOctets(h) + FrameOctets(HeadersFrame(block))
  {
    var s, l := SettingsFrame(h), HeadersFrame(block);
    AllOctetsStep(l, []);
    assert [l] + [] == [l] && FrameOctets(l) + AllOctets([]) == FrameOctets(l);
    if h.windowUpdate.Some? {
      var w := WindowFrames(h.windowUpdate)[0];
      AllOctetsStep(w, [l]);
      AllOctetsStep(s, [w] + [l]);
      assert PreambleFramesOf(h, block) == [s] + ([w] + [l]);
      Associate(FrameOctets(s), FrameOctets(w), FrameOctets(l));
    } else {
      AllOctetsStep(s, [l]);
      assert PreambleFramesOf(h, block) == [s] + [l] && ControlOctets(h) == FrameOctets(s);
    }
  }

  // ----- read back -----

  lemma SettingReadBack(s: Setting)
    ensures SettingOf(SettingOctets(s)) == s
  {
    Pow256Values();
    BigEndianOfOctets(s.id, 2);
    BigEndianOfOctets(s.value, 4);
    var c := SettingOctets(s);
    assert c[..2] == Octets(s.id, 2) && c[2..] == Octets(s.value, 4);
  }

  lemma {:induction false} FirstPair(c: Bytes, rest: Bytes)
    requires |c| == 6 && |rest| % 6 == 0
    ensures PairsOf(c + rest) == [SettingOf(c)] + PairsOf(rest)
  {
    assert (c + rest)[..6] == c && (c + rest)[6..] == rest;
  }

  /** Settings are read back in wire order. */
  lemma {:induction false} SettingsReadBack(settings: seq<Setting>)
    ensures PairsOf(PairOctets(settings)) == settings
  {
    if settings != [] {
      SettingReadBack(settings[0]);
      FirstPair(SettingOctets(settings[0]), PairOctets(settings[1..]));
      SettingsReadBack(settings[1..]);
    }
  }

  /** The bytes of a preamble are read back as its frames, whatever follows, when both payloads fit the length field. */
  lemma FramesRoundTrip(h: H2Profile, block: Bytes, rest: Bytes)
    requires 6 * |h.settings| < FRAME_LIMIT && |block| < FRAME_LIMIT
    ensures PreambleFrames(Preface() + AllOctets(PreambleFramesOf(h, block)) + rest) == Ok(PreambleFramesOf(h, block))
  {
    var fs := PreambleFramesOf(h, block);
    FramesReadBack(fs, rest);
    BehindPreface(AllOctets(fs), rest);
  }

  lemma {:induction false} BehindPreface(octets: Bytes, rest: Bytes)
    ensures PreambleFrames(Preface() + octets + rest) == FramesFrom(octets + rest)
  {
    var raw := Preface() + octets + rest;
    assert raw[..24] == Preface() && raw[24..] == octets + rest;
  }

  function Masked31(increment: Option<u32>): Option<u32> {
    match increment
    case None => None
    case Some(n) => Some(n % RESERVED_BIT)
  }

  lemma {:induction false} IncrementReadBack(n: u32)
    requires n < RESERVED_BIT
    ensures BigEndian(Octets(n, 4)[..4]) == n
  {
    Pow256Values();
    BigEndianOfOctets(n, 4);
    assert Octets(n, 4)[..4] == Octets(n, 4);
  }

  lemma {:induction false} NoWindow(s: Frame, l: Frame)
    requires s.kind == FRAME_SETTINGS && l.kind == FRAME_HEADERS
    ensures WindowUpdate([s, l]) == None
  {
    assert [s, l][1..] == [l] && [l][1..] == [];
  }

  lemma {:induction false} WindowReadBack(h: H2Profile, block: Bytes)
    ensures WindowUpdate(PreambleFramesOf(h, block)) == Masked31(h.windowUpdate)
  {
    var fs := PreambleFramesOf(h, block);
    if h.windowUpdate.Some? {
      IncrementReadBack(h.windowUpdate.value % RESERVED_BIT);
      assert fs[1..][0] == WindowFrames(h.windowUpdate)[0];
    } else {
      NoWindow(SettingsFrame(h), HeadersFrame(block));
      assert fs == [SettingsFrame(h), HeadersFrame(block)];
    }
  }

  lemma {:induction false} NoSettings(frames: seq<Frame>)
    requires forall f :: f in frames ==> f.kind != FRAME_SETTINGS
    ensures SettingsOf(frames) == []
  {
    if frames != [] {
      NoSettings(frames[1..]);
    }
  }

  lemma {:induction false} SettingsFirst(f: Frame, others: seq<Frame>)
    requires forall g :: g in others ==> g.kind != FRAME_SETTINGS
    ensures SettingsOf([f] + others) == PairsIn(f)
  {
    NoSettings(others);
    assert ([f] + others)[1..] == others;
    assert PairsIn(f) + [] == PairsIn(f);
  }

  lemma PairsInSettings(h: H2Profile)
    ensures PairsIn(SettingsFrame(h)) == h.settings
  {
    SettingsReadBack(h.settings);
  }

  lemma SettingsOfEmitted(h: H2Profile, block: Bytes)
    ensures SettingsOf(PreambleFramesOf(h, block)) == h.settings
  {
    var others := WindowFrames(h.windowUpdate) + [HeadersFrame(block)];
    assert PreambleFramesOf(h, block) == [SettingsFrame(h)] + others;
    SettingsFirst(SettingsFrame(h), others);
    PairsInSettings(h);
  }

  lemma OthersOfEmitted(h: H2Profile, block: Bytes)
    ensures Priorities(PreambleFramesOf(h, block)) == []
    ensures FirstOfKind(PreambleFramesOf(h, block), FRAME_HEADERS) == Some(HeadersFrame(block))
  {
    var fs := PreambleFramesOf(h, block);
    NoPriorities(fs);
    assert HeadersFrame(block) in fs;
  }

  lemma WholePayload(f: Frame)
    requires f.flags == END_FLAGS
    ensures HasFlag(f.flags, FLAG_END_HEADERS) && Fragment(f) == f.payload
  {
    assert !HasFlag(END_FLAGS, FLAG_PADDED) && !HasFlag(END_FLAGS, FLAG_PRIORITY);
    assert f.payload[0..|f.payload| - 0] == f.payload;
  }

  lemma {:induction false} HeadersReadBack(tb: Tables, hs: seq<Header>)
    requires Valid(tb) && AllText(tb, hs)
    ensures HeadersIn(tb, HeadersFrame(HeaderBlock(tb, hs))) ==
      if |hs| <= MAX_HEADERS && AllEncodable(tb, hs) then hs else []
  {
    WholePayload(HeadersFrame(HeaderBlock(tb, hs)));
    HeaderListRoundTrip(tb, hs);
  }

  /** What the parser sees in an emitted preamble: the settings in order, the increment less its reserved bit, no
    * priorities, and the header list, provided the decoder's bounds admit it. */
  lemma {:induction false} EmittedFingerprint(tb: Tables, p: Profile, authority: Bytes, values: seq<Header>,
                                              rest: Bytes)
    requires Valid(tb) && p.h2.Some? && AllText(tb, HeaderList(p, authority, values))
    requires 6 * |p.h2.value.settings| < FRAME_LIMIT
    requires |HeaderBlock(tb, HeaderList(p, authority, values))| < FRAME_LIMIT
    ensures var h, hs := p.h2.value, HeaderList(p, authority, values);
      FingerprintOf(tb, Emitted(tb, p, authority, values) + rest) ==
        Ok(Assembled(h.settings, Masked31(h.windowUpdate), [],
                     if |hs| <= MAX_HEADERS && AllEncodable(tb, hs) then hs else []))
  {
    var h, hs := p.h2.value, HeaderList(p, authority, values);
    var block := HeaderBlock(tb, hs);
    FramesRoundTrip(h, block, rest);
    SettingsOfEmitted(h, block);
    OthersOfEmitted(h, block);
    WindowReadBack(h, block);
    HeadersReadBack(tb, hs);
  }
}
