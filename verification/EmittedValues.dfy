/** The values in an emitted request, as the parser reads them back from its octets. */
module EmittedValues {
  import opened Bits
  import opened Results
  import opened Texts
  import opened HuffmanCode
  import opened HeaderTables
  import opened HpackDecoder
  import opened HpackEncoder
  import opened Readers
  import opened H2Frames
  import opened HttpLayer
  import opened Akamai
  import opened H2Reading
  import opened Profiles
  import opened Emission
  import opened ClosedLoop

  /** The four pseudo-headers of a GET for the root of an authority over https. */
  predicate IsRequestLine(h: Header, authority: Bytes) {
    && (h.name == Ascii(":method") ==> h.value == Ascii("GET"))
    && (h.name == Ascii(":authority") ==> h.value == authority)
    && (h.name == Ascii(":scheme") ==> h.value == Ascii("https"))
    && (h.name == Ascii(":path") ==> h.value == Ascii("/"))
  }

  /** `v` is the value of the first of `values` that has this name, whatever its case; empty when none has. */
  ghost predicate IsFirstValue(values: seq<Header>, name: Bytes, v: Bytes) {
    || (v == [] && forall j :: 0 <= j < |values| ==> Lower(values[j].name) != Lower(name))
    || (exists j :: 0 <= j < |values| && Lower(values[j].name) == Lower(name) && values[j].value == v
          && forall k :: 0 <= k < j ==> Lower(values[k].name) != Lower(name))
  }

  lemma {:induction false} PseudoValues(parts: seq<Bytes>, authority: Bytes)
    ensures forall h :: h in PseudoList(parts, authority, Ascii("https"), Ascii("/")) ==>
      Ordered(h) && IsRequestLine(h, authority)
  {
    if parts != [] {
      FourNames();
      PseudoValues(parts[1..], authority);
    }
  }

  lemma {:induction false} ValueIsFirst(name: Bytes, values: seq<Header>)
    ensures IsFirstValue(values, name, ValueFor(name, values))
  {
    if values != [] {
      var others := values[1..];
      ValueIsFirst(name, others);
      if Lower(values[0].name) == Lower(name) {
        assert values[0].value == ValueFor(name, values);
      } else if j :| 0 <= j < |others| && Lower(others[j].name) == Lower(name)
                     && others[j].value == ValueFor(name, others)
                     && forall k :: 0 <= k < j ==> Lower(others[k].name) != Lower(name) {
        assert values[j + 1] == others[j];
        assert forall k :: 0 < k < j + 1 ==> values[k] == others[k - 1];
      } else {
        assert forall k :: 0 < k < |values| ==> values[k] == others[k - 1];
      }
    }
  }

  /** What a list of headers holds: first the pseudo-headers of the request line, and then one header for each of
    * `names` with the value given for it. */
  ghost predicate IsRequest(hs: seq<Header>, authority: Bytes, names: seq<Bytes>, values: seq<Header>) {
    && |hs| >= |names|
    && var n := |hs| - |names|;
       && (forall i :: 0 <= i < n ==> Ordered(hs[i]))
       && (forall i :: 0 <= i < |hs| ==> IsRequestLine(hs[i], authority))
       && (forall i {:trigger names[i]} :: 0 <= i < |names| ==>
             hs[n + i].name == names[i] && IsFirstValue(values, names[i], hs[n + i].value))
  }

  lemma {:induction false} RegularIsNoPseudo(h: Header, authority: Bytes)
    requires IsRegular(h.name)
    ensures IsRequestLine(h, authority)
  {
    PseudoNames();
  }

  lemma {:induction false} Together(pseudo: seq<Header>, regular: seq<Header>, authority: Bytes, names: seq<Bytes>,
                                    values: seq<Header>)
    requires forall h :: h in pseudo ==> Ordered(h) && IsRequestLine(h, authority)
    requires forall h :: h in regular ==> IsRequestLine(h, authority)
    requires |regular| == |names|
    requires forall i {:trigger names[i]} :: 0 <= i < |names| ==>
      regular[i].name == names[i] && IsFirstValue(values, names[i], regular[i].value)
    ensures IsRequest(pseudo + regular, authority, names, values)
  {
  }

  lemma {:induction false} RegularValues(names: seq<Bytes>, values: seq<Header>, authority: Bytes)
    requires ProfileNames(names)
    ensures var regular := RegularHeaders(names, values);
      && (forall h :: h in regular ==> IsRequestLine(h, authority))
      && forall i {:trigger names[i]} :: 0 <= i < |names| ==>
           regular[i].name == names[i] && IsFirstValue(values, names[i], regular[i].value)
  {
    var regular := RegularHeaders(names, values);
    RegularNamesAreRegular(names, regular);
    forall i | 0 <= i < |names|
      ensures IsRequestLine(regular[i], authority) && IsFirstValue(values, names[i], regular[i].value)
    {
      RegularIsNoPseudo(regular[i], authority);
      ValueIsFirst(names[i], values);
    }
  }

  lemma {:induction false} ListIsRequest(p: Profile, authority: Bytes, values: seq<Header>)
    requires p.h2.Some? && ProfileNames(NamesIn(p))
    ensures IsRequest(HeaderList(p, authority, values), authority, NamesIn(p), values)
  {
    var order, names := p.h2.value.pseudoOrder, NamesIn(p);
    PseudoValues(Split(order, COMMA), authority);
    RegularValues(names, values, authority);
    var pseudo := PseudoHeaders(order, authority, Ascii("https"), Ascii("/"));
    Together(pseudo, RegularHeaders(names, values), authority, names, values);
  }

  /** Of any well-formed profile within the bounds, what is read back of the emitted octets, whatever follows them, is a
    * GET for the root of this authority over https with the profile's names and the values given for them. */
  lemma {:induction false} EmittedIsRequest(tb: Tables, p: Profile, authority: Bytes, values: seq<Header>, rest: Bytes)
    requires Valid(tb) && WellFormed(p) && WithinBounds(tb, p, authority, values)
    ensures FingerprintOf(tb, Emitted(tb, p, authority, values) + rest).Ok?
    ensures IsRequest(FingerprintOf(tb, Emitted(tb, p, authority, values) + rest).value.headers, authority, NamesIn(p),
                      values)
  {
    ProfileReadBack(tb, p, authority, values, rest);
    ListIsRequest(p, authority, values);
  }

  // ----- the octets -----

  /** Nine octets in front of a payload: its length, the kind, the flags and the stream. */
  function FrameHead(n: nat, kind: u8, flags: u8, stream: u8): Bytes {
    [(n / 0x1_0000) % 0x100, (n / 0x100) % 0x100, n % 0x100, kind, flags, 0, 0, 0, stream]
  }

  lemma {:induction false} StreamOctets(v: u32)
    requires v < 0x100
    ensures Octets(v % RESERVED_BIT, 4) == [0, 0, 0, v]
  {
    LowWord(v % RESERVED_BIT);
    SmallWord(v % RESERVED_BIT, v);
  }

  lemma {:induction false} SmallWord(w: u32, v: u8)
    requires w == v
    ensures ToBeBytes(w) == [0, 0, 0, v]
  {
  }

  lemma {:induction false} HeadIs(f: Frame)
    requires f.streamId < 0x100
    ensures FrameOctets(f) == FrameHead(|f.payload|, f.kind, f.flags, f.streamId) + f.payload
  {
    LowOctets(|f.payload|);
    StreamOctets(f.streamId);
    assert Octets(|f.payload|, 3) + [f.kind, f.flags] + [0, 0, 0, f.streamId]
      == FrameHead(|f.payload|, f.kind, f.flags, f.streamId);
  }

  /** A SETTINGS frame on stream 0, a WINDOW_UPDATE frame when the profile has an increment, and a HEADERS frame on
    * stream 1 that ends the headers and the stream. */
  function FramesLaid(settings: Bytes, increment: Option<u32>, block: Bytes): Bytes {
    var update := if increment.None? then [] else FrameHead(4, 8, 0, 0) + Octets(increment.value % 0x8000_0000, 4);
    (FrameHead(|settings|, 4, 0, 0) + settings) + update + (FrameHead(|block|, 1, 5, 1) + block)
  }

  lemma {:induction false} FramesAreLaid(h: H2Profile, block: Bytes)
    ensures AllOctets(PreambleFramesOf(h, block)) == FramesLaid(PairOctets(h.settings), h.windowUpdate, block)
  {
    ConcatenatedFrames(h, block);
    HeadIs(SettingsFrame(h));
    HeadIs(HeadersFrame(block));
    if h.windowUpdate.Some? {
      HeadIs(WindowFrames(h.windowUpdate)[0]);
    }
  }

  const PREFACE_OCTETS := Ascii("PRI * HTTP/2.0\r\n\r\nSM\r\n\r\n")

  /** The emitted octets: the preface and these frames. */
  lemma {:induction false} EmittedLayout(tb: Tables, p: Profile, authority: Bytes, values: seq<Header>)
    requires InRange(tb.huffman) && p.h2.Some?
    ensures Emitted(tb, p, authority, values) ==
      PREFACE_OCTETS + FramesLaid(PairOctets(p.h2.value.settings), p.h2.value.windowUpdate,
                                  HeaderBlock(tb, HeaderList(p, authority, values)))
  {
    FramesAreLaid(p.h2.value, HeaderBlock(tb, HeaderList(p, authority, values)));
  }
}
