/** The HTTP/2 connection preface and frame layout of RFC 7540, sections 3.5 and 4.1, read and written. */
module H2Frames {
  import opened Locks
  import opened Bits
  import opened Results
  import opened Texts
  import opened Readers

  const FRAME_HEADERS: u8 := 0x1
  const FRAME_PRIORITY: u8 := 0x2
  const FRAME_SETTINGS: u8 := 0x4
  const FRAME_WINDOW_UPDATE: u8 := 0x8

  const FLAG_END_STREAM: u8 := 0x1
  const FLAG_END_HEADERS: u8 := 0x4
  const FLAG_PADDED: u8 := 0x8
  const FLAG_PRIORITY: u8 := 0x20

  const FRAME_LIMIT := 0x100_0000
  const RESERVED_BIT := 0x8000_0000

  datatype H2Error = NoPreface | Truncated

  datatype Frame = Frame(kind: u8, flags: u8, streamId: u32, payload: Bytes)

  function Preface(): (r: Bytes)
    ensures |r| == 24
  {
    Ascii("PRI * HTTP/2.0\r\n\r\nSM\r\n\r\n")
  }

  // ----- reading -----

  /** The frame at the front of `buf`: `length(3) | type(1) | flags(1) | R + stream_id(4)`, then the payload. */
  function FrameAt(buf: Bytes): (r: Option<Frame>)
    requires |buf| >= 9
    ensures r.Some? ==> 9 + |r.value.payload| <= |buf|
  {
    var end := 9 + BigEndian(buf[..3]);
    if end > |buf| then None
    else Some(Frame(buf[3], buf[4], BigEndian(buf[5..9]) % RESERVED_BIT, buf[9..end]))
  }

  /** The frames of `buf` up to the first HEADERS frame, or up to fewer octets than a frame header. */
  function FramesFrom(buf: Bytes): Result<seq<Frame>, H2Error>
    decreases |buf|
  {
    if |buf| < 9 then Ok([])
    else
      match FrameAt(buf)
      case None => Err(H2Error.Truncated)
      case Some(f) =>
        if f.kind == FRAME_HEADERS then Ok([f]) else Prepend([f], FramesFrom(buf[9 + |f.payload|..]))
  }

  function PreambleFrames(raw: Bytes): Result<seq<Frame>, H2Error> {
    if |raw| < 24 then Err(H2Error.Truncated)
    else if raw[..24] != Preface() then Err(NoPreface)
    else FramesFrom(raw[24..])
  }

  lemma FramesStep(front: seq<Frame>, raw: Bytes, at: nat)
    requires at + 9 <= |raw|
    ensures var f := FrameAt(raw[at..]);
      Prepend(front, FramesFrom(raw[at..])) ==
        if f.None? then Err(H2Error.Truncated)
        else if f.value.kind == FRAME_HEADERS then Ok(front + [f.value])
        else Prepend(front + [f.value], FramesFrom(raw[at + 9 + |f.value.payload|..]))
  {
    var f := FrameAt(raw[at..]);
    if f.Some? && f.value.kind != FRAME_HEADERS {
      var next := at + 9 + |f.value.payload|;
      assert raw[at..][9 + |f.value.payload|..] == raw[next..];
      PrependTwice(front, [f.value], FramesFrom(raw[next..]));
    }
  }

  /** Clearing the top bit of the first octet drops the reserved bit of the value. */
  lemma {:induction false} Masked(s: Bytes)
    requires |s| == 4
    ensures BigEndian([s[0] % 0x80] + s[1..]) == BigEndian(s) % RESERVED_BIT
  {
    var m := [s[0] % 0x80] + s[1..];
    BigEndianOfFew(s);
    BigEndianOfFew(m);
    assert m[1] == s[1] && m[2] == s[2] && m[3] == s[3];
    DivModUnique(BigEndian(s), RESERVED_BIT, s[0] / 0x80, BigEndian(m));
  }

  method ParseFrame(r: Reader) returns (f: Option<Frame>)
    requires r.Valid() && |r.source| - r.At() >= 9
    modifies r
    ensures r.Valid()
    ensures f == FrameAt(r.source[old(r.At())..])
    ensures f.Some? ==> r.At() == old(r.At()) + 9 + |f.value.payload|
  {
    ghost var at, buf := r.At(), r.source[r.At()..];
    Slices(r.source, at);
    var len := r.U24();
    var kind := r.U8();
    var flags := r.U8();
    var sid := r.Take(4);
    assert sid.value == buf[5..9] && len.value == BigEndian(buf[0..3]) && buf[0..3] == buf[..3];
    var masked := [sid.value[0] % 0x80] + sid.value[1..];
    Masked(sid.value);
    var streamId := BigEndian(masked);
    var payload := r.Take(len.value);
    if payload.Err? {
      return None;
    }
    assert payload.value == buf[9..9 + len.value];
    return Some(Frame(kind.value, flags.value, streamId, payload.value));
  }

  /** The loop has read `frames` and stands at `at`. */
  ghost predicate ParsingAt(raw: Bytes, at: nat, frames: seq<Frame>) {
    forall k: int {:trigger Key(k)} :: Key(k) && k == PARSING_LOOP ==>
      at <= |raw| && Prepend(frames, FramesFrom(raw[at..])) == PreambleFrames(raw)
  }

  lemma {:induction false} ParsingStarts(raw: Bytes)
    requires |raw| >= 24 && raw[..24] == Preface()
    ensures ParsingAt(raw, 24, [])
  {
    PrependNothing(FramesFrom(raw[24..]));
  }

  lemma {:induction false} ParsingTurns(raw: Bytes, at: nat, frames: seq<Frame>)
    requires at + 9 <= |raw| && ParsingAt(raw, at, frames)
    ensures var f := FrameAt(raw[at..]);
      if f.None? then PreambleFrames(raw) == Err(H2Error.Truncated)
      else if f.value.kind == FRAME_HEADERS then PreambleFrames(raw) == Ok(frames + [f.value])
      else ParsingAt(raw, at + 9 + |f.value.payload|, frames + [f.value])
  {
    assert Key(PARSING_LOOP);
    FramesStep(frames, raw, at);
  }

  lemma {:induction false} ParsingEnds(raw: Bytes, at: nat, frames: seq<Frame>)
    requires at <= |raw| < at + 9 && ParsingAt(raw, at, frames)
    ensures PreambleFrames(raw) == Ok(frames)
  {
    assert Key(PARSING_LOOP);
    assert frames + [] == frames;
  }

  method ParsePreamble(raw: Bytes) returns (result: Result<seq<Frame>, H2Error>)
    ensures result == PreambleFrames(raw)
  {
    var r := new Reader(raw, raw, 0);
    var start := r.Take(24);
    if start.Err? {
      return Err(H2Error.Truncated);
    }
    if start.value != Preface() {
      return Err(NoPreface);
    }
    var frames: seq<Frame> := [];
    ParsingStarts(raw);
    while r.Remaining() >= 9
      invariant r.Valid() && r.source == raw && ParsingAt(raw, r.At(), frames)
      decreases |raw| - r.At()
    {
      ParsingTurns(raw, r.At(), frames);
      var f := ParseFrame(r);
      if f.None? {
        return Err(H2Error.Truncated);
      }
      frames := frames + [f.value];
      if f.value.kind == FRAME_HEADERS {
        return Ok(frames);
      }
    }
    ParsingEnds(raw, r.At(), frames);
    return Ok(frames);
  }

  // ----- writing -----

  /** A frame on the wire. The length field holds 24 bits, whatever the payload's length. */
  function FrameOctets(f: Frame): (r: Bytes)
    ensures |r| == 9 + |f.payload|
  {
    Octets(|f.payload|, 3) + [f.kind, f.flags] + Octets(f.streamId % RESERVED_BIT, 4) + f.payload
  }

  method EmitFrame(kind: u8, flags: u8, streamId: u32, payload: Bytes) returns (out: Bytes)
    ensures out == FrameOctets(Frame(kind, flags, streamId, payload))
  {
    var len := |payload|;
    LowOctets(len);
    LowWord(streamId % RESERVED_BIT);
    out := [(len / 0x1_0000) % 0x100];
    out := out + [(len / 0x100) % 0x100];
    out := out + [len % 0x100];
    out := out + [kind];
    out := out + [flags];
    out := out + ToBeBytes(streamId % RESERVED_BIT);
    out := out + payload;
  }

  function ToBeBytes(v: u32): (r: Bytes) {
    [v / 0x100_0000, (v / 0x1_0000) % 0x100, (v / 0x100) % 0x100, v % 0x100]
  }

  lemma {:induction false} OctetsStep(v: nat, n: nat)
    ensures v / 0x100 >= 0
    ensures Octets(v, n + 1) == Octets(v / 0x100, n) + [v % 0x100]
  {
  }

  lemma Shifts(v: nat)
    ensures v / 0x100 / 0x100 == v / 0x1_0000 >= 0
    ensures v / 0x1_0000 / 0x100 == v / 0x100_0000 >= 0
  {
  }

  lemma {:induction false} LowOctets(v: nat)
    ensures Octets(v, 2) == [(v / 0x100) % 0x100, v % 0x100]
    ensures Octets(v, 3) == [(v / 0x1_0000) % 0x100, (v / 0x100) % 0x100, v % 0x100]
  {
    Shifts(v);
    OctetsStep(v / 0x1_0000, 0);
    OctetsStep(v / 0x100, 0);
    OctetsStep(v / 0x100, 1);
    OctetsStep(v, 1);
    OctetsStep(v, 2);
  }

  lemma {:induction false} LowWord(v: u32)
    ensures Octets(v, 4) == ToBeBytes(v)
  {
    Shifts(v);
    LowOctets(v / 0x100);
    OctetsStep(v, 3);
    assert v / 0x100 / 0x1_0000 == v / 0x100_0000;
  }

  predicate Fits(f: Frame) {
    |f.payload| < FRAME_LIMIT && f.streamId < RESERVED_BIT
  }

  lemma {:induction false} FrameSlices(f: Frame, rest: Bytes)
    ensures var buf, n := FrameOctets(f) + rest, |f.payload|;
      && buf[..3] == Octets(n, 3) && buf[3] == f.kind && buf[4] == f.flags
      && buf[5..9] == Octets(f.streamId % RESERVED_BIT, 4) && buf[9..9 + n] == f.payload
  {
  }

  /** A frame followed by anything is read back exactly when its payload is below the 24-bit limit and its stream
    * identifier leaves the reserved bit clear. */
  lemma FrameReadBack(f: Frame, rest: Bytes)
    ensures FrameAt(FrameOctets(f) + rest) == Some(f) <==> Fits(f)
  {
    var buf := FrameOctets(f) + rest;
    var n, sid := |f.payload|, f.streamId % RESERVED_BIT;
    FrameSlices(f, rest);
    Pow256Values();
    BigEndianOfOctets(sid, 4);
    if n < FRAME_LIMIT {
      BigEndianOfOctets(n, 3);
    } else {
      assert BigEndian(buf[..3]) < FRAME_LIMIT;
    }
  }

  function AllOctets(fs: seq<Frame>): Bytes {
    if fs == [] then [] else FrameOctets(fs[0]) + AllOctets(fs[1..])
  }

  lemma {:induction false} FrameThen(f: Frame, tail: Bytes)
    requires Fits(f)
    ensures FramesFrom(FrameOctets(f) + tail) ==
      if f.kind == FRAME_HEADERS then Ok([f]) else Prepend([f], FramesFrom(tail))
  {
    FrameReadBack(f, tail);
    assert (FrameOctets(f) + tail)[9 + |f.payload|..] == tail;
  }

  lemma {:induction false} AllOctetsHead(fs: seq<Frame>, rest: Bytes)
    requires fs != []
    ensures AllOctets(fs) + rest == FrameOctets(fs[0]) + (AllOctets(fs[1..]) + rest)
  {
  }

  /** Frames ending with the first HEADERS frame are read back whatever follows them. */
  lemma {:induction false} FramesReadBack(fs: seq<Frame>, rest: Bytes)
    requires fs != [] && forall i :: 0 <= i < |fs| ==> Fits(fs[i])
    requires forall i :: 0 <= i < |fs| ==> (fs[i].kind == FRAME_HEADERS <==> i == |fs| - 1)
    ensures FramesFrom(AllOctets(fs) + rest) == Ok(fs)
  {
    FrameThen(fs[0], AllOctets(fs[1..]) + rest);
    AllOctetsHead(fs, rest);
    if |fs| == 1 {
      assert fs == [fs[0]];
    } else {
      assert fs == [fs[0]] + fs[1..];
      FramesReadBack(fs[1..], rest);
    }
  }
}
