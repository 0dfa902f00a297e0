/** Reading the preamble off a connection so that it can be parsed, and then handed back. */
module Capture {
  import opened Locks
  import opened Bits
  import opened Results
  import opened Readers
  import opened Streams
  import opened H2Frames

  const MAX_FRAME := 0x10_0000

  /** Why capturing stopped: the HEADERS frame is in, a frame claims to be too large, or the deadline passed or the
    * connection ended while the preface, a frame header or a payload was being read. */
  datatype End = AtHeaders | TooLarge | NoStart | NoHeader | NoPayload

  datatype Outcome = Outcome(kept: nat, end: End)

  /** How much is kept of `buf`, which starts at a frame and is all that arrives in time. */
  function CaptureFrames(buf: Bytes): (r: Outcome)
    ensures r.kept <= |buf| && r.end != NoStart
    decreases |buf|
  {
    if |buf| < 9 then Outcome(0, NoHeader)
    else
      var end := 9 + BigEndian(buf[..3]);
      if end - 9 > MAX_FRAME then Outcome(9, TooLarge)
      else if end > |buf| then Outcome(9, NoPayload)
      else if buf[3] == FRAME_HEADERS then Outcome(end, AtHeaders)
      else
        var others := CaptureFrames(buf[end..]);
        Outcome(end + others.kept, others.end)
  }

  function CaptureOf(stream: Bytes): (r: Outcome)
    ensures r.kept <= |stream|
  {
    if |stream| < 24 then Outcome(0, NoStart)
    else
      var c := CaptureFrames(stream[24..]);
      Outcome(24 + c.kept, c.end)
  }

  /** How much has been taken off a connection when `length` octets arrived in time: a read that fails has taken what
    * there was. */
  function Taken(c: Outcome, length: nat): (r: nat)
    requires c.kept <= length
    ensures c.kept <= r <= length
  {
    if c.end == AtHeaders || c.end == TooLarge then c.kept else length
  }

  /** A connection and a deadline: what arrives before it and is still to be read, and what arrives behind it. */
  class Connection {
    var inTime: Bytes
    const late: Bytes

    /** Of what is sent, `arrived` octets are in time. */
    constructor (sent: Bytes, arrived: nat)
      requires arrived <= |sent|
      ensures inTime == sent[..arrived] && late == sent[arrived..]
    {
      inTime, late := sent[..arrived], sent[arrived..];
    }

    /** Everything still to be read. */
    function Ahead(): Bytes
      reads this
    {
      inTime + late
    }

    /** Exactly `n` octets; when fewer arrive in time, those are taken and dropped. */
    method ReadExact(n: nat) returns (r: Option<Bytes>)
      modifies this
      ensures n <= |old(inTime)| ==> r == Some(old(inTime)[..n]) && inTime == old(inTime)[n..]
      ensures n > |old(inTime)| ==> r == None && inTime == []
    {
      if n > |inTime| {
        inTime := [];
        return None;
      }
      r := Some(inTime[..n]);
      inTime := inTime[n..];
    }
  }

  /** One frame, as much of it as is kept, and whether to go on. */
  method CaptureFrame(c: Connection) returns (octets: Bytes, more: bool)
    modifies c
    ensures var buf, o := old(c.inTime), CaptureFrames(old(c.inTime));
      if more then
        var others := CaptureFrames(c.inTime);
        octets != [] && octets + c.inTime == buf && o == Outcome(|octets| + others.kept, others.end)
      else octets == buf[..o.kept] && c.inTime == buf[Taken(o, |buf|)..]
  {
    ghost var buf := c.inTime;
    var header := c.ReadExact(9);
    if header.None? {
      return [], false;
    }
    assert header.value[..3] == buf[..3];
    BigEndianOfFew(header.value[..3]);
    var len: nat := BigEndian(header.value[..3]);
    if len > MAX_FRAME {
      return header.value, false;
    }
    octets := header.value;
    if len > 0 {
      var payload := c.ReadExact(len);
      if payload.None? {
        return octets, false;
      }
      Slices(buf, 9);
      octets := octets + payload.value;
    }
    assert octets == buf[..9 + len] && c.inTime == buf[9 + len..];
    more := header.value[3] != FRAME_HEADERS;
  }

  /** What has been captured and what lies ahead make up what arrives in time, and capturing goes on with the latter. */
  ghost predicate CapturingAt(stream: Bytes, captured: Bytes, ahead: Bytes) {
    forall k: int {:trigger Key(k)} :: Key(k) && k == CAPTURED ==>
      && captured + ahead == stream
      && CaptureOf(stream) == Outcome(|captured| + CaptureFrames(ahead).kept, CaptureFrames(ahead).end)
  }

  lemma {:induction false} CaptureStarts(stream: Bytes)
    requires |stream| >= 24
    ensures CapturingAt(stream, stream[..24], stream[24..])
  {
  }

  lemma {:induction false} CaptureTurns(stream: Bytes, captured: Bytes, ahead: Bytes, octets: Bytes, after: Bytes)
    requires CapturingAt(stream, captured, ahead) && octets + after == ahead
    requires CaptureFrames(ahead) == Outcome(|octets| + CaptureFrames(after).kept, CaptureFrames(after).end)
    ensures CapturingAt(stream, captured + octets, after)
  {
    assert Key(CAPTURED);
    assert captured + (octets + after) == (captured + octets) + after;
  }

  lemma {:induction false} CaptureEnds(stream: Bytes, captured: Bytes, ahead: Bytes)
    requires CapturingAt(stream, captured, ahead)
    ensures var o, c := CaptureFrames(ahead), CaptureOf(stream);
      && captured + ahead[..o.kept] == stream[..c.kept]
      && ahead[Taken(o, |ahead|)..] == stream[Taken(c, |stream|)..]
  {
    assert Key(CAPTURED);
  }

  /** What capturing takes of a connection on which `arrived` octets of what is sent are in time. */
  function Captured(sent: Bytes, arrived: nat): Bytes
    requires arrived <= |sent|
  {
    sent[..CaptureOf(sent[..arrived]).kept]
  }

  /** What it leaves to be read. */
  function LeftBehind(sent: Bytes, arrived: nat): Bytes
    requires arrived <= |sent|
  {
    sent[Taken(CaptureOf(sent[..arrived]), arrived)..]
  }

  lemma {:induction false} InTimeAndLate(inTime: Bytes, late: Bytes)
    ensures var o := CaptureOf(inTime);
      && Captured(inTime + late, |inTime|) == inTime[..o.kept]
      && LeftBehind(inTime + late, |inTime|) == inTime[Taken(o, |inTime|)..] + late
  {
    assert (inTime + late)[..|inTime|] == inTime;
  }

  method CapturePreamble(c: Connection) returns (captured: Bytes)
    modifies c
    ensures captured == Captured(old(c.Ahead()), |old(c.inTime)|)
    ensures c.Ahead() == LeftBehind(old(c.Ahead()), |old(c.inTime)|)
  {
    ghost var stream := c.inTime;
    InTimeAndLate(stream, c.late);
    var preface := c.ReadExact(24);
    if preface.None? {
      return [];
    }
    captured := preface.value;
    CaptureStarts(stream);
    while true
      invariant CapturingAt(stream, captured, c.inTime)
      decreases |c.inTime|
    {
      ghost var ahead := c.inTime;
      var octets, more := CaptureFrame(c);
      if more {
        CaptureTurns(stream, captured, ahead, octets, c.inTime);
      } else {
        CaptureEnds(stream, captured, ahead);
      }
      captured := captured + octets;
      if !more {
        return;
      }
    }
  }

  // ----- what was captured can be parsed -----

  function LengthOf(fs: seq<Frame>): nat {
    if fs == [] then 0 else 9 + |fs[0].payload| + LengthOf(fs[1..])
  }

  /** The last of these frames, and only the last, is a HEADERS frame. */
  predicate EndsAtHeaders(fs: seq<Frame>) {
    fs != [] && forall i :: 0 <= i < |fs| ==> (fs[i].kind == FRAME_HEADERS <==> i == |fs| - 1)
  }

  predicate NoHeaders(fs: seq<Frame>) {
    forall f :: f in fs ==> f.kind != FRAME_HEADERS
  }

  lemma FirstFrame(buf: Bytes, cut: nat)
    requires 9 <= cut <= |buf| && 9 + BigEndian(buf[..3]) <= cut
    ensures FrameAt(buf[..cut]) == FrameAt(buf)
  {
    assert buf[..cut][..3] == buf[..3];
    assert buf[..cut][5..9] == buf[5..9];
    var end := 9 + BigEndian(buf[..3]);
    assert buf[..cut][9..end] == buf[9..end];
  }

  /** What is kept of `buf` parses to `r`, and all of it to `whole`. */
  predicate Parses(c: Outcome, r: Result<seq<Frame>, H2Error>, whole: Result<seq<Frame>, H2Error>) {
    match c.end
    case AtHeaders => r.Ok? && r == whole && EndsAtHeaders(r.value) && LengthOf(r.value) == c.kept
    case NoHeader => r.Ok? && r == whole && NoHeaders(r.value) && LengthOf(r.value) == c.kept
    case _ => r == Err(H2Error.Truncated)
  }

  lemma WholeFrame(buf: Bytes, cut: nat)
    requires 9 <= cut <= |buf| && 9 + BigEndian(buf[..3]) <= cut
    ensures FrameAt(buf).Some?
    ensures var f := FrameAt(buf).value;
      FramesFrom(buf[..cut]) ==
        if f.kind == FRAME_HEADERS then Ok([f]) else Prepend([f], FramesFrom(buf[9 + |f.payload|..cut]))
  {
    FirstFrame(buf, cut);
    var end := 9 + BigEndian(buf[..3]);
    assert buf[..cut][end..] == buf[end..cut];
  }

  lemma CutFrame(buf: Bytes)
    requires |buf| >= 9 && BigEndian(buf[..3]) > 0
    ensures FramesFrom(buf[..9]) == Err(H2Error.Truncated)
  {
    assert buf[..9][..3] == buf[..3];
  }

  lemma OneMoreFrame(f: Frame, o: Outcome, r: Result<seq<Frame>, H2Error>, whole: Result<seq<Frame>, H2Error>,
                     c: Outcome, r': Result<seq<Frame>, H2Error>, whole': Result<seq<Frame>, H2Error>)
    requires f.kind != FRAME_HEADERS && Parses(o, r, whole)
    requires c == Outcome(9 + |f.payload| + o.kept, o.end)
    requires r' == Prepend([f], r) && whole' == Prepend([f], whole)
    ensures Parses(c, r', whole')
  {
    JoinFrame(f, r);
  }

  /** A frame that is captured whole, and what is captured behind it. */
  lemma {:induction false} WholeFrameKept(buf: Bytes)
    requires WholeFirst(buf)
    ensures FrameAt(buf).Some? && 9 + |FrameAt(buf).value.payload| == 9 + BigEndian(buf[..3])
    ensures var f, c := FrameAt(buf).value, CaptureFrames(buf);
      var o := CaptureFrames(buf[9 + |f.payload|..]);
      c == if f.kind == FRAME_HEADERS then Outcome(9 + |f.payload|, AtHeaders)
           else Outcome(9 + |f.payload| + o.kept, o.end)
  {
  }

  lemma {:induction false} AllFrames(buf: Bytes, f: Frame)
    requires |buf| >= 9 && FrameAt(buf) == Some(f)
    ensures FramesFrom(buf) ==
      if f.kind == FRAME_HEADERS then Ok([f]) else Prepend([f], FramesFrom(buf[9 + |f.payload|..]))
  {
  }

  lemma KeptFrames(buf: Bytes, f: Frame, kept: nat)
    requires |buf| >= 9 && FrameAt(buf) == Some(f) && 9 + |f.payload| + kept <= |buf|
    ensures FramesFrom(buf[..9 + |f.payload| + kept]) ==
      if f.kind == FRAME_HEADERS then Ok([f]) else Prepend([f], FramesFrom(buf[9 + |f.payload|..][..kept]))
  {
    var end := 9 + |f.payload|;
    WholeFrame(buf, end + kept);
    assert buf[end..][..kept] == buf[end..end + kept];
  }

  predicate WholeFirst(buf: Bytes) {
    |buf| >= 9 && BigEndian(buf[..3]) <= MAX_FRAME && 9 + BigEndian(buf[..3]) <= |buf|
  }

  /** The frames kept of `buf` parse as they should. */
  ghost predicate KeptParses(buf: Bytes) {
    forall k: int {:trigger Key(k)} :: Key(k) && k == CAPTURED ==>
      Parses(CaptureFrames(buf), FramesFrom(buf[..CaptureFrames(buf).kept]), FramesFrom(buf))
  }

  lemma CapturedNoFrame(buf: Bytes)
    requires !WholeFirst(buf)
    ensures KeptParses(buf)
  {
    if |buf| < 9 {
      assert FramesFrom(buf[..0]) == Ok([]) && FramesFrom(buf) == Ok([]);
    } else {
      CutFrame(buf);
    }
  }

  lemma CapturedHeaders(buf: Bytes)
    requires WholeFirst(buf) && buf[3] == FRAME_HEADERS
    ensures KeptParses(buf)
  {
    WholeFrameKept(buf);
    var f := FrameAt(buf).value;
    AllFrames(buf, f);
    KeptFrames(buf, f, 0);
    OnlyFrame(f);
  }

  lemma {:induction false} KeptParsesMeans(buf: Bytes, o: Outcome)
    requires KeptParses(buf) && CaptureFrames(buf) == o
    ensures Parses(o, FramesFrom(buf[..o.kept]), FramesFrom(buf))
  {
    assert Key(CAPTURED);
  }

  lemma {:induction false} OneMoreParses(buf: Bytes, f: Frame, rest: Bytes, o: Outcome, c: Outcome)
    requires f.kind != FRAME_HEADERS && CaptureFrames(buf) == c && CaptureFrames(rest) == o && KeptParses(rest)
    requires c == Outcome(9 + |f.payload| + o.kept, o.end)
    requires FramesFrom(buf) == Prepend([f], FramesFrom(rest))
    requires FramesFrom(buf[..c.kept]) == Prepend([f], FramesFrom(rest[..o.kept]))
    ensures KeptParses(buf)
  {
    KeptParsesMeans(rest, o);
    OneMoreFrame(f, o, FramesFrom(rest[..o.kept]), FramesFrom(rest), c, FramesFrom(buf[..c.kept]), FramesFrom(buf));
  }

  lemma {:induction false} CapturedOneMore(buf: Bytes)
    requires WholeFirst(buf) && buf[3] != FRAME_HEADERS
    requires KeptParses(buf[9 + BigEndian(buf[..3])..])
    ensures KeptParses(buf)
  {
    WholeFrameKept(buf);
    var f := FrameAt(buf).value;
    var rest := buf[9 + |f.payload|..];
    var o := CaptureFrames(rest);
    AllFrames(buf, f);
    KeptFrames(buf, f, o.kept);
    OneMoreParses(buf, f, rest, o, CaptureFrames(buf));
  }

  /** The frames captured parse, and to the frames of the whole stream, exactly when capturing did not stop between a
    * frame header and its payload; then they are captured to the last octet. */
  lemma {:induction false} CapturedFrames(buf: Bytes)
    ensures KeptParses(buf)
    decreases |buf|
  {
    if !WholeFirst(buf) {
      CapturedNoFrame(buf);
    } else if buf[3] == FRAME_HEADERS {
      CapturedHeaders(buf);
    } else {
      CapturedFrames(buf[9 + BigEndian(buf[..3])..]);
      CapturedOneMore(buf);
    }
  }

  lemma OnlyFrame(f: Frame)
    requires f.kind == FRAME_HEADERS
    ensures EndsAtHeaders([f]) && LengthOf([f]) == 9 + |f.payload|
  {
    assert [f][1..] == [];
  }

  lemma JoinFrame(f: Frame, r: Result<seq<Frame>, H2Error>)
    requires f.kind != FRAME_HEADERS
    ensures r.Ok? ==>
      var whole := Prepend([f], r);
      && whole.Ok? && LengthOf(whole.value) == 9 + |f.payload| + LengthOf(r.value)
      && (EndsAtHeaders(r.value) ==> EndsAtHeaders(whole.value))
      && (NoHeaders(r.value) ==> NoHeaders(whole.value))
  {
    if r.Ok? {
      var whole := [f] + r.value;
      assert whole[1..] == r.value;
      assert forall i :: 0 < i < |whole| ==> whole[i] == r.value[i - 1];
    }
  }

  /** No frame is too large to be captured. */
  predicate Modest(fs: seq<Frame>) {
    forall f :: f in fs ==> |f.payload| <= MAX_FRAME
  }

  /** Capturing stops at a HEADERS frame or between frames. */
  predicate EndsWell(c: Outcome) {
    c.end == AtHeaders || c.end == NoHeader
  }

  lemma {:induction false} OneMoreModest(f: Frame, r: Result<seq<Frame>, H2Error>)
    ensures var whole := Prepend([f], r);
      whole.Ok? && Modest(whole.value) <==> |f.payload| <= MAX_FRAME && r.Ok? && Modest(r.value)
  {
    if r.Ok? {
      assert forall g :: g in [f] + r.value <==> g == f || g in r.value;
    }
  }

  /** Which streams those are. */
  lemma {:induction false} EndsWellIff(buf: Bytes)
    ensures EndsWell(CaptureFrames(buf)) <==> FramesFrom(buf).Ok? && Modest(FramesFrom(buf).value)
    decreases |buf|
  {
    if |buf| >= 9 && FrameAt(buf).Some? {
      var f := FrameAt(buf).value;
      AllFrames(buf, f);
      if f.kind != FRAME_HEADERS {
        OneMoreModest(f, FramesFrom(buf[9 + |f.payload|..]));
        if WholeFirst(buf) {
          EndsWellIff(buf[9 + |f.payload|..]);
        }
      }
    }
  }

  /** What a capture that reached a HEADERS frame keeps does not depend on what follows. */
  lemma {:induction false} CaptureIsLocal(buf: Bytes, n: nat)
    requires n <= |buf| && CaptureFrames(buf[..n]).end == AtHeaders
    ensures CaptureFrames(buf) == CaptureFrames(buf[..n])
    decreases |buf|
  {
    assert buf[..n][..3] == buf[..3];
    var end := 9 + BigEndian(buf[..3]);
    if buf[3] != FRAME_HEADERS {
      assert buf[..n][end..] == buf[end..][..n - end];
      CaptureIsLocal(buf[end..], n - end);
    }
  }

  lemma {:induction false} BehindPrefaceKept(s: Bytes, n: nat)
    requires 24 <= n <= |s|
    ensures s[..n][..24] == s[..24] && s[..n][24..] == s[24..][..n - 24]
  {
  }

  lemma {:induction false} CapturedInTime(s: Bytes)
    ensures var r, whole := PreambleFrames(s[..CaptureOf(s).kept]), PreambleFrames(s);
      && (r.Ok? <==> whole.Ok? && Modest(whole.value))
      && (r.Ok? ==> r == whole && 24 + LengthOf(r.value) == CaptureOf(s).kept)
      && (r.Ok? ==> if CaptureOf(s).end == AtHeaders then EndsAtHeaders(r.value) else NoHeaders(r.value))
  {
    if |s| >= 24 {
      BehindPrefaceKept(s, CaptureOf(s).kept);
      CapturedFrames(s[24..]);
      EndsWellIff(s[24..]);
      assert Key(CAPTURED);
    }
  }

  lemma {:induction false} HeadersInTime(sent: Bytes, arrived: nat)
    requires arrived <= |sent| && CaptureOf(sent[..arrived]).end == AtHeaders
    ensures CaptureOf(sent) == CaptureOf(sent[..arrived])
  {
    BehindPrefaceKept(sent, arrived);
    CaptureIsLocal(sent[24..], arrived - 24);
  }

  /** What is captured of a connection parses exactly when all that arrives in time does and no frame in it is too
    * large. Then it parses to the same frames, to the last octet captured; and either its last frame is a HEADERS
    * frame, and it parses to what all that is ever sent would, or it holds none. */
  lemma {:induction false} CapturedPreamble(sent: Bytes, arrived: nat)
    requires arrived <= |sent|
    ensures var r, whole := PreambleFrames(Captured(sent, arrived)), PreambleFrames(sent[..arrived]);
      && (r.Ok? <==> whole.Ok? && Modest(whole.value))
      && (r.Ok? ==> r == whole && 24 + LengthOf(r.value) == |Captured(sent, arrived)|)
      && (r.Ok? ==> (EndsAtHeaders(r.value) && r == PreambleFrames(sent)) || NoHeaders(r.value))
  {
    var s := sent[..arrived];
    assert Captured(sent, arrived) == s[..CaptureOf(s).kept];
    CapturedInTime(s);
    if CaptureOf(s).end == AtHeaders {
      HeadersInTime(sent, arrived);
      CapturedInTime(sent);
    }
  }

  /** The header of an empty SETTINGS frame, and one that promises a setting. */
  const EMPTY_SETTINGS: Bytes := [0, 0, 0, FRAME_SETTINGS, 0, 0, 0, 0, 0]
  const ONE_SETTING: Bytes := [0, 0, 6, FRAME_SETTINGS, 0, 0, 0, 0, 0]

  lemma {:induction false} HeaderRead(header: Bytes, len: u8, more: Bytes)
    requires header == [0, 0, len, FRAME_SETTINGS, 0, 0, 0, 0, 0]
    ensures BigEndian((header + more)[..3]) == len && (header + more)[3] == FRAME_SETTINGS
    ensures FrameAt(header + more) ==
      if |more| < len then None else Some(Frame(FRAME_SETTINGS, 0, 0, more[..len]))
  {
    var buf := header + more;
    assert buf[..3] == [0, 0, len] && buf[5..9] == [0, 0, 0, 0];
    BigEndianOfFew(buf[..3]);
    BigEndianOfFew(buf[5..9]);
    if |more| >= len {
      assert buf[9..9 + (len as int)] == more[..len];
    }
  }

  lemma {:induction false} EmptySettingsFirst(more: Bytes)
    ensures FramesFrom(EMPTY_SETTINGS + more) == Prepend([Frame(FRAME_SETTINGS, 0, 0, [])], FramesFrom(more))
    ensures CaptureFrames(EMPTY_SETTINGS + more) ==
      Outcome(9 + CaptureFrames(more).kept, CaptureFrames(more).end)
  {
    HeaderRead(EMPTY_SETTINGS, 0, more);
    assert (EMPTY_SETTINGS + more)[9..] == more;
  }

  lemma {:induction false} OneSettingCut()
    ensures FramesFrom(ONE_SETTING) == Err(H2Error.Truncated) && CaptureFrames(ONE_SETTING) == Outcome(9, NoPayload)
  {
    HeaderRead(ONE_SETTING, 6, []);
    assert ONE_SETTING + [] == ONE_SETTING;
  }

  lemma {:induction false} BehindPreface(more: Bytes)
    ensures PreambleFrames(Preface() + more) == FramesFrom(more)
    ensures CaptureOf(Preface() + more) == Outcome(24 + CaptureFrames(more).kept, CaptureFrames(more).end)
  {
    assert (Preface() + more)[..24] == Preface() && (Preface() + more)[24..] == more;
  }

  lemma {:induction false} EmptySettingsAlone()
    ensures PreambleFrames(Preface() + EMPTY_SETTINGS) == Ok([Frame(FRAME_SETTINGS, 0, 0, [])])
  {
    BehindPreface(EMPTY_SETTINGS);
    EmptySettingsFirst([]);
    var first := [Frame(FRAME_SETTINGS, 0, 0, [])];
    assert EMPTY_SETTINGS + [] == EMPTY_SETTINGS && FramesFrom([]) == Ok([]) && first + [] == first;
  }

  lemma {:induction false} BothSettings(more: Bytes)
    requires |more| == 6
    ensures PreambleFrames(Preface() + (EMPTY_SETTINGS + (ONE_SETTING + more))).Ok?
  {
    BehindPreface(EMPTY_SETTINGS + (ONE_SETTING + more));
    EmptySettingsFirst(ONE_SETTING + more);
    HeaderRead(ONE_SETTING, 6, more);
    assert (ONE_SETTING + more)[15..] == [];
  }

  lemma {:induction false} CapturedThenCut(frames: Bytes, inTime: Bytes, late: Bytes)
    requires frames == EMPTY_SETTINGS + ONE_SETTING && inTime == Preface() + frames
    ensures Captured(inTime + late, |inTime|) == inTime && PreambleFrames(inTime) == Err(H2Error.Truncated)
  {
    BehindPreface(frames);
    EmptySettingsFirst(ONE_SETTING);
    OneSettingCut();
    InTimeAndLate(inTime, late);
  }

  /** When the deadline passes behind the header of the second frame, the capture does not parse and the first frame is
    * lost as well, although that frame alone parses, and so does all that is sent when six more octets are. */
  lemma {:induction false} CutCaptureIsLost(inTime: Bytes, late: Bytes)
    requires inTime == Preface() + (EMPTY_SETTINGS + ONE_SETTING)
    ensures PreambleFrames(Preface() + EMPTY_SETTINGS) == Ok([Frame(FRAME_SETTINGS, 0, 0, [])])
    ensures Captured(inTime + late, |inTime|) == inTime && PreambleFrames(inTime) == Err(H2Error.Truncated)
    ensures |late| == 6 ==> PreambleFrames(inTime + late).Ok?
  {
    EmptySettingsAlone();
    CapturedThenCut(EMPTY_SETTINGS + ONE_SETTING, inTime, late);
    assert inTime + late == Preface() + (EMPTY_SETTINGS + (ONE_SETTING + late));
    if |late| == 6 {
      BothSettings(late);
    }
  }

  // ----- and handed back -----

  /** Nothing but frames, none a HEADERS frame and none too large. */
  predicate WholeFrames(s: Bytes) {
    var r := FramesFrom(s);
    r.Ok? && LengthOf(r.value) == |s| && NoHeaders(r.value) && Modest(r.value)
  }

  /** No read comes up short in `t`: it is empty, or one frame header, or it starts with a HEADERS frame or with the
    * header of a frame that is too large. */
  predicate NoShortRead(t: Bytes) {
    || |t| == 0
    || |t| == 9
    || (|t| > 9 && (BigEndian(t[..3]) > MAX_FRAME || (t[3] == FRAME_HEADERS && FrameAt(t).Some?)))
  }

  /** Frames, and then no short read. */
  ghost predicate Replayable(buf: Bytes) {
    exists n :: 0 <= n <= |buf| && WholeFrames(buf[..n]) && NoShortRead(buf[n..])
  }

  lemma {:induction false} WholeFramesJoin(f: Frame, s: Bytes, t: Bytes)
    requires f.kind != FRAME_HEADERS && |f.payload| <= MAX_FRAME && |s| == 9 + |f.payload| + |t|
    requires FramesFrom(s) == Prepend([f], FramesFrom(t))
    ensures WholeFrames(s) <==> WholeFrames(t)
  {
    var r := FramesFrom(t);
    OneMoreModest(f, r);
    JoinFrame(f, r);
    if r.Ok? {
      assert forall g :: g in [f] + r.value <==> g == f || g in r.value;
    }
  }

  lemma {:induction false} EmptyIsReplayable()
    ensures WholeFrames([]) && Replayable([])
  {
    var none: Bytes := [];
    assert FramesFrom(none) == Ok([]);
    assert none[..0] == none && none[0..] == none;
    assert 0 <= 0 <= |none| && WholeFrames(none[..0]) && NoShortRead(none[0..]);
  }

  lemma {:induction false} SameLength(buf: Bytes, n: nat)
    requires n <= |buf|
    ensures n >= 9 ==> buf[..n][..3] == buf[..3]
  {
  }

  lemma {:induction false} FrontTooShort(buf: Bytes, n: nat)
    requires |buf| >= 9 && n <= |buf| && n < 9 + BigEndian(buf[..3]) && WholeFrames(buf[..n])
    ensures n == 0
  {
    SameLength(buf, n);
  }

  /** Cutting a stream behind its first frame and cutting what follows that frame. */
  lemma {:induction false} CutBehindFirst(buf: Bytes, f: Frame, n: nat)
    requires WholeFirst(buf) && FrameAt(buf) == Some(f) && f.kind != FRAME_HEADERS
    requires |f.payload| == BigEndian(buf[..3]) && 9 + |f.payload| + n <= |buf|
    ensures var end := 9 + |f.payload|;
      && (WholeFrames(buf[..end + n]) <==> WholeFrames(buf[end..][..n]))
      && buf[end + n..] == buf[end..][n..]
  {
    var end := 9 + |f.payload|;
    KeptFrames(buf, f, n);
    WholeFramesJoin(f, buf[..end + n], buf[end..][..n]);
  }

  lemma {:induction false} ReplayableOneMore(buf: Bytes, f: Frame)
    requires WholeFirst(buf) && FrameAt(buf) == Some(f) && f.kind != FRAME_HEADERS
    requires |f.payload| == BigEndian(buf[..3]) && Replayable(buf[9 + |f.payload|..])
    ensures Replayable(buf)
  {
    var rest := buf[9 + |f.payload|..];
    var n :| 0 <= n <= |rest| && WholeFrames(rest[..n]) && NoShortRead(rest[n..]);
    CutBehindFirst(buf, f, n);
  }

  lemma {:induction false} ReplayableOneLess(buf: Bytes, f: Frame)
    requires WholeFirst(buf) && FrameAt(buf) == Some(f) && f.kind != FRAME_HEADERS
    requires |f.payload| == BigEndian(buf[..3]) && Replayable(buf)
    ensures Replayable(buf[9 + |f.payload|..])
  {
    var end := 9 + |f.payload|;
    var n :| 0 <= n <= |buf| && WholeFrames(buf[..n]) && NoShortRead(buf[n..]);
    if n >= end {
      CutBehindFirst(buf, f, n - end);
    } else {
      FrontTooShort(buf, n);
      assert buf[0..] == buf;
      assert buf[end..] == [];
      EmptyIsReplayable();
    }
  }

  lemma {:induction false} StartIsReplayable(buf: Bytes)
    requires NoShortRead(buf)
    ensures Replayable(buf)
  {
    EmptyIsReplayable();
    assert buf[..0] == [] && buf[0..] == buf;
  }

  /** Where the first frame is not captured whole, or is a HEADERS frame. */
  lemma {:induction false} StartIffReplayable(buf: Bytes)
    requires !WholeFirst(buf) || buf[3] == FRAME_HEADERS
    ensures Replayable(buf) <==> NoShortRead(buf)
  {
    assert buf[0..] == buf;
    if NoShortRead(buf) {
      StartIsReplayable(buf);
    } else if Replayable(buf) {
      var n :| 0 <= n <= |buf| && WholeFrames(buf[..n]) && NoShortRead(buf[n..]);
      NoWholeFront(buf, n);
    }
  }

  lemma {:induction false} HeadersInFront(buf: Bytes, n: nat)
    requires 9 <= n <= |buf| && 9 + BigEndian(buf[..3]) <= n
    ensures var r := FramesFrom(buf[..n]);
      && (buf[3] == FRAME_HEADERS && r.Ok? ==> !NoHeaders(r.value))
      && (BigEndian(buf[..3]) > MAX_FRAME && r.Ok? ==> !Modest(r.value))
  {
    WholeFrame(buf, n);
    var r := FramesFrom(buf[..n]);
    if r.Ok? {
      assert r.value[0] == FrameAt(buf).value && r.value[0] in r.value;
    }
  }

  lemma {:induction false} NoWholeFront(buf: Bytes, n: nat)
    requires !WholeFirst(buf) || buf[3] == FRAME_HEADERS
    requires n <= |buf| && WholeFrames(buf[..n])
    ensures n == 0
  {
    if |buf| >= 9 {
      if n < 9 + BigEndian(buf[..3]) {
        FrontTooShort(buf, n);
      } else {
        HeadersInFront(buf, n);
      }
    }
  }

  /** Capturing takes no more than it keeps exactly when the stream is replayable. */
  lemma {:induction false} KeptIffReplayable(buf: Bytes)
    ensures Taken(CaptureFrames(buf), |buf|) == CaptureFrames(buf).kept <==> Replayable(buf)
    decreases |buf|
  {
    if WholeFirst(buf) && buf[3] != FRAME_HEADERS {
      WholeFrameKept(buf);
      var f := FrameAt(buf).value;
      KeptIffReplayable(buf[9 + |f.payload|..]);
      if Replayable(buf) {
        ReplayableOneLess(buf, f);
      } else if Replayable(buf[9 + |f.payload|..]) {
        ReplayableOneMore(buf, f);
      }
    } else {
      StartIffReplayable(buf);
    }
  }

  /** Nothing arrived in time, or the preface did and what is behind it is replayable. */
  ghost predicate NothingDropped(sent: Bytes, arrived: nat)
    requires arrived <= |sent|
  {
    arrived == 0 || (arrived >= 24 && Replayable(sent[24..arrived]))
  }

  lemma {:induction false} DroppedIff(sent: Bytes, arrived: nat)
    requires arrived <= |sent|
    ensures var c := CaptureOf(sent[..arrived]); Taken(c, arrived) == c.kept <==> NothingDropped(sent, arrived)
  {
    if arrived >= 24 {
      BehindPrefaceKept(sent, arrived);
      assert sent[24..][..arrived - 24] == sent[24..arrived];
      KeptIffReplayable(sent[24..arrived]);
    }
  }

  /** Handing the captured octets back before the rest of the connection makes up all that is sent exactly when nothing
    * arrived in time, or the preface did and what arrived behind it is frames with no short read behind them. Otherwise
    * all that arrived in time and was not captured is missing from the middle. */
  lemma {:induction false} ReplayIsWhole(sent: Bytes, arrived: nat)
    requires arrived <= |sent|
    ensures Captured(sent, arrived) + LeftBehind(sent, arrived) == sent <==> NothingDropped(sent, arrived)
    ensures !NothingDropped(sent, arrived) ==> LeftBehind(sent, arrived) == sent[arrived..]
    ensures !NothingDropped(sent, arrived) ==> |Captured(sent, arrived)| < arrived
  {
    DroppedIff(sent, arrived);
    var c := CaptureOf(sent[..arrived]);
    if Taken(c, arrived) == c.kept {
      assert sent[..c.kept] + sent[c.kept..] == sent;
    } else {
      assert |Captured(sent, arrived) + LeftBehind(sent, arrived)| < |sent|;
    }
  }

  lemma {:induction false} FrontBehind(front: Bytes, left: Bytes, sent: Bytes)
    requires front <= sent
    ensures front + left <= sent <==> left <= sent[|front|..]
  {
    assert sent == front + sent[|front|..];
    if front + left <= sent {
      assert sent[..|front + left|][|front|..] == left;
    }
  }

  /** However it is read, what is handed back and then read on is a front of what is sent exactly when nothing is
    * dropped or what comes late happens to go on where the capture stopped, as it does when nothing comes late. */
  lemma {:induction false} ReplayIsFront(sent: Bytes, arrived: nat)
    requires arrived <= |sent|
    ensures (forall polls :: Delivered(Captured(sent, arrived), LeftBehind(sent, arrived), polls) <= sent) <==>
      NothingDropped(sent, arrived) || sent[arrived..] <= sent[|Captured(sent, arrived)|..]
  {
    var front, left := Captured(sent, arrived), LeftBehind(sent, arrived);
    ReplayIsWhole(sent, arrived);
    FrontBehind(front, left, sent);
    var all := seq(|front| + |left|, _ => Poll(1, 1));
    OneByOne(|front| + |left|);
    EnoughDeliverAll(front, left, all);
    if front + left <= sent {
      forall polls
        ensures Delivered(front, left, polls) <= sent
      {
        DeliveredIsFront(front, left, polls);
      }
    }
  }

  /** When the deadline passes within the first frame header, that part of the header is neither captured nor left; what
    * comes late follows the preface. */
  lemma {:induction false} PartOfHeaderIsLost(part: Bytes, late: Bytes)
    requires 0 < |part| < 9
    ensures var inTime := Preface() + part;
      Captured(inTime + late, |inTime|) == Preface() && LeftBehind(inTime + late, |inTime|) == late
  {
    BehindPreface(part);
    InTimeAndLate(Preface() + part, late);
  }

  /** An octet in time and another one late: what is read is the preface and the second, which is no front of what was
    * sent. */
  lemma {:induction false} DeadlineLeavesHole()
    ensures var sent := Preface() + [1] + [2];
      && !(Preface() + [2] <= sent)
      && exists polls :: Delivered(Captured(sent, 25), LeftBehind(sent, 25), polls) == Preface() + [2]
  {
    var sent := Preface() + [1] + [2];
    PartOfHeaderIsLost([1], [2]);
    OneByOne(25);
    EnoughDeliverAll(Preface(), [2], seq(25, _ => Poll(1, 1)));
    assert (Preface() + [2])[24] == 2 && sent[24] == 1;
  }
}
