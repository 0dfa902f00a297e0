/** What the frames of a preamble carry: SETTINGS, WINDOW_UPDATE, PRIORITY and the header block fragment. */
module H2Fields {
  import opened Bits
  import opened Results
  import opened Readers
  import opened H2Frames

  datatype Setting = Setting(id: u16, value: u32)

  datatype Priority = Priority(streamId: u32, exclusive: bool, dependsOn: u32, weight: u16)

  predicate HasFlag(flags: u8, flag: u8)
    requires flag > 0
  {
    (flags / flag) % 2 == 1
  }

  // ----- SETTINGS -----

  lemma {:induction false} WithinWidth(s: Bytes)
    ensures |s| == 2 ==> BigEndian(s) < 0x1_0000
    ensures |s| == 4 ==> BigEndian(s) < 0x1_0000_0000
  {
    Pow256Values();
  }

  function SettingOf(c: Bytes): Setting
    requires |c| == 6
  {
    WithinWidth(c[..2]);
    WithinWidth(c[2..]);
    Setting(BigEndian(c[..2]), BigEndian(c[2..]))
  }

  /** The pairs of one payload, in wire order. */
  function PairsOf(payload: Bytes): (r: seq<Setting>)
    requires |payload| % 6 == 0
    ensures 6 * |r| == |payload|
  {
    if payload == [] then [] else [SettingOf(payload[..6])] + PairsOf(payload[6..])
  }

  /** What one frame contributes: nothing unless it is a SETTINGS frame of whole pairs. */
  function PairsIn(f: Frame): seq<Setting> {
    if f.kind == FRAME_SETTINGS && |f.payload| % 6 == 0 then PairsOf(f.payload) else []
  }

  function SettingsOf(frames: seq<Frame>): seq<Setting> {
    if frames == [] then [] else PairsIn(frames[0]) + SettingsOf(frames[1..])
  }

  lemma SettingsTurn(frames: seq<Frame>, i: nat, out: seq<Setting>)
    requires i < |frames|
    ensures out + SettingsOf(frames[i..]) == out + PairsIn(frames[i]) + SettingsOf(frames[i + 1..])
  {
    assert frames[i..][1..] == frames[i + 1..];
  }

  method SettingsPairs(frames: seq<Frame>) returns (out: seq<Setting>)
    ensures out == SettingsOf(frames)
  {
    out := [];
    for i := 0 to |frames|
      invariant out + SettingsOf(frames[i..]) == SettingsOf(frames)
    {
      var f := frames[i];
      SettingsTurn(frames, i, out);
      if f.kind == FRAME_SETTINGS {
        if |f.payload| % 6 != 0 {
          assert out + PairsIn(f) == out;
          continue;
        }
        out := PayloadPairs(f.payload, out);
      } else {
        assert out + PairsIn(f) == out;
      }
    }
    assert out + [] == out;
  }

  method PayloadPairs(payload: Bytes, front: seq<Setting>) returns (out: seq<Setting>)
    requires |payload| % 6 == 0
    ensures out == front + PairsOf(payload)
  {
    out := front;
    var rest: Bytes := payload;
    while rest != []
      invariant |rest| % 6 == 0
      invariant out + PairsOf(rest) == front + PairsOf(payload)
      decreases |rest|
    {
      var c: Bytes := rest[..6];
      BigEndianOfFew(c[..2]);
      BigEndianOfFew(c[2..]);
      ghost var one := SettingOf(c);
      assert out + ([one] + PairsOf(rest[6..])) == out + [one] + PairsOf(rest[6..]);
      out := out + [Setting(0x100 * (c[0] as int) + c[1],
                            0x100_0000 * (c[2] as int) + 0x1_0000 * (c[3] as int) + 0x100 * (c[4] as int) + c[5])];
      rest := rest[6..];
    }
  }

  // ----- WINDOW_UPDATE and PRIORITY -----

  function FirstOfKind(frames: seq<Frame>, kind: u8): (r: Option<Frame>)
    ensures r.None? ==> forall f :: f in frames ==> f.kind != kind
    ensures r.Some? ==> r.value in frames && r.value.kind == kind
  {
    if frames == [] then None
    else if frames[0].kind == kind then Some(frames[0])
    else FirstOfKind(frames[1..], kind)
  }

  /** A 31-bit field below a reserved or exclusive bit. */
  function Low31(s: Bytes): (r: u32)
    requires |s| >= 4
    ensures r < RESERVED_BIT
  {
    BigEndian(s[..4]) % RESERVED_BIT
  }

  function WindowUpdate(frames: seq<Frame>): (r: Option<u32>)
    ensures r.Some? ==> r.value < RESERVED_BIT
  {
    match FirstOfKind(frames, FRAME_WINDOW_UPDATE)
    case None => None
    case Some(f) => if |f.payload| < 4 then None else Some(Low31(f.payload))
  }

  function Priorities(frames: seq<Frame>): seq<Priority> {
    if frames == [] then []
    else
      var f := frames[0];
      (if f.kind == FRAME_PRIORITY && |f.payload| >= 5 then [PriorityOf(f)] else []) + Priorities(frames[1..])
  }

  function PriorityOf(f: Frame): Priority
    requires |f.payload| >= 5
  {
    Priority(f.streamId, f.payload[0] >= 0x80, Low31(f.payload), (f.payload[4] as int) + 1)
  }

  lemma {:induction false} NoPriorities(frames: seq<Frame>)
    requires forall f :: f in frames ==> f.kind != FRAME_PRIORITY
    ensures Priorities(frames) == []
  {
    if frames != [] {
      NoPriorities(frames[1..]);
    }
  }

  // ----- HEADERS -----

  /** The fragment of a HEADERS payload, section 6.2 of RFC 7540: behind the pad length and the priority fields, before
    * the padding; empty when they do not fit. */
  function Fragment(f: Frame): Bytes {
    var padded, prioritised := HasFlag(f.flags, FLAG_PADDED), HasFlag(f.flags, FLAG_PRIORITY);
    var start := (if padded then 1 else 0) + (if prioritised then 5 else 0);
    if start > |f.payload| then []
    else
      var padding: nat := if padded then f.payload[0] else 0;
      if start + padding > |f.payload| then [] else f.payload[start..|f.payload| - padding]
  }

  method HeaderBlockFragment(f: Frame) returns (r: Bytes)
    ensures r == Fragment(f)
  {
    var body: Bytes := f.payload;
    var padLen: nat := 0;
    if HasFlag(f.flags, FLAG_PADDED) {
      if body == [] {
        return [];
      }
      padLen := body[0];
      body := body[1..];
    }
    if HasFlag(f.flags, FLAG_PRIORITY) {
      if |body| < 5 {
        return [];
      }
      Slices(f.payload, |f.payload| - |body|);
      body := body[5..];
    }
    if padLen > |body| {
      return [];
    }
    Slices(f.payload, |f.payload| - |body|);
    return body[..|body| - padLen];
  }

  /** A HEADERS payload laid out by section 6.2 of RFC 7540. */
  function Laid(padded: bool, prioritised: bool, priority: Bytes, fragment: Bytes, padding: Bytes): Bytes
    requires |padding| < 0x100
  {
    (if padded then [|padding|] else []) + (if prioritised then priority else []) + fragment
    + (if padded then padding else [])
  }

  lemma FragmentOfLaid(f: Frame, priority: Bytes, fragment: Bytes, padding: Bytes)
    requires |priority| == 5 && |padding| < 0x100
    requires f.payload ==
      Laid(HasFlag(f.flags, FLAG_PADDED), HasFlag(f.flags, FLAG_PRIORITY), priority, fragment, padding)
    ensures Fragment(f) == fragment
  {
    var padded, prioritised := HasFlag(f.flags, FLAG_PADDED), HasFlag(f.flags, FLAG_PRIORITY);
    var start := (if padded then 1 else 0) + (if prioritised then 5 else 0);
    assert f.payload[start..start + |fragment|] == fragment;
  }
}
