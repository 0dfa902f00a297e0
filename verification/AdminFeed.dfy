/** What one client of the admin feed is written: the snapshot first, then everything that arrives afterwards. */
module AdminFeed {
  import opened Locks
  import opened Results
  import opened Lists
  import opened ConnectionLog

  // ----- what one client writes -----

  /** What arrives on the receiving end of the channel. */
  datatype Event = Received(seqNo: nat) | Lagged

  /** The number of the last record written. */
  function Highest(written: seq<nat>): Option<nat> {
    if written == [] then None else Some(written[|written| - 1])
  }

  /** A record is written unless it is not above the last one written. */
  function Write(written: seq<nat>, seqNo: nat): seq<nat> {
    if Highest(written).Some? && seqNo <= Highest(written).value then written else written + [seqNo]
  }

  /** Everything written after `written`, for the records received since. */
  function WriteAll(written: seq<nat>, received: seq<nat>): seq<nat> {
    if received == [] then written
    else Write(WriteAll(written, received[..|received| - 1]), received[|received| - 1])
  }

  function ReceivedIn(events: seq<Event>): seq<nat> {
    if events == [] then []
    else
      match events[|events| - 1]
      case Received(n) => ReceivedIn(events[..|events| - 1]) + [n]
      case Lagged => ReceivedIn(events[..|events| - 1])
  }

  datatype Line = RecordLine(seqNo: nat) | SnapshotEnd(seqNo: nat)

  function AsLine(n: nat): Line { RecordLine(n) }

  /** A line for each record and one that says where the snapshot ends, at zero when it is empty. */
  function SnapshotLines(snapshot: seq<nat>): (r: seq<Line>)
    ensures |r| == |snapshot| + 1
  {
    Map(snapshot, AsLine) + [SnapshotEnd(if snapshot == [] then 0 else snapshot[|snapshot| - 1])]
  }

  /** Of records in order, there is a line for each, and the line behind them tells the greatest number among them, or
    * zero when there is none. */
  lemma {:induction false} SnapshotTells(snapshot: seq<nat>)
    requires Increasing(snapshot)
    ensures var lines, last := SnapshotLines(snapshot), |snapshot|;
      && (forall i :: 0 <= i < last ==> lines[i] == RecordLine(snapshot[i]))
      && lines[last].SnapshotEnd?
      && if last == 0 then lines[last].seqNo == 0
         else lines[last].seqNo in snapshot && forall n :: n in snapshot ==> n <= lines[last].seqNo
  {
  }

  /** The lines of a snapshot, and then a line for each record written of those received after it. */
  function LinesOf(snapshot: seq<nat>, received: seq<nat>): seq<Line> {
    WriteAllExtends(snapshot, received);
    SnapshotLines(snapshot) + Map(WriteAll(snapshot, received)[|snapshot|..], AsLine)
  }

  lemma {:induction false} WriteAllExtends(written: seq<nat>, received: seq<nat>)
    ensures written <= WriteAll(written, received)
  {
    if received != [] {
      WriteAllExtends(written, received[..|received| - 1]);
    }
  }

  lemma {:induction false} ReceivedOneMore(written: seq<nat>, snapshot: seq<nat>, received: seq<nat>, n: nat)
    requires written == WriteAll(snapshot, received)
    ensures WriteAll(snapshot, received + [n]) == Write(written, n)
  {
    assert (received + [n])[..|received|] == received;
  }

  lemma {:induction false} OneLineMore(front: seq<Line>, w: seq<nat>, k: nat, n: nat)
    requires k <= |w|
    ensures front + Map((w + [n])[k..], AsLine) == front + Map(w[k..], AsLine) + [RecordLine(n)]
  {
    assert (w + [n])[k..] == w[k..] + [n];
    assert Map(w[k..] + [n], AsLine) == Map(w[k..], AsLine) + [RecordLine(n)];
  }

  lemma {:induction false} LineForOneMore(snapshot: seq<nat>, received: seq<nat>, n: nat)
    ensures var w := WriteAll(snapshot, received);
      LinesOf(snapshot, received + [n]) ==
        if Highest(w).Some? && n <= Highest(w).value then LinesOf(snapshot, received)
        else LinesOf(snapshot, received) + [RecordLine(n)]
  {
    var w := WriteAll(snapshot, received);
    ReceivedOneMore(w, snapshot, received, n);
    WriteAllExtends(snapshot, received);
    OneLineMore(SnapshotLines(snapshot), w, |snapshot|, n);
  }

  /** One more event adds at most one line, behind those there are. */
  lemma {:induction false} LineForEvent(snapshot: seq<nat>, events: seq<Event>, i: nat)
    requires i < |events|
    ensures var w := WriteAll(snapshot, ReceivedIn(events[..i]));
      var lines := LinesOf(snapshot, ReceivedIn(events[..i]));
      LinesOf(snapshot, ReceivedIn(events[..i + 1])) ==
        if events[i].Lagged? || (Highest(w).Some? && events[i].seqNo <= Highest(w).value) then lines
        else lines + [RecordLine(events[i].seqNo)]
    ensures WriteAll(snapshot, ReceivedIn(events[..i + 1])) ==
      var w := WriteAll(snapshot, ReceivedIn(events[..i]));
      if events[i].Lagged? then w else Write(w, events[i].seqNo)
  {
    assert events[..i + 1][..i] == events[..i];
    if events[i].Received? {
      LineForOneMore(snapshot, ReceivedIn(events[..i]), events[i].seqNo);
      ReceivedOneMore(WriteAll(snapshot, ReceivedIn(events[..i])), snapshot, ReceivedIn(events[..i]), events[i].seqNo);
    }
  }

  lemma {:induction false} ChainedFronts<T>(a: seq<T>, b: seq<T>, c: seq<T>)
    requires a <= b <= c
    ensures a <= c
  {
  }

  lemma {:induction false} LinesGrow(snapshot: seq<nat>, events: seq<Event>, i: nat)
    requires i <= |events|
    ensures LinesOf(snapshot, ReceivedIn(events[..i])) <= LinesOf(snapshot, ReceivedIn(events))
    decreases |events| - i
  {
    if i < |events| {
      LineForEvent(snapshot, events, i);
      LinesGrow(snapshot, events, i + 1);
      ChainedFronts(LinesOf(snapshot, ReceivedIn(events[..i])), LinesOf(snapshot, ReceivedIn(events[..i + 1])),
                    LinesOf(snapshot, ReceivedIn(events)));
    } else {
      assert events[..i] == events;
    }
  }

  /** The other end of a client's socket, which takes so many lines and then fails. */
  class Peer {
    var lines: seq<Line>
    const room: nat

    constructor (room: nat)
      ensures lines == [] && this.room == room
    {
      this.lines, this.room := [], room;
    }

    method WriteLine(line: Line) returns (ok: bool)
      modifies this
      ensures ok <==> |old(lines)| < room
      ensures lines == if ok then old(lines) + [line] else old(lines)
    {
      ok := |lines| < room;
      if ok {
        lines := lines + [line];
      }
    }
  }

  lemma {:induction false} NumbersNext(snapshot: seq<Record>, i: nat)
    requires i < |snapshot|
    ensures Numbers(snapshot[..i + 1]) == Numbers(snapshot[..i]) + [snapshot[i].seqNo]
    ensures Map(Numbers(snapshot[..i + 1]), AsLine) ==
      Map(Numbers(snapshot[..i]), AsLine) + [RecordLine(snapshot[i].seqNo)]
    ensures Map(Numbers(snapshot[..i]), AsLine) <= Map(Numbers(snapshot), AsLine)
  {
  }

  method WriteSnapshot(out: Peer, snapshot: seq<Record>) returns (ok: bool, highest: Option<nat>)
    requires out.lines == []
    modifies out
    ensures var all := SnapshotLines(Numbers(snapshot));
      (ok <==> |all| <= out.room) && out.lines == if ok then all else all[..out.room]
    ensures ok ==> highest == Highest(Numbers(snapshot))
  {
    highest := None;
    for i := 0 to |snapshot|
      invariant out.lines == Map(Numbers(snapshot[..i]), AsLine) && i <= out.room
      invariant highest == Highest(Numbers(snapshot[..i]))
    {
      NumbersNext(snapshot, i);
      ok := out.WriteLine(RecordLine(snapshot[i].seqNo));
      if !ok {
        return;
      }
      highest := Some(snapshot[i].seqNo);
    }
    assert snapshot[..|snapshot|] == snapshot;
    ok := out.WriteLine(SnapshotEnd(if highest.Some? then highest.value else 0));
  }

  /** The loop has handled the first `i` events. */
  ghost predicate FeedAt(snapshot: seq<nat>, events: seq<Event>, i: nat, lines: seq<Line>, highest: Option<nat>) {
    forall k: int {:trigger Key(k)} :: Key(k) && k == FEED_LOOP ==>
      && i <= |events|
      && lines == LinesOf(snapshot, ReceivedIn(events[..i]))
      && highest == Highest(WriteAll(snapshot, ReceivedIn(events[..i])))
  }

  /** Writing stops at `room` lines, when there is one more to be written. */
  lemma {:induction false} StoppedAt(lines: seq<Line>, line: Line, all: seq<Line>, room: nat)
    requires lines + [line] <= all && |lines| <= room
    ensures |lines| == room ==> room < |all| && lines == all[..room]
  {
  }

  lemma {:induction false} StoppedInFront(front: seq<Line>, all: seq<Line>, room: nat)
    requires front <= all && room < |front|
    ensures room < |all| && front[..room] == all[..room]
  {
  }

  lemma {:induction false} FeedStarts(snapshot: seq<nat>, events: seq<Event>)
    ensures FeedAt(snapshot, events, 0, SnapshotLines(snapshot), Highest(snapshot))
    ensures SnapshotLines(snapshot) <= LinesOf(snapshot, ReceivedIn(events))
  {
    assert events[..0] == [] && snapshot[|snapshot|..] == [];
    assert SnapshotLines(snapshot) + [] == SnapshotLines(snapshot);
  }

  lemma {:induction false} FeedTurns(snapshot: seq<nat>, events: seq<Event>, i: nat, lines: seq<Line>,
                                     highest: Option<nat>)
    requires i < |events| && FeedAt(snapshot, events, i, lines, highest)
    ensures if events[i].Lagged? || (highest.Some? && events[i].seqNo <= highest.value)
      then FeedAt(snapshot, events, i + 1, lines, highest)
      else
        var more := lines + [RecordLine(events[i].seqNo)];
        FeedAt(snapshot, events, i + 1, more, Some(events[i].seqNo)) && more <= LinesOf(snapshot, ReceivedIn(events))
  {
    assert Key(FEED_LOOP);
    LineForEvent(snapshot, events, i);
    LinesGrow(snapshot, events, i + 1);
  }

  lemma {:induction false} FeedEnds(snapshot: seq<nat>, events: seq<Event>, lines: seq<Line>, highest: Option<nat>)
    requires FeedAt(snapshot, events, |events|, lines, highest)
    ensures lines == LinesOf(snapshot, ReceivedIn(events))
  {
    assert Key(FEED_LOOP);
    assert events[..|events|] == events;
  }

  /** Writes the snapshot, where it ends, and then what the channel delivers until it is closed or writing fails. */
  method HandleClient(out: Peer, snapshot: seq<Record>, events: seq<Event>) returns (ok: bool)
    requires out.lines == []
    modifies out
    ensures var all := LinesOf(Numbers(snapshot), ReceivedIn(events));
      (ok <==> |all| <= out.room) && out.lines == if ok then all else all[..out.room]
  {
    ghost var numbers, all := Numbers(snapshot), LinesOf(Numbers(snapshot), ReceivedIn(events));
    var highest: Option<nat>;
    ok, highest := WriteSnapshot(out, snapshot);
    FeedStarts(numbers, events);
    if !ok {
      StoppedInFront(SnapshotLines(numbers), all, out.room);
      return;
    }
    for i := 0 to |events|
      invariant ok && FeedAt(numbers, events, i, out.lines, highest) && |out.lines| <= out.room
    {
      FeedTurns(numbers, events, i, out.lines, highest);
      if events[i].Lagged? {
        // The client fell behind. The gap shows in the numbers.
        continue;
      }
      var n := events[i].seqNo;
      if highest.Some? && n <= highest.value {
        continue;
      }
      highest := Some(n);
      StoppedAt(out.lines, RecordLine(n), all, out.room);
      ok := out.WriteLine(RecordLine(n));
      if !ok {
        return;
      }
    }
    FeedEnds(numbers, events, out.lines, highest);
  }

  /** Nothing is written twice or out of order, whatever arrives. */
  lemma {:induction false} WrittenIncreases(written: seq<nat>, received: seq<nat>)
    requires Increasing(written)
    ensures Increasing(WriteAll(written, received))
    ensures written <= WriteAll(written, received)
  {
    if received != [] {
      WrittenIncreases(written, received[..|received| - 1]);
    }
  }

  /** What is received above `bound`, in order of arrival. */
  function Above(bound: int, received: seq<nat>): (r: seq<nat>)
    ensures forall n :: n in r <==> n in received && n > bound
  {
    if received == [] then []
    else
      var n := received[|received| - 1];
      Above(bound, received[..|received| - 1]) + if n > bound then [n] else []
  }

  function Floor(written: seq<nat>): int {
    if written == [] then -1 else written[|written| - 1]
  }

  lemma LastOff(a: seq<nat>, b: seq<nat>, n: nat)
    ensures a + [n] == b + [n] ==> a == b
  {
    if a + [n] == b + [n] {
      assert (a + [n])[..|a|] == a && (b + [n])[..|b|] == b;
    }
  }

  lemma IncreasingAppended(s: seq<nat>, n: nat)
    ensures Increasing(s + [n]) <==> Increasing(s) && (s == [] || s[|s| - 1] < n)
  {
    var t := s + [n];
    if Increasing(t) {
      forall i, j | 0 <= i < j < |s|
        ensures s[i] < s[j]
      {
        assert t[i] < t[j];
      }
      assert s == [] || t[|s| - 1] < t[|s|];
    }
  }

  lemma WriteStep(snapshot: seq<nat>, above: seq<nat>, w: seq<nat>, n: nat)
    requires n > Floor(snapshot) && |w| <= |snapshot| + |above|
    requires w == snapshot + above <==> Increasing(above)
    requires |w| == |snapshot| + |above| <==> Increasing(above)
    ensures Write(w, n) == snapshot + (above + [n]) <==> Increasing(above + [n])
    ensures |Write(w, n)| == |snapshot| + |above + [n]| <==> Increasing(above + [n])
  {
    IncreasingAppended(above, n);
    assert snapshot + (above + [n]) == (snapshot + above) + [n];
    LastOff(w, snapshot + above, n);
    if w == snapshot + above {
      assert Floor(w) == if above == [] then Floor(snapshot) else above[|above| - 1];
    }
  }

  /** Of what arrives above the snapshot everything is written exactly when it arrives in increasing order; anything
    * else loses a record for good. */
  lemma {:induction false} AllWrittenIffInOrder(snapshot: seq<nat>, received: seq<nat>)
    requires Increasing(snapshot)
    ensures WriteAll(snapshot, received) == snapshot + Above(Floor(snapshot), received) <==>
      Increasing(Above(Floor(snapshot), received))
    ensures |WriteAll(snapshot, received)| <= |snapshot| + |Above(Floor(snapshot), received)|
    ensures |WriteAll(snapshot, received)| == |snapshot| + |Above(Floor(snapshot), received)| <==>
      Increasing(Above(Floor(snapshot), received))
  {
    if received == [] {
      assert snapshot + [] == snapshot;
    } else {
      var init, n := received[..|received| - 1], received[|received| - 1];
      var w, above := WriteAll(snapshot, init), Above(Floor(snapshot), init);
      AllWrittenIffInOrder(snapshot, init);
      if n > Floor(snapshot) {
        WriteStep(snapshot, above, w, n);
      } else {
        WrittenIncreases(snapshot, init);
        assert above + [] == above;
        assert w[|snapshot| - 1] == Floor(snapshot);
      }
    }
  }
}
