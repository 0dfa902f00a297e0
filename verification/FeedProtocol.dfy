/** The admin feed as a state machine: every interleaving of logging, sending, subscribing, taking the snapshot and
  * receiving.
  *
  * A publisher numbers a record and stores it in the log in one step, and sends it in a later one; in between, other
  * publishers may do the same and send first. A viewer subscribes, takes the log's snapshot some time later, and then
  * receives. One that falls more than the channel's depth behind is moved forward to the oldest record still held.
  */
module FeedProtocol {
  import opened Results
  import opened Lists
  import opened ConnectionLog
  import opened AdminFeed

  const BROADCAST_DEPTH := 256

  /** The numbers `low` up to but not including `high` that the log held. */
  datatype Snapshot = Snapshot(low: nat, high: nat)

  /** `start` and `cursor` are positions in what has been sent; `received` is a history of what was received. */
  datatype Viewer = Viewer(start: nat, cursor: nat, snapshot: Option<Snapshot>, received: seq<nat>, lagged: bool)

  /** `pending` holds what is logged and not yet sent, `sent` everything sent so far. */
  datatype State = State(
    capacity: nat, nextSeq: nat, low: nat, pending: set<nat>, sent: seq<nat>, viewers: map<nat, Viewer>)

  datatype Step = Push | Send(n: nat) | Subscribe(v: nat) | TakeSnapshot(v: nat) | Receive(v: nat) | Lag(v: nat)

  function Initial(capacity: nat): State {
    State(if capacity < 1 then 1 else capacity, 0, 0, {}, [], map[])
  }

  predicate Enabled(s: State, step: Step) {
    match step
    case Push => true
    case Send(n) => n in s.pending
    case Subscribe(v) => v !in s.viewers
    case TakeSnapshot(v) => v in s.viewers && s.viewers[v].snapshot.None?
    case Receive(v) =>
      v in s.viewers && s.viewers[v].snapshot.Some? && 1 <= |s.sent| - s.viewers[v].cursor <= BROADCAST_DEPTH
    case Lag(v) =>
      v in s.viewers && s.viewers[v].snapshot.Some? && |s.sent| - s.viewers[v].cursor > BROADCAST_DEPTH
  }

  function Next(s: State, step: Step): State
    requires Enabled(s, step)
  {
    match step
    case Push =>
      // The log holds the newest records, as many as its capacity.
      var low := if s.nextSeq + 1 - s.low > s.capacity then s.low + 1 else s.low;
      s.(nextSeq := s.nextSeq + 1, low := low, pending := s.pending + {s.nextSeq})
    case Send(n) => s.(pending := s.pending - {n}, sent := s.sent + [n])
    case Subscribe(v) => s.(viewers := s.viewers[v := Viewer(|s.sent|, |s.sent|, None, [], false)])
    case TakeSnapshot(v) =>
      s.(viewers := s.viewers[v := s.viewers[v].(snapshot := Some(Snapshot(s.low, s.nextSeq)))])
    case Receive(v) =>
      var w := s.viewers[v];
      s.(viewers := s.viewers[v := w.(cursor := w.cursor + 1, received := w.received + [s.sent[w.cursor]])])
    case Lag(v) =>
      s.(viewers := s.viewers[v := s.viewers[v].(cursor := |s.sent| - BROADCAST_DEPTH, lagged := true)])
  }

  /** The state after a run, if every step of it was possible. */
  function After(capacity: nat, run: seq<Step>): Option<State> {
    if run == [] then Some(Initial(capacity))
    else
      var before, step := After(capacity, run[..|run| - 1]), run[|run| - 1];
      if before.Some? && Enabled(before.value, step) then Some(Next(before.value, step)) else None
  }

  /** What a viewer has been written. */
  function Written(w: Viewer): seq<nat>
    requires w.snapshot.Some?
  {
    WriteAll(Range(w.snapshot.value.low, w.snapshot.value.high), w.received)
  }

  // ----- invariants -----

  ghost predicate LogInv(s: State) {
    s.capacity >= 1 && s.low <= s.nextSeq
    && s.nextSeq - s.low == if s.nextSeq < s.capacity then s.nextSeq else s.capacity
  }

  /** Everything logged is either still pending or sent, and sent once. */
  ghost predicate SentInv(s: State) {
    && |s.sent| + |s.pending| == s.nextSeq
    && Distinct(s.sent)
    && (forall n :: n in s.pending ==> n < s.nextSeq && n !in s.sent)
    && (forall n :: n in s.sent ==> n < s.nextSeq)
    && (forall n: nat :: n < s.nextSeq ==> n in s.pending || n in s.sent)
  }

  ghost predicate ViewerInv(s: State, w: Viewer) {
    && w.start <= w.cursor <= |s.sent|
    && (w.snapshot.None? ==> w.received == [] && w.cursor == w.start && !w.lagged)
    && (w.snapshot.Some? ==>
      var t := w.snapshot.value;
      && t.low <= t.high <= s.nextSeq && (t.low == t.high ==> t.high == 0)
      && w.start <= t.high
      && forall n :: n in s.sent[..w.start] ==> n < t.high)
    && (!w.lagged ==> w.received == s.sent[w.start..w.cursor])
  }

  ghost predicate Inv(s: State) {
    LogInv(s) && SentInv(s) && forall v :: v in s.viewers ==> ViewerInv(s, s.viewers[v])
  }

  /** Viewers are not disturbed by pushing and sending. */
  lemma ViewerKept(s: State, t: State, w: Viewer)
    requires ViewerInv(s, w) && s.sent <= t.sent && s.nextSeq <= t.nextSeq
    ensures ViewerInv(t, w)
  {
    assert t.sent[..w.start] == s.sent[..w.start];
    assert t.sent[w.start..w.cursor] == s.sent[w.start..w.cursor];
  }

  lemma {:induction false} PushKeepsSent(s: State)
    requires SentInv(s)
    ensures SentInv(Next(s, Push))
  {
    assert s.nextSeq !in s.pending;
    assert |s.pending + {s.nextSeq}| == |s.pending| + 1;
  }

  lemma {:induction false} SendKeepsSent(s: State, n: nat)
    requires SentInv(s) && n in s.pending
    ensures SentInv(Next(s, Send(n)))
  {
    DistinctAppended(s.sent, n);
    assert |s.pending - {n}| == |s.pending| - 1;
    assert forall m :: m in s.sent + [n] <==> m in s.sent || m == n;
  }

  lemma {:induction false} SentKept(s: State, step: Step)
    requires SentInv(s) && Enabled(s, step)
    ensures SentInv(Next(s, step))
  {
    match step
    case Push => PushKeepsSent(s);
    case Send(n) => SendKeepsSent(s, n);
    case Subscribe(_) =>
    case TakeSnapshot(_) =>
    case Receive(_) =>
    case Lag(_) =>
  }

  lemma SubscribeKeeps(s: State, v: nat)
    requires Inv(s) && Enabled(s, Subscribe(v))
    ensures var t := Next(s, Subscribe(v)); ViewerInv(t, t.viewers[v])
  {
  }

  lemma SnapshotKeeps(s: State, v: nat)
    requires Inv(s) && Enabled(s, TakeSnapshot(v))
    ensures var t := Next(s, TakeSnapshot(v)); ViewerInv(t, t.viewers[v])
  {
    var w := s.viewers[v];
    assert forall n :: n in s.sent[..w.start] ==> n in s.sent;
  }

  lemma ReceiveKeeps(s: State, v: nat)
    requires Inv(s) && Enabled(s, Receive(v))
    ensures var t := Next(s, Receive(v)); ViewerInv(t, t.viewers[v])
  {
    var w := s.viewers[v];
    assert s.sent[w.start..w.cursor] + [s.sent[w.cursor]] == s.sent[w.start..w.cursor + 1];
  }

  lemma LagKeeps(s: State, v: nat)
    requires Inv(s) && Enabled(s, Lag(v))
    ensures var t := Next(s, Lag(v)); ViewerInv(t, t.viewers[v])
  {
  }

  lemma ViewersKept(s: State, step: Step, v: nat)
    requires Inv(s) && Enabled(s, step) && v in Next(s, step).viewers
    ensures ViewerInv(Next(s, step), Next(s, step).viewers[v])
  {
    if v in s.viewers && Next(s, step).viewers[v] == s.viewers[v] {
      ViewerKept(s, Next(s, step), s.viewers[v]);
    } else {
      match step
      case Subscribe(_) => SubscribeKeeps(s, v);
      case TakeSnapshot(_) => SnapshotKeeps(s, v);
      case Receive(_) => ReceiveKeeps(s, v);
      case Lag(_) => LagKeeps(s, v);
    }
  }

  /** Every step keeps the invariant. */
  lemma StepKeeps(s: State, step: Step)
    requires Inv(s) && Enabled(s, step)
    ensures Inv(Next(s, step))
  {
    SentKept(s, step);
    var t := Next(s, step);
    forall v | v in t.viewers
      ensures ViewerInv(t, t.viewers[v])
    {
      ViewersKept(s, step, v);
    }
  }

  lemma {:induction false} RunKeeps(capacity: nat, run: seq<Step>)
    requires After(capacity, run).Some?
    ensures Inv(After(capacity, run).value)
  {
    if run != [] {
      RunKeeps(capacity, run[..|run| - 1]);
      StepKeeps(After(capacity, run[..|run| - 1]).value, run[|run| - 1]);
    }
  }

  // ----- what viewers are written -----

  lemma RangeIncreases(low: nat, high: nat)
    ensures Increasing(Range(low, high))
  {
  }

  /** Over every run, no viewer is ever written a number twice or out of order: not across the seam between the snapshot
    * and the live records, and whatever order concurrent publishers send in. */
  lemma {:induction false} NoDuplicates(capacity: nat, run: seq<Step>, s: State, v: nat)
    requires After(capacity, run) == Some(s) && v in s.viewers
    ensures s.viewers[v].snapshot.Some? ==> Increasing(Written(s.viewers[v]))
  {
    var w := s.viewers[v];
    if w.snapshot.Some? {
      RangeIncreases(w.snapshot.value.low, w.snapshot.value.high);
      WrittenIncreases(Range(w.snapshot.value.low, w.snapshot.value.high), w.received);
    }
  }

  /** Sends happened in the order of the numbers. */
  predicate InOrder(s: State) {
    s.sent == Range(0, |s.sent|)
  }

  lemma RangeSplits(low: nat, mid: nat, high: nat)
    requires low <= mid <= high
    ensures Range(low, high) == Range(low, mid) + Range(mid, high)
  {
  }

  lemma RangeAppended(low: nat, high: nat)
    requires low <= high
    ensures Range(low, high + 1) == Range(low, high) + [high]
  {
  }

  lemma WriteNext(low: nat, high: nat, n: nat)
    requires low <= high && n <= high && (low == high ==> high == 0)
    ensures Write(Range(low, high), n) == if n == high then Range(low, high + 1) else Range(low, high)
  {
    RangeAppended(low, high);
  }

  lemma {:induction false} ExtendsOnce(snapshot: seq<nat>, low: nat, high: nat, start: nat, cursor: nat)
    requires low <= high && start <= cursor <= high && (low == high ==> high == 0)
    requires WriteAll(snapshot, Range(start, cursor)) == Range(low, high)
    ensures WriteAll(snapshot, Range(start, cursor + 1)) ==
      Range(low, if cursor == high then high + 1 else high)
  {
    RangeAppended(start, cursor);
    ReceivedOneMore(Range(low, high), snapshot, Range(start, cursor), cursor);
    WriteNext(low, high, cursor);
  }

  /** Receiving consecutive numbers that start within the snapshot extends it without a gap. */
  lemma {:induction false} ConsecutiveExtends(low: nat, high: nat, start: nat, cursor: nat)
    requires low <= high && start <= high && start <= cursor
    requires low == high ==> high == 0
    ensures WriteAll(Range(low, high), Range(start, cursor)) == Range(low, if cursor > high then cursor else high)
    decreases cursor - start
  {
    if start == cursor {
      assert Range(start, cursor) == [];
    } else {
      ConsecutiveExtends(low, high, start, cursor - 1);
      ExtendsOnce(Range(low, high), low, if cursor - 1 > high then cursor - 1 else high, start, cursor - 1);
    }
  }

  lemma UnbrokenRun(s: State, w: Viewer)
    requires SentInv(s) && ViewerInv(s, w) && InOrder(s) && !w.lagged && w.snapshot.Some?
    ensures var low, high := w.snapshot.value.low, w.snapshot.value.high;
      && Written(w) == Range(low, if w.cursor > high then w.cursor else high)
      && (s.pending == {} && w.cursor == |s.sent| ==> Written(w) == Range(low, s.nextSeq))
  {
    assert s.sent[w.start..w.cursor] == Range(w.start, w.cursor);
    ConsecutiveExtends(w.snapshot.value.low, w.snapshot.value.high, w.start, w.cursor);
  }

  /** With sends in order and no lag nothing is lost: over every run a viewer has been written one unbroken run of
    * numbers from the first record of its snapshot, up to the newest in the snapshot or received. Once all is sent
    * and received that run reaches the last record logged. */
  lemma {:induction false} NothingIsLost(capacity: nat, run: seq<Step>, s: State, v: nat)
    requires After(capacity, run) == Some(s) && v in s.viewers
    ensures var w := s.viewers[v];
      InOrder(s) && !w.lagged && w.snapshot.Some? ==>
        var low, high := w.snapshot.value.low, w.snapshot.value.high;
        && Written(w) == Range(low, if w.cursor > high then w.cursor else high)
        && (s.pending == {} && w.cursor == |s.sent| ==> Written(w) == Range(low, s.nextSeq))
  {
    RunKeeps(capacity, run);
    var w := s.viewers[v];
    if InOrder(s) && !w.lagged && w.snapshot.Some? {
      UnbrokenRun(s, w);
    }
  }

  // ----- exactly when -----

  lemma {:induction false} AboveIsDistinct(bound: int, s: seq<nat>)
    requires Distinct(s)
    ensures Distinct(Above(bound, s))
  {
    if s != [] {
      AboveIsDistinct(bound, s[..|s| - 1]);
      if s[|s| - 1] > bound {
        assert s[|s| - 1] !in s[..|s| - 1];
        DistinctAppended(Above(bound, s[..|s| - 1]), s[|s| - 1]);
      }
    }
  }

  lemma {:induction false} IncreasingIsRange(s: seq<nat>, low: nat, high: nat)
    requires Increasing(s) && |s| == high - low
    requires forall n :: n in s ==> low <= n < high
    ensures s == Range(low, high)
  {
    if s != [] {
      var last := |s| - 1;
      BoundedBelow(s, low, last);
      assert s[last] in s;
      assert s[last] == high - 1;
      forall i | 0 <= i < last
        ensures low <= s[i] < high - 1
      {
        assert s[i] in s && s[i] < s[last];
      }
      IncreasingIsRange(s[..last], low, high - 1);
      assert s == s[..last] + [s[last]];
    }
  }

  lemma {:induction false} BoundedBelow(s: seq<nat>, low: nat, i: nat)
    requires Increasing(s) && i < |s| && forall n :: n in s ==> low <= n
    ensures s[i] >= low + i
  {
    if i > 0 {
      BoundedBelow(s, low, i - 1);
    } else {
      assert s[0] in s;
    }
  }

  /** Everything logged since the snapshot reaches a viewer that has received all: it was sent after the viewer
    * subscribed. */
  lemma AllAboveArrive(s: State, w: Viewer)
    requires SentInv(s) && ViewerInv(s, w) && s.pending == {} && w.snapshot.Some?
    requires !w.lagged && w.cursor == |s.sent|
    ensures var above := Above(w.snapshot.value.high - 1, w.received);
      Distinct(above) && |above| == s.nextSeq - w.snapshot.value.high
      && forall n :: n in above ==> w.snapshot.value.high <= n < s.nextSeq
  {
    var high: int := w.snapshot.value.high;
    var above := Above(high - 1, w.received);
    assert w.received == s.sent[w.start..];
    AboveIsDistinct(high - 1, w.received);
    assert s.sent == s.sent[..w.start] + s.sent[w.start..];
    RangeIncreases(high, s.nextSeq);
    InRangeIff(high, s.nextSeq);
    assert Distinct(Range(high, s.nextSeq));
    forall n: nat
      ensures n in above <==> n in Range(high, s.nextSeq)
    {
      assert n in s.sent <==> n in s.sent[..w.start] || n in w.received;
    }
    SameElements(above, Range(high, s.nextSeq));
  }

  lemma InRangeIff(low: nat, high: nat)
    ensures forall n: nat :: n in Range(low, high) <==> low <= n < high
  {
    forall n: nat | low <= n < high
      ensures n in Range(low, high)
    {
      assert Range(low, high)[n - low] == n;
    }
  }

  /** A viewer that has received everything there is, without lag. */
  predicate Drained(s: State, w: Viewer) {
    s.pending == {} && w.snapshot.Some? && !w.lagged && w.cursor == |s.sent|
  }

  lemma DrainedIff(s: State, w: Viewer)
    requires SentInv(s) && ViewerInv(s, w) && Drained(s, w)
    ensures Written(w) == Range(w.snapshot.value.low, s.nextSeq) <==>
      Increasing(Above(w.snapshot.value.high - 1, w.received))
  {
    var low: int, high: int := w.snapshot.value.low, w.snapshot.value.high;
    var above := Above(high - 1, w.received);
    RangeIncreases(low, high);
    AllWrittenIffInOrder(Range(low, high), w.received);
    AllAboveArrive(s, w);
    assert Floor(Range(low, high)) == high - 1;
    if Increasing(above) {
      IncreasingIsRange(above, high, s.nextSeq);
      RangeSplits(low, high, s.nextSeq);
    }
  }

  lemma {:induction false} WhenDrained(s: State, w: Viewer)
    requires SentInv(s) && ViewerInv(s, w)
    ensures Drained(s, w) ==>
      (Written(w) == Range(w.snapshot.value.low, s.nextSeq) <==>
        Increasing(Above(w.snapshot.value.high - 1, w.received)))
  {
    if Drained(s, w) {
      DrainedIff(s, w);
    }
  }

  /** Exactly when nothing is lost, whatever the order of sending: a viewer that has not lagged and has received all
    * ends up with every number from the first record of its snapshot to the last record logged if and only if the
    * records logged after its snapshot reached it in increasing order. */
  lemma {:induction false} NothingIsLostIff(capacity: nat, run: seq<Step>, s: State, v: nat)
    requires After(capacity, run) == Some(s) && v in s.viewers
    ensures var w := s.viewers[v];
      Drained(s, w) ==>
        (Written(w) == Range(w.snapshot.value.low, s.nextSeq) <==>
          Increasing(Above(w.snapshot.value.high - 1, w.received)))
  {
    RunKeeps(capacity, run);
    WhenDrained(s, s.viewers[v]);
  }

  // ----- a run that loses a record -----

  function LosingRun(): seq<Step> {
    [Subscribe(0), TakeSnapshot(0), Push, Push, Send(1), Send(0), Receive(0), Receive(0)]
  }

  function LosingState(capacity: nat, i: nat): State {
    var s, w := Initial(capacity), Viewer(0, 0, Some(Snapshot(0, 0)), [], false);
    var low := if s.capacity < 2 then 1 else 0;
    match i
    case 0 => s
    case 1 => s.(viewers := map[0 := w.(snapshot := None)])
    case 2 => s.(viewers := map[0 := w])
    case 3 => s.(viewers := map[0 := w], nextSeq := 1, pending := {0})
    case 4 => s.(viewers := map[0 := w], nextSeq := 2, low := low, pending := {0, 1})
    case 5 => s.(viewers := map[0 := w], nextSeq := 2, low := low, pending := {0}, sent := [1])
    case 6 => s.(viewers := map[0 := w], nextSeq := 2, low := low, sent := [1, 0])
    case 7 =>
      s.(viewers := map[0 := w.(cursor := 1, received := [1])], nextSeq := 2, low := low, sent := [1, 0])
    case _ =>
      s.(viewers := map[0 := w.(cursor := 2, received := [1, 0])], nextSeq := 2, low := low, sent := [1, 0])
  }

  lemma LoggedAndSent(capacity: nat, i: nat)
    requires i < 6
    ensures var s := LosingState(capacity, i);
      Enabled(s, LosingRun()[i]) && Next(s, LosingRun()[i]) == LosingState(capacity, i + 1)
  {
    var t, u := Next(LosingState(capacity, i), LosingRun()[i]), LosingState(capacity, i + 1);
    assert t.viewers == u.viewers && t.pending == u.pending && t.sent == u.sent;
  }

  lemma ReceivedBoth(capacity: nat, i: nat)
    requires 6 <= i < 8
    ensures var s := LosingState(capacity, i);
      Enabled(s, LosingRun()[i]) && Next(s, LosingRun()[i]) == LosingState(capacity, i + 1)
  {
    var t, u := Next(LosingState(capacity, i), LosingRun()[i]), LosingState(capacity, i + 1);
    assert t.viewers[0].received == u.viewers[0].received;
    assert t.viewers == u.viewers;
  }

  lemma {:induction false} LosingRunReaches(capacity: nat, run: seq<Step>, i: nat)
    requires run == LosingRun() && i <= |run|
    ensures After(capacity, run[..i]) == Some(LosingState(capacity, i))
  {
    if i > 0 {
      LosingRunReaches(capacity, run, i - 1);
      if i <= 6 {
        LoggedAndSent(capacity, i - 1);
      } else {
        ReceivedBoth(capacity, i - 1);
      }
      assert run[..i][..i - 1] == run[..i - 1];
    }
  }

  /** Concurrent publishers can send out of order, and then a record is lost without lag: here two records are logged
    * after an empty snapshot, the second is sent first, and the viewer never gets the first. */
  lemma {:induction false} OutOfOrderLoses(capacity: nat, run: seq<Step>)
    requires run == LosingRun()
    ensures After(capacity, run).Some?
    ensures var s := After(capacity, run).value;
      0 in s.viewers && Drained(s, s.viewers[0]) && s.nextSeq == 2 && Written(s.viewers[0]) == [1]
  {
    LosingRunReaches(capacity, run, |run|);
    assert run[..|run|] == run;
    OnlyTheSecond();
  }

  lemma OnlyTheSecond()
    ensures WriteAll(Range(0, 0), [1, 0]) == [1]
  {
    var none: seq<nat> := [];
    assert Range(0, 0) == none;
    ReceivedOneMore(none, none, none, 1);
    assert none + [1] == [1];
    ReceivedOneMore([1], none, [1], 0);
    assert [1] + [0] == [1, 0];
  }
}
