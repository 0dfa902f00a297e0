/** A viewer at the end of the feed: what its flag tells, over every interleaving, of the records it was never sent. */
module ViewerFeed {
  import opened Results
  import opened Lists
  import opened ConnectionLog
  import opened AdminFeed
  import opened FeedProtocol
  import View = Viewer

  // ----- nothing but logged records is written -----

  ghost predicate ReceivedSent(s: State) {
    forall v, n :: v in s.viewers && n in s.viewers[v].received ==> n in s.sent
  }

  lemma {:induction false} StepReceivesSent(s: State, step: Step)
    requires Inv(s) && Enabled(s, step) && ReceivedSent(s)
    ensures ReceivedSent(Next(s, step))
  {
    var t := Next(s, step);
    forall v, n | v in t.viewers && n in t.viewers[v].received
      ensures n in t.sent
    {
      if v in s.viewers && n in s.viewers[v].received {
        assert n in s.sent;
      }
    }
  }

  lemma {:induction false} RunReceivesSent(capacity: nat, run: seq<Step>)
    requires After(capacity, run).Some?
    ensures ReceivedSent(After(capacity, run).value)
  {
    if run != [] {
      var init := run[..|run| - 1];
      RunReceivesSent(capacity, init);
      RunKeeps(capacity, init);
      StepReceivesSent(After(capacity, init).value, run[|run| - 1]);
    }
  }

  lemma {:induction false} WrittenAmong(snapshot: seq<nat>, received: seq<nat>)
    ensures forall n :: n in WriteAll(snapshot, received) ==> n in snapshot || n in received
  {
    if received != [] {
      WrittenAmong(snapshot, received[..|received| - 1]);
      assert received == received[..|received| - 1] + [received[|received| - 1]];
    }
  }

  lemma {:induction false} WrittenAreLogged(capacity: nat, run: seq<Step>, s: State, v: nat)
    requires After(capacity, run) == Some(s) && v in s.viewers && s.viewers[v].snapshot.Some?
    ensures forall n :: n in Written(s.viewers[v]) ==> n < s.nextSeq
  {
    RunKeeps(capacity, run);
    RunReceivesSent(capacity, run);
    var w := s.viewers[v];
    var t := w.snapshot.value;
    WrittenAmong(Range(t.low, t.high), w.received);
    InRangeIff(t.low, t.high);
    forall n | n in Written(w)
      ensures n < s.nextSeq
    {
      if n in w.received {
        assert n in s.sent;
      } else {
        assert n in Range(t.low, t.high);
      }
    }
  }

  // ----- what the flag tells -----

  /** Increasing numbers without a gap are a range. */
  lemma {:induction false} NoGapIsRange(s: seq<nat>)
    requires Increasing(s) && s != []
    ensures (forall n: nat :: s[0] < n < s[|s| - 1] ==> n in s) <==> s == Range(s[0], s[|s| - 1] + 1)
  {
    var last := |s| - 1;
    var r := Range(s[0], s[last] + 1);
    RangeIncreases(s[0], s[last] + 1);
    InRangeIff(s[0], s[last] + 1);
    if forall n: nat :: s[0] < n < s[last] ==> n in s {
      forall n: nat
        ensures n in s <==> n in r
      {
        if n in s {
          var i :| 0 <= i < |s| && s[i] == n;
          assert s[0] <= s[i] <= s[last];
        }
      }
      IncreasingIsDistinct(s);
      IncreasingIsDistinct(r);
      SameElements(s, r);
      IncreasingIsRange(s, s[0], s[last] + 1);
    }
  }

  lemma {:induction false} IncreasingIsDistinct(s: seq<nat>)
    requires Increasing(s)
    ensures Distinct(s)
  {
  }

  /** After every interleaving, of a viewer that has the rows it was written: they were all logged, its flag is set
    * exactly when a record between its first and its last row was never written to it, and while the flag is clear it
    * has every record between those two and lacks exactly the ones before and behind them. */
  lemma {:induction false} FlagTells(capacity: nat, run: seq<Step>, s: State, v: nat, rows: seq<Record>)
    requires After(capacity, run) == Some(s) && v in s.viewers && s.viewers[v].snapshot.Some?
    requires Numbers(rows) == Written(s.viewers[v]) && rows != []
    ensures var first, last := rows[0].seqNo, rows[|rows| - 1].seqNo;
      && first <= last < s.nextSeq
      && (View.HasJump(rows) <==> exists n: nat :: first < n < last && n !in Written(s.viewers[v]))
      && (!View.HasJump(rows) ==>
           forall n: nat :: n < s.nextSeq ==> (n !in Written(s.viewers[v]) <==> n < first || last < n))
  {
    var w := Written(s.viewers[v]);
    NoDuplicates(capacity, run, s, v);
    WrittenAreLogged(capacity, run, s, v);
    View.JumpIsMissingRow(rows);
    NoGapIsRange(w);
    if View.HasJump(rows) {
      var n: nat :| rows[0].seqNo < n < rows[|rows| - 1].seqNo && View.Missing(rows, n);
      assert n !in w;
    }
    forall n: nat | n !in w
      ensures View.Missing(rows, n)
    {
    }
    assert w[0] in w && w[|w| - 1] in w && w[0] <= w[|w| - 1];
    InRangeIff(w[0], w[|w| - 1] + 1);
  }

  /** The flag does not tell of a record lost before the first row: in the losing run it stays clear. */
  lemma {:induction false} FlagMisses(capacity: nat, run: seq<Step>, rows: seq<Record>)
    requires run == LosingRun()
    ensures After(capacity, run).Some?
    ensures var s := After(capacity, run).value;
      && 0 in s.viewers && Drained(s, s.viewers[0]) && 0 < s.nextSeq && 0 !in Written(s.viewers[0])
      && (Numbers(rows) == Written(s.viewers[0]) ==> !View.HasJump(rows))
  {
    OutOfOrderLoses(capacity, run);
  }
}
