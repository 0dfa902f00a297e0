/** The bounded history of recent connections, and the order of numbers it hands out. */
module ConnectionLog {
  import opened Bits

  /** A record; `content` stands for everything but its number. */
  datatype Record = Record(seqNo: nat, content: Bytes)

  predicate Increasing(s: seq<nat>) {
    forall i, j :: 0 <= i < j < |s| ==> s[i] < s[j]
  }

  /** The numbers from `low` up to but not including `high`. */
  function Range(low: nat, high: nat): (r: seq<nat>)
    ensures |r| == if low <= high then high - low else 0
    ensures forall i :: 0 <= i < |r| ==> r[i] == low + i
  {
    if low <= high then seq(high - low, i requires 0 <= i < high - low => low + i) else []
  }

  function Newest<T>(s: seq<T>, n: nat): (r: seq<T>)
    ensures |r| == if |s| < n then |s| else n
  {
    if |s| <= n then s else s[|s| - n..]
  }

  /** The numbers of consecutive records. */
  ghost predicate Consecutive(records: seq<Record>, end: nat) {
    |records| <= end && forall i :: 0 <= i < |records| ==> records[i].seqNo == end - |records| + i
  }

  class Log {
    var records: seq<Record>
    var nextSeq: nat
    const capacity: nat

    /** Oldest first, the numbers run without a gap up to the next one, and the log is full as soon as it can be. */
    ghost predicate Valid()
      reads this
    {
      capacity >= 1 && Consecutive(records, nextSeq)
      && |records| == if nextSeq < capacity then nextSeq else capacity
    }

    /** Clamped to at least one. */
    constructor (capacity: nat)
      ensures Valid() && records == [] && nextSeq == 0
      ensures this.capacity == if capacity < 1 then 1 else capacity
    {
      this.capacity := if capacity < 1 then 1 else capacity;
      records, nextSeq := [], 0;
    }

    /** Numbers the record and evicts from the old end. */
    method Push(content: Bytes) returns (seqNo: nat)
      requires Valid()
      modifies this
      ensures Valid()
      ensures seqNo == old(nextSeq) && nextSeq == seqNo + 1
      ensures records == Newest(old(records) + [Record(seqNo, content)], capacity)
    {
      seqNo := nextSeq;
      nextSeq := nextSeq + 1;
      ghost var pushed := records + [Record(seqNo, content)];
      records := records + [Record(seqNo, content)];
      while |records| > capacity
        invariant nextSeq == seqNo + 1
        invariant capacity <= |records| || records == pushed
        invariant |records| <= |pushed| && records == pushed[|pushed| - |records|..]
      {
        records := records[1..];
      }
    }

    method Snapshot() returns (r: seq<Record>)
      requires Valid()
      ensures r == records
    {
      r := records;
    }
  }

  function Numbers(records: seq<Record>): (r: seq<nat>)
    ensures |r| == |records| && forall i :: 0 <= i < |r| ==> r[i] == records[i].seqNo
  {
    seq(|records|, i requires 0 <= i < |records| => records[i].seqNo)
  }

  // ----- every run of pushes -----

  /** All records pushed so far, numbered. */
  function Stamped(contents: seq<Bytes>): (r: seq<Record>)
    ensures |r| == |contents|
    ensures forall i :: 0 <= i < |r| ==> r[i] == Record(i, contents[i])
  {
    seq(|contents|, i requires 0 <= i < |contents| => Record(i, contents[i]))
  }

  /** The log after each push keeps the newest of all it has been given: evicting at every push loses no more than
    * evicting once. */
  lemma NewestOfNewest(history: seq<Record>, r: Record, capacity: nat)
    requires capacity >= 1
    ensures Newest(Newest(history, capacity) + [r], capacity) == Newest(history + [r], capacity)
  {
  }

  /** What a fresh log holds after pushing `contents` one by one. */
  function Pushed(contents: seq<Bytes>, capacity: nat): seq<Record> {
    if contents == [] then []
    else
      var last := |contents| - 1;
      Newest(Pushed(contents[..last], capacity) + [Record(last, contents[last])], capacity)
  }

  /** Over every run of pushes the log is the newest part of the whole history. */
  lemma {:induction false} LogIsNewestOfHistory(contents: seq<Bytes>, capacity: nat)
    requires capacity >= 1
    ensures Pushed(contents, capacity) == Newest(Stamped(contents), capacity)
  {
    if contents != [] {
      var last := |contents| - 1;
      LogIsNewestOfHistory(contents[..last], capacity);
      NewestOfNewest(Stamped(contents[..last]), Record(last, contents[last]), capacity);
      assert Stamped(contents) == Stamped(contents[..last]) + [Record(last, contents[last])];
    }
  }

  /** Over every run of pushes a snapshot is one run of numbers that ends just before the next one. */
  lemma {:induction false} SnapshotIsRange(contents: seq<Bytes>, capacity: nat)
    requires capacity >= 1
    ensures var n := |contents|;
      Numbers(Pushed(contents, capacity)) == Range(if n < capacity then 0 else n - capacity, n)
  {
    LogIsNewestOfHistory(contents, capacity);
  }
}
