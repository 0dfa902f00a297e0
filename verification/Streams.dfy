/** The byte stream adapters: one hands consumed octets back before the live stream, the other copies what is read. */
module Streams {
  import opened Sequences
  import opened Bits

  /** The first `n` octets, or all of them. */
  function Prefix(s: Bytes, n: nat): (r: Bytes)
    ensures r <= s && |r| == if |s| < n then |s| else n
  {
    s[..if |s| < n then |s| else n]
  }

  function Least(a: nat, b: nat): nat {
    if a < b then a else b
  }

  /** A stream that gives its octets in chunks of its own choosing. What it has not given yet is `ahead`. */
  class Source {
    var ahead: Bytes

    constructor (content: Bytes)
      ensures ahead == content
    {
      ahead := content;
    }

    /** At most `room` octets, and at most as many as have arrived. */
    method PollRead(room: nat, arrived: nat) returns (chunk: Bytes)
      modifies this
      ensures chunk + ahead == old(ahead)
      ensures chunk == Prefix(old(ahead), Least(room, arrived))
    {
      chunk := Prefix(ahead, Least(room, arrived));
      ahead := ahead[|chunk|..];
    }
  }

  // ----- replaying -----

  /** One read: the space the reader has, and what the live stream has to give. */
  datatype Poll = Poll(room: nat, arrived: nat)

  /** The buffer first, and the live stream when the buffer is empty. */
  function Chunk(buffered: Bytes, live: Bytes, p: Poll): Bytes {
    if buffered != [] then Prefix(buffered, p.room) else Prefix(live, Least(p.room, p.arrived))
  }

  /** What a read leaves of the buffer and of the live stream. */
  function Left(buffered: Bytes, live: Bytes, p: Poll): (r: (Bytes, Bytes))
    ensures Chunk(buffered, live, p) + (r.0 + r.1) == buffered + live
  {
    var n := |Chunk(buffered, live, p)|;
    if buffered != [] then
      assert buffered[..n] + (buffered[n..] + live) == buffered + live;
      (buffered[n..], live)
    else
      assert live[..n] + ([] + live[n..]) == buffered + live;
      ([], live[n..])
  }

  /** Everything a reader gets with a sequence of reads. */
  function Delivered(buffered: Bytes, live: Bytes, polls: seq<Poll>): Bytes
    decreases |polls|
  {
    if polls == [] then []
    else
      var left := Left(buffered, live, polls[0]);
      Chunk(buffered, live, polls[0]) + Delivered(left.0, left.1, polls[1..])
  }

  /** What a sequence of reads leaves of the buffer and of the live stream. */
  function Remaining(buffered: Bytes, live: Bytes, polls: seq<Poll>): (Bytes, Bytes)
    decreases |polls|
  {
    if polls == [] then (buffered, live)
    else
      var left := Left(buffered, live, polls[0]);
      Remaining(left.0, left.1, polls[1..])
  }

  /** However the reads are cut, what a reader got and what remains are the buffer followed by the live stream: nothing
    * is lost, repeated or reordered. */
  lemma {:induction false} NothingIsDropped(buffered: Bytes, live: Bytes, polls: seq<Poll>)
    ensures var rest := Remaining(buffered, live, polls);
      Delivered(buffered, live, polls) + (rest.0 + rest.1) == buffered + live
    decreases |polls|
  {
    if polls == [] {
      assert [] + (buffered + live) == buffered + live;
    } else {
      var left := Left(buffered, live, polls[0]);
      NothingIsDropped(left.0, left.1, polls[1..]);
      var rest := Remaining(left.0, left.1, polls[1..]);
      Associate(Chunk(buffered, live, polls[0]), Delivered(left.0, left.1, polls[1..]), rest.0 + rest.1);
    }
  }

  lemma {:induction false} DeliveredIsFront(buffered: Bytes, live: Bytes, polls: seq<Poll>)
    ensures Delivered(buffered, live, polls) <= buffered + live
  {
    NothingIsDropped(buffered, live, polls);
  }

  /** How many of the reads have room, and something to give should the buffer be empty. */
  function Useful(polls: seq<Poll>): nat {
    if polls == [] then 0
    else (if polls[0].room > 0 && polls[0].arrived > 0 then 1 else 0) + Useful(polls[1..])
  }

  /** As many useful reads as there are octets deliver them all. */
  lemma {:induction false} EnoughDeliverAll(buffered: Bytes, live: Bytes, polls: seq<Poll>)
    requires Useful(polls) >= |buffered| + |live|
    ensures Delivered(buffered, live, polls) == buffered + live && Remaining(buffered, live, polls) == ([], [])
    decreases |polls|
  {
    if polls != [] {
      var left := Left(buffered, live, polls[0]);
      EnoughDeliverAll(left.0, left.1, polls[1..]);
    }
  }

  lemma {:induction false} OneByOne(n: nat)
    ensures Useful(seq(n, _ => Poll(1, 1))) == n
  {
    if n > 0 {
      assert seq(n, _ => Poll(1, 1))[1..] == seq(n - 1, _ => Poll(1, 1));
      OneByOne(n - 1);
    }
  }

  class Replaying {
    const buf: Bytes
    var pos: nat
    const inner: Source
    /** Everything handed to the reader so far, and everything it is to see in all. */
    ghost var delivered: Bytes
    ghost const whole: Bytes

    /** Whatever the chunks were, what was delivered and what is still to come is the buffer and
      * then the live stream. */
    ghost predicate Valid()
      reads this, inner
    {
      && pos <= |buf|
      && delivered + (buf[pos..] + inner.ahead) == whole
    }

    constructor (buf: Bytes, inner: Source)
      ensures Valid() && this.inner == inner && this.buf == buf
      ensures delivered == [] && whole == buf + inner.ahead
    {
      this.buf := buf;
      this.inner := inner;
      pos := 0;
      delivered := [];
      whole := buf + inner.ahead;
    }

    /** Reads into a buffer with `room` for octets, when the live stream has `arrived` octets to give. */
    method PollRead(room: nat, arrived: nat) returns (chunk: Bytes)
      requires Valid()
      modifies this, inner
      ensures Valid()
      ensures delivered == old(delivered) + chunk
      ensures chunk == Chunk(old(buf[pos..]), old(inner.ahead), Poll(room, arrived))
      ensures (buf[pos..], inner.ahead) == Left(old(buf[pos..]), old(inner.ahead), Poll(room, arrived))
    {
      if pos < |buf| {
        var take := Least(room, |buf| - pos);
        chunk := buf[pos..pos + take];
        ReplayTurn(delivered, buf, pos, take, inner.ahead);
        pos := pos + take;
      } else {
        ghost var before := inner.ahead;
        chunk := inner.PollRead(room, arrived);
        assert buf[pos..] == [];
        assert delivered + ([] + before) == (delivered + chunk) + ([] + inner.ahead);
      }
      delivered := delivered + chunk;
    }
  }

  lemma ReplayTurn(delivered: Bytes, buf: Bytes, pos: nat, take: nat, live: Bytes)
    requires pos + take <= |buf|
    ensures delivered + (buf[pos..] + live) == (delivered + buf[pos..pos + take]) + (buf[pos + take..] + live)
  {
  }

  // ----- recording -----

  class Recording {
    const inner: Source
    var seen: Bytes
    const cap: nat
    /** Everything read through this stream. */
    ghost var passed: Bytes
    ghost const whole: Bytes

    /** The copy is the first `cap` octets of what passed, and what passed is the front of the stream. */
    ghost predicate Valid()
      reads this, inner
    {
      seen == Prefix(passed, cap) && passed + inner.ahead == whole
    }

    constructor (inner: Source, cap: nat)
      ensures Valid() && this.inner == inner && this.cap == cap && passed == [] && whole == inner.ahead
    {
      this.inner := inner;
      this.cap := cap;
      seen, passed := [], [];
      whole := inner.ahead;
    }

    /** The caller gets every octet; only the copy is bounded. */
    method PollRead(room: nat, arrived: nat) returns (chunk: Bytes)
      requires Valid()
      modifies this, inner
      ensures Valid()
      ensures passed == old(passed) + chunk && chunk + inner.ahead == old(inner.ahead)
      ensures chunk == Prefix(old(inner.ahead), Least(room, arrived))
    {
      chunk := inner.PollRead(room, arrived);
      if chunk != [] {
        var left := if |seen| < cap then cap - |seen| else 0;
        CopyTurn(passed, chunk, cap);
        if left > 0 {
          seen := seen + chunk[..Least(left, |chunk|)];
        }
      }
      ghost var before := passed;
      passed := passed + chunk;
      assert passed + inner.ahead == before + (chunk + inner.ahead);
    }
  }

  lemma CopyTurn(passed: Bytes, chunk: Bytes, cap: nat)
    ensures var seen := Prefix(passed, cap);
      Prefix(passed + chunk, cap) == seen + Prefix(chunk, if |seen| < cap then cap - |seen| else 0)
  {
  }
}
