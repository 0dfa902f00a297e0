/** The header tables of section 2.3 of RFC 7541: the dynamic table as an evicting queue, and index lookup. */
module HeaderTables {
  import opened Sequences
  import opened Bits
  import opened Results
  import opened HpackErrors

  datatype Header = Header(name: Bytes, value: Bytes)

  const ENTRY_OVERHEAD := 32
  const DEFAULT_MAX_SIZE := 4096
  const ABSOLUTE_MAX_SIZE := 0x10_0000
  const STATIC_LENGTH := 61

  function Cost(h: Header): nat {
    |h.name| + |h.value| + ENTRY_OVERHEAD
  }

  function SaturatingSub(a: nat, b: nat): nat {
    if a >= b then a - b else 0
  }

  function SizeOf(entries: seq<Header>): nat {
    if entries == [] then 0 else SizeOf(entries[..|entries| - 1]) + Cost(entries[|entries| - 1])
  }

  // ----- the abstract table -----

  /** The dynamic table, newest entry first. */
  datatype Table = Table(entries: seq<Header>, maxSize: nat)

  const EMPTY := Table([], DEFAULT_MAX_SIZE)

  /** What evicting from the old end leaves. */
  function Fit(entries: seq<Header>, maxSize: nat): seq<Header> {
    if SizeOf(entries) <= maxSize then entries
    else Fit(entries[..|entries| - 1], maxSize)
  }

  function Resized(t: Table, size: nat): Table {
    var maxSize := if size < ABSOLUTE_MAX_SIZE then size else ABSOLUTE_MAX_SIZE;
    Table(Fit(t.entries, maxSize), maxSize)
  }

  function Inserted(t: Table, h: Header): Table {
    if Cost(h) > t.maxSize then t.(entries := [])
    else t.(entries := Fit([h] + t.entries, t.maxSize))
  }

  ghost predicate Sound(t: Table) {
    SizeOf(t.entries) <= t.maxSize <= ABSOLUTE_MAX_SIZE
  }

  lemma {:induction false} SizeOfConcat(a: seq<Header>, b: seq<Header>)
    ensures SizeOf(a + b) == SizeOf(a) + SizeOf(b)
  {
    if b == [] {
      assert a + b == a;
    } else {
      LastOff(a, b);
      SizeOfConcat(a, b[..|b| - 1]);
    }
  }

  /** Eviction keeps the longest run of newest entries that fits: no less than it must drop, no more. */
  lemma {:induction false} FitIsLongest(entries: seq<Header>, maxSize: nat)
    ensures var kept := Fit(entries, maxSize);
      && kept <= entries
      && SizeOf(kept) <= maxSize
      && forall n :: |kept| < n <= |entries| ==> SizeOf(entries[..n]) > maxSize
    decreases |entries|
  {
    if SizeOf(entries) > maxSize {
      var shorter := entries[..|entries| - 1];
      FitIsLongest(shorter, maxSize);
      forall n | |Fit(entries, maxSize)| < n <= |entries|
        ensures SizeOf(entries[..n]) > maxSize
      {
        if n < |entries| {
          assert entries[..n] == shorter[..n];
        } else {
          assert entries[..n] == entries;
        }
      }
    }
  }

  /** Adding first and evicting afterwards is what section 4.4 of RFC 7541 prescribes: evict to make room, then add. */
  lemma {:induction false} InsertMakesRoomFirst(h: Header, entries: seq<Header>, maxSize: nat)
    requires Cost(h) <= maxSize
    ensures Fit([h] + entries, maxSize) == [h] + Fit(entries, maxSize - Cost(h))
    decreases |entries|
  {
    SizeOfConcat([h], entries);
    assert SizeOf([h]) == Cost(h) by { assert [h][..0] == []; }
    if SizeOf(entries) > maxSize - Cost(h) {
      assert ([h] + entries)[..|entries|] == [h] + entries[..|entries| - 1];
      InsertMakesRoomFirst(h, entries[..|entries| - 1], maxSize);
    }
  }

  // ----- every run -----

  datatype Operation = Inserting(h: Header) | Resizing(size: nat)

  function Run(ops: seq<Operation>): Table {
    if ops == [] then EMPTY
    else
      var t := Run(ops[..|ops| - 1]);
      match ops[|ops| - 1]
      case Inserting(h) => Inserted(t, h)
      case Resizing(size) => Resized(t, size)
  }

  /** All headers inserted by a run, newest first. */
  function Offered(ops: seq<Operation>): seq<Header> {
    if ops == [] then []
    else
      match ops[|ops| - 1]
      case Inserting(h) => [h] + Offered(ops[..|ops| - 1])
      case Resizing(_) => Offered(ops[..|ops| - 1])
  }

  /** Over every run of insertions and size updates the table is within its limit, the limit is within the absolute
    * one, and the entries are the most recent insertions in order, without gaps. */
  lemma {:induction false} RunIsSound(ops: seq<Operation>)
    ensures Sound(Run(ops))
    ensures Run(ops).entries <= Offered(ops)
  {
    if ops != [] {
      var t := Run(ops[..|ops| - 1]);
      RunIsSound(ops[..|ops| - 1]);
      match ops[|ops| - 1]
      case Inserting(h) =>
        FitIsLongest([h] + t.entries, t.maxSize);
      case Resizing(size) =>
        FitIsLongest(t.entries, Run(ops).maxSize);
    }
  }

  // ----- lookup -----

  /** The entry at a one-based index into the static table followed by the dynamic one. */
  function Lookup(statics: seq<Header>, entries: seq<Header>, index: nat): (r: Result<Header, HpackError>)
    ensures r.Ok? <==> 1 <= index <= |statics| + |entries|
    ensures r.Ok? ==> r.value == (statics + entries)[index - 1]
    ensures r.Err? ==> r.error == BadIndex(index)
  {
    if index == 0 then Err(BadIndex(0))
    else if index <= |statics| then Ok(statics[index - 1])
    else if index - |statics| - 1 < |entries| then Ok(entries[index - |statics| - 1])
    else Err(BadIndex(index))
  }

  // ----- the mutable table -----

  class DynamicTable {
    var entries: seq<Header>
    var size: nat
    var maxSize: nat

    ghost predicate Valid()
      reads this
    {
      size == SizeOf(entries) && Sound(Abstract())
    }

    ghost function Abstract(): Table
      reads this
    {
      Table(entries, maxSize)
    }

    constructor ()
      ensures Valid() && Abstract() == EMPTY
    {
      entries, size, maxSize := [], 0, DEFAULT_MAX_SIZE;
    }

    method SetMaxSize(newSize: nat)
      requires Valid()
      modifies this
      ensures Valid() && Abstract() == Resized(old(Abstract()), newSize)
    {
      maxSize := if newSize < ABSOLUTE_MAX_SIZE then newSize else ABSOLUTE_MAX_SIZE;
      EvictToFit();
    }

    method Insert(name: Bytes, value: Bytes)
      requires Valid()
      modifies this
      ensures Valid() && Abstract() == Inserted(old(Abstract()), Header(name, value))
    {
      var entrySize := |name| + |value| + ENTRY_OVERHEAD;
      if entrySize > maxSize {
        entries := [];
        size := 0;
        return;
      }
      SizeOfConcat([Header(name, value)], entries);
      assert [Header(name, value)][..0] == [];
      entries := [Header(name, value)] + entries;
      size := size + entrySize;
      EvictToFit();
    }

    /** Pops the oldest entries until the size fits. The subtraction saturates at zero in form only: the size is
      * always the sum of the entries' costs. */
    method EvictToFit()
      requires size == SizeOf(entries) && maxSize <= ABSOLUTE_MAX_SIZE
      modifies this`entries, this`size
      ensures Valid() && entries == Fit(old(entries), maxSize)
    {
      while size > maxSize
        invariant size == SizeOf(entries)
        invariant Fit(entries, maxSize) == Fit(old(entries), maxSize)
        decreases |entries|
      {
        if entries == [] {
          // An empty table has size zero, so the loop has ended before there is nothing to pop.
          assert false;
        }
        var last := entries[|entries| - 1];
        entries := entries[..|entries| - 1];
        size := SaturatingSub(size, Cost(last));
      }
    }
  }
}
