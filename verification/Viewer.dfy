/** The viewer's list of rows, and the flag that says rows are missing. */
module Viewer {
  import opened Results
  import opened Lists
  import opened ConnectionLog

  const VIEW_CAPACITY := 2000

  /** Some row arrived with a number more than one above that of the row before it. */
  predicate HasJump(history: seq<Record>) {
    exists i :: 0 <= i < |history| - 1 && history[i + 1].seqNo > history[i].seqNo + 1
  }

  /** The last of `n` places, or zero. */
  function Last(n: nat): nat {
    if n == 0 then 0 else n - 1
  }

  lemma {:induction false} LastIsVisible(rows: seq<Record>, matches: Record -> bool)
    ensures rows != [] && matches(rows[|rows| - 1]) ==>
      var v := Filter(rows, matches); v != [] && v[|v| - 1] == rows[|rows| - 1]
  {
  }

  class State {
    var rows: seq<Record>
    var dropped: bool
    var selected: nat
    /** The newest row stays selected. */
    var follow: bool
    /** Which rows the search lets through. */
    var matches: Record -> bool
    /** Every row that arrived. */
    ghost var history: seq<Record>

    /** The rows are the newest that arrived, and the flag tells of a jump anywhere in all that arrived. */
    ghost predicate Valid()
      reads this
    {
      rows == Newest(history, VIEW_CAPACITY) && (dropped <==> HasJump(history))
    }

    constructor (matches: Record -> bool)
      ensures Valid() && history == [] && selected == 0 && follow && this.matches == matches
    {
      rows, dropped, history := [], false, [];
      selected, follow, this.matches := 0, true, matches;
    }

    function Visible(): seq<Record>
      reads this
    {
      Filter(rows, matches)
    }

    /** The selected row, or the last one there is. */
    function Current(): Option<Record>
      reads this
    {
      var v := Visible();
      if v == [] then None else Some(v[if selected < |v| then selected else Last(|v|)])
    }

    method Arrive(row: Record)
      requires Valid()
      modifies this`rows, this`dropped, this`history, this`selected
      ensures Valid() && history == old(history) + [row]
      ensures selected == if follow then Last(|Visible()|) else old(selected)
      ensures follow && matches(row) ==> Current() == Some(row)
    {
      Append(row);
      LastIsVisible(rows, matches);
      NewestEnds(history, VIEW_CAPACITY);
      if follow {
        selected := Last(|Visible()|);
      }
    }

    method Append(row: Record)
      requires Valid()
      modifies this`rows, this`dropped, this`history
      ensures Valid() && history == old(history) + [row]
    {
      RowAppended(history, row, VIEW_CAPACITY);
      if rows != [] {
        var last := rows[|rows| - 1];
        if row.seqNo > last.seqNo + 1 {
          dropped := true;
        }
      }
      history := history + [row];
      rows := rows + [row];
      Evict();
    }

    method Evict()
      modifies this`rows
      ensures rows == Newest(old(rows), VIEW_CAPACITY)
    {
      while |rows| > VIEW_CAPACITY
        invariant |rows| <= |old(rows)| && rows == old(rows)[|old(rows)| - |rows|..]
        invariant VIEW_CAPACITY <= |rows| || rows == old(rows)
      {
        rows := rows[1..];
      }
    }
  }

  lemma NewestEnds(history: seq<Record>, capacity: nat)
    requires capacity >= 1
    ensures var rows := Newest(history, capacity);
      (rows == [] <==> history == []) && (rows != [] ==> rows[|rows| - 1] == history[|history| - 1])
  {
  }

  lemma JumpAppended(history: seq<Record>, row: Record)
    ensures HasJump(history + [row]) <==>
      HasJump(history) || (history != [] && row.seqNo > history[|history| - 1].seqNo + 1)
  {
    var all := history + [row];
    if HasJump(history) {
      var i :| 0 <= i < |history| - 1 && history[i + 1].seqNo > history[i].seqNo + 1;
      assert all[i + 1].seqNo > all[i].seqNo + 1;
    }
    if history != [] && row.seqNo > history[|history| - 1].seqNo + 1 {
      assert all[|history| - 1 + 1].seqNo > all[|history| - 1].seqNo + 1;
    }
    if HasJump(all) {
      var i :| 0 <= i < |all| - 1 && all[i + 1].seqNo > all[i].seqNo + 1;
      if i + 1 < |history| {
        assert history[i + 1].seqNo > history[i].seqNo + 1;
      }
    }
  }

  /** What a row does to the rows and the flag of the rows that arrived before it. */
  lemma {:induction false} RowAppended(history: seq<Record>, row: Record, capacity: nat)
    requires capacity >= 1
    ensures var rows := Newest(history, capacity);
      && Newest(rows + [row], capacity) == Newest(history + [row], capacity)
      && (HasJump(history + [row]) <==>
           HasJump(history) || (rows != [] && row.seqNo > rows[|rows| - 1].seqNo + 1))
  {
    JumpAppended(history, row);
    NewestEnds(history, capacity);
    NewestOfNewest(history, row, capacity);
  }

  /** No row with this number arrived. */
  predicate Missing(history: seq<Record>, n: nat) {
    n !in Numbers(history)
  }

  /** For rows in increasing order, as the feed delivers them, the flag says exactly that some number between the
    * first and the last is missing. */
  lemma {:induction false} JumpIsMissingRow(history: seq<Record>)
    requires Increasing(Numbers(history)) && history != []
    ensures HasJump(history) <==>
      exists n: nat :: history[0].seqNo < n < history[|history| - 1].seqNo && Missing(history, n)
  {
    var s := Numbers(history);
    if HasJump(history) {
      var i :| 0 <= i < |history| - 1 && history[i + 1].seqNo > history[i].seqNo + 1;
      var n := s[i] + 1;
      JumpSkips(s, i, n);
      assert s[0] <= s[i] && s[i + 1] <= s[|s| - 1];
      assert history[0].seqNo < n < history[|history| - 1].seqNo && Missing(history, n);
    } else {
      forall n: nat | s[0] < n < s[|s| - 1]
        ensures n in s
      {
        NoJumpNoGap(history, n);
      }
    }
  }

  lemma JumpSkips(s: seq<nat>, i: nat, n: nat)
    requires Increasing(s) && i + 1 < |s| && s[i] < n < s[i + 1]
    ensures n !in s
  {
    forall j | 0 <= j < |s|
      ensures s[j] <= s[i] || s[i + 1] <= s[j]
    {
      if j > i + 1 {
        assert s[i + 1] < s[j];
      } else if j < i {
        assert s[j] < s[i];
      }
    }
  }

  lemma {:induction false} NoJumpNoGap(history: seq<Record>, n: nat)
    requires Increasing(Numbers(history)) && history != [] && !HasJump(history)
    requires history[0].seqNo <= n <= history[|history| - 1].seqNo
    ensures n in Numbers(history)
  {
    var s, last := Numbers(history), |history| - 1;
    if n == history[last].seqNo {
      assert s[last] == n;
    } else {
      var init := history[..last];
      assert Numbers(init) == s[..last];
      JumpAppended(init, history[last]);
      assert history == init + [history[last]];
      NoJumpNoGap(init, n);
    }
  }
}
