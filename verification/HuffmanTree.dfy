/** The decode tree: a growing vector of two-slot nodes built from the code table.
  *
  * A slot is 0 when unset, a child index when positive, and `-(symbol + 1)` when negative.
  */
module HuffmanTree {
  import opened Bits
  import opened HuffmanCode

  datatype Node = Node(zero: int, one: int) {
    function At(bit: bool): int {
      if bit then one else zero
    }

    function Set(bit: bool, slot: int): Node {
      if bit then this.(one := slot) else this.(zero := slot)
    }
  }

  /** What the slot for path `p` must hold once the words of the first `k` symbols are in the tree. */
  ghost predicate SlotOk(t: seq<Row>, index: map<BitString, nat>, k: nat, p: BitString, slot: int)
    requires InRange(t) && k <= SYMBOLS
  {
    if p in index then slot == index[p]
    else if slot < 0 then -slot - 1 < k && Word(t, -slot - 1) == p
    else slot == 0 && forall s: Symbol :: s < k ==> Word(t, s) != p
  }

  /** Node `n` sits at the end of path `paths[n]`; `index` is the inverse. */
  ghost predicate Indexed(nodes: seq<Node>, paths: seq<BitString>, index: map<BitString, nat>) {
    && |paths| == |nodes| > 0
    && paths[0] == []
    && (forall n :: 0 <= n < |paths| ==> paths[n] in index && index[paths[n]] == n)
    && (forall p :: p in index ==> index[p] < |paths| && paths[index[p]] == p)
  }

  ghost predicate SlotsOk(t: seq<Row>, nodes: seq<Node>, paths: seq<BitString>, index: map<BitString, nat>, k: nat)
    requires InRange(t) && k <= SYMBOLS && |paths| == |nodes|
  {
    forall n, b {:trigger nodes[n].At(b)} :: 0 <= n < |nodes| ==> SlotOk(t, index, k, paths[n] + [b], nodes[n].At(b))
  }

  /** The start of a code word that is not yet all of it. */
  ghost predicate Unfinished(t: seq<Row>, p: BitString)
    requires InRange(t)
  {
    p == [] || ProperPrefixOfWord(t, p)
  }

  /** Every node lies inside a code word, below its parent. */
  ghost predicate PathsOk(t: seq<Row>, index: map<BitString, nat>)
    requires InRange(t)
  {
    && (forall p :: p in index ==> Unfinished(t, p))
    && (forall p, b :: p + [b] in index ==> p in index)
  }

  /** Every prefix of `w` shorter than `depth` has its node. */
  ghost predicate Rooted(index: map<BitString, nat>, w: BitString, depth: nat)
    requires depth <= |w|
  {
    forall j :: 0 <= j < depth ==> w[..j] in index
  }

  /** The tree of the words of the first `k` symbols. */
  ghost predicate Grown(t: seq<Row>, nodes: seq<Node>, paths: seq<BitString>, index: map<BitString, nat>, k: nat)
    requires InRange(t) && k <= SYMBOLS
  {
    && Indexed(nodes, paths, index)
    && PathsOk(t, index)
    && (forall s: Symbol :: s < k ==> Rooted(index, Word(t, s), |Word(t, s)|))
    && SlotsOk(t, nodes, paths, index, k)
  }

  /** In a finished tree a slot is never unset: it points to the node one bit further, or is the terminal
    * of the symbol whose word ends there. */
  ghost predicate Points(t: seq<Row>, paths: seq<BitString>, p: BitString, slot: int)
    requires InRange(t)
  {
    if slot > 0 then slot < |paths| && paths[slot] == p
    else slot < 0 && -slot - 1 < SYMBOLS && Word(t, -slot - 1) == p
  }

  ghost predicate IsTree(t: seq<Row>, nodes: seq<Node>, paths: seq<BitString>)
    requires InRange(t)
  {
    && |paths| == |nodes| > 0
    && paths[0] == []
    && (forall n :: 0 <= n < |nodes| ==> Unfinished(t, paths[n]))
    && (forall n, b {:trigger nodes[n].At(b)} :: 0 <= n < |nodes| ==> Points(t, paths, paths[n] + [b], nodes[n].At(b)))
  }

  /** The slot reached by following all of `bits` from node `at`, or 0 on leaving the tree early. */
  function Walk(nodes: seq<Node>, at: int, bits: BitString): int
    requires bits != []
    decreases |bits|
  {
    if !(0 <= at < |nodes|) then 0
    else
      var slot := nodes[at].At(bits[0]);
      if |bits| == 1 then slot
      else if slot > 0 then Walk(nodes, slot, bits[1..])
      else 0
  }

  // ----- building -----

  lemma PathOfNode(t: seq<Row>, p: BitString, b: bool, s: Symbol)
    requires IsCode(t)
    requires p + [b] < Word(t, s)
    ensures ProperPrefixOfWord(t, p + [b])
    ensures forall z: Symbol :: Word(t, z) != p + [b]
  {
    forall z: Symbol
      ensures Word(t, z) != p + [b]
    {
      WordInsidePrefix(t, z, p + [b]);
    }
  }

  lemma SamePathSameSlot(paths: seq<BitString>, index: map<BitString, nat>, n: nat, c: bool, m: nat, b: bool)
    requires n < |paths| && m < |paths|
    requires paths[n] in index && index[paths[n]] == n && paths[m] in index && index[paths[m]] == m
    ensures paths[n] + [c] == paths[m] + [b] <==> n == m && c == b
  {
    if paths[n] + [c] == paths[m] + [b] {
      assert paths[n] == (paths[n] + [c])[..|paths[n]|];
      assert paths[m] == (paths[m] + [b])[..|paths[m]|];
      assert (paths[n] + [c])[|paths[n]|] == c;
    }
  }

  /** Nothing in the tree lies below a path that is not a node. */
  lemma NothingBelow(t: seq<Row>, index: map<BitString, nat>, k: nat, p: BitString, c: bool)
    requires InRange(t) && k <= SYMBOLS && PathsOk(t, index)
    requires forall s: Symbol :: s < k ==> Rooted(index, Word(t, s), |Word(t, s)|)
    requires p !in index
    ensures SlotOk(t, index, k, p + [c], 0)
  {
    forall z: Symbol | z < k
      ensures Word(t, z) != p + [c]
    {
      assert Rooted(index, Word(t, z), |Word(t, z)|);
      ParentIsRooted(index, Word(t, z), p, c);
    }
  }

  lemma ParentIsRooted(index: map<BitString, nat>, w: BitString, p: BitString, c: bool)
    requires Rooted(index, w, |w|)
    ensures w == p + [c] ==> p in index
  {
    if w == p + [c] {
      assert w[..|p|] == p;
    }
  }

  lemma NewNodeIndexed(nodes: seq<Node>, paths: seq<BitString>, index: map<BitString, nat>, at: nat, node: Node,
                       p: BitString)
    requires Indexed(nodes, paths, index) && p !in index && at < |nodes|
    ensures Indexed((nodes + [Node(0, 0)])[at := node], paths + [p], index[p := |nodes|])
  {
  }

  lemma SlotAfterNode(t: seq<Row>, index: map<BitString, nat>, k: nat, q: BitString, slot: int, p: BitString,
                      child: nat)
    requires InRange(t) && k <= SYMBOLS && SlotOk(t, index, k, q, slot)
    ensures SlotOk(t, index[p := child], k, q, if q == p then child else slot)
  {
  }

  lemma SlotAfterTerminal(t: seq<Row>, index: map<BitString, nat>, k: nat, q: BitString, slot: int)
    requires InRange(t) && k < SYMBOLS && SlotOk(t, index, k, q, slot) && Word(t, k) !in index
    ensures SlotOk(t, index, k + 1, q, if q == Word(t, k) then -(k + 1) else slot)
  {
  }

  lemma NewNodeSlots(t: seq<Row>, nodes: seq<Node>, paths: seq<BitString>, index: map<BitString, nat>, k: nat,
                     at: nat, b: bool)
    requires InRange(t) && k <= SYMBOLS && Grown(t, nodes, paths, index, k)
    requires at < |nodes| && paths[at] + [b] !in index
    ensures SlotsOk(t, (nodes + [Node(0, 0)])[at := nodes[at].Set(b, |nodes|)], paths + [paths[at] + [b]],
                    index[paths[at] + [b] := |nodes|], k)
  {
    var p := paths[at] + [b];
    var nodes', paths', index' :=
      (nodes + [Node(0, 0)])[at := nodes[at].Set(b, |nodes|)], paths + [p], index[p := |nodes|];
    forall n, c | 0 <= n < |nodes'|
      ensures SlotOk(t, index', k, paths'[n] + [c], nodes'[n].At(c))
    {
      if n == |nodes| {
        NothingBelow(t, index, k, p, c);
        SlotAfterNode(t, index, k, p + [c], 0, p, |nodes|);
      } else {
        SlotAfterNode(t, index, k, paths[n] + [c], nodes[n].At(c), p, |nodes|);
        SamePathSameSlot(paths, index, n, c, at, b);
      }
    }
  }

  /** Hanging a new empty node on the unset slot `(at, b)`. */
  lemma GrowNode(t: seq<Row>, nodes: seq<Node>, paths: seq<BitString>, index: map<BitString, nat>, k: nat,
                 at: nat, b: bool, s: Symbol)
    requires IsCode(t) && k <= SYMBOLS && Grown(t, nodes, paths, index, k)
    requires at < |nodes| && nodes[at].At(b) <= 0
    requires paths[at] + [b] < Word(t, s)
    ensures var p := paths[at] + [b];
      Grown(t, (nodes + [Node(0, 0)])[at := nodes[at].Set(b, |nodes|)], paths + [p], index[p := |nodes|], k)
  {
    var p := paths[at] + [b];
    PathOfNode(t, paths[at], b, s);
    assert SlotOk(t, index, k, p, nodes[at].At(b));
    assert p !in index;
    var nodes', paths', index' :=
      (nodes + [Node(0, 0)])[at := nodes[at].Set(b, |nodes|)], paths + [p], index[p := |nodes|];
    forall q, c | q + [c] in index'
      ensures q in index'
    {
      if q + [c] == p {
        assert q == p[..|q|] == paths[at];
      }
    }
    NewNodeIndexed(nodes, paths, index, at, nodes[at].Set(b, |nodes|), p);
    NewNodeSlots(t, nodes, paths, index, k, at, b);
    forall z: Symbol | z < k
      ensures Rooted(index', Word(t, z), |Word(t, z)|)
    {
      assert Rooted(index, Word(t, z), |Word(t, z)|);
    }
  }

  /** Writing the terminal of symbol `k` at the end of its word. */
  lemma GrowTerminal(t: seq<Row>, nodes: seq<Node>, paths: seq<BitString>, index: map<BitString, nat>, k: nat,
                     at: nat, b: bool)
    requires IsCode(t) && k < SYMBOLS && Grown(t, nodes, paths, index, k)
    requires at < |nodes| && paths[at] + [b] == Word(t, k)
    requires Rooted(index, Word(t, k), |Word(t, k)|)
    ensures Grown(t, nodes[at := nodes[at].Set(b, -(k + 1))], paths, index, k + 1)
  {
    var p := paths[at] + [b];
    var nodes' := nodes[at := nodes[at].Set(b, -(k + 1))];
    assert p !in index by {
      if p in index {
        WordInsidePrefix(t, k, p);
        assert false;
      }
    }
    forall n, c | 0 <= n < |nodes'|
      ensures SlotOk(t, index, k + 1, paths[n] + [c], nodes'[n].At(c))
    {
      SlotAfterTerminal(t, index, k, paths[n] + [c], nodes[n].At(c));
      SamePathSameSlot(paths, index, n, c, at, b);
    }
  }

  lemma EmptyTree(t: seq<Row>)
    requires InRange(t)
    ensures Grown(t, [Node(0, 0)], [[]], map[[] := 0], 0)
  {
    var nodes, paths, index := [Node(0, 0)], [[]], map[[] := 0];
    forall n, b | 0 <= n < 1
      ensures SlotOk(t, index, 0, paths[n] + [b], nodes[n].At(b))
    {
      assert paths[n] + [b] != [];
    }
  }

  // ----- what a finished tree is -----

  /** In the tree of all the words no slot is unset: completeness of the code. */
  lemma FinishedSlot(t: seq<Row>, paths: seq<BitString>, index: map<BitString, nat>, q: BitString, b: bool, slot: int)
    requires IsCode(t) && SlotOk(t, index, SYMBOLS, q + [b], slot)
    requires Unfinished(t, q)
    requires forall s: Symbol :: Rooted(index, Word(t, s), |Word(t, s)|)
    requires q + [b] in index ==> 0 < index[q + [b]] < |paths| && paths[index[q + [b]]] == q + [b]
    ensures Points(t, paths, q + [b], slot)
  {
    var p := q + [b];
    if p !in index {
      var s := WordThrough(t, q, b);
      assert Rooted(index, Word(t, s), |Word(t, s)|);
      RootedPrefix(index, Word(t, s), p);
    }
  }

  lemma RootedPrefix(index: map<BitString, nat>, w: BitString, p: BitString)
    requires Rooted(index, w, |w|) && p <= w && p !in index
    ensures p == w
  {
    assert w[..|p|] == p;
  }

  lemma FinishedTree(t: seq<Row>, nodes: seq<Node>, paths: seq<BitString>, index: map<BitString, nat>)
    requires IsCode(t) && Grown(t, nodes, paths, index, SYMBOLS)
    ensures IsTree(t, nodes, paths)
  {
    forall n, b | 0 <= n < |nodes|
      ensures Points(t, paths, paths[n] + [b], nodes[n].At(b))
    {
      assert paths[n] in index;
      assert SlotOk(t, index, SYMBOLS, paths[n] + [b], nodes[n].At(b));
      assert paths[n] + [b] != paths[0];
      FinishedSlot(t, paths, index, paths[n], b, nodes[n].At(b));
    }
  }

  /** Some code word continues every path inside a code word, whichever bit comes next. */
  lemma WordThrough(t: seq<Row>, q: BitString, b: bool) returns (s: Symbol)
    requires IsCode(t)
    requires Unfinished(t, q)
    ensures q + [b] <= Word(t, s)
  {
    assert |q| < LONGEST;
    var x := q + [b] + seq(LONGEST - |q| - 1, _ => false);
    assert StartsWithWord(t, x);
    s :| Word(t, s) <= x;
    assert q + [b] <= x && q <= x;
    PrefixesCompare(Word(t, s), q + [b], x);
    if |Word(t, s)| <= |q| {
      PrefixesCompare(Word(t, s), q, x);
      assert Word(t, s) <= q;
      WordInsidePrefix(t, s, q);
      assert false;
    }
  }

  lemma WordNotUnfinished(t: seq<Row>, p: BitString, s: Symbol)
    requires IsCode(t) && Unfinished(t, p)
    ensures p != Word(t, s)
  {
    if p != [] {
      WordInsidePrefix(t, s, p);
    }
  }

  lemma WordsDoNotExtend(t: seq<Row>, z: Symbol, rest: BitString, s: Symbol)
    requires IsCode(t) && rest != []
    ensures Word(t, z) + rest != Word(t, s)
  {
    assert Word(t, z) < Word(t, z) + rest;
  }

  /** Walking from a node ends in the terminal of `s` exactly when its path and the bits walked spell the word
    * of `s`. */
  lemma {:induction false} WalkEndsAtWord(t: seq<Row>, nodes: seq<Node>, paths: seq<BitString>,
                                          at: nat, bits: BitString, s: Symbol)
    requires IsCode(t) && IsTree(t, nodes, paths)
    requires at < |nodes| && bits != []
    ensures Walk(nodes, at, bits) == -(s + 1) <==> paths[at] + bits == Word(t, s)
    decreases |bits|
  {
    var slot := nodes[at].At(bits[0]);
    TreeSlot(t, nodes, paths, at, bits[0]);
    if slot > 0 {
      if |bits| > 1 {
        WalkEndsAtWord(t, nodes, paths, slot, bits[1..], s);
      }
      WalkThroughNode(t, paths, at, bits, slot, s);
    } else {
      WalkIntoTerminal(t, paths, at, bits, slot, s);
    }
  }

  lemma TreeSlot(t: seq<Row>, nodes: seq<Node>, paths: seq<BitString>, n: nat, b: bool)
    requires InRange(t) && IsTree(t, nodes, paths) && n < |nodes|
    ensures Points(t, paths, paths[n] + [b], nodes[n].At(b))
    ensures nodes[n].At(b) > 0 ==> Unfinished(t, paths[nodes[n].At(b)])
  {
  }

  lemma WalkThroughNode(t: seq<Row>, paths: seq<BitString>, at: nat, bits: BitString, slot: int, s: Symbol)
    requires IsCode(t) && at < |paths| && bits != []
    requires slot > 0 && Points(t, paths, paths[at] + [bits[0]], slot) && Unfinished(t, paths[slot])
    ensures paths[at] + bits == paths[slot] + bits[1..]
    ensures |bits| == 1 ==> paths[at] + bits != Word(t, s)
  {
    assert bits == [bits[0]] + bits[1..];
    if |bits| == 1 {
      WordNotUnfinished(t, paths[slot], s);
      assert paths[slot] + [] == paths[slot];
    }
  }

  lemma WalkIntoTerminal(t: seq<Row>, paths: seq<BitString>, at: nat, bits: BitString, slot: int, s: Symbol)
    requires IsCode(t) && at < |paths| && bits != []
    requires slot <= 0 && Points(t, paths, paths[at] + [bits[0]], slot)
    ensures |bits| == 1 ==> (paths[at] + bits == Word(t, s) <==> slot == -(s + 1))
    ensures |bits| > 1 ==> paths[at] + bits != Word(t, s)
  {
    assert bits == [bits[0]] + bits[1..];
    assert paths[at] + bits == Word(t, -slot - 1) + bits[1..];
    if |bits| > 1 {
      WordsDoNotExtend(t, -slot - 1, bits[1..], s);
    }
  }

  /** Follows the slot `(at, bit)` to its node, creating the node if the slot is unset. */
  method Descend(t: seq<Row>, ghost symbol: Symbol, nodes0: seq<Node>, ghost paths0: seq<BitString>,
                 ghost index0: map<BitString, nat>, at0: nat, bit: bool)
    returns (nodes: seq<Node>, ghost paths: seq<BitString>, ghost index: map<BitString, nat>, at: nat)
    requires IsCode(t) && Grown(t, nodes0, paths0, index0, symbol)
    requires at0 < |nodes0| && paths0[at0] + [bit] < Word(t, symbol)
    ensures Grown(t, nodes, paths, index, symbol)
    ensures at < |nodes| && paths[at] == paths0[at0] + [bit]
    ensures forall p :: p in index0 ==> p in index
  {
    nodes, paths, index := nodes0, paths0, index0;
    var next := nodes[at0].At(bit);
    assert SlotOk(t, index, symbol, paths[at0] + [bit], next);
    if next > 0 {
      at := next;
    } else {
      GrowNode(t, nodes, paths, index, symbol, at0, bit, symbol);
      nodes := nodes + [Node(0, 0)];
      var created := |nodes| - 1;
      nodes := nodes[at0 := nodes[at0].Set(bit, created)];
      paths, index := paths + [paths[at0] + [bit]], index[paths[at0] + [bit] := created];
      at := created;
    }
  }

  lemma NextPrefix(w: BitString, j: nat, bit: bool)
    requires j < |w| && bit == w[j]
    ensures w[..j] + [bit] == w[..j + 1]
    ensures if j + 1 == |w| then w[..j] + [bit] == w else w[..j] + [bit] < w
  {
  }

  lemma RootedStep(index0: map<BitString, nat>, index: map<BitString, nat>, w: BitString, j: nat)
    requires j < |w| && Rooted(index0, w, j) && w[..j] in index
    requires forall p :: p in index0 ==> p in index
    ensures Rooted(index, w, j + 1)
  {
  }

  /** Follows or creates the nodes along the word of one symbol and ends it in a terminal. */
  method AddWord(t: seq<Row>, symbol: Symbol, nodes0: seq<Node>, ghost paths0: seq<BitString>,
                 ghost index0: map<BitString, nat>)
    returns (nodes: seq<Node>, ghost paths: seq<BitString>, ghost index: map<BitString, nat>)
    requires IsCode(t) && Grown(t, nodes0, paths0, index0, symbol)
    ensures Grown(t, nodes, paths, index, symbol + 1)
  {
    nodes, paths, index := nodes0, paths0, index0;
    var code, bits := t[symbol].0, t[symbol].1;
    ghost var w := Word(t, symbol);
    var at: nat := 0;
    ghost var depth := 0;
    assert w[..depth] == [];
    NodeHasPath(t, nodes, paths, index, symbol, 0);
    for i := bits downto 0
      invariant depth == bits - i
      invariant i > 0 ==> Grown(t, nodes, paths, index, symbol) && Rooted(index, w, depth + 1)
      invariant i > 0 ==> at < |nodes| && paths[at] == w[..depth]
      invariant i == 0 ==> Grown(t, nodes, paths, index, symbol + 1)
    {
      var bit := BitOf(code, bits, i);
      NextPrefix(w, depth, bit);
      depth := depth + 1;
      if i == 0 {
        GrowTerminal(t, nodes, paths, index, symbol, at, bit);
        nodes := nodes[at := nodes[at].Set(bit, -(symbol + 1))];
      } else {
        ghost var before := index;
        nodes, paths, index, at := Descend(t, symbol, nodes, paths, index, at, bit);
        NodeHasPath(t, nodes, paths, index, symbol, at);
        RootedStep(before, index, w, depth);
      }
    }
  }

  lemma NodeHasPath(t: seq<Row>, nodes: seq<Node>, paths: seq<BitString>, index: map<BitString, nat>, k: nat, n: nat)
    requires InRange(t) && k <= SYMBOLS && Grown(t, nodes, paths, index, k) && n < |nodes|
    ensures paths[n] in index
  {
  }

  /** `(code >> i) & 1` */
  method BitOf(code: nat, len: nat, i: nat) returns (bit: bool)
    requires i < len
    ensures bit == BitsOf(code, len)[len - 1 - i]
  {
    BitAt(code, len, len - 1 - i);
    bit := (code / Pow2(i)) % 2 == 1;
  }

  method Build(t: seq<Row>) returns (nodes: seq<Node>, ghost paths: seq<BitString>)
    requires IsCode(t)
    ensures IsTree(t, nodes, paths)
    ensures forall bits: BitString, s: Symbol :: bits != [] ==>
      (Walk(nodes, 0, bits) == -(s + 1) <==> bits == Word(t, s))
  {
    nodes := [Node(0, 0)];
    paths := [[]];
    ghost var index: map<BitString, nat> := map[[] := 0];
    EmptyTree(t);
    for symbol := 0 to SYMBOLS
      invariant Grown(t, nodes, paths, index, symbol)
    {
      nodes, paths, index := AddWord(t, symbol, nodes, paths, index);
    }
    FinishedTree(t, nodes, paths, index);
    forall bits: BitString, s: Symbol | bits != []
      ensures Walk(nodes, 0, bits) == -(s + 1) <==> bits == Word(t, s)
    {
      WalkEndsAtWord(t, nodes, paths, 0, bits, s);
      assert paths[0] + bits == bits;
    }
  }
}
