/** The Huffman code of RFC 7541, Appendix B, and the proof that it is a complete prefix code.
  *
  * Left-align every code word to thirty bits. Its completions are then an interval of numbers below
  * 2^30, and in code order the 257 intervals lie end to end from 0 to 2^30. A `Tiling` is a balanced
  * tree over the symbols in that order; checking one is linear in the table.
  */
module HuffmanTable {
  import opened Locks
  import opened Bits
  import opened FiniteSets
  import opened HuffmanCode

  /** `(code, length)` by symbol; the last row is the end-of-string symbol. */
  const HUFFMAN: seq<Row> := RowsBelow(SYMBOLS)

  /** The rows of the first `n` symbols. */
  function RowsBelow(n: nat): (t: seq<Row>)
    requires n <= SYMBOLS
    ensures |t| == n && forall s :: 0 <= s < n ==> t[s] == RowOf(s)
  {
    if n == 0 then [] else RowsBelow(n - 1) + [RowOf(n - 1)]
  }

  function RowOf(s: Symbol): Row {
    if s < 64 then Rows0To63(s)
    else if s < 128 then Rows64To127(s)
    else if s < 192 then Rows128To191(s)
    else if s < 256 then Rows192To255(s)
    else (0x3fffffff, 30)
  }

  function Rows0To63(s: Symbol): Row {
    if s < 32 then
      if s < 16 then
        if s < 8 then
          if s < 4 then
            if s == 0 then (0x1ff8, 13) else if s == 1 then (0x7fffd8, 23) else
            if s == 2 then (0xfffffe2, 28) else (0xfffffe3, 28)
          else
            if s == 4 then (0xfffffe4, 28) else if s == 5 then (0xfffffe5, 28) else
            if s == 6 then (0xfffffe6, 28) else (0xfffffe7, 28)
        else
          if s < 12 then
            if s == 8 then (0xfffffe8, 28) else if s == 9 then (0xffffea, 24) else
            if s == 10 then (0x3ffffffc, 30) else (0xfffffe9, 28)
          else
            if s == 12 then (0xfffffea, 28) else if s == 13 then (0x3ffffffd, 30) else
            if s == 14 then (0xfffffeb, 28) else (0xfffffec, 28)
      else
        if s < 24 then
          if s < 20 then
            if s == 16 then (0xfffffed, 28) else if s == 17 then (0xfffffee, 28) else
            if s == 18 then (0xfffffef, 28) else (0xffffff0, 28)
          else
            if s == 20 then (0xffffff1, 28) else if s == 21 then (0xffffff2, 28) else
            if s == 22 then (0x3ffffffe, 30) else (0xffffff3, 28)
        else
          if s < 28 then
            if s == 24 then (0xffffff4, 28) else if s == 25 then (0xffffff5, 28) else
            if s == 26 then (0xffffff6, 28) else (0xffffff7, 28)
          else
            if s == 28 then (0xffffff8, 28) else if s == 29 then (0xffffff9, 28) else
            if s == 30 then (0xffffffa, 28) else (0xffffffb, 28)
    else
      if s < 48 then
        if s < 40 then
          if s < 36 then
            if s == 32 then (0x14, 6) else if s == 33 then (0x3f8, 10) else
            if s == 34 then (0x3f9, 10) else (0xffa, 12)
          else
            if s == 36 then (0x1ff9, 13) else if s == 37 then (0x15, 6) else
            if s == 38 then (0xf8, 8) else (0x7fa, 11)
        else
          if s < 44 then
            if s == 40 then (0x3fa, 10) else if s == 41 then (0x3fb, 10) else
            if s == 42 then (0xf9, 8) else (0x7fb, 11)
          else
            if s == 44 then (0xfa, 8) else if s == 45 then (0x16, 6) else
            if s == 46 then (0x17, 6) else (0x18, 6)
      else
        if s < 56 then
          if s < 52 then
            if s == 48 then (0x0, 5) else if s == 49 then (0x1, 5) else
            if s == 50 then (0x2, 5) else (0x19, 6)
          else
            if s == 52 then (0x1a, 6) else if s == 53 then (0x1b, 6) else
            if s == 54 then (0x1c, 6) else (0x1d, 6)
        else
          if s < 60 then
            if s == 56 then (0x1e, 6) else if s == 57 then (0x1f, 6) else
            if s == 58 then (0x5c, 7) else (0xfb, 8)
          else
            if s == 60 then (0x7ffc, 15) else if s == 61 then (0x20, 6) else
            if s == 62 then (0xffb, 12) else (0x3fc, 10)
  }

  function Rows64To127(s: Symbol): Row {
    if s < 96 then
      if s < 80 then
        if s < 72 then
          if s < 68 then
            if s == 64 then (0x1ffa, 13) else if s == 65 then (0x21, 6) else
            if s == 66 then (0x5d, 7) else (0x5e, 7)
          else
            if s == 68 then (0x5f, 7) else if s == 69 then (0x60, 7) else
            if s == 70 then (0x61, 7) else (0x62, 7)
        else
          if s < 76 then
            if s == 72 then (0x63, 7) else if s == 73 then (0x64, 7) else
            if s == 74 then (0x65, 7) else (0x66, 7)
          else
            if s == 76 then (0x67, 7) else if s == 77 then (0x68, 7) else
            if s == 78 then (0x69, 7) else (0x6a, 7)
      else
        if s < 88 then
          if s < 84 then
            if s == 80 then (0x6b, 7) else if s == 81 then (0x6c, 7) else
            if s == 82 then (0x6d, 7) else (0x6e, 7)
          else
            if s == 84 then (0x6f, 7) else if s == 85 then (0x70, 7) else
            if s == 86 then (0x71, 7) else (0x72, 7)
        else
          if s < 92 then
            if s == 88 then (0xfc, 8) else if s == 89 then (0x73, 7) else
            if s == 90 then (0xfd, 8) else (0x1ffb, 13)
          else
            if s == 92 then (0x7fff0, 19) else if s == 93 then (0x1ffc, 13) else
            if s == 94 then (0x3ffc, 14) else (0x22, 6)
    else
      if s < 112 then
        if s < 104 then
          if s < 100 then
            if s == 96 then (0x7ffd, 15) else if s == 97 then (0x3, 5) else
            if s == 98 then (0x23, 6) else (0x4, 5)
          else
            if s == 100 then (0x24, 6) else if s == 101 then (0x5, 5) else
            if s == 102 then (0x25, 6) else (0x26, 6)
        else
          if s < 108 then
            if s == 104 then (0x27, 6) else if s == 105 then (0x6, 5) else
            if s == 106 then (0x74, 7) else (0x75, 7)
          else
            if s == 108 then (0x28, 6) else if s == 109 then (0x29, 6) else
            if s == 110 then (0x2a, 6) else (0x7, 5)
      else
        if s < 120 then
          if s < 116 then
            if s == 112 then (0x2b, 6) else if s == 113 then (0x76, 7) else
            if s == 114 then (0x2c, 6) else (0x8, 5)
          else
            if s == 116 then (0x9, 5) else if s == 117 then (0x2d, 6) else
            if s == 118 then (0x77, 7) else (0x78, 7)
        else
          if s < 124 then
            if s == 120 then (0x79, 7) else if s == 121 then (0x7a, 7) else
            if s == 122 then (0x7b, 7) else (0x7ffe, 15)
          else
            if s == 124 then (0x7fc, 11) else if s == 125 then (0x3ffd, 14) else
            if s == 126 then (0x1ffd, 13) else (0xffffffc, 28)
  }

  function Rows128To191(s: Symbol): Row {
    if s < 160 then
      if s < 144 then
        if s < 136 then
          if s < 132 then
            if s == 128 then (0xfffe6, 20) else if s == 129 then (0x3fffd2, 22) else
            if s == 130 then (0xfffe7, 20) else (0xfffe8, 20)
          else
            if s == 132 then (0x3fffd3, 22) else if s == 133 then (0x3fffd4, 22) else
            if s == 134 then (0x3fffd5, 22) else (0x7fffd9, 23)
        else
          if s < 140 then
            if s == 136 then (0x3fffd6, 22) else if s == 137 then (0x7fffda, 23) else
            if s == 138 then (0x7fffdb, 23) else (0x7fffdc, 23)
          else
            if s == 140 then (0x7fffdd, 23) else if s == 141 then (0x7fffde, 23) else
            if s == 142 then (0xffffeb, 24) else (0x7fffdf, 23)
      else
        if s < 152 then
          if s < 148 then
            if s == 144 then (0xffffec, 24) else if s == 145 then (0xffffed, 24) else
            if s == 146 then (0x3fffd7, 22) else (0x7fffe0, 23)
          else
            if s == 148 then (0xffffee, 24) else if s == 149 then (0x7fffe1, 23) else
            if s == 150 then (0x7fffe2, 23) else (0x7fffe3, 23)
        else
          if s < 156 then
            if s == 152 then (0x7fffe4, 23) else if s == 153 then (0x1fffdc, 21) else
            if s == 154 then (0x3fffd8, 22) else (0x7fffe5, 23)
          else
            if s == 156 then (0x3fffd9, 22) else if s == 157 then (0x7fffe6, 23) else
            if s == 158 then (0x7fffe7, 23) else (0xffffef, 24)
    else
      if s < 176 then
        if s < 168 then
          if s < 164 then
            if s == 160 then (0x3fffda, 22) else if s == 161 then (0x1fffdd, 21) else
            if s == 162 then (0xfffe9, 20) else (0x3fffdb, 22)
          else
            if s == 164 then (0x3fffdc, 22) else if s == 165 then (0x7fffe8, 23) else
            if s == 166 then (0x7fffe9, 23) else (0x1fffde, 21)
        else
          if s < 172 then
            if s == 168 then (0x7fffea, 23) else if s == 169 then (0x3fffdd, 22) else
            if s == 170 then (0x3fffde, 22) else (0xfffff0, 24)
          else
            if s == 172 then (0x1fffdf, 21) else if s == 173 then (0x3fffdf, 22) else
            if s == 174 then (0x7fffeb, 23) else (0x7fffec, 23)
      else
        if s < 184 then
          if s < 180 then
            if s == 176 then (0x1fffe0, 21) else if s == 177 then (0x1fffe1, 21) else
            if s == 178 then (0x3fffe0, 22) else (0x1fffe2, 21)
          else
            if s == 180 then (0x7fffed, 23) else if s == 181 then (0x3fffe1, 22) else
            if s == 182 then (0x7fffee, 23) else (0x7fffef, 23)
        else
          if s < 188 then
            if s == 184 then (0xfffea, 20) else if s == 185 then (0x3fffe2, 22) else
            if s == 186 then (0x3fffe3, 22) else (0x3fffe4, 22)
          else
            if s == 188 then (0x7ffff0, 23) else if s == 189 then (0x3fffe5, 22) else
            if s == 190 then (0x3fffe6, 22) else (0x7ffff1, 23)
  }

  function Rows192To255(s: Symbol): Row {
    if s < 224 then
      if s < 208 then
        if s < 200 then
          if s < 196 then
            if s == 192 then (0x3ffffe0, 26) else if s == 193 then (0x3ffffe1, 26) else
            if s == 194 then (0xfffeb, 20) else (0x7fff1, 19)
          else
            if s == 196 then (0x3fffe7, 22) else if s == 197 then (0x7ffff2, 23) else
            if s == 198 then (0x3fffe8, 22) else (0x1ffffec, 25)
        else
          if s < 204 then
            if s == 200 then (0x3ffffe2, 26) else if s == 201 then (0x3ffffe3, 26) else
            if s == 202 then (0x3ffffe4, 26) else (0x7ffffde, 27)
          else
            if s == 204 then (0x7ffffdf, 27) else if s == 205 then (0x3ffffe5, 26) else
            if s == 206 then (0xfffff1, 24) else (0x1ffffed, 25)
      else
        if s < 216 then
          if s < 212 then
            if s == 208 then (0x7fff2, 19) else if s == 209 then (0x1fffe3, 21) else
            if s == 210 then (0x3ffffe6, 26) else (0x7ffffe0, 27)
          else
            if s == 212 then (0x7ffffe1, 27) else if s == 213 then (0x3ffffe7, 26) else
            if s == 214 then (0x7ffffe2, 27) else (0xfffff2, 24)
        else
          if s < 220 then
            if s == 216 then (0x1fffe4, 21) else if s == 217 then (0x1fffe5, 21) else
            if s == 218 then (0x3ffffe8, 26) else (0x3ffffe9, 26)
          else
            if s == 220 then (0xffffffd, 28) else if s == 221 then (0x7ffffe3, 27) else
            if s == 222 then (0x7ffffe4, 27) else (0x7ffffe5, 27)
    else
      if s < 240 then
        if s < 232 then
          if s < 228 then
            if s == 224 then (0xfffec, 20) else if s == 225 then (0xfffff3, 24) else
            if s == 226 then (0xfffed, 20) else (0x1fffe6, 21)
          else
            if s == 228 then (0x3fffe9, 22) else if s == 229 then (0x1fffe7, 21) else
            if s == 230 then (0x1fffe8, 21) else (0x7ffff3, 23)
        else
          if s < 236 then
            if s == 232 then (0x3fffea, 22) else if s == 233 then (0x3fffeb, 22) else
            if s == 234 then (0x1ffffee, 25) else (0x1ffffef, 25)
          else
            if s == 236 then (0xfffff4, 24) else if s == 237 then (0xfffff5, 24) else
            if s == 238 then (0x3ffffea, 26) else (0x7ffff4, 23)
      else
        if s < 248 then
          if s < 244 then
            if s == 240 then (0x3ffffeb, 26) else if s == 241 then (0x7ffffe6, 27) else
            if s == 242 then (0x3ffffec, 26) else (0x3ffffed, 26)
          else
            if s == 244 then (0x7ffffe7, 27) else if s == 245 then (0x7ffffe8, 27) else
            if s == 246 then (0x7ffffe9, 27) else (0x7ffffea, 27)
        else
          if s < 252 then
            if s == 248 then (0x7ffffeb, 27) else if s == 249 then (0xffffffe, 28) else
            if s == 250 then (0x7ffffec, 27) else (0x7ffffed, 27)
          else
            if s == 252 then (0x7ffffee, 27) else if s == 253 then (0x7ffffef, 27) else
            if s == 254 then (0x7fffff0, 27) else (0x3ffffee, 26)
  }


  const SPACE := 0x4000_0000

  datatype Tiling = One(s: int) | Two(left: Tiling, mid: int, right: Tiling)

  function Leaves(c: Tiling): nat {
    match c
    case One(_) => 1
    case Two(l, _, r) => Leaves(l) + Leaves(r)
  }

  function Symbols(c: Tiling): set<int> {
    match c
    case One(s) => {s}
    case Two(l, _, r) => Symbols(l) + Symbols(r)
  }

  /** `code` with `30 - len` zero bits appended. */
  function Aligned(len: int, code: int): int {
    if len == 5 then code * 0x2000000
    else if len == 6 then code * 0x1000000
    else if len == 7 then code * 0x800000
    else if len == 8 then code * 0x400000
    else if len == 9 then code * 0x200000
    else if len == 10 then code * 0x100000
    else if len == 11 then code * 0x80000
    else if len == 12 then code * 0x40000
    else if len == 13 then code * 0x20000
    else if len == 14 then code * 0x10000
    else if len == 15 then code * 0x8000
    else if len == 16 then code * 0x4000
    else if len == 17 then code * 0x2000
    else if len == 18 then code * 0x1000
    else if len == 19 then code * 0x800
    else if len == 20 then code * 0x400
    else if len == 21 then code * 0x200
    else if len == 22 then code * 0x100
    else if len == 23 then code * 0x80
    else if len == 24 then code * 0x40
    else if len == 25 then code * 0x20
    else if len == 26 then code * 0x10
    else if len == 27 then code * 0x8
    else if len == 28 then code * 0x4
    else if len == 29 then code * 0x2
    else code
  }

  function Low(r: Row): int { Aligned(r.1, r.0) }

  function High(r: Row): int { Aligned(r.1, r.0) + Aligned(r.1, 1) }

  /** The intervals of the symbols of `c` partition `[lo, hi)`. */
  predicate Tiles(t: seq<Row>, c: Tiling, lo: int, hi: int)
    decreases c
  {
    match c
    case One(s) =>
      0 <= s < |t| && SHORTEST <= t[s].1 <= LONGEST && 0 <= t[s].0 && Low(t[s]) == lo && High(t[s]) == hi
    case Two(l, m, r) => Tiles(t, l, lo, m) && Tiles(t, r, m, hi)
  }

  /** In a canonical code shorter words come first, and words of one length come in the order of their symbols. */
  predicate Before(t: seq<Row>, a: int, b: int)
    requires 0 <= a < |t| && 0 <= b < |t|
  {
    t[a].1 < t[b].1 || (t[a].1 == t[b].1 && a < b)
  }

  ghost predicate Canonical(t: seq<Row>, symbols: set<int>) {
    forall a, b :: a in symbols && b in symbols && 0 <= a < |t| && 0 <= b < |t| && Before(t, a, b) ==>
      Low(t[a]) < Low(t[b])
  }

  ghost predicate NoLonger(t: seq<Row>, symbols: set<int>, len: int) {
    forall s :: s in symbols && 0 <= s < |t| ==> t[s].1 <= len
  }

  // ----- what a tiling gives -----

  lemma {:induction false} TilingBounds(t: seq<Row>, c: Tiling, lo: int, hi: int)
    requires Tiles(t, c, lo, hi)
    ensures lo < hi
    ensures forall s :: s in Symbols(c) ==>
      0 <= s < |t| && SHORTEST <= t[s].1 <= LONGEST && 0 <= t[s].0 && lo <= Low(t[s]) < High(t[s]) <= hi
  {
    match c
    case One(s) =>
    case Two(l, m, r) =>
      TilingBounds(t, l, lo, m);
      TilingBounds(t, r, m, hi);
  }

  lemma {:induction false} TilingDisjoint(t: seq<Row>, c: Tiling, lo: int, hi: int, x: int, a: int, b: int)
    requires Tiles(t, c, lo, hi) && a in Symbols(c) && b in Symbols(c)
    requires a < |t| && b < |t|
    requires 0 <= a && 0 <= b
    requires Low(t[a]) <= x < High(t[a]) && Low(t[b]) <= x < High(t[b])
    ensures a == b
  {
    match c
    case One(s) =>
    case Two(l, m, r) =>
      TilingBounds(t, l, lo, m);
      TilingBounds(t, r, m, hi);
      if x < m {
        TilingDisjoint(t, l, lo, m, x, a, b);
      } else {
        TilingDisjoint(t, r, m, hi, x, a, b);
      }
  }

  lemma {:induction false} TilingCovers(t: seq<Row>, c: Tiling, lo: int, hi: int, x: int) returns (s: int)
    requires Tiles(t, c, lo, hi) && lo <= x < hi
    ensures s in Symbols(c) && 0 <= s < |t| && Low(t[s]) <= x < High(t[s])
  {
    match c
    case One(z) => s := z;
    case Two(l, m, r) =>
      if x < m {
        s := TilingCovers(t, l, lo, m, x);
      } else {
        s := TilingCovers(t, r, m, hi, x);
      }
  }

  lemma {:induction false} TilingCount(t: seq<Row>, c: Tiling, lo: int, hi: int)
    requires Tiles(t, c, lo, hi)
    ensures |Symbols(c)| == Leaves(c)
  {
    match c
    case One(s) =>
    case Two(l, m, r) =>
      TilingCount(t, l, lo, m);
      TilingCount(t, r, m, hi);
      TilingBounds(t, l, lo, m);
      TilingBounds(t, r, m, hi);
      forall s: int | s in Symbols(l)
        ensures s !in Symbols(r)
      {
        assert High(t[s]) <= m;
      }
      DisjointUnion(Symbols(l), Symbols(r));
  }

  lemma {:induction false} EverySymbolTiled(t: seq<Row>, c: Tiling, lo: int, hi: int)
    requires Tiles(t, c, lo, hi) && Leaves(c) == |t|
    ensures forall s :: 0 <= s < |t| ==> s in Symbols(c)
  {
    TilingCount(t, c, lo, hi);
    TilingBounds(t, c, lo, hi);
    FullSubset(Symbols(c), Below(|t|));
  }

  // ----- from intervals to bits -----

  lemma {:induction false} AlignedIsShifted(len: int, code: int)
    requires SHORTEST <= len <= LONGEST
    ensures Aligned(len, code) == code * Pow2(30 - len)
  {
    assert Pow2(1) == 2 && Pow2(2) == 4 && Pow2(3) == 8 && Pow2(4) == 16;
    assert Pow2(8) == 256;
    assert Pow2(12) == 0x1000;
    assert Pow2(16) == 0x1_0000;
    assert Pow2(20) == 0x10_0000;
    assert Pow2(24) == 0x100_0000;
  }

  lemma CodeFitsItsLength(r: Row)
    requires SHORTEST <= r.1 <= LONGEST && 0 <= r.0
    requires High(r) <= SPACE
    ensures r.0 < Pow2(r.1)
  {
    var q := Pow2(30 - r.1);
    calc {
      (r.0 + 1) * q;
      { Distribute(r.0, 1, q); }
      r.0 * q + 1 * q;
      { AlignedIsShifted(r.1, r.0); AlignedIsShifted(r.1, 1); }
      High(r);
    <=
      SPACE;
      { Pow2Values(); Pow2Add(r.1, 30 - r.1); }
      Pow2(r.1) * q;
    }
    Ordered(r.0 + 1, Pow2(r.1), q);
  }

  lemma Distribute(a: int, b: int, q: int)
    ensures (a + b) * q == a * q + b * q
  {
  }

  lemma Ordered(a: int, b: int, q: int)
    requires q > 0 && a * q <= b * q
    ensures a <= b
  {
    if a > b {
      MultipleIsFar(a - b, q);
      assert false;
    }
  }

  /** A code word starts a 30-bit string exactly when the string's value lies in the word's interval. */
  lemma {:induction false} PrefixIsInterval(t: seq<Row>, s: Symbol, x: BitString)
    requires InRange(t) && |x| == LONGEST
    ensures Word(t, s) <= x <==> Low(t[s]) <= ValueOf(x) < High(t[s])
  {
    var row := t[s];
    PrefixByValue(Word(t, s), x);
    ValueOfBits(row.0, row.1);
    IntervalIsBlock(row, ValueOf(x[..row.1]), ValueOf(x[row.1..]));
    ValueOfConcat(x[..row.1], x[row.1..]);
    assert x == x[..row.1] + x[row.1..];
  }

  lemma {:induction false} PrefixByValue(w: BitString, x: BitString)
    requires |w| <= |x|
    ensures w <= x <==> ValueOf(x[..|w|]) == ValueOf(w)
  {
    var y := x[..|w|];
    assert w <= x <==> y == w;
    if ValueOf(y) == ValueOf(w) {
      ValueInjective(y, w);
    }
  }

  lemma IntervalIsBlock(row: Row, h: nat, r: nat)
    requires SHORTEST <= row.1 <= LONGEST && r < Pow2(30 - row.1)
    ensures Low(row) <= h * Pow2(30 - row.1) + r < High(row) <==> row.0 == h
  {
    var q := Pow2(30 - row.1);
    AlignedIsShifted(row.1, row.0);
    AlignedIsShifted(row.1, 1);
    Distribute(row.0, 1, q);
    SameBlock(row.0, h, q, r);
  }

  lemma {:induction false} SameBlock(a: int, b: int, q: int, r: int)
    requires 0 <= r < q
    ensures a * q <= b * q + r < (a + 1) * q <==> a == b
  {
    if a != b {
      MultipleIsFar(b - a, q);
      Distribute(b - a, a, q);
      Distribute(a, 1, q);
    }
  }

  /** A table tiled by all its symbols is a complete prefix code. */
  lemma {:induction false} TiledTableIsCode(t: seq<Row>, c: Tiling)
    requires |t| == SYMBOLS && Tiles(t, c, 0, SPACE) && Leaves(c) == SYMBOLS
    requires t[EOS] == (SPACE - 1, LONGEST)
    ensures IsCode(t)
  {
    EverySymbolTiled(t, c, 0, SPACE);
    TilingBounds(t, c, 0, SPACE);
    forall s | 0 <= s < SYMBOLS
      ensures 0 <= t[s].0 < Pow2(t[s].1)
    {
      CodeFitsItsLength(t[s]);
    }
    forall a: Symbol, b: Symbol | Word(t, a) <= Word(t, b)
      ensures a == b
    {
      var x := Word(t, b) + seq(LONGEST - |Word(t, b)|, _ => false);
      PrefixIsInterval(t, a, x);
      PrefixIsInterval(t, b, x);
      TilingDisjoint(t, c, 0, SPACE, ValueOf(x), a, b);
    }
    forall x: BitString | |x| == LONGEST
      ensures StartsWithWord(t, x)
    {
      Pow2Values();
      var s := TilingCovers(t, c, 0, SPACE, ValueOf(x));
      PrefixIsInterval(t, s, x);
    }
    ValueOfOnes(LONGEST);
    BitsOfValue(Ones(LONGEST));
    Pow2Values();
  }

  /** The words of `c` all have `len` bits, and in order they count up from `lo` to just below `hi`. */
  predicate CountsUp(c: Tiling, len: int, lo: int, hi: int)
    decreases c
  {
    match c
    case One(s) => 0 <= s < SYMBOLS && RowOf(s) == (lo, len) && hi == lo + 1
    case Two(l, m, r) => CountsUp(l, len, lo, m) && CountsUp(r, len, m, hi)
  }

  lemma {:induction false} RunTiles(c: Tiling, len: int, lo: int, hi: int)
    requires CountsUp(c, len, lo, hi) && SHORTEST <= len <= LONGEST && 0 <= lo
    ensures lo < hi
    ensures Tiles(HUFFMAN, Realigned(c, len), Aligned(len, lo), Aligned(len, hi))
    ensures Leaves(Realigned(c, len)) == Leaves(c)
    decreases c
  {
    match c
    case One(s) => AlignedNext(len, lo);
    case Two(l, m, r) =>
      RunTiles(l, len, lo, m);
      RunTiles(r, len, m, hi);
  }

  lemma AlignedNext(len: int, code: int)
    requires SHORTEST <= len <= LONGEST
    ensures Aligned(len, code + 1) == Aligned(len, code) + Aligned(len, 1)
  {
  }

  /** A run with its dividing points aligned to thirty bits. */
  function Realigned(c: Tiling, len: int): Tiling {
    match c
    case One(s) => c
    case Two(l, m, r) => Two(Realigned(l, len), Aligned(len, m), Realigned(r, len))
  }

  function First(c: Tiling): int {
    match c
    case One(s) => s
    case Two(l, _, _) => First(l)
  }

  function Last(c: Tiling): int {
    match c
    case One(s) => s
    case Two(_, _, r) => Last(r)
  }

  /** The symbols of `c` ascend. */
  predicate Ascends(c: Tiling)
    decreases c
  {
    match c
    case One(s) => true
    case Two(l, m, r) => Last(l) < First(r) && Ascends(l) && Ascends(r)
  }

  lemma {:induction false} SymbolsRealigned(c: Tiling, len: int)
    ensures Symbols(Realigned(c, len)) == Symbols(c)
  {
    match c
    case One(s) =>
    case Two(l, m, r) =>
      SymbolsRealigned(l, len);
      SymbolsRealigned(r, len);
  }

  lemma {:induction false} RunAscends(c: Tiling, len: int, lo: int, hi: int)
    requires CountsUp(c, len, lo, hi) && Ascends(c)
    ensures lo < hi && First(c) <= Last(c)
    ensures forall s :: s in Symbols(c) ==>
      0 <= s < SYMBOLS && First(c) <= s <= Last(c) && RowOf(s).1 == len && lo <= RowOf(s).0 < hi
    ensures forall a, b :: a in Symbols(c) && b in Symbols(c) && a < b ==> RowOf(a).0 < RowOf(b).0
    decreases c
  {
    match c
    case One(s) =>
    case Two(l, m, r) =>
      RunAscends(l, len, lo, m);
      RunAscends(r, len, m, hi);
  }

  lemma AlignedGrows(len: int, a: int, b: int)
    requires SHORTEST <= len <= LONGEST && a < b
    ensures Aligned(len, a) < Aligned(len, b)
  {
  }

  lemma {:induction false} RunIsCanonical(c: Tiling, len: int, lo: int, hi: int)
    requires CountsUp(c, len, lo, hi) && Ascends(c) && SHORTEST <= len <= LONGEST
    ensures Canonical(HUFFMAN, Symbols(c))
    ensures forall s :: s in Symbols(c) ==> 0 <= s < SYMBOLS && HUFFMAN[s].1 == len
  {
    RunAscends(c, len, lo, hi);
    forall a, b | a in Symbols(c) && b in Symbols(c) && a < b
      ensures Low(HUFFMAN[a]) < Low(HUFFMAN[b])
    {
      AlignedGrows(len, RowOf(a).0, RowOf(b).0);
    }
  }

  /** Longer words that lie behind all the others keep a code canonical. */
  lemma {:induction false} CanonicalLonger(t: seq<Row>, x: set<int>, y: set<int>, m: int, short: int, len: int)
    requires Canonical(t, x) && Canonical(t, y) && NoLonger(t, x, short) && short < len
    requires forall s :: s in x ==> 0 <= s < |t| && Low(t[s]) < m
    requires forall s :: s in y ==> 0 <= s < |t| && t[s].1 == len && m <= Low(t[s])
    ensures Canonical(t, x + y) && NoLonger(t, x + y, len)
  {
  }

  /** `c` tiles the numbers from 0 to `hi` with `n` symbols in canonical order, none with a word longer than `len`. */
  ghost predicate Covers(c: Tiling, hi: int, n: nat, len: int) {
    forall k: int {:trigger Key(k)} :: Key(k) && k == TILING ==>
      && Tiles(HUFFMAN, c, 0, hi) && Leaves(c) == n
      && Canonical(HUFFMAN, Symbols(c)) && NoLonger(HUFFMAN, Symbols(c), len)
  }

  /** `r` is a run of `n` words of `len` bits from `lo` to just below `hi`, in the order of their symbols. */
  ghost predicate IsRun(r: Tiling, len: int, lo: int, hi: int, n: nat) {
    forall k: int {:trigger Key(k)} :: Key(k) && k == TILING ==>
      CountsUp(r, len, lo, hi) && Leaves(r) == n && Ascends(r)
  }

  lemma FirstRun(r: Tiling, len: int, hi: int, n: nat) returns (d: Tiling)
    requires SHORTEST <= len <= LONGEST && IsRun(r, len, 0, hi, n)
    ensures Covers(d, Aligned(len, hi), n, len)
  {
    assert Key(TILING);
    AlignedIsShifted(len, 0);
    RunTiles(r, len, 0, hi);
    RunIsCanonical(r, len, 0, hi);
    SymbolsRealigned(r, len);
    d := Realigned(r, len);
  }

  /** A tiling from 0 to `m` and a run of longer words that starts there make a longer tiling. */
  lemma Extend(c: Tiling, m: int, k: nat, short: int, r: Tiling, len: int, lo: int, hi: int, n: nat)
    returns (d: Tiling)
    requires SHORTEST <= len <= LONGEST && 0 <= lo && Aligned(len, lo) == m && short < len
    requires Covers(c, m, k, short) && IsRun(r, len, lo, hi, n)
    ensures Covers(d, Aligned(len, hi), k + n, len)
  {
    assert Key(TILING);
    RunTiles(r, len, lo, hi);
    RunIsCanonical(r, len, lo, hi);
    SymbolsRealigned(r, len);
    TilingBounds(HUFFMAN, c, 0, m);
    TilingBounds(HUFFMAN, Realigned(r, len), m, Aligned(len, hi));
    CanonicalLonger(HUFFMAN, Symbols(c), Symbols(r), m, short, len);
    d := Two(c, m, Realigned(r, len));
  }

  // ----- the RFC's table -----

  const RUN_0: Tiling :=
    Two(Two(Two(One(48), 0x1, One(49)), 0x2, Two(One(50), 0x3, Two(One(97), 0x4, One(99)))), 0x5, Two(Two(One(101),
    0x6, One(105)), 0x7, Two(One(111), 0x8, Two(One(115), 0x9, One(116)))))

  const RUN_1: Tiling :=
    Two(Two(Two(Two(One(32), 0x15, Two(One(37), 0x16, One(45))), 0x17, Two(One(46), 0x18, Two(One(47), 0x19,
    One(51)))), 0x1a, Two(Two(One(52), 0x1b, Two(One(53), 0x1c, One(54))), 0x1d, Two(Two(One(55), 0x1e, One(56)),
    0x1f, Two(One(57), 0x20, One(61))))), 0x21, Two(Two(Two(One(65), 0x22, Two(One(95), 0x23, One(98))), 0x24,
    Two(One(100), 0x25, Two(One(102), 0x26, One(103)))), 0x27, Two(Two(One(104), 0x28, Two(One(108), 0x29,
    One(109))), 0x2a, Two(Two(One(110), 0x2b, One(112)), 0x2c, Two(One(114), 0x2d, One(117))))))

  const RUN_2: Tiling :=
    Two(Two(Two(Two(Two(One(58), 0x5d, One(66)), 0x5e, Two(One(67), 0x5f, One(68))), 0x60, Two(Two(One(69), 0x61,
    One(70)), 0x62, Two(One(71), 0x63, One(72)))), 0x64, Two(Two(Two(One(73), 0x65, One(74)), 0x66, Two(One(75),
    0x67, One(76))), 0x68, Two(Two(One(77), 0x69, One(78)), 0x6a, Two(One(79), 0x6b, One(80))))), 0x6c,
    Two(Two(Two(Two(One(81), 0x6d, One(82)), 0x6e, Two(One(83), 0x6f, One(84))), 0x70, Two(Two(One(85), 0x71,
    One(86)), 0x72, Two(One(87), 0x73, One(89)))), 0x74, Two(Two(Two(One(106), 0x75, One(107)), 0x76, Two(One(113),
    0x77, One(118))), 0x78, Two(Two(One(119), 0x79, One(120)), 0x7a, Two(One(121), 0x7b, One(122))))))

  const RUN_3: Tiling :=
    Two(Two(One(38), 0xf9, Two(One(42), 0xfa, One(44))), 0xfb, Two(One(59), 0xfc, Two(One(88), 0xfd, One(90))))

  const RUN_4: Tiling :=
    Two(Two(One(33), 0x3f9, One(34)), 0x3fa, Two(One(40), 0x3fb, Two(One(41), 0x3fc, One(63))))

  const RUN_5: Tiling :=
    Two(One(39), 0x7fb, Two(One(43), 0x7fc, One(124)))

  const RUN_6: Tiling :=
    Two(One(35), 0xffb, One(62))

  const RUN_7: Tiling :=
    Two(Two(One(0), 0x1ff9, Two(One(36), 0x1ffa, One(64))), 0x1ffb, Two(One(91), 0x1ffc, Two(One(93), 0x1ffd,
    One(126))))

  const RUN_8: Tiling :=
    Two(One(94), 0x3ffd, One(125))

  const RUN_9: Tiling :=
    Two(One(60), 0x7ffd, Two(One(96), 0x7ffe, One(123)))

  const RUN_10: Tiling :=
    Two(One(92), 0x7fff1, Two(One(195), 0x7fff2, One(208)))

  const RUN_11: Tiling :=
    Two(Two(Two(One(128), 0xfffe7, One(130)), 0xfffe8, Two(One(131), 0xfffe9, One(162))), 0xfffea,
    Two(Two(One(184), 0xfffeb, One(194)), 0xfffec, Two(One(224), 0xfffed, One(226))))

  const RUN_12: Tiling :=
    Two(Two(Two(One(153), 0x1fffdd, Two(One(161), 0x1fffde, One(167))), 0x1fffdf, Two(One(172), 0x1fffe0,
    Two(One(176), 0x1fffe1, One(177)))), 0x1fffe2, Two(Two(One(179), 0x1fffe3, Two(One(209), 0x1fffe4, One(216))),
    0x1fffe5, Two(Two(One(217), 0x1fffe6, One(227)), 0x1fffe7, Two(One(229), 0x1fffe8, One(230)))))

  const RUN_13: Tiling :=
    Two(Two(Two(Two(One(129), 0x3fffd3, Two(One(132), 0x3fffd4, One(133))), 0x3fffd5, Two(One(134), 0x3fffd6,
    Two(One(136), 0x3fffd7, One(146)))), 0x3fffd8, Two(Two(One(154), 0x3fffd9, Two(One(156), 0x3fffda, One(160))),
    0x3fffdb, Two(Two(One(163), 0x3fffdc, One(164)), 0x3fffdd, Two(One(169), 0x3fffde, One(170))))), 0x3fffdf,
    Two(Two(Two(One(173), 0x3fffe0, Two(One(178), 0x3fffe1, One(181))), 0x3fffe2, Two(One(185), 0x3fffe3,
    Two(One(186), 0x3fffe4, One(187)))), 0x3fffe5, Two(Two(One(189), 0x3fffe6, Two(One(190), 0x3fffe7, One(196))),
    0x3fffe8, Two(Two(One(198), 0x3fffe9, One(228)), 0x3fffea, Two(One(232), 0x3fffeb, One(233))))))

  const RUN_14: Tiling :=
    Two(Two(Two(Two(One(1), 0x7fffd9, Two(One(135), 0x7fffda, One(137))), 0x7fffdb, Two(Two(One(138), 0x7fffdc,
    One(139)), 0x7fffdd, Two(One(140), 0x7fffde, One(141)))), 0x7fffdf, Two(Two(One(143), 0x7fffe0, Two(One(147),
    0x7fffe1, One(149))), 0x7fffe2, Two(Two(One(150), 0x7fffe3, One(151)), 0x7fffe4, Two(One(152), 0x7fffe5,
    One(155))))), 0x7fffe6, Two(Two(Two(One(157), 0x7fffe7, Two(One(158), 0x7fffe8, One(165))), 0x7fffe9,
    Two(Two(One(166), 0x7fffea, One(168)), 0x7fffeb, Two(One(174), 0x7fffec, One(175)))), 0x7fffed,
    Two(Two(Two(One(180), 0x7fffee, One(182)), 0x7fffef, Two(One(183), 0x7ffff0, One(188))), 0x7ffff1,
    Two(Two(One(191), 0x7ffff2, One(197)), 0x7ffff3, Two(One(231), 0x7ffff4, One(239))))))

  const RUN_15: Tiling :=
    Two(Two(Two(One(9), 0xffffeb, Two(One(142), 0xffffec, One(144))), 0xffffed, Two(One(145), 0xffffee,
    Two(One(148), 0xffffef, One(159)))), 0xfffff0, Two(Two(One(171), 0xfffff1, Two(One(206), 0xfffff2, One(215))),
    0xfffff3, Two(One(225), 0xfffff4, Two(One(236), 0xfffff5, One(237)))))

  const RUN_16: Tiling :=
    Two(Two(One(199), 0x1ffffed, One(207)), 0x1ffffee, Two(One(234), 0x1ffffef, One(235)))

  const RUN_17: Tiling :=
    Two(Two(Two(One(192), 0x3ffffe1, Two(One(193), 0x3ffffe2, One(200))), 0x3ffffe3, Two(Two(One(201), 0x3ffffe4,
    One(202)), 0x3ffffe5, Two(One(205), 0x3ffffe6, One(210)))), 0x3ffffe7, Two(Two(Two(One(213), 0x3ffffe8,
    One(218)), 0x3ffffe9, Two(One(219), 0x3ffffea, One(238))), 0x3ffffeb, Two(Two(One(240), 0x3ffffec, One(242)),
    0x3ffffed, Two(One(243), 0x3ffffee, One(255)))))

  const RUN_18: Tiling :=
    Two(Two(Two(Two(One(203), 0x7ffffdf, One(204)), 0x7ffffe0, Two(One(211), 0x7ffffe1, One(212))), 0x7ffffe2,
    Two(Two(One(214), 0x7ffffe3, One(221)), 0x7ffffe4, Two(One(222), 0x7ffffe5, Two(One(223), 0x7ffffe6,
    One(241))))), 0x7ffffe7, Two(Two(Two(One(244), 0x7ffffe8, One(245)), 0x7ffffe9, Two(One(246), 0x7ffffea,
    Two(One(247), 0x7ffffeb, One(248)))), 0x7ffffec, Two(Two(One(250), 0x7ffffed, One(251)), 0x7ffffee,
    Two(One(252), 0x7ffffef, Two(One(253), 0x7fffff0, One(254))))))

  const RUN_19: Tiling :=
    Two(Two(Two(Two(One(2), 0xfffffe3, Two(One(3), 0xfffffe4, One(4))), 0xfffffe5, Two(Two(One(5), 0xfffffe6,
    One(6)), 0xfffffe7, Two(One(7), 0xfffffe8, One(8)))), 0xfffffe9, Two(Two(One(11), 0xfffffea, Two(One(12),
    0xfffffeb, One(14))), 0xfffffec, Two(Two(One(15), 0xfffffed, One(16)), 0xfffffee, Two(One(17), 0xfffffef,
    One(18))))), 0xffffff0, Two(Two(Two(One(19), 0xffffff1, Two(One(20), 0xffffff2, One(21))), 0xffffff3,
    Two(Two(One(23), 0xffffff4, One(24)), 0xffffff5, Two(One(25), 0xffffff6, One(26)))), 0xffffff7,
    Two(Two(Two(One(27), 0xffffff8, One(28)), 0xffffff9, Two(One(29), 0xffffffa, One(30))), 0xffffffb,
    Two(Two(One(31), 0xffffffc, One(127)), 0xffffffd, Two(One(220), 0xffffffe, One(249))))))

  const RUN_20: Tiling :=
    Two(Two(One(10), 0x3ffffffd, One(13)), 0x3ffffffe, Two(One(22), 0x3fffffff, One(256)))

  lemma Ascending0()
    ensures Ascends(RUN_0) && Ascends(RUN_1)
  {
    assert Ascends(RUN_0);
    assert Ascends(RUN_1);
  }

  lemma Ascending2()
    ensures Ascends(RUN_2) && Ascends(RUN_3)
  {
    assert Ascends(RUN_2);
    assert Ascends(RUN_3);
  }

  lemma Ascending4()
    ensures Ascends(RUN_4) && Ascends(RUN_5) && Ascends(RUN_6) && Ascends(RUN_7)
    ensures Ascends(RUN_8) && Ascends(RUN_9) && Ascends(RUN_10)
  {
    assert Ascends(RUN_4);
    assert Ascends(RUN_5);
    assert Ascends(RUN_6);
    assert Ascends(RUN_7);
    assert Ascends(RUN_8);
    assert Ascends(RUN_9);
    assert Ascends(RUN_10);
  }

  lemma Ascending11()
    ensures Ascends(RUN_11) && Ascends(RUN_12)
  {
    assert Ascends(RUN_11);
    assert Ascends(RUN_12);
  }

  lemma Ascending13()
    ensures Ascends(RUN_13)
  {
    assert Ascends(RUN_13);
  }

  lemma Ascending14()
    ensures Ascends(RUN_14)
  {
    assert Ascends(RUN_14);
  }

  lemma Ascending15()
    ensures Ascends(RUN_15) && Ascends(RUN_16)
  {
    assert Ascends(RUN_15);
    assert Ascends(RUN_16);
  }

  lemma Ascending17()
    ensures Ascends(RUN_17)
  {
    assert Ascends(RUN_17);
  }

  lemma Ascending18()
    ensures Ascends(RUN_18)
  {
    assert Ascends(RUN_18);
  }

  lemma Ascending19()
    ensures Ascends(RUN_19) && Ascends(RUN_20)
  {
    assert Ascends(RUN_19);
    assert Ascends(RUN_20);
  }

  lemma Runs0() returns (r0: Tiling)
    ensures IsRun(r0, 5, 0x0, 0xa, 10)
  {
    Ascending0();
    assert CountsUp(RUN_0, 5, 0x0, 0xa) && Leaves(RUN_0) == 10;
    r0 := RUN_0;
  }

  lemma Runs1() returns (r1: Tiling)
    ensures IsRun(r1, 6, 0x14, 0x2e, 26)
  {
    Ascending0();
    assert CountsUp(RUN_1, 6, 0x14, 0x2e) && Leaves(RUN_1) == 26;
    r1 := RUN_1;
  }

  lemma Runs2() returns (r2: Tiling)
    ensures IsRun(r2, 7, 0x5c, 0x7c, 32)
  {
    Ascending2();
    assert CountsUp(RUN_2, 7, 0x5c, 0x7c) && Leaves(RUN_2) == 32;
    r2 := RUN_2;
  }

  lemma Runs3() returns (r3: Tiling, r4: Tiling, r5: Tiling, r6: Tiling)
    ensures IsRun(r3, 8, 0xf8, 0xfe, 6)
    ensures IsRun(r4, 10, 0x3f8, 0x3fd, 5)
    ensures IsRun(r5, 11, 0x7fa, 0x7fd, 3)
    ensures IsRun(r6, 12, 0xffa, 0xffc, 2)
  {
    Ascending2();
    Ascending4();
    assert CountsUp(RUN_3, 8, 0xf8, 0xfe) && Leaves(RUN_3) == 6;
    assert CountsUp(RUN_4, 10, 0x3f8, 0x3fd) && Leaves(RUN_4) == 5;
    assert CountsUp(RUN_5, 11, 0x7fa, 0x7fd) && Leaves(RUN_5) == 3;
    assert CountsUp(RUN_6, 12, 0xffa, 0xffc) && Leaves(RUN_6) == 2;
    r3, r4, r5, r6 := RUN_3, RUN_4, RUN_5, RUN_6;
  }

  lemma Runs7() returns (r7: Tiling, r8: Tiling, r9: Tiling, r10: Tiling)
    ensures IsRun(r7, 13, 0x1ff8, 0x1ffe, 6)
    ensures IsRun(r8, 14, 0x3ffc, 0x3ffe, 2)
    ensures IsRun(r9, 15, 0x7ffc, 0x7fff, 3)
    ensures IsRun(r10, 19, 0x7fff0, 0x7fff3, 3)
  {
    Ascending4();
    assert CountsUp(RUN_7, 13, 0x1ff8, 0x1ffe) && Leaves(RUN_7) == 6;
    assert CountsUp(RUN_8, 14, 0x3ffc, 0x3ffe) && Leaves(RUN_8) == 2;
    assert CountsUp(RUN_9, 15, 0x7ffc, 0x7fff) && Leaves(RUN_9) == 3;
    assert CountsUp(RUN_10, 19, 0x7fff0, 0x7fff3) && Leaves(RUN_10) == 3;
    r7, r8, r9, r10 := RUN_7, RUN_8, RUN_9, RUN_10;
  }

  lemma Runs11() returns (r11: Tiling)
    ensures IsRun(r11, 20, 0xfffe6, 0xfffee, 8)
  {
    Ascending11();
    assert CountsUp(RUN_11, 20, 0xfffe6, 0xfffee) && Leaves(RUN_11) == 8;
    r11 := RUN_11;
  }

  lemma Runs12() returns (r12: Tiling)
    ensures IsRun(r12, 21, 0x1fffdc, 0x1fffe9, 13)
  {
    Ascending11();
    assert CountsUp(RUN_12, 21, 0x1fffdc, 0x1fffe9) && Leaves(RUN_12) == 13;
    r12 := RUN_12;
  }

  lemma Runs13() returns (r13: Tiling)
    ensures IsRun(r13, 22, 0x3fffd2, 0x3fffec, 26)
  {
    Ascending13();
    assert CountsUp(RUN_13, 22, 0x3fffd2, 0x3fffec) && Leaves(RUN_13) == 26;
    r13 := RUN_13;
  }

  lemma Runs14() returns (r14: Tiling)
    ensures IsRun(r14, 23, 0x7fffd8, 0x7ffff5, 29)
  {
    Ascending14();
    assert CountsUp(RUN_14, 23, 0x7fffd8, 0x7ffff5) && Leaves(RUN_14) == 29;
    r14 := RUN_14;
  }

  lemma Runs15() returns (r15: Tiling, r16: Tiling)
    ensures IsRun(r15, 24, 0xffffea, 0xfffff6, 12)
    ensures IsRun(r16, 25, 0x1ffffec, 0x1fffff0, 4)
  {
    Ascending15();
    assert CountsUp(RUN_15, 24, 0xffffea, 0xfffff6) && Leaves(RUN_15) == 12;
    assert CountsUp(RUN_16, 25, 0x1ffffec, 0x1fffff0) && Leaves(RUN_16) == 4;
    r15, r16 := RUN_15, RUN_16;
  }

  lemma Runs17() returns (r17: Tiling)
    ensures IsRun(r17, 26, 0x3ffffe0, 0x3ffffef, 15)
  {
    Ascending17();
    assert CountsUp(RUN_17, 26, 0x3ffffe0, 0x3ffffef) && Leaves(RUN_17) == 15;
    r17 := RUN_17;
  }

  lemma Runs18() returns (r18: Tiling)
    ensures IsRun(r18, 27, 0x7ffffde, 0x7fffff1, 19)
  {
    Ascending18();
    assert CountsUp(RUN_18, 27, 0x7ffffde, 0x7fffff1) && Leaves(RUN_18) == 19;
    r18 := RUN_18;
  }

  lemma Runs19() returns (r19: Tiling)
    ensures IsRun(r19, 28, 0xfffffe2, 0xfffffff, 29)
  {
    Ascending19();
    assert CountsUp(RUN_19, 28, 0xfffffe2, 0xfffffff) && Leaves(RUN_19) == 29;
    r19 := RUN_19;
  }

  lemma Runs20() returns (r20: Tiling)
    ensures IsRun(r20, 30, 0x3ffffffc, 0x40000000, 4)
  {
    Ascending19();
    assert CountsUp(RUN_20, 30, 0x3ffffffc, 0x40000000) && Leaves(RUN_20) == 4;
    r20 := RUN_20;
  }

  lemma Words5To8() returns (c: Tiling)
    ensures Covers(c, 0x3f800000, 74, 8)
  {
    var r0 := Runs0();
    var r1 := Runs1();
    var r2 := Runs2();
    var r3, r4, r5, r6 := Runs3();
    c := FirstRun(r0, 5, 0xa, 10);
    c := Extend(c, 0x14000000, 10, 5, r1, 6, 0x14, 0x2e, 26);
    c := Extend(c, 0x2e000000, 36, 6, r2, 7, 0x5c, 0x7c, 32);
    c := Extend(c, 0x3e000000, 68, 7, r3, 8, 0xf8, 0xfe, 6);
  }

  lemma Words10To12() returns (c: Tiling)
    ensures Covers(c, 0x3ff00000, 84, 12)
  {
    var r3, r4, r5, r6 := Runs3();
    c := Words5To8();
    c := Extend(c, 0x3f800000, 74, 8, r4, 10, 0x3f8, 0x3fd, 5);
    c := Extend(c, 0x3fd00000, 79, 10, r5, 11, 0x7fa, 0x7fd, 3);
    c := Extend(c, 0x3fe80000, 82, 11, r6, 12, 0xffa, 0xffc, 2);
  }

  lemma Words13To15() returns (c: Tiling)
    ensures Covers(c, 0x3fff8000, 95, 15)
  {
    var r7, r8, r9, r10 := Runs7();
    c := Words10To12();
    c := Extend(c, 0x3ff00000, 84, 12, r7, 13, 0x1ff8, 0x1ffe, 6);
    c := Extend(c, 0x3ffc0000, 90, 13, r8, 14, 0x3ffc, 0x3ffe, 2);
    c := Extend(c, 0x3ffe0000, 92, 14, r9, 15, 0x7ffc, 0x7fff, 3);
  }

  lemma Words19To21() returns (c: Tiling)
    ensures Covers(c, 0x3fffd200, 119, 21)
  {
    var r7, r8, r9, r10 := Runs7();
    var r11 := Runs11();
    var r12 := Runs12();
    c := Words13To15();
    c := Extend(c, 0x3fff8000, 95, 15, r10, 19, 0x7fff0, 0x7fff3, 3);
    c := Extend(c, 0x3fff9800, 98, 19, r11, 20, 0xfffe6, 0xfffee, 8);
    c := Extend(c, 0x3fffb800, 106, 20, r12, 21, 0x1fffdc, 0x1fffe9, 13);
  }

  lemma Words22To24() returns (c: Tiling)
    ensures Covers(c, 0x3ffffd80, 186, 24)
  {
    var r13 := Runs13();
    var r14 := Runs14();
    var r15, r16 := Runs15();
    c := Words19To21();
    c := Extend(c, 0x3fffd200, 119, 21, r13, 22, 0x3fffd2, 0x3fffec, 26);
    c := Extend(c, 0x3fffec00, 145, 22, r14, 23, 0x7fffd8, 0x7ffff5, 29);
    c := Extend(c, 0x3ffffa80, 174, 23, r15, 24, 0xffffea, 0xfffff6, 12);
  }

  lemma Words25To27() returns (c: Tiling)
    ensures Covers(c, 0x3fffff88, 224, 27)
  {
    var r15, r16 := Runs15();
    var r17 := Runs17();
    var r18 := Runs18();
    c := Words22To24();
    c := Extend(c, 0x3ffffd80, 186, 24, r16, 25, 0x1ffffec, 0x1fffff0, 4);
    c := Extend(c, 0x3ffffe00, 190, 25, r17, 26, 0x3ffffe0, 0x3ffffef, 15);
    c := Extend(c, 0x3ffffef0, 205, 26, r18, 27, 0x7ffffde, 0x7fffff1, 19);
  }

  /** The runs lie end to end from 0 to 2^30. */
  lemma CompleteTiling() returns (c: Tiling)
    ensures Covers(c, SPACE, SYMBOLS, LONGEST)
  {
    var r19 := Runs19();
    var r20 := Runs20();
    c := Words25To27();
    c := Extend(c, 0x3fffff88, 224, 27, r19, 28, 0xfffffe2, 0xfffffff, 29);
    c := Extend(c, 0x3ffffffc, 253, 28, r20, 30, 0x3ffffffc, 0x40000000, 4);
  }

  /** The table of RFC 7541 is a complete prefix code, and its end-of-string word is thirty ones. */
  lemma RfcTableIsCode()
    ensures IsCode(HUFFMAN)
  {
    var c := CompleteTiling();
    assert Key(TILING);
    RfcTableShape();
    TiledTableIsCode(HUFFMAN, c);
  }

  lemma {:induction false} CanonicalOrder(t: seq<Row>, symbols: set<int>, a: Symbol, b: Symbol)
    requires InRange(t) && Canonical(t, symbols) && a in symbols && b in symbols && Before(t, a, b)
    ensures t[a].0 * Pow2(30 - t[a].1) < t[b].0 * Pow2(30 - t[b].1)
    ensures t[a].1 == t[b].1 ==> t[a].0 < t[b].0
  {
    AlignedIsShifted(t[a].1, t[a].0);
    AlignedIsShifted(t[b].1, t[b].0);
    if t[a].1 == t[b].1 && t[a].0 >= t[b].0 {
      AlignedGrows(t[a].1, t[b].0, t[a].0 + 1);
      AlignedNext(t[a].1, t[a].0);
    }
  }

  lemma {:induction false} RfcSymbols() returns (symbols: set<int>)
    ensures |HUFFMAN| == SYMBOLS && Canonical(HUFFMAN, symbols) && forall s :: 0 <= s < SYMBOLS ==> s in symbols
  {
    var c := CompleteTiling();
    assert Key(TILING);
    RfcTableShape();
    EverySymbolTiled(HUFFMAN, c, 0, SPACE);
    symbols := Symbols(c);
  }

  /** And it is canonical: the words, read from the left as numbers, are in the order of their lengths, and those of one
    * length in the order of their symbols. The lengths alone determine such a table. */
  lemma {:induction false} RfcTableIsCanonical(a: Symbol, b: Symbol)
    requires |HUFFMAN| == SYMBOLS
    requires HUFFMAN[a].1 < HUFFMAN[b].1 || (HUFFMAN[a].1 == HUFFMAN[b].1 && a < b)
    ensures InRange(HUFFMAN)
    ensures HUFFMAN[a].0 * Pow2(30 - HUFFMAN[a].1) < HUFFMAN[b].0 * Pow2(30 - HUFFMAN[b].1)
    ensures HUFFMAN[a].1 == HUFFMAN[b].1 ==> HUFFMAN[a].0 < HUFFMAN[b].0
  {
    RfcTableIsCode();
    var symbols := RfcSymbols();
    CanonicalOrder(HUFFMAN, symbols, a, b);
  }

  lemma RfcTableShape()
    ensures |HUFFMAN| == SYMBOLS && HUFFMAN[EOS] == (SPACE - 1, LONGEST)
  {
  }

  // ----- how long the words are -----

  lemma {:induction false} RowInTable(s: Symbol, len: int)
    requires RowOf(s).1 == len
    ensures |HUFFMAN| == SYMBOLS && HUFFMAN[s].1 == len
  {
  }

  lemma {:induction false} Lengths0To31(s: Symbol)
    requires 0 <= s < 32
    ensures |HUFFMAN| == SYMBOLS
    ensures HUFFMAN[s].1 ==
      [13, 23, 28, 28, 28, 28, 28, 28, 28, 24, 30, 28, 28, 30, 28, 28,
       28, 28, 28, 28, 28, 28, 30, 28, 28, 28, 28, 28, 28, 28, 28, 28][s - 0]
  {
    var len := RowOf(s).1;
    assert len ==
      [13, 23, 28, 28, 28, 28, 28, 28, 28, 24, 30, 28, 28, 30, 28, 28,
       28, 28, 28, 28, 28, 28, 30, 28, 28, 28, 28, 28, 28, 28, 28, 28][s - 0];
    RowInTable(s, len);
  }

  lemma {:induction false} Lengths32To63(s: Symbol)
    requires 32 <= s < 64
    ensures |HUFFMAN| == SYMBOLS
    ensures HUFFMAN[s].1 ==
      [6, 10, 10, 12, 13, 6, 8, 11, 10, 10, 8, 11, 8, 6, 6, 6,
       5, 5, 5, 6, 6, 6, 6, 6, 6, 6, 7, 8, 15, 6, 12, 10][s - 32]
  {
    var len := RowOf(s).1;
    assert len ==
      [6, 10, 10, 12, 13, 6, 8, 11, 10, 10, 8, 11, 8, 6, 6, 6,
       5, 5, 5, 6, 6, 6, 6, 6, 6, 6, 7, 8, 15, 6, 12, 10][s - 32];
    RowInTable(s, len);
  }

  lemma {:induction false} Lengths64To95(s: Symbol)
    requires 64 <= s < 96
    ensures |HUFFMAN| == SYMBOLS
    ensures HUFFMAN[s].1 ==
      [13, 6, 7, 7, 7, 7, 7, 7, 7, 7, 7, 7, 7, 7, 7, 7,
       7, 7, 7, 7, 7, 7, 7, 7, 8, 7, 8, 13, 19, 13, 14, 6][s - 64]
  {
    var len := RowOf(s).1;
    assert len ==
      [13, 6, 7, 7, 7, 7, 7, 7, 7, 7, 7, 7, 7, 7, 7, 7,
       7, 7, 7, 7, 7, 7, 7, 7, 8, 7, 8, 13, 19, 13, 14, 6][s - 64];
    RowInTable(s, len);
  }

  lemma {:induction false} Lengths96To127(s: Symbol)
    requires 96 <= s < 128
    ensures |HUFFMAN| == SYMBOLS
    ensures HUFFMAN[s].1 ==
      [15, 5, 6, 5, 6, 5, 6, 6, 6, 5, 7, 7, 6, 6, 6, 5,
       6, 7, 6, 5, 5, 6, 7, 7, 7, 7, 7, 15, 11, 14, 13, 28][s - 96]
  {
    var len := RowOf(s).1;
    assert len ==
      [15, 5, 6, 5, 6, 5, 6, 6, 6, 5, 7, 7, 6, 6, 6, 5,
       6, 7, 6, 5, 5, 6, 7, 7, 7, 7, 7, 15, 11, 14, 13, 28][s - 96];
    RowInTable(s, len);
  }

  lemma {:induction false} Lengths128To159(s: Symbol)
    requires 128 <= s < 160
    ensures |HUFFMAN| == SYMBOLS
    ensures HUFFMAN[s].1 ==
      [20, 22, 20, 20, 22, 22, 22, 23, 22, 23, 23, 23, 23, 23, 24, 23,
       24, 24, 22, 23, 24, 23, 23, 23, 23, 21, 22, 23, 22, 23, 23, 24][s - 128]
  {
    var len := RowOf(s).1;
    assert len ==
      [20, 22, 20, 20, 22, 22, 22, 23, 22, 23, 23, 23, 23, 23, 24, 23,
       24, 24, 22, 23, 24, 23, 23, 23, 23, 21, 22, 23, 22, 23, 23, 24][s - 128];
    RowInTable(s, len);
  }

  lemma {:induction false} Lengths160To191(s: Symbol)
    requires 160 <= s < 192
    ensures |HUFFMAN| == SYMBOLS
    ensures HUFFMAN[s].1 ==
      [22, 21, 20, 22, 22, 23, 23, 21, 23, 22, 22, 24, 21, 22, 23, 23,
       21, 21, 22, 21, 23, 22, 23, 23, 20, 22, 22, 22, 23, 22, 22, 23][s - 160]
  {
    var len := RowOf(s).1;
    assert len ==
      [22, 21, 20, 22, 22, 23, 23, 21, 23, 22, 22, 24, 21, 22, 23, 23,
       21, 21, 22, 21, 23, 22, 23, 23, 20, 22, 22, 22, 23, 22, 22, 23][s - 160];
    RowInTable(s, len);
  }

  lemma {:induction false} Lengths192To223(s: Symbol)
    requires 192 <= s < 224
    ensures |HUFFMAN| == SYMBOLS
    ensures HUFFMAN[s].1 ==
      [26, 26, 20, 19, 22, 23, 22, 25, 26, 26, 26, 27, 27, 26, 24, 25,
       19, 21, 26, 27, 27, 26, 27, 24, 21, 21, 26, 26, 28, 27, 27, 27][s - 192]
  {
    var len := RowOf(s).1;
    assert len ==
      [26, 26, 20, 19, 22, 23, 22, 25, 26, 26, 26, 27, 27, 26, 24, 25,
       19, 21, 26, 27, 27, 26, 27, 24, 21, 21, 26, 26, 28, 27, 27, 27][s - 192];
    RowInTable(s, len);
  }

  lemma {:induction false} Lengths224To255(s: Symbol)
    requires 224 <= s < 256
    ensures |HUFFMAN| == SYMBOLS
    ensures HUFFMAN[s].1 ==
      [20, 24, 20, 21, 22, 21, 21, 23, 22, 22, 25, 25, 24, 24, 26, 23,
       26, 27, 26, 26, 27, 27, 27, 27, 27, 28, 27, 27, 27, 27, 27, 26][s - 224]
  {
    var len := RowOf(s).1;
    assert len ==
      [20, 24, 20, 21, 22, 21, 21, 23, 22, 22, 25, 25, 24, 24, 26, 23,
       26, 27, 26, 26, 27, 27, 27, 27, 27, 28, 27, 27, 27, 27, 27, 26][s - 224];
    RowInTable(s, len);
  }
}
