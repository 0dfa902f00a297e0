/** A bounds-checked cursor, and integers in network byte order. */
module Readers {
  import opened Bits
  import opened Results

  datatype ParseError = Truncated | NotHandshake | NotClientHello | Malformed(what: string)

  // ----- network byte order -----

  function Pow256(n: nat): (r: nat)
    ensures r > 0
  {
    if n == 0 then 1 else 256 * Pow256(n - 1)
  }

  function BigEndian(s: Bytes): (v: nat)
    ensures v < Pow256(|s|)
  {
    if s == [] then 0 else 256 * BigEndian(s[..|s| - 1]) + s[|s| - 1]
  }

  /** The low `n` octets of `v`, most significant first. */
  function Octets(v: nat, n: nat): (s: Bytes)
    ensures |s| == n
    decreases n
  {
    if n == 0 then [] else Octets(v / 256, n - 1) + [v % 256]
  }

  lemma {:induction false} BigEndianOfOctets(v: nat, n: nat)
    requires v < Pow256(n)
    ensures BigEndian(Octets(v, n)) == v
  {
    if n > 0 {
      BigEndianOfOctets(v / 256, n - 1);
      assert Octets(v, n)[..n - 1] == Octets(v / 256, n - 1);
    }
  }

  lemma {:induction false} OctetsOfBigEndian(s: Bytes)
    ensures Octets(BigEndian(s), |s|) == s
  {
    if s != [] {
      var init, last := s[..|s| - 1], s[|s| - 1];
      OctetsOfBigEndian(init);
      DivModUnique(BigEndian(s), 256, BigEndian(init), last);
      assert s == init + [last];
    }
  }

  lemma {:induction false} BigEndianOfFew(s: Bytes)
    ensures |s| == 1 ==> BigEndian(s) == s[0]
    ensures |s| == 2 ==> BigEndian(s) == 0x100 * (s[0] as int) + s[1]
    ensures |s| == 3 ==> BigEndian(s) == 0x1_0000 * (s[0] as int) + 0x100 * (s[1] as int) + s[2]
    ensures |s| == 4 ==>
      BigEndian(s) == 0x100_0000 * (s[0] as int) + 0x1_0000 * (s[1] as int) + 0x100 * (s[2] as int) + s[3]
  {
    if 0 < |s| <= 4 {
      BigEndianOfFew(s[..|s| - 1]);
      assert |s| == 1 ==> s[..|s| - 1] == [];
    }
  }

  lemma Pow256Values()
    ensures Pow256(1) == 0x100 && Pow256(2) == 0x1_0000
    ensures Pow256(3) == 0x100_0000 && Pow256(4) == 0x1_0000_0000
  {
    assert Pow256(1) == 0x100;
    assert Pow256(3) == 0x100 * 0x1_0000;
  }

  // ----- the cursor -----

  lemma Slices<T>(s: seq<T>, a: nat)
    requires a <= |s|
    ensures forall b {:trigger s[a..][b..]} :: 0 <= b <= |s| - a ==> s[a..][b..] == s[a + b..]
    ensures forall b, c {:trigger s[a..][b..c]} :: 0 <= b <= c <= |s| - a ==> s[a..][b..c] == s[a + b..a + c]
  {
  }

  /** A cursor over `buf`. The ghost fields place it in an outer buffer: `buf` is what `source` holds from offset `base`
    * on, so the cursor stands at offset `At()` of `source`. */
  class Reader {
    const buf: Bytes
    var pos: nat
    ghost const source: Bytes
    ghost const base: nat

    ghost predicate Valid()
      reads this
    {
      pos <= |buf| && base + |buf| == |source| && buf == source[base..]
    }

    ghost function At(): (r: nat)
      reads this
      requires Valid()
      ensures r <= |source|
    {
      base + pos
    }

    constructor (buf: Bytes, ghost source: Bytes, ghost base: nat)
      requires base + |buf| == |source| && buf == source[base..]
      ensures Valid() && this.source == source && this.base == base && pos == 0
    {
      this.buf := buf;
      pos := 0;
      this.source := source;
      this.base := base;
    }

    function Remaining(): (n: nat)
      requires Valid()
      reads this
      ensures n == |source| - At()
    {
      |buf| - pos
    }

    /** The next `n` octets, or an error that leaves the cursor where it was. */
    method Take(n: nat) returns (r: Result<Bytes, ParseError>)
      requires Valid()
      modifies this
      ensures Valid()
      ensures old(At()) + n <= |source| ==>
        r == Ok(source[old(At())..old(At()) + n]) && pos == old(pos) + n
      ensures old(At()) + n > |source| ==> r == Err(Truncated) && pos == old(pos)
    {
      var end := pos + n;
      if end > |buf| {
        return Err(Truncated);
      }
      assert buf[pos..end] == source[base + pos..base + end];
      r := Ok(buf[pos..end]);
      pos := end;
    }

    method U8() returns (r: Result<u8, ParseError>)
      requires Valid()
      modifies this
      ensures Valid()
      ensures old(At()) + 1 <= |source| ==> r == Ok(source[old(At())]) && pos == old(pos) + 1
      ensures old(At()) + 1 > |source| ==> r == Err(Truncated) && pos == old(pos)
    {
      var b :- Take(1);
      return Ok(b[0]);
    }

    method U16() returns (r: Result<u16, ParseError>)
      requires Valid()
      modifies this
      ensures Valid()
      ensures old(At()) + 2 <= |source| ==>
        r == Ok(BigEndian(source[old(At())..old(At()) + 2])) && pos == old(pos) + 2
      ensures old(At()) + 2 > |source| ==> r == Err(Truncated) && pos == old(pos)
    {
      var b :- Take(2);
      BigEndianOfFew(b);
      return Ok(0x100 * (b[0] as int) + b[1]);
    }

    /** 24 bits, as used by the handshake message and frame length fields. */
    method U24() returns (r: Result<u32, ParseError>)
      requires Valid()
      modifies this
      ensures Valid()
      ensures old(At()) + 3 <= |source| ==>
        r == Ok(BigEndian(source[old(At())..old(At()) + 3])) && pos == old(pos) + 3
      ensures old(At()) + 3 > |source| ==> r == Err(Truncated) && pos == old(pos)
    {
      var b :- Take(3);
      BigEndianOfFew(b);
      return Ok(0x1_0000 * (b[0] as int) + 0x100 * (b[1] as int) + b[2]);
    }
  }
}
