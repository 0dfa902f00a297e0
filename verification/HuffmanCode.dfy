/** Complete prefix codes over the 257 HPACK symbols, and strings written in them.
  *
  * Everything here holds for any table that is a complete prefix code whose end-of-string word
  * is thirty ones; module HuffmanTable shows that the table of RFC 7541 is one.
  */
module HuffmanCode {
  import opened Sequences
  import opened Bits
  import opened Locks

  /** One row: the code word as a number, and its length in bits. */
  type Row = (int, int)

  const EOS := 256
  const SYMBOLS := 257
  const SHORTEST := 5
  const LONGEST := 30

  type Symbol = x: int | 0 <= x < SYMBOLS

  predicate InRange(t: seq<Row>) {
    |t| == SYMBOLS && forall s :: 0 <= s < SYMBOLS ==> SHORTEST <= t[s].1 <= LONGEST && 0 <= t[s].0 < Pow2(t[s].1)
  }

  /** The code word of a symbol, as the bits sent on the wire. */
  function Word(t: seq<Row>, s: Symbol): (w: BitString)
    requires InRange(t)
    ensures SHORTEST <= |w| <= LONGEST
  {
    BitsOf(t[s].0, t[s].1)
  }

  ghost predicate PrefixFree(t: seq<Row>)
    requires InRange(t)
  {
    forall a: Symbol, b: Symbol :: Word(t, a) <= Word(t, b) ==> a == b
  }

  /** Every sufficiently long bit string starts with a code word. */
  ghost predicate Complete(t: seq<Row>)
    requires InRange(t)
  {
    forall x: BitString {:trigger StartsWithWord(t, x)} :: |x| == LONGEST ==> StartsWithWord(t, x)
  }

  ghost predicate StartsWithWord(t: seq<Row>, x: BitString)
    requires InRange(t)
  {
    exists s: Symbol :: Word(t, s) <= x
  }

  ghost predicate IsCode(t: seq<Row>) {
    InRange(t) && PrefixFree(t) && Complete(t) && Word(t, EOS) == Ones(LONGEST)
  }

  /** The code words of `s`, one after another. */
  function Encoded(t: seq<Row>, s: seq<Symbol>): BitString
    requires InRange(t)
  {
    if s == [] then [] else Encoded(t, s[..|s| - 1]) + Word(t, s[|s| - 1])
  }

  function Padding(bits: nat): (n: nat)
    ensures n < 8 && (bits + n) % 8 == 0
  {
    (8 - bits % 8) % 8
  }

  /** The octets of a Huffman string literal: the code words, then ones up to the next octet boundary
    * (section 5.2 of RFC 7541). */
  function HuffmanOctets(t: seq<Row>, s: Bytes): Bytes
    requires InRange(t)
  {
    var b := Encoded(t, s);
    Pack(b + Ones(Padding(|b|)))
  }

  ghost predicate IsEncoding(t: seq<Row>, s: Bytes, x: Bytes)
    requires InRange(t)
  {
    forall k: int {:trigger Key(k)} :: Key(k) && k == HUFFMAN_ENCODE ==> x == HuffmanOctets(t, s)
  }

  lemma EncodingExists(t: seq<Row>, s: Bytes)
    requires InRange(t)
    ensures exists x :: IsEncoding(t, s, x)
  {
    assert IsEncoding(t, s, HuffmanOctets(t, s));
  }

  /** `HuffmanOctets`, closed. */
  ghost function HuffmanEncode(t: seq<Row>, s: Bytes): (x: Bytes)
    requires InRange(t)
    ensures IsEncoding(t, s, x)
  {
    EncodingExists(t, s);
    var x :| IsEncoding(t, s, x);
    x
  }

  lemma HuffmanEncodeIs(t: seq<Row>, s: Bytes)
    requires InRange(t)
    ensures HuffmanEncode(t, s) == HuffmanOctets(t, s)
  {
    assert Key(HUFFMAN_ENCODE);
  }

  // ----- unique decodability -----

  lemma {:induction false} EncodedConcat(t: seq<Row>, a: seq<Symbol>, b: seq<Symbol>)
    requires InRange(t)
    ensures Encoded(t, a + b) == Encoded(t, a) + Encoded(t, b)
  {
    if b == [] {
      assert a + b == a;
    } else {
      LastOff(a, b);
      EncodedConcat(t, a, b[..|b| - 1]);
      Associate(Encoded(t, a), Encoded(t, b[..|b| - 1]), Word(t, b[|b| - 1]));
    }
  }

  lemma {:induction false} EncodedHead(t: seq<Row>, s: seq<Symbol>)
    requires InRange(t) && s != []
    ensures Encoded(t, s) == Word(t, s[0]) + Encoded(t, s[1..])
  {
    assert Encoded(t, [s[0]]) == Word(t, s[0]) by {
      assert [s[0]][..0] == [];
    }
    EncodedConcat(t, [s[0]], s[1..]);
    assert [s[0]] + s[1..] == s;
  }

  lemma PrefixesCompare(a: BitString, b: BitString, x: BitString)
    requires a <= x && b <= x
    ensures a <= b || b <= a
  {
    assert a == x[..|a|] && b == x[..|b|];
  }

  ghost predicate ProperPrefixOfWord(t: seq<Row>, p: BitString)
    requires InRange(t)
  {
    exists s: Symbol :: p < Word(t, s)
  }

  lemma WordInsidePrefix(t: seq<Row>, s: Symbol, p: BitString)
    requires IsCode(t) && ProperPrefixOfWord(t, p)
    ensures !(Word(t, s) <= p)
  {
    var c: Symbol :| p < Word(t, c);
    PrefixTransitive(Word(t, s), p, Word(t, c));
  }

  lemma PrefixTransitive(a: BitString, b: BitString, c: BitString)
    ensures a <= b < c ==> a < c
  {
  }

  lemma HeadsAgree(t: seq<Row>, a: Symbol, x: BitString, b: Symbol, y: BitString)
    requires IsCode(t)
    requires Word(t, a) + x == Word(t, b) + y
    ensures a == b && x == y
  {
    var z := Word(t, a) + x;
    assert Word(t, a) <= z && Word(t, b) <= z;
    PrefixesCompare(Word(t, a), Word(t, b), z);
    assert x == z[|Word(t, a)|..] && y == z[|Word(t, b)|..];
  }

  lemma HeadInsideUnfinished(t: seq<Row>, a: Symbol, x: BitString, p: BitString)
    requires IsCode(t) && ProperPrefixOfWord(t, p)
    ensures Word(t, a) + x != p
  {
    WordInsidePrefix(t, a, p);
    assert Word(t, a) <= Word(t, a) + x;
  }

  lemma {:induction false} EncodedHeadThen(t: seq<Row>, s: seq<Symbol>, tail: BitString)
    requires InRange(t) && s != []
    ensures Encoded(t, s) + tail == Word(t, s[0]) + (Encoded(t, s[1..]) + tail)
  {
    EncodedHead(t, s);
  }

  lemma {:induction false} ReadOneWord(t: seq<Row>, a: seq<Symbol>, rest: BitString, s: seq<Symbol>, p: BitString)
    requires IsCode(t) && ProperPrefixOfWord(t, p)
    requires Encoded(t, a) + rest == Encoded(t, s) + p
    requires a != []
    ensures s != [] && a[0] == s[0]
    ensures Encoded(t, a[1..]) + rest == Encoded(t, s[1..]) + p
  {
    EncodedHeadThen(t, a, rest);
    if s == [] {
      assert Encoded(t, s) + p == p;
      HeadInsideUnfinished(t, a[0], Encoded(t, a[1..]) + rest, p);
      assert false;
    } else {
      EncodedHeadThen(t, s, p);
      HeadsAgree(t, a[0], Encoded(t, a[1..]) + rest, s[0], Encoded(t, s[1..]) + p);
    }
  }

  /** Two readings of the same bits: if `a` is fully read off the front of a string that is `s` followed by
    * an unfinished word, then `a` is where `s` starts. */
  lemma {:induction false} ReadingsAgree(t: seq<Row>, a: seq<Symbol>, rest: BitString, s: seq<Symbol>, p: BitString)
    requires IsCode(t) && ProperPrefixOfWord(t, p)
    requires Encoded(t, a) + rest == Encoded(t, s) + p
    ensures a <= s
    decreases |a|
  {
    if a == [] {
    } else {
      ReadOneWord(t, a, rest, s, p);
      ReadingsAgree(t, a[1..], rest, s[1..], p);
      assert a == [a[0]] + a[1..] && s == [s[0]] + s[1..];
    }
  }

  lemma PaddingIsUnfinished(t: seq<Row>, n: nat)
    requires IsCode(t) && n < 8
    ensures ProperPrefixOfWord(t, Ones(n))
  {
    assert Ones(n) < Word(t, EOS);
  }

  /** No other string shares its encoding: Huffman coding is injective. */
  lemma HuffmanInjective(t: seq<Row>, a: Bytes, b: Bytes)
    requires IsCode(t)
    requires HuffmanEncode(t, a) == HuffmanEncode(t, b)
    ensures a == b
  {
    HuffmanEncodeIs(t, a);
    HuffmanEncodeIs(t, b);
    var ea, eb := Encoded(t, a), Encoded(t, b);
    var pa, pb := Padding(|ea|), Padding(|eb|);
    UnpackPack(ea + Ones(pa));
    UnpackPack(eb + Ones(pb));
    assert ea + Ones(pa) == eb + Ones(pb);
    PaddingIsUnfinished(t, pa);
    PaddingIsUnfinished(t, pb);
    ReadingsAgree(t, a, Ones(pa), b, Ones(pb));
    ReadingsAgree(t, b, Ones(pb), a, Ones(pa));
  }

  /** Recognising an encoding by its bits alone. */
  lemma {:induction false} EncodingByBits(t: seq<Row>, s: Bytes, k: nat, x: Bytes)
    requires InRange(t)
    requires k < 8 && Unpack(x) == Encoded(t, s) + Ones(k)
    ensures HuffmanEncode(t, s) == x
  {
    assert k == Padding(|Encoded(t, s)|);
    HuffmanEncodeIs(t, s);
    PackUnpack(x);
  }

  lemma {:induction false} BitsOfEncoding(t: seq<Row>, s: Bytes, x: Bytes)
    requires InRange(t)
    requires HuffmanEncode(t, s) == x
    ensures Unpack(x) == Encoded(t, s) + Ones(Padding(|Encoded(t, s)|))
  {
    HuffmanEncodeIs(t, s);
    UnpackPack(Encoded(t, s) + Ones(Padding(|Encoded(t, s)|)));
  }

  lemma {:induction false} EncodedLength(t: seq<Row>, s: seq<Symbol>)
    requires InRange(t)
    ensures SHORTEST * |s| <= |Encoded(t, s)| <= LONGEST * |s|
  {
    if s != [] {
      EncodedLength(t, s[..|s| - 1]);
    }
  }

  /** A decompression bound: a decoded string is at most 8/5 the length of its encoding. */
  lemma ExpansionBound(t: seq<Row>, s: Bytes)
    requires InRange(t)
    ensures 5 * |s| <= 8 * |HuffmanEncode(t, s)|
  {
    HuffmanEncodeIs(t, s);
    EncodedLength(t, s);
  }
}
