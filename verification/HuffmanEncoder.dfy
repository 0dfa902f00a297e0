/** The Huffman encoder: a 64-bit accumulator that is shifted, never masked, and drained octet by octet. */
module HuffmanEncoder {
  import opened Sequences
  import opened Bits
  import opened HuffmanCode

  /** One code word taken in. */
  lemma TakeWord(t: seq<Row>, out: Bytes, acc: u64, bits: nat, s: seq<Symbol>, w: Symbol)
    requires InRange(t) && bits < 8
    requires Unpack(out) + BitsOf(acc, bits) == Encoded(t, s)
    ensures BitOr((acc * Pow2(t[w].1)) % WORD, t[w].0) < WORD
    ensures Unpack(out) + BitsOf(BitOr((acc * Pow2(t[w].1)) % WORD, t[w].0), bits + t[w].1) == Encoded(t, s + [w])
  {
    ShiftInWord(acc, bits, t[w].0, t[w].1);
    Associate(Unpack(out), BitsOf(acc, bits), Word(t, w));
    assert (s + [w])[..|s + [w]| - 1] == s;
  }

  /** One octet put out. */
  lemma {:induction false} PutOctet(out: Bytes, acc: u64, bits: nat)
    ensures Unpack(out + [(acc / Pow2(bits)) % 256]) + BitsOf(acc, bits) == Unpack(out) + BitsOf(acc, bits + 8)
  {
    var octet := (acc / Pow2(bits)) % 256;
    OctetAbove(acc, bits);
    UnpackAppended(out, octet);
    Associate(Unpack(out), BitsOf(octet, 8), BitsOf(acc, bits));
  }

  lemma {:induction false} AllOnes(n: nat)
    ensures BitsOf(Pow2(n) - 1, n) == Ones(n)
  {
    ValueOfOnes(n);
    BitsOfValue(Ones(n));
  }

  lemma {:induction false} LowOctet(v: nat)
    ensures BitsOf(v % 256, 8) == BitsOf(v, 8)
  {
    assert Pow2(8) == 256;
    BitsOfMod(v, 8, 8);
  }

  lemma {:induction false} LastOctet(acc: u64, bits: nat, pad: nat)
    requires bits + pad == 8
    ensures BitsOf(BitOr((acc * Pow2(pad)) % WORD, Pow2(pad) - 1) % 256, 8) == BitsOf(acc, bits) + Ones(pad)
  {
    ShiftInWord(acc, bits, Pow2(pad) - 1, pad);
    AllOnes(pad);
    LowOctet(BitOr((acc * Pow2(pad)) % WORD, Pow2(pad) - 1));
  }

  /** The last octet, filled up with ones. */
  lemma {:induction false} PutPadding(out: Bytes, acc: u64, bits: nat, pad: nat)
    requires bits + pad == 8
    ensures Unpack(out + [BitOr((acc * Pow2(pad)) % WORD, Pow2(pad) - 1) % 256])
      == Unpack(out) + BitsOf(acc, bits) + Ones(pad)
  {
    LastOctet(acc, bits, pad);
    UnpackAppended(out, BitOr((acc * Pow2(pad)) % WORD, Pow2(pad) - 1) % 256);
    Associate(Unpack(out), BitsOf(acc, bits), Ones(pad));
  }

  /** Whole octets go out of the accumulator, most significant first. */
  method Drain(out0: Bytes, acc: u64, bits0: nat) returns (out: Bytes, bits: nat)
    ensures bits < 8
    ensures Unpack(out) + BitsOf(acc, bits) == Unpack(out0) + BitsOf(acc, bits0)
  {
    out, bits := out0, bits0;
    while bits >= 8
      invariant Unpack(out) + BitsOf(acc, bits) == Unpack(out0) + BitsOf(acc, bits0)
    {
      bits := bits - 8;
      PutOctet(out, acc, bits);
      out := out + [(acc / Pow2(bits)) % 256];
    }
  }

  /** The bits left over, filled up with ones. */
  method PadOut(out0: Bytes, acc: u64, bits: nat) returns (out: Bytes, ghost k: nat)
    requires bits < 8
    ensures k < 8 && Unpack(out) == Unpack(out0) + BitsOf(acc, bits) + Ones(k)
  {
    out, k := out0, 0;
    if bits > 0 {
      var pad := 8 - bits;
      PutPadding(out, acc, bits, pad);
      out := out + [BitOr((acc * Pow2(pad)) % WORD, Pow2(pad) - 1) % 256];
      k := pad;
    }
  }

  method EncodeHuffman(t: seq<Row>, input: Bytes) returns (out: Bytes)
    requires InRange(t)
    ensures out == HuffmanEncode(t, input)
  {
    out := [];
    var acc: u64 := 0;
    var bits: nat := 0;
    for i := 0 to |input|
      invariant bits < 8
      invariant Unpack(out) + BitsOf(acc, bits) == Encoded(t, input[..i])
    {
      var (code, len) := t[input[i]];
      assert input[..i + 1] == input[..i] + [input[i]];
      TakeWord(t, out, acc, bits, input[..i], input[i]);
      acc := BitOr((acc * Pow2(len)) % WORD, code);
      bits := bits + len;
      out, bits := Drain(out, acc, bits);
    }
    assert input[..|input|] == input;
    ghost var k;
    out, k := PadOut(out, acc, bits);
    EncodingByBits(t, input, k, out);
  }
}
