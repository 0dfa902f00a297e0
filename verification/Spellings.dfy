/** The Huffman code of given strings, worked out letter by letter.
  *
  * A `Trace` writes down what an encoder with a small accumulator does with a few letters: the row of the table for
  * each, the octet put out if there is one, and what is left in the accumulator. The solver checks a given trace by
  * running predicates on it; what a checked trace means is proved here, and how one goes on behind another.
  */
module Spellings {
  import opened Locks
  import opened Sequences
  import opened Bits
  import opened HuffmanCode
  import opened HuffmanTable
  import HuffmanEncoder

  datatype Trace =
    | Done
    | In(c: u8, code: nat, len: nat, acc: nat, bits: nat, rest: Trace)
    | Through(c: u8, code: nat, len: nat, octet: u8, acc: nat, bits: nat, rest: Trace)

  /** `x` shifted left by `n`, which the solver finds easier to work out case by case. */
  function Times(x: nat, n: nat): nat {
    if n == 0 then x
    else if n == 1 then 2 * x
    else if n == 2 then 4 * x
    else if n == 3 then 8 * x
    else if n == 4 then 16 * x
    else if n == 5 then 32 * x
    else if n == 6 then 64 * x
    else if n == 7 then 128 * x
    else 256 * x
  }

  lemma {:induction false} TimesIs(x: nat, n: nat)
    requires n <= 8
    ensures Times(x, n) == x * Pow2(n)
  {
    Pow2Values();
    assert Pow2(3) == 8;
  }

  /** The trace is right at every step: it takes in the letters of `s` from `i` on with their rows of the table, puts
    * out the octets of `o` from `j` on, and leaves `lastBits` bits of `lastAcc`. */
  predicate Checks(w: Trace, acc: nat, bits: nat, s: Bytes, i: nat, o: Bytes, j: nat, lastAcc: nat, lastBits: nat)
    decreases w
  {
    match w
    case Done => acc == lastAcc && bits == lastBits && i == |s| && j == |o|
    case In(c, code, len, a, b, rest) =>
      && i < |s| && s[i] == c && RowOf(c) == (code, len) && len <= 8
      && a == Times(acc, len) + code && b == bits + len
      && Checks(rest, a, b, s, i + 1, o, j, lastAcc, lastBits)
    case Through(c, code, len, octet, a, b, rest) =>
      && i < |s| && s[i] == c && RowOf(c) == (code, len) && len <= 8
      && j < |o| && o[j] == octet && b <= 8
      && Times(octet, b) + a == Times(acc, len) + code && a < Times(1, b) && b + 8 == bits + len
      && Checks(rest, a, b, s, i + 1, o, j + 1, lastAcc, lastBits)
  }

  // ----- what a trace means -----

  /** `bits` bits of `acc` and the code words of `s` are the bits of `o` and then `lastBits` bits of `lastAcc`. */
  ghost predicate Goes(t: seq<Row>, acc: nat, bits: nat, s: Bytes, o: Bytes, lastAcc: nat, lastBits: nat)
    requires InRange(t)
  {
    forall k: int {:trigger Key(k)} :: Key(k) && k == PARTS ==>
      BitsOf(acc, bits) + Encoded(t, s) == Unpack(o) + BitsOf(lastAcc, lastBits)
  }

  lemma {:induction false} GoesNowhere(t: seq<Row>, acc: nat, bits: nat)
    requires InRange(t)
    ensures Goes(t, acc, bits, [], [], acc, bits)
  {
    assert BitsOf(acc, bits) + [] == [] + BitsOf(acc, bits);
  }

  lemma {:induction false} GoesIn(t: seq<Row>, acc: nat, bits: nat, c: u8, s: Bytes, o: Bytes, lastAcc: nat,
                                  lastBits: nat)
    requires InRange(t) && Goes(t, acc * Pow2(t[c].1) + t[c].0, bits + t[c].1, s, o, lastAcc, lastBits)
    ensures Goes(t, acc, bits, [c] + s, o, lastAcc, lastBits)
  {
    assert Key(PARTS);
    BitsOfShifted(acc, t[c].0, bits, t[c].1);
    EncodedHead(t, [c] + s);
    Associate(BitsOf(acc, bits), Word(t, c), Encoded(t, s));
  }

  lemma {:induction false} GoesOut(t: seq<Row>, octet: u8, acc: nat, bits: nat, s: Bytes, o: Bytes, lastAcc: nat,
                                   lastBits: nat)
    requires InRange(t) && acc < Pow2(bits) && Goes(t, acc, bits, s, o, lastAcc, lastBits)
    ensures octet * Pow2(bits) + acc >= 0
    ensures Goes(t, octet * Pow2(bits) + acc, 8 + bits, s, [octet] + o, lastAcc, lastBits)
  {
    assert Key(PARTS);
    NonNegative(octet, Pow2(bits));
    BitsOfShifted(octet, acc, 8, bits);
    UnpackConcat([octet], o);
    UnpackAppended([], octet);
    assert [] + [octet] == [octet] && Unpack([]) + BitsOf(octet, 8) == BitsOf(octet, 8);
    Associate(BitsOf(octet, 8), BitsOf(acc, bits), Encoded(t, s));
    Associate(BitsOf(octet, 8), Unpack(o), BitsOf(lastAcc, lastBits));
  }

  /** `Checks`, closed. */
  ghost predicate Checked(w: Trace, acc: nat, bits: nat, s: Bytes, i: nat, o: Bytes, j: nat, lastAcc: nat,
                          lastBits: nat) {
    forall k: int {:trigger Key(k)} :: Key(k) && k == LAYOUT ==> Checks(w, acc, bits, s, i, o, j, lastAcc, lastBits)
  }

  lemma {:induction false} RowIs(t: seq<Row>, c: u8, row: Row)
    requires InRange(t) && t == HUFFMAN && RowOf(c) == row
    ensures t[c] == row
  {
  }

  /** What a check says of the first letter. */
  lemma {:induction false} FirstChecked(t: seq<Row>, w: Trace, acc: nat, bits: nat, s: Bytes, i: nat, o: Bytes, j: nat,
                                        lastAcc: nat, lastBits: nat)
    requires InRange(t) && t == HUFFMAN && !w.Done? && Checked(w, acc, bits, s, i, o, j, lastAcc, lastBits)
    ensures i < |s| && s[i] == w.c && Steps(t, w, acc, bits)
    ensures w.In? ==> Checked(w.rest, w.acc, w.bits, s, i + 1, o, j, lastAcc, lastBits)
    ensures w.Through? ==>
      j < |o| && o[j] == w.octet && Checked(w.rest, w.acc, w.bits, s, i + 1, o, j + 1, lastAcc, lastBits)
  {
    assert Key(LAYOUT);
    RowIs(t, w.c, (w.code, w.len));
    TimesIs(acc, w.len);
    if w.Through? {
      TimesIs(w.octet, w.bits);
      TimesIs(1, w.bits);
    }
  }

  /** The first step is right: in it the accumulator takes in a code word, and may put out an octet. */
  ghost predicate Steps(t: seq<Row>, w: Trace, acc: nat, bits: nat)
    requires InRange(t) && !w.Done?
  {
    forall k: int {:trigger Key(k)} :: Key(k) && k == MESSAGE ==>
      && t[w.c] == (w.code, w.len)
      && (w.In? ==> w.acc == acc * Pow2(w.len) + w.code && w.bits == bits + w.len)
      && (w.Through? ==>
            && w.octet * Pow2(w.bits) + w.acc == acc * Pow2(w.len) + w.code
            && w.acc < Pow2(w.bits) && w.bits + 8 == bits + w.len)
  }

  lemma {:induction false} StepGoes(t: seq<Row>, w: Trace, acc: nat, bits: nat, s: Bytes, o: Bytes, lastAcc: nat,
                                    lastBits: nat)
    requires InRange(t) && !w.Done? && Steps(t, w, acc, bits) && Goes(t, w.acc, w.bits, s, o, lastAcc, lastBits)
    ensures Goes(t, acc, bits, [w.c] + s, if w.In? then o else [w.octet] + o, lastAcc, lastBits)
  {
    assert Key(MESSAGE);
    if w.In? {
      GoesIn(t, acc, bits, w.c, s, o, lastAcc, lastBits);
    } else {
      GoesOut(t, w.octet, w.acc, w.bits, s, o, lastAcc, lastBits);
      GoesIn(t, acc, bits, w.c, s, [w.octet] + o, lastAcc, lastBits);
    }
  }

  lemma {:induction false} NothingChecked(acc: nat, bits: nat, s: Bytes, i: nat, o: Bytes, j: nat, lastAcc: nat,
                                          lastBits: nat)
    requires Checked(Done, acc, bits, s, i, o, j, lastAcc, lastBits)
    ensures acc == lastAcc && bits == lastBits && i == |s| && j == |o|
  {
    assert Key(LAYOUT);
  }

  lemma {:induction false} FirstOff(s: Bytes, i: nat)
    requires i < |s|
    ensures s[i..] == [s[i]] + s[i + 1..]
  {
  }

  lemma {:induction false} TraceGoes(t: seq<Row>, w: Trace, acc: nat, bits: nat, s: Bytes, i: nat, o: Bytes, j: nat,
                                     lastAcc: nat, lastBits: nat)
    requires InRange(t) && t == HUFFMAN && Checked(w, acc, bits, s, i, o, j, lastAcc, lastBits)
    requires i <= |s| && j <= |o|
    ensures Goes(t, acc, bits, s[i..], o[j..], lastAcc, lastBits)
    decreases w
  {
    if w.Done? {
      NothingChecked(acc, bits, s, i, o, j, lastAcc, lastBits);
      assert s[i..] == [] && o[j..] == [];
      GoesNowhere(t, acc, bits);
    } else {
      FirstChecked(t, w, acc, bits, s, i, o, j, lastAcc, lastBits);
      FirstOff(s, i);
      if w.In? {
        TraceGoes(t, w.rest, w.acc, w.bits, s, i + 1, o, j, lastAcc, lastBits);
        StepGoes(t, w, acc, bits, s[i + 1..], o[j..], lastAcc, lastBits);
      } else {
        TraceGoes(t, w.rest, w.acc, w.bits, s, i + 1, o, j + 1, lastAcc, lastBits);
        StepGoes(t, w, acc, bits, s[i + 1..], o[j + 1..], lastAcc, lastBits);
        FirstOff(o, j);
      }
    }
  }

  /** A checked trace takes the letters `s`, puts out `o` and leaves `lastBits` bits of `lastAcc`. */
  lemma {:induction false} Traced(t: seq<Row>, w: Trace, acc: nat, bits: nat, s: Bytes, o: Bytes, lastAcc: nat,
                                  lastBits: nat)
    requires InRange(t) && t == HUFFMAN && Checked(w, acc, bits, s, 0, o, 0, lastAcc, lastBits)
    ensures Goes(t, acc, bits, s, o, lastAcc, lastBits)
  {
    assert s[0..] == s && o[0..] == o;
    TraceGoes(t, w, acc, bits, s, 0, o, 0, lastAcc, lastBits);
  }

  /** One trace behind another. */
  lemma {:induction false} GoesOn(t: seq<Row>, acc: nat, bits: nat, s: Bytes, o: Bytes, a: nat, b: nat,
                                  more: Bytes, out: Bytes, lastAcc: nat, lastBits: nat)
    requires InRange(t) && Goes(t, acc, bits, s, o, a, b) && Goes(t, a, b, more, out, lastAcc, lastBits)
    ensures Goes(t, acc, bits, s + more, o + out, lastAcc, lastBits)
  {
    assert Key(PARTS);
    EncodedConcat(t, s, more);
    UnpackConcat(o, out);
    calc {
      BitsOf(acc, bits) + Encoded(t, s + more);
      { Associate(BitsOf(acc, bits), Encoded(t, s), Encoded(t, more)); }
      (Unpack(o) + BitsOf(a, b)) + Encoded(t, more);
      { Associate(Unpack(o), BitsOf(a, b), Encoded(t, more)); }
      Unpack(o) + (Unpack(out) + BitsOf(lastAcc, lastBits));
      { Associate(Unpack(o), Unpack(out), BitsOf(lastAcc, lastBits)); }
      Unpack(o + out) + BitsOf(lastAcc, lastBits);
    }
  }

  lemma {:induction false} FilledUp(acc: nat, bits: nat, last: u8)
    requires 0 < bits <= 8 && last == Times(acc, 8 - bits) + Times(1, 8 - bits) - 1
    ensures BitsOf(last, 8) == BitsOf(acc, bits) + Ones(8 - bits)
  {
    var k := 8 - bits;
    TimesIs(acc, k);
    TimesIs(1, k);
    BitsOfShifted(acc, Pow2(k) - 1, bits, k);
    HuffmanEncoder.AllOnes(k);
  }

  /** The code of `s` is the octets put out and one more, in which what is left is filled up with ones. */
  lemma {:induction false} CodeIs(t: seq<Row>, s: Bytes, o: Bytes, acc: nat, bits: nat, last: u8)
    requires InRange(t) && Goes(t, 0, 0, s, o, acc, bits) && 0 < bits <= 8
    requires last == Times(acc, 8 - bits) + Times(1, 8 - bits) - 1
    ensures HuffmanEncode(t, s) == o + [last]
  {
    var k := 8 - bits;
    assert Key(PARTS);
    FilledUp(acc, bits, last);
    UnpackAppended(o, last);
    Associate(Unpack(o), BitsOf(acc, bits), Ones(k));
    assert BitsOf(0, 0) + Encoded(t, s) == Encoded(t, s);
    EncodingByBits(t, s, k, o + [last]);
  }

  /** And when nothing is left it is the octets put out. */
  lemma {:induction false} CodeIsWhole(t: seq<Row>, s: Bytes, o: Bytes)
    requires InRange(t) && Goes(t, 0, 0, s, o, 0, 0)
    ensures HuffmanEncode(t, s) == o
  {
    assert Key(PARTS);
    assert BitsOf(0, 0) + Encoded(t, s) == Encoded(t, s);
    assert Unpack(o) + BitsOf(0, 0) == Encoded(t, s) + Ones(0);
    EncodingByBits(t, s, 0, o);
  }
}
