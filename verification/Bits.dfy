/** Machine integers, bit strings and the shift-and-mask arithmetic the codecs use.
  *
  * Integers are mathematical; a width is a subset type, and a wrapping shift is written out
  * as a multiplication followed by a remainder. Bit strings are written most significant bit first.
  */
module Bits {
  import opened Sequences

  type u8 = x: int | 0 <= x < 0x100
  type u16 = x: int | 0 <= x < 0x1_0000
  type u32 = x: int | 0 <= x < 0x1_0000_0000
  type u64 = x: int | 0 <= x < 0x1_0000_0000_0000_0000

  type Bytes = seq<u8>
  type BitString = seq<bool>

  const WORD: int := 0x1_0000_0000_0000_0000

  function Pow2(n: nat): (r: int)
    ensures r > 0
  {
    if n == 0 then 1 else 2 * Pow2(n - 1)
  }

  lemma {:induction false} Pow2Add(m: nat, n: nat)
    ensures Pow2(m + n) == Pow2(m) * Pow2(n)
  {
    if m > 0 {
      Pow2Add(m - 1, n);
    }
  }

  lemma Pow2Values()
    ensures Pow2(4) == 16 && Pow2(5) == 32 && Pow2(6) == 64 && Pow2(7) == 128 && Pow2(8) == 256
    ensures Pow2(30) == 0x4000_0000 && Pow2(63) == 0x8000_0000_0000_0000 && Pow2(64) == WORD
  {
    assert Pow2(4) == 16;
    assert Pow2(8) == 256;
    Pow2Add(8, 8);
    Pow2Add(16, 14);
    assert Pow2(14) == 0x4000 by { Pow2Add(8, 6); }
    Pow2Add(16, 16);
    Pow2Add(32, 32);
    assert Pow2(64) == 2 * Pow2(63);
  }

  // ----- bitwise or -----

  /** The `|` operator of unsigned integers. */
  function BitOr(a: nat, b: nat): nat
    decreases a
  {
    if a == 0 then b
    else (if a % 2 == 1 || b % 2 == 1 then 1 else 0) + 2 * BitOr(a / 2, b / 2)
  }

  /** Where the operands share no bit position, `|` is addition. */
  lemma {:induction false} BitOrDisjoint(a: nat, b: nat, k: nat)
    requires a % Pow2(k) == 0
    requires b < Pow2(k)
    ensures BitOr(a, b) == a + b
  {
    if k > 0 && a > 0 {
      var q := a / Pow2(k);
      assert a == q * Pow2(k) == 2 * (q * Pow2(k - 1));
      assert a / 2 == q * Pow2(k - 1);
      MulMod(q, Pow2(k - 1));
      BitOrDisjoint(a / 2, b / 2, k - 1);
    } else if a > 0 {
      BitOrZero(a);
    }
  }

  lemma {:induction false} BitOrZero(a: nat)
    ensures BitOr(a, 0) == a
  {
    if a > 0 {
      BitOrZero(a / 2);
    }
  }

  lemma {:induction false} MulMod(q: int, d: int)
    requires d > 0
    ensures (q * d) % d == 0 && (q * d) / d == q
  {
    DivModUnique(q * d, d, q, 0);
  }

  lemma Double(a: int, b: int)
    ensures a * (2 * b) == 2 * (a * b)
  {
  }

  lemma DivMod(x: nat, d: nat)
    requires d > 0
    ensures x == (x / d) * d + x % d && 0 <= x % d < d && x / d >= 0
  {
  }

  lemma {:induction false} DivModUnique(x: int, d: int, q: int, r: int)
    requires d > 0 && 0 <= r < d
    requires x == q * d + r
    ensures x / d == q && x % d == r
  {
    var e := x / d - q;
    assert x == (x / d) * d + x % d;
    assert e * d == r - x % d;
    MultipleIsFar(e, d);
  }

  lemma MultipleIsFar(e: int, d: int)
    requires d > 0
    ensures e >= 1 ==> e * d >= d
    ensures e <= -1 ==> e * d <= -d
  {
    if e >= 1 {
      assert (e - 1) * d >= 0;
    } else if e <= -1 {
      assert (-1 - e) * d >= 0;
    }
  }

  // ----- bit strings -----

  /** The low `n` bits of `v`. */
  function BitsOf(v: nat, n: nat): (b: BitString)
    ensures |b| == n
    decreases n, v
  {
    if n == 0 then [] else BitsOf(v / 2, n - 1) + [v % 2 == 1]
  }

  function ValueOf(b: BitString): (v: nat)
    ensures v < Pow2(|b|)
  {
    if b == [] then 0
    else 2 * ValueOf(b[..|b| - 1]) + (if b[|b| - 1] then 1 else 0)
  }

  function Ones(n: nat): (b: BitString)
    ensures |b| == n
  {
    seq(n, _ => true)
  }

  /** The bit at position `j` from the left is `(v >> (n - 1 - j)) & 1`. */
  lemma {:induction false} BitAt(v: nat, n: nat, j: nat)
    requires j < n
    ensures v / Pow2(n - 1 - j) >= 0
    ensures BitsOf(v, n)[j] == ((v / Pow2(n - 1 - j)) % 2 == 1)
    decreases n
  {
    if j == n - 1 {
    } else {
      BitAt(v / 2, n - 1, j);
      HalfOfShift(v, Pow2(n - 2 - j));
    }
  }

  lemma {:induction false} HalfOfShift(v: nat, p: nat)
    requires p > 0
    ensures v / 2 / p == v / (2 * p)
  {
    var h := v / 2;
    var q, r := h / p, h % p;
    DivMod(h, p);
    Associates(2, p, q);
    assert v == q * (2 * p) + (2 * r + v % 2) by { Double(q, p); }
    DivModUnique(v, 2 * p, q, 2 * r + v % 2);
  }

  lemma {:induction false} ValueOfBits(v: nat, n: nat)
    requires v < Pow2(n)
    ensures ValueOf(BitsOf(v, n)) == v
  {
    if n > 0 {
      ValueOfBits(v / 2, n - 1);
      assert BitsOf(v, n)[..n - 1] == BitsOf(v / 2, n - 1);
    }
  }

  lemma {:induction false} BitsOfValue(b: BitString)
    ensures BitsOf(ValueOf(b), |b|) == b
  {
    if b != [] {
      BitsOfValue(b[..|b| - 1]);
      assert b == b[..|b| - 1] + [b[|b| - 1]];
    }
  }

  lemma {:induction false} ValueInjective(a: BitString, b: BitString)
    requires |a| == |b| && ValueOf(a) == ValueOf(b)
    ensures a == b
  {
    BitsOfValue(a);
    BitsOfValue(b);
  }

  lemma {:induction false} ValueOfConcat(a: BitString, b: BitString)
    ensures ValueOf(a + b) == ValueOf(a) * Pow2(|b|) + ValueOf(b)
  {
    if b == [] {
      assert a + b == a;
    } else {
      var init, last := b[..|b| - 1], if b[|b| - 1] then 1 else 0;
      assert (a + b)[..|a + b| - 1] == a + init;
      calc {
        ValueOf(a + b);
        2 * ValueOf(a + init) + last;
        { ValueOfConcat(a, init); }
        2 * (ValueOf(a) * Pow2(|init|)) + 2 * ValueOf(init) + last;
        { Double(ValueOf(a), Pow2(|init|)); }
        ValueOf(a) * (2 * Pow2(|init|)) + 2 * ValueOf(init) + last;
        ValueOf(a) * Pow2(|b|) + ValueOf(b);
      }
    }
  }

  lemma {:induction false} ValueOfOnes(n: nat)
    ensures ValueOf(Ones(n)) == Pow2(n) - 1
  {
    if n > 0 {
      assert Ones(n)[..n - 1] == Ones(n - 1);
      ValueOfOnes(n - 1);
    }
  }

  /** Shifting left by `n` and filling with the low bits of `w` appends those bits. */
  lemma {:induction false} BitsOfShifted(v: nat, w: nat, m: nat, n: nat)
    requires w < Pow2(n)
    ensures BitsOf(v * Pow2(n) + w, m + n) == BitsOf(v, m) + BitsOf(w, n)
  {
    if n == 0 {
      assert BitsOf(v, m) + BitsOf(w, 0) == BitsOf(v, m);
    } else {
      var x := v * Pow2(n) + w;
      assert x == 2 * (v * Pow2(n - 1)) + w;
      assert x / 2 == v * Pow2(n - 1) + w / 2 && x % 2 == w % 2;
      BitsOfShifted(v, w / 2, m, n - 1);
      assert m + n - 1 == m + (n - 1);
      assert BitsOf(v, m) + BitsOf(w, n) == (BitsOf(v, m) + BitsOf(w / 2, n - 1)) + [w % 2 == 1];
    }
  }

  lemma {:induction false} HalveMod(x: nat, m: nat)
    requires m > 0
    ensures (x % Pow2(m)) / 2 == (x / 2) % Pow2(m - 1) && (x % Pow2(m)) % 2 == x % 2
  {
    var q, r := x / Pow2(m), x % Pow2(m);
    DivMod(x, Pow2(m));
    Double(q, Pow2(m - 1));
    DivModUnique(x / 2, Pow2(m - 1), q, r / 2);
  }

  /** Discarding bits from position `m` up does not change the low `n <= m` bits. */
  lemma {:induction false} BitsOfMod(x: nat, n: nat, m: nat)
    requires n <= m
    ensures BitsOf(x % Pow2(m), n) == BitsOf(x, n)
    decreases n
  {
    if n > 0 {
      HalveMod(x, m);
      BitsOfMod(x / 2, n - 1, m - 1);
    }
  }

  // ----- octets and bits -----

  function Unpack(s: Bytes): (b: BitString)
    ensures |b| == 8 * |s|
  {
    if s == [] then [] else Unpack(s[..|s| - 1]) + BitsOf(s[|s| - 1], 8)
  }

  function Pack(b: BitString): (s: Bytes)
    requires |b| % 8 == 0
    ensures 8 * |s| == |b|
  {
    if b == [] then []
    else
      assert Pow2(8) == 256;
      Pack(b[..|b| - 8]) + [ValueOf(b[|b| - 8..])]
  }

  lemma {:induction false} UnpackAppended(s: Bytes, c: u8)
    ensures Unpack(s + [c]) == Unpack(s) + BitsOf(c, 8)
  {
    assert (s + [c])[..|s|] == s;
  }

  lemma {:induction false} LastOctetOff(b: BitString, octet: BitString)
    requires |octet| == 8
    ensures var whole := b + octet; whole[..|whole| - 8] == b && whole[|whole| - 8..] == octet
  {
  }

  lemma {:induction false} OctetBitsBack(octet: BitString)
    requires |octet| == 8
    ensures ValueOf(octet) < 0x100 && BitsOf(ValueOf(octet), 8) == octet
  {
    assert Pow2(8) == 256;
    BitsOfValue(octet);
  }

  lemma {:induction false} UnpackOneMore(s: Bytes, c: u8, init: BitString, last: BitString)
    requires Unpack(s) == init && BitsOf(c, 8) == last
    ensures Unpack(s + [c]) == init + last
  {
    UnpackAppended(s, c);
  }

  lemma {:induction false} UnpackPack(b: BitString)
    requires |b| % 8 == 0
    ensures Unpack(Pack(b)) == b
  {
    if b != [] {
      var init, last := b[..|b| - 8], b[|b| - 8..];
      UnpackPack(init);
      OctetBitsBack(last);
      UnpackOneMore(Pack(init), ValueOf(last), init, last);
      assert b == init + last;
    }
  }

  lemma {:induction false} UnpackConcat(a: Bytes, b: Bytes)
    ensures Unpack(a + b) == Unpack(a) + Unpack(b)
  {
    if b == [] {
      assert a + b == a;
    } else {
      LastOff(a, b);
      UnpackConcat(a, b[..|b| - 1]);
      Associate(Unpack(a), Unpack(b[..|b| - 1]), BitsOf(b[|b| - 1], 8));
    }
  }

  lemma {:induction false} OctetBack(c: u8, octet: BitString)
    requires octet == BitsOf(c, 8)
    ensures ValueOf(octet) == c
  {
    assert Pow2(8) == 256;
    ValueOfBits(c, 8);
  }

  /** `s` is what packing `b` gives. */
  predicate Packs(b: BitString, s: Bytes) {
    |b| % 8 == 0 && Pack(b) == s
  }

  lemma {:induction false} PacksOneMore(b: BitString, octet: BitString, s: Bytes, c: u8)
    requires Packs(b, s) && |octet| == 8 && ValueOf(octet) == c
    ensures Packs(b + octet, s + [c])
  {
    LastOctetOff(b, octet);
  }

  lemma {:induction false} UnpackedPacks(s: Bytes)
    ensures Packs(Unpack(s), s)
  {
    if s != [] {
      var init, last := s[..|s| - 1], s[|s| - 1];
      UnpackedPacks(init);
      OctetBack(last, BitsOf(last, 8));
      PacksOneMore(Unpack(init), BitsOf(last, 8), init, last);
      assert s == init + [last];
    }
  }

  lemma {:induction false} PackUnpack(s: Bytes)
    ensures Pack(Unpack(s)) == s
  {
    UnpackedPacks(s);
  }

  // ----- accumulators -----

  lemma {:induction false} MulModScaled(x: nat, q: nat, p: nat)
    requires q > 0 && p > 0
    ensures q * p > 0 && (x * p) % (q * p) == (x % q) * p
  {
    DivMod(x, q);
    var d, r := x / q, x % q;
    calc {
      x * p;
      (d * q + r) * p;
      { Distributes(d * q, r, p); }
      (d * q) * p + r * p;
      { Associates(d, q, p); }
      d * (q * p) + r * p;
    }
    Distributes(q - r, r, p);
    Positive(q, p);
    Positive(q - r, p);
    DivModUnique(x * p, q * p, d, r * p);
  }

  lemma Distributes(a: int, b: int, p: int)
    ensures (a + b) * p == a * p + b * p
  {
  }

  lemma Associates(a: int, b: int, c: int)
    ensures (a * b) * c == a * (b * c)
  {
  }

  lemma Positive(a: int, b: int)
    requires a > 0 && b > 0
    ensures a * b > 0
  {
  }

  lemma {:induction false} ShiftedFits(acc: nat, width: nat, w: nat, n: nat)
    requires n <= width && w < Pow2(n)
    ensures var high := acc % Pow2(width - n);
      && (acc * Pow2(n)) % Pow2(width) == high * Pow2(n)
      && BitOr(high * Pow2(n), w) == high * Pow2(n) + w < Pow2(width)
  {
    var q, p := Pow2(width - n), Pow2(n);
    Pow2Add(width - n, n);
    MulModScaled(acc, q, p);
    MulMod(acc % q, p);
    BitOrDisjoint((acc % q) * p, w, n);
    Distributes(acc % q, 1, p);
    Distributes(acc % q + 1, q - acc % q - 1, p);
    NonNegative(q - acc % q - 1, p);
  }

  /** `(acc << n) | w` on a word of `width` bits whose high bits are never cleared: the low `m` bits of `acc` followed
    * by the `n` bits of `w`, as long as the two fit together. */
  lemma {:induction false} ShiftIn(acc: nat, width: nat, m: nat, w: nat, n: nat)
    requires m + n <= width && w < Pow2(n)
    ensures BitOr((acc * Pow2(n)) % Pow2(width), w) < Pow2(width)
    ensures BitsOf(BitOr((acc * Pow2(n)) % Pow2(width), w), m + n) == BitsOf(acc, m) + BitsOf(w, n)
  {
    var high := acc % Pow2(width - n);
    ShiftedFits(acc, width, w, n);
    BitsOfMod(acc, m, width - n);
    BitsOfShifted(high, w, m, n);
    SameBits(BitOr((acc * Pow2(n)) % Pow2(width), w), high * Pow2(n) + w, m + n);
  }

  lemma {:induction false} SameBits(v: nat, w: nat, n: nat)
    requires v == w
    ensures BitsOf(v, n) == BitsOf(w, n)
  {
  }

  /** The same on a 64-bit word. */
  lemma {:induction false} ShiftInWord(acc: u64, m: nat, w: nat, n: nat)
    requires m + n <= 64 && w < Pow2(n)
    ensures BitOr((acc * Pow2(n)) % WORD, w) < WORD
    ensures BitsOf(BitOr((acc * Pow2(n)) % WORD, w), m + n) == BitsOf(acc, m) + BitsOf(w, n)
  {
    Pow2Values();
    ShiftIn(acc, 64, m, w, n);
  }

  lemma NonNegative(a: int, b: int)
    requires a >= 0 && b >= 0
    ensures a * b >= 0
  {
  }

  /** `(acc >> m) & 0xff` is the octet above the low `m` bits. */
  lemma OctetAbove(acc: nat, m: nat)
    ensures BitsOf(acc, m + 8) == BitsOf((acc / Pow2(m)) % 256, 8) + BitsOf(acc, m)
  {
    assert Pow2(8) == 256;
    FieldAbove(acc, 8, m);
  }

  lemma FieldAbove(acc: nat, n: nat, m: nat)
    ensures acc / Pow2(m) >= 0
    ensures BitsOf(acc, n + m) == BitsOf((acc / Pow2(m)) % Pow2(n), n) + BitsOf(acc, m)
  {
    DivMod(acc, Pow2(m));
    var h, l := acc / Pow2(m), acc % Pow2(m);
    BitsOfShifted(h, l, n, m);
    assert BitsOf(l, m) == BitsOf(acc, m) by { BitsOfMod(acc, m, m); }
    assert BitsOf(h % Pow2(n), n) == BitsOf(h, n) by { BitsOfMod(h, n, n); }
  }
}
