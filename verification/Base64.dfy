/** The base64 of section 4 of RFC 4648: the publisher's encoder and the viewer's decoder, which are written apart. */
module Base64 {
  import opened Sequences
  import opened Bits
  import opened Results
  import opened Texts

  const PAD: u8 := 0x3d
  const SEXTET: nat := 6
  const WORD32: int := 0x1_0000_0000

  type Sextet = v: nat | v < 64

  /** `A` to `Z`, `a` to `z`, `0` to `9`, `+` and `/`. */
  function Letter(v: Sextet): u8 {
    if v < 26 then 0x41 + v
    else if v < 52 then 0x61 + (v - 26)
    else if v < 62 then 0x30 + (v - 52)
    else if v == 62 then 0x2b else 0x2f
  }

  /** Where a character stands in the alphabet. */
  function Position(c: u8): (r: Option<Sextet>)
    ensures r.Some? ==> Letter(r.value) == c
    ensures r.None? ==> forall v: Sextet :: Letter(v) != c
  {
    if 0x41 <= c <= 0x5a then Some(c - 0x41)
    else if 0x61 <= c <= 0x7a then Some(c - 0x61 + 26)
    else if 0x30 <= c <= 0x39 then Some(c - 0x30 + 52)
    else if c == 0x2b then Some(62)
    else if c == 0x2f then Some(63)
    else None
  }

  /** The alphabet, letter by letter. */
  lemma {:induction false} AlphabetIs(v: nat)
    requires v < 16
    ensures Letter(v) == "ABCDEFGHIJKLMNOP"[v] as int && Letter(16 + v) == "QRSTUVWXYZabcdef"[v] as int
    ensures Letter(32 + v) == "ghijklmnopqrstuv"[v] as int && Letter(48 + v) == "wxyz0123456789+/"[v] as int
  {
  }

  lemma LettersDiffer(v: Sextet, w: Sextet)
    requires Letter(v) == Letter(w)
    ensures v == w
  {
  }

  lemma PositionOfLetter(v: Sextet)
    ensures Position(Letter(v)) == Some(v) && Letter(v) != PAD
  {
    var r := Position(Letter(v));
    if r.Some? {
      LettersDiffer(r.value, v);
    }
  }

  // ----- encoding -----

  /** The four characters of three octets; with fewer, the missing characters are padding. */
  function Quad(b0: u8, b1: u8, b2: u8, count: nat): (r: Bytes)
    ensures |r| == 4
  {
    [Letter(b0 / 4),
     Letter(b0 % 4 * 16 + b1 / 16),
     if count > 1 then Letter(b1 % 16 * 4 + b2 / 64) else PAD,
     if count > 2 then Letter(b2 % 64) else PAD]
  }

  function QuadOf(chunk: Bytes): Bytes
    requires 1 <= |chunk| <= 3
  {
    Quad(chunk[0], if |chunk| > 1 then chunk[1] else 0, if |chunk| > 2 then chunk[2] else 0, |chunk|)
  }

  function Encoding(s: Bytes): Bytes {
    if s == [] then [] else if |s| <= 3 then QuadOf(s) else QuadOf(s[..3]) + Encoding(s[3..])
  }

  /** Three octets from the front of more. */
  lemma {:induction false} ThreeOff(a: Bytes, b: Bytes)
    requires |a| == 3 && b != []
    ensures Encoding(a + b) == QuadOf(a) + Encoding(b)
  {
    assert (a + b)[..3] == a && (a + b)[3..] == b;
  }

  lemma {:induction false} FirstQuads()
    ensures QuadOf(Ascii("f")) == Ascii("Zg==") && QuadOf(Ascii("fo")) == Ascii("Zm8=")
    ensures QuadOf(Ascii("foo")) == Ascii("Zm9v")
  {
  }

  lemma {:induction false} SecondQuads()
    ensures QuadOf(Ascii("b")) == Ascii("Yg==") && QuadOf(Ascii("ba")) == Ascii("YmE=")
    ensures QuadOf(Ascii("bar")) == Ascii("YmFy")
  {
  }

  lemma {:induction false} OneQuad(s: Bytes, more: Bytes)
    requires 1 <= |s| <= 3
    ensures Encoding(s) == QuadOf(s)
    ensures |s| == 3 && 1 <= |more| <= 3 ==> Encoding(s + more) == QuadOf(s) + QuadOf(more)
  {
    if |s| == 3 && 1 <= |more| <= 3 {
      ThreeOff(s, more);
    }
  }

  /** The examples of section 10 of RFC 4648. */
  lemma {:induction false} RfcVectors()
    ensures Encoding(Ascii("f")) == Ascii("Zg==") && Encoding(Ascii("fo")) == Ascii("Zm8=")
    ensures Encoding(Ascii("foo")) == Ascii("Zm9v")
    ensures Encoding(Ascii("foo") + Ascii("b")) == Ascii("Zm9v") + Ascii("Yg==")
    ensures Encoding(Ascii("foo") + Ascii("ba")) == Ascii("Zm9v") + Ascii("YmE=")
    ensures Encoding(Ascii("foo") + Ascii("bar")) == Ascii("Zm9v") + Ascii("YmFy")
  {
    FirstQuads();
    SecondQuads();
    OneQuad(Ascii("f"), []);
    OneQuad(Ascii("fo"), []);
    OneQuad(Ascii("foo"), Ascii("b"));
    OneQuad(Ascii("foo"), Ascii("ba"));
    OneQuad(Ascii("foo"), Ascii("bar"));
  }

  /** `(b0 << 16) | (b1 << 8) | b2`. */
  function Joined(b0: u8, b1: u8, b2: u8): nat {
    BitOr(BitOr((b0 as int) * 0x1_0000, (b1 as int) * 0x100), b2)
  }

  lemma {:induction false} OrShifted(a: nat, b: nat, k: nat, p: nat)
    requires p == Pow2(k) && b < p
    ensures a * p >= 0 && BitOr(a * p, b) == a * p + b
  {
    NonNegative(a, p);
    MulMod(a, p);
    BitOrDisjoint(a * p, b, k);
  }

  lemma OctetPowers()
    ensures Pow2(8) == 0x100 && Pow2(16) == 0x1_0000
  {
    assert Pow2(8) == 0x100;
    Pow2Add(8, 8);
  }

  lemma {:induction false} OrOctet(w: nat, z: u8)
    ensures BitOr(w * 0x100, z) == w * 0x100 + z
  {
    OctetPowers();
    OrShifted(w, z, 8, 0x100);
  }

  lemma {:induction false} OrMiddle(x: nat, y: nat)
    requires y < 0x100
    ensures BitOr(x * 0x1_0000, y * 0x100) == (x * 0x100 + y) * 0x100
  {
    OctetPowers();
    OrShifted(x, y * 0x100, 16, 0x1_0000);
  }

  lemma JoinedIsSum(b0: u8, b1: u8, b2: u8)
    ensures Joined(b0, b1, b2) == (b0 as int) * 0x1_0000 + (b1 as int) * 0x100 + b2
  {
    OrMiddle(b0, b1);
    OrOctet((b0 as int) * 0x100 + b1, b2);
  }

  lemma {:induction false} UpperSextets(n: nat, x: nat, y: nat, z: nat)
    requires n == x * 0x1_0000 + y * 0x100 + z && x < 0x100 && y < 0x100 && z < 0x100
    ensures n / 0x4_0000 == x / 4 && n / 0x1000 == x * 16 + y / 16
  {
    DivModUnique(n, 0x4_0000, x / 4, x % 4 * 0x1_0000 + y * 0x100 + z);
    DivModUnique(n, 0x1000, x * 16 + y / 16, y % 16 * 0x100 + z);
  }

  lemma {:induction false} LowerSextets(n: nat, x: nat, y: nat, z: nat)
    requires n == x * 0x1_0000 + y * 0x100 + z && x < 0x100 && y < 0x100 && z < 0x100
    ensures n / 0x40 == (x * 0x10 + y / 16) * 0x40 + y % 16 * 4 + z / 64 && n % 0x40 == z % 64
  {
    DivModUnique(n, 0x40, x * 0x400 + y * 4 + z / 64, z % 64);
  }

  lemma {:induction false} SextetParts(x: nat, y: nat, z: nat)
    requires x < 0x100 && y < 0x100 && z < 0x100
    ensures (x * 16 + y / 16) % 0x40 == x % 4 * 16 + y / 16
    ensures ((x * 0x10 + y / 16) * 0x40 + y % 16 * 4 + z / 64) % 0x40 == y % 16 * 4 + z / 64
  {
    DivModUnique(x * 16 + y / 16, 0x40, x / 4, x % 4 * 16 + y / 16);
    DivModUnique((x * 0x10 + y / 16) * 0x40 + y % 16 * 4 + z / 64, 0x40, x * 0x10 + y / 16, y % 16 * 4 + z / 64);
  }

  lemma {:induction false} SextetsOfSum(n: nat, x: nat, y: nat, z: nat)
    requires n == x * 0x1_0000 + y * 0x100 + z && x < 0x100 && y < 0x100 && z < 0x100
    ensures n / 0x4_0000 % 0x40 == x / 4 && n / 0x1000 % 0x40 == x % 4 * 16 + y / 16
    ensures n / 0x40 % 0x40 == y % 16 * 4 + z / 64 && n % 0x40 == z % 64
  {
    UpperSextets(n, x, y, z);
    LowerSextets(n, x, y, z);
    SextetParts(x, y, z);
  }

  /** `(n >> 18) & 0x3f` and so on, for the 24-bit number of three octets. */
  lemma {:induction false} SextetsOf(b0: u8, b1: u8, b2: u8)
    ensures var n := Joined(b0, b1, b2);
      && n / 0x4_0000 % 0x40 == b0 / 4
      && n / 0x1000 % 0x40 == b0 % 4 * 16 + b1 / 16
      && n / 0x40 % 0x40 == b1 % 16 * 4 + b2 / 64
      && n % 0x40 == b2 % 64
  {
    JoinedIsSum(b0, b1, b2);
    SextetsOfSum(Joined(b0, b1, b2), b0, b1, b2);
  }

  lemma {:induction false} EncodingTurn(out: Bytes, rest: Bytes)
    requires rest != []
    ensures var chunk := rest[..if |rest| < 3 then |rest| else 3];
      out + Encoding(rest) == out + QuadOf(chunk) + Encoding(rest[|chunk|..])
  {
    if |rest| <= 3 {
      assert rest[..|rest|] == rest && rest[|rest|..] == [];
    }
  }

  method Encode(input: Bytes) returns (out: Bytes)
    ensures out == Encoding(input)
  {
    out := [];
    var rest: Bytes := input;
    while rest != []
      invariant out + Encoding(rest) == Encoding(input)
      decreases |rest|
    {
      EncodingTurn(out, rest);
      var chunk: Bytes := rest[..if |rest| < 3 then |rest| else 3];
      var quad := EncodeChunk(chunk);
      out := out + quad;
      rest := rest[|chunk|..];
    }
    assert out + [] == out;
  }

  method EncodeChunk(chunk: Bytes) returns (quad: Bytes)
    requires 1 <= |chunk| <= 3
    ensures quad == QuadOf(chunk)
  {
    var b0: u8, b1: u8, b2: u8 :=
      chunk[0], if |chunk| > 1 then chunk[1] else 0, if |chunk| > 2 then chunk[2] else 0;
    var n := Joined(b0, b1, b2);
    SextetsOf(b0, b1, b2);
    quad := [Letter(n / 0x4_0000 % 0x40), Letter(n / 0x1000 % 0x40),
             if |chunk| > 1 then Letter(n / 0x40 % 0x40) else PAD,
             if |chunk| > 2 then Letter(n % 0x40) else PAD];
  }

  // ----- decoding -----

  /** The bits of one character; one that is not a letter has none. */
  function CharBits(c: u8): BitString {
    if Position(c).Some? then BitsOf(Position(c).value, SEXTET) else []
  }

  function LetterBits(text: Bytes): BitString {
    if text == [] then [] else LetterBits(text[..|text| - 1]) + CharBits(text[|text| - 1])
  }

  /** Whole octets only. */
  function Decoding(text: Bytes): Bytes {
    var bits := LetterBits(text);
    Pack(bits[..|bits| / 8 * 8])
  }

  lemma LetterBitsTurn(text: Bytes, i: nat)
    requires i < |text|
    ensures LetterBits(text[..i + 1]) == LetterBits(text[..i]) + CharBits(text[i])
  {
    assert text[..i + 1][..i] == text[..i];
  }

  lemma SextetIn(out: Bytes, acc: u32, bits: nat, v: Sextet)
    requires bits < 8
    ensures var next := BitOr((acc * Pow2(6)) % WORD32, v);
      next < WORD32 && Unpack(out) + BitsOf(next, bits + 6) == Unpack(out) + BitsOf(acc, bits) + BitsOf(v, SEXTET)
  {
    Pow2Values();
    assert Pow2(32) == WORD32 by { Pow2Add(16, 16); Pow2Add(8, 8); }
    ShiftIn(acc, 32, bits, v, 6);
  }

  lemma {:induction false} OctetOut(out: Bytes, acc: u32, bits: nat)
    ensures acc / Pow2(bits) >= 0
    ensures Unpack(out + [acc / Pow2(bits) % 0x100]) + BitsOf(acc, bits) == Unpack(out) + BitsOf(acc, bits + 8)
  {
    DivMod(acc, Pow2(bits));
    var octet := acc / Pow2(bits) % 0x100;
    OctetAbove(acc, bits);
    assert (out + [octet])[..|out|] == out;
    assert (Unpack(out) + BitsOf(octet, 8)) + BitsOf(acc, bits) == Unpack(out) + (BitsOf(octet, 8) + BitsOf(acc, bits));
  }

  lemma {:induction false} WholeOctets(out: Bytes, rest: BitString, bits: BitString)
    requires Unpack(out) + rest == bits && |rest| < 8
    ensures out == Pack(bits[..|bits| / 8 * 8])
  {
    assert |bits| / 8 * 8 == 8 * |out|;
    assert bits[..8 * |out|] == Unpack(out);
    PackUnpack(out);
  }

  /** The accumulator is shifted left for ever and never masked; only its low `bits` bits are pending. */
  method TakeSextet(out: Bytes, acc: u32, bits: nat, v: Sextet) returns (out': Bytes, acc': u32, bits': nat)
    requires bits < 8
    ensures bits' < 8
    ensures Unpack(out') + BitsOf(acc', bits') == Unpack(out) + BitsOf(acc, bits) + BitsOf(v, SEXTET)
  {
    SextetIn(out, acc, bits, v);
    out', acc', bits' := out, BitOr((acc * Pow2(6)) % WORD32, v), bits + 6;
    if bits' >= 8 {
      bits' := bits' - 8;
      OctetOut(out, acc', bits');
      out' := out + [acc' / Pow2(bits') % 0x100];
    }
  }

  method Decode(text: Bytes) returns (out: Bytes)
    ensures out == Decoding(text)
  {
    out := [];
    var acc: u32 := 0;
    var bits: nat := 0;
    for i := 0 to |text|
      invariant bits < 8
      invariant Unpack(out) + BitsOf(acc, bits) == LetterBits(text[..i])
    {
      LetterBitsTurn(text, i);
      // Padding is passed over like any other character that is not a letter.
      var v := Position(text[i]);
      if v.None? {
        assert LetterBits(text[..i]) + [] == LetterBits(text[..i]);
        continue;
      }
      out, acc, bits := TakeSextet(out, acc, bits, v.value);
    }
    assert text[..|text|] == text;
    WholeOctets(out, BitsOf(acc, bits), LetterBits(text));
  }

  // ----- round trip -----

  lemma {:induction false} LetterBitsAppended(text: Bytes, c: u8, bits: BitString, more: BitString)
    requires LetterBits(text) == bits && CharBits(c) == more
    ensures LetterBits(text + [c]) == bits + more
  {
    assert (text + [c])[..|text|] == text;
  }

  lemma {:induction false} LetterBitsOfConcat(a: Bytes, b: Bytes)
    ensures LetterBits(a + b) == LetterBits(a) + LetterBits(b)
  {
    if b == [] {
      assert a + b == a;
    } else {
      var init, c := b[..|b| - 1], b[|b| - 1];
      LastOff(a, b);
      LetterBitsOfConcat(a, init);
      LetterBitsAppended(a + init, c, LetterBits(a) + LetterBits(init), CharBits(c));
      Associate(LetterBits(a), LetterBits(init), CharBits(c));
    }
  }

  lemma {:induction false} CharBitsOf(v: Sextet)
    ensures CharBits(Letter(v)) == BitsOf(v, SEXTET) && CharBits(PAD) == []
  {
    PositionOfLetter(v);
  }

  /** `m` high bits and `n` low bits side by side. */
  lemma SideBySide(high: nat, low: nat, m: nat, n: nat, p: nat)
    requires p == Pow2(n) && low < p
    ensures BitsOf(high * p + low, m + n) == BitsOf(high, m) + BitsOf(low, n)
  {
    BitsOfShifted(high, low, m, n);
  }

  lemma LetterBitsOfQuad(c0: u8, c1: u8, c2: u8, c3: u8, x: BitString, y: BitString, z: BitString, w: BitString)
    requires CharBits(c0) == x && CharBits(c1) == y && CharBits(c2) == z && CharBits(c3) == w
    ensures LetterBits([c0, c1, c2, c3]) == x + y + z + w
  {
    var none: Bytes := [];
    LetterBitsAppended(none, c0, [], x);
    assert none + [c0] == [c0] && [] + x == x;
    LetterBitsAppended([c0], c1, x, y);
    assert [c0] + [c1] == [c0, c1];
    LetterBitsAppended([c0, c1], c2, x + y, z);
    assert [c0, c1] + [c2] == [c0, c1, c2];
    LetterBitsAppended([c0, c1, c2], c3, x + y + z, w);
    assert [c0, c1, c2] + [c3] == [c0, c1, c2, c3];
  }

  /** The first sextet and the two bits behind it. */
  lemma {:induction false} FirstOctet(b: nat, h: nat, l: nat)
    requires b == h * 4 + l && l < 4
    ensures BitsOf(h, SEXTET) + BitsOf(l, 2) == BitsOf(b, 8)
  {
    SideBySide(h, l, SEXTET, 2, 4);
  }

  lemma {:induction false} Halves(b: nat, h: nat, l: nat)
    requires b == h * 16 + l && l < 16
    ensures BitsOf(h, 4) + BitsOf(l, 4) == BitsOf(b, 8)
  {
    SideBySide(h, l, 4, 4, 16);
  }

  lemma {:induction false} SecondSextet(before: nat, h: nat)
    requires h < 16
    ensures BitsOf(before * 16 + h, SEXTET) == BitsOf(before, 2) + BitsOf(h, 4)
  {
    SideBySide(before, h, 2, 4, 16);
  }

  lemma {:induction false} LastOctet(b: nat, h: nat, l: nat)
    requires b == h * 64 + l && l < 64
    ensures BitsOf(h, 2) + BitsOf(l, SEXTET) == BitsOf(b, 8)
  {
    assert Pow2(6) == 64;
    SideBySide(h, l, 2, SEXTET, 64);
  }

  lemma {:induction false} ThirdSextet(before: nat, h: nat)
    requires h < 4
    ensures BitsOf(before * 4 + h, SEXTET) == BitsOf(before, 4) + BitsOf(h, 2)
  {
    SideBySide(before, h, 4, 2, 4);
  }

  lemma {:induction false} FourLetters(v0: Sextet, v1: Sextet, v2: Sextet, v3: Sextet)
    ensures LetterBits([Letter(v0), Letter(v1), Letter(v2), Letter(v3)]) ==
      BitsOf(v0, SEXTET) + BitsOf(v1, SEXTET) + BitsOf(v2, SEXTET) + BitsOf(v3, SEXTET)
  {
    CharBitsOf(v0);
    CharBitsOf(v1);
    CharBitsOf(v2);
    CharBitsOf(v3);
    LetterBitsOfQuad(Letter(v0), Letter(v1), Letter(v2), Letter(v3),
                     BitsOf(v0, SEXTET), BitsOf(v1, SEXTET), BitsOf(v2, SEXTET), BitsOf(v3, SEXTET));
  }

  lemma {:induction false} ThreeLetters(v0: Sextet, v1: Sextet, v2: Sextet)
    ensures LetterBits([Letter(v0), Letter(v1), Letter(v2), PAD]) ==
      BitsOf(v0, SEXTET) + BitsOf(v1, SEXTET) + BitsOf(v2, SEXTET) + []
  {
    CharBitsOf(v0);
    CharBitsOf(v1);
    CharBitsOf(v2);
    LetterBitsOfQuad(Letter(v0), Letter(v1), Letter(v2), PAD,
                     BitsOf(v0, SEXTET), BitsOf(v1, SEXTET), BitsOf(v2, SEXTET), []);
  }

  lemma {:induction false} TwoLetters(v0: Sextet, v1: Sextet)
    ensures LetterBits([Letter(v0), Letter(v1), PAD, PAD]) == BitsOf(v0, SEXTET) + BitsOf(v1, SEXTET) + [] + []
  {
    CharBitsOf(v0);
    CharBitsOf(v1);
    LetterBitsOfQuad(Letter(v0), Letter(v1), PAD, PAD, BitsOf(v0, SEXTET), BitsOf(v1, SEXTET), [], []);
  }

  lemma {:induction false} FullBits(b0: u8, b1: u8, b2: u8)
    ensures LetterBits(Quad(b0, b1, b2, 3)) == BitsOf(b0, 8) + BitsOf(b1, 8) + BitsOf(b2, 8)
  {
    FullGroup(Quad(b0, b1, b2, 3), b0, b1, b2, b0 / 4, b0 % 4, b1 / 16, b1 % 16, b2 / 64, b2 % 64);
  }

  lemma {:induction false} FullGroup(quad: Bytes, b0: nat, b1: nat, b2: nat,
                                     h0: nat, l0: nat, h1: nat, l1: nat, h2: nat, l2: nat)
    requires b0 == h0 * 4 + l0 && l0 < 4 && b1 == h1 * 16 + l1 && h1 < 16 && l1 < 16
    requires b2 == h2 * 64 + l2 && h2 < 4 && l2 < 64 && h0 < 64
    requires quad == [Letter(h0), Letter(l0 * 16 + h1), Letter(l1 * 4 + h2), Letter(l2)]
    ensures LetterBits(quad) == BitsOf(b0, 8) + BitsOf(b1, 8) + BitsOf(b2, 8)
  {
    FourLetters(h0, l0 * 16 + h1, l1 * 4 + h2, l2);
    FourSextets(b0, b1, b2, h0, l0, h1, l1, h2, l2);
  }

  /** The bits of three octets, each cut in a high and a low part, sextet by sextet. */
  lemma {:induction false} FourSextets(b0: nat, b1: nat, b2: nat, h0: nat, l0: nat, h1: nat, l1: nat, h2: nat, l2: nat)
    requires b0 == h0 * 4 + l0 && l0 < 4 && b1 == h1 * 16 + l1 && h1 < 16 && l1 < 16
    requires b2 == h2 * 64 + l2 && h2 < 4 && l2 < 64
    ensures BitsOf(h0, SEXTET) + BitsOf(l0 * 16 + h1, SEXTET) + BitsOf(l1 * 4 + h2, SEXTET) + BitsOf(l2, SEXTET) ==
      BitsOf(b0, 8) + BitsOf(b1, 8) + BitsOf(b2, 8)
  {
    FirstOctet(b0, h0, l0);
    Halves(b1, h1, l1);
    SecondSextet(l0, h1);
    LastOctet(b2, h2, l2);
    ThirdSextet(l1, h2);
    Regroup(BitsOf(h0, SEXTET), BitsOf(l0, 2), BitsOf(h1, 4), BitsOf(l1, 4), BitsOf(h2, 2), BitsOf(l2, SEXTET));
  }

  lemma {:induction false} TwoOctetBits(b0: u8, b1: u8, none: u8)
    requires none == 0
    ensures LetterBits(Quad(b0, b1, none, 2)) == BitsOf(b0, 8) + BitsOf(b1, 8) + BitsOf(none / 64, 2)
  {
    ThreeLetters(b0 / 4, b0 % 4 * 16 + b1 / 16, b1 % 16 * 4 + none / 64);
    ThreeSextets(b0, b1, none, b0 / 4, b0 % 4, b1 / 16, b1 % 16, none / 64, none % 64);
  }

  lemma {:induction false} ThreeSextets(b0: nat, b1: nat, b2: nat, h0: nat, l0: nat, h1: nat, l1: nat, h2: nat, l2: nat)
    requires b0 == h0 * 4 + l0 && l0 < 4 && b1 == h1 * 16 + l1 && h1 < 16 && l1 < 16
    requires b2 == h2 * 64 + l2 && h2 < 4 && l2 < 64
    ensures BitsOf(h0, SEXTET) + BitsOf(l0 * 16 + h1, SEXTET) + BitsOf(l1 * 4 + h2, SEXTET) + [] ==
      BitsOf(b0, 8) + BitsOf(b1, 8) + BitsOf(h2, 2)
  {
    FirstOctet(b0, h0, l0);
    Halves(b1, h1, l1);
    SecondSextet(l0, h1);
    ThirdSextet(l1, h2);
    Regroup(BitsOf(h0, SEXTET), BitsOf(l0, 2), BitsOf(h1, 4), BitsOf(l1, 4), BitsOf(h2, 2), []);
  }

  lemma {:induction false} TwoSextets(b0: nat, b1: nat, h0: nat, l0: nat, h1: nat, l1: nat)
    requires b0 == h0 * 4 + l0 && l0 < 4 && b1 == h1 * 16 + l1 && h1 < 16 && l1 < 16
    ensures BitsOf(h0, SEXTET) + BitsOf(l0 * 16 + h1, SEXTET) + [] + [] == BitsOf(b0, 8) + BitsOf(h1, 4)
  {
    FirstOctet(b0, h0, l0);
    Halves(b1, h1, l1);
    SecondSextet(l0, h1);
    Regroup(BitsOf(h0, SEXTET), BitsOf(l0, 2), BitsOf(h1, 4), [], [], []);
  }

  lemma {:induction false} OneOctetBits(b0: u8, none: u8)
    requires none == 0
    ensures LetterBits(Quad(b0, none, none, 1)) == BitsOf(b0, 8) + BitsOf(none / 16, 4)
  {
    TwoLetters(b0 / 4, b0 % 4 * 16 + none / 16);
    TwoSextets(b0, none, b0 / 4, b0 % 4, none / 16, none % 16);
  }

  lemma Regroup(a: BitString, b: BitString, c: BitString, d: BitString, e: BitString, f: BitString)
    ensures a + (b + c) + (d + e) + f == (a + b) + (c + d) + (e + f)
    ensures a + (b + c) + (d + e) + [] == (a + b) + (c + d) + e
    ensures a + (b + c) + [] + [] == (a + b) + c
  {
  }

  lemma {:induction false} UnpackFew(s: Bytes)
    requires 1 <= |s| <= 3
    ensures Unpack(s) == BitsOf(s[0], 8) + (if |s| > 1 then BitsOf(s[1], 8) else [])
                         + (if |s| > 2 then BitsOf(s[2], 8) else [])
  {
    if |s| > 1 {
      UnpackFew(s[..|s| - 1]);
    } else {
      assert s[..0] == [];
    }
  }

  /** The letters of a group carry the bits of its octets, and up to four more when octets are missing. */
  lemma {:induction false} GroupBits(chunk: Bytes) returns (left: BitString)
    requires 1 <= |chunk| <= 3
    ensures LetterBits(QuadOf(chunk)) == Unpack(chunk) + left
    ensures |left| == 2 * (3 - |chunk|)
  {
    var none: u8 := 0;
    UnpackFew(chunk);
    if |chunk| == 1 {
      OneOctetBits(chunk[0], none);
      left := BitsOf(none / 16, 4);
    } else if |chunk| == 2 {
      TwoOctetBits(chunk[0], chunk[1], none);
      left := BitsOf(none / 64, 2);
    } else {
      FullBits(chunk[0], chunk[1], chunk[2]);
      left := [];
    }
  }

  lemma {:induction false} GroupsJoined(q: Bytes, e: Bytes, head: Bytes, tail: Bytes, left: BitString)
    requires LetterBits(q) == Unpack(head) && LetterBits(e) == Unpack(tail) + left
    ensures LetterBits(q + e) == Unpack(head + tail) + left
  {
    LetterBitsOfConcat(q, e);
    UnpackConcat(head, tail);
    Associate(Unpack(head), Unpack(tail), left);
  }

  /** The letters of an encoding carry the bits of the octets, and fewer than eight more. */
  lemma {:induction false} EncodingBits(s: Bytes) returns (left: BitString)
    ensures LetterBits(Encoding(s)) == Unpack(s) + left && |left| < 8
    decreases |s|
  {
    if s == [] {
      left := [];
    } else if |s| <= 3 {
      left := GroupBits(s);
    } else {
      var head, tail := s[..3], s[3..];
      var nothing := GroupBits(head);
      assert Unpack(head) + nothing == Unpack(head);
      left := EncodingBits(tail);
      GroupsJoined(QuadOf(head), Encoding(tail), head, tail, left);
      assert s == head + tail;
    }
  }

  /** Decoding undoes encoding, for every octet string and every padding case. */
  lemma {:induction false} RoundTrip(s: Bytes)
    ensures Decoding(Encoding(s)) == s
  {
    var left := EncodingBits(s);
    WholeOctets(s, left, LetterBits(Encoding(s)));
  }
}
