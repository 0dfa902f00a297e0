/** The prefix-integer codec of section 5.1 of RFC 7541. */
module Integers {
  import opened Bits
  import opened Results
  import opened HpackErrors

  // ----- encoding -----

  /** The octets after a saturated prefix: seven bits each, least significant first, the top bit marking
    * continuation. */
  function Continuation(rest: nat): (s: Bytes)
    ensures s != []
  {
    if rest < 128 then [rest] else [rest % 128 + 128] + Continuation(rest / 128)
  }

  lemma {:induction false} PrefixMax(p: nat)
    requires 1 <= p <= 8
    ensures 1 <= Pow2(p) - 1 <= 255
  {
    assert Pow2(8) == 256;
    Pow2Monotone(p, 8);
  }

  lemma {:induction false} Pow2Monotone(m: nat, n: nat)
    requires m <= n
    ensures Pow2(m) <= Pow2(n)
    decreases n - m
  {
    if m < n {
      Pow2Monotone(m, n - 1);
    }
  }

  /** The prefix bits of the first octet lie above the `p` bits of the integer. */
  predicate IsPrefix(p: nat, prefixValue: u8) {
    1 <= p <= 8 && prefixValue % Pow2(p) == 0 && prefixValue + Pow2(p) <= 256
  }

  function IntegerOctets(value: nat, p: nat, prefixValue: u8): (s: Bytes)
    requires IsPrefix(p, prefixValue)
    ensures s != []
  {
    var max := Pow2(p) - 1;
    if value < max then [prefixValue + value] else [prefixValue + max] + Continuation(value - max)
  }

  method EncodeInteger(value: nat, prefixBits: nat, prefixValue: u8) returns (out: Bytes)
    requires IsPrefix(prefixBits, prefixValue)
    ensures out == IntegerOctets(value, prefixBits, prefixValue)
  {
    var max := Pow2(prefixBits) - 1;
    if value < max {
      BitOrDisjoint(prefixValue, value, prefixBits);
      out := [BitOr(prefixValue, value)];
      return;
    }
    BitOrDisjoint(prefixValue, max, prefixBits);
    out := [BitOr(prefixValue, max)];
    var rest := value - max;
    ghost var whole := out + Continuation(rest);
    while rest >= 128
      invariant rest >= 0
      invariant out + Continuation(rest) == whole
    {
      EmitOctet(out, rest);
      out := out + [BitOr(rest % 128, 0x80)];
      rest := rest / 128;
    }
    out := out + [rest];
  }

  lemma {:induction false} EmitOctet(out: Bytes, rest: nat)
    requires rest >= 128
    ensures BitOr(rest % 128, 0x80) < 256
    ensures out + [BitOr(rest % 128, 0x80)] + Continuation(rest / 128) == out + Continuation(rest)
  {
    HighBit(rest % 128);
    AppendOctet(out, rest % 128 + 128, Continuation(rest / 128));
  }

  lemma AppendOctet(a: Bytes, b: u8, c: Bytes)
    ensures a + [b] + c == a + ([b] + c)
  {
  }

  lemma {:induction false} HighBit(low: nat)
    requires low < 128
    ensures BitOr(low, 0x80) == low + 0x80
  {
    BitOrLow(low, 0x80, 7);
  }

  lemma {:induction false} BitOrLow(low: nat, high: nat, k: nat)
    requires low < Pow2(k) && high % Pow2(k) == 0
    ensures BitOr(low, high) == low + high
  {
    if k > 0 && low > 0 {
      var q := high / Pow2(k);
      Double(q, Pow2(k - 1));
      assert high == q * Pow2(k);
      MulMod(q, Pow2(k - 1));
      BitOrLow(low / 2, high / 2, k - 1);
    }
  }

  // ----- decoding -----

  datatype Decoded = Decoded(value: nat, used: nat)

  type IntegerResult = Result<Decoded, HpackError>

  /** The continuation octets at the front of `s`, added in from bit `shift` up. */
  function Continue(s: Bytes, value: nat, shift: nat): (r: IntegerResult)
    ensures r.Ok? ==> 1 <= r.value.used <= |s|
  {
    if s == [] then Err(Truncated)
    else if shift >= 63 then Err(BadInteger)
    else
      var add := ((s[0] % 128) * Pow2(shift)) % WORD;
      if value + add >= WORD then Err(BadInteger)
      else if s[0] < 128 then Ok(Decoded(value + add, 1))
      else
        match Continue(s[1..], value + add, shift + 7)
        case Ok(d) => Ok(Decoded(d.value, d.used + 1))
        case Err(e) => Err(e)
  }

  function DecodeInteger(buf: Bytes, p: nat): (r: IntegerResult)
    ensures r.Ok? ==> 1 <= r.value.used <= |buf|
  {
    if p == 0 || p > 8 then Err(BadInteger)
    else if buf == [] then Err(Truncated)
    else if buf[0] % Pow2(p) < Pow2(p) - 1 then Ok(Decoded(buf[0] % Pow2(p), 1))
    else
      match Continue(buf[1..], buf[0] % Pow2(p), 0)
      case Ok(d) => Ok(Decoded(d.value, d.used + 1))
      case Err(e) => Err(e)
  }

  /** `r` with `n` more octets consumed. */
  function After(n: nat, r: IntegerResult): IntegerResult {
    match r
    case Ok(d) => Ok(Decoded(d.value, d.used + n))
    case Err(e) => Err(e)
  }

  method Decode(buf: Bytes, prefixBits: nat) returns (r: IntegerResult)
    ensures r == DecodeInteger(buf, prefixBits)
  {
    if prefixBits == 0 || prefixBits > 8 {
      return Err(BadInteger);
    }
    var mask := Pow2(prefixBits) - 1;
    if buf == [] {
      return Err(Truncated);
    }
    var value: nat := buf[0] % Pow2(prefixBits);
    if value < mask {
      return Ok(Decoded(value, 1));
    }
    var shift: nat := 0;
    var consumed: nat := 1;
    while true
      invariant 1 <= consumed <= |buf|
      invariant DecodeInteger(buf, prefixBits) == After(consumed, Continue(buf[consumed..], value, shift))
      decreases |buf| - consumed
    {
      if consumed >= |buf| {
        return Err(Truncated);
      }
      var byte := buf[consumed];
      assert buf[consumed..][1..] == buf[consumed + 1..];
      consumed := consumed + 1;
      if shift >= 63 {
        return Err(BadInteger);
      }
      var add := ((byte % 128) * Pow2(shift)) % WORD;
      if value + add >= WORD {
        return Err(BadInteger);
      }
      value := value + add;
      if byte < 128 {
        return Ok(Decoded(value, consumed));
      }
      shift := shift + 7;
    }
  }

  // ----- what the decoder accepts -----

  /** Little-endian base-128 value of the low seven bits of each octet. */
  function LittleEndian(s: Bytes): nat {
    if s == [] then 0 else s[0] % 128 + 128 * LittleEndian(s[1..])
  }

  /** How many octets at the front of `s` have the continuation bit. */
  function Continued(s: Bytes): (n: nat)
    ensures n <= |s|
  {
    if s == [] || s[0] < 128 then 0 else 1 + Continued(s[1..])
  }

  /** Taking the continuation octets of `s` when `j` have been taken before: at most `9 - j` of them. */
  function Taken(s: Bytes, value: nat, j: nat): IntegerResult
    requires j <= 9
  {
    var n := Continued(s);
    if n < |s| && n < 9 - j then Ok(Decoded(value + Pow2(7 * j) * LittleEndian(s[..n + 1]), n + 1))
    else if |s| <= 9 - j then Err(Truncated)
    else Err(BadInteger)
  }

  lemma {:induction false} TakenStep(s: Bytes, value: nat, j: nat)
    requires s != [] && s[0] >= 128 && j < 9
    ensures Taken(s, value, j) == After(1, Taken(s[1..], value + (s[0] % 128) * Pow2(7 * j), j + 1))
  {
    var n := Continued(s);
    assert Pow2(7 * (j + 1)) == 128 * Pow2(7 * j) by {
      Pow2Add(7, 7 * j);
      assert Pow2(7) == 128;
    }
    if n < |s| {
      assert s[..n + 1][1..] == s[1..][..n];
      Spread(Pow2(7 * j), s[0] % 128, LittleEndian(s[1..][..n]));
    }
  }

  /** The continuation loop takes the octets exactly so: neither the shift nor the addition ever overflows. */
  lemma {:induction false} ContinueMeans(s: Bytes, value: nat, j: nat)
    requires j <= 9 && value < 255 + Pow2(7 * j)
    ensures Continue(s, value, 7 * j) == Taken(s, value, j)
    decreases |s|
  {
    if s != [] && j < 9 {
      ShiftFits(s[0] % 128, j);
      if s[0] < 128 {
        assert s[..1][1..] == [];
        assert LittleEndian(s[..1]) == s[0] % 128;
        Spread(Pow2(7 * j), s[0] % 128, 0);
      } else {
        ContinueMeans(s[1..], value + (s[0] % 128) * Pow2(7 * j), j + 1);
        TakenStep(s, value, j);
        assert 7 * (j + 1) == 7 * j + 7;
      }
    }
  }

  lemma Spread(p: int, low: int, v: int)
    ensures low * p + (128 * p) * v == p * (low + 128 * v)
  {
    Associates(p, 128, v);
    Distributes(low, 128 * v, p);
  }

  lemma {:induction false} ShiftFits(low: nat, j: nat)
    requires low < 128 && j < 9
    ensures low * Pow2(7 * j) <= Pow2(7 * (j + 1)) - Pow2(7 * j)
    ensures Pow2(7 * (j + 1)) <= Pow2(63) && Pow2(63) == 0x8000_0000_0000_0000
    ensures (low * Pow2(7 * j)) % WORD == low * Pow2(7 * j)
  {
    Pow2Add(7, 7 * j);
    assert Pow2(7) == 128;
    Pow2Monotone(7 * (j + 1), 63);
    Pow2Values();
    var p := Pow2(7 * j);
    Distributes(low, 128 - low - 1, p);
    Distributes(127, 1, p);
    NonNegative(127 - low, p);
    NonNegative(low, p);
  }

  /** The decoder on every input: `checked_add` never fails, success takes at most ten octets, and the value is the
    * prefix plus the base-128 reading of the octets taken. */
  lemma {:induction false} DecodeIntegerMeans(buf: Bytes, p: nat)
    ensures DecodeInteger(buf, p) ==
      if p < 1 || p > 8 then Err(BadInteger)
      else if buf == [] then Err(Truncated)
      else
        var mask, n := Pow2(p) - 1, Continued(buf[1..]);
        if buf[0] % Pow2(p) != mask then Ok(Decoded(buf[0] % Pow2(p), 1))
        else if n < |buf| - 1 && n < 9 then Ok(Decoded(mask + LittleEndian(buf[1..n + 2]), n + 2))
        else if |buf| <= 10 then Err(Truncated)
        else Err(BadInteger)
  {
    if 1 <= p <= 8 && buf != [] {
      PrefixMax(p);
      var s, n := buf[1..], Continued(buf[1..]);
      if buf[0] % Pow2(p) == Pow2(p) - 1 {
        ContinueMeans(s, buf[0] % Pow2(p), 0);
        if n < |s| {
          assert s[..n + 1] == buf[1..n + 2];
        }
      }
    }
  }

  // ----- round trip -----

  lemma {:induction false} ContinuationShape(r: nat, tail: Bytes)
    ensures Continued(Continuation(r) + tail) == |Continuation(r)| - 1
    ensures LittleEndian(Continuation(r)) == r
  {
    var s := Continuation(r);
    if r < 128 {
      assert s[1..] == [];
    } else {
      ContinuationShape(r / 128, tail);
      assert s[1..] == Continuation(r / 128);
      assert (s + tail)[1..] == Continuation(r / 128) + tail;
    }
  }

  /** A number needs `n` continuation octets or fewer exactly when it is below 2^(7n). */
  lemma {:induction false} ContinuationLength(r: nat, n: nat)
    requires n > 0
    ensures |Continuation(r)| <= n <==> r < Pow2(7 * n)
  {
    Pow2Add(7, 7 * (n - 1));
    assert Pow2(7) == 128;
    assert 7 * n == 7 + 7 * (n - 1);
    if n > 1 && r >= 128 {
      ContinuationLength(r / 128, n - 1);
    } else if r < 128 {
      Pow2Monotone(0, 7 * (n - 1));
    } else {
      assert Pow2(0) == 1;
    }
  }

  /** The first octet holds the value, or all ones and the continuation follows. */
  lemma {:induction false} FirstOctet(value: nat, p: nat, prefixValue: u8, tail: Bytes)
    requires IsPrefix(p, prefixValue)
    ensures var s, mask := IntegerOctets(value, p, prefixValue), Pow2(p) - 1;
      && (s + tail)[0] % Pow2(p) == (if value < mask then value else mask)
      && (if value < mask then |s| == 1 else s[1..] == Continuation(value - mask))
  {
    PrefixMax(p);
    LowBits(prefixValue, if value < Pow2(p) - 1 then value else Pow2(p) - 1, p);
  }

  lemma BehindFirst(s: Bytes, c: Bytes, tail: Bytes)
    requires s != [] && s[1..] == c
    ensures (s + tail)[1..] == c + tail && (s + tail)[1..|c| + 1] == c
  {
  }

  /** Decoding what was encoded, whatever follows it: the round trip holds exactly for the integers below
    * 2^prefix - 1 + 2^63, although the encoder accepts more. */
  lemma {:induction false} IntegerRoundTrip(value: nat, p: nat, prefixValue: u8, tail: Bytes)
    requires IsPrefix(p, prefixValue)
    ensures var s := IntegerOctets(value, p, prefixValue);
      DecodeInteger(s + tail, p) ==
        if value < Pow2(p) - 1 + Pow2(63) then Ok(Decoded(value, |s|)) else Err(BadInteger)
  {
    var s, mask := IntegerOctets(value, p, prefixValue), Pow2(p) - 1;
    FirstOctet(value, p, prefixValue, tail);
    DecodeIntegerMeans(s + tail, p);
    if value >= mask {
      var c := Continuation(value - mask);
      ContinuationShape(value - mask, tail);
      ContinuationLength(value - mask, 9);
      BehindFirst(s, c, tail);
    }
  }

  lemma {:induction false} LowBits(prefixValue: nat, low: nat, p: nat)
    requires prefixValue % Pow2(p) == 0 && low < Pow2(p)
    ensures (prefixValue + low) % Pow2(p) == low
  {
    DivMod(prefixValue, Pow2(p));
    DivModUnique(prefixValue + low, Pow2(p), prefixValue / Pow2(p), low);
  }
}
