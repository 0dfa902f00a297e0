/** Reading numerals back: what a decimal or hexadecimal text stands for, said without the functions that write it. */
module NumeralReading {
  import opened Bits
  import opened Texts

  /** The number a string of digits stands for, with digits from `a` on for ten and more. */
  function DigitValue(c: u8): int {
    if '0' as int <= c <= '9' as int then c - '0' as int else 10 + c - 'a' as int
  }

  function Value(s: Bytes, base: nat): int {
    if s == [] then 0 else base * Value(s[..|s| - 1], base) + DigitValue(s[|s| - 1])
  }

  /** `s` is `n` in decimal: digits only, and no needless zero in front. */
  predicate IsNumeral(s: Bytes, n: nat) {
    && s != [] && (forall i :: 0 <= i < |s| ==> '0' as int <= s[i] <= '9' as int)
    && (s[0] == '0' as int ==> |s| == 1) && Value(s, 10) == n
  }

  /** `s` is `v` in four hexadecimal digits, in lower case. */
  predicate IsHex4(s: Bytes, v: u16) {
    && |s| == 4 && (forall i :: 0 <= i < 4 ==> '0' as int <= s[i] <= '9' as int || 'a' as int <= s[i] <= 'f' as int)
    && Value(s, 16) == v
  }

  /** Cut at every `separator`, `s` is the numerals of `ns`, one by one. */
  predicate ReadsAs(s: Bytes, separator: u8, ns: seq<nat>) {
    var parts := Split(s, separator);
    |parts| == |ns| && forall i :: 0 <= i < |ns| ==> IsNumeral(parts[i], ns[i])
  }

  /** The same when there may be no numbers: then `s` is empty. */
  predicate NumeralList(s: Bytes, separator: u8, ns: seq<nat>) {
    if ns == [] then s == [] else ReadsAs(s, separator, ns)
  }

  lemma {:induction false} ValueOfOne(c: u8, base: nat)
    ensures Value([c], base) == DigitValue(c)
  {
    assert [c][..0] == [];
  }

  lemma {:induction false} ValueGrows(s: Bytes, c: u8, base: nat)
    ensures Value(s + [c], base) == base * Value(s, base) + DigitValue(c)
  {
    assert (s + [c])[..|s|] == s;
  }

  /** The first digit of a number above zero is not a zero. */
  lemma {:induction false} DecimalStarts(n: nat)
    requires n > 0
    ensures Decimal(n)[0] != 0x30
  {
    if n >= 10 {
      DecimalStarts(n / 10);
    }
  }

  lemma {:induction false} DecimalValue(n: nat)
    ensures Value(Decimal(n), 10) == n
  {
    if n < 10 {
      ValueOfOne(0x30 + n, 10);
    } else {
      DecimalValue(n / 10);
      ValueGrows(Decimal(n / 10), 0x30 + n % 10, 10);
    }
  }

  lemma {:induction false} DecimalIsNumeral(n: nat)
    ensures IsNumeral(Decimal(n), n)
  {
    DecimalValue(n);
    if n > 0 {
      DecimalStarts(n);
    }
  }

  lemma {:induction false} Hex4IsHex4(v: u16)
    ensures IsHex4(Hex4(v), v)
  {
    var a, b, c, d := HexDigit(v / 0x1000), HexDigit(v / 0x100 % 16), HexDigit(v / 0x10 % 16), HexDigit(v % 16);
    NibblesAddUp(v);
    ValueOfOne(a, 16);
    ValueGrows([a], b, 16);
    ValueGrows([a] + [b], c, 16);
    ValueGrows([a] + [b] + [c], d, 16);
    assert Hex4(v) == [a] + [b] + [c] + [d];
  }

  /** Numerals joined by something that is not a digit are cut apart again. */
  lemma {:induction false} JoinedNumerals(parts: seq<Bytes>, separator: u8, ns: seq<nat>)
    requires |parts| == |ns| > 0 && !IsDigit(separator)
    requires forall i :: 0 <= i < |ns| ==> IsNumeral(parts[i], ns[i])
    ensures ReadsAs(Join(parts, separator), separator, ns)
  {
    forall i | 0 <= i < |parts|
      ensures separator !in parts[i]
    {
      assert IsNumeral(parts[i], ns[i]);
    }
    SplitOfJoin(parts, separator);
  }
}
