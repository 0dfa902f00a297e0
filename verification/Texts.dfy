/** Text as octets: joining and splitting, decimal and hexadecimal numerals, case folding and trimming. */
module Texts {
  import opened Bits

  const COMMA: u8 := 0x2c
  const COLON: u8 := 0x3a
  const SEMICOLON: u8 := 0x3b
  const BAR: u8 := 0x7c

  function Ascii(s: string): (r: Bytes)
    requires forall i :: 0 <= i < |s| ==> s[i] as int < 0x80
    ensures |r| == |s|
    ensures forall i :: 0 <= i < |s| ==> r[i] == s[i] as int
  {
    seq(|s|, i requires 0 <= i < |s| => s[i] as int)
  }

  // ----- joining and splitting -----

  function Join(parts: seq<Bytes>, separator: u8): Bytes {
    if parts == [] then []
    else if |parts| == 1 then parts[0]
    else parts[0] + [separator] + Join(parts[1..], separator)
  }

  /** The part before the first separator; all of `s` when it has none. */
  function Before(s: Bytes, separator: u8): (r: Bytes)
    ensures r <= s && separator !in r
    ensures |r| < |s| ==> s[|r|] == separator
  {
    if s == [] || s[0] == separator then [] else [s[0]] + Before(s[1..], separator)
  }

  function Split(s: Bytes, separator: u8): (r: seq<Bytes>)
    ensures r != []
    decreases |s|
  {
    var first := Before(s, separator);
    if |first| == |s| then [s] else [first] + Split(s[|first| + 1..], separator)
  }

  lemma {:induction false} BeforeSeparator(a: Bytes, separator: u8, b: Bytes)
    requires separator !in a
    ensures Before(a, separator) == a
    ensures Before(a + [separator] + b, separator) == a
  {
    if a == [] {
      assert (a + [separator] + b)[0] == separator;
    } else {
      BeforeSeparator(a[1..], separator, b);
      assert (a + [separator] + b)[1..] == a[1..] + [separator] + b;
      assert a == [a[0]] + a[1..];
    }
  }

  /** Splitting undoes joining when no part holds the separator. */
  lemma {:induction false} SplitOfJoin(parts: seq<Bytes>, separator: u8)
    requires parts != [] && forall i :: 0 <= i < |parts| ==> separator !in parts[i]
    ensures Split(Join(parts, separator), separator) == parts
  {
    if |parts| == 1 {
      BeforeSeparator(parts[0], separator, []);
    } else {
      var head, tail := parts[0], Join(parts[1..], separator);
      var s := head + [separator] + tail;
      BeforeSeparator(head, separator, tail);
      assert s[|head| + 1..] == tail;
      SplitOfJoin(parts[1..], separator);
      assert parts == [head] + parts[1..];
    }
  }

  lemma {:induction false} JoinStep(first: Bytes, others: seq<Bytes>, c: u8)
    requires others != []
    ensures Join([first] + others, c) == first + [c] + Join(others, c)
  {
    assert ([first] + others)[1..] == others;
  }

  lemma {:induction false} SplitStep(s: Bytes, separator: u8)
    requires |Before(s, separator)| < |s|
    ensures var n := |Before(s, separator)|;
      && Split(s, separator) == [s[..n]] + Split(s[n + 1..], separator)
      && s == s[..n] + [separator] + s[n + 1..]
  {
    assert s[..|Before(s, separator)|] == Before(s, separator);
  }

  lemma {:induction false} JoinOfSplit(s: Bytes, separator: u8)
    ensures Join(Split(s, separator), separator) == s
    decreases |s|
  {
    var n := |Before(s, separator)|;
    if n < |s| {
      SplitStep(s, separator);
      JoinOfSplit(s[n + 1..], separator);
      JoinStep(s[..n], Split(s[n + 1..], separator), separator);
    }
  }

  /** Joining loses nothing when no part is empty and none holds the separator. */
  lemma {:induction false} JoinInjective(a: seq<Bytes>, b: seq<Bytes>, separator: u8)
    requires forall i :: 0 <= i < |a| ==> separator !in a[i] && a[i] != []
    requires forall i :: 0 <= i < |b| ==> separator !in b[i] && b[i] != []
    requires Join(a, separator) == Join(b, separator)
    ensures a == b
  {
    if a != [] && b != [] {
      SplitOfJoin(a, separator);
      SplitOfJoin(b, separator);
    }
  }

  lemma {:induction false} JoinLacks(parts: seq<Bytes>, separator: u8, c: u8)
    requires c != separator && forall i :: 0 <= i < |parts| ==> c !in parts[i]
    ensures c !in Join(parts, separator)
  {
    if |parts| > 1 {
      JoinLacks(parts[1..], separator, c);
    }
  }

  // ----- numerals -----

  predicate IsDigit(c: u8) { 0x30 <= c <= 0x39 }

  function Decimal(n: nat): (r: Bytes)
    ensures r != []
    ensures forall i :: 0 <= i < |r| ==> IsDigit(r[i])
  {
    if n < 10 then [0x30 + n] else Decimal(n / 10) + [0x30 + n % 10]
  }

  lemma {:induction false} DecimalInjective(m: nat, n: nat)
    requires Decimal(m) == Decimal(n)
    ensures m == n
  {
    if m >= 10 && n >= 10 {
      var a, b := Decimal(m), Decimal(n);
      assert a[..|a| - 1] == Decimal(m / 10) && b[..|b| - 1] == Decimal(n / 10);
      assert a[|a| - 1] == b[|b| - 1];
      DecimalInjective(m / 10, n / 10);
    }
  }

  function HexDigit(n: nat): u8
    requires n < 16
  {
    if n < 10 then 0x30 + n else 0x61 + n - 10
  }

  /** Four lower-case hexadecimal digits. */
  function Hex4(v: u16): (r: Bytes)
    ensures |r| == 4
  {
    NibblesAddUp(v);
    [HexDigit(v / 0x1000), HexDigit(v / 0x100 % 16), HexDigit(v / 0x10 % 16), HexDigit(v % 16)]
  }

  lemma HexDigitInjective(a: nat, b: nat)
    requires a < 16 && b < 16 && HexDigit(a) == HexDigit(b)
    ensures a == b
  {
  }

  lemma NibblesAddUp(v: u16)
    ensures v == 0x1000 * (v / 0x1000) + 0x100 * (v / 0x100 % 16) + 0x10 * (v / 0x10 % 16) + v % 16
    ensures v / 0x1000 < 16
  {
    assert v / 0x10 / 0x10 == v / 0x100 && v / 0x100 / 0x10 == v / 0x1000;
  }

  lemma {:induction false} Hex4Injective(a: u16, b: u16)
    requires Hex4(a) == Hex4(b)
    ensures a == b
  {
    NibblesAddUp(a);
    NibblesAddUp(b);
    assert Hex4(a)[0] == Hex4(b)[0] && Hex4(a)[1] == Hex4(b)[1];
    assert Hex4(a)[2] == Hex4(b)[2] && Hex4(a)[3] == Hex4(b)[3];
    HexDigitInjective(a / 0x1000, b / 0x1000);
    HexDigitInjective(a / 0x100 % 16, b / 0x100 % 16);
    HexDigitInjective(a / 0x10 % 16, b / 0x10 % 16);
    HexDigitInjective(a % 16, b % 16);
  }

  // ----- case and white space -----

  function LowerOctet(c: u8): u8 {
    if 0x41 <= c <= 0x5a then c + 0x20 else c
  }

  function Lower(s: Bytes): (r: Bytes)
    ensures |r| == |s|
  {
    seq(|s|, i requires 0 <= i < |s| => LowerOctet(s[i]))
  }

  lemma LowerTwice(s: Bytes)
    ensures Lower(Lower(s)) == Lower(s)
  {
  }

  /** Length of the white space character `s` starts with, zero when it starts with none. */
  function WhiteAt(s: Bytes): (n: nat)
    ensures n <= |s|
  {
    if |s| >= 1 && (0x09 <= s[0] <= 0x0d || s[0] == 0x20) then 1
    else if |s| >= 2 && s[0] == 0xc2 && (s[1] == 0x85 || s[1] == 0xa0) then 2
    else if |s| >= 3 && IsWideSpace(s[0], s[1], s[2]) then 3
    else 0
  }

  /** U+1680, U+2000 to U+200A, U+2028, U+2029, U+202F, U+205F and U+3000. */
  predicate IsWideSpace(a: u8, b: u8, c: u8) {
    || (a == 0xe1 && b == 0x9a && c == 0x80)
    || (a == 0xe2 && b == 0x80 && (0x80 <= c <= 0x8a || c == 0xa8 || c == 0xa9 || c == 0xaf))
    || (a == 0xe2 && b == 0x81 && c == 0x9f)
    || (a == 0xe3 && b == 0x80 && c == 0x80)
  }

  /** Length of the white space character `s` ends with. */
  function WhiteBefore(s: Bytes): (n: nat)
    ensures n <= |s|
  {
    if |s| >= 1 && WhiteAt(s[|s| - 1..]) == 1 then 1
    else if |s| >= 2 && WhiteAt(s[|s| - 2..]) == 2 then 2
    else if |s| >= 3 && WhiteAt(s[|s| - 3..]) == 3 then 3
    else 0
  }

  function Trim(s: Bytes): Bytes
    decreases |s|
  {
    if WhiteAt(s) > 0 then Trim(s[WhiteAt(s)..])
    else if WhiteBefore(s) > 0 then Trim(s[..|s| - WhiteBefore(s)])
    else s
  }
}
