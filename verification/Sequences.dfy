/** Sequences put together and taken apart. */
module Sequences {
  lemma {:induction false} Associate<T>(a: seq<T>, b: seq<T>, c: seq<T>)
    ensures (a + b) + c == a + (b + c)
  {
  }

  /** The last element of what is put together. */
  lemma {:induction false} LastOff<T>(a: seq<T>, b: seq<T>)
    requires b != []
    ensures var ab, last := a + b, |b| - 1;
      ab[..|ab| - 1] == a + b[..last] && ab[|ab| - 1] == b[last] && ab == (a + b[..last]) + [b[last]]
  {
  }
}
