import sys; sys.path.insert(0,"/tmp/exp")
from trace import *
out='''module Lit {
  import opened Bits
  import opened HuffmanCode
  import opened HuffmanTable
  import opened Texts
  import opened Spellings
  ghost predicate Good(w: Trace, acc: nat, bits: nat, s: Bytes, o: Bytes, a: nat, b: nat) {
    InTable(w) && Counts(w, acc, bits) && EndsAt(w, acc, bits, a, b) && Takes(w, s, 0) && Puts(w, o, 0)
  }
'''
for n in (8,10,12):
    s="foo=ASDJKHQKBZXOQWEOPIUAXQWEOIU; max-age=3600; version=1"[:n]
    w,o,a,b=trace(s.encode(),0,0)
    out+=f'''
  const W{n}: Trace := {w}
  lemma {{:induction false}} Te{n}() ensures Good(W{n}, 0, 0, Ascii("{s}"), {o}, {a}, {b})
  {{
    assert InTable(W{n});
    assert Counts(W{n}, 0, 0);
    assert EndsAt(W{n}, 0, 0, {a}, {b});
    assert Takes(W{n}, Ascii("{s}"), 0);
    assert Puts(W{n}, {o}, 0);
  }}
  lemma {{:induction false}} Tn{n}(t: seq<Row>, w: Trace, s: Bytes, o: Bytes) requires InRange(t) && t == HUFFMAN 
   requires Good(w,0,0,s, o, {a}, {b})
  ensures Goes(t, 0, 0, s, o, {a}, {b})
  {{
    TableFits(t, w);
    assert s[0..] == s && o[0..]==o;
    TraceGoes(t, w, 0, 0, s, 0, o, 0, {a}, {b});
  }}
'''
open('Lit.dfy','w').write(out+"}\n")
