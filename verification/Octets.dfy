/** Bytes, their sums, and powers of two. */
module Octets {

  type byte = n: nat | n < 256

  function Sum(s: seq<byte>): nat {
    if s == [] then 0 else s[0] as nat + Sum(s[1..])
  }

  lemma {:induction false} SumAppend(s: seq<byte>, t: seq<byte>)
    ensures Sum(s + t) == Sum(s) + Sum(t)
  {
    if s == [] {
      assert s + t == t;
    } else {
      assert (s + t)[1..] == s[1..] + t;
      SumAppend(s[1..], t);
    }
  }

  function Pow2(n: nat): (r: nat)
    ensures r > 0
  {
    if n == 0 then 1 else 2 * Pow2(n - 1)
  }
}
