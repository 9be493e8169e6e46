/** Bytes and the little-endian encodings of the stored values. */
module Bytes {
  import opened Arith

  type byte = x: nat | x < 256

  function Pow256(n: nat): nat {
    if n == 0 then 1 else 256 * Pow256(n - 1)
  }

  /** `x` in `n` bytes, least significant first. */
  function ToLe(x: nat, n: nat): (s: seq<byte>)
    ensures |s| == n
    decreases n
  {
    if n == 0 then [] else [x % 256] + ToLe(x / 256, n - 1)
  }

  function FromLe(s: seq<byte>): nat {
    if s == [] then 0 else s[0] + 256 * FromLe(s[1..])
  }

  lemma {:induction false} LeRoundTrip(x: nat, n: nat)
    requires x < Pow256(n)
    ensures FromLe(ToLe(x, n)) == x
    decreases n
  {
    if n != 0 {
      LeRoundTrip(x / 256, n - 1);
      assert ToLe(x, n)[1..] == ToLe(x / 256, n - 1);
    }
  }

  /** Byte `i` is the i-th digit to base 256. */
  lemma {:induction false} LeDigit(x: nat, n: nat, i: nat)
    requires i < n
    ensures 0 < Pow256(i) && ToLe(x, n)[i] == x / Pow256(i) % 256
    decreases i
  {
    if i != 0 {
      LeDigit(x / 256, n - 1, i - 1);
      DivTwice(x, 256, Pow256(i - 1));
    }
  }

  lemma {:induction false} FromLeBelow(s: seq<byte>)
    ensures FromLe(s) < Pow256(|s|)
  {
    if s != [] {
      FromLeBelow(s[1..]);
    }
  }

  lemma {:induction false} Pow256Of8()
    ensures Pow256(8) == 0x1_0000_0000_0000_0000
  {
    assert Pow256(4) == 0x1_0000_0000;
  }
}
