/**
 Block arithmetic of RFC 7959: block number k at size s starts at byte k * s
 (sections 2.2 and 2.4), and n bytes need BlockCount(n, s) blocks.
 */
module Blockwise {

  function BlockCount(n: nat, s: nat): nat
    requires s > 0
  {
    (n + s - 1) / s
  }

  lemma {:induction false} Scaled(a: nat, b: nat, s: nat)
    ensures a <= b ==> a * s <= b * s
    ensures a < b ==> a * s + s <= b * s
    decreases b
  {
    if a < b {
      Scaled(a, b - 1, s);
      assert b * s == (b - 1) * s + s;
    }
  }

  /** Byte i of block k is byte k * s + i of the representation, and of no other block. */
  lemma ByteOfBlock(k: nat, s: nat, i: nat)
    requires i < s
    ensures (k * s + i) / s == k && (k * s + i) % s == i
  {
    var x := k * s + i;
    var q, r := x / s, x % s;
    assert x == q * s + r;
    Scaled(q, k, s);
    Scaled(k, q, s);
  }

  lemma BlockOfByte(p: nat, k: nat, s: nat)
    requires s > 0
    ensures p / s == k <==> k * s <= p < k * s + s
    ensures p / s * s <= p
  {
    assert p == p / s * s + p % s;
    if k * s <= p < k * s + s {
      ByteOfBlock(k, s, p - k * s);
    }
  }

  /** Block k is the last of n bytes exactly when its end reaches n. */
  lemma LastBlock(n: nat, s: nat, k: nat)
    requires s > 0 && k * s < n
    ensures k < BlockCount(n, s)
    ensures n <= k * s + s <==> k + 1 == BlockCount(n, s)
  {
    var c, r := (n + s - 1) / s, (n + s - 1) % s;
    assert n + s - 1 == c * s + r;
    Scaled(c, k, s);
    Scaled(k + 1, c, s);
    assert (k + 1) * s == k * s + s;
  }

  /** Taking one full block away leaves the same remainder and one block less. */
  lemma OneBlockLess(n: nat, s: nat)
    requires 0 < s <= n
    ensures n % s == (n - s) % s
    ensures BlockCount(n, s) == 1 + BlockCount(n - s, s)
  {
    var q, r := (n - s) / s, (n - s) % s;
    assert n - s == q * s + r;
    assert (q + 1) * s + r == n by { assert (q + 1) * s == q * s + s; }
    ByteOfBlock(q + 1, s, r);
    ByteOfBlock(q, s, r);
    var c, d := (n - 1) / s, (n - 1) % s;
    assert n - 1 == c * s + d;
    assert n + s - 1 == (c + 1) * s + d by { assert (c + 1) * s == c * s + s; }
    ByteOfBlock(c + 1, s, d);
  }

  lemma ShortRest(n: nat, s: nat)
    requires n < s
    ensures n % s == n && BlockCount(n, s) == if n == 0 then 0 else 1
  {
    ByteOfBlock(0, s, n);
    if n == 0 {
      ByteOfBlock(0, s, s - 1);
    } else {
      ByteOfBlock(1, s, n - 1);
    }
  }
}
