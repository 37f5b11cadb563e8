/** Bytes, fixed-width integers on the wire, and the usual failure-carrying value. */
module Bytes {

  newtype byte = x: int | 0 <= x < 256

  type bytes = seq<byte>

  datatype Option<+T> = None | Some(value: T)

  function Min(a: nat, b: nat): nat {
    if a < b then a else b
  }

  function Zeros(k: nat): (z: bytes)
    ensures |z| == k
    ensures forall i :: 0 <= i < k ==> z[i] == 0
  {
    seq(k, _ => 0)
  }

  lemma SliceOfConcat(a: bytes, b: bytes)
    ensures (a + b)[..|a|] == a && (a + b)[|a|..|a| + |b|] == b
  {
  }

  ghost function Pow256(k: nat): (r: nat)
    ensures r > 0
  {
    if k == 0 then 1 else 256 * Pow256(k - 1)
  }

  // The widths in use.
  lemma Widths()
    ensures Pow256(2) == 0x1_0000 && Pow256(4) == 0x1_0000_0000 && Pow256(8) == 0x1_0000_0000_0000_0000
  {
    assert Pow256(2) == 0x1_0000;
    assert Pow256(4) == 0x1_0000_0000;
  }

  // The digit of weight 256^i.
  function Digit(n: nat, i: nat): byte
    decreases i, n
  {
    if i == 0 then (n % 256) as byte else Digit(n / 256, i - 1)
  }

  // `to_le_bytes` of an integer `k` bytes wide; higher digits are dropped.
  function LeBytes(n: nat, k: nat): (b: bytes)
    ensures |b| == k
  {
    seq(k, i requires 0 <= i < k => Digit(n, i))
  }

  // `from_le_bytes`.
  function LeNat(b: bytes): (n: nat)
    ensures n < Pow256(|b|)
  {
    if b == [] then 0 else b[0] as nat + 256 * LeNat(b[1..])
  }

  lemma {:induction false} LeNatOfLeBytes(n: nat, k: nat)
    requires n < Pow256(k)
    ensures LeNat(LeBytes(n, k)) == n
  {
    if k > 0 {
      LeNatOfLeBytes(n / 256, k - 1);
      assert LeBytes(n, k)[1..] == LeBytes(n / 256, k - 1);
    }
  }

  lemma {:induction false} LeBytesOfLeNat(b: bytes)
    ensures LeBytes(LeNat(b), |b|) == b
  {
    if b != [] {
      LeBytesOfLeNat(b[1..]);
      assert LeNat(b) % 256 == b[0] as nat && LeNat(b) / 256 == LeNat(b[1..]);
      assert b == [b[0]] + b[1..];
    }
  }

  lemma LeBytesInjective(m: nat, n: nat, k: nat)
    requires m < Pow256(k) && n < Pow256(k)
    requires LeBytes(m, k) == LeBytes(n, k)
    ensures m == n
  {
    LeNatOfLeBytes(m, k);
    LeNatOfLeBytes(n, k);
  }

  function Reverse(b: bytes): (r: bytes)
    ensures |r| == |b|
    ensures forall i :: 0 <= i < |b| ==> r[i] == b[|b| - 1 - i]
  {
    seq(|b|, i requires 0 <= i < |b| => b[|b| - 1 - i])
  }

  // `to_be_bytes`.
  function BeBytes(n: nat, k: nat): (b: bytes)
    ensures |b| == k
  {
    Reverse(LeBytes(n, k))
  }

  // `from_be_bytes`.
  function BeNat(b: bytes): (n: nat)
    ensures n < Pow256(|b|)
  {
    if b == [] then 0 else 256 * BeNat(b[..|b| - 1]) + b[|b| - 1] as nat
  }

  // Reversing a big-endian number gives the little-endian one.
  lemma {:induction false} LeNatOfReverse(b: bytes)
    ensures LeNat(Reverse(b)) == BeNat(b)
  {
    if b != [] {
      LeNatOfReverse(b[..|b| - 1]);
      assert Reverse(b)[1..] == Reverse(b[..|b| - 1]);
    }
  }

  lemma BeNatOfBeBytes(n: nat, k: nat)
    requires n < Pow256(k)
    ensures BeNat(BeBytes(n, k)) == n
  {
    LeNatOfReverse(BeBytes(n, k));
    assert Reverse(BeBytes(n, k)) == LeBytes(n, k);
    LeNatOfLeBytes(n, k);
  }

  lemma BeBytesOfBeNat(b: bytes)
    ensures BeBytes(BeNat(b), |b|) == b
  {
    LeNatOfReverse(b);
    LeBytesOfLeNat(Reverse(b));
    assert Reverse(Reverse(b)) == b;
  }
}
