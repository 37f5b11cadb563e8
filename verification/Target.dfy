/** The share target for a miner's work, from the integer product of hash rate and share interval. */
module Target {
  import opened Bytes

  const U128: nat := 0x1_0000_0000_0000_0000_0000_0000_0000_0000
  // The number of hash values.
  const SPACE: nat := U128 * U128

  lemma SpaceIsPow()
    ensures Pow256(16) == U128 && Pow256(32) == SPACE
  {
    assert Pow256(8) == 0x1_0000_0000_0000_0000;
    assert Pow256(16) == U128;
    assert Pow256(24) == U128 * 0x1_0000_0000_0000_0000;
  }

  // The expected number of hashes before one at or under `t`, times `t + 1`, is `SPACE - (t + 1)`: a
  // target allows for `work` hashes when that many are not too many.
  predicate AllowsFor(t: nat, work: nat) {
    work * (t + 1) <= SPACE - (t + 1)
  }

  // The division of `hash_rate_to_target`. The addition wraps at 128 bits.
  function Quotient(work: nat): nat
    requires work < U128
  {
    var next := (work + 1) % U128;
    var denominator := if work > next then work else next;
    (SPACE - 1 - work) / denominator
  }

  lemma DivisionBounds(w: nat, d: nat)
    requires d > 0
    ensures d * (w / d) <= w < d * (w / d + 1)
  {
  }

  lemma MulMonotone(d: nat, a: nat, b: nat)
    ensures a <= b ==> d * a <= d * b
  {
  }

  lemma DivisionLargest(w: nat, d: nat, q: nat)
    requires d > 0 && d * q <= w
    ensures q <= w / d
  {
    var k := w / d + 1;
    DivisionBounds(w, d);
    MulMonotone(d, k, q);
  }

  lemma OneLess(w: nat, d: nat)
    requires 0 < d <= w
    ensures (w - d) / d == w / d - 1
  {
    DivisionBounds(w - d, d);
    DivisionLargest(w, d, (w - d) / d + 1);
    DivisionBounds(w, d);
    DivisionLargest(w - d, d, w / d - 1);
  }

  // In closed form, below the one value where the addition wraps.
  lemma QuotientClosed(work: nat)
    requires work < U128 - 1
    ensures Quotient(work) == SPACE / (work + 1) - 1
    ensures Quotient(work) < SPACE
  {
    assert (work + 1) % U128 == work + 1;
    OneLess(SPACE, work + 1);
    DivisionBounds(SPACE, work + 1);
  }

  lemma AllowsForIsProduct(t: nat, work: nat)
    ensures AllowsFor(t, work) <==> (work + 1) * (t + 1) <= SPACE
  {
  }

  // The target is the largest that allows for the work.
  ghost predicate Optimal(t: nat, work: nat) {
    AllowsFor(t, work) && forall u: nat :: AllowsFor(u, work) ==> u <= t
  }

  // It is optimal exactly when the addition does not wrap.
  lemma OptimalExactly(work: nat)
    requires work < U128
    ensures Optimal(Quotient(work), work) <==> work != U128 - 1
  {
    if work == U128 - 1 {
      WrappedQuotient();
      AllowsForIsProduct(U128, work);
    } else {
      QuotientClosed(work);
      var t := Quotient(work);
      DivisionBounds(SPACE, work + 1);
      AllowsForIsProduct(t, work);
      forall u: nat | AllowsFor(u, work) ensures u <= t {
        AllowsForIsProduct(u, work);
        DivisionLargest(SPACE, work + 1, u + 1);
      }
    }
  }

  // At the largest work the denominator is one too small, and so the target one too large.
  lemma WrappedQuotient()
    ensures Quotient(U128 - 1) == U128
  {
  }

  // More work, a strictly smaller target.
  lemma StrictlyDecreasing(less: nat, more: nat)
    requires less < more < U128 - 1
    ensures Quotient(more) < Quotient(less)
  {
    QuotientClosed(less);
    QuotientClosed(more);
    var a, b := less + 1, more + 1;
    var q := SPACE / b;
    DivisionBounds(SPACE, b);
    // a * (q + 1) <= SPACE, because q >= a
    assert b * a <= SPACE by { Squares(a, b); }
    DivisionLargest(SPACE, b, a);
    assert a * (q + 1) <= b * q by { Exchange(a, b, q); }
    DivisionLargest(SPACE, a, q + 1);
  }

  lemma Squares(a: nat, b: nat)
    requires a <= U128 && b <= U128
    ensures b * a <= SPACE
  {
    assert b * a <= U128 * a;
    assert U128 * a <= U128 * U128;
  }

  lemma Exchange(a: nat, b: nat, q: nat)
    requires a < b && a <= q
    ensures a * (q + 1) <= b * q
  {
    MulMonotone(q, a + 1, b);
    assert a * (q + 1) == a * q + a;
    assert q * (a + 1) == a * q + q;
  }

  lemma {:induction false} LeadingZeroBytes(k: nat, b: bytes)
    ensures BeNat(Zeros(k) + b) == BeNat(b)
    decreases k + |b|
  {
    var all := Zeros(k) + b;
    if b != [] {
      assert all[..|all| - 1] == Zeros(k) + b[..|b| - 1];
      LeadingZeroBytes(k, b[..|b| - 1]);
    } else if k > 0 {
      assert all[..k - 1] == Zeros(k - 1) + [];
      LeadingZeroBytes(k - 1, []);
    }
  }

  // `from_u128_to_u256`
  method FromU128ToU256(input: nat) returns (v: nat)
    requires input < U128
    ensures v == input
  {
    hide BeNat, BeBytes, Pow256;
    var digits := BeBytes(input, 16);
    var wide := new byte[32](_ => 0);
    for i := 0 to 16
      invariant wide[..16] == Zeros(16) && wide[16..16 + i] == digits[..i]
    {
      wide[16 + i] := digits[i];
    }
    v := BeNat(wide[..]);
    assert wide[..] == Zeros(16) + digits;
    LeadingZeroBytes(16, digits);
    SpaceIsPow();
    BeNatOfBeBytes(input, 16);
  }

  // `hash_rate_to_target`, from the product on: 32 bytes that read, least significant first, as the
  // largest target that allows for the work.
  method HashRateToTarget(work: nat) returns (target: bytes)
    requires work < U128
    ensures |target| == 32 && LeNat(target) == Quotient(work)
    ensures work < U128 - 1 ==> Optimal(LeNat(target), work)
  {
    hide BeNat, LeNat, BeBytes, Pow256, Optimal;
    var next := (work + 1) % U128;
    var denominator := FromU128ToU256(if work > next then work else next);
    var digits := BeBytes(work, 16);
    SpaceIsPow();
    BeNatOfBeBytes(work, 16);
    LeadingZeroBytes(16, digits);
    var numerator := SPACE - 1 - BeNat(Zeros(16) + digits);
    var quotient := numerator / denominator;
    target := Reverse(BeBytes(quotient, 32));
    QuotientFits(work);
    LeNatOfReverse(BeBytes(quotient, 32));
    BeNatOfBeBytes(quotient, 32);
    OptimalExactly(work);
  }

  lemma QuotientFits(work: nat)
    requires work < U128
    ensures Quotient(work) < SPACE
  {
    if work == U128 - 1 { WrappedQuotient(); } else { QuotientClosed(work); }
  }
}
