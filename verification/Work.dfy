/** The ehash earned by a share: a power of two for its leading zero bits. */
module Work {
  import opened Bytes

  ghost function Pow2(n: nat): (p: nat)
    ensures p > 0
  {
    if n == 0 then 1 else 2 * Pow2(n - 1)
  }

  lemma {:induction false} Pow2Sum(m: nat, n: nat)
    ensures Pow2(m + n) == Pow2(m) * Pow2(n)
    decreases n
  {
    if n > 0 {
      Pow2Sum(m, n - 1);
      assert Pow2(m) * (2 * Pow2(n - 1)) == 2 * (Pow2(m) * Pow2(n - 1));
    }
  }

  lemma {:induction false} Pow2Monotone(m: nat, n: nat)
    ensures m <= n <==> Pow2(m) <= Pow2(n)
    decreases m + n
  {
    if m > 0 && n > 0 {
      Pow2Monotone(m - 1, n - 1);
    }
  }

  lemma {:induction false} Pow2OfBytes(k: nat)
    ensures Pow2(8 * k) == Pow256(k)
  {
    if k > 0 {
      Pow2OfBytes(k - 1);
      Pow2Sum(8 * (k - 1), 8);
      assert Pow2(8) == 256;
    }
  }

  // `u8::leading_zeros`
  function LeadingZeros(b: byte): (n: nat)
    ensures n <= 8
  {
    if b >= 128 then 0 else if b >= 64 then 1 else if b >= 32 then 2 else if b >= 16 then 3
    else if b >= 8 then 4 else if b >= 4 then 5 else if b >= 2 then 6 else if b >= 1 then 7 else 8
  }

  lemma LeadingZerosBound(b: byte)
    requires b > 0
    ensures LeadingZeros(b) < 8
    ensures Pow2(7 - LeadingZeros(b)) <= b as nat < Pow2(8 - LeadingZeros(b))
  {
    assert Pow2(3) == 8 && Pow2(6) == 64;
  }

  // Leading zero bits of a whole string of bytes.
  function Difficulty(hash: bytes): nat {
    if hash == [] then 0 else if hash[0] == 0 then 8 + Difficulty(hash[1..]) else LeadingZeros(hash[0])
  }

  // `calculate_difficulty`, for any length; the loop breaks at the first byte that is not zero.
  method CalculateDifficulty(hash: bytes) returns (count: nat)
    ensures count == Difficulty(hash)
  {
    count := 0;
    var i := 0;
    while i < |hash|
      invariant i <= |hash| && count + Difficulty(hash[i..]) == Difficulty(hash)
    {
      var b := hash[i];
      assert hash[i..][1..] == hash[i + 1..];
      if b == 0 {
        count := count + 8;
      } else {
        count := count + LeadingZeros(b);
        return;
      }
      i := i + 1;
    }
  }

  lemma {:induction false} FirstByte(b: bytes)
    requires b != []
    ensures BeNat(b) == b[0] as nat * Pow256(|b| - 1) + BeNat(b[1..])
  {
    if |b| > 1 {
      var front := b[..|b| - 1];
      FirstByte(front);
      assert b[1..][..|b| - 2] == front[1..];
      Distribute(b[0] as nat, Pow256(|b| - 2), BeNat(front[1..]));
    }
  }

  lemma Distribute(x: nat, p: nat, r: nat)
    ensures 256 * (x * p + r) == x * (256 * p) + 256 * r
  {
  }

  // The number read big-endian has exactly that many bits to spare.
  lemma {:induction false} DifficultyBounds(hash: bytes)
    ensures Difficulty(hash) <= 8 * |hash|
    ensures BeNat(hash) < Pow2(8 * |hash| - Difficulty(hash))
    ensures Difficulty(hash) < 8 * |hash| ==> Pow2(8 * |hash| - 1 - Difficulty(hash)) <= BeNat(hash)
    ensures Difficulty(hash) == 8 * |hash| ==> BeNat(hash) == 0
  {
    if hash != [] {
      var rest := hash[1..];
      FirstByte(hash);
      if hash[0] == 0 {
        DifficultyBounds(rest);
      } else {
        var k, b := |rest|, hash[0] as nat;
        var z := LeadingZeros(hash[0]);
        LeadingZerosBound(hash[0]);
        Pow2OfBytes(k);
        Pow2Sum(8 - z, 8 * k);
        Pow2Sum(7 - z, 8 * k);
        Scaled(b, Pow2(7 - z), Pow2(8 - z), Pow256(k), BeNat(rest));
      }
    }
  }

  lemma Scaled(b: nat, low: nat, high: nat, unit: nat, rest: nat)
    requires low <= b < high && rest < unit
    ensures low * unit <= b * unit + rest < high * unit
  {
    assert low * unit <= b * unit;
    assert (b + 1) * unit <= high * unit;
  }

  const CAP: nat := 63

  // `calculate_ehash_amount` from the difficulty
  ghost function Amount(difficulty: nat, least: nat): nat {
    if difficulty < least then 0
    else if difficulty - least >= CAP then Pow2(CAP) else Pow2(difficulty - least)
  }

  // `1u64 << n`
  method ShiftOne(n: nat) returns (r: nat)
    requires n <= CAP
    ensures r == Pow2(n)
  {
    r := 1;
    for i := 0 to n
      invariant r == Pow2(i)
    {
      r := 2 * r;
    }
  }

  // `calculate_ehash_amount`
  method CalculateEhashAmount(hash: bytes, least: nat) returns (amount: nat)
    requires |hash| == 32
    ensures amount == Amount(Difficulty(hash), least)
  {
    var leadingZeroBits := CalculateDifficulty(hash);
    if leadingZeroBits < least {
      return 0;
    }
    var relative := leadingZeroBits - least;
    if relative >= CAP {
      amount := ShiftOne(CAP);
    } else {
      amount := ShiftOne(relative);
    }
  }

  lemma AmountIsPower(difficulty: nat, least: nat)
    ensures var a := Amount(difficulty, least);
            a == 0 || exists j :: 0 <= j <= CAP && a == Pow2(j) && j + least <= difficulty
  {
    if difficulty >= least {
      var j := if difficulty - least >= CAP then CAP else difficulty - least;
      assert Amount(difficulty, least) == Pow2(j);
    }
  }

  // In numbers: nothing below the threshold, twice as much for each bit above it, and 2^63 from 63
  // bits on.
  lemma AmountCapped(difficulty: nat, least: nat)
    ensures difficulty < least ==> Amount(difficulty, least) == 0
    ensures Amount(least, least) == 1
    ensures least < difficulty <= least + 63 ==> Amount(difficulty, least) == 2 * Amount(difficulty - 1, least)
    ensures difficulty >= least + 63 ==> Amount(difficulty, least) == 0x8000_0000_0000_0000
  {
    assert Pow2(16) == 0x1_0000;
    Pow2Sum(16, 16);
    Pow2Sum(32, 16);
    Pow2Sum(48, 15);
    assert Pow2(15) == 0x8000;
  }

  // A harder hash never earns less.
  lemma AmountAntitone(easy: bytes, hard: bytes, least: nat)
    requires |easy| == |hard| && BeNat(hard) <= BeNat(easy)
    ensures Amount(Difficulty(easy), least) <= Amount(Difficulty(hard), least)
  {
    hide Pow2, Difficulty, BeNat;
    DifficultyAntitone(easy, hard);
    var e, h := Difficulty(easy), Difficulty(hard);
    if e >= least {
      Pow2Monotone(if e - least >= CAP then CAP else e - least, if h - least >= CAP then CAP else h - least);
    }
  }

  lemma DifficultyAntitone(easy: bytes, hard: bytes)
    requires |easy| == |hard| && BeNat(hard) <= BeNat(easy)
    ensures Difficulty(easy) <= Difficulty(hard)
  {
    hide Pow2, BeNat;
    DifficultyBounds(easy);
    DifficultyBounds(hard);
    var bits, e, h := 8 * |easy|, Difficulty(easy), Difficulty(hard);
    if e > h {
      Pow2Monotone(bits - e, bits - 1 - h);
      assert false;
    }
  }

  // What is earned is paid for: with V the hash read big-endian, the amount times 2^least times V
  // stays below 2^256.
  lemma AmountBounded(hash: bytes, least: nat)
    ensures var a := Amount(Difficulty(hash), least);
            a > 0 ==> a * Pow2(least) * BeNat(hash) < Pow2(8 * |hash|)
  {
    hide Pow2, BeNat;
    DifficultyBounds(hash);
    var bits, d, v := 8 * |hash|, Difficulty(hash), BeNat(hash);
    if d >= least {
      var j := if d - least >= CAP then CAP else d - least;
      Pow2Sum(j, least);
      Pow2Monotone(j + least, d);
      Pow2Sum(d, bits - d);
      ProductBelow(Pow2(j + least), Pow2(d), v, Pow2(bits - d));
    }
  }

  lemma ProductBelow(a: nat, b: nat, v: nat, w: nat)
    requires 0 < a <= b && v < w
    ensures a * v < b * w
  {
    assert a * v <= b * v;
    assert b * v < b * w;
  }

  // And nothing more would be: a power of two up to the cap that also stays below is no larger. For
  // the zero hash, which is below everything, the bits themselves are the limit.
  lemma AmountLargest(hash: bytes, least: nat, j: nat)
    requires j <= CAP && (BeNat(hash) > 0 || j + least <= 8 * |hash|)
    requires Pow2(j + least) * BeNat(hash) < Pow2(8 * |hash|)
    ensures Pow2(j) <= Amount(Difficulty(hash), least)
  {
    hide Pow2, BeNat, Difficulty;
    DifficultyCovers(hash, j + least);
    var d := Difficulty(hash);
    Pow2Monotone(j, if d - least >= CAP then CAP else d - least);
  }

  lemma DifficultyCovers(hash: bytes, n: nat)
    requires BeNat(hash) > 0 || n <= 8 * |hash|
    requires Pow2(n) * BeNat(hash) < Pow2(8 * |hash|)
    ensures n <= Difficulty(hash)
  {
    hide Pow2, BeNat, Difficulty;
    DifficultyBounds(hash);
    var bits, d, v := 8 * |hash|, Difficulty(hash), BeNat(hash);
    if d < n && d < bits {
      Pow2Monotone(d + 1, n);
      Pow2Sum(d + 1, bits - 1 - d);
      ProductAtMost(Pow2(d + 1), Pow2(n), Pow2(bits - 1 - d), v);
      assert false;
    }
  }

  lemma ProductAtMost(a: nat, b: nat, v: nat, w: nat)
    requires a <= b && v <= w
    ensures a * v <= b * w
  {
    assert a * v <= b * v;
    assert b * v <= b * w;
  }
}
