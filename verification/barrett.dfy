/** bi_set_mod and bi_barrett: reduction with a precomputed reciprocal and truncated products. */
module Barrett {
  import opened Arithmetic
  import opened Limbs
  import opened BigInts
  import opened Multiplication
  import opened Division

  /** Everything bi_set_mod establishes for one modulus. */
  ghost predicate Ready(mod: Modulus)
    reads mod.Objects()
  {
    && mod.Divisor()
    && mod.mu != mod.bim && mod.mu != mod.normalised
    && mod.mu.Normal() && mod.mu.Value() == Pow(2 * |mod.bim.comps|) / mod.bim.Value()
    && |mod.bim.comps| <= 0x7FFF_FFFF
  }

  /** bi_set_mod. The size field is an int, so a bigint has fewer than 2^31 limbs. */
  method SetMod(bim: BigInt) returns (mod: Modulus)
    requires IsDivisor(bim.comps) && |bim.comps| <= 0x7FFF_FFFF
    modifies bim
    ensures mod.bim == bim && fresh(mod.normalised) && fresh(mod.mu)
    ensures bim.comps == old(bim.comps) && Ready(mod)
  {
    var k := |bim.comps|;
    var d := Normaliser(bim.comps[k - 1]);
    var normalised := IntMultiply(bim, d);
    var radix := new BigInt(2);
    radix.comps := [0, 1];
    ValSuffixStep(radix.comps, 1);
    assert radix.comps[1..] == [1] && radix.comps[2..] == [];
    LeftShift(radix, k * 2 - 1);
    RadixShift(2 * k);
    var mu := Divide(radix, bim, Modulus(bim, normalised, radix), false);
    mod := Modulus(bim, normalised, mu);
  }

  /** The estimate is never above the quotient: everything rounded down. */
  lemma EstimateBelow(x: nat, m: nat, P1: nat, P2: nat, mu: nat, q1: nat, q2: nat, q3: nat)
    requires P2 > 0
    requires q1 * P1 <= x && mu * m <= P1 * P2 && q2 <= q1 * mu && q3 * P2 <= q2
    ensures q3 * m <= x
  {
    MulMono(q3 * P2, q1 * mu, m);
    MulMono(mu * m, P1 * P2, q1);
    MulMono(q1 * P1, x, P2);
    calc {
      (q3 * m) * P2;
      (q3 * P2) * m;
    <=
      (q1 * mu) * m;
      q1 * (mu * m);
    <=
      q1 * (P1 * P2);
      (q1 * P1) * P2;
    <=
      x * P2;
    }
    if q3 * m > x {
      MulMono(x + 1, q3 * m, P2);
      MulDistrib(x, 1, P2);
    }
  }

  /** Nor is it more than three below it: one for each rounding and one for the dropped columns. */
  lemma EstimateAbove(x: nat, m: nat, P1: nat, P2: nat, mu: nat, q1: nat, q2: nat, dropped: nat, q3: nat)
    requires P1 > 0 && P2 > 0 && m > 0
    requires x < (q1 + 1) * P1 && P1 * P2 < (mu + 1) * m && q1 < P2 && mu <= P2
    requires q2 + dropped == q1 * mu && dropped < P2 && q2 < (q3 + 1) * P2
    ensures x < (q3 + 4) * m
  {
    ScaledByReciprocal(x, m, P1, P2, mu, q1);
    var prod := (q1 + 1) * (mu + 1);
    assert prod == q1 * mu + q1 + mu + 1 by {
      MulDistrib(q1, 1, mu + 1);
      MulDistrib(mu, 1, q1);
    }
    assert (q3 + 4) * P2 == (q3 + 1) * P2 + 3 * P2 by { MulDistrib(q3 + 1, 3, P2); }
    ProductBelow(x, m, P2, prod, q3 + 4);
  }

  lemma ScaledByReciprocal(x: nat, m: nat, P1: nat, P2: nat, mu: nat, q1: nat)
    requires x < (q1 + 1) * P1 && P1 * P2 < (mu + 1) * m
    ensures x * P2 <= ((q1 + 1) * (mu + 1)) * m
  {
    MulMono(x, (q1 + 1) * P1, P2);
    MulMono(P1 * P2, (mu + 1) * m, q1 + 1);
    assert ((q1 + 1) * P1) * P2 == (q1 + 1) * (P1 * P2);
    assert (q1 + 1) * ((mu + 1) * m) == ((q1 + 1) * (mu + 1)) * m;
  }

  lemma ProductBelow(x: nat, m: nat, P2: nat, prod: nat, q: nat)
    requires P2 > 0 && m > 0 && x * P2 <= prod * m && prod < q * P2
    ensures x < q * m
  {
    MulMono(prod + 1, q * P2, m);
    MulDistrib(prod, 1, m);
    assert (q * P2) * m == (q * m) * P2;
    MulCancelLess(x, q * m, P2);
  }

  /** The sizes of the factors of the estimate. */
  lemma FactorBounds(x: nat, m: seq<Limb>, mu: nat, q1: nat)
    requires IsDivisor(m) && x < Pow(2 * |m|)
    requires mu == Pow(2 * |m|) / Val(m) && q1 == x / Pow(|m| - 1)
    ensures Pow(2 * |m|) == Pow(|m| - 1) * Pow(|m| + 1)
    ensures q1 * Pow(|m| - 1) <= x < (q1 + 1) * Pow(|m| - 1) && q1 < Pow(|m| + 1)
    ensures mu * Val(m) <= Pow(2 * |m|) < (mu + 1) * Val(m) && mu <= Pow(|m| + 1)
  {
    var k := |m|;
    PowAdd(k - 1, k + 1);
    TrimmedLower(m);
    FloorBounds(x, Pow(k - 1));
    FloorBounds(Pow(2 * k), Val(m));
    if q1 >= Pow(k + 1) { MulMono(Pow(k + 1), q1, Pow(k - 1)); }
    if mu > Pow(k + 1) {
      MulMono(Pow(k + 1) + 1, mu, Val(m));
      MulMono(Pow(k - 1), Val(m), Pow(k + 1) + 1);
      MulDistrib(Pow(k + 1), 1, Pow(k - 1));
    }
  }

  lemma FloorBounds(x: nat, d: nat)
    requires d > 0
    ensures (x / d) * d <= x < (x / d + 1) * d
  {
    MulDistrib(x / d, 1, d);
    assert x == (x / d) * d + x % d;
  }

  /** The dropped columns are worth less than one unit of the estimate. */
  lemma DroppedSmall(k: nat, dropped: nat)
    requires 1 <= k <= 0x7FFF_FFFF
    requires k == 1 ==> dropped == 0
    requires k > 1 ==> dropped <= Shift(k - 2, k - 1)
    ensures dropped < Pow(k + 1)
  {
    if k > 1 {
      ShiftMono(k - 2, RADIX * RADIX, k - 1);
      ShiftUp(RADIX, k - 1);
      ShiftUp(1, k);
      ShiftOne(k + 1);
    }
  }

  /** q3 is the high part of the product q2 of the high limbs of x and mu, but for the columns dropped from it. */
  ghost predicate Rough(x: nat, mu: nat, k: nat, q2: nat, dropped: nat, q3: nat)
    requires k >= 1
  {
    && q2 + dropped == x / Pow(k - 1) * mu && q3 == q2 / Pow(k + 1)
    && (if k == 1 then dropped == 0 else dropped <= Shift(k - 2, k - 1))
  }

  /** The estimate from its factors q1 and mu. */
  lemma EstimateBetween(x: nat, m: seq<Limb>, mu: nat, q1: nat, q2: nat, dropped: nat, q3: nat)
    requires IsDivisor(m) && x < Pow(2 * |m|)
    requires mu == Pow(2 * |m|) / Val(m) && q1 == x / Pow(|m| - 1)
    requires q2 + dropped == q1 * mu && dropped < Pow(|m| + 1) && q3 == q2 / Pow(|m| + 1)
    ensures q3 * Val(m) <= x < (q3 + 4) * Val(m)
  {
    var k := |m|;
    hide Pow, Shift, Val;
    FactorBounds(x, m, mu, q1);
    FloorBounds(q2, Pow(k + 1));
    EstimateBelow(x, Val(m), Pow(k - 1), Pow(k + 1), mu, q1, q2, q3);
    EstimateAbove(x, Val(m), Pow(k - 1), Pow(k + 1), mu, q1, q2, dropped, q3);
  }

  /**
   * Barrett's estimate: from mu and the partial product, q3 lies between the true quotient minus
   * three and the true quotient (Handbook of Applied Cryptography, section 14.3.3, plus one for
   * the columns left out).
   */
  lemma BarrettEstimate(x: nat, m: seq<Limb>, mu: nat, q2: nat, dropped: nat, q3: nat)
    requires IsDivisor(m) && |m| <= 0x7FFF_FFFF && x < Pow(2 * |m|)
    requires mu == Pow(2 * |m|) / Val(m) && Rough(x, mu, |m|, q2, dropped, q3)
    ensures q3 * Val(m) <= x < (q3 + 4) * Val(m)
    ensures x / Val(m) - 3 <= q3 <= x / Val(m)
  {
    hide Pow, Shift, Val;
    DroppedSmall(|m|, dropped);
    EstimateBetween(x, m, mu, x / Pow(|m| - 1), q2, dropped, q3);
    QuotientBetween(x, Val(m), q3);
  }

  lemma QuotientBetween(x: nat, m: nat, q: nat)
    requires m > 0 && q * m <= x < (q + 4) * m
    ensures x / m - 3 <= q <= x / m
  {
    FloorBounds(x, m);
    if q > x / m { MulMono(x / m + 1, q, m); }
    if q + 4 <= x / m { MulMono(q + 4, x / m, m); }
  }

  /** Cutting a number to w limbs changes it by a multiple of RADIX^w. */
  lemma LowLimbs(s: seq<Limb>, w: nat) returns (hi: nat)
    ensures Val(s) == Val(s[..Min(w, |s|)]) + Shift(hi, w)
  {
    if |s| <= w {
      hi := 0;
      ShiftMono(0, 0, w);
      assert s[..|s|] == s;
    } else {
      hi := Val(s[w..]);
      ValSplit(s, w);
    }
  }

  /** Two numbers below RADIX^w that differ by a multiple of it are equal. */
  lemma SameModulo(r: int, e: int, t: int, w: nat)
    requires 0 <= r < Pow(w) && 0 <= e < Pow(w) && e == r + Shift(t, w)
    ensures e == r
  {
    ShiftOne(w);
    ShiftMono(1, t, w);
    ShiftMono(t, -1, w);
    ShiftAdd(1, -1, w);
    ShiftMono(0, 0, w);
  }

  lemma ShiftDifference(a: int, b: int, c: int, d: int, w: nat)
    ensures Shift(a - b - c - d, w) == Shift(a, w) - Shift(b, w) - Shift(c, w) - Shift(d, w)
  {
    ShiftAdd(a - b - c - d, d, w);
    ShiftAdd(a - b - c, c, w);
    ShiftAdd(a - b, b, w);
  }

  /** The truncated subtraction is right up to a multiple of RADIX^w, w being the limbs it works on. */
  lemma TruncatedDifference(x: seq<Limb>, p: seq<Limb>, above: int, q3m: nat, cut: nat, r: int, isNegative: bool)
    returns (t: int)
    requires |x| >= 1 && Val(p) + Shift(above, cut) == q3m
    requires r == Val(x[..Min(cut, |x|)]) - Val(p[..Min(Min(|x|, cut), |p|)])
             + (if isNegative then Pow(Min(|x|, cut)) else 0)
    ensures Val(x) - q3m == r + Shift(t, Min(|x|, cut))
  {
    var w := Min(|x|, cut);
    var hiP := LowLimbs(p, w);
    var hiX := LowLimbs(x, w);
    var t1: int, t2: int, t3: int := hiP, hiX, Shift(above, cut - w);
    ShiftShift(above, cut - w, w);
    var wrap: int := if isNegative then 1 else 0;
    ShiftOne(w);
    ShiftMono(0, 0, w);
    ShiftDifference(t2, t1, t3, wrap, w);
    t := t2 - t1 - t3 - wrap;
  }

  /** What is left after the estimate fits in the limbs the subtraction works on. */
  lemma RemainderFits(x: seq<Limb>, m: seq<Limb>, q3m: nat)
    requires q3m <= Val(x) < q3m + 4 * Val(m)
    ensures Val(x) - q3m < Pow(Min(|x|, |m| + 1))
  {
    ValBound(x);
    ValBound(m);
  }

  /** The low limbs that the two truncations and the subtraction leave of a product. */
  lemma LowOfLow(p: seq<Limb>, cut: nat, w: nat)
    requires w <= cut
    ensures p[..Min(cut, |p|)][..Min(w, Min(cut, |p|))] == p[..Min(w, |p|)]
  {}

  /** q3 of bi_barrett: the limbs of bi above k - 1 times mu, without the columns below k - 1, less k + 1 limbs. */
  method RoughQuotient(bi: BigInt, mu: BigInt, k: nat) returns (q3: BigInt, ghost q2: nat, ghost dropped: nat)
    requires bi.Normal() && mu.Normal() && k >= 1
    ensures fresh(q3) && q3.Normal() && Rough(bi.Value(), mu.Value(), k, q2, dropped, q3.Value())
  {
    hide Pow, Shift;
    var q1 := Clone(bi);
    RightShift(q1, k - 1);
    ghost var above;
    q3, dropped, above := RegularMultiply(q1, mu, 0, k - 1);
    ShiftMono(0, 0, 0);
    q2 := q3.Value();
    RightShift(q3, k + 1);
  }

  /** The estimate for a modulus with its mu. */
  method EstimateQuotient(mod: Modulus, bi: BigInt) returns (q3: BigInt)
    requires Ready(mod) && bi.Normal() && |bi.comps| <= 2 * |mod.bim.comps|
    ensures fresh(q3) && q3.Normal()
    ensures q3.Value() * mod.bim.Value() <= bi.Value() < (q3.Value() + 4) * mod.bim.Value()
    ensures mod.bim.Value() > 0 && bi.Value() / mod.bim.Value() - 3 <= q3.Value() <= bi.Value() / mod.bim.Value()
  {
    hide Pow, Shift, Val, Rough;
    var k := |mod.bim.comps|;
    ValBound(bi.comps);
    PowMono(|bi.comps|, 2 * k);
    ghost var q2, dropped;
    q3, q2, dropped := RoughQuotient(bi, mod.mu, k);
    BarrettEstimate(bi.Value(), mod.bim.comps, mod.mu.Value(), q2, dropped, q3.Value());
  }

  /** The inner partial product q3 * bim modulo RADIX^(k + 1), taken from the low limbs of bi. */
  method SubtractLow(bi: BigInt, q3: BigInt, bim: BigInt) returns (ghost t: int)
    requires bi != bim && bi != q3 && |bi.comps| >= 1 && |q3.comps| >= 1 && |bim.comps| >= 1
    modifies bi
    ensures bi.Normal() && |bi.comps| <= Min(|old(bi.comps)|, |bim.comps| + 1)
    ensures old(bi.Value()) - q3.Value() * bim.Value() == bi.Value() + Shift(t, Min(|old(bi.comps)|, |bim.comps| + 1))
  {
    hide Shift, Pow, Val;
    var k := |bim.comps|;
    ghost var x := bi.comps;
    CompMod(bi, k + 1);
    ghost var dropped, above;
    var r2;
    r2, dropped, above := RegularMultiply(q3, bim, k + 1, 0);
    ghost var p := r2.comps;
    CompMod(r2, k + 1);
    LowOfLow(p, k + 1, |bi.comps|);
    var isNegative := Subtract(bi, r2);
    t := TruncatedDifference(x, p, above, q3.Value() * bim.Value(), k + 1, bi.Value(), isNegative);
  }

  /** For an estimate that is at most three too small, nothing is lost. */
  method SubtractEstimate(bi: BigInt, q3: BigInt, bim: BigInt)
    requires bi != bim && bi != q3 && |bi.comps| >= 1 && |q3.comps| >= 1 && bim.Normal() && bim.Value() > 0
    requires q3.Value() * bim.Value() <= bi.Value() < (q3.Value() + 4) * bim.Value()
    modifies bi
    ensures bi.Normal()
    ensures bi.Value() == old(bi.Value()) - q3.Value() * bim.Value()
    ensures bi.Value() < 4 * bim.Value()
    ensures bi.Value() % bim.Value() == old(bi.Value()) % bim.Value()
    ensures bi.Value() >= bim.Value() ==> (bi.Value() - bim.Value()) % bim.Value() == old(bi.Value()) % bim.Value()
  {
    ghost var x := bi.comps;
    ghost var t := SubtractLow(bi, q3, bim);
    RemainderOf(x, bim.comps, q3.Value(), bi.comps, t);
  }

  /**
   * bi_barrett: bi reduced by the modulus. Numbers of more than 2k limbs go to bi_divide; otherwise
   * the result is congruent and below three times the modulus. bi is consumed.
   */
  method Reduce(mod: Modulus, bi: BigInt) returns (r: BigInt)
    requires Ready(mod) && bi.Normal() && bi !in mod.Objects()
    modifies bi, mod.bim, mod.normalised
    ensures mod.bim.comps == old(mod.bim.comps) && mod.normalised.comps == old(mod.normalised.comps)
    ensures r == bi || fresh(r)
    ensures r.Normal() && r.Value() < 3 * mod.bim.Value()
    ensures r.Value() % mod.bim.Value() == old(bi.Value()) % mod.bim.Value()
  {
    var bim := mod.bim;
    var k := |bim.comps|;
    if |bi.comps| > k * 2 {
      ghost var x := bi.Value();
      r := Divide(bi, bim, mod, true);
      DivModUnique(x % bim.Value(), bim.Value(), 0, x % bim.Value());
      return;
    }
    var q3 := EstimateQuotient(mod, bi);
    SubtractEstimate(bi, q3, bim);
    r := bi;
    var c := Compare(r, bim);
    if c >= 0 {
      assert bim.comps[..|bim.comps|] == bim.comps;
      var _ := Subtract(r, bim);
    }
  }

  /** The subtraction leaves x - q * m, which is congruent to x and below four times the modulus. */
  lemma RemainderOf(x: seq<Limb>, m: seq<Limb>, q: nat, r: seq<Limb>, t: int)
    requires |x| >= 1 && |m| >= 1 && Val(m) > 0
    requires q * Val(m) <= Val(x) < (q + 4) * Val(m)
    requires |r| <= Min(|x|, |m| + 1) && Val(x) - q * Val(m) == Val(r) + Shift(t, Min(|x|, |m| + 1))
    ensures Val(r) == Val(x) - q * Val(m) && Val(r) < 4 * Val(m)
    ensures Val(r) % Val(m) == Val(x) % Val(m)
    ensures Val(r) >= Val(m) ==> (Val(r) - Val(m)) % Val(m) == Val(x) % Val(m)
  {
    hide Shift, Val;
    var q3m, w := q * Val(m), Min(|x|, |m| + 1);
    MulDistrib(q, 4, Val(m));
    RemainderFits(x, m, q3m);
    ValBound(r);
    PowMono(|r|, w);
    SameModulo(Val(r), Val(x) - q3m, t, w);
    SubtractMultiple(Val(x), q, Val(m));
    MulDistrib(q, 1, Val(m));
    SubtractMultiple(Val(x), q + 1, Val(m));
  }

  lemma SubtractMultiple(x: int, q: int, m: int)
    requires m > 0
    ensures (x - q * m) % m == x % m
  {
    MulDistrib(x / m, -q, m);
    DivModUnique(x - q * m, m, x / m - q, x % m);
  }
}
