/** bi_barrett with a modulus of the context that bi_add has padded with a leading zero limb. */
module PaddedModulus {
  import opened Arithmetic
  import opened Limbs
  import opened BigInts
  import opened Multiplication
  import opened Division
  import opened Barrett

  /** The modulus m with a leading zero; its mu is still that of m. */
  ghost predicate Padded(mod: Modulus, m: seq<Limb>)
    reads mod.Objects()
  {
    && IsDivisor(m) && mod.bim.comps == m + [0]
    && mod.mu != mod.bim && mod.mu != mod.normalised && mod.bim != mod.normalised
    && mod.mu.Normal() && mod.mu.Value() == Pow(2 * |m|) / Val(m)
  }

  lemma PaddedValue(m: seq<Limb>)
    ensures Val(m + [0]) == Val(m)
  {
    ValAppend(m, 0);
    ShiftMono(0, 0, |m|);
  }

  /** With the size of the padded modulus the estimate is too small by two powers of the radix. */
  lemma EstimateFarBelow(x: nat, m: seq<Limb>, mu: nat, q2: nat, dropped: nat, q3: nat)
    requires IsDivisor(m) && mu == Pow(2 * |m|) / Val(m) && Rough(x, mu, |m| + 1, q2, dropped, q3)
    ensures q3 * Val(m) * Pow(2) <= x
  {
    hide Pow, Val, Shift, IsDivisor;
    FarBelow(x, m, mu, x / Pow(|m|), q2, dropped, q3);
  }

  lemma FarBelow(x: nat, m: seq<Limb>, mu: nat, q1: nat, q2: nat, dropped: nat, q3: nat)
    requires IsDivisor(m) && mu == Pow(2 * |m|) / Val(m) && q1 == x / Pow(|m|)
    requires q2 + dropped == q1 * mu && q3 == q2 / Pow(|m| + 2)
    ensures q3 * Val(m) * Pow(2) <= x
  {
    var k, q := |m|, q3 * Pow(2);
    hide Pow, Val, Trimmed, Top;
    FloorBounds(x, Pow(k));
    FloorBounds(Pow(2 * k), Val(m));
    FloorBounds(q2, Pow(k + 2));
    PowAdd(k, k);
    PowAdd(2, k);
    MulAssoc(q3, Pow(2), Pow(k));
    EstimateBelow(x, Val(m), Pow(k), Pow(k), mu, q1, q2, q);
    Exchange(q3, Pow(2), Val(m));
  }

  lemma Exchange(a: int, b: int, c: int)
    ensures a * b * c == a * c * b
  {}

  /** A number of one limb more than the subtraction works on, and larger than that, loses its upper part. */
  lemma PartLost(x: nat, sub: nat, r: nat, w: nat, t: int)
    requires sub * Pow(2) <= x && x - sub == r + Shift(t, w) && r < Pow(w)
    ensures t >= 0
    ensures x < Pow(w) ==> t == 0
    ensures x >= 2 * Pow(w) ==> t >= 1
  {
    assert Pow(2) == RADIX * RADIX * 1 by { assert Pow(1) == RADIX && Pow(0) == 1; }
    assert 2 * sub <= x;
    ShiftOne(w);
    ShiftMono(t, -1, w);
    ShiftAdd(1, -1, w);
    ShiftMono(0, 0, w);
    ShiftMono(1, t, w);
    ShiftMono(t, 0, w);
  }

  lemma LostPart(x: seq<Limb>, m: seq<Limb>, q3: nat, r: seq<Limb>, t: int) returns (lost: nat)
    requires IsDivisor(m) && q3 * Val(m) * Pow(2) <= Val(x)
    requires |r| <= Min(|x|, |m| + 2) && Val(x) - q3 * Val(m) == Val(r) + Shift(t, Min(|x|, |m| + 2))
    ensures Val(r) + Shift(lost, |m| + 2) == Val(x) - q3 * Val(m)
    ensures (Val(r) + Shift(lost, |m| + 2)) % Val(m) == Val(x) % Val(m)
    ensures |x| <= |m| + 2 ==> lost == 0
    ensures Val(x) >= 2 * Pow(|m| + 2) ==> lost >= 1
  {
    hide Pow, Shift, Val;
    var w := Min(|x|, |m| + 2);
    ValBound(r);
    PowMono(|r|, w);
    PartLost(Val(x), q3 * Val(m), Val(r), w, t);
    ValBound(x);
    if |x| <= |m| + 2 {
      lost := 0;
      PowMono(|x|, |m| + 2);
      ShiftMono(0, 0, w);
      ShiftMono(0, 0, |m| + 2);
    } else {
      lost := t;
    }
    SubtractMultiple(Val(x), q3, Val(m));
  }

  /** The last subtraction of bi_barrett, which also trims the modulus. */
  method SubtractModulus(r: BigInt, bim: BigInt, ghost m: seq<Limb>)
    requires IsDivisor(m) && bim.comps == m + [0] && r != bim && r.Normal() && |r.comps| >= |bim.comps|
    modifies r, bim
    ensures r.Normal() && r.Value() == old(r.Value()) - Val(m)
    ensures bim.comps == m
  {
    hide Pow, Shift, Val;
    PaddedValue(m);
    ShorterIsLess(m, r.comps);
    assert (m + [0])[..|m| + 1] == m + [0];
    var _ := Subtract(r, bim);
    TrimmedUnique(bim.comps, m);
  }

  /**
   * bi_barrett with a padded modulus, for numbers of at most twice its limbs. What is subtracted is a
   * multiple of the modulus far below the number, and what is left is cut to two limbs more than m has:
   * `lost` times that power of the radix is missing. The modulus may be trimmed on the way.
   */
  method ReducePadded(mod: Modulus, bi: BigInt, ghost m: seq<Limb>) returns (r: BigInt, ghost lost: nat)
    requires Padded(mod, m) && bi.Normal() && bi !in mod.Objects() && |bi.comps| <= 2 * |mod.bim.comps|
    modifies bi, mod.bim
    ensures r == bi && r.Normal()
    ensures (r.Value() + Shift(lost, |m| + 2)) % Val(m) == old(bi.Value()) % Val(m)
    ensures |old(bi.comps)| <= |m| + 2 ==> lost == 0
    ensures old(bi.Value()) >= 2 * Pow(|m| + 2) ==> lost >= 1
    ensures mod.bim.comps == m || mod.bim.comps == m + [0]
  {
    hide Pow, Shift, Val, Rough;
    PaddedValue(m);
    var bim, k := mod.bim, |mod.bim.comps|;
    ghost var x := bi.comps;
    ghost var q2, dropped;
    var q3;
    q3, q2, dropped := RoughQuotient(bi, mod.mu, k);
    EstimateFarBelow(Val(x), m, mod.mu.Value(), q2, dropped, q3.Value());
    ghost var t := SubtractLow(bi, q3, bim);
    r := bi;
    lost := LostPart(x, m, q3.Value(), r.comps, t);
    var c := Compare(r, bim);
    if c >= 0 {
      SubtractModulus(r, bim, m);
      assert r.Value() + Shift(lost, |m| + 2)
          == Val(x) - (q3.Value() + 1) * Val(m) by { MulDistrib(q3.Value(), 1, Val(m)); }
      SubtractMultiple(Val(x), q3.Value() + 1, Val(m));
    }
  }
}
