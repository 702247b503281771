/** bi_mod_power and bi_crt: exponentiation by the exponent's bits, and RSA's recombination. */
module ModPower {
  import opened Arithmetic
  import opened Limbs
  import opened BigInts
  import opened Multiplication
  import opened Division
  import opened Barrett

  /** base to the power e. */
  function Power(base: nat, e: nat): nat {
    if e == 0 then 1 else base * Power(base, e - 1)
  }

  lemma {:induction false} PowerAdd(base: nat, a: nat, b: nat)
    ensures Power(base, a + b) == Power(base, a) * Power(base, b)
  {
    if a > 0 {
      PowerAdd(base, a - 1, b);
      MulAssoc(base, Power(base, a - 1), Power(base, b));
    }
  }

  lemma {:induction false} Pow2Add(a: nat, b: nat)
    ensures Pow2(a + b) == Pow2(a) * Pow2(b)
  {
    if a > 0 {
      Pow2Add(a - 1, b);
      MulAssoc(2, Pow2(a - 1), Pow2(b));
    }
  }

  lemma Pow2At32()
    ensures Pow2(32) == RADIX
  {
    Pow2Add(16, 16);
    Pow2Add(8, 8);
  }

  /** Bit i of a number. */
  function Bit(x: nat, i: nat): (b: nat)
    ensures b == 0 || b == 1
  {
    (x / Pow2(i)) % 2
  }

  /** Congruence modulo m, spelled out. */
  ghost predicate Congruent(a: int, b: int, m: int)
    requires m > 0
  {
    a % m == b % m
  }

  lemma CongruentBy(a: int, b: int, k: int, m: int)
    requires m > 0 && a == b + k * m
    ensures Congruent(a, b, m)
  {
    MulDistrib(b / m, k, m);
    DivModUnique(a, m, b / m + k, b % m);
  }

  lemma CongruentWitness(a: int, b: int, m: int) returns (k: int)
    requires m > 0 && Congruent(a, b, m)
    ensures a == b + k * m
  {
    k := a / m - b / m;
    MulDistrib(a / m, -(b / m), m);
  }

  lemma ProductIdentity(x: int, y: int, j: int, k: int, m: int)
    ensures (x + j * m) * (y + k * m) == x * y + (j * (y + k * m) + x * k) * m
  {
    var b := y + k * m;
    MulDistrib(x, j * m, b);
    MulDistrib(y, k * m, x);
    assert (j * m) * b == (j * b) * m && x * (k * m) == (x * k) * m;
    MulDistrib(j * b, x * k, m);
  }

  /** Congruences multiply. */
  lemma CongruentMul(a: int, b: int, x: int, y: int, m: int)
    requires m > 0 && Congruent(a, x, m) && Congruent(b, y, m)
    ensures Congruent(a * b, x * y, m)
  {
    var j := CongruentWitness(a, x, m);
    var k := CongruentWitness(b, y, m);
    ProductIdentity(x, y, j, k, m);
    CongruentBy(a * b, x * y, j * (y + k * m) + x * k, m);
  }

  /** Dividing twice is dividing by the product. */
  lemma DivDiv(x: nat, a: nat, b: nat)
    requires a > 0 && b > 0
    ensures a * b > 0 && (x / a) / b == x / (a * b)
  {
    MulMono(1, a, b);
    var q, r := x / a, x % a;
    var q2, r2 := q / b, q % b;
    assert x == q * a + r && q == q2 * b + r2;
    MulDistrib(q2 * b, r2, a);
    assert (q2 * b) * a == q2 * (a * b);
    MulMono(r2, b - 1, a);
    MulMono(0, r2, a);
    MulDistrib(b, -1, a);
    DivModUnique(x, a * b, q2, r2 * a + r);
  }

  /** One more bit of the exponent. */
  lemma NextBit(e: nat, i: nat)
    ensures e / Pow2(i) == 2 * (e / Pow2(i + 1)) + Bit(e, i)
  {
    DivDiv(e, Pow2(i), 2);
    assert Pow2(i) * 2 == Pow2(i + 1);
  }

  /** A bit of a limb is the bit of the number at that place. */
  lemma BitOfLimb(s: seq<Limb>, limb: nat, j: nat)
    requires limb < |s| && j < 32
    ensures Bit(Val(s), 32 * limb + j) == Bit(s[limb], j)
  {
    hide Pow, Pow2, Val;
    LimbShift(limb);
    ValDivMod(s, limb);
    ValSuffixStep(s, limb);
    Pow2Add(32 * limb, j);
    DivDiv(Val(s), Pow2(32 * limb), Pow2(j));
    LowBits(s[limb], Val(s[limb + 1..]), j);
  }

  lemma {:induction false} LimbShift(n: nat)
    ensures Pow2(32 * n) == Pow(n)
  {
    if n > 0 {
      LimbShift(n - 1);
      Pow2Add(32, 32 * (n - 1));
      Pow2At32();
    }
  }

  /** Limbs above do not disturb the low 32 bits. */
  lemma LowBits(x: nat, hi: nat, j: nat)
    requires j < 32
    ensures Bit(x + RADIX * hi, j) == Bit(x, j)
  {
    var d, half := Pow2(j), Pow2(31 - j);
    assert d * (2 * half) == RADIX by {
      Pow2At32();
      Pow2Add(j, 32 - j);
    }
    AddMultiple(x, hi, d, half);
    AddEven(x / d, half * hi);
  }

  lemma AddEven(x: int, y: int)
    ensures (x + 2 * y) % 2 == x % 2
  {}

  lemma AddMultiple(x: nat, hi: nat, d: nat, half: nat)
    requires d > 0 && d * (2 * half) == RADIX
    ensures (x + RADIX * hi) / d == x / d + 2 * (half * hi)
  {
    var c := 2 * (half * hi);
    assert RADIX * hi == c * d by {
      assert (d * (2 * half)) * hi == d * ((2 * half) * hi);
      assert (2 * half) * hi == c;
    }
    MulDistrib(x / d, c, d);
    DivModUnique(x + RADIX * hi, d, x / d + c, x % d);
  }

  /** The bit loop of find_max_exp_index over the leading limb. */
  method TopBitOf(test: Limb) returns (i: int)
    ensures -1 <= i < 32 && test < Pow2(i + 1)
    ensures i >= 0 ==> test > 0 && Bit(test, i) == 1
  {
    i := 31;
    var shift := RADIX / 2;
    Pow2At32();
    assert Pow2(32) == 2 * Pow2(31);
    while i >= 0
      invariant -1 <= i <= 31
      invariant i >= 0 ==> shift == Pow2(i)
      invariant test < Pow2(i + 1)
    {
      TopBitTest(test, i);
      if (test / shift) % 2 != 0 {
        return;
      }
      shift := shift / 2;
      i := i - 1;
    }
  }

  /** find_max_exp_index: the place of the highest bit set, or -1 for zero. */
  method FindMaxExpIndex(biexp: BigInt) returns (index: int)
    requires biexp.Normal()
    ensures -1 <= index < 32 * |biexp.comps|
    ensures index == -1 <==> biexp.Value() == 0
    ensures biexp.Value() < Pow2(index + 1)
    ensures index >= 0 ==> Bit(biexp.Value(), index) == 1
  {
    var n := |biexp.comps|;
    var i := TopBitOf(biexp.comps[n - 1]);
    if i >= 0 {
      BelowTopBit(biexp.comps, i);
      BitOfLimb(biexp.comps, n - 1, i);
      if biexp.Value() == 0 { TrimmedZero(biexp.comps); }
      return i + (n - 1) * 32;
    }
    assert biexp.comps == [0];
    ValSingle(0);
    return -1;
  }

  lemma TopBitTest(x: nat, i: nat)
    requires x < Pow2(i + 1)
    ensures (x / Pow2(i)) % 2 == 0 ==> x < Pow2(i)
    ensures (x / Pow2(i)) % 2 != 0 ==> x > 0
  {
    var d := Pow2(i);
    if x >= d {
      DivModUnique(x, d, 1, x - d);
    } else {
      DivModUnique(x, d, 0, x);
    }
  }

  /** A number is below the power of two just above the top limb's bits. */
  lemma BelowTopBit(s: seq<Limb>, i: nat)
    requires |s| >= 1 && i < 32 && s[|s| - 1] < Pow2(i + 1)
    ensures Val(s) < Pow2(i + (|s| - 1) * 32 + 1)
  {
    var n := |s| - 1;
    ValPrefixStep(s, n);
    assert s[..n + 1] == s;
    ValBound(s[..n]);
    ShiftOne(n);
    var top: int := s[n];
    ShiftAdd(top, 1, n);
    ShiftMono(top + 1, Pow2(i + 1), n);
    ShiftIsMul(Pow2(i + 1), n);
    LimbShift(n);
    Pow2Add(i + 1, 32 * n);
  }

  /** exp_bit_is_one; for offset -1 C's truncating division reads the lowest bit. */
  method ExpBitIsOne(biexp: BigInt, offset: int) returns (one: bool)
    requires -1 <= offset < 32 * |biexp.comps| && |biexp.comps| >= 1
    ensures one == (Bit(biexp.Value(), if offset < 0 then 0 else offset) == 1)
  {
    var limb, numShifts := if offset < 0 then 0 else offset / 32, if offset < 0 then -1 else offset % 32;
    var test: int := biexp.comps[limb];
    var i, shift: int := 0, 1;
    while i < numShifts
      invariant 0 <= i && (i <= numShifts || (numShifts == -1 && i == 0)) && shift == Pow2(i)
    {
      shift := shift * 2;
      i := i + 1;
    }
    BitOfLimb(biexp.comps, limb, i);
    one := (test / shift) % 2 != 0;
  }

  /** bi_residue(bi_multiply(a, b)); squaring passes the same bigint twice. */
  method MultiplyReduce(mod: Modulus, a: BigInt, b: BigInt) returns (r: BigInt)
    requires Ready(mod) && |a.comps| >= 1 && |b.comps| >= 1
    modifies mod.bim, mod.normalised
    ensures mod.bim.comps == old(mod.bim.comps) && mod.normalised.comps == old(mod.normalised.comps)
    ensures fresh(r) && r.Normal() && r.Value() < 3 * mod.bim.Value()
    ensures Congruent(r.Value(), old(a.Value()) * old(b.Value()), mod.bim.Value())
  {
    ghost var dropped, above;
    var product;
    product, dropped, above := RegularMultiply(a, b, 0, 0);
    ShiftMono(0, 0, 0);
    r := Reduce(mod, product);
  }

  lemma SquarePower(base: nat, h: nat, x: nat, sq: nat, m: nat)
    requires m > 0 && Congruent(x, Power(base, h), m) && Congruent(sq, x * x, m)
    ensures Congruent(sq, Power(base, 2 * h), m)
  {
    CongruentMul(x, x, Power(base, h), Power(base, h), m);
    PowerAdd(base, h, h);
  }

  lemma TimesBase(base: nat, h: nat, x: nat, y: nat, m: nat)
    requires m > 0 && Congruent(x, Power(base, h), m) && Congruent(y, x * base, m)
    ensures Congruent(y, Power(base, h + 1), m)
  {
    CongruentMul(x, base, Power(base, h), base, m);
  }

  /** One bit of the exponent: square, and multiply by the base when the bit is set. */
  method ExponentBit(mod: Modulus, x: BigInt, g: BigInt, one: bool, ghost h: nat) returns (biR: BigInt)
    requires Ready(mod) && |x.comps| >= 1 && |g.comps| >= 1 && g !in mod.Objects()
    requires Congruent(x.Value(), Power(g.Value(), h), mod.bim.Value())
    modifies mod.bim, mod.normalised
    ensures mod.bim.comps == old(mod.bim.comps) && mod.normalised.comps == old(mod.normalised.comps)
    ensures fresh(biR) && biR.Normal() && biR.Value() < 3 * mod.bim.Value()
    ensures Congruent(biR.Value(), Power(g.Value(), if one then 2 * h + 1 else 2 * h), mod.bim.Value())
  {
    ghost var m, base := mod.bim.Value(), g.Value();
    biR := MultiplyReduce(mod, x, x);
    SquarePower(base, h, old(x.Value()), biR.Value(), m);
    if one {
      ghost var sq := biR.Value();
      biR := MultiplyReduce(mod, biR, g);
      TimesBase(base, 2 * h, sq, biR.Value(), m);
    }
  }

  lemma QuotientNatural(x: nat, d: nat)
    requires d > 0
    ensures x / d >= 0
  {
    if x / d < 0 {
      MulMono(x / d, -1, d);
    }
  }

  /** The part of the exponent above bit i; everything is below bit 0. */
  ghost function Above(e: nat, i: int): nat {
    if i < 0 then e else QuotientNatural(e, Pow2(i)); e / Pow2(i)
  }

  lemma AboveStep(e: nat, i: int)
    requires i >= 0 || e == 0
    ensures Above(e, i) == 2 * Above(e, i + 1) + (if i >= 0 then Bit(e, i) else 0)
  {
    if i >= 0 {
      NextBit(e, i);
    } else {
      DivModUnique(0, Pow2(0), 0, 0);
    }
  }

  lemma ZeroBit()
    ensures Bit(0, 0) == 0
  {
    DivModUnique(0, Pow2(0), 0, 0);
  }

  lemma AboveBottom(e: nat)
    ensures Above(e, 0) == Above(e, -1) == e
  {
    DivModUnique(e, Pow2(0), e, 0);
  }

  lemma PowerOfNone(base: nat, m: nat)
    requires m > 0
    ensures Congruent(1, Power(base, 0), m)
  {}

  /**
   * bi_mod_power, one exponent bit at a time from the top: congruent to base^exponent, and below
   * three times the modulus. A zero exponent runs the loop once and gives one.
   */
  method BiModPower(mod: Modulus, bi: BigInt, biexp: BigInt) returns (biR: BigInt)
    requires Ready(mod) && |bi.comps| >= 1 && biexp.Normal()
    modifies mod.bim, mod.normalised
    ensures mod.bim.comps == old(mod.bim.comps) && mod.normalised.comps == old(mod.normalised.comps)
    ensures fresh(biR) && biR.Normal() && biR.Value() < 3 * mod.bim.Value()
    ensures Congruent(biR.Value(), Power(old(bi.Value()), old(biexp.Value())), mod.bim.Value())
  {
    hide Pow, Val, Power, Pow2, Bit, Congruent;
    var i := FindMaxExpIndex(biexp);
    biR := IntToBi(1);
    var g := Clone(bi);
    ghost var base, e, m, exponent := bi.Value(), biexp.Value(), mod.bim.Value(), biexp.comps;
    DivModUnique(e, Pow2(i + 1), 0, e);
    PowerOfNone(base, m);
    assert Above(e, i + 1) == 0;
    var first := true;
    while first || i >= 0
      invariant -2 <= i < 32 * |exponent| && (first ==> i >= -1)
      invariant i == -2 || (i == -1 && first) ==> e == 0
      invariant mod.bim.comps == old(mod.bim.comps) && mod.normalised.comps == old(mod.normalised.comps)
      invariant fresh(biR) && biR.Normal() && (first || biR.Value() < 3 * m)
      invariant fresh(g) && g.Value() == base && |g.comps| >= 1 && biexp.comps == exponent
      invariant Congruent(biR.Value(), Power(base, Above(e, i + 1)), m)
      decreases i + 2
    {
      first := false;
      var one := ExpBitIsOne(biexp, i);
      ZeroBit();
      AboveStep(e, i);
      biR := ExponentBit(mod, biR, g, one, Above(e, i + 1));
      i := i - 1;
    }
    AboveBottom(e);
  }
}
