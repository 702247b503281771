/** bi_crt: recombining the two half-size exponentiations of an RSA private operation. */
module Crt {
  import opened Arithmetic
  import opened Limbs
  import opened BigInts
  import opened Multiplication
  import opened Division
  import opened Barrett
  import opened ModPower
  import opened PaddedModulus

  lemma CongruentAdd(c: int, a: int, b: int, m: int)
    requires m > 0 && Congruent(a, b, m)
    ensures Congruent(c + a, c + b, m)
  {
    var k := CongruentWitness(a, b, m);
    CongruentBy(c + a, c + b, k, m);
  }

  /** The recombination m2 + q * h takes up d modulo p, where h is d * qInv. */
  lemma Recombined(m2: int, d: int, p: int, q: int, qInv: int, h: int)
    requires p > 0 && Congruent(q * qInv, 1, p)
    requires Congruent(h, d * qInv, p)
    ensures Congruent(m2 + q * h, m2 + d, p)
  {
    CongruentMul(q, h, q, d * qInv, p);
    CongruentMul(q * qInv, d, 1, d, p);
    assert q * (d * qInv) == (q * qInv) * d;
    CongruentAdd(m2, q * h, d, p);
  }

  /** Adding a number leaves the residue alone exactly when the number is a multiple. */
  lemma ExtraMatters(y: int, x: int, extra: int, p: int)
    requires p > 0 && Congruent(y, x + extra, p)
    ensures Congruent(y, x, p) <==> extra % p == 0
  {
    if extra % p == 0 {
      CongruentBy(x + extra, x, extra / p, p);
    }
    if Congruent(y, x, p) {
      var k := CongruentWitness(x + extra, x, p);
      DivModUnique(extra, p, k, 0);
    }
  }

  /**
   * What goes wrong in a recombination: a wrapped subtraction, limbs of m2 cut off, and a reduction that loses limbs.
   */
  datatype Flaws = Flaws(wrap: nat, cut: nat, missing: nat)

  const NONE := Flaws(0, 0, 0)

  /**
   * The recombination r of m1 and m2 is congruent to m2 modulo q exactly if what was cut off m2 is a
   * multiple of q, and to m1 modulo p exactly if the other flaws add up to a multiple of p.
   */
  ghost predicate Combined(r: nat, m1: nat, m2: nat, f: Flaws, p: nat, q: nat, qInv: nat)
    requires p > 0 && q > 0
  {
    && (Congruent(r, m2, q) <==> f.cut % q == 0)
    && (Congruent(q * qInv, 1, p) ==> (Congruent(r, m1, p) <==> (f.wrap - q * f.missing) % p == 0))
  }

  /** The flaws of a subtraction of m2 from sum, a number of `width` limbs. */
  ghost predicate Subtracted(sum: nat, m2: seq<Limb>, width: nat, f: Flaws) {
    var low := Val(m2[..Min(width, |m2|)]);
    f.cut == Val(m2) - low && f.wrap == if sum < low then Pow(width) else 0
  }

  /** The limbs a number takes. */
  ghost predicate IsWidth(x: nat, width: nat) {
    1 <= width && x < Pow(width) && (width > 1 ==> Pow(width - 1) <= x)
  }

  lemma WideIsLarge(x: nat, width: nat)
    requires IsWidth(x, width)
    ensures width > 1 ==> x >= Pow(1)
  {
    if width > 1 { PowMono(1, width - 1); }
  }

  lemma TrimmedWidth(s: seq<Limb>)
    requires Trimmed(s) && Val(s) > 0
    ensures IsWidth(Val(s), |s|)
  {
    ValBound(s);
    TrimmedLower(s);
  }

  /** Nothing is cut off or wraps if m2 is not larger than the number it is subtracted from. */
  lemma NoFlaws(sum: seq<Limb>, m2: seq<Limb>, f: Flaws)
    requires |sum| >= 1 && Trimmed(m2) && Subtracted(Val(sum), m2, |sum|, f) && Val(m2) <= Val(sum)
    ensures f.cut == 0 && f.wrap == 0
  {
    TrimmedNoLonger(m2, sum);
    assert m2[..|m2|] == m2;
  }

  lemma CutIsShift(m2: seq<Limb>, width: nat)
    ensures Val(m2[..Min(width, |m2|)]) <= Val(m2)
  {
    if width <= |m2| {
      ValSplit(m2, width);
      ShiftMono(0, Val(m2[width..]), width);
    } else {
      assert m2[..|m2|] == m2;
    }
  }

  /** Both residues of the recombination, h being (m1 + p - m2) * qInv without what is missing, modulo p. */
  lemma Residues(m1: nat, m2: nat, f: Flaws, d: nat, p: nat, q: nat, qInv: nat, h: nat, r: nat)
    requires p > 0 && q > 0 && f.cut <= m2
    requires d == m1 + p - (m2 - f.cut) + f.wrap && Congruent(h + f.missing, d * qInv, p)
    requires r == m2 - f.cut + q * h
    ensures Combined(r, m1, m2, f, p, q, qInv)
  {
    CongruentBy(r, m2 - f.cut, h, q);
    CongruentBack(r, m2, f.cut, q);
    if Congruent(q * qInv, 1, p) {
      var low, off := m2 - f.cut, f.wrap - q * f.missing;
      Recombined(low, d, p, q, qInv, h + f.missing);
      MulDistrib(h, f.missing, q);
      CongruentAdd(-(q * f.missing), low + q * (h + f.missing), low + d, p);
      CongruentBy(low + d - q * f.missing, m1 + off, 1, p);
      ExtraMatters(r, m1, off, p);
    }
  }

  lemma CongruentBack(r: int, x: int, off: int, m: int)
    requires m > 0 && Congruent(r, x - off, m)
    ensures Congruent(r, x, m) <==> off % m == 0
  {
    ExtraMatters(r, x, -off, m);
    if off % m == 0 {
      CongruentBy(-off, 0, -(off / m), m);
    }
    if (-off) % m == 0 {
      CongruentBy(off, 0, -((-off) / m), m);
    }
  }

  /** bi_residue, also for a modulus that bi_add has padded; without a result where bi_divide would be given one. */
  method Residue(modP: Modulus, bi: BigInt, ghost p: seq<Limb>) returns (h: BigInt?, ghost missing: nat)
    requires (Ready(modP) && modP.bim.comps == p) || Padded(modP, p)
    requires IsDivisor(p) && bi.Normal() && bi !in modP.Objects()
    modifies bi, modP.bim, modP.normalised
    ensures h != null ==> (h == bi || fresh(h)) && h.Normal() && Congruent(h.Value() + missing, old(bi.Value()), Val(p))
    ensures old(modP.bim.comps) == p ==> h != null && missing == 0 && Ready(modP) && modP.bim.comps == p
    ensures modP.bim.comps == p || modP.bim.comps == p + [0]
    ensures modP.normalised.comps == old(modP.normalised.comps)
    ensures h == null ==> |old(bi.comps)| > 2 * (|p| + 1)
    ensures |old(bi.comps)| <= |p| + 2 ==> missing == 0
  {
    hide Pow, Shift, Val;
    missing := 0;
    TrimmedLower(p);
    if modP.bim.comps[|modP.bim.comps| - 1] != 0 {
      h := Reduce(modP, bi);
    } else if |bi.comps| > 2 * |modP.bim.comps| {
      h := null;
    } else {
      ghost var lost;
      h, lost := ReducePadded(modP, bi, p);
      ShiftMono(0, 0, |p| + 2);
      ShiftMono(0, lost, |p| + 2);
      missing := Shift(lost, |p| + 2);
    }
  }

  method ScaledResidue(modP: Modulus, a: BigInt, qInv: BigInt, ghost p: seq<Limb>)
    returns (h: BigInt?, ghost missing: nat)
    requires (Ready(modP) && modP.bim.comps == p) || Padded(modP, p)
    requires IsDivisor(p) && |a.comps| >= 1 && |qInv.comps| >= 1
    modifies modP.bim, modP.normalised
    ensures h != null ==> fresh(h) && h.Normal()
    ensures h != null ==> Congruent(h.Value() + missing, old(a.Value()) * old(qInv.Value()), Val(p))
    ensures old(modP.bim.comps) == p ==> h != null && missing == 0 && Ready(modP) && modP.bim.comps == p
    ensures modP.bim.comps == p || modP.bim.comps == p + [0]
    ensures modP.normalised.comps == old(modP.normalised.comps)
    ensures h == null ==> |old(a.comps)| + |old(qInv.comps)| > 2 * (|p| + 1)
  {
    hide Pow, Val;
    ghost var dropped, above;
    var product;
    product, dropped, above := RegularMultiply(a, qInv, 0, 0);
    ShiftMono(0, 0, 0);
    h, missing := Residue(modP, product, p);
  }

  method AddProduct(b: BigInt, q: BigInt, h: BigInt)
    requires b.Normal() && |q.comps| >= 1 && h.Normal() && b != q && b != h
    modifies b
    ensures b.Value() == old(b.Value()) + q.Value() * h.Value()
  {
    hide Pow, Val;
    ghost var dropped, above;
    var product;
    product, dropped, above := RegularMultiply(q, h, 0, 0);
    ShiftMono(0, 0, 0);
    Add(b, product);
  }

  /** The second half of bi_crt, from a = m1 + p and b = m2 on; b becomes the result. */
  method Recombine(modP: Modulus, a: BigInt, b: BigInt, q: BigInt, qInv: BigInt, ghost m1: nat, ghost p: seq<Limb>)
    returns (r: BigInt?, ghost f: Flaws)
    requires (Ready(modP) && modP.bim.comps == p) || Padded(modP, p)
    requires IsDivisor(p) && a !in modP.Objects() && b !in modP.Objects()
    requires a.Normal() && a.Value() == m1 + Val(p)
    requires b.Normal() && |q.comps| >= 1 && |qInv.comps| >= 1 && q.Value() > 0
    requires a != b && q !in {a, b} && qInv !in {a, b} && (q != modP.bim || modP.bim.comps == p)
    modifies a, b, modP.bim, modP.normalised
    ensures old(modP.bim.comps) == p ==> r != null && f.missing == 0 && Ready(modP) && modP.bim.comps == p
    ensures modP.bim.comps == p || modP.bim.comps == p + [0]
    ensures modP.normalised.comps == old(modP.normalised.comps)
    ensures Subtracted(old(a.Value()), old(b.comps), |old(a.comps)|, f)
    ensures r == null ==> |old(a.comps)| + |old(qInv.comps)| > 2 * (|p| + 1)
    ensures r == b || r == null
    ensures r != null ==> Combined(b.Value(), m1, Val(old(b.comps)), f, Val(p), old(q.Value()), old(qInv.Value()))
  {
    hide Pow, Shift, Val, Ready, Padded;
    ghost var m2, width, qs, iv := b.comps, |a.comps|, q.comps, qInv.Value();
    CutIsShift(m2, width);
    var isNegative := Subtract(a, b);
    ghost var low, d := b.Value(), a.Value();
    f := Flaws(if isNegative then Pow(width) else 0, Val(m2) - low, 0);
    ghost var missing;
    var h;
    h, missing := ScaledResidue(modP, a, qInv, p);
    f := f.(missing := missing);
    if h == null {
      return null, f;
    }
    ghost var hv := h.Value();
    AddProduct(b, q, h);
    Residues(m1, Val(m2), f, d, Val(p), Val(qs), iv, hv, b.Value());
    r := b;
  }

  /** What bi_mod_power promises of m1 and m2. */
  ghost predicate Residual(m1: seq<Limb>, base: nat, e: nat, p: nat) {
    p > 0 && Val(m1) < 3 * p && Congruent(Val(m1), Power(base, e), p)
  }

  /** The two exponentiations at the head of bi_crt. */
  method HalfPowers(modP: Modulus, modQ: Modulus, bi: BigInt, dP: BigInt, dQ: BigInt) returns (a: BigInt, b: BigInt)
    requires Ready(modP) && Ready(modQ) && modP.Objects() !! modQ.Objects()
    requires |bi.comps| >= 1 && dP.Normal() && dQ.Normal()
    modifies modP.bim, modP.normalised, modQ.bim, modQ.normalised
    ensures modP.bim.comps == old(modP.bim.comps) && modP.normalised.comps == old(modP.normalised.comps)
    ensures modQ.bim.comps == old(modQ.bim.comps) && modQ.normalised.comps == old(modQ.normalised.comps)
    ensures Ready(modP) && Ready(modQ)
    ensures fresh(a) && fresh(b) && a != b && a.Normal() && b.Normal()
    ensures Residual(a.comps, old(bi.Value()), old(dP.Value()), modP.bim.Value())
    ensures Residual(b.comps, old(bi.Value()), old(dQ.Value()), modQ.bim.Value())
  {
    ghost var base, e := bi.comps, dQ.comps;
    a := BiModPower(modP, bi, dP);
    assert bi.comps == base && dQ.comps == e;
    b := BiModPower(modQ, bi, dQ);
  }

  /** p is the very bigint that the context holds, and m1 is longer than it. */
  ghost predicate Pads(modP: Modulus, p: BigInt, m1: seq<Limb>, size: nat) {
    p == modP.bim && |m1| > size
  }

  /** A key: p and q are the moduli of the context, and p may be the very bigint it holds, as it is for RSA. */
  ghost predicate IsKey(modP: Modulus, modQ: Modulus, p: BigInt, q: BigInt)
    reads modP.Objects(), modQ.Objects(), p, q
  {
    && Ready(modP) && Ready(modQ) && modP.Objects() !! modQ.Objects()
    && (p == modP.bim || p !in modP.Objects() + modQ.Objects()) && p != q
    && |p.comps| >= 1 && p.Value() == modP.bim.Value()
    && |q.comps| >= 1 && q.Value() == modQ.bim.Value()
  }

  /** What rules out that bi_crt pads the modulus of the context. */
  ghost predicate Roomy(modP: Modulus, p: BigInt)
    reads p
  {
    p != modP.bim || 3 * p.Value() <= Pow(|p.comps|)
  }

  /**
   * bi_crt. p and q are the moduli of modP and modQ; p may be the very bigint held by modP, as it is for an
   * RSA key. bi_add then pads p with a leading zero when m1 is longer than p, and bi_residue loses limbs. There
   * is no result only if qInv is longer than that p by more than a limb, where bi_divide would be given it.
   * Guards on p and q alone rule every flaw out. The key may be used again exactly if p is not left padded.
   */
  method BiCrt(modP: Modulus, modQ: Modulus, bi: BigInt, dP: BigInt, dQ: BigInt, p: BigInt, q: BigInt, qInv: BigInt)
    returns (r: BigInt?, ghost m1: seq<Limb>, ghost m2: seq<Limb>, ghost width: nat, ghost f: Flaws)
    requires IsKey(modP, modQ, p, q) && |qInv.comps| >= 1 && p != qInv
    requires |bi.comps| >= 1 && dP.Normal() && dQ.Normal()
    modifies modP.bim, modP.normalised, modQ.bim, modQ.normalised, p
    ensures Trimmed(m1) && Residual(m1, old(bi.Value()), old(dP.Value()), old(p.Value()))
    ensures Trimmed(m2) && Residual(m2, old(bi.Value()), old(dQ.Value()), old(q.Value()))
    ensures !Pads(modP, p, m1, |old(p.comps)|) ==> r != null && f.missing == 0 && Ready(modP)
    ensures Ready(modQ) && (modP.bim.comps == old(modP.bim.comps) || modP.bim.comps == old(modP.bim.comps) + [0])
    ensures r == null ==> |old(qInv.comps)| > |old(p.comps)| + 1
    ensures Val(m2) <= Val(m1) + old(p.Value()) ==> f.cut == 0 && f.wrap == 0
    ensures Subtracted(Val(m1) + old(p.Value()), m2, width, f) && IsWidth(Val(m1) + old(p.Value()), width)
    ensures r != null ==> Combined(r.Value(), Val(m1), Val(m2), f, old(p.Value()), old(q.Value()), old(qInv.Value()))
    ensures old(Roomy(modP, p)) && 3 * old(q.Value()) <= old(p.Value()) + 1 ==> r != null && f == NONE
    ensures old(Roomy(modP, p)) ==> modP.bim.comps == old(modP.bim.comps)
    ensures IsKey(modP, modQ, p, q) <==> modP.bim.comps == old(modP.bim.comps)
    ensures p.Value() == old(p.Value()) && q.Value() == old(q.Value()) && modQ.bim.comps == old(modQ.bim.comps)
    ensures r != null ==> fresh(r)
  {
    hide Pow, Shift, Val, Combined, Ready, Padded, Residual, Subtracted, IsWidth;
    ReadyDivisor(modP);
    ReadyDivisor(modQ);
    ghost var base, eP, eQ := bi.Value(), dP.Value(), dQ.Value();
    var a, b := HalfPowers(modP, modQ, bi, dP, dQ);
    m1, m2 := a.comps, b.comps;
    ghost var ps, qs, qv := modP.bim.comps, q.comps, q.Value();
    Guards(m1, m2, ps, base, eP, eQ, qv);
    AddModulus(modP, a, p);
    width := |a.comps|;
    ghost var sum := a.comps;
    TrimmedWidth(sum);
    assert q.comps == qs == old(q.comps);
    r, f := Recombine(modP, a, b, q, qInv, Val(m1), ps);
    assert q.comps == qs;
    if Val(m2) <= Val(sum) { NoFlaws(sum, m2, f); }
    PaddedValue(ps);
    StillReady(modP);
    if modP.bim.comps != ps { NotReady(modP, ps); }
  }

  /** A modulus is ready again once its numbers are what they were. */
  twostate lemma StillReady(mod: Modulus)
    requires old(Ready(mod))
    ensures (forall n :: n in mod.Objects() ==> n.comps == old(n.comps)) ==> Ready(mod)
  {}

  lemma NotReady(mod: Modulus, m: seq<Limb>)
    requires |m| >= 1 && mod.bim.comps == m + [0]
    ensures !Ready(mod)
  {
    hide Val, Pow;
    assert mod.bim.comps[|m|] == 0;
  }

  lemma ReadyDivisor(mod: Modulus)
    requires Ready(mod)
    ensures IsDivisor(mod.bim.comps) && |mod.bim.comps| >= 1 && mod.bim.Value() > 0
  {}

  /** What rules out that p is padded, and that the subtraction wraps. */
  lemma Guards(m1: seq<Limb>, m2: seq<Limb>, p: seq<Limb>, base: nat, eP: nat, eQ: nat, q: nat)
    requires Trimmed(m1) && |p| >= 1 && Residual(m1, base, eP, Val(p)) && Residual(m2, base, eQ, q)
    ensures Val(m1) < 3 * Val(p)
    ensures 3 * Val(p) <= Pow(|p|) ==> |m1| <= |p|
    ensures 3 * q <= Val(p) + 1 ==> Val(m2) <= Val(m1) + Val(p)
  {
    if 3 * Val(p) <= Pow(|p|) { TrimmedFits(m1, |p|); }
  }

  /** The two residues, from what is known before the call: guards on p and q, and qInv. */
  lemma BothResidues(r: nat, m1: seq<Limb>, m2: seq<Limb>, base: nat, dP: nat, dQ: nat, p: nat, q: nat, qInv: nat)
    requires Residual(m1, base, dP, p) && Residual(m2, base, dQ, q) && Combined(r, Val(m1), Val(m2), NONE, p, q, qInv)
    requires Congruent(q * qInv, 1, p)
    ensures Congruent(r, Power(base, dP), p) && Congruent(r, Power(base, dQ), q)
  {
    DivModUnique(0, p, 0, 0);
    DivModUnique(0, q, 0, 0);
  }

  /** bi_add(m1, p): the modulus kept by modP stays as it is exactly if m1 is not longer than it. */
  method AddModulus(modP: Modulus, a: BigInt, p: BigInt)
    requires Ready(modP) && a !in modP.Objects() && a != p && a.Normal()
    requires p == modP.bim || p !in modP.Objects()
    requires |p.comps| >= 1 && p.Value() == modP.bim.Value() && a.Value() < 3 * p.Value()
    modifies a, p
    ensures if Pads(modP, p, old(a.comps), |old(p.comps)|) then Padded(modP, old(modP.bim.comps))
            else Ready(modP) && modP.bim.comps == old(modP.bim.comps)
    ensures a.Normal() && a.Value() == old(a.Value()) + old(p.Value()) && p.Value() == old(p.Value())
    ensures p == modP.bim ==> |a.comps| <= |old(p.comps)| + 1
    ensures |p.comps| >= 1
  {
    hide Pow, Shift, Val;
    ghost var m1, pWas := a.comps, p.comps;
    if p == modP.bim { SumFits(m1, pWas); }
    Add(a, p);
    if p == modP.bim {
      SumFits(a.comps, pWas);
      assert pWas + Zeros(0) == pWas && Zeros(1) == [0];
    }
  }

  /** Less than RADIX moduli take at most one limb more than the modulus. */
  lemma SumFits(s: seq<Limb>, p: seq<Limb>)
    requires Trimmed(s) && |p| >= 1 && Val(s) < 4 * Val(p)
    ensures |s| <= |p| + 1
  {
    ValBound(p);
    assert Pow(|p| + 1) == RADIX * Pow(|p|);
    TrimmedFits(s, |p| + 1);
  }

  /**
   * The guard on q is needed: with p = 3, q = 17 and qInv = 2 the message 16 with both exponents 1 has residues
   * whose subtraction wraps whatever multiples bi_mod_power leaves in them, and bi_crt misses the residue modulo p.
   */
  lemma WrapLosesResidue(m1: seq<Limb>, m2: seq<Limb>, width: nat, f: Flaws, r: nat)
    requires Trimmed(m1) && Trimmed(m2) && Residual(m1, 16, 1, 3) && Residual(m2, 16, 1, 17)
    requires IsWidth(Val(m1) + 3, width) && Subtracted(Val(m1) + 3, m2, width, f) && f.missing == 0
    requires Combined(r, Val(m1), Val(m2), f, 3, 17, 2)
    ensures Congruent(17 * 2, 1, 3) && Congruent(r, Power(16, 1), 17) && !Congruent(r, Power(16, 1), 3)
  {
    assert Power(16, 1) == 16 * Power(16, 0) == 16;
    assert Pow(1) == RADIX * Pow(0) == RADIX;
    WideIsLarge(Val(m1) + 3, width);
    TrimmedFits(m2, 1);
    assert m2[..1] == m2;
    assert f == Flaws(RADIX, 0, 0);
  }

  /** A trimmed number that is not larger is not longer. */
  lemma TrimmedNoLonger(s: seq<Limb>, t: seq<Limb>)
    requires Trimmed(s) && |t| >= 1 && Val(s) <= Val(t)
    ensures |s| <= |t|
  {
    if |t| < |s| {
      ShorterIsLess(t, s);
    }
  }
}
