/** The limb loops of krypton's bigint: each method is proved against the value of its operands. */
module BigInts {
  import opened Arithmetic
  import opened Limbs

  /** A bigint: `comps` with `size` limbs in use. Its capacity is not modelled. */
  class BigInt {
    var comps: seq<Limb>

    /** alloc: the limbs of a new bigint are arbitrary. */
    constructor (size: nat)
      requires size >= 1
      ensures |comps| == size
    {
      comps := Zeros(size);
    }

    /** The number held. */
    ghost function Value(): nat
      reads this
    {
      Val(comps)
    }

    /** A well-formed bigint without leading zero limbs. */
    ghost predicate Normal()
      reads this
    {
      Trimmed(comps)
    }
  }

  function Min(a: int, b: int): int { if a < b then a else b }
  function Max(a: int, b: int): int { if a < b then b else a }

  /** int_to_bi */
  method IntToBi(i: Limb) returns (biR: BigInt)
    ensures fresh(biR) && biR.comps == [i] && biR.Value() == i && biR.Normal()
  {
    biR := new BigInt(1);
    biR.comps := [i];
    ValSingle(i);
  }

  /** bi_clone */
  method Clone(bi: BigInt) returns (biR: BigInt)
    requires |bi.comps| >= 1
    ensures fresh(biR) && biR.comps == bi.comps
  {
    biR := new BigInt(|bi.comps|);
    biR.comps := bi.comps;
  }

  /** more_comps: the size becomes n; limbs beyond the old size are zeroed. */
  method MoreComps(bi: BigInt, n: nat)
    requires n >= 1
    modifies bi
    ensures bi.comps == if n > |old(bi.comps)| then old(bi.comps) + Zeros(n - |old(bi.comps)|) else old(bi.comps)[..n]
    ensures n >= |old(bi.comps)| ==> bi.Value() == old(bi.Value())
  {
    if n > |bi.comps| {
      ValPadded(bi.comps, n - |bi.comps|);
      bi.comps := bi.comps + Zeros(n - |bi.comps|);
    } else {
      bi.comps := bi.comps[..n];
      assert n == |old(bi.comps)| ==> bi.comps == old(bi.comps);
    }
  }

  /** trim */
  method Trim(bi: BigInt)
    requires |bi.comps| >= 1
    modifies bi
    ensures bi.Normal() && bi.Value() == old(bi.Value())
    ensures |bi.comps| <= |old(bi.comps)| && bi.comps == old(bi.comps)[..|bi.comps|]
    ensures old(bi.Normal()) ==> bi.comps == old(bi.comps)
  {
    while bi.comps[|bi.comps| - 1] == 0 && |bi.comps| > 1
      invariant 1 <= |bi.comps| <= |old(bi.comps)|
      invariant bi.comps == old(bi.comps)[..|bi.comps|]
      invariant bi.Value() == old(bi.Value())
      invariant old(bi.Normal()) ==> bi.comps == old(bi.comps)
      decreases |bi.comps|
    {
      var n := |bi.comps| - 1;
      ValPrefixStep(bi.comps, n);
      assert bi.comps[..n + 1] == bi.comps;
      ShiftMono(0, 0, n);
      bi.comps := bi.comps[..n];
    }
  }

  /** comp_mod: keep the `mod` least significant limbs. */
  method CompMod(bi: BigInt, mod: nat)
    requires |bi.comps| >= 1 && mod >= 1
    modifies bi
    ensures bi.comps == old(bi.comps)[..Min(mod, |old(bi.comps)|)]
    ensures bi.Value() == old(bi.Value()) % Pow(mod)
  {
    if |bi.comps| > mod {
      ValDivMod(bi.comps, mod);
      bi.comps := bi.comps[..mod];
    } else {
      ValBound(bi.comps);
      PowMono(|bi.comps|, mod);
      DivModUnique(bi.Value(), Pow(mod), 0, bi.Value());
      assert bi.comps == bi.comps[..|bi.comps|];
    }
  }

  /** comp_right_shift: drop the low limbs, leaving at least one. */
  method RightShift(biR: BigInt, numShifts: nat)
    requires |biR.comps| >= 1
    modifies biR
    ensures biR.comps == if numShifts < |old(biR.comps)| then old(biR.comps)[numShifts..] else [0]
    ensures biR.Value() == old(biR.Value()) / Pow(numShifts)
    ensures old(biR.Normal()) ==> biR.Normal()
  {
    ghost var was := biR.comps;
    var i := |biR.comps| - numShifts;
    if i <= 0 {
      biR.comps := [0];
      ValSingle(0);
      ValBound(was);
      PowMono(|was|, numShifts);
      DivModUnique(Val(was), Pow(numShifts), 0, Val(was));
      return;
    }
    var x := 0;
    while x < i
      invariant 0 <= x <= i && |biR.comps| == |was|
      invariant forall k :: 0 <= k < x ==> biR.comps[k] == was[k + numShifts]
      invariant forall k :: x <= k < |was| ==> biR.comps[k] == was[k]
    {
      biR.comps := biR.comps[x := biR.comps[x + numShifts]];
      x := x + 1;
    }
    biR.comps := biR.comps[..i];
    assert biR.comps == was[numShifts..];
    ValDivMod(was, numShifts);
  }

  lemma ShiftedValue(s: seq<Limb>, n: nat)
    ensures Val(Zeros(n) + s) == Shift(Val(s), n)
  {
    ValConcat(Zeros(n), s);
    ValZeros(Zeros(n));
  }

  /** comp_left_shift: multiply by a power of the radix. */
  method LeftShift(biR: BigInt, numShifts: nat)
    requires |biR.comps| >= 1
    modifies biR
    ensures biR.comps == Zeros(numShifts) + old(biR.comps)
    ensures biR.Value() == Shift(old(biR.Value()), numShifts)
  {
    ghost var was := biR.comps;
    if numShifts > 0 {
      var i := |biR.comps| - 1;
      MoreComps(biR, |biR.comps| + numShifts);
      while i >= 0
        invariant -1 <= i < |was| && |biR.comps| == |was| + numShifts
        invariant forall k :: i + numShifts < k < |was| + numShifts ==> biR.comps[k] == was[k - numShifts]
        invariant forall k :: 0 <= k <= i ==> biR.comps[k] == was[k]
      {
        biR.comps := biR.comps[i + numShifts := biR.comps[i]];
        i := i - 1;
      }
      assert biR.comps[numShifts..] == was;
      biR.comps := Zeros(numShifts) + biR.comps[numShifts..];
    } else {
      assert Zeros(0) + was == was;
    }
    ShiftedValue(was, numShifts);
  }

  /** bi_compare: by size, then from the most significant limb down. */
  method Compare(bia: BigInt, bib: BigInt) returns (r: int)
    requires |bia.comps| >= 1 && |bib.comps| >= 1
    ensures r == -1 || r == 0 || r == 1
    ensures |bia.comps| > |bib.comps| ==> r == 1
    ensures |bia.comps| < |bib.comps| ==> r == -1
    ensures |bia.comps| == |bib.comps| || (bia.Normal() && bib.Normal()) ==>
              (r < 0 <==> bia.Value() < bib.Value()) && (r > 0 <==> bia.Value() > bib.Value())
  {
    if |bia.comps| > |bib.comps| {
      if bia.Normal() { ShorterIsLess(bib.comps, bia.comps); }
      return 1;
    } else if |bia.comps| < |bib.comps| {
      if bib.Normal() { ShorterIsLess(bia.comps, bib.comps); }
      return -1;
    }
    r := 0;
    var i := |bia.comps| - 1;
    while i >= 0
      invariant -1 <= i < |bia.comps|
      invariant bia.comps[i + 1..] == bib.comps[i + 1..]
    {
      if bia.comps[i] > bib.comps[i] {
        TopLimbDecides(bib.comps, bia.comps, i);
        return 1;
      } else if bia.comps[i] < bib.comps[i] {
        TopLimbDecides(bia.comps, bib.comps, i);
        return -1;
      }
      assert bia.comps[i..] == [bia.comps[i]] + bia.comps[i + 1..];
      assert bib.comps[i..] == [bib.comps[i]] + bib.comps[i + 1..];
      i := i - 1;
    }
    assert bia.comps[0..] == bia.comps && bib.comps[0..] == bib.comps;
  }

  /** A column equation moved to column i. */
  lemma CarryColumn(r: int, a: int, b: int, carry: int, carry': int, i: nat)
    requires r + carry' * RADIX == a + b + carry
    ensures Shift(r, i) + Shift(carry', i + 1) == Shift(a, i) + Shift(b, i) + Shift(carry, i)
  {
    ShiftAdd(a, b, i);
    ShiftAdd(a + b, carry, i);
    ShiftAdd(r, RADIX * carry', i);
    ShiftUp(carry', i);
  }

  /** The two overflow tests of bi_add find the carry out of a column. */
  lemma CarryOut(x: int, y: int, carry: int, sl: int, rl: int)
    requires 0 <= x < RADIX && 0 <= y < RADIX && 0 <= carry <= 1
    requires sl == (x + y) % RADIX && rl == (sl + carry) % RADIX
    ensures rl + (if sl < x || rl < sl then 1 else 0) * RADIX == x + y + carry
  {}

  /** The two underflow tests of bi_subtract find the borrow out of a column. */
  lemma BorrowOut(x: int, y: int, carry: int, sl: int, rl: int)
    requires 0 <= x < RADIX && 0 <= y < RADIX && 0 <= carry <= 1
    requires sl == (x - y) % RADIX && rl == (sl - carry) % RADIX
    ensures rl + y + carry == x + (if sl > x || rl > sl then 1 else 0) * RADIX
  {}

  /** Adding one column: the low part grows by a limb while the carry moves up. */
  lemma AddColumn(r: seq<Limb>, a: seq<Limb>, b: seq<Limb>, i: nat, carry: int, carry': int)
    requires i < |r| && i < |a| && i < |b|
    requires Val(r[..i]) + Shift(carry, i) == Val(a[..i]) + Val(b[..i])
    requires r[i] + carry' * RADIX == a[i] + b[i] + carry
    ensures Val(r[..i + 1]) + Shift(carry', i + 1) == Val(a[..i + 1]) + Val(b[..i + 1])
  {
    ValPrefixStep(r, i);
    ValPrefixStep(a, i);
    ValPrefixStep(b, i);
    CarryColumn(r[i], a[i], b[i], carry, carry', i);
  }

  lemma OverflowLimb(low: seq<Limb>, a: seq<Limb>, n: nat, carry: Limb)
    requires |low| == n && |a| == n + 1 && a[n] == 0
    ensures Val(low + [carry]) == Val(low) + Shift(carry, n)
    ensures Val(a) == Val(a[..n])
  {
    ValAppend(low, carry);
    ValPrefixStep(a, n);
    assert a[..n + 1] == a;
    ShiftMono(0, 0, n);
  }

  /** The carry loop of bi_add over the n low limbs. */
  method AddLimbs(bia: BigInt, bib: BigInt, n: nat) returns (carry: Limb)
    requires bia != bib && n < |bia.comps| && |bib.comps| == n
    modifies bia
    ensures carry <= 1 && |bia.comps| == |old(bia.comps)| && bia.comps[n..] == old(bia.comps)[n..]
    ensures Val(bia.comps[..n]) + Shift(carry, n) == Val(old(bia.comps)[..n]) + bib.Value()
  {
    hide Val, Shift;
    ghost var a, b := bia.comps, bib.comps;
    carry := 0;
    var i := 0;
    ShiftMono(0, 0, 0);
    ValZeros(b[..0]);
    while i < n
      invariant 0 <= i <= n && carry <= 1
      invariant |bia.comps| == |a| && bia.comps[i..] == a[i..]
      invariant Val(bia.comps[..i]) + Shift(carry, i) == Val(a[..i]) + Val(b[..i])
    {
      assert bia.comps[i] == bia.comps[i..][0] == a[i];
      var sl: int := (bia.comps[i] + bib.comps[i]) % RADIX;
      var rl: int := (sl + carry) % RADIX;
      ghost var before, carry0 := bia.comps, carry;
      CarryOut(bia.comps[i], bib.comps[i], carry, sl, rl);
      carry := if sl < bia.comps[i] || rl < sl then 1 else 0;
      bia.comps := bia.comps[i := rl];
      assert bia.comps[i + 1..] == before[i..][1..] == a[i + 1..];
      assert bia.comps[..i] == before[..i];
      AddColumn(bia.comps, a, b, i, carry0, carry);
      i := i + 1;
    }
    assert b[..n] == b;
  }

  /** bi_add: bia becomes the sum; bib is left padded with leading zeros. */
  method Add(bia: BigInt, bib: BigInt)
    requires bia != bib && |bia.comps| >= 1 && |bib.comps| >= 1
    modifies bia, bib
    ensures bia.Value() == old(bia.Value()) + old(bib.Value()) && bia.Normal()
    ensures bib.Value() == old(bib.Value())
    ensures bib.comps == old(bib.comps) + Zeros(Max(|old(bia.comps)|, |old(bib.comps)|) - |old(bib.comps)|)
  {
    var n := Max(|bia.comps|, |bib.comps|);
    MoreComps(bia, n + 1);
    MoreComps(bib, n);
    ghost var a := bia.comps;
    var carry := AddLimbs(bia, bib, n);
    ghost var low := bia.comps[..n];
    bia.comps := bia.comps[n := carry];
    assert bia.comps == low + [carry];
    OverflowLimb(low, a, n, carry);
    Trim(bia);
  }

  /** Subtracting one column, with a borrow. */
  lemma SubtractColumn(r: seq<Limb>, a: seq<Limb>, b: seq<Limb>, i: nat, carry: int, carry': int)
    requires i < |r| && i < |a| && i < |b|
    requires Val(r[..i]) + Val(b[..i]) == Val(a[..i]) + Shift(carry, i)
    requires r[i] + b[i] + carry == a[i] + carry' * RADIX
    ensures Val(r[..i + 1]) + Val(b[..i + 1]) == Val(a[..i + 1]) + Shift(carry', i + 1)
  {
    ValPrefixStep(r, i);
    ValPrefixStep(a, i);
    ValPrefixStep(b, i);
    CarryColumn(a[i], r[i], b[i], carry, carry', i);
  }

  /** The borrow loop of bi_subtract. */
  method SubtractLimbs(bia: BigInt, bib: BigInt) returns (carry: Limb)
    requires bia != bib && |bia.comps| == |bib.comps|
    modifies bia
    ensures carry <= 1 && |bia.comps| == |old(bia.comps)|
    ensures bia.Value() + bib.Value() == old(bia.Value()) + Shift(carry, |bia.comps|)
  {
    var n := |bia.comps|;
    ghost var a, b := bia.comps, bib.comps;
    carry := 0;
    var i := 0;
    while i < n
      invariant 0 <= i <= n && carry <= 1
      invariant |bia.comps| == n && bia.comps[i..] == a[i..]
      invariant Val(bia.comps[..i]) + Val(b[..i]) == Val(a[..i]) + Shift(carry, i)
    {
      assert bia.comps[i] == bia.comps[i..][0] == a[i];
      var sl: int := (bia.comps[i] - bib.comps[i]) % RADIX;
      var rl: int := (sl - carry) % RADIX;
      ghost var before, carry0 := bia.comps, carry;
      BorrowOut(bia.comps[i], bib.comps[i], carry, sl, rl);
      carry := if sl > bia.comps[i] || rl > sl then 1 else 0;
      bia.comps := bia.comps[i := rl];
      assert bia.comps[i + 1..] == before[i..][1..] == a[i + 1..];
      assert bia.comps[..i] == before[..i];
      SubtractColumn(bia.comps, a, b, i, carry0, carry);
      i := i + 1;
    }
    assert bia.comps[..n] == bia.comps && b[..n] == b && a[..n] == a;
  }

  /**
   * bi_subtract: bia becomes the difference modulo RADIX^size(bia). When bib is longer than bia
   * its surplus limbs are cut off first, and bib is handed back trimmed.
   */
  method Subtract(bia: BigInt, bib: BigInt) returns (isNegative: bool)
    requires bia != bib && |bia.comps| >= 1 && |bib.comps| >= 1
    modifies bia, bib
    ensures var n := |old(bia.comps)|;
            var b := Val(old(bib.comps)[..Min(n, |old(bib.comps)|)]);
            && isNegative == (old(bia.Value()) < b)
            && bia.Value() == old(bia.Value()) - b + (if isNegative then Pow(n) else 0)
            && bib.Value() == b
    ensures bia.Normal() && |bia.comps| <= |old(bia.comps)|
    ensures bib.Normal()
    ensures old(bib.Normal()) && |old(bib.comps)| <= |old(bia.comps)| ==> bib.comps == old(bib.comps)
  {
    var n := |bia.comps|;
    ghost var b0 := bib.comps;
    assert n >= |b0| ==> b0[..|b0|] == b0;
    MoreComps(bib, n);
    assert bib.Value() == Val(b0[..Min(n, |b0|)]);
    ValBound(bib.comps);
    var carry := SubtractLimbs(bia, bib);
    ValBound(bia.comps);
    ShiftOne(n);
    ShiftMono(0, 0, n);
    isNegative := carry == 1;
    Trim(bib);
    Trim(bia);
    if Trimmed(b0) && |b0| <= n {
      TrimmedUnique(bib.comps, b0);
    }
  }

  /**
   * The column step of the multiplication loops: a limb times a limb plus two limbs fits in a
   * long_comp, whose low half is stored and whose high half is the carry.
   */
  method MultiplyColumn(r: Limb, x: Limb, b: Limb, carry: Limb) returns (low: Limb, high: Limb)
    ensures low + high * RADIX == x * b + r + carry
  {
    MulMono(x, RADIX - 1, b);
    MulMono(0, x, b);
    var tmp: int := r + x * b + carry;
    assert 0 <= tmp < RADIX * RADIX;
    low, high := tmp % RADIX, tmp / RADIX;
  }

  /** One more limb of a product by a single limb. */
  lemma ScaleStep(r: seq<Limb>, a: seq<Limb>, j: nat, b: int, carry: int, carry': int)
    requires j < |r| && j < |a|
    requires Val(r[..j]) + Shift(carry, j) == Val(a[..j]) * b
    requires r[j] + carry' * RADIX == a[j] * b + carry
    ensures Val(r[..j + 1]) + Shift(carry', j + 1) == Val(a[..j + 1]) * b
  {
    ValPrefixStep(r, j);
    ValPrefixStep(a, j);
    CarryColumn(r[j], a[j] * b, 0, carry, carry', j);
    ShiftMono(0, 0, j);
    ShiftMul(a[j], b, j);
    MulDistrib(Val(a[..j]), Shift(a[j], j), b);
  }

  /** bi_int_multiply: a new bigint holding the product by one limb. */
  method IntMultiply(bia: BigInt, b: Limb) returns (biR: BigInt)
    requires |bia.comps| >= 1
    ensures fresh(biR) && biR.Value() == bia.Value() * b && biR.Normal()
    ensures |biR.comps| <= |bia.comps| + 1
  {
    var n := |bia.comps|;
    biR := new BigInt(n + 1);
    biR.comps := Zeros(n + 1);
    ghost var a := bia.comps;
    var j, carry: Limb := 0, 0;
    while j < n
      invariant 0 <= j <= n && |biR.comps| == n + 1 && bia.comps == a
      invariant biR.comps[j..] == Zeros(n + 1 - j)
      invariant Val(biR.comps[..j]) + Shift(carry, j) == Val(a[..j]) * b
    {
      assert biR.comps[j] == biR.comps[j..][0] == 0;
      var low, high := MultiplyColumn(biR.comps[j], bia.comps[j], b, carry);
      ghost var before, carry0 := biR.comps, carry;
      biR.comps := biR.comps[j := low];
      carry := high;
      assert biR.comps[..j] == before[..j];
      assert biR.comps[j + 1..] == before[j..][1..];
      ScaleStep(biR.comps, a, j, b, carry0, carry);
      j := j + 1;
    }
    ghost var low := biR.comps[..n];
    biR.comps := biR.comps[n := carry];
    assert biR.comps == low + [carry];
    ValAppend(low, carry);
    assert a[..n] == a;
    Trim(biR);
  }

  /** The column step of bi_int_divide: the running remainder keeps the quotient digit below the radix. */
  method DivideColumn(r: int, x: Limb, denom: Limb) returns (q: Limb, r': int)
    requires 0 <= r < denom
    ensures r * RADIX + x == q * denom + r' && 0 <= r' < denom
  {
    var y: int := r * RADIX + x;
    assert y == (y / denom) * denom + y % denom;
    if y / denom >= RADIX {
      MulMono(RADIX, y / denom, denom);
    }
    if y / denom < 0 {
      MulMono(y / denom, -1, denom);
    }
    q, r' := y / denom, y % denom;
  }

  /** One more digit of a long division by a single limb. */
  lemma ShortDivisionStep(q: int, qs: int, a: int, as_: int, denom: int, r0: int, r: int)
    requires as_ == qs * denom + r0
    requires r0 * RADIX + a == q * denom + r
    ensures a + RADIX * as_ == (q + RADIX * qs) * denom + r
  {
    MulDistrib(q, RADIX * qs, denom);
    assert RADIX * (qs * denom) == (RADIX * qs) * denom;
  }

  /** bi_int_divide: in place, from the most significant limb down. */
  method IntDivide(biR: BigInt, denom: Limb)
    requires |biR.comps| >= 1 && denom > 0
    modifies biR
    ensures biR.Value() == old(biR.Value()) / denom && biR.Normal()
  {
    ghost var a := biR.comps;
    var i, r: int := |biR.comps| - 1, 0;
    while i >= 0
      invariant -1 <= i < |a| && 0 <= r < denom && |biR.comps| == |a|
      invariant biR.comps[..i + 1] == a[..i + 1]
      invariant Val(a[i + 1..]) == Val(biR.comps[i + 1..]) * denom + r
    {
      assert biR.comps[i] == biR.comps[..i + 1][i] == a[i];
      ghost var r0, before := r, biR.comps;
      var q;
      q, r := DivideColumn(r, biR.comps[i], denom);
      biR.comps := biR.comps[i := q];
      assert biR.comps[..i] == before[..i + 1][..i] == a[..i + 1][..i] == a[..i];
      assert biR.comps[i + 1..] == before[i + 1..];
      ValSuffixStep(biR.comps, i);
      ValSuffixStep(a, i);
      ShortDivisionStep(q, Val(before[i + 1..]), a[i], Val(a[i + 1..]), denom, r0, r);
      i := i - 1;
    }
    assert a[0..] == a && biR.comps[0..] == biR.comps;
    DivModUnique(Val(a), denom, Val(biR.comps), r);
    Trim(biR);
  }
}
