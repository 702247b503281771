/** bi_divide: long division with quotient digit estimation and add-back. */
module Division {
  import opened Arithmetic
  import opened Limbs
  import opened BigInts

  /** The leading limb of a divisor. */
  function Top(v: seq<Limb>): Limb
    requires |v| >= 1
  {
    v[|v| - 1]
  }

  /**
   * The normalisation factor d of a leading limb. It must not be RADIX - 1: there V1 + 1 wraps to
   * zero in a comp and the division by it is undefined.
   */
  function Normaliser(top: Limb): (d: Limb)
    requires top < RADIX - 1
    ensures top > 0 ==> d >= 1
    ensures d == 1 ==> top >= RADIX / 2
  {
    (RADIX / (top + 1)) % RADIX
  }

  /** The divisor of the normaliser, a comp, is zero exactly for that leading limb; in bi_divide as in bi_set_mod. */
  lemma NormaliserWraps(top: Limb)
    ensures (top + 1) % RADIX == 0 <==> top == RADIX - 1
  {}

  // Estimating a quotient digit. W is the current window of the dividend, V the divisor; p is the
  // weight of V's leading limb v1, so that V = v1 * p + (less than p), and u01 is the window's two
  // leading limbs.

  /** An estimate from one divisor limb is never too small. */
  lemma EstimateNotTooSmall(W: int, V: int, p: int, v1: int, u01: int, q: int, rem: int)
    requires p > 0 && v1 * p <= V && W < (u01 + 1) * p
    requires u01 == q * v1 + rem && 0 <= rem < v1 && q >= 0
    ensures W < (q + 1) * V
  {
    MulDistrib(q, 1, v1);
    MulMono(u01 + 1, (q + 1) * v1, p);
    MulMono(v1 * p, V, q + 1);
    assert ((q + 1) * v1) * p == (q + 1) * (v1 * p);
  }

  /** For a normalised divisor it is at most two too big. */
  lemma EstimateAtMostTwo(W: int, V: int, p: int, v1: int, u01: int, q: int)
    requires p > 0 && V <= (v1 + 1) * p && V >= 0 && u01 * p <= W && W >= 0
    requires q * v1 <= u01 && 0 <= q < RADIX && 2 * v1 >= RADIX
    ensures (q - 2) * V <= W
  {
    if q < 2 {
      MulMono(q - 2, 0, V);
    } else {
      MulMono(V, (v1 + 1) * p, q - 2);
      assert (q - 2) * ((v1 + 1) * p) == ((q - 2) * (v1 + 1)) * p;
      assert (q - 2) * (v1 + 1) == q * v1 + q - 2 * v1 - 2;
      MulMono((q - 2) * (v1 + 1), u01, p);
    }
  }

  /** When the leading limbs are equal, RADIX - 1 is at most one too big. */
  lemma EstimateEqualTops(W: int, V: int, p: int, v1: int)
    requires p > 0 && V <= (v1 + 1) * p && (RADIX * v1) * p <= W
    requires 2 * v1 >= RADIX
    ensures (RADIX - 2) * V <= W
  {
    MulMono(V, (v1 + 1) * p, RADIX - 2);
    assert (RADIX - 2) * ((v1 + 1) * p) == ((RADIX - 2) * (v1 + 1)) * p;
    MulMono((RADIX - 2) * (v1 + 1), RADIX * v1, p);
  }

  /** If the second-limb test fires, the estimate was too big. */
  lemma SecondLimbFires(W: int, V: int, p: int, v1: int, v2: int, u01: int, u2: int, q: int, rem: int)
    requires p > 0 && q >= 0 && (v1 * RADIX + v2) * p <= V && W < (u01 * RADIX + u2 + 1) * p
    requires u01 == q * v1 + rem
    requires v2 * q > rem * RADIX + u2
    ensures W < q * V
  {
    MulMono((v1 * RADIX + v2) * p, V, q);
    assert q * (v1 * RADIX + v2) == (q * v1) * RADIX + v2 * q;
    assert q * ((v1 * RADIX + v2) * p) == (q * (v1 * RADIX + v2)) * p;
    MulMono(u01 * RADIX + u2 + 1, q * (v1 * RADIX + v2), p);
  }

  /** If it does not fire, the estimate is at most one too big. */
  lemma SecondLimbQuiet(W: int, V: int, p: int, v1: int, v2: int, u01: int, u2: int, q: int, rem: int)
    requires p > 0 && V >= 0 && V <= (v1 * RADIX + v2 + 1) * p && (u01 * RADIX + u2) * p <= W && W >= 0
    requires 0 <= q < RADIX && v1 >= 1 && v2 >= 0
    requires u01 == q * v1 + rem
    requires v2 * q <= rem * RADIX + u2
    ensures (q - 1) * V <= W
  {
    if q < 1 {
      MulMono(q - 1, 0, V);
    } else {
      var c := v1 * RADIX + v2 + 1;
      MulMono(V, c * p, q - 1);
      assert (q - 1) * (c * p) == ((q - 1) * c) * p;
      assert q * c == (q * v1) * RADIX + v2 * q + q by {
        MulDistrib(v1 * RADIX, v2 + 1, q);
        MulDistrib(v2, 1, q);
      }
      assert (q - 1) * c == q * c - c by { MulDistrib(q - 1, 1, c); }
      MulMono((q - 1) * c, u01 * RADIX + u2, p);
    }
  }

  /** A number lies between its leading limbs, moved up, and one more. */
  lemma LeadingShift(s: seq<Limb>, i: nat, lead: int)
    requires i <= |s| && lead == Val(s[i..])
    ensures Shift(lead, i) <= Val(s) < Shift(lead + 1, i)
  {
    ValSplit(s, i);
    ValBound(s[..i]);
    ShiftOne(i);
    ShiftAdd(lead, 1, i);
  }

  lemma LeadingLimbs(s: seq<Limb>, i: nat, lead: int)
    requires i <= |s| && lead == Val(s[i..])
    ensures lead * Pow(i) <= Val(s) < (lead + 1) * Pow(i)
  {
    LeadingShift(s, i, lead);
    ShiftIsMul(lead, i);
    ShiftIsMul(lead + 1, i);
  }

  lemma LastLimb(s: seq<Limb>)
    requires |s| >= 1
    ensures Val(s[|s| - 1..]) == Top(s)
  {
    ValSuffixStep(s, |s| - 1);
    assert Val(s[|s|..]) == 0;
  }

  lemma LastLimbs(s: seq<Limb>)
    ensures |s| >= 1 ==> Val(s[|s| - 1..]) == Top(s)
    ensures |s| >= 2 ==> Val(s[|s| - 2..]) == Top(s) * RADIX + s[|s| - 2]
    ensures |s| >= 3 ==> Val(s[|s| - 3..]) == (Top(s) * RADIX + s[|s| - 2]) * RADIX + s[|s| - 3]
  {
    if |s| >= 1 { LastLimb(s); }
    if |s| >= 2 { ValSuffixStep(s, |s| - 2); }
    if |s| >= 3 { ValSuffixStep(s, |s| - 3); }
  }

  /** A window holds one limb more than the normalised divisor and is below RADIX times it. */
  ghost predicate IsWindow(w: seq<Limb>, v: seq<Limb>) {
    |v| >= 1 && |w| == |v| + 1 && 2 * Top(v) >= RADIX && Val(w[1..]) < Val(v)
  }

  /** The window's leading limb is at most the divisor's. */
  lemma WindowTop(w: seq<Limb>, v: seq<Limb>)
    requires IsWindow(w, v)
    ensures Top(w) <= Top(v)
  {
    LastLimb(v);
    LastLimb(w[1..]);
    LeadingShift(v, |v| - 1, Top(v));
    LeadingShift(w[1..], |v| - 1, Top(w[1..]));
    ShiftMono(Top(v) + 1, Top(w), |v| - 1);
  }

  /** qDash is at least the quotient digit, and too big by at most `slack`. */
  ghost predicate Estimate(w: seq<Limb>, v: seq<Limb>, qDash: int, slack: int) {
    (qDash - slack) * Val(v) <= Val(w) < (qDash + 1) * Val(v)
  }

  lemma EqualTops(w: seq<Limb>, v: seq<Limb>)
    requires IsWindow(w, v) && Top(w) == Top(v)
    ensures Estimate(w, v, RADIX - 1, 1)
  {
    var n := |v|;
    LastLimbs(w);
    LastLimbs(v);
    var u01 := Top(w) * RADIX + w[n - 1];
    LeadingLimbs(w, n - 1, u01);
    LeadingLimbs(v, n - 1, Top(v));
    MulMono(RADIX * Top(v), u01, Pow(n - 1));
    EstimateEqualTops(Val(w), Val(v), Pow(n - 1), Top(v));
    assert Val(w) == w[0] + RADIX * Val(w[1..]);
  }

  /** The first estimate; when there is only one divisor limb it is exact. */
  lemma FirstEstimate(w: seq<Limb>, v: seq<Limb>, q: int, rem: int)
    requires IsWindow(w, v)
    requires Top(w) * RADIX + w[|v| - 1] == q * Top(v) + rem && 0 <= rem < Top(v) && 0 <= q < RADIX
    ensures Estimate(w, v, q, if |v| == 1 then 0 else 2)
  {
    var n := |v|;
    LastLimbs(w);
    LastLimbs(v);
    var u01 := Top(w) * RADIX + w[n - 1];
    LeadingLimbs(w, n - 1, u01);
    LeadingLimbs(v, n - 1, Top(v));
    EstimateNotTooSmall(Val(w), Val(v), Pow(n - 1), Top(v), u01, q, rem);
    EstimateAtMostTwo(Val(w), Val(v), Pow(n - 1), Top(v), u01, q);
    if n == 1 {
      assert v[0..] == v && w[0..] == w;
    }
  }

  /** If the second-limb test fires, one less is still not too small, and at most one too big. */
  lemma SecondLimbTestFires(w: seq<Limb>, v: seq<Limb>, q: int, rem: int)
    requires IsWindow(w, v) && |v| >= 2 && Estimate(w, v, q, 2)
    requires Top(w) * RADIX + w[|v| - 1] == q * Top(v) + rem && 0 <= rem < Top(v) && 0 <= q < RADIX
    requires v[|v| - 2] * q > rem * RADIX + w[|v| - 2]
    ensures q >= 1 && Estimate(w, v, q - 1, 1)
  {
    var n := |v|;
    LastLimbs(w);
    LastLimbs(v);
    var u01 := Top(w) * RADIX + w[n - 1];
    LeadingLimbs(w, n - 2, u01 * RADIX + w[n - 2]);
    LeadingLimbs(v, n - 2, Top(v) * RADIX + v[n - 2]);
    SecondLimbFires(Val(w), Val(v), Pow(n - 2), Top(v), v[n - 2], u01, w[n - 2], q, rem);
  }

  /** If it does not fire, the estimate is at most one too big as it is. */
  lemma SecondLimbTestQuiet(w: seq<Limb>, v: seq<Limb>, q: int, rem: int)
    requires IsWindow(w, v) && |v| >= 2 && Estimate(w, v, q, 2)
    requires Top(w) * RADIX + w[|v| - 1] == q * Top(v) + rem && 0 <= rem < Top(v) && 0 <= q < RADIX
    requires v[|v| - 2] * q <= rem * RADIX + w[|v| - 2]
    ensures Estimate(w, v, q, 1)
  {
    var n := |v|;
    LastLimbs(w);
    LastLimbs(v);
    var u01 := Top(w) * RADIX + w[n - 1];
    LeadingLimbs(w, n - 2, u01 * RADIX + w[n - 2]);
    LeadingLimbs(v, n - 2, Top(v) * RADIX + v[n - 2]);
    SecondLimbQuiet(Val(w), Val(v), Pow(n - 2), Top(v), v[n - 2], u01, w[n - 2], q, rem);
  }

  /** The truncation to a limb in the second-limb test loses nothing. */
  lemma InnerFits(u0: int, u1: int, q: int, v1: int, rem: int)
    requires u0 * RADIX + u1 == q * v1 + rem && 0 <= rem < v1 < RADIX
    ensures (RADIX * u0 + u1 - q * v1) % RADIX == rem
  {}

  /** The estimate q_dash of bi_divide: never below the true digit, and at most one above it. */
  method EstimateDigit(tmpU: BigInt, v: BigInt) returns (qDash: Limb)
    requires IsWindow(tmpU.comps, v.comps)
    ensures Estimate(tmpU.comps, v.comps, qDash, 1)
  {
    var n := |v.comps|;
    var u0, u1, v1 := tmpU.comps[n], tmpU.comps[n - 1], v.comps[n - 1];
    ghost var w := tmpU.comps;
    WindowTop(w, v.comps);
    if u0 == v1 {
      qDash := RADIX - 1;
      EqualTops(w, v.comps);
    } else {
      ghost var rem;
      qDash, rem := DivideColumn(u0, u1, v1);
      FirstEstimate(w, v.comps, qDash, rem);
      if n > 1 && v.comps[n - 2] != 0 {
        var v2, u2 := v.comps[n - 2], tmpU.comps[n - 2];
        var inner: int := (RADIX * u0 + u1 - qDash * v1) % RADIX;
        InnerFits(u0, u1, qDash, v1, rem);
        if v2 * qDash > inner * RADIX + u2 {
          SecondLimbTestFires(w, v.comps, qDash, rem);
          qDash := qDash - 1;
        } else {
          SecondLimbTestQuiet(w, v.comps, qDash, rem);
        }
      } else if n > 1 {
        SecondLimbTestQuiet(w, v.comps, qDash, rem);
      }
    }
  }

  /** A trimmed number one limb over, whose overflow is less than RADIX^n, has leading limb one. */
  lemma LopCarry(s: seq<Limb>, n: nat, rest: nat)
    requires Trimmed(s) && Val(s) == Pow(n) + rest && rest < Pow(n) && n >= 1
    ensures |s| == n + 1 && Val(s[..n]) == rest
  {
    TrimmedFits(s, n + 1);
    ValBound(s);
    if |s| <= n {
      PowMono(|s|, n);
    }
    ValPrefixStep(s, n);
    assert s[..n + 1] == s;
    ValBound(s[..n]);
    ShiftOne(n);
    ShiftAdd(1, 1, n);
    ShiftMono(s[n], 0, n);
    ShiftMono(2, s[n], n);
    ShiftMono(0, 0, n);
    assert s[n] == 1;
  }

  /** Add the divisor back and lop off the carry that cancels the borrow. */
  method AddBack(tmpU: BigInt, v: BigInt, ghost rest: nat)
    requires tmpU != v && |v.comps| >= 1 && |tmpU.comps| == |v.comps| + 1
    requires tmpU.Value() + v.Value() == Pow(|tmpU.comps|) + rest && rest < Pow(|tmpU.comps|)
    modifies tmpU, v
    ensures v.comps == old(v.comps) && |tmpU.comps| == |old(tmpU.comps)|
    ensures tmpU.Value() == rest
  {
    var n := |tmpU.comps|;
    Add(tmpU, v);
    LopCarry(tmpU.comps, n, rest);
    tmpU.comps := tmpU.comps[..|tmpU.comps| - 1];
    v.comps := v.comps[..|v.comps| - 1];
  }

  /**
   * Multiply and subtract, adding the divisor back when the estimate was one too big. The window
   * becomes the remainder and the divisor ends as it was.
   */
  method ReduceWindow(tmpU: BigInt, v: BigInt, qDash: Limb) returns (q: Limb)
    requires tmpU != v && v.Normal() && IsWindow(tmpU.comps, v.comps)
    requires Estimate(tmpU.comps, v.comps, qDash, 1)
    modifies tmpU, v
    ensures v.comps == old(v.comps) && |tmpU.comps| == |old(tmpU.comps)|
    ensures old(tmpU.Value()) == q * v.Value() + tmpU.Value()
    ensures tmpU.Value() < v.Value()
  {
    hide Pow, Shift, Val;
    var n := |v.comps|;
    ghost var W, V := tmpU.Value(), v.Value();
    MulDistrib(qDash, 1, V);
    MulDistrib(qDash - 1, 1, V);
    if qDash == 0 {
      return 0;
    }
    ValBound(v.comps);
    PowMono(n, n + 1);
    var product := IntMultiply(v, qDash);
    assert product.comps[..|product.comps|] == product.comps;
    var isNegative := Subtract(tmpU, product);
    MoreComps(tmpU, n + 1);
    q := qDash;
    if isNegative {
      q := q - 1;
      AddBack(tmpU, v, W - (qDash - 1) * V);
    }
  }

  /** A number below an n limb divisor has no limbs from n on. */
  lemma NoHighLimbs(hi: seq<Limb>, v: seq<Limb>)
    requires |v| <= |hi| && Val(hi) < Val(v)
    ensures Val(hi[|v|..]) == 0 && Val(hi[..|v|]) == Val(hi)
  {
    var n := |v|;
    ValBound(v);
    ValSplit(hi, n);
    ShiftOne(n);
    ShiftMono(1, Val(hi[n..]), n);
    ShiftMono(0, 0, n);
  }

  /** The limbs above a window are zero. */
  lemma AboveWindow(u: seq<Limb>, v: seq<Limb>, s: nat)
    requires |v| >= 1 && s + |v| + 1 <= |u| && Val(u[s + 1..]) < Val(v)
    ensures Val(u[s + |v| + 1..]) == 0
    ensures Val(u[s..s + |v| + 1][1..]) == Val(u[s + 1..])
  {
    NoHighLimbs(u[s + 1..], v);
    assert u[s + 1..][|v|..] == u[s + |v| + 1..];
    assert u[s..s + |v| + 1][1..] == u[s + 1..][..|v|];
  }

  lemma WindowValue(w: seq<Limb>, above: seq<Limb>)
    requires Val(above) == 0
    ensures Val(w + above) == Val(w)
  {
    ValConcat(w, above);
    ShiftMono(0, 0, |w|);
  }

  /** Writing the reduced window back and recording its digit keeps u + quotient * v. */
  lemma WriteBack(u: seq<Limb>, u': seq<Limb>, w: seq<Limb>, w': seq<Limb>, quot: seq<Limb>, v: seq<Limb>, s: nat,
                  q: Limb)
    requires |v| >= 1 && s + |v| + 1 <= |u| && |w'| == |v| + 1
    requires w == u[s..s + |v| + 1] && u' == u[..s] + w' + u[s + |v| + 1..]
    requires Val(u[s + 1..]) < Val(v)
    requires Val(w) == q * Val(v) + Val(w')
    requires s < |quot| && forall k :: 0 <= k <= s ==> quot[k] == 0
    ensures Val(u'[s..]) == Val(w')
    ensures Val(u') + Val(quot[s := q]) * Val(v) == Val(u) + Val(quot) * Val(v)
  {
    hide Val, Shift;
    var above := u[s + |v| + 1..];
    AboveWindow(u, v, s);
    assert u == u[..s] + (w + above) && u' == u[..s] + (w' + above);
    assert u'[s..] == w' + above;
    ValConcat(u[..s], w + above);
    ValConcat(u[..s], w' + above);
    WindowValue(w, above);
    WindowValue(w', above);
    QuotientDigit(quot, s, q);
    DigitMoves(Val(w), Val(w'), Val(quot), q, Val(v), s);
  }

  /** What leaves the window as q times the divisor enters the quotient as digit q. */
  lemma DigitMoves(W: int, W': int, quot: int, q: int, V: int, s: nat)
    requires W == q * V + W'
    ensures Shift(W', s) + (quot + Shift(q, s)) * V == Shift(W, s) + quot * V
  {
    ShiftAdd(q * V, W', s);
    ShiftMul(q, V, s);
    MulDistrib(quot, Shift(q, s), V);
  }

  lemma QuotientDigit(quot: seq<Limb>, s: nat, q: Limb)
    requires s < |quot| && quot[s] == 0
    ensures Val(quot[s := q]) == Val(quot) + Shift(q, s)
  {
    var r := quot[s := q];
    ValSplit(quot, s);
    ValSplit(r, s);
    assert r[..s] == quot[..s] && r[s + 1..] == quot[s + 1..];
    ValSuffixStep(quot, s);
    ValSuffixStep(r, s);
    ShiftAdd(Val(quot[s..]), q, s);
  }

  /** One round of the digit loop: the window at limb s of u is reduced and its digit recorded. */
  method DivideStep(u: BigInt, tmpU: BigInt, v: BigInt, quotient: BigInt, s: nat) returns (q: Limb)
    requires u != v && u != tmpU && u != quotient && tmpU != v && tmpU != quotient && v != quotient
    requires v.Normal() && 2 * Top(v.comps) >= RADIX
    requires s + |v.comps| + 1 <= |u.comps| && Val(u.comps[s + 1..]) < v.Value()
    requires s < |quotient.comps| && forall k :: 0 <= k <= s ==> quotient.comps[k] == 0
    modifies u, tmpU, v, quotient
    ensures v.comps == old(v.comps) && |u.comps| == |old(u.comps)|
    ensures quotient.comps == old(quotient.comps)[s := q]
    ensures Val(u.comps[s..]) < v.Value()
    ensures u.Value() + quotient.Value() * v.Value() == old(u.Value()) + old(quotient.Value()) * v.Value()
  {
    var n := |v.comps|;
    ghost var us, w, vs := u.comps, u.comps[s..s + n + 1], v.comps;
    tmpU.comps := u.comps[s..s + n + 1];
    AboveWindow(us, vs, s);
    var qDash := EstimateDigit(tmpU, v);
    q := ReduceWindow(tmpU, v, qDash);
    u.comps := u.comps[..s] + tmpU.comps + u.comps[s + n + 1..];
    WriteBack(us, u.comps, w, tmpU.comps, quotient.comps, vs, s, q);
    quotient.comps := quotient.comps[s := q];
  }

  /** The digit loop of bi_divide: u becomes the remainder and the digits make up the quotient. */
  method DivideLoop(u: BigInt, v: BigInt, m: nat) returns (quotient: BigInt)
    requires u != v && v.Normal() && 2 * Top(v.comps) >= RADIX
    requires |u.comps| == m + |v.comps| + 1 && Val(u.comps[m + 1..]) < v.Value()
    modifies u, v
    ensures fresh(quotient) && |quotient.comps| == m + 1
    ensures v.comps == old(v.comps) && |u.comps| == |old(u.comps)|
    ensures old(u.Value()) == quotient.Value() * v.Value() + u.Value()
    ensures u.Value() < v.Value()
  {
    var n := |v.comps|;
    quotient := new BigInt(m + 1);
    var tmpU := new BigInt(n + 1);
    quotient.comps := Zeros(m + 1);
    ValZeros(quotient.comps);
    var j := 0;
    while j <= m
      invariant 0 <= j <= m + 1
      invariant v.comps == old(v.comps) && |u.comps| == m + n + 1 && |quotient.comps| == m + 1
      invariant forall k :: 0 <= k < m + 1 - j ==> quotient.comps[k] == 0
      invariant Val(u.comps[m + 1 - j..]) < v.Value()
      invariant u.Value() + quotient.Value() * v.Value() == old(u.Value())
    {
      var _ := DivideStep(u, tmpU, v, quotient, m - j);
      j := j + 1;
    }
    assert u.comps[0..] == u.comps;
  }

  /** The least product a normalised leading limb can have. */
  lemma NormalisedTop(top: int, d: int)
    requires 0 < top < RADIX - 1 && d == RADIX / (top + 1)
    ensures 2 * (top * d) >= RADIX
    ensures (top + 1) * d <= RADIX
  {
    DivisionBounds(top, d);
    if d >= 2 && top >= 2 {
      SumBelowProduct(d, top);
    }
  }

  lemma DivisionBounds(top: int, d: int)
    requires 0 < top < RADIX - 1 && d == RADIX / (top + 1)
    ensures top * d + d <= RADIX <= top * d + d + top
    ensures d >= 1 && (top + 1) * d == top * d + d
  {
    var r := RADIX % (top + 1);
    assert RADIX == d * (top + 1) + r;
    MulDistrib(top, 1, d);
  }

  lemma SumBelowProduct(x: int, y: int)
    requires x >= 2 && y >= 2
    ensures x + y <= x * y
  {
    MulMono(2, x, y - 1);
    MulDistrib(y, -1, x);
  }

  /** Scaling by the normaliser keeps the length and brings the leading limb to at least half the radix. */
  lemma NormalisedDivisor(v: seq<Limb>, vd: seq<Limb>)
    requires Trimmed(v) && 0 < Top(v) < RADIX - 1
    requires Trimmed(vd) && Val(vd) == Val(v) * Normaliser(Top(v))
    ensures |vd| == |v| && 2 * Top(vd) >= RADIX
  {
    NormaliserBounds(Top(v));
    ScaledDivisor(v, vd, Top(v), Normaliser(Top(v)));
  }

  lemma NormaliserBounds(top: Limb)
    requires 0 < top < RADIX - 1
    ensures 2 * (top * Normaliser(top)) >= RADIX
    ensures (top + 1) * Normaliser(top) <= RADIX
    ensures top * Normaliser(top) >= 1
  {
    var t: int := top;
    NormalisedTop(t, RADIX / (t + 1));
  }

  lemma ScaledDivisor(v: seq<Limb>, vd: seq<Limb>, top: int, d: int)
    requires |v| >= 1 && top == Top(v) && Trimmed(vd) && Val(vd) == Val(v) * d && d >= 1
    requires 2 * (top * d) >= RADIX && (top + 1) * d <= RADIX
    ensures |vd| == |v| && 2 * Top(vd) >= RADIX
  {
    var n := |v|;
    ScaledBounds(v, top, d);
    ShiftMono((top + 1) * d, RADIX, n - 1);
    RadixShift(n);
    TrimmedFits(vd, n);
    ScaledTop(vd, n, top * d);
  }

  lemma RadixShift(n: nat)
    requires n >= 1
    ensures Shift(RADIX, n - 1) == Pow(n)
  {
    assert RADIX == RADIX * 1;
    ShiftUp(1, n - 1);
    ShiftOne(n);
  }

  lemma ScaledBounds(v: seq<Limb>, top: Limb, d: nat)
    requires |v| >= 1 && top == Top(v) && d >= 1
    ensures Shift(top * d, |v| - 1) <= Val(v) * d < Shift((top + 1) * d, |v| - 1)
  {
    var n := |v|;
    LastLimb(v);
    LeadingShift(v, n - 1, top);
    ShiftMul(top, d, n - 1);
    ShiftMul(top + 1, d, n - 1);
    MulMono(Shift(top, n - 1), Val(v), d);
    MulMono(Val(v) + 1, Shift(top + 1, n - 1), d);
    MulDistrib(Val(v), 1, d);
  }

  /** A number of at most n limbs that is at least c * RADIX^(n-1) has n limbs, the leading one at least c. */
  lemma ScaledTop(s: seq<Limb>, n: nat, c: int)
    requires 1 <= |s| <= n && c >= 1 && Val(s) >= Shift(c, n - 1)
    ensures |s| == n && Top(s) >= c
  {
    ShiftMono(1, c, n - 1);
    ShiftOne(n - 1);
    ValBound(s);
    if |s| < n {
      PowMono(|s|, n - 1);
    }
    LastLimb(s);
    LeadingShift(s, n - 1, Top(s));
    ShiftMono(Top(s) + 1, c, n - 1);
  }

  /** Before the first digit the top of the scaled dividend is below the scaled divisor. */
  lemma FirstWindow(u: seq<Limb>, u0: nat, v: seq<Limb>, vd: nat, m: nat, d: Limb)
    requires |u| == m + |v| + 1 && d >= 1 && Trimmed(v) && Val(v) > 0
    requires u0 < Pow(m + |v|) && Val(u) == u0 * d && vd == Val(v) * d
    ensures Val(u[m + 1..]) < vd
  {
    var n := |v|;
    var lead := Val(u[m + 1..]);
    LeadingShift(u, m + 1, lead);
    TrimmedLower(v);
    MulMono(Pow(n - 1), Val(v), d);
    ShiftMul(Pow(n - 1), d, m + 1);
    ShiftOne(n - 1);
    ShiftShift(1, n - 1, m + 1);
    ShiftOne(m + n);
    MulMono(u0 + 1, Pow(m + n), d);
    MulDistrib(u0, 1, d);
    ShiftMono(Pow(n - 1) * d, lead, m + 1);
  }

  /** Scaling dividend and divisor by d leaves the quotient alone and scales the remainder. */
  lemma Unscale(u0: nat, v0: nat, d: nat, q: nat, r: nat)
    requires d >= 1 && v0 >= 1 && u0 * d == q * (v0 * d) + r && r < v0 * d
    ensures q == u0 / v0 && r / d == u0 % v0
  {
    assert q * (v0 * d) == (q * v0) * d;
    var rest := u0 - q * v0;
    assert r == rest * d by {
      MulDistrib(u0, -(q * v0), d);
    }
    if rest >= v0 { MulMono(v0, rest, d); }
    if rest < 0 { MulMono(rest, -1, d); }
    DivModUnique(u0, v0, q, rest);
    DivModUnique(r, d, rest, 0);
  }

  /** One modulus of a context: its value, the value scaled for bi_divide, and Barrett's mu. */
  datatype Modulus = Modulus(bim: BigInt, normalised: BigInt, mu: BigInt) {
    ghost function Objects(): set<BigInt> {
      {bim, normalised, mu}
    }

    /** The divisor fields bi_set_mod establishes; mu is stated with Barrett reduction. */
    ghost predicate Divisor()
      reads bim, normalised
    {
      && bim != normalised
      && IsDivisor(bim.comps)
      && normalised.Normal() && normalised.Value() == bim.Value() * Normaliser(Top(bim.comps))
    }
  }

  /** A divisor bi_divide can be given: trimmed, not zero, its leading limb not RADIX - 1. */
  ghost predicate IsDivisor(v: seq<Limb>) {
    Trimmed(v) && Val(v) > 0 && Top(v) < RADIX - 1
  }

  /**
   * bi_divide after its size checks: v is the divisor, vd the divisor scaled by d (v itself when
   * d is one), u the dividend scaled by d. The quotient and d times the remainder come out.
   */
  method DivideScaled(u: BigInt, vd: BigInt, m: nat, d: Limb, ghost u0: nat, ghost v: seq<Limb>)
    returns (quotient: BigInt)
    requires u != vd && IsDivisor(v) && d == Normaliser(Top(v)) && d >= 1
    requires vd.Normal() && vd.Value() == Val(v) * d
    requires u.Value() == u0 * d && u0 < Pow(m + |v|)
    requires |u.comps| == m + |v| + 1
    modifies u, vd
    ensures fresh(quotient) && |quotient.comps| == m + 1 && vd.comps == old(vd.comps)
    ensures |u.comps| == |old(u.comps)|
    ensures quotient.Value() == u0 / Val(v)
    ensures u.Value() / d == u0 % Val(v)
  {
    TrimmedLower(v);
    NormalisedDivisor(v, vd.comps);
    FirstWindow(u.comps, u0, v, vd.Value(), m, d);
    ghost var V := vd.Value();
    quotient := DivideLoop(u, vd, m);
    Unscale(u0, Val(v), d, quotient.Value(), u.Value());
  }

  /** A number below RADIX^n scaled by a limb stays below RADIX^(n+1). */
  lemma ScaledSize(s: seq<Limb>, r: seq<Limb>, d: Limb)
    requires Trimmed(s) && Trimmed(r) && Val(r) == Val(s) * d && d >= 1
    ensures |s| <= |r|
  {
    MulMono(1, d, Val(s));
    if |r| < |s| {
      ShorterIsLess(r, s);
    }
  }

  /**
   * bi_divide: the quotient of u by v, or u modulo v. In modulus mode v is the modulus of the
   * context entry `mod`, whose scaled divisor is used. u is consumed.
   */
  method Divide(u: BigInt, v: BigInt, mod: Modulus, isMod: bool) returns (r: BigInt)
    requires u != v && u.Normal() && IsDivisor(v.comps)
    requires !isMod ==> |u.comps| >= |v.comps|
    requires isMod ==> v == mod.bim && mod.Divisor() && u != mod.normalised
    modifies u, v, if isMod then {mod.normalised} else {}
    ensures r == u || fresh(r)
    ensures r.Normal()
    ensures r.Value() == if isMod then old(u.Value()) % old(v.Value()) else old(u.Value()) / old(v.Value())
    ensures v.comps == old(v.comps)
    ensures isMod ==> mod.normalised.comps == old(mod.normalised.comps)
  {
    var n, m := |v.comps|, |u.comps| - |v.comps|;
    var origUSize := |u.comps|;
    ghost var u0, vs := u.Value(), v.comps;
    TrimmedLower(vs);
    if isMod {
      var c := Compare(v, u);
      if c > 0 {
        DivModUnique(u0, Val(vs), 0, u0);
        return u;
      }
    }
    ValBound(u.comps);
    var d := Normaliser(v.comps[n - 1]);
    var u', v' := u, v;
    if d > 1 {
      u' := IntMultiply(u, d);
      ScaledSize(u.comps, u'.comps, d);
      if isMod {
        v' := mod.normalised;
      } else {
        v' := IntMultiply(v, d);
      }
    }
    if origUSize == |u'.comps| {
      MoreComps(u', origUSize + 1);
    }
    var quotient := DivideScaled(u', v', m, d, u0, vs);
    if isMod {
      Trim(u');
      IntDivide(u', d);
      r := u';
    } else {
      Trim(quotient);
      r := quotient;
    }
  }
}
