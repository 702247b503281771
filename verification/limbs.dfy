/** Little-endian numbers in radix 2^32, the representation behind krypton's bigint. */
module Limbs {
  import opened Arithmetic

  /** COMP_RADIX */
  const RADIX: int := 0x1_0000_0000

  /** A single precision component (`comp`, a uint32_t). */
  type Limb = x: int | 0 <= x < 0x1_0000_0000

  /** RADIX to the power n. */
  function Pow(n: nat): (p: int)
    ensures p >= 1
  {
    if n == 0 then 1 else RADIX * Pow(n - 1)
  }

  /** x moved up by n limbs, that is x * RADIX^n, written so that reasoning about it stays linear. */
  function Shift(x: int, n: nat): (y: int) {
    if n == 0 then x else RADIX * Shift(x, n - 1)
  }

  /** The number a sequence of limbs stands for, least significant limb first. */
  function Val(s: seq<Limb>): (v: nat)
  {
    if s == [] then 0 else s[0] + RADIX * Val(s[1..])
  }

  /** No leading zero limbs, except that zero itself is one limb. */
  predicate Trimmed(s: seq<Limb>) {
    |s| >= 1 && (|s| > 1 ==> s[|s| - 1] != 0)
  }

  lemma {:induction false} PowAdd(m: nat, n: nat)
    ensures Pow(m + n) == Pow(m) * Pow(n)
  {
    if m > 0 {
      PowAdd(m - 1, n);
      MulAssoc(RADIX, Pow(m - 1), Pow(n));
    }
  }

  lemma {:induction false} PowMono(m: nat, n: nat)
    requires m <= n
    ensures Pow(m) <= Pow(n)
  {
    if m < n {
      PowMono(m, n - 1);
    }
  }

  lemma {:induction false} ShiftAdd(x: int, y: int, n: nat)
    ensures Shift(x + y, n) == Shift(x, n) + Shift(y, n)
  {
    if n > 0 {
      ShiftAdd(x, y, n - 1);
    }
  }

  lemma {:induction false} ShiftUp(x: int, n: nat)
    ensures Shift(RADIX * x, n) == Shift(x, n + 1)
  {
    if n > 0 {
      ShiftUp(x, n - 1);
    }
  }

  lemma {:induction false} ShiftShift(x: int, m: nat, n: nat)
    ensures Shift(Shift(x, m), n) == Shift(x, m + n)
  {
    if n > 0 {
      ShiftShift(x, m, n - 1);
    }
  }

  lemma {:induction false} ShiftIsMul(x: int, n: nat)
    ensures Shift(x, n) == x * Pow(n)
  {
    if n > 0 {
      ShiftIsMul(x, n - 1);
      assert RADIX * (x * Pow(n - 1)) == x * (RADIX * Pow(n - 1));
    }
  }

  lemma {:induction false} ShiftMul(x: int, b: int, n: nat)
    ensures Shift(x * b, n) == Shift(x, n) * b
  {
    if n > 0 {
      ShiftMul(x, b, n - 1);
      assert RADIX * (Shift(x, n - 1) * b) == (RADIX * Shift(x, n - 1)) * b;
    }
  }

  lemma {:induction false} ShiftMono(x: int, y: int, n: nat)
    ensures x <= y ==> Shift(x, n) <= Shift(y, n)
    ensures x < y ==> Shift(x, n) < Shift(y, n)
    ensures Shift(0, n) == 0
  {
    if n > 0 {
      ShiftMono(x, y, n - 1);
    }
  }

  lemma {:induction false} ShiftOne(n: nat)
    ensures Shift(1, n) == Pow(n)
  {
    if n > 0 {
      ShiftOne(n - 1);
    }
  }

  lemma {:induction false} ValConcat(s: seq<Limb>, t: seq<Limb>)
    ensures Val(s + t) == Val(s) + Shift(Val(t), |s|)
  {
    if s == [] {
      assert s + t == t;
    } else {
      ValConcat(s[1..], t);
      assert (s + t)[1..] == s[1..] + t;
    }
  }

  lemma ValSplit(s: seq<Limb>, i: nat)
    requires i <= |s|
    ensures Val(s) == Val(s[..i]) + Shift(Val(s[i..]), i)
  {
    assert s == s[..i] + s[i..];
    ValConcat(s[..i], s[i..]);
  }

  lemma ValSingle(x: Limb)
    ensures Val([x]) == x
  {
    assert [x][1..] == [];
  }

  lemma ValAppend(s: seq<Limb>, x: Limb)
    ensures Val(s + [x]) == Val(s) + Shift(x, |s|)
  {
    ValConcat(s, [x]);
    ValSingle(x);
  }

  /** One more limb of a prefix. */
  lemma ValPrefixStep(s: seq<Limb>, i: nat)
    requires i < |s|
    ensures Val(s[..i + 1]) == Val(s[..i]) + Shift(s[i], i)
  {
    assert s[..i + 1] == s[..i] + [s[i]];
    ValAppend(s[..i], s[i]);
  }

  /** One more limb of a suffix. */
  lemma ValSuffixStep(s: seq<Limb>, i: nat)
    requires i < |s|
    ensures Val(s[i..]) == s[i] + RADIX * Val(s[i + 1..])
  {
    assert s[i..][1..] == s[i + 1..];
  }

  lemma {:induction false} ValBound(s: seq<Limb>)
    ensures Val(s) < Pow(|s|)
  {
    if s != [] {
      ValBound(s[1..]);
    }
  }

  lemma {:induction false} ValZeros(s: seq<Limb>)
    requires forall i :: 0 <= i < |s| ==> s[i] == 0
    ensures Val(s) == 0
  {
    if s != [] {
      ValZeros(s[1..]);
    }
  }

  lemma ValPadded(s: seq<Limb>, n: nat)
    ensures Val(s + Zeros(n)) == Val(s)
  {
    ValConcat(s, Zeros(n));
    ValZeros(Zeros(n));
    ShiftMono(0, 0, |s|);
  }

  /** The low limbs are the remainder and the high limbs the quotient by a power of the radix. */
  lemma ValDivMod(s: seq<Limb>, i: nat)
    requires i <= |s|
    ensures Val(s[..i]) == Val(s) % Pow(i)
    ensures Val(s[i..]) == Val(s) / Pow(i)
  {
    ValSplit(s, i);
    ShiftIsMul(Val(s[i..]), i);
    ValBound(s[..i]);
    DivModUnique(Val(s), Pow(i), Val(s[i..]), Val(s[..i]));
  }

  /** A trimmed number of n limbs is at least RADIX^(n-1). */
  lemma TrimmedLower(s: seq<Limb>)
    requires Trimmed(s) && Val(s) > 0
    ensures Val(s) >= Pow(|s| - 1)
    ensures s[|s| - 1] >= 1
  {
    var n := |s| - 1;
    ValPrefixStep(s, n);
    assert s[..n + 1] == s;
    if n == 0 {
      assert s[..0] == [];
    } else {
      ShiftMono(1, s[n], n);
      ShiftOne(n);
    }
  }

  /** A longer trimmed number is a larger one. */
  lemma ShorterIsLess(s: seq<Limb>, t: seq<Limb>)
    requires Trimmed(t) && 1 <= |s| < |t|
    ensures Val(s) < Val(t)
  {
    ValBound(s);
    PowMono(|s|, |t| - 1);
    if Val(t) == 0 {
      TrimmedZero(t);
    }
    TrimmedLower(t);
  }

  lemma TrimmedZero(t: seq<Limb>)
    requires Trimmed(t) && Val(t) == 0
    ensures t == [0]
  {
    if |t| > 1 {
      var n := |t| - 1;
      ValPrefixStep(t, n);
      assert t[..n + 1] == t;
      ShiftMono(0, t[n], n);
    } else {
      ValSingle(t[0]);
      assert t == [t[0]];
    }
  }

  /** Numbers below RADIX^n that are trimmed fit in n limbs. */
  lemma TrimmedFits(s: seq<Limb>, n: nat)
    requires Trimmed(s) && Val(s) < Pow(n) && n >= 1
    ensures |s| <= n
  {
    if |s| > n {
      if Val(s) == 0 {
        TrimmedZero(s);
      }
      TrimmedLower(s);
      PowMono(n, |s| - 1);
    }
  }

  /** A larger leading limb decides the comparison of equally long numbers. */
  lemma TopLimbDecides(s: seq<Limb>, t: seq<Limb>, i: nat)
    requires i < |s| == |t|
    requires s[i + 1..] == t[i + 1..] && s[i] < t[i]
    ensures Val(s) < Val(t)
  {
    ValSplit(s, i);
    ValSplit(t, i);
    ValBound(s[..i]);
    ValSuffixStep(s, i);
    ValSuffixStep(t, i);
    ShiftAdd(Val(s[i..]), 1, i);
    ShiftMono(Val(s[i..]) + 1, Val(t[i..]), i);
    ShiftOne(i);
  }

  /** Trimmed representations are unique. */
  lemma {:induction false} TrimmedUnique(s: seq<Limb>, t: seq<Limb>)
    requires Trimmed(s) && Trimmed(t) && Val(s) == Val(t)
    ensures s == t
  {
    if |s| < |t| {
      ShorterIsLess(s, t);
    } else if |t| < |s| {
      ShorterIsLess(t, s);
    } else {
      SameLengthUnique(s, t);
    }
  }

  lemma {:induction false} SameLengthUnique(s: seq<Limb>, t: seq<Limb>)
    requires |s| == |t| && Val(s) == Val(t)
    ensures s == t
  {
    if s != [] {
      assert s[0] == t[0] && Val(s[1..]) == Val(t[1..]);
      SameLengthUnique(s[1..], t[1..]);
      assert s == [s[0]] + s[1..] && t == [t[0]] + t[1..];
    }
  }
}
