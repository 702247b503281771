/** regular_multiply: schoolbook multiplication, whole or partial. */
module Multiplication {
  import opened Arithmetic
  import opened Limbs
  import opened BigInts

  /** What a row has added so far: the limbs a[start..j] times b, moved up by i. */
  ghost function RowSum(a: seq<Limb>, b: int, i: nat, start: nat, j: nat): int
    requires start <= |a| && j <= |a|
  {
    Shift((Val(a[..j]) - Val(a[..start])) * b, i)
  }

  /** One more column of a row. */
  lemma RowColumn(r: seq<Limb>, s: seq<Limb>, a: seq<Limb>, b: int, i: nat, start: nat, j: nat, carry: int, carry': int)
    requires i + j < |r| && i + j < |s| && start <= j < |a|
    requires Val(r[..i + j]) + Shift(carry, i + j) == Val(s[..i + j]) + RowSum(a, b, i, start, j)
    requires r[i + j] + carry' * RADIX == a[j] * b + s[i + j] + carry
    ensures Val(r[..i + j + 1]) + Shift(carry', i + j + 1) == Val(s[..i + j + 1]) + RowSum(a, b, i, start, j + 1)
  {
    hide Val, Shift;
    ValPrefixStep(r, i + j);
    ValPrefixStep(s, i + j);
    ValPrefixStep(a, j);
    CarryColumn(r[i + j], a[j] * b, s[i + j], carry, carry', i + j);
    MulDistrib(Val(a[..j]) - Val(a[..start]), Shift(a[j], j), b);
    ShiftMul(a[j], b, j);
    ShiftAdd((Val(a[..j]) - Val(a[..start])) * b, Shift(a[j] * b, j), i);
    ShiftShift(a[j] * b, j, i);
  }

  /** What a row that stopped at column `end` still owes lies entirely at or above limb `cut`. */
  lemma RowRest(a: seq<Limb>, b: nat, i: nat, start: nat, end: nat, cut: nat) returns (over: nat)
    requires start <= end <= |a| && cut <= i + end
    ensures RowSum(a, b, i, start, |a|) == RowSum(a, b, i, start, end) + Shift(over, cut)
  {
    ValSplit(a, end);
    assert a[..|a|] == a;
    var rest := Val(a[end..]);
    MulDistrib(Val(a[..end]) - Val(a[..start]), Shift(rest, end), b);
    ShiftMul(rest, b, end);
    ShiftAdd((Val(a[..end]) - Val(a[..start])) * b, Shift(rest * b, end), i);
    ShiftShift(rest * b, end, i);
    MulMono(0, rest, b);
    ShiftMono(0, rest * b, i + end - cut);
    over := Shift(rest * b, i + end - cut);
    ShiftShift(rest * b, i + end - cut, cut);
  }

  /** Limbs that are zero do not count. */
  lemma ZeroTail(s: seq<Limb>, i: nat, cut: nat)
    requires i <= cut <= |s|
    requires forall k :: i <= k < cut ==> s[k] == 0
    ensures Val(s[..cut]) == Val(s[..i])
  {
    assert s[..cut] == s[..i] + Zeros(cut - i);
    ValPadded(s[..i], cut - i);
  }

  /**
   * One row of the product: limbs start.. of bia, times b, are added to biR from limb i + start
   * on. The row stops at limb `cut`; `over` is the part of the row that falls at or above it.
   */
  method AddRow(biR: BigInt, bia: BigInt, b: Limb, i: nat, start: nat, cut: nat) returns (ghost over: nat)
    requires biR != bia && start < |bia.comps| && i + |bia.comps| < |biR.comps| && cut <= |biR.comps|
    requires forall k :: i + |bia.comps| <= k < cut ==> biR.comps[k] == 0
    modifies biR
    ensures |biR.comps| == |old(biR.comps)|
    ensures forall k :: i + |bia.comps| < k < cut ==> biR.comps[k] == 0
    ensures cut == |biR.comps| ==> over == 0
    ensures Val(biR.comps[..cut]) + Shift(over, cut)
            == Val(old(biR.comps)[..cut]) + RowSum(bia.comps, b, i, start, |bia.comps|)
  {
    ghost var s, a := biR.comps, bia.comps;
    var n := |bia.comps|;
    var j, carry: Limb := start, 0;
    ShiftMono(0, 0, i);
    ShiftMono(0, 0, i + start);
    while j < n && i + j < cut
      invariant start <= j <= n && |biR.comps| == |s|
      invariant i + start >= cut ==> j == start && biR.comps == s
      invariant i + start < cut ==> i + j <= cut
      invariant biR.comps[i + j..] == s[i + j..]
      invariant Val(biR.comps[..i + j]) + Shift(carry, i + j) == Val(s[..i + j]) + RowSum(a, b, i, start, j)
    {
      assert biR.comps[i + j] == biR.comps[i + j..][0] == s[i + j];
      var low, high := MultiplyColumn(biR.comps[i + j], bia.comps[j], b, carry);
      ghost var before, carry0 := biR.comps, carry;
      biR.comps := biR.comps[i + j := low];
      carry := high;
      assert biR.comps[..i + j] == before[..i + j];
      assert biR.comps[i + j + 1..] == before[i + j..][1..] == s[i + j + 1..];
      RowColumn(biR.comps, s, a, b, i, start, j, carry0, carry);
      j := j + 1;
    }
    ghost var before := biR.comps;
    biR.comps := biR.comps[i + j := carry];
    over := RowEnd(before, biR.comps, s, a, b, i, start, j, carry, cut);
  }

  /** The last limb written by a row. */
  lemma RowEnd(before: seq<Limb>, r: seq<Limb>, s: seq<Limb>, a: seq<Limb>, b: Limb,
               i: nat, start: nat, j: nat, carry: Limb, cut: nat) returns (over: nat)
    requires |before| == |s| && start <= j <= |a| && i + |a| < |s| && cut <= |s|
    requires i + start >= cut ==> j == start
    requires i + start < cut ==> i + j <= cut
    requires j == |a| || i + j >= cut
    requires before[i + j..] == s[i + j..] && r == before[i + j := carry]
    requires forall k :: i + |a| <= k < cut ==> s[k] == 0
    requires Val(before[..i + j]) + Shift(carry, i + j) == Val(s[..i + j]) + RowSum(a, b, i, start, j)
    requires i + start >= cut ==> before == s
    ensures forall k :: i + |a| < k < cut ==> r[k] == 0
    ensures cut == |r| ==> over == 0
    ensures Val(r[..cut]) + Shift(over, cut) == Val(s[..cut]) + RowSum(a, b, i, start, |a|)
  {
    forall k | i + j <= k < cut
      ensures k > i + j ==> r[k] == s[k]
    {
      assert before[k] == before[i + j..][k - i - j] == s[k];
    }
    if i + j < cut {
      over := 0;
      ShiftMono(0, 0, cut);
      assert r[..i + j] == before[..i + j];
      ValPrefixStep(r, i + j);
      ZeroTail(r, i + j + 1, cut);
      ZeroTail(s, i + j, cut);
    } else {
      over := RowCut(before, r, s, a, b, i, start, j, carry, cut);
    }
  }

  /** A row that reached limb `cut` with columns, and perhaps a carry, left over. */
  lemma RowCut(before: seq<Limb>, r: seq<Limb>, s: seq<Limb>, a: seq<Limb>, b: Limb,
               i: nat, start: nat, j: nat, carry: Limb, cut: nat) returns (over: nat)
    requires |before| == |s| && start <= j <= |a| && i + |a| < |s| && cut <= |s|
    requires if i + start >= cut then j == start && before == s else i + j == cut
    requires r == before[i + j := carry]
    requires Val(before[..i + j]) + Shift(carry, i + j) == Val(s[..i + j]) + RowSum(a, b, i, start, j)
    ensures Val(r[..cut]) + Shift(over, cut) == Val(s[..cut]) + RowSum(a, b, i, start, |a|)
  {
    var rest := RowRest(a, b, i, start, j, cut);
    assert r[..cut] == before[..cut];
    if i + start >= cut {
      over := rest;
      ShiftMono(0, 0, i);
    } else {
      over := rest + carry;
      ShiftAdd(rest, carry, cut);
    }
  }

  /** The columns below outer - 1 that row i of an outer partial product leaves out. */
  lemma DroppedRow(a: seq<Limb>, b: Limb, i: nat, start: nat)
    requires start <= |a|
    ensures 0 <= Shift(Val(a[..start]) * b, i) <= Pow(i + start + 1)
    ensures Shift(Val(a) * b, i) == RowSum(a, b, i, start, |a|) + Shift(Val(a[..start]) * b, i)
  {
    var v := Val(a[..start]);
    ValBound(a[..start]);
    MulMono(v, Pow(start), b);
    MulMono(b, RADIX, Pow(start));
    ShiftMono(v * b, Pow(start + 1), i);
    ShiftMono(0, v * b, i);
    ShiftIsMul(Pow(start + 1), i);
    PowAdd(start + 1, i);
    assert a[..|a|] == a;
    MulDistrib(Val(a) - v, v, b);
    ShiftAdd((Val(a) - v) * b, v * b, i);
  }

  /** The rows of regular_multiply, all stopped at limb `cut`, added into a biR of zeros. */
  method MultiplyRows(biR: BigInt, bia: BigInt, bib: BigInt, cut: nat, outer: nat)
    returns (ghost over: nat, ghost dropped: nat)
    requires biR != bia && biR != bib && |bia.comps| >= 1 && cut <= |biR.comps| == |bia.comps| + |bib.comps|
    requires forall k :: 0 <= k < |biR.comps| ==> biR.comps[k] == 0
    modifies biR
    ensures |biR.comps| == |old(biR.comps)| && (cut == |biR.comps| ==> over == 0)
    ensures Val(biR.comps[..cut]) + Shift(over, cut) + dropped == bia.Value() * bib.Value()
    ensures outer <= 1 || outer >= |bia.comps| ==> dropped == 0
    ensures outer >= 1 ==> dropped <= Shift(outer - 1, outer)
  {
    var n, t := |bia.comps|, |bib.comps|;
    ghost var a, b := bia.comps, bib.comps;
    over, dropped := 0, 0;
    if outer >= 1 { ShiftMono(0, 0, outer); }
    var i := 0;
    ValZeros(biR.comps[..cut]);
    ShiftMono(0, 0, cut);
    while i < t
      invariant 0 <= i <= t && |biR.comps| == n + t
      invariant forall k :: i + n <= k < cut ==> biR.comps[k] == 0
      invariant cut == n + t ==> over == 0
      invariant Val(biR.comps[..cut]) + Shift(over, cut) + dropped == Val(a) * Val(b[..i])
      invariant outer <= 1 || outer >= n ==> dropped == 0
      invariant outer >= 1 ==> dropped <= Shift(Min(i, outer - 1), outer)
    {
      var start := if outer != 0 && outer > i && outer < n then outer - i - 1 else 0;
      ghost var s := Val(biR.comps[..cut]);
      ghost var over' := AddRow(biR, bia, bib.comps[i], i, start, cut);
      NextRow(s, Val(biR.comps[..cut]), a, b, i, start, over, over', cut, dropped);
      dropped := DroppedSoFar(a, b[i], i, start, outer, dropped);
      over := over + over';
      i := i + 1;
    }
    assert b[..t] == b;
    if outer >= 1 { ShiftMono(Min(t, outer - 1), outer - 1, outer); }
  }

  /**
   * regular_multiply. A nonzero `inner` stops every row at that limb, so only the product modulo
   * RADIX^inner is right (it is off by `above`, times RADIX^inner); a nonzero `outer` leaves out
   * the columns below outer - 1, which loses `dropped`.
   */
  method RegularMultiply(bia: BigInt, bib: BigInt, inner: nat, outer: nat)
    returns (biR: BigInt, ghost dropped: nat, ghost above: int)
    requires |bia.comps| >= 1 && |bib.comps| >= 1
    ensures fresh(biR) && biR.Normal() && |biR.comps| <= |bia.comps| + |bib.comps|
    ensures biR.Value() + dropped + Shift(above, inner) == bia.Value() * bib.Value()
    ensures inner == 0 ==> above == 0
    ensures outer <= 1 || outer >= |bia.comps| ==> dropped == 0
    ensures outer >= 1 ==> dropped <= Shift(outer - 1, outer)
  {
    var n, t := |bia.comps|, |bib.comps|;
    biR := new BigInt(n + t);
    biR.comps := Zeros(n + t);
    var cut := if inner == 0 || inner > n + t then n + t else inner;
    ghost var over;
    over, dropped := MultiplyRows(biR, bia, bib, cut, outer);
    above := ProductAt(biR.comps, cut, over, inner);
    Trim(biR);
  }

  /** The product grows by a row: what the rows hold, owe above the cut, and have dropped. */
  lemma NextRow(s: int, s': int, a: seq<Limb>, b: seq<Limb>, i: nat, start: nat, over: nat, over': nat, cut: nat,
                dropped: nat)
    requires i < |b| && start <= |a|
    requires s + Shift(over, cut) + dropped == Val(a) * Val(b[..i])
    requires s' + Shift(over', cut) == s + RowSum(a, b[i], i, start, |a|)
    ensures s' + Shift(over + over', cut) + (dropped + Shift(Val(a[..start]) * b[i], i)) == Val(a) * Val(b[..i + 1])
  {
    DroppedRow(a, b[i], i, start);
    ShiftAdd(over, over', cut);
    ValPrefixStep(b, i);
    MulDistrib(Val(b[..i]), Shift(b[i], i), Val(a));
    ShiftMul(b[i], Val(a), i);
  }

  /** What a row leaves out is bounded. */
  lemma DroppedSoFar(a: seq<Limb>, b: Limb, i: nat, start: nat, outer: nat, dropped: nat) returns (dropped': nat)
    requires |a| > 0
    requires start == if outer != 0 && outer > i && outer < |a| then outer - i - 1 else 0
    requires outer <= 1 || outer >= |a| ==> dropped == 0
    requires outer >= 1 ==> dropped <= Shift(Min(i, outer - 1), outer)
    ensures dropped' == dropped + Shift(Val(a[..start]) * b, i)
    ensures outer <= 1 || outer >= |a| ==> dropped' == 0
    ensures outer >= 1 ==> dropped' <= Shift(Min(i + 1, outer - 1), outer)
  {
    DroppedRow(a, b, i, start);
    dropped' := dropped + Shift(Val(a[..start]) * b, i);
    if start == 0 {
      assert Val(a[..0]) * b == 0;
      ShiftMono(0, 0, i);
      if outer >= 1 {
        ShiftMono(Min(i, outer - 1), Min(i + 1, outer - 1), outer);
      }
    } else {
      ShiftAdd(i, 1, outer);
      ShiftOne(outer);
    }
  }

  /** Reading the finished rows as a number. */
  lemma ProductAt(r: seq<Limb>, cut: nat, over: nat, inner: nat) returns (above: int)
    requires cut == if inner == 0 || inner > |r| then |r| else inner
    requires cut == |r| ==> over == 0
    ensures Val(r) + Shift(above, inner) == Val(r[..cut]) + Shift(over, cut)
    ensures inner == 0 ==> above == 0
  {
    if cut == |r| {
      assert r[..cut] == r;
      ShiftMono(0, 0, cut);
      ShiftMono(0, 0, inner);
      above := 0;
    } else {
      ValSplit(r, cut);
      above := over - Val(r[cut..]);
      ShiftAdd(above, Val(r[cut..]), cut);
    }
  }
}
