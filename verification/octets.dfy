/** Octets as numbers, and their bitwise exclusive or. */
module Octets {
  import opened Arithmetic

  type Octet = x: int | 0 <= x < 256

  /** The exclusive or of two numbers of n bits, from the lowest bit on. */
  function XorBits(a: nat, b: nat, n: nat): (c: nat)
    ensures c < Pow2(n)
    decreases n
  {
    if n == 0 then 0 else 2 * XorBits(a / 2, b / 2, n - 1) + (a + b) % 2
  }

  function Xor(a: Octet, b: Octet): (c: Octet) {
    assert Pow2(8) == 256 by { assert Pow2(4) == 16; }
    XorBits(a, b, 8)
  }

  lemma Halves(a: nat, b: nat, n: nat)
    requires n > 0
    ensures XorBits(a, b, n) == 2 * XorBits(a / 2, b / 2, n - 1) + (a + b) % 2
    ensures XorBits(a, b, n) / 2 == XorBits(a / 2, b / 2, n - 1) && XorBits(a, b, n) % 2 == (a + b) % 2
  {}

  lemma Parity(a: nat, b: nat, c: nat)
    requires c % 2 == (a + b) % 2
    ensures (c + b) % 2 == a % 2
  {}

  lemma {:induction false} XorBitsTwice(a: nat, b: nat, n: nat)
    requires a < Pow2(n)
    ensures XorBits(XorBits(a, b, n), b, n) == a
    decreases n
  {
    if n > 0 {
      XorBitsTwice(a / 2, b / 2, n - 1);
      hide XorBits;
      var c := XorBits(a, b, n);
      Halves(a, b, n);
      Halves(c, b, n);
      Parity(a, b, c);
    }
  }

  lemma XorTwice(a: Octet, b: Octet)
    ensures Xor(Xor(a, b), b) == a
  {
    assert Pow2(8) == 256 by { assert Pow2(4) == 16; }
    XorBitsTwice(a, b, 8);
  }

  /** The k-th bit of a number, from the lowest */
  function Bit(x: nat, k: nat): (b: nat)
    ensures b < 2
  {
    if k == 0 then x % 2 else Bit(x / 2, k - 1)
  }

  lemma {:induction false} BitOfXor(a: nat, b: nat, n: nat, k: nat)
    requires k < n
    ensures Bit(XorBits(a, b, n), k) == if Bit(a, k) == Bit(b, k) then 0 else 1
    decreases n
  {
    Halves(a, b, n);
    if k > 0 { BitOfXor(a / 2, b / 2, n - 1, k - 1); }
  }

  /** A bit of an exclusive or is set exactly if it is set in one of the two octets only. */
  lemma XorByBits(a: Octet, b: Octet, k: nat)
    requires k < 8
    ensures Bit(Xor(a, b), k) == if Bit(a, k) == Bit(b, k) then 0 else 1
  {
    BitOfXor(a, b, 8, k);
  }

  // Numbers, high octet first

  function Number(s: seq<Octet>): (n: nat) {
    if s == [] then 0 else Number(s[..|s| - 1]) * 256 + s[|s| - 1]
  }

  function Digits(n: nat, count: nat): (s: seq<Octet>)
    ensures |s| == count
    decreases count
  {
    if count == 0 then [] else Digits(n / 256, count - 1) + [n % 256]
  }

  function Power256(n: nat): (p: nat)
    ensures p > 0
  {
    if n == 0 then 1 else 256 * Power256(n - 1)
  }

  lemma {:induction false} NumberOfDigits(n: nat, count: nat)
    requires n < Power256(count)
    ensures Number(Digits(n, count)) == n
    decreases count
  {
    if count > 0 {
      NumberOfDigits(n / 256, count - 1);
      var s := Digits(n, count);
      assert s[..|s| - 1] == Digits(n / 256, count - 1);
    }
  }

  lemma {:induction false} NumberAppend(s: seq<Octet>, t: seq<Octet>)
    ensures Number(s + t) == Number(s) * Power256(|t|) + Number(t)
    decreases |t|
  {
    if t == [] {
      assert s + t == s;
    } else {
      var u := t[..|t| - 1];
      NumberAppend(s, u);
      assert (s + t)[..|s + t| - 1] == s + u;
      assert Number(s + t) == Number(s + u) * 256 + t[|t| - 1];
      assert Number(s) * Power256(|u|) * 256 == Number(s) * Power256(|t|);
    }
  }

  /** Octets in network order: the first one counts most. */
  lemma {:induction false} NumberByFirst(s: seq<Octet>)
    requires s != []
    ensures Number(s) == s[0] * Power256(|s| - 1) + Number(s[1..])
  {
    NumberAppend(s[..1], s[1..]);
    assert s[..1] + s[1..] == s && s[..1] == [s[0]];
    assert Number([s[0]]) == s[0] by { assert [s[0]][..0] == []; }
  }

  /** Two and four octets as numbers */
  lemma NetworkOrder(a: Octet, b: Octet, c: Octet, d: Octet)
    ensures Number([a, b]) == a * 0x100 + b
    ensures Number([a, b, c, d]) == a * 0x100_0000 + b * 0x1_0000 + c * 0x100 + d
  {
    assert [a][..0] == [] && [a, b][..1] == [a] && [a, b, c][..2] == [a, b] && [a, b, c, d][..3] == [a, b, c];
    assert Number([a]) == a;
    assert Number([a, b, c]) == Number([a, b]) * 256 + c;
  }

  lemma PowersOf256()
    ensures Power256(4) == 0x1_0000_0000 && Power256(8) == 0x1_0000_0000 * 0x1_0000_0000
  {
    assert Power256(2) == 65536;
    assert Power256(4) == 256 * (256 * Power256(2));
    assert Power256(6) == 256 * (256 * Power256(4));
    assert Power256(8) == 256 * (256 * Power256(6));
  }

  lemma PowerStep(n: nat)
    ensures Power256(n) == if n == 0 then 1 else 256 * Power256(n - 1)
  {}

  /** The low digits and the high digits of a number are written one after the other. */
  lemma {:induction false} SplitDigits(n: nat, count: nat, low: nat, p: nat, high: nat, rest: nat)
    requires low <= count && p == Power256(low) && rest < p && n == high * p + rest
    ensures Digits(n, count) == Digits(high, count - low) + Digits(rest, low)
    decreases low
  {
    hide Power256, Digits;
    PowerStep(low);
    if low == 0 {
      assert Digits(n, count) + [] == Digits(n, count) && Digits(rest, 0) == [];
    } else {
      var q := Power256(low - 1);
      Divide256(n, high, q, rest);
      DigitStep(n, count);
      DigitStep(rest, low);
      SplitDigits(n / 256, count - 1, low - 1, q, high, rest / 256);
      var a, b := Digits(high, count - low), Digits(rest / 256, low - 1);
      assert a + b + [n % 256] == a + (b + [n % 256]);
    }
  }

  lemma DigitStep(n: nat, count: nat)
    requires count > 0
    ensures Digits(n, count) == Digits(n / 256, count - 1) + [n % 256]
  {}

  lemma Divide256(n: nat, high: nat, q: nat, rest: nat)
    requires n == high * (256 * q) + rest
    ensures n / 256 == high * q + rest / 256 && n % 256 == rest % 256
  {
    MulAssoc(high, 256, q);
    assert n == 256 * (high * q + rest / 256) + rest % 256;
  }
}
