/** Messages in blocks of 64 octets, and the padding of SHA-1 and SHA-256 (FIPS 180-4, section 5.1.1). */
module Hashing {
  import opened Arithmetic
  import opened Octets

  const BLOCK := 64
  const TWO_64 := 0x1_0000_0000_0000_0000

  /** A compression function: what a block does to the state. */
  type Compression<!H> = (H, seq<Octet>) -> H

  /** The blocks of s, one after another. */
  function Blocks<H>(f: Compression<H>, h: H, s: seq<Octet>): H
    requires |s| % BLOCK == 0
    decreases |s|
  {
    if |s| < BLOCK then h else Blocks(f, f(h, s[..BLOCK]), s[BLOCK..])
  }

  /** Zeros up to the last eight octets of a block. */
  function ZerosAfter(n: nat): (z: nat)
    ensures (n + 1 + z + 8) % BLOCK == 0 && z < BLOCK
  {
    (119 - n % BLOCK) % BLOCK
  }

  /** The length in bits, in 64 bits. */
  function Bits(n: nat): (b: nat)
    ensures b < TWO_64
  {
    n * 8 % TWO_64
  }

  /** The octets 0x80, zeros, and the length in bits as a number of 64 bits. */
  function Padding(n: nat): (s: seq<Octet>)
    ensures (n + |s|) % BLOCK == 0
  {
    [0x80] + Zeros(ZerosAfter(n)) + Digits(Bits(n), 8)
  }

  /**
   * Section 5.1.1: a one bit, zeros, and the length in bits in eight octets in network order; the message is filled up
   * to a multiple of 64 octets, and with as few zeros as that takes.
   */
  lemma PaddingIsFips(n: nat)
    ensures var p := Padding(n);
            && 9 <= |p| < 9 + 64 && (n + |p|) % 64 == 0
            && p[0] == 0x80 && (forall i :: 1 <= i < |p| - 8 ==> p[i] == 0)
            && (n < 0x2000_0000_0000_0000 ==> Number(p[|p| - 8..]) == 8 * n)
  {
    hide Digits, Number;
    var p := Padding(n);
    assert p[|p| - 8..] == Digits(Bits(n), 8);
    if n < 0x2000_0000_0000_0000 {
      PowersOf256();
      assert Bits(n) == 8 * n;
      NumberOfDigits(Bits(n), 8);
    }
  }

  /** The hash of a message: the compression folded over the blocks of the padded message. */
  function Hash<H>(f: Compression<H>, h: H, m: seq<Octet>): H {
    Blocks(f, h, m + Padding(|m|))
  }

  /** The octets of the full blocks of a message, and those after them. */
  function Full(m: seq<Octet>): (n: nat)
    ensures n <= |m| && n % BLOCK == 0 && |m| - n == |m| % BLOCK
  {
    |m| - |m| % BLOCK
  }

  lemma {:induction false} BlocksAppend<H>(f: Compression<H>, h: H, a: seq<Octet>, b: seq<Octet>)
    requires |a| % BLOCK == 0 && |b| % BLOCK == 0
    ensures Blocks(f, h, a + b) == Blocks(f, Blocks(f, h, a), b)
    decreases |a|
  {
    if |a| < BLOCK {
      assert a == [] && a + b == b;
    } else {
      assert (a + b)[..BLOCK] == a[..BLOCK] && (a + b)[BLOCK..] == a[BLOCK..] + b;
      BlocksAppend(f, f(h, a[..BLOCK]), a[BLOCK..], b);
    }
  }

  lemma OneBlock<H>(f: Compression<H>, h: H, b: seq<Octet>)
    requires |b| == BLOCK
    ensures Blocks(f, h, b) == f(h, b)
  {
    assert b[..BLOCK] == b && b[BLOCK..] == [];
  }

  /** What a hash in progress holds of the message so far. */
  ghost predicate Holds<H>(f: Compression<H>, h0: H, h: H, part: seq<Octet>, m: seq<Octet>) {
    part == m[Full(m)..] && h == Blocks(f, h0, m[..Full(m)])
  }

  /** More octets that do not fill the block. */
  lemma HoldsMore<H>(f: Compression<H>, h0: H, h: H, part: seq<Octet>, m: seq<Octet>, data: seq<Octet>)
    requires Holds(f, h0, h, part, m) && |part| + |data| < BLOCK
    ensures Holds(f, h0, h, part + data, m + data)
  {
    assert Full(m + data) == Full(m);
    assert (m + data)[..Full(m)] == m[..Full(m)] && (m + data)[Full(m)..] == part + data;
  }

  /** Octets that fill the block, which is then compressed. */
  lemma HoldsBlock<H>(f: Compression<H>, h0: H, h: H, part: seq<Octet>, m: seq<Octet>, data: seq<Octet>)
    requires Holds(f, h0, h, part, m) && |part| + |data| == BLOCK
    ensures Holds(f, h0, f(h, part + data), [], m + data)
  {
    var n := m + data;
    assert Full(n) == |n| && n[..Full(n)] == n && n[Full(n)..] == [];
    assert n == m[..Full(m)] + (part + data);
    BlocksAppend(f, h0, m[..Full(m)], part + data);
    OneBlock(f, h, part + data);
  }

  /** At the end of the padded message, the hash is complete. */
  lemma HoldsAll<H>(f: Compression<H>, h0: H, h: H, part: seq<Octet>, m: seq<Octet>)
    requires Holds(f, h0, h, part, m + Padding(|m|))
    ensures h == Hash(f, h0, m)
  {
    var n := m + Padding(|m|);
    assert Full(n) == |n| && n[..|n|] == n;
  }

  lemma SameRest(n: nat, q: nat, r: nat)
    requires n == 64 * q + r
    ensures n % BLOCK == r % BLOCK
  {}

  lemma SizeInBlock(n: nat)
    ensures (n % TWO_64) % BLOCK == n % BLOCK
  {
    SameRest(n, n / TWO_64 * 0x400_0000_0000_0000, n % TWO_64);
  }

  lemma BitsInBlock(n: nat)
    ensures Bits(n) / 8 % BLOCK == n % BLOCK
  {
    var q, r := n / 0x2000_0000_0000_0000, n % 0x2000_0000_0000_0000;
    DivModUnique(n * 8, TWO_64, q, 8 * r);
    SameRest(n, q * 0x80_0000_0000_0000, r);
  }

  lemma BitsOfSize(n: nat)
    ensures (n % TWO_64) * 8 % TWO_64 == Bits(n)
  {
    var q, r := n / TWO_64, n % TWO_64;
    assert n * 8 == TWO_64 * (8 * q) + r * 8;
  }

  /** The last block of a padded message. */
  lemma LastBlock<H>(f: Compression<H>, h0: H, h: H, taken: seq<Octet>, last: seq<Octet>, m: seq<Octet>)
    requires Holds(f, h0, h, [], taken) && |taken| % BLOCK == 0 && |last| == BLOCK
    requires m + Padding(|m|) == taken + last
    ensures f(h, last) == Hash(f, h0, m)
  {
    hide Padding;
    HoldsBlock(f, h0, h, [], taken, last);
    assert [] + last == last;
    HoldsAll(f, h0, f(h, last), [], m);
  }
}
