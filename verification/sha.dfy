/** The streaming of krypton's SHA-1 and SHA-256, around their compression functions. */
module Sha {
  import opened Arithmetic
  import opened Octets
  import opened Hashing

  method Copy(w: array<Octet>, at: nat, data: seq<Octet>)
    requires at + |data| <= w.Length
    modifies w
    ensures w[..at + |data|] == old(w[..at]) + data
    ensures w[at + |data|..] == old(w[at + |data|..])
  {
    forall k | 0 <= k < |data| {
      w[at + k] := data[k];
    }
  }

  /** SHA_CTX */
  class Sha1<!H> {
    const compress: Compression<H>
    const initial: H
    var size: nat              // uint64_t
    var h: H
    const w: array<Octet>
    ghost var message: seq<Octet>

    /** SHA1_Init */
    constructor (compress: Compression<H>, initial: H)
      ensures Valid() && message == [] && this.compress == compress && this.initial == initial
      ensures fresh(w)
    {
      this.compress, this.initial, size, h, message := compress, initial, 0, initial, [];
      w := new Octet[BLOCK];
    }

    ghost predicate Valid()
      reads this, w
    {
      && w.Length == BLOCK && size == |message| % TWO_64
      && Holds(compress, initial, h, w[..|message| % BLOCK], message)
    }

    /** SHA1_Update: however a message is cut into calls, it is taken as one. */
    method Update(data: seq<Octet>)
      requires Valid()
      modifies this, w
      ensures Valid() && message == old(message) + data
    {
      hide Holds;
      ghost var before := message;
      SizeInBlock(|before|);
      SizeAdds(|before|, |data|);
      message := before + data;
      var lenW := size % 64;
      size := (size + |data|) % TWO_64;
      var p := 0;
      if lenW != 0 {
        var left := if |data| < 64 - lenW then |data| else 64 - lenW;
        var full := FillPart(before, data[..left], lenW);
        if !full {
          assert data[..left] == data;
          return;
        }
        p := left;
      } else {
        assert before + data[..0] == before && w[..0] == [];
      }
      TakeBlocks(before, data, p);
    }

    /** The first data go behind a part of a block; if they fill it, it is compressed. */
    method FillPart(ghost before: seq<Octet>, data: seq<Octet>, lenW: nat) returns (full: bool)
      requires w.Length == BLOCK && 0 < lenW == |before| % BLOCK && lenW + |data| <= BLOCK
      requires Holds(compress, initial, h, w[..lenW], before)
      modifies this`h, w
      ensures full <==> lenW + |data| == BLOCK
      ensures if full then (|before| + |data|) % BLOCK == 0 && Holds(compress, initial, h, [], before + data)
              else Holds(compress, initial, h, w[..|before + data| % BLOCK], before + data)
    {
      hide Holds;
      Copy(w, lenW, data);
      full := (lenW + |data|) % 64 == 0;
      if full {
        assert w[..] == w[..lenW + |data|];
        HoldsBlock(compress, initial, h, old(w[..lenW]), before, data);
        h := compress(h, w[..]);
      } else {
        Remainder(|before|, |data|, lenW);
        HoldsMore(compress, initial, h, old(w[..lenW]), before, data);
      }
    }

    /** The rest of the data: full blocks are compressed where they are, and what is left is kept. */
    method TakeBlocks(ghost before: seq<Octet>, data: seq<Octet>, p0: nat)
      requires w.Length == BLOCK && p0 <= |data| && (|before| + p0) % BLOCK == 0
      requires Holds(compress, initial, h, [], before + data[..p0])
      modifies this`h, w
      ensures Holds(compress, initial, h, w[..|before + data| % BLOCK], before + data)
    {
      hide Holds;
      var p := p0;
      while |data| - p >= 64
        invariant p0 <= p <= |data| && (|before| + p) % BLOCK == 0
        invariant Holds(compress, initial, h, [], before + data[..p])
      {
        HoldsBlock(compress, initial, h, [], before + data[..p], data[p..p + 64]);
        NextBlock(before, data, p);
        h := compress(h, data[p..p + 64]);
        p := p + 64;
      }
      Copy(w, 0, data[p..]);
      HoldsMore(compress, initial, h, [], before + data[..p], data[p..]);
      assert before + data[..p] + data[p..] == before + data && [] + data[p..] == w[..|data| - p];
      Remainder(|before| + p, |data| - p, 0);
    }

    /** SHA1_Final: the state whose octets are the digest. */
    method Final() returns (digest: H)
      requires Valid()
      modifies this, w
      ensures digest == Hash(compress, initial, old(message))
    {
      ghost var m := message;
      var padlen := LengthOctets(size, |m|);
      var i := size % 64;
      SizeInBlock(|m|);
      Update([0x80] + Zeros((55 - i) % 64));
      Update(padlen);
      PaddingInTwo(m, i);
      HoldsAll(compress, initial, h, w[..|message| % BLOCK], m);
      digest := h;
    }
  }

  /** SHA256_CTX */
  class Sha256<!H> {
    const compress: Compression<H>
    const initial: H
    var bitcount: nat          // uint64_t
    var state: H
    const buffer: array<Octet>
    ghost var message: seq<Octet>

    /** SHA256_Init */
    constructor (compress: Compression<H>, initial: H)
      ensures Valid() && message == [] && this.compress == compress && this.initial == initial
      ensures fresh(buffer)
    {
      this.compress, this.initial, bitcount, state, message := compress, initial, 0, initial, [];
      buffer := new Octet[BLOCK];
    }

    /** Everything of m has been taken. */
    ghost predicate Taken(m: seq<Octet>)
      reads this, buffer
    {
      && buffer.Length == BLOCK && bitcount == Bits(|m|)
      && Holds(compress, initial, state, buffer[..|m| % BLOCK], m)
    }

    ghost predicate Valid()
      reads this, buffer
    {
      Taken(message)
    }

    /** bitcount += n << 3 */
    method Count(ghost before: nat, n: nat)
      requires bitcount == Bits(before)
      modifies this`bitcount
      ensures bitcount == Bits(before + n)
    {
      SizeAdds(before * 8, n * 8);
      bitcount := (bitcount + n * 8) % TWO_64;
    }

    /** SHA256_Update */
    method Update(data: seq<Octet>)
      requires Valid()
      modifies this, buffer
      ensures Valid() && message == old(message) + data
    {
      hide Holds, Bits;
      ghost var before := message;
      message := before + data;
      if data == [] {
        assert before + data == before;
        return;
      }
      BitsInBlock(|before|);
      var usedspace := bitcount / 8 % BLOCK;
      var p := 0;
      if usedspace > 0 {
        var freespace := BLOCK - usedspace;
        if |data| >= freespace {
          Fill(before, data[..freespace], usedspace);
          p := freespace;
        } else {
          Copy(buffer, usedspace, data);
          Count(|before|, |data|);
          Remainder(|before|, |data|, usedspace);
          HoldsMore(compress, initial, state, old(buffer[..usedspace]), before, data);
          return;
        }
      } else {
        assert before + data[..0] == before && buffer[..0] == [];
      }
      TakeBlocks(before, data, p);
    }

    /** The buffer is filled completely and processed. */
    method Fill(ghost before: seq<Octet>, data: seq<Octet>, usedspace: nat)
      requires Taken(before) && usedspace == |before| % BLOCK && usedspace + |data| == BLOCK
      modifies this`state, this`bitcount, buffer
      ensures (|before| + |data|) % BLOCK == 0
      ensures buffer.Length == BLOCK && bitcount == Bits(|before| + |data|)
              && Holds(compress, initial, state, [], before + data)
    {
      hide Holds, Bits;
      Copy(buffer, usedspace, data);
      Count(|before|, |data|);
      assert buffer[..] == buffer[..usedspace + |data|];
      HoldsBlock(compress, initial, state, old(buffer[..usedspace]), before, data);
      state := compress(state, buffer[..]);
    }

    method TakeBlocks(ghost before: seq<Octet>, data: seq<Octet>, p0: nat)
      requires buffer.Length == BLOCK && p0 <= |data| && (|before| + p0) % BLOCK == 0
      requires bitcount == Bits(|before| + p0) && Holds(compress, initial, state, [], before + data[..p0])
      modifies this`state, this`bitcount, buffer
      ensures Taken(before + data)
    {
      hide Holds, Bits, Taken;
      var p := p0;
      while |data| - p >= BLOCK
        invariant p0 <= p <= |data| && (|before| + p) % BLOCK == 0 && bitcount == Bits(|before| + p)
        invariant Holds(compress, initial, state, [], before + data[..p])
      {
        HoldsBlock(compress, initial, state, [], before + data[..p], data[p..p + 64]);
        NextBlock(before, data, p);
        state := compress(state, data[p..p + BLOCK]);
        Count(|before| + p, BLOCK);
        p := p + BLOCK;
      }
      KeepRest(before, data, p);
    }

    /** What is left of the data waits in the buffer. */
    method KeepRest(ghost before: seq<Octet>, data: seq<Octet>, p: nat)
      requires buffer.Length == BLOCK && p <= |data| < p + BLOCK && (|before| + p) % BLOCK == 0
      requires bitcount == Bits(|before| + p) && Holds(compress, initial, state, [], before + data[..p])
      modifies this`bitcount, buffer
      ensures Taken(before + data)
    {
      hide Holds, Bits;
      Copy(buffer, 0, data[p..]);
      Count(|before| + p, |data| - p);
      HoldsMore(compress, initial, state, [], before + data[..p], data[p..]);
      RestOfData(before, data, p);
      assert [] + data[p..] == buffer[..|data| - p];
      Remainder(|before| + p, |data| - p, 0);
    }

    /** MEMSET_BZERO from one place in the buffer to another. */
    method Zero(from: nat, end: nat)
      requires from <= end <= buffer.Length
      modifies buffer
      ensures buffer[..end] == old(buffer[..from]) + Zeros(end - from) && buffer[end..] == old(buffer[end..])
    {
      forall k | from <= k < end {
        buffer[k] := 0;
      }
    }

    /** The padding of SHA256_Final up to the last eight octets of a block; a block may have to be ended before. */
    method Pad() returns (ghost taken: seq<Octet>)
      requires Valid()
      modifies this`state, buffer
      ensures buffer.Length == BLOCK
              && message + Padding(|message|) == taken + buffer[..BLOCK - 8] + Digits(Bits(|message|), 8)
      ensures |taken| % BLOCK == 0 && Holds(compress, initial, state, [], taken)
    {
      hide Holds, Digits, Bits, Padding, Full;
      ghost var m, used := message, |message| % BLOCK;
      ghost var part := buffer[..used];
      BitsInBlock(|m|);
      var usedspace := bitcount / 8 % BLOCK;
      HoldsParts(compress, initial, state, part, m);
      if usedspace > 0 {
        buffer[usedspace] := 0x80;
        usedspace := usedspace + 1;
        assert buffer[..usedspace] == part + [0x80];
        if usedspace <= BLOCK - 8 {
          Zero(usedspace, BLOCK - 8);
          taken := m[..Full(m)];
          PaddedShort(m, part);
        } else {
          taken := PadLong(usedspace, m, part);
        }
      } else {
        Zero(0, BLOCK - 8);
        buffer[0] := 0x80;
        taken := m;
        assert buffer[..BLOCK - 8] == [0x80] + Zeros(55);
        PaddedShort(m, part);
      }
    }

    /** A block is filled with zeros and processed, and another one is begun. */
    method PadLong(usedspace: nat, ghost m: seq<Octet>, ghost part: seq<Octet>) returns (ghost taken: seq<Octet>)
      requires usedspace == |part| + 1 && buffer.Length == BLOCK && BLOCK - 8 <= |part| == |m| % BLOCK
               && buffer[..|part| + 1] == part + [0x80]
      requires Holds(compress, initial, state, part, m)
      modifies this`state, buffer
      ensures m + Padding(|m|) == taken + buffer[..BLOCK - 8] + Digits(Bits(|m|), 8)
      ensures |taken| % BLOCK == 0 && Holds(compress, initial, state, [], taken)
    {
      hide Holds, Digits, Bits, Padding;
      Zero(usedspace, BLOCK);
      ghost var fill := [0x80] + Zeros(63 - |part|);
      assert buffer[..] == buffer[..BLOCK];
      taken := m + fill;
      HoldsBlock(compress, initial, state, part, m, fill);
      assert part + [0x80] + Zeros(63 - |part|) == part + fill;
      state := compress(state, buffer[..]);
      Zero(0, BLOCK - 8);
      PaddedLong(m, part);
      assert buffer[..0] + Zeros(56) == Zeros(56);
    }

    /** SHA256_Final: the state whose octets are the digest. */
    method Final() returns (digest: H)
      requires Valid()
      modifies this, buffer
      ensures digest == Hash(compress, initial, old(message))
    {
      hide Holds, Padding, Bits, Digits, Hash;
      ghost var m := message;
      var length := Digits(bitcount, 8);
      ghost var taken := Pad();
      ghost var front := buffer[..BLOCK - 8];
      Copy(buffer, BLOCK - 8, length);
      assert buffer[..] == front + length && taken + (front + length) == taken + front + length;
      LastBlock(compress, initial, state, taken, buffer[..], m);
      state := compress(state, buffer[..]);
      digest := state;
    }
  }

  lemma NextBlock(before: seq<Octet>, data: seq<Octet>, p: nat)
    requires p + BLOCK <= |data|
    ensures before + data[..p] + data[p..p + BLOCK] == before + data[..p + BLOCK]
    ensures [] + data[p..p + BLOCK] == data[p..p + BLOCK]
  {}

  lemma RestOfData(before: seq<Octet>, data: seq<Octet>, p: nat)
    requires p <= |data|
    ensures before + data[..p] + data[p..] == before + data
  {}

  function Joined(msgs: seq<seq<Octet>>): seq<Octet> {
    if msgs == [] then [] else Joined(msgs[..|msgs| - 1]) + msgs[|msgs| - 1]
  }

  lemma JoinedStep(msgs: seq<seq<Octet>>, i: nat)
    requires i < |msgs|
    ensures Joined(msgs[..i + 1]) == Joined(msgs[..i]) + msgs[i]
  {
    assert msgs[..i + 1][..i] == msgs[..i];
  }

  /** kr_hash_sha1_v: however a message is cut, its hash is that of the whole. */
  method HashSha1<H>(compress: Compression<H>, initial: H, msgs: seq<seq<Octet>>) returns (digest: H)
    ensures digest == Hash(compress, initial, Joined(msgs))
  {
    var ctx := new Sha1<H>(compress, initial);
    for i := 0 to |msgs|
      invariant ctx.Valid() && ctx.message == Joined(msgs[..i]) && fresh(ctx) && fresh(ctx.w)
    {
      JoinedStep(msgs, i);
      ctx.Update(msgs[i]);
    }
    assert msgs[..|msgs|] == msgs;
    digest := ctx.Final();
  }

  /** kr_hash_sha256_v */
  method HashSha256<H>(compress: Compression<H>, initial: H, msgs: seq<seq<Octet>>) returns (digest: H)
    ensures digest == Hash(compress, initial, Joined(msgs))
  {
    var ctx := new Sha256<H>(compress, initial);
    for i := 0 to |msgs|
      invariant ctx.Valid() && ctx.message == Joined(msgs[..i]) && fresh(ctx) && fresh(ctx.buffer)
    {
      JoinedStep(msgs, i);
      ctx.Update(msgs[i]);
    }
    assert msgs[..|msgs|] == msgs;
    digest := ctx.Final();
  }

  lemma HoldsParts<H>(f: Compression<H>, h0: H, h: H, part: seq<Octet>, m: seq<Octet>)
    requires Holds(f, h0, h, part, m)
    ensures part == m[Full(m)..] && m[..Full(m)] + part == m && |part| == |m| % BLOCK
    ensures Holds(f, h0, h, [], m[..Full(m)])
  {
    var n := m[..Full(m)];
    assert Full(n) == |n| && n[..|n|] == n && n[|n|..] == [];
  }

  lemma PaddedShort(m: seq<Octet>, part: seq<Octet>)
    requires |part| == |m| % BLOCK < 56 && m[..Full(m)] + part == m
    ensures var length := Digits(Bits(|m|), 8);
            m + Padding(|m|) == m[..Full(m)] + (part + [0x80] + Zeros(55 - |part|)) + length
    ensures part == [] ==> m[..Full(m)] == m && part + [0x80] + Zeros(55) == [0x80] + Zeros(55)
  {
    hide Digits, Zeros, Bits;
    assert ZerosAfter(|m|) == 55 - |part|;
    InOneBlock(m[..Full(m)], part, [0x80], Zeros(55 - |part|), Digits(Bits(|m|), 8));
  }

  lemma InOneBlock(a: seq<Octet>, b: seq<Octet>, c: seq<Octet>, d: seq<Octet>, e: seq<Octet>)
    ensures a + b + (c + d + e) == a + (b + c + d) + e
  {}

  lemma PaddedLong(m: seq<Octet>, part: seq<Octet>)
    requires |part| == |m| % BLOCK >= 56
    ensures var length := Digits(Bits(|m|), 8);
            m + Padding(|m|) == m + ([0x80] + Zeros(63 - |part|)) + Zeros(56) + length
  {
    hide Digits;
    var length := Digits(Bits(|m|), 8);
    assert ZerosAfter(|m|) == 119 - |part|;
    assert Zeros(119 - |part|) == Zeros(63 - |part|) + Zeros(56);
    Regrouped(m, [0x80], Zeros(63 - |part|), Zeros(56), length);
  }

  lemma Regrouped(a: seq<Octet>, b: seq<Octet>, c: seq<Octet>, d: seq<Octet>, e: seq<Octet>)
    ensures a + (b + (c + d) + e) == a + (b + c) + d + e
  {}

  /** padlen: the size in bits in two words, high octet first. */
  method LengthOctets(size: nat, ghost n: nat) returns (padlen: seq<Octet>)
    requires size == n % TWO_64
    ensures padlen == Digits(Bits(n), 8)
  {
    var high := size / 0x2000_0000 % 0x1_0000_0000;
    var low := size * 8 % 0x1_0000_0000;
    padlen := Digits(high, 4) + Digits(low, 4);
    BitsOfSize(n);
    TwoWords(size, high, low);
    PowersOf256();
    SplitDigits(size * 8 % TWO_64, 8, 4, Power256(4), high, low);
  }

  lemma TwoWords(size: nat, high: nat, low: nat)
    requires size < TWO_64 && high == size / 0x2000_0000 % 0x1_0000_0000 && low == size * 8 % 0x1_0000_0000
    ensures size * 8 % TWO_64 == high * 0x1_0000_0000 + low && low < 0x1_0000_0000
  {
    var a, b := size / 0x2000_0000, size % 0x2000_0000;
    assert size * 8 == a * 0x1_0000_0000 + b * 8;
    DivModUnique(size * 8, 0x1_0000_0000, a, b * 8);
    var q, r := a / 0x1_0000_0000, a % 0x1_0000_0000;
    DivModUnique(size * 8, TWO_64, q, r * 0x1_0000_0000 + b * 8);
  }

  lemma SizeAdds(n: nat, k: nat)
    ensures (n % TWO_64 + k) % TWO_64 == (n + k) % TWO_64
  {
    var q, r := n / TWO_64, (n % TWO_64 + k) % TWO_64;
    DivModUnique(n + k, TWO_64, q + (n % TWO_64 + k) / TWO_64, r);
  }

  /** What is left over after adding to a part of a block without filling it. */
  lemma Remainder(n: nat, k: nat, part: nat)
    requires n % BLOCK == part && part + k < BLOCK
    ensures (n + k) % BLOCK == part + k
  {}

  /** The padding as SHA1_Final passes it to SHA1_Update. */
  lemma PaddingInTwo(m: seq<Octet>, i: nat)
    requires i == |m| % BLOCK
    ensures m + ([0x80] + Zeros((55 - i) % 64)) + Digits(Bits(|m|), 8) == m + Padding(|m|)
  {
    hide Digits, Zeros;
    assert (55 - i) % 64 == ZerosAfter(|m|);
    InOrder(m, [0x80] + Zeros(ZerosAfter(|m|)), Digits(Bits(|m|), 8));
  }

  lemma InOrder(a: seq<Octet>, b: seq<Octet>, c: seq<Octet>)
    ensures a + b + c == a + (b + c)
  {}
}
