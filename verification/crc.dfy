/** The CRC of bin_crc_make, by table, and that of mongoose, bit by bit. */
module Crc {
  import opened CrcTable

  const ONES: bv32 := 0xFFFF_FFFF

  function Low(x: bv32): (r: bv32)
    ensures r < 0x100
  {
    x & 0xff
  }

  function High(x: bv32): bv32 {
    x >> 8
  }

  function Up(x: bv32): bv32 {
    x << 8
  }

  function Wide(b: bv8): bv32 {
    b as bv32
  }

  /** What an octet does to the bitwise CRC. */
  function BitStep(crc: bv32, b: bv8): bv32 {
    Shift8(Xor(crc, Wide(b)))
  }

  /** The octets one after another, the last one outermost. */
  function BitFold(crc: bv32, s: seq<bv8>): bv32 {
    if s == [] then crc else BitStep(BitFold(crc, s[..|s| - 1]), s[|s| - 1])
  }

  /** One round of crc32 */
  function TableStep(crc: bv32, b: bv8): bv32 {
    Xor(Table(Low(Xor(crc, Wide(b)))), High(crc))
  }

  lemma HighKept(crc: bv32, b: bv8)
    ensures High(Xor(crc, Wide(b))) == High(crc)
  {}

  lemma Parts(x: bv32)
    ensures x == Xor(Low(x), Up(High(x))) && High(Up(High(x))) == High(x)
  {}

  // Eight shifts of a number whose low octet is zero

  lemma EvenShift(x: bv32)
    requires !Odd(x)
    ensures Shift(x) == Half(x)
  {}

  lemma LowZeros(y: bv32)
    ensures var x := Up(y);
            var x1 := Half(x); var x2 := Half(x1); var x3 := Half(x2); var x4 := Half(x3);
            var x5 := Half(x4); var x6 := Half(x5); var x7 := Half(x6);
            && !Odd(x) && !Odd(x1) && !Odd(x2) && !Odd(x3) && !Odd(x4) && !Odd(x5) && !Odd(x6) && !Odd(x7)
            && Half(x7) == High(x)
  {}

  lemma ShiftHigh(y: bv32)
    ensures Shift8(Up(y)) == High(Up(y))
  {
    hide Shift, Up, Half, Odd, High;
    LowZeros(y);
    var x := Up(y);
    var x1 := Half(x);
    var x2 := Half(x1);
    var x3 := Half(x2);
    var x4 := Half(x3);
    var x5 := Half(x4);
    var x6 := Half(x5);
    var x7 := Half(x6);
    EvenShift(x);
    EvenShift(x1);
    EvenShift(x2);
    EvenShift(x3);
    EvenShift(x4);
    EvenShift(x5);
    EvenShift(x6);
    EvenShift(x7);
  }

  /** Eight shifts: those of the low octet, and what was above it. */
  lemma Shift8Parts(x: bv32)
    ensures Shift8(x) == Xor(Shift8(Low(x)), High(x))
  {
    hide Shift8, Xor, Low, High, Up;
    Parts(x);
    Shift8Xor(Low(x), Up(High(x)));
    ShiftHigh(High(x));
  }

  /** A round by table is a round bit by bit. */
  lemma TableIsBits(crc: bv32, b: bv8)
    ensures TableStep(crc, b) == BitStep(crc, b)
  {
    hide Shift8, Table, Xor, Low, High, Wide;
    HighKept(crc, b);
    var x := Xor(crc, Wide(b));
    Shift8Parts(x);
    Entry(Low(x));
  }

  /** crc32 in bin_crc_make */
  method Crc32(buf: seq<bv8>) returns (r: bv32)
    ensures r == Xor(BitFold(ONES, buf), ONES)
  {
    hide BitStep, Table, Xor, Low, High, Wide;
    var crc: bv32 := 0xFFFF_FFFF;
    for i := 0 to |buf|
      invariant crc == BitFold(ONES, buf[..i])
    {
      TableIsBits(crc, buf[i]);
      FoldStep(ONES, buf, i);
      crc := Xor(Table(Low(Xor(crc, Wide(buf[i])))), High(crc));
    }
    assert buf[..|buf|] == buf;
    r := Xor(crc, 0xFFFF_FFFF);
  }

  lemma FoldStep(crc: bv32, buf: seq<bv8>, i: nat)
    requires i < |buf|
    ensures BitFold(crc, buf[..i + 1]) == BitStep(BitFold(crc, buf[..i]), buf[i])
  {
    assert buf[..i + 1][..i] == buf[..i];
  }

  /** n shifts */
  function Shifts(crc: bv32, n: nat): bv32 {
    if n == 0 then crc else Shift(Shifts(crc, n - 1))
  }

  lemma EightShifts(crc: bv32)
    ensures Shifts(crc, 8) == Shift8(crc)
  {
    hide Shift;
    var s1 := Shift(crc);
    var s2 := Shift(s1);
    var s3 := Shift(s2);
    var s4 := Shift(s3);
    assert Shifts(crc, 1) == s1;
    assert Shifts(crc, 3) == s3;
    assert Shifts(crc, 4) == s4;
    assert Shifts(crc, 5) == Shift(s4);
    assert Shifts(crc, 7) == Shift(Shift(Shift(s4)));
  }

  /** mg_crc32, which may go on from the CRC of what came before. */
  method MgCrc32(crc0: bv32, buf: seq<bv8>) returns (r: bv32)
    ensures r == Not(BitFold(Not(crc0), buf))
  {
    hide Shift8, Not, Xor, Odd, Half, Wide;
    var crc := Not(crc0);
    for k := 0 to |buf|
      invariant crc == BitFold(Not(crc0), buf[..k])
    {
      FoldStep(Not(crc0), buf, k);
      crc := Xor(crc, Wide(buf[k]));
      ghost var start := crc;
      for i := 0 to 8
        invariant crc == Shifts(start, i)
      {
        crc := if Odd(crc) then Xor(Half(crc), 0xedb88320) else Half(crc);
      }
      EightShifts(start);
    }
    assert buf[..|buf|] == buf;
    r := Not(crc);
  }

  function Not(x: bv32): bv32 {
    !x
  }

  /** Both programs compute the same CRC of any octets. */
  method SameCrc(buf: seq<bv8>) returns (table: bv32, bits: bv32)
    ensures table == bits == Xor(BitFold(ONES, buf), ONES)
  {
    hide BitFold, Xor, Not;
    table := Crc32(buf);
    bits := MgCrc32(0, buf);
    NotIsXor(BitFold(ONES, buf));
  }

  lemma NotIsXor(x: bv32)
    ensures Xor(x, 0xFFFF_FFFF) == Not(x) && Not(Not(x)) == x && Not(0) == 0xFFFF_FFFF
  {}

  /** Going on from the CRC of a is the CRC of a and b. */
  lemma {:induction false} FoldAppend(crc: bv32, a: seq<bv8>, b: seq<bv8>)
    ensures BitFold(crc, a + b) == BitFold(BitFold(crc, a), b)
    decreases |b|
  {
    hide BitStep;
    if b == [] {
      assert a + b == a;
    } else {
      var c := b[..|b| - 1];
      FoldAppend(crc, a, c);
      assert (a + b)[..|a + b| - 1] == a + c;
    }
  }

  lemma CrcInParts(crc0: bv32, a: seq<bv8>, b: seq<bv8>)
    ensures Not(BitFold(Not(Not(BitFold(Not(crc0), a))), b)) == Not(BitFold(Not(crc0), a + b))
  {
    hide BitFold, Not;
    NotIsXor(BitFold(Not(crc0), a));
    FoldAppend(Not(crc0), a, b);
  }

  // The trailer

  /** crc_buff: the low octet of the CRC first. */
  function Trailer(crc: bv32): seq<bv8> {
    [Octet(crc), Octet(High(crc)), Octet(High(High(crc))), Octet(High(High(High(crc))))]
  }

  /** A conversion to unsigned char. */
  function Octet(x: bv32): bv8 {
    Low(x) as bv8
  }

  lemma WideOctet(x: bv32)
    ensures Wide(Octet(x)) == Low(x)
  {}

  /** An octet taken from a number: what is left of the number is then next. */
  lemma TakeOctet(s: bv32, w: bv32)
    ensures Xor(BitStep(s, Octet(w)), High(w)) == Shift8(Xor(s, w))
  {
    hide Shift8, Xor, Low, High, Up, Octet, Wide;
    WideOctet(w);
    Parts(w);
    Regroup(s, Low(w), Up(High(w)));
    Shift8Xor(Xor(s, Low(w)), Up(High(w)));
    ShiftHigh(High(w));
  }

  lemma Regroup(a: bv32, b: bv32, c: bv32)
    ensures Xor(a, Xor(b, c)) == Xor(Xor(a, b), c)
  {}

  lemma NothingLeft(w: bv32, s: bv32)
    ensures Xor(s, High(High(High(High(w))))) == s
    ensures Xor(s, Xor(s, ONES)) == ONES
  {}

  /** Thirty-two shifts of all ones. */
  lemma Residue()
    ensures Shift8(Shift8(Shift8(Shift8(ONES)))) == 0xdebb20e3 && Xor(0xdebb20e3, ONES) == 0x2144df1c
  {
    assert Shift8(0xffffffff) == 0x2dfd1072;
    assert Shift8(0x2dfd1072) == 0xbe26ed00;
    assert Shift8(0xbe26ed00) == 0x00be26ed;
    assert Shift8(0x00be26ed) == 0xdebb20e3;
  }

  /** The four octets of a trailer, one after another. */
  lemma FoldTrailer(s: bv32, w: bv32)
    ensures BitFold(s, Trailer(w)) == Shift8(Shift8(Shift8(Shift8(Xor(s, w)))))
  {
    hide BitStep, Shift8, Xor, High, Octet;
    var w1 := High(w);
    var w2 := High(w1);
    var w3 := High(w2);
    var s1 := BitStep(s, Octet(w));
    var s2 := BitStep(s1, Octet(w1));
    var s3 := BitStep(s2, Octet(w2));
    var s4 := BitStep(s3, Octet(w3));
    TakeOctet(s, w);
    TakeOctet(s1, w1);
    TakeOctet(s2, w2);
    TakeOctet(s3, w3);
    NothingLeft(w, s4);
    FourOctets(s, Octet(w), Octet(w1), Octet(w2), Octet(w3));
  }

  lemma FourOctets(s: bv32, a: bv8, b: bv8, c: bv8, d: bv8)
    ensures BitFold(s, [a, b, c, d]) == BitStep(BitStep(BitStep(BitStep(s, a), b), c), d)
  {
    hide BitStep;
    assert [a, b, c, d][..3] == [a, b, c] && [a, b, c][..2] == [a, b] && [a, b][..1] == [a] && [a][..0] == [];
    assert BitFold(s, [a]) == BitStep(s, a);
    assert BitFold(s, [a, b]) == BitStep(BitStep(s, a), b);
    assert BitFold(s, [a, b, c]) == BitStep(BitStep(BitStep(s, a), b), c);
  }

  /** One more octet. */
  lemma FoldOne(s: seq<bv8>, crc: bv32, b: bv8, next: bv32) returns (t: seq<bv8>)
    requires BitFold(ONES, s) == crc && BitStep(crc, b) == next
    ensures t == s + [b] && BitFold(ONES, t) == next
  {
    hide BitStep;
    t := s + [b];
    assert t[..|s|] == s;
  }

  lemma CheckSteps()
    ensures BitStep(0xffffffff, 0x31) == 0x7c231048
    ensures BitStep(0x7c231048, 0x32) == 0xb0acbb32
    ensures BitStep(0xb0acbb32, 0x33) == 0x77b79c2d
    ensures BitStep(0x77b79c2d, 0x34) == 0x641c1f5c
    ensures BitStep(0x641c1f5c, 0x35) == 0x340ac5e3
    ensures BitStep(0x340ac5e3, 0x36) == 0xf68d2c9e
    ensures BitStep(0xf68d2c9e, 0x37) == 0xaffc9660
    ensures BitStep(0xaffc9660, 0x38) == 0x651f2550
    ensures BitStep(0x651f2550, 0x39) == 0x340bc6d9
  {}

  /** The usual check value: the CRC of the digits 1 to 9. */
  lemma CheckValue()
    ensures Xor(BitFold(ONES, [0x31, 0x32, 0x33, 0x34, 0x35, 0x36, 0x37, 0x38, 0x39]), ONES) == 0xcbf43926
  {
    CheckSteps();
    hide BitStep, BitFold;
    var s: seq<bv8> := [];
    assert BitFold(ONES, s) == ONES by { FoldNone(); }
    s := FoldOne(s, 0xffffffff, 0x31, 0x7c231048);
    s := FoldOne(s, 0x7c231048, 0x32, 0xb0acbb32);
    s := FoldOne(s, 0xb0acbb32, 0x33, 0x77b79c2d);
    s := FoldOne(s, 0x77b79c2d, 0x34, 0x641c1f5c);
    s := FoldOne(s, 0x641c1f5c, 0x35, 0x340ac5e3);
    s := FoldOne(s, 0x340ac5e3, 0x36, 0xf68d2c9e);
    s := FoldOne(s, 0xf68d2c9e, 0x37, 0xaffc9660);
    s := FoldOne(s, 0xaffc9660, 0x38, 0x651f2550);
    s := FoldOne(s, 0x651f2550, 0x39, 0x340bc6d9);
    assert s == [0x31, 0x32, 0x33, 0x34, 0x35, 0x36, 0x37, 0x38, 0x39];
  }

  lemma FoldNone()
    ensures BitFold(ONES, []) == ONES
  {}

  /** Any octets with their CRC after them have the CRC 0x2144df1c. */
  lemma CrcOfWhole(buf: seq<bv8>)
    ensures var crc := Xor(BitFold(ONES, buf), ONES);
            Xor(BitFold(ONES, buf + Trailer(crc)), ONES) == 0x2144df1c
  {
    hide BitFold, Xor, Shift8, Trailer;
    var s := BitFold(ONES, buf);
    var crc := Xor(s, ONES);
    FoldAppend(ONES, buf, Trailer(crc));
    FoldTrailer(s, crc);
    NothingLeft(crc, s);
    Residue();
  }

  /** main: the octets of a file and then the trailer. */
  method AppendCrc(buf: seq<bv8>) returns (output: seq<bv8>)
    ensures |output| == |buf| + 4 && output[..|buf|] == buf
    ensures Xor(BitFold(ONES, output), ONES) == 0x2144df1c
  {
    hide BitFold, Xor;
    var crc := Crc32(buf);
    output := buf + Trailer(crc);
    CrcOfWhole(buf);
  }
}
