/** Well-formed UTF-8, parson's check of it, and what process_string makes of it. */
module Utf8 {
  import opened Bytes
  import opened ObjectTable
  import opened JsonText

  // Section 4 of RFC 3629

  predicate Within(c: Byte, low: nat, high: nat) {
    low <= c as int <= high
  }

  predicate Tail(c: Byte) {
    Within(c, 0x80, 0xBF)
  }

  /** The length of the well-formed sequence that s starts with, or zero. */
  function SequenceAt(s: seq<Byte>): (k: nat)
    ensures k <= 4 && k <= |s|
  {
    if |s| >= 1 && Within(s[0], 0x00, 0x7F) then 1
    else if |s| >= 2 && Within(s[0], 0xC2, 0xDF) && Tail(s[1]) then 2
    else if |s| >= 3 && Tail(s[2])
         && ((Within(s[0], 0xE0, 0xE0) && Within(s[1], 0xA0, 0xBF)) || (Within(s[0], 0xE1, 0xEC) && Tail(s[1]))
             || (Within(s[0], 0xED, 0xED) && Within(s[1], 0x80, 0x9F))
                || (Within(s[0], 0xEE, 0xEF) && Tail(s[1]))) then 3
    else if |s| >= 4 && Tail(s[2]) && Tail(s[3])
         && ((Within(s[0], 0xF0, 0xF0) && Within(s[1], 0x90, 0xBF)) || (Within(s[0], 0xF1, 0xF3) && Tail(s[1]))
             || (Within(s[0], 0xF4, 0xF4) && Within(s[1], 0x80, 0x8F))) then 4
    else 0
  }

  predicate Valid(s: seq<Byte>)
    decreases |s|
  {
    s == [] || (SequenceAt(s) > 0 && Valid(s[SequenceAt(s)..]))
  }

  predicate Surrogate(cp: nat) {
    0xD800 <= cp <= 0xDFFF
  }

  /** The code point of a sequence. */
  function CodePoint(s: seq<Byte>): int
    requires 1 <= |s| <= 4
  {
    if |s| == 1 then s[0] as int
    else if |s| == 2 then (s[0] as int - 0xC0) * 0x40 + (s[1] as int - 0x80)
    else if |s| == 3 then (s[0] as int - 0xE0) * 0x1000 + (s[1] as int - 0x80) * 0x40 + (s[2] as int - 0x80)
    else
      (s[0] as int - 0xF0) * 0x40000 + (s[1] as int - 0x80) * 0x1000
      + (s[2] as int - 0x80) * 0x40 + (s[3] as int - 0x80)
  }

  // Sequences in a text

  lemma SequencePrefix(t: seq<Byte>, rest: seq<Byte>)
    requires t != []
    ensures SequenceAt(t) == |t| <==> SequenceAt(t + rest) == |t|
    ensures SequenceAt(t) > 0 ==> SequenceAt(t + rest) == SequenceAt(t)
  {}

  lemma ValidCons(t: seq<Byte>, rest: seq<Byte>)
    requires t != [] && SequenceAt(t) == |t|
    ensures Valid(t + rest) <==> Valid(rest)
  {
    hide SequenceAt;
    SequencePrefix(t, rest);
    assert (t + rest)[|t|..] == rest;
  }

  lemma {:induction false} AsciiPrefix(s: seq<Byte>, k: nat)
    requires k <= |s| && (forall i :: 0 <= i < k ==> s[i] as int < 0x80) && Valid(s)
    ensures Valid(s[k..])
    decreases |s|
  {
    if k > 0 {
      AsciiPrefix(s[1..], k - 1);
      assert s[1..][k - 1..] == s[k..];
    }
  }

  // parson's check

  /** IS_CONT */
  predicate IsCont(c: Byte) {
    c as int / 0x40 == 2
  }

  /** num_bytes_in_utf8_sequence */
  function NumBytes(c: Byte): nat {
    var b := c as int;
    if b == 0xC0 || b == 0xC1 || b > 0xF4 || IsCont(c) then 0
    else if b / 0x80 == 0 then 1
    else if b / 0x20 == 6 then 2
    else if b / 0x10 == 14 then 3
    else if b / 0x08 == 30 then 4
    else 0
  }

  function At(s: seq<Byte>, i: nat): Byte {
    if i < |s| then s[i] else '\0'
  }

  function LowSix(c: Byte): nat {
    c as int % 0x40
  }

  /** The code point verify_utf8_sequence puts together, if there are enough continuation bytes. */
  function Assembled(s: seq<Byte>): Option<nat>
    requires s != []
  {
    var b, len := s[0] as int, NumBytes(s[0]);
    if len == 1 then Some(b)
    else if len == 2 && IsCont(At(s, 1)) then Some(b % 0x20 * 0x40 + LowSix(At(s, 1)))
    else if len == 3 && IsCont(At(s, 1)) && IsCont(At(s, 2)) then
      Some((b % 0x10 * 0x40 + LowSix(At(s, 1))) * 0x40 + LowSix(At(s, 2)))
    else if len == 4 && IsCont(At(s, 1)) && IsCont(At(s, 2)) && IsCont(At(s, 3)) then
      Some(((b % 0x08 * 0x40 + LowSix(At(s, 1))) * 0x40 + LowSix(At(s, 2))) * 0x40 + LowSix(At(s, 3)))
    else None
  }

  /** verify_utf8_sequence: the length, or none. */
  function VerifySequence(s: seq<Byte>): Option<nat>
    requires s != []
  {
    var len := NumBytes(s[0]);
    match Assembled(s)
    case None => None
    case Some(cp) =>
      if (cp < 0x80 && len > 1) || (cp < 0x800 && len > 2) || (cp < 0x10000 && len > 3) then None
      else if cp > 0x10FFFF then None
      else if Surrogate(cp) then None
      else Some(len)
  }

  /**
   * The check of the first bytes, of their number, and against overlong forms, surrogates and the range is RFC 3629's
   * grammar.
   */
  lemma VerifyIsRfc(s: seq<Byte>)
    requires s != []
    ensures VerifySequence(s) == if SequenceAt(s) > 0 then Some(SequenceAt(s)) else None
    ensures SequenceAt(s) > 0 ==> Assembled(s) == Some(CodePoint(s[..SequenceAt(s)]))
  {
    FirstByte(s[0]);
    var len := NumBytes(s[0]);
    if |s| >= 2 { TailIsCont(s[1]); }
    if |s| >= 3 { TailIsCont(s[2]); }
    if |s| >= 4 { TailIsCont(s[3]); }
  }

  lemma FirstByte(c: Byte)
    ensures var b, len := c as int, NumBytes(c);
            && (len == 1 <==> b < 0x80) && (len == 2 <==> 0xC2 <= b <= 0xDF)
            && (len == 3 <==> 0xE0 <= b <= 0xEF) && (len == 4 <==> 0xF0 <= b <= 0xF4)
            && (len == 2 ==> b % 0x20 == b - 0xC0) && (len == 3 ==> b % 0x10 == b - 0xE0)
               && (len == 4 ==> b % 0x08 == b - 0xF0)
  {}

  lemma TailIsCont(c: Byte)
    ensures IsCont(c) <==> Tail(c)
    ensures Tail(c) ==> LowSix(c) == c as int - 0x80
  {}

  /** The sequences that begin before n are well-formed. */
  predicate ValidUpTo(s: seq<Byte>, n: int)
    decreases |s|
  {
    n <= 0 || (SequenceAt(s) > 0 && ValidUpTo(s[SequenceAt(s)..], n - SequenceAt(s)))
  }

  /** is_valid_utf8 for the first `length` bytes of a C string. */
  method IsValidUtf8(text: seq<Byte>, length: nat) returns (valid: bool)
    requires length <= |text|
    ensures valid == ValidUpTo(text, length)
  {
    hide SequenceAt, VerifySequence;
    var p := 0;
    assert text[0..] == text;
    while p < length
      invariant p <= |text| && ValidUpTo(text[p..], length - p) == ValidUpTo(text, length)
    {
      VerifyIsRfc(text[p..]);
      var len := VerifySequence(text[p..]);
      if len.None? {
        return false;
      }
      assert text[p..][len.value..] == text[p + len.value..];
      p := p + len.value;
    }
    return true;
  }

  /** Of a whole C string the check is exact. */
  lemma {:induction false} WholeIsExact(s: seq<Byte>)
    ensures ValidUpTo(s, |s|) <==> Valid(s)
    decreases |s|
  {
    hide SequenceAt;
    if s != [] && SequenceAt(s) > 0 {
      WholeIsExact(s[SequenceAt(s)..]);
    }
  }

  /** Of a part it asks whether the part, or some longer part, is well-formed. */
  lemma {:induction false} PartIsValid(s: seq<Byte>, n: nat)
    requires n <= |s|
    ensures ValidUpTo(s, n) <==> exists m :: n <= m <= |s| && Valid(s[..m])
    decreases |s|
  {
    hide SequenceAt;
    if ValidUpTo(s, n) {
      var m := LongerPart(s, n);
    }
    forall m | n <= m <= |s| && Valid(s[..m])
      ensures ValidUpTo(s, n)
    {
      PartOfLonger(s, n, m);
    }
  }

  lemma SequenceFits(s: seq<Byte>)
    requires SequenceAt(s) > 0
    ensures SequenceAt(s[..SequenceAt(s)]) == SequenceAt(s)
  {}

  lemma {:induction false} LongerPart(s: seq<Byte>, n: int) returns (m: nat)
    requires n <= |s| && ValidUpTo(s, n)
    ensures n <= m <= |s| && Valid(s[..m])
    decreases |s|
  {
    hide SequenceAt;
    if n <= 0 {
      m := 0;
    } else {
      var k := SequenceAt(s);
      SequenceFits(s);
      var more := LongerPart(s[k..], n - k);
      m := k + more;
      assert s[..m] == s[..k] + s[k..][..more];
      ValidCons(s[..k], s[k..][..more]);
    }
  }

  lemma {:induction false} PartOfLonger(s: seq<Byte>, n: int, m: nat)
    requires n <= m <= |s| && Valid(s[..m])
    ensures ValidUpTo(s, n)
    decreases |s|
  {
    hide SequenceAt;
    if n > 0 {
      assert s == s[..m] + s[m..];
      SequencePrefix(s[..m], s[m..]);
      var k := SequenceAt(s);
      assert s[..m][k..] == s[k..][..m - k];
      PartOfLonger(s[k..], n - k, m - k);
    }
  }

  /** So json_value_init_string_with_len takes a part that ends inside a sequence, if the rest of it follows. */
  lemma CutSequenceAccepted()
    ensures ValidUpTo(['\U{C3}', '\U{A9}'], 1) && !Valid(['\U{C3}', '\U{A9}'][..1])
  {
    assert SequenceAt(['\U{C3}', '\U{A9}']) == 2;
  }

  // The escapes of process_string

  /** What parse_utf16 stores is the one sequence of its code point, and no sequence at all for a surrogate. */
  lemma Utf8IsSequence(cp: nat)
    requires cp < 0x110000
    ensures SequenceAt(Utf8(cp)) == |Utf8(cp)| <==> !Surrogate(cp)
    ensures CodePoint(Utf8(cp)) == cp
  {
    if cp < 0x10000 {
      hide SequenceAt, CodePoint;
      ShortIsSequence(cp);
    } else {
      hide SequenceAt, CodePoint;
      Digits64(cp);
      FourBytes(cp / 0x40000, cp / 0x1000 % 0x40, cp / 0x40 % 0x40, cp % 0x40);
    }
  }

  lemma ShortIsSequence(cp: nat)
    requires cp < 0x10000
    ensures SequenceAt(Utf8(cp)) == |Utf8(cp)| <==> !Surrogate(cp)
    ensures CodePoint(Utf8(cp)) == cp
  {
    Digits64(cp);
    if 0x80 <= cp < 0x800 {
      TwoBytes(cp / 0x40, cp % 0x40);
    } else if 0x800 <= cp {
      ThreeBytes(cp / 0x1000, cp / 0x40 % 0x40, cp % 0x40);
    }
  }

  lemma Digits64(x: nat)
    ensures x == x / 0x40 * 0x40 + x % 0x40
    ensures x / 0x40 == x / 0x1000 * 0x40 + x / 0x40 % 0x40
    ensures x / 0x1000 == x / 0x40000 * 0x40 + x / 0x1000 % 0x40
  {}

  lemma TwoBytes(a: nat, b: nat)
    requires 2 <= a < 0x20 && b < 0x40
    ensures var t := [ByteOf(0xC0 + a), ByteOf(0x80 + b)];
            SequenceAt(t) == 2 && CodePoint(t) == a * 0x40 + b
  {}

  lemma ThreeBytes(a: nat, b: nat, c: nat)
    requires a < 0x10 && b < 0x40 && c < 0x40 && a * 0x40 + b >= 0x20
    ensures var t := [ByteOf(0xE0 + a), ByteOf(0x80 + b), ByteOf(0x80 + c)];
            && (SequenceAt(t) == 3 <==> !(a == 0xD && b >= 0x20))
            && CodePoint(t) == a * 0x1000 + b * 0x40 + c
  {}

  lemma FourBytes(a: nat, b: nat, c: nat, d: nat)
    requires a <= 4 && b < 0x40 && c < 0x40 && d < 0x40 && 0x10 <= a * 0x40 + b < 0x110
    ensures var t := [ByteOf(0xF0 + a), ByteOf(0x80 + b), ByteOf(0x80 + c), ByteOf(0x80 + d)];
            SequenceAt(t) == 4 && CodePoint(t) == a * 0x40000 + b * 0x1000 + c * 0x40 + d
  {}

  predicate Lead(cp: nat) {
    0xD800 <= cp <= 0xDBFF
  }

  predicate Trail(cp: nat) {
    0xDC00 <= cp <= 0xDFFF
  }

  /** The code point of a surrogate pair, section 7 of RFC 8259. */
  function Paired(lead: nat, trail: nat): nat
    requires Lead(lead) && Trail(trail)
  {
    0x10000 + (lead - 0xD800) * 0x400 + (trail - 0xDC00)
  }

  /** A trail surrogate is escaped next. */
  predicate TrailNext(s: seq<Byte>) {
    |s| >= 2 && s[0] == '\\' && s[1] == 'u' && Hex4(s[2..]).Some? && Trail(Hex4(s[2..]).value)
  }

  /** parse_utf16 takes a code point that is no surrogate, or a lead and a trail, and refuses every lone surrogate. */
  lemma NoLoneSurrogate(s: seq<Byte>)
    ensures Hex4(s).None? ==> Utf16Escape(s).None?
    ensures Hex4(s).Some? ==>
              (Utf16Escape(s).Some? <==> !Surrogate(Hex4(s).value) || (Lead(Hex4(s).value) && TrailNext(s[4..])))
    ensures Utf16Escape(s).Some? ==>
              var (bytes, used) := Utf16Escape(s).value;
              && SequenceAt(bytes) == |bytes|
              && CodePoint(bytes) == if used == 4 then Hex4(s).value else Paired(Hex4(s).value, Hex4(s[6..]).value)
  {
    hide Hex4, SequenceAt, CodePoint, Utf8;
    if Hex4(s).Some? {
      var cp := Hex4(s).value;
      if !Surrogate(cp) {
        Utf8IsSequence(cp);
      } else if Lead(cp) {
        if |s| >= 6 { assert s[4..][1..] == s[5..] && s[4..][2..] == s[6..]; }
        if TrailNext(s[4..]) {
          Utf8IsSequence(Paired(cp, Hex4(s[6..]).value));
        }
      }
    }
  }

  // The whole of process_string

  lemma HexIsAscii(s: seq<Byte>)
    requires Hex4(s).Some?
    ensures forall i :: 0 <= i < 4 ==> s[i] as int < 0x80
  {}

  /** An ASCII character is read with ASCII characters only, and one sequence is stored. */
  lemma OneIsSequence(s: seq<Byte>)
    requires Cur(s) != '\0' && s[0] as int < 0x80 && ProcessOne(s).Some?
    ensures var (bytes, used) := ProcessOne(s).value;
            SequenceAt(bytes) == |bytes| && forall i :: 0 <= i < used ==> s[i] as int < 0x80
  {
    if s[0] == '\\' && Cur(s[1..]) == 'u' {
      var t := s[2..];
      hide SequenceAt, Hex4, SimpleEscape;
      NoLoneSurrogate(t);
      HexIsAscii(t);
      var used := Utf16Escape(t).value.1;
      if used == 10 {
        HexIsAscii(t[6..]);
        assert t[4..][0] == t[4] && t[5..][0] == t[5];
        assert forall i :: 0 <= i < 4 ==> t[6..][i] == t[6 + i];
      }
      assert forall i :: 0 <= i < used ==> s[2 + i] == t[i];
    }
  }

  lemma CopyByte(s: seq<Byte>, n: int)
    requires n > 0 && s != [] && s[0] as int >= 0x80 && Process(s, n).Some?
    ensures Process(s[1..], n - 1).Some? && Process(s, n).value == [s[0]] + Process(s[1..], n - 1).value
  {}

  /** Bytes beyond ASCII are copied one by one. */
  lemma {:induction false} CopyBytes(s: seq<Byte>, n: int, k: nat)
    requires k <= n && k <= |s| && (forall i :: 0 <= i < k ==> s[i] as int >= 0x80) && Process(s, n).Some?
    ensures Process(s[k..], n - k).Some? && Process(s, n).value == s[..k] + Process(s[k..], n - k).value
    decreases k
  {
    hide Process;
    if k > 0 {
      CopyByte(s, n);
      CopyBytes(s[1..], n - 1, k - 1);
      assert s[1..][k - 1..] == s[k..] && [s[0]] + s[1..][..k - 1] == s[..k];
    } else {
      assert s[0..] == s && s[..0] == [];
    }
  }

  lemma SequenceNotAscii(s: seq<Byte>)
    requires SequenceAt(s) > 0 && s[0] as int >= 0x80
    ensures forall i :: 0 <= i < SequenceAt(s) ==> s[i] as int >= 0x80
  {}

  /** process_string makes well-formed UTF-8 of well-formed UTF-8. */
  lemma {:induction false} ProcessKeepsValid(s: seq<Byte>, n: int)
    requires n <= |s| && (n > 0 ==> Valid(s[..n])) && Process(s, n).Some?
    ensures Valid(Process(s, n).value)
    decreases |s|
  {
    hide SequenceAt, ProcessOne;
    if Cur(s) != '\0' && n > 0 {
      var t := s[..n];
      if s[0] as int < 0x80 {
        OneIsSequence(s);
        var (bytes, used) := ProcessOne(s).value;
        if used <= n {
          AsciiPrefix(t, used);
          assert t[used..] == s[used..][..n - used];
        }
        ProcessKeepsValid(s[used..], n - used);
        ValidCons(bytes, Process(s[used..], n - used).value);
      } else {
        var k := SequenceAt(t);
        SequenceNotAscii(t);
        CopyBytes(s, n, k);
        assert t[k..] == s[k..][..n - k];
        ProcessKeepsValid(s[k..], n - k);
        SequenceFits(t);
        assert t[..k] == s[..k];
        ValidCons(s[..k], Process(s[k..], n - k).value);
      }
    }
  }
}
