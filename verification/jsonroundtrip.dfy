/** Parsing undoes serializing. */
module JsonRoundTrip {
  import opened Bytes
  import opened ObjectTable
  import opened JsonText

  /** What may follow a value inside serialized text. */
  predicate EndsNumber(rest: seq<Byte>) {
    rest == [] || rest[0] == ',' || rest[0] == ']' || rest[0] == '}' || rest[0] == '\n'
  }

  /** The number reader undoes the number printer, whatever may follow the number. */
  ghost predicate Inverse<N(!new)>(fmt: NumberFormat<N>) {
    forall n: N, rest: seq<Byte> :: EndsNumber(rest) ==>
      var t := fmt.write(n) + rest;
      fmt.write(n) != [] && (t[0] == '-' || '0' <= t[0] <= '9') && fmt.read(t) == Some((n, |fmt.write(n)|))
  }

  /** The values parson can hold: object keys are distinct C strings. */
  ghost predicate WellFormed<N>(v: Value<N>)
    decreases v, 1
  {
    match v
    case Array(items) => AllWellFormed(items)
    case Object(names, values) =>
      |names| == |values| && DistinctKeys(names) && AllWellFormed(values)
    case _ => true
  }

  ghost predicate AllWellFormed<N>(vs: seq<Value<N>>)
    decreases vs, 0
  {
    vs == [] || (WellFormed(vs[0]) && AllWellFormed(vs[1..]))
  }

  ghost predicate DistinctKeys(names: seq<Key>) {
    && (forall i :: 0 <= i < |names| ==> '\0' !in names[i])
    && (forall i, j :: 0 <= i < j < |names| ==> names[i] != names[j])
  }

  /** How deep containers are nested in a value. */
  function Depth<N>(v: Value<N>): (d: nat)
    decreases v, 1
  {
    match v
    case Array(items) => if items == [] then 0 else 1 + MaxDepth(items)
    case Object(names, values) => if values == [] then 0 else 1 + MaxDepth(values)
    case _ => 0
  }

  function MaxDepth<N>(vs: seq<Value<N>>): (d: nat)
    decreases vs, 0
  {
    if vs == [] then 0
    else
      var d, rest := Depth(vs[0]), MaxDepth(vs[1..]);
      if d > rest then d else rest
  }

  // Whitespace

  lemma {:induction false} SkipSpaces(ws: seq<Byte>, s: seq<Byte>)
    requires forall i :: 0 <= i < |ws| ==> IsSpace(ws[i])
    ensures SkipWs(ws + s) == SkipWs(s)
  {
    if ws == [] {
      assert ws + s == s;
    } else {
      SkipSpaces(ws[1..], s);
      assert (ws + s)[1..] == ws[1..] + s;
    }
  }

  lemma {:induction false} IndentIsSpace(level: nat)
    ensures forall i :: 0 <= i < |Indent(level)| ==> IsSpace(Indent(level)[i])
  {
    if level > 0 {
      IndentIsSpace(level - 1);
    }
  }

  lemma PrettyIndent<N>(cfg: Config<N>, level: nat, s: seq<Byte>)
    ensures SkipWs(Pretty(cfg, Indent(level)) + s) == SkipWs(s)
    ensures SkipWs(Pretty(cfg, "\n") + s) == SkipWs(s)
    ensures SkipWs(Pretty(cfg, " ") + s) == SkipWs(s)
  {
    IndentIsSpace(level);
    SkipSpaces(Pretty(cfg, Indent(level)), s);
    SkipSpaces(Pretty(cfg, "\n"), s);
    SkipSpaces(Pretty(cfg, " "), s);
  }

  // Strings

  /** The scan for the closing quote passes over an escaped character. */
  lemma SkipEscape(c: Byte, esc: bool, z: seq<Byte>)
    ensures SkipBody(Escape(c, esc) + z) == SkipBody(z)
  {
    var e := Escape(c, esc);
    var t := e + z;
    if |e| == 1 {
      assert t[1..] == z;
    } else if |e| == 2 {
      assert t[1..][0] == e[1] && t[2..] == z;
    } else {
      HexDigits(c);
      SkipHexEscape(e, z);
    }
  }

  lemma SkipHexEscape(e: seq<Byte>, z: seq<Byte>)
    requires |e| == 6 && e[..4] == "\\u00"
    requires forall i :: 4 <= i < 6 ==> e[i] != '"' && e[i] != '\\' && e[i] != '\0'
    ensures SkipBody(e + z) == SkipBody(z)
  {
    var t := e + z;
    hide SkipBody;
    assert e == "\\u00" + [e[4], e[5]];
    SkipBackslash(t, t[2..]);
    PlainChar('0', t[2..], t[3..]);
    PlainChar('0', t[3..], t[4..]);
    PlainChar(e[4], t[4..], t[5..]);
    PlainChar(e[5], t[5..], z);
  }

  lemma SkipBackslash(t: seq<Byte>, z: seq<Byte>)
    requires t == "\\u" + z
    ensures SkipBody(t) == SkipBody(z)
  {
    assert t[1..][0] == 'u' && t[2..] == z;
  }

  lemma PlainChar(c: Byte, s: seq<Byte>, z: seq<Byte>)
    requires s == [c] + z && c != '"' && c != '\\' && c != '\0'
    ensures SkipBody(s) == SkipBody(z)
  {
    assert s[1..] == z;
  }

  lemma HexDigits(c: Byte)
    requires c as int < 0x20
    ensures var e := "\\u00" + [HexDigit(c as int / 16), HexDigit(c as int % 16)];
            |e| == 6 && HexValue(e[4]) == c as int / 16 && HexValue(e[5]) == c as int % 16
            && e[4] != '"' && e[4] != '\\' && e[4] != '\0' && e[5] != '"' && e[5] != '\\' && e[5] != '\0'
  {
    HexRoundTrip(c as int / 16);
    HexRoundTrip(c as int % 16);
  }

  lemma HexRoundTrip(x: nat)
    requires x < 16
    ensures HexValue(HexDigit(x)) == x
    ensures HexDigit(x) in "0123456789abcdef"
  {
    var c := HexDigit(x);
    if x < 10 {
      assert x == 0 || x == 1 || x == 2 || x == 3 || x == 4 || x == 5 || x == 6 || x == 7 || x == 8 || x == 9;
    } else {
      assert x == 10 || x == 11 || x == 12 || x == 13 || x == 14 || x == 15;
    }
  }

  /** Reading an escaped character gives the character back. */
  lemma ProcessEscape(c: Byte, esc: bool, z: seq<Byte>)
    ensures Cur(Escape(c, esc) + z) != '\0'
    ensures ProcessOne(Escape(c, esc) + z) == Some(([c], |Escape(c, esc)|))
  {
    hide Hex4, Utf16Escape, HexValue, HexDigit;
    var e := Escape(c, esc);
    var t := e + z;
    if |e| == 2 {
      assert t[1..] == [e[1]] + z;
    } else if |e| == 6 {
      HexDigits(c);
      ProcessHexEscape(c, e, z);
    }
  }

  lemma ProcessHexEscape(c: Byte, e: seq<Byte>, z: seq<Byte>)
    requires |e| == 6 && c as int < 0x20 && e == "\\u00" + [e[4], e[5]]
    requires HexValue(e[4]) == c as int / 16 && HexValue(e[5]) == c as int % 16 && e[4] != '\0' && e[5] != '\0'
    ensures ProcessOne(e + z) == Some(([c], 6))
  {
    var t := e + z;
    assert t[1..][0] == 'u';
    var t2 := t[2..];
    assert t2[0] == '0' && t2[1] == '0' && t2[2] == e[4] && t2[3] == e[5];
    assert Hex4(t2) == Some(c as int);
  }

  lemma EscapeFirst(s: seq<Byte>, esc: bool, rest: seq<Byte>)
    requires s != []
    ensures var tail := EscapeAll(s[1..], esc) + ['"'] + rest;
            EscapeAll(s, esc) + ['"'] + rest == Escape(s[0], esc) + tail
    ensures |EscapeAll(s, esc)| == |Escape(s[0], esc)| + |EscapeAll(s[1..], esc)|
  {
    hide Escape;
  }

  lemma EscapeNone(esc: bool, rest: seq<Byte>)
    ensures EscapeAll([], esc) + ['"'] + rest == ['"'] + rest
    ensures SkipBody(['"'] + rest) == Some(rest)
  {
    assert (['"'] + rest)[1..] == rest;
  }

  lemma {:induction false} SkipEscaped(s: seq<Byte>, esc: bool, rest: seq<Byte>)
    ensures SkipBody(EscapeAll(s, esc) + ['"'] + rest) == Some(rest)
  {
    hide Escape, SkipBody, EscapeAll;
    if s == [] {
      EscapeNone(esc, rest);
    } else {
      SkipEscaped(s[1..], esc, rest);
      EscapeFirst(s, esc, rest);
      SkipEscape(s[0], esc, EscapeAll(s[1..], esc) + ['"'] + rest);
    }
  }

  lemma {:induction false} ProcessEscaped(s: seq<Byte>, esc: bool, rest: seq<Byte>)
    ensures Process(EscapeAll(s, esc) + ['"'] + rest, |EscapeAll(s, esc)|) == Some(s)
  {
    hide Escape, EscapeAll, Process, ProcessOne, Cur;
    if s == [] {
      ProcessNone(esc, rest);
    } else {
      var e, n := Escape(s[0], esc), |EscapeAll(s[1..], esc)|;
      var tail := EscapeAll(s[1..], esc) + ['"'] + rest;
      ProcessEscaped(s[1..], esc, rest);
      ProcessEscape(s[0], esc, tail);
      EscapeFirst(s, esc, rest);
      ProcessNext(e, tail, n, s[0], s[1..]);
      assert [s[0]] + s[1..] == s;
    }
  }

  lemma ProcessNone(esc: bool, rest: seq<Byte>)
    ensures Process(EscapeAll([], esc) + ['"'] + rest, |EscapeAll([], esc)|) == Some([])
  {}

  lemma ProcessNext(e: seq<Byte>, tail: seq<Byte>, n: nat, c: Byte, rest: seq<Byte>)
    requires e != [] && Cur(e + tail) != '\0' && ProcessOne(e + tail) == Some(([c], |e|))
             && Process(tail, n) == Some(rest)
    ensures Process(e + tail, |e| + n) == Some([c] + rest)
  {
    hide ProcessOne;
    assert (e + tail)[|e|..] == tail;
  }

  /** get_quoted_string undoes json_serialize_string. */
  lemma StringRoundTrip(s: seq<Byte>, esc: bool, rest: seq<Byte>)
    ensures GetQuotedString(SerializeString(s, esc) + rest) == Some((s, rest))
  {
    var e := EscapeAll(s, esc);
    var t, body := SerializeString(s, esc) + rest, e + ['"'] + rest;
    assert t == ['"'] + body;
    assert t[1..] == body && |t| == |e| + |rest| + 2;
    SkipEscaped(s, esc, rest);
    ProcessEscaped(s, esc, rest);
  }

  // Values

  /** Serialized values start with a character that is not white space, and that parse_value looks at. */
  lemma FirstCharacter<N(!new)>(cfg: Config<N>, v: Value<N>, level: nat, rest: seq<Byte>)
    requires Inverse(cfg.fmt) && EndsNumber(rest)
    ensures var t := Serialize(cfg, v, level) + rest;
            t != [] && !IsSpace(t[0]) && t[0] != ']' && t[0] != '}' && t[0] != '\0' && t[0] != '\U{EF}'
  {
    if v.Number? {
      assert cfg.fmt.write(v.n) != [];
    }
  }

  /** What is left after an item: a separator and more items, or the end of the container. */
  function AfterItem<N>(cfg: Config<N>, more: seq<Byte>, last: bool, level: nat, close: Byte,
                        rest: seq<Byte>): seq<Byte> {
    Separator(cfg, last) + more + Pretty(cfg, Indent(level)) + [close] + rest
  }

  /** After the last item only white space comes before the closing bracket. */
  lemma LastSeparator<N>(cfg: Config<N>, level: nat, close: Byte, rest: seq<Byte>)
    requires close == ']' || close == '}'
    ensures var r := AfterItem(cfg, [], true, level, close, rest);
            EndsNumber(r) && SkipWs(r) == [close] + rest
  {
    var s := [close] + rest;
    var end := Pretty(cfg, Indent(level)) + s;
    assert AfterItem(cfg, [], true, level, close, rest) == Pretty(cfg, "\n") + end;
    PrettyIndent(cfg, level, end);
    PrettyIndent(cfg, level, s);
    PrettyFirst(cfg, level, s, end);
  }

  /** After any other item there is a comma, and white space before the next item. */
  lemma MoreSeparator<N>(cfg: Config<N>, more: seq<Byte>, level: nat, close: Byte, rest: seq<Byte>)
    ensures var r := AfterItem(cfg, more, false, level, close, rest);
            && EndsNumber(r) && SkipWs(r) == r && Cur(r) == ','
            && SkipWs(r[1..]) == SkipWs(more + Pretty(cfg, Indent(level)) + [close] + rest)
  {
    hide Indent;
    var r := AfterItem(cfg, more, false, level, close, rest);
    var after := more + Pretty(cfg, Indent(level)) + [close] + rest;
    assert r == "," + (Pretty(cfg, "\n") + after);
    assert r[1..] == Pretty(cfg, "\n") + after;
    PrettyIndent(cfg, level, after);
  }

  /** Without pretty printing there is nothing before the closing bracket; with it, a new line. */
  lemma PrettyFirst<N>(cfg: Config<N>, level: nat, s: seq<Byte>, end: seq<Byte>)
    requires end == Pretty(cfg, Indent(level)) + s && s != [] && (s[0] == ']' || s[0] == '}')
    ensures EndsNumber(Pretty(cfg, "\n") + end)
  {}

  /** parse_value starts by skipping white space. */
  lemma ParseSkips<N>(fmt: NumberFormat<N>, a: seq<Byte>, b: seq<Byte>, nesting: nat)
    requires SkipWs(a) == SkipWs(b)
    ensures ParseValue(fmt, a, nesting) == ParseValue(fmt, b, nesting)
  {}

  /** The text of the items of an array, up to what follows the array. */
  function ItemsText<N>(cfg: Config<N>, items: seq<Value<N>>, level: nat, rest: seq<Byte>): seq<Byte> {
    SerializeItems(cfg, items, level) + Pretty(cfg, Indent(level)) + [']'] + rest
  }

  /** Concatenation regrouped around the first item. */
  lemma Regroup(p: seq<Byte>, s: seq<Byte>, sep: seq<Byte>, more: seq<Byte>, ind: seq<Byte>, close: Byte,
                rest: seq<Byte>)
    ensures (p + s + sep + more) + ind + [close] + rest == p + (s + (sep + more + ind + [close] + rest))
  {}

  /** The text from the first item on: the item, and `after` it the separator and the rest. */
  lemma ItemsTextFirst<N(!new)>(cfg: Config<N>, items: seq<Value<N>>, level: nat, rest: seq<Byte>)
    returns (after: seq<Byte>)
    requires Inverse(cfg.fmt) && items != []
    ensures EndsNumber(after)
    ensures SkipWs(ItemsText(cfg, items, level, rest)) == Serialize(cfg, items[0], level + 1) + after
    ensures |items| == 1 ==> SkipWs(after) == [']'] + rest
    ensures |items| > 1 ==> SkipWs(after) == after && Cur(after) == ','
                            && SkipWs(after[1..]) == SkipWs(ItemsText(cfg, items[1..], level, rest))
  {
    var more := SerializeItems(cfg, items[1..], level);
    after := AfterItem(cfg, more, |items| == 1, level, ']', rest);
    if |items| == 1 {
      LastSeparator(cfg, level, ']', rest);
    } else {
      MoreSeparator(cfg, more, level, ']', rest);
    }
    FirstCharacter(cfg, items[0], level + 1, after);
    Regroup(Pretty(cfg, Indent(level + 1)), Serialize(cfg, items[0], level + 1), Separator(cfg, |items| == 1),
            more, Pretty(cfg, Indent(level)), ']', rest);
    PrettyIndent(cfg, level + 1, Serialize(cfg, items[0], level + 1) + after);
  }

  /** What the parser makes of a text that holds v when containers may be nested MAX_NESTING deep. */
  function Expected<T>(fits: bool, v: T, rest: seq<Byte>): Parsed<T> {
    if fits then Some((v, rest)) else None
  }

  lemma LiteralRoundTrip(token: seq<Byte>, rest: seq<Byte>)
    ensures token <= token + rest && (token + rest)[|token|..] == rest
  {}

  lemma NullRoundTrip<N(!new)>(fmt: NumberFormat<N>, rest: seq<Byte>, nesting: nat)
    requires nesting <= MAX_NESTING
    ensures ParseValue(fmt, "null" + rest, nesting) == Some((Null, rest))
  {
    LiteralRoundTrip("null", rest);
    assert SkipWs("null" + rest) == "null" + rest;
  }

  lemma BooleanRoundTrip<N(!new)>(fmt: NumberFormat<N>, b: bool, rest: seq<Byte>, nesting: nat)
    requires nesting <= MAX_NESTING
    ensures ParseValue(fmt, (if b then "true" else "false") + rest, nesting) == Some((Boolean(b), rest))
  {
    var token: seq<Byte> := if b then "true" else "false";
    LiteralRoundTrip(token, rest);
    assert (token + rest)[0] == token[0];
    assert SkipWs(token + rest) == token + rest;
  }

  lemma NumberRoundTrip<N(!new)>(fmt: NumberFormat<N>, n: N, rest: seq<Byte>, nesting: nat)
    requires Inverse(fmt) && EndsNumber(rest) && nesting <= MAX_NESTING
    ensures ParseValue(fmt, fmt.write(n) + rest, nesting) == Some((Number(n), rest))
  {
    LiteralRoundTrip(fmt.write(n), rest);
    assert SkipWs(fmt.write(n) + rest) == fmt.write(n) + rest;
  }

  lemma StringValueRoundTrip<N(!new)>(fmt: NumberFormat<N>, s: seq<Byte>, esc: bool, rest: seq<Byte>, nesting: nat)
    requires nesting <= MAX_NESTING
    ensures ParseValue(fmt, SerializeString(s, esc) + rest, nesting) == Some((String(s), rest))
  {
    StringRoundTrip(s, esc, rest);
    var t := SerializeString(s, esc) + rest;
    assert t[0] == '"';
    assert SkipWs(t) == t;
  }

  /** The dispatch of parse_value on an opening bracket or brace. */
  lemma ParseContainer<N(!new)>(fmt: NumberFormat<N>, t: seq<Byte>, nesting: nat)
    requires nesting <= MAX_NESTING
    ensures Cur(t) == '[' ==> ParseValue(fmt, t, nesting) == ParseArray(fmt, t, nesting + 1)
    ensures Cur(t) == '{' ==> ParseValue(fmt, t, nesting) == ParseObject(fmt, t, nesting + 1)
  {}

  lemma ArrayText<N(!new)>(cfg: Config<N>, items: seq<Value<N>>, level: nat, rest: seq<Byte>)
    ensures items == [] ==> Serialize(cfg, Array(items), level) + rest == ['[', ']'] + rest
    ensures items != [] ==>
      Serialize(cfg, Array(items), level) + rest == ['['] + Pretty(cfg, "\n") + ItemsText(cfg, items, level, rest)
  {}

  lemma ObjectText<N(!new)>(cfg: Config<N>, names: seq<Key>, values: seq<Value<N>>, level: nat, rest: seq<Byte>)
    ensures values == [] ==> Serialize(cfg, Object(names, values), level) + rest == ['{', '}'] + rest
    ensures values != [] ==>
      Serialize(cfg, Object(names, values), level) + rest
      == ['{'] + Pretty(cfg, "\n") + MembersText(cfg, names, values, level, rest)
  {}

  /** Parsing a serialized value gives it back, exactly when it is not nested too deep. */
  lemma {:induction false} ValueRoundTrip<N(!new)>(cfg: Config<N>, v: Value<N>, level: nat, nesting: nat,
                                                   rest: seq<Byte>)
    requires Inverse(cfg.fmt) && WellFormed(v) && EndsNumber(rest)
    ensures ParseValue(cfg.fmt, Serialize(cfg, v, level) + rest, nesting)
            == Expected(nesting + Depth(v) <= MAX_NESTING, v, rest)
    decreases v, 3
  {
    if nesting <= MAX_NESTING {
      match v
      case Null => NullRoundTrip(cfg.fmt, rest, nesting);
      case Boolean(b) => BooleanRoundTrip(cfg.fmt, b, rest, nesting);
      case Number(n) => NumberRoundTrip(cfg.fmt, n, rest, nesting);
      case String(s) => StringValueRoundTrip(cfg.fmt, s, cfg.escapeSlashes, rest, nesting);
      case Array(items) => ArrayValueRoundTrip(cfg, items, level, nesting, rest);
      case Object(names, values) => ObjectValueRoundTrip(cfg, names, values, level, nesting, rest);
    }
  }

  lemma {:induction false} ArrayValueRoundTrip<N(!new)>(cfg: Config<N>, items: seq<Value<N>>,
                                                        level: nat, nesting: nat, rest: seq<Byte>)
    requires Inverse(cfg.fmt) && AllWellFormed(items) && nesting <= MAX_NESTING
    ensures ParseValue(cfg.fmt, Serialize(cfg, Array(items), level) + rest, nesting)
            == Expected(nesting + Depth(Array(items)) <= MAX_NESTING, Array(items), rest)
    decreases items, 3
  {
    hide Serialize, ParseValue, ParseArray, AllWellFormed, Inverse, ItemsText, Pretty;
    ArrayText(cfg, items, level, rest);
    ParseContainer(cfg.fmt, Serialize(cfg, Array(items), level) + rest, nesting);
    DepthOfContainer(items, []);
    if items == [] {
      EmptyContainer('[', ']', rest);
      ParseEmpty(cfg.fmt, ['[', ']'] + rest, nesting + 1);
    } else {
      ArrayRoundTrip(cfg, items, level, nesting + 1, rest);
    }
  }

  lemma {:induction false} ObjectValueRoundTrip<N(!new)>(cfg: Config<N>, names: seq<Key>, values: seq<Value<N>>,
                                                         level: nat, nesting: nat, rest: seq<Byte>)
    requires Inverse(cfg.fmt) && AllWellFormed(values) && |names| == |values| && DistinctKeys(names)
    requires nesting <= MAX_NESTING
    ensures ParseValue(cfg.fmt, Serialize(cfg, Object(names, values), level) + rest, nesting)
            == Expected(nesting + Depth(Object(names, values)) <= MAX_NESTING, Object(names, values), rest)
    decreases values, 3
  {
    hide Serialize, ParseValue, ParseObject, AllWellFormed, Inverse, MembersText, Pretty, DistinctKeys;
    ObjectText(cfg, names, values, level, rest);
    ParseContainer(cfg.fmt, Serialize(cfg, Object(names, values), level) + rest, nesting);
    DepthOfContainer(values, names);
    if values == [] {
      EmptyContainer('{', '}', rest);
      ParseEmpty(cfg.fmt, ['{', '}'] + rest, nesting + 1);
    } else {
      ObjectRoundTrip(cfg, names, values, level, nesting + 1, rest);
    }
  }

  lemma DepthOfContainer<N>(values: seq<Value<N>>, names: seq<Key>)
    ensures Depth(Array(values)) == Depth(Object(names, values)) == if values == [] then 0 else 1 + MaxDepth(values)
  {}

  lemma ParseEmpty<N(!new)>(fmt: NumberFormat<N>, t: seq<Byte>, nesting: nat)
    requires t != []
    ensures Cur(t) == '[' && Cur(SkipWs(t[1..])) == ']' ==>
              ParseArray(fmt, t, nesting) == Some((Array([]), SkipWs(t[1..])[1..]))
    ensures Cur(t) == '{' && Cur(SkipWs(t[1..])) == '}' ==>
              ParseObject(fmt, t, nesting) == Some((Object([], []), SkipWs(t[1..])[1..]))
  {}

  lemma EmptyContainer(open: Byte, close: Byte, rest: seq<Byte>)
    requires !IsSpace(close)
    ensures var t := [open, close] + rest;
            Cur(t) == open && Cur(SkipWs(t[1..])) == close && SkipWs(t[1..])[1..] == rest
  {
    var t := [open, close] + rest;
    assert t[1..] == [close] + rest;
  }

  /** parse_array_value around its loop. */
  lemma ArrayFromItems<N(!new)>(fmt: NumberFormat<N>, t: seq<Byte>, s: seq<Byte>, nesting: nat,
                                fits: bool, items: seq<Value<N>>, rest: seq<Byte>)
    requires Cur(t) == '[' && SkipWs(t[1..]) == s && Cur(s) != ']'
    requires ParseItems(fmt, s, nesting) == Expected(fits, items, [']'] + rest)
    ensures ParseArray(fmt, t, nesting) == Expected(fits, Array(items), rest)
  {
    assert ([']'] + rest)[1..] == rest;
  }

  /** The last round of the loop, and a round with more to come. */
  lemma LastItem<N(!new)>(fmt: NumberFormat<N>, t: seq<Byte>, nesting: nat, fits: bool, v: Value<N>, after: seq<Byte>)
    requires Cur(t) != '\0' && ParseValue(fmt, t, nesting) == Expected(fits, v, after) && Cur(SkipWs(after)) != ','
    ensures ParseItems(fmt, t, nesting) == Expected(fits, [v], SkipWs(after))
  {}

  lemma NextItem<N(!new)>(fmt: NumberFormat<N>, t: seq<Byte>, nesting: nat, fits: bool, v: Value<N>, after: seq<Byte>,
                          fits2: bool, items: seq<Value<N>>, end: seq<Byte>)
    requires Cur(t) != '\0' && ParseValue(fmt, t, nesting) == Expected(fits, v, after)
    requires SkipWs(after) == after && Cur(after) == ','
    requires ParseItems(fmt, SkipWs(after[1..]), nesting) == Expected(fits2, items, end)
    ensures ParseItems(fmt, t, nesting) == Expected(fits && fits2, [v] + items, end)
  {}

  lemma {:induction false} ArrayRoundTrip<N(!new)>(cfg: Config<N>, items: seq<Value<N>>, level: nat, nesting: nat,
                                                   rest: seq<Byte>)
    requires Inverse(cfg.fmt) && AllWellFormed(items) && items != []
    ensures var t := ['['] + Pretty(cfg, "\n") + ItemsText(cfg, items, level, rest);
            ParseArray(cfg.fmt, t, nesting) == Expected(nesting + MaxDepth(items) <= MAX_NESTING, Array(items), rest)
    decreases items, 2
  {
    var body := ItemsText(cfg, items, level, rest);
    var t := ['['] + Pretty(cfg, "\n") + body;
    OpenSkipped(cfg, '[', level, body);
    var after := ItemsTextFirst(cfg, items, level, rest);
    FirstCharacter(cfg, items[0], level + 1, after);
    ItemsRoundTrip(cfg, items, level, nesting, rest);
    ArrayFromItems(cfg.fmt, t, SkipWs(body), nesting, nesting + MaxDepth(items) <= MAX_NESTING, items, rest);
  }

  lemma OpenSkipped<N>(cfg: Config<N>, open: Byte, level: nat, body: seq<Byte>)
    ensures var t := [open] + Pretty(cfg, "\n") + body; Cur(t) == open && SkipWs(t[1..]) == SkipWs(body)
  {
    var t := [open] + Pretty(cfg, "\n") + body;
    assert t[1..] == Pretty(cfg, "\n") + body;
    PrettyIndent(cfg, level, body);
  }

  lemma {:induction false} ItemsRoundTrip<N(!new)>(cfg: Config<N>, items: seq<Value<N>>, level: nat, nesting: nat,
                                                   rest: seq<Byte>)
    requires Inverse(cfg.fmt) && AllWellFormed(items) && items != []
    ensures ParseItems(cfg.fmt, SkipWs(ItemsText(cfg, items, level, rest)), nesting)
            == Expected(nesting + MaxDepth(items) <= MAX_NESTING, items, [']'] + rest)
    decreases items, 0
  {
    hide ParseItems, ParseValue, SkipWs, ItemsText, Serialize, EndsNumber;
    var v := items[0];
    var after := ItemsTextFirst(cfg, items, level, rest);
    var t1 := Serialize(cfg, v, level + 1) + after;
    FirstCharacter(cfg, v, level + 1, after);
    ValueRoundTrip(cfg, v, level + 1, nesting, after);
    var fits := nesting + Depth(v) <= MAX_NESTING;
    if |items| > 1 {
      ItemsRoundTrip(cfg, items[1..], level, nesting, rest);
      NextItem(cfg.fmt, t1, nesting, fits, v, after, nesting + MaxDepth(items[1..]) <= MAX_NESTING, items[1..],
               [']'] + rest);
      assert [v] + items[1..] == items;
    } else {
      LastItem(cfg.fmt, t1, nesting, fits, v, after);
      assert [v] == items && MaxDepth(items[1..]) == 0;
    }
  }

  /** The text of the members of an object, up to what follows the object. */
  function MembersText<N>(cfg: Config<N>, names: seq<Key>, values: seq<Value<N>>, level: nat,
                          rest: seq<Byte>): seq<Byte> {
    SerializeMembers(cfg, names, values, level) + Pretty(cfg, Indent(level)) + ['}'] + rest
  }

  /** The colon and the value of a member, and what follows. */
  function MemberValue<N>(cfg: Config<N>, v: Value<N>, level: nat, after: seq<Byte>): seq<Byte> {
    Pretty(cfg, " ") + (Serialize(cfg, v, level + 1) + after)
  }

  lemma RegroupMember(p: seq<Byte>, k: seq<Byte>, sp: seq<Byte>, v: seq<Byte>, sep: seq<Byte>, more: seq<Byte>,
                      ind: seq<Byte>, close: Byte, rest: seq<Byte>)
    ensures (p + k + ":" + sp + v + sep + more) + ind + [close] + rest
            == p + (k + ([':'] + (sp + (v + (sep + more + ind + [close] + rest)))))
  {}

  /** The text from the first member on: its key, its value, and `after` it the separator and the rest. */
  lemma MembersTextFirst<N(!new)>(cfg: Config<N>, names: seq<Key>, values: seq<Value<N>>, level: nat, rest: seq<Byte>)
    returns (after: seq<Byte>)
    requires values != [] && |names| == |values|
    ensures EndsNumber(after)
    ensures SkipWs(MembersText(cfg, names, values, level, rest))
            == SerializeString(names[0], cfg.escapeSlashes) + ([':'] + MemberValue(cfg, values[0], level, after))
    ensures |values| == 1 ==> SkipWs(after) == ['}'] + rest
    ensures |values| > 1 ==> SkipWs(after) == after && Cur(after) == ','
                             && SkipWs(after[1..]) == SkipWs(MembersText(cfg, names[1..], values[1..], level, rest))
  {
    var more := SerializeMembers(cfg, names[1..], values[1..], level);
    after := AfterItem(cfg, more, |values| == 1, level, '}', rest);
    if |values| == 1 {
      LastSeparator(cfg, level, '}', rest);
    } else {
      MoreSeparator(cfg, more, level, '}', rest);
    }
    var value := [':'] + MemberValue(cfg, values[0], level, after);
    MembersTextIs(cfg, names, values, level, rest);
    PrettyIndent(cfg, level + 1, SerializeString(names[0], cfg.escapeSlashes) + value);
    KeyFirst(names[0], cfg.escapeSlashes, value);
  }

  lemma MembersTextIs<N(!new)>(cfg: Config<N>, names: seq<Key>, values: seq<Value<N>>, level: nat, rest: seq<Byte>)
    requires values != [] && |names| == |values|
    ensures var after := AfterItem(cfg, SerializeMembers(cfg, names[1..], values[1..], level), |values| == 1, level,
            '}', rest);
            MembersText(cfg, names, values, level, rest)
            == Pretty(cfg, Indent(level + 1))
               + (SerializeString(names[0], cfg.escapeSlashes) + ([':'] + MemberValue(cfg, values[0], level, after)))
  {
    RegroupMember(Pretty(cfg, Indent(level + 1)), SerializeString(names[0], cfg.escapeSlashes), Pretty(cfg, " "),
                  Serialize(cfg, values[0], level + 1), Separator(cfg, |values| == 1),
                  SerializeMembers(cfg, names[1..], values[1..], level), Pretty(cfg, Indent(level)), '}', rest);
  }

  lemma KeyFirst(key: Key, esc: bool, rest: seq<Byte>)
    ensures var t := SerializeString(key, esc) + rest; Cur(t) == '"' && SkipWs(t) == t
  {
    assert (SerializeString(key, esc) + rest)[0] == '"';
  }

  /** parse_object_value around its loop. */
  lemma ObjectFromMembers<N(!new)>(fmt: NumberFormat<N>, t: seq<Byte>, s: seq<Byte>, nesting: nat,
                                   fits: bool, names: seq<Key>, values: seq<Value<N>>, rest: seq<Byte>)
    requires Cur(t) == '{' && SkipWs(t[1..]) == s && Cur(s) != '}'
    requires ParseMembers(fmt, s, nesting, []) == Expected(fits, (names, values), ['}'] + rest)
    ensures ParseObject(fmt, t, nesting) == Expected(fits, Object(names, values), rest)
  {
    assert (['}'] + rest)[1..] == rest;
  }

  lemma LastMember<N(!new)>(fmt: NumberFormat<N>, t: seq<Byte>, nesting: nat, seen: seq<Key>, key: Key,
                            afterKey: seq<Byte>,
                            fits: bool, v: Value<N>, after: seq<Byte>)
    requires Cur(t) != '\0' && ParseKey(t) == Some((key, afterKey)) && key !in seen
    requires ParseValue(fmt, afterKey, nesting) == Expected(fits, v, after) && Cur(SkipWs(after)) != ','
    ensures ParseMembers(fmt, t, nesting, seen) == Expected(fits, ([key], [v]), SkipWs(after))
  {}

  lemma NextMember<N(!new)>(fmt: NumberFormat<N>, t: seq<Byte>, nesting: nat, seen: seq<Key>, key: Key,
                            afterKey: seq<Byte>,
                            fits: bool, v: Value<N>, after: seq<Byte>,
                            fits2: bool, names: seq<Key>, values: seq<Value<N>>, end: seq<Byte>)
    requires Cur(t) != '\0' && ParseKey(t) == Some((key, afterKey)) && key !in seen
    requires ParseValue(fmt, afterKey, nesting) == Expected(fits, v, after)
    requires SkipWs(after) == after && Cur(after) == ','
    requires ParseMembers(fmt, SkipWs(after[1..]), nesting, seen + [key]) == Expected(fits2, (names, values), end)
    ensures ParseMembers(fmt, t, nesting, seen) == Expected(fits && fits2, ([key] + names, [v] + values), end)
  {}

  lemma {:induction false} ObjectRoundTrip<N(!new)>(cfg: Config<N>, names: seq<Key>, values: seq<Value<N>>,
                                                    level: nat, nesting: nat, rest: seq<Byte>)
    requires Inverse(cfg.fmt) && AllWellFormed(values) && values != [] && |names| == |values| && DistinctKeys(names)
    ensures var t := ['{'] + Pretty(cfg, "\n") + MembersText(cfg, names, values, level, rest);
            ParseObject(cfg.fmt, t, nesting)
            == Expected(nesting + MaxDepth(values) <= MAX_NESTING, Object(names, values), rest)
    decreases values, 2
  {
    var body := MembersText(cfg, names, values, level, rest);
    var t := ['{'] + Pretty(cfg, "\n") + body;
    OpenSkipped(cfg, '{', level, body);
    var after := MembersTextFirst(cfg, names, values, level, rest);
    KeyFirst(names[0], cfg.escapeSlashes, [':'] + MemberValue(cfg, values[0], level, after));
    MembersRoundTrip(cfg, names, values, level, nesting, [], rest);
    ObjectFromMembers(cfg.fmt, t, SkipWs(body), nesting, nesting + MaxDepth(values) <= MAX_NESTING, names, values,
        rest);
  }

  lemma KeyRoundTrip(key: Key, esc: bool, rest: seq<Byte>)
    requires '\0' !in key
    ensures ParseKey(SerializeString(key, esc) + ([':'] + rest)) == Some((key, rest))
  {
    StringRoundTrip(key, esc, [':'] + rest);
    assert SkipWs([':'] + rest) == [':'] + rest;
  }

  lemma {:induction false} MembersRoundTrip<N(!new)>(cfg: Config<N>, names: seq<Key>, values: seq<Value<N>>,
                                                     level: nat, nesting: nat, seen: seq<Key>, rest: seq<Byte>)
    requires Inverse(cfg.fmt) && AllWellFormed(values) && values != [] && |names| == |values| && DistinctKeys(names)
    requires forall i :: 0 <= i < |names| ==> names[i] !in seen
    ensures ParseMembers(cfg.fmt, SkipWs(MembersText(cfg, names, values, level, rest)), nesting, seen)
            == Expected(nesting + MaxDepth(values) <= MAX_NESTING, (names, values), ['}'] + rest)
    decreases values, 0
  {
    hide ParseMembers, SkipWs, MembersText, SerializeString, MemberValue, EndsNumber, WellFormed, ParseValue;
    var key, v := names[0], values[0];
    var after := MembersTextFirst(cfg, names, values, level, rest);
    var afterKey := MemberValue(cfg, v, level, after);
    var t1 := SerializeString(key, cfg.escapeSlashes) + ([':'] + afterKey);
    KeyRoundTrip(key, cfg.escapeSlashes, afterKey);
    KeyFirst(key, cfg.escapeSlashes, [':'] + afterKey);
    MemberValueRoundTrip(cfg, v, level, nesting, after);
    var fits := nesting + Depth(v) <= MAX_NESTING;
    if |values| > 1 {
      MembersRoundTrip(cfg, names[1..], values[1..], level, nesting, seen + [key], rest);
      NextMember(cfg.fmt, t1, nesting, seen, key, afterKey, fits, v, after,
                 nesting + MaxDepth(values[1..]) <= MAX_NESTING, names[1..], values[1..], ['}'] + rest);
      assert [key] + names[1..] == names && [v] + values[1..] == values;
    } else {
      LastMember(cfg.fmt, t1, nesting, seen, key, afterKey, fits, v, after);
      assert [key] == names && [v] == values && MaxDepth(values[1..]) == 0;
    }
  }

  lemma {:induction false} MemberValueRoundTrip<N(!new)>(cfg: Config<N>, v: Value<N>, level: nat, nesting: nat,
                                                         after: seq<Byte>)
    requires Inverse(cfg.fmt) && WellFormed(v) && EndsNumber(after)
    ensures ParseValue(cfg.fmt, MemberValue(cfg, v, level, after), nesting)
            == Expected(nesting + Depth(v) <= MAX_NESTING, v, after)
    decreases v, 4
  {
    var valueText := Serialize(cfg, v, level + 1) + after;
    ValueRoundTrip(cfg, v, level + 1, nesting, after);
    PrettyIndent(cfg, level, valueText);
    ParseSkips(cfg.fmt, MemberValue(cfg, v, level, after), valueText, nesting);
  }

  /**
   * json_parse_string undoes json_serialize_to_string, compact or pretty and with either setting for
   * slashes, exactly for the values nested at most 2048 deep.
   */
  lemma RoundTrip<N(!new)>(cfg: Config<N>, v: Value<N>)
    requires Inverse(cfg.fmt) && WellFormed(v)
    ensures ParseString(cfg.fmt, Serialize(cfg, v, 0)) == if Depth(v) <= MAX_NESTING then Some(v) else None
  {
    var t := Serialize(cfg, v, 0);
    assert t + [] == t;
    FirstCharacter(cfg, v, 0, []);
    ValueRoundTrip(cfg, v, 0, 0, []);
  }
}
