/** The layout of serialized text: without white space, or in lines that are indented by their depth. */
module JsonLayout {
  import opened Alphabets
  import opened Bytes
  import opened ObjectTable
  import opened JsonText
  import opened JsonRoundTrip

  // Characters of strings

  /** The characters that have an escape of two characters, and the letters of those escapes. */
  const ESCAPED: seq<Byte> := "\"\\\U{8}\U{c}\n\r\t"
  const ESCAPE_LETTERS: seq<Byte> := "\"\\bfnrt"

  /**
   * A character of a string is written as its escape of two characters, if it has one; a slash as \/ or as itself,
   * as it is set; a control character as \u00 and its two digits, in lower case; and any other as itself.
   */
  lemma EscapeTable(c: Byte, esc: bool)
    ensures c in ESCAPED ==> Escape(c, esc) == ['\\', ESCAPE_LETTERS[Place(c, ESCAPED)]]
    ensures c == '/' ==> Escape(c, esc) == if esc then ['\\', '/'] else ['/']
    ensures c !in ESCAPED && c as int < 0x20 ==>
              var e := Escape(c, esc);
              && |e| == 6 && e[..4] == ['\\', 'u', '0', '0'] && e[4] in LOWER_HEX && e[5] in LOWER_HEX
              && Place(e[4], LOWER_HEX) * 16 + Place(e[5], LOWER_HEX) == c as int
    ensures c !in ESCAPED && c != '/' && c as int >= 0x20 ==> Escape(c, esc) == [c]
  {
    if c in ESCAPED {
      PlaceOfEscaped(c);
    } else {
      NotEscaped(c);
      if c as int < 0x20 { HexEscape(c, esc); }
    }
  }

  lemma PlaceOfEscaped(c: Byte)
    requires c in ESCAPED
    ensures Place(c, ESCAPED) == if c == '"' then 0 else if c == '\\' then 1 else if c == '\U{8}' then 2
                                 else if c == '\U{c}' then 3 else if c == '\n' then 4 else if c == '\r' then 5 else 6
  {}

  lemma NotEscaped(c: Byte)
    requires c !in ESCAPED
    ensures c != '"' && c != '\\' && c != '\U{8}' && c != '\U{c}' && c != '\n' && c != '\r' && c != '\t'
  {
    assert ESCAPED[0] == '"' && ESCAPED[1] == '\\' && ESCAPED[2] == '\U{8}' && ESCAPED[3] == '\U{c}';
    assert ESCAPED[4] == '\n' && ESCAPED[5] == '\r' && ESCAPED[6] == '\t';
  }

  lemma HexEscape(c: Byte, esc: bool)
    requires c as int < 0x20 && c !in ESCAPED
    ensures var e := Escape(c, esc);
            && |e| == 6 && e[..4] == ['\\', 'u', '0', '0'] && e[4] in LOWER_HEX && e[5] in LOWER_HEX
            && Place(e[4], LOWER_HEX) * 16 + Place(e[5], LOWER_HEX) == c as int
  {
    NotEscaped(c);
    DigitPlaces(c as int / 16);
    DigitPlaces(c as int % 16);
    hide Place, HexDigit;
    assert Escape(c, esc) == ['\\', 'u', '0', '0', HexDigit(c as int / 16), HexDigit(c as int % 16)];
  }

  lemma DigitPlaces(x: nat)
    requires x < 16
    ensures HexDigit(x) in LOWER_HEX && Place(HexDigit(x), LOWER_HEX) == x
  {
    LowerHexCodes(x);
    LowerHexCodes(Place(HexDigit(x), LOWER_HEX));
  }

  // Compact text

  /** Texts with a separator between them */
  function Join(texts: seq<seq<Byte>>, separator: seq<Byte>): seq<Byte> {
    if texts == [] then []
    else if |texts| == 1 then texts[0]
    else texts[0] + separator + Join(texts[1..], separator)
  }

  /** The words of a value that is no container; none of them has white space outside a string. */
  function Scalar<N>(cfg: Config<N>, v: Value<N>): seq<Byte>
    requires !v.Array? && !v.Object?
  {
    match v
    case Null => "null"
    case Boolean(b) => if b then "true" else "false"
    case Number(n) => cfg.fmt.write(n)
    case String(s) => Quoted(cfg, s)
  }

  function Quoted<N>(cfg: Config<N>, s: seq<Byte>): seq<Byte> {
    "\"" + EscapeAll(s, cfg.escapeSlashes) + "\""
  }

  /** The text of a value in RFC 8259 with no white space between its tokens */
  function Compact<N>(cfg: Config<N>, v: Value<N>): seq<Byte>
    decreases v, 1
  {
    match v
    case Array(items) => "[" + Join(CompactAll(cfg, items), ",") + "]"
    case Object(names, values) => "{" + Join(Members(cfg, names, CompactAll(cfg, values)), ",") + "}"
    case _ => Scalar(cfg, v)
  }

  function CompactAll<N>(cfg: Config<N>, vs: seq<Value<N>>): (texts: seq<seq<Byte>>)
    ensures |texts| == |vs|
    decreases vs, 0
  {
    if vs == [] then [] else [Compact(cfg, vs[0])] + CompactAll(cfg, vs[1..])
  }

  /** Keys and values with a colon between them */
  function Members<N>(cfg: Config<N>, names: seq<Key>, texts: seq<seq<Byte>>): seq<seq<Byte>> {
    if names == [] || texts == [] then []
    else [Quoted(cfg, names[0]) + ":" + texts[0]] + Members(cfg, names[1..], texts[1..])
  }

  /** Without pretty printing the text is the compact one, at any level. */
  lemma {:induction false} CompactText<N(!new)>(cfg: Config<N>, v: Value<N>, level: nat)
    requires !cfg.pretty && WellFormed(v)
    ensures Serialize(cfg, v, level) == Compact(cfg, v)
    decreases v, 1
  {
    hide SerializeItems, SerializeMembers, Join, Members, CompactAll, EscapeAll;
    match v
    case Array(items) =>
      CompactItems(cfg, items, level);
      Bracketed("[", SerializeItems(cfg, items, level), "]");
    case Object(names, values) =>
      CompactMembers(cfg, names, values, level);
      Bracketed("{", SerializeMembers(cfg, names, values, level), "}");
    case _ =>
  }

  lemma Bracketed(open: seq<Byte>, text: seq<Byte>, close: seq<Byte>)
    ensures open + [] + text + [] + close == open + text + close
  {
    assert open + [] == open && (open + text) + [] == open + text;
  }

  lemma {:induction false} CompactItems<N(!new)>(cfg: Config<N>, items: seq<Value<N>>, level: nat)
    requires !cfg.pretty && AllWellFormed(items)
    ensures SerializeItems(cfg, items, level) == Join(CompactAll(cfg, items), ",")
    decreases items, 0
  {
    if items != [] {
      CompactText(cfg, items[0], level + 1);
      CompactItems(cfg, items[1..], level);
      hide Serialize, Compact;
      var texts := CompactAll(cfg, items);
      assert texts[0] == Compact(cfg, items[0]) && texts[1..] == CompactAll(cfg, items[1..]);
    }
  }

  lemma {:induction false} CompactMembers<N(!new)>(cfg: Config<N>, names: seq<Key>, values: seq<Value<N>>, level: nat)
    requires !cfg.pretty && AllWellFormed(values) && |names| == |values|
    ensures SerializeMembers(cfg, names, values, level) == Join(Members(cfg, names, CompactAll(cfg, values)), ",")
    decreases values, 0
  {
    if values != [] {
      CompactText(cfg, values[0], level + 1);
      CompactMembers(cfg, names[1..], values[1..], level);
      CompactMember(cfg, names, values, level);
      hide Compact, SerializeMembers, SerializeString, Quoted, Join;
      var texts := CompactAll(cfg, values);
      assert texts[0] == Compact(cfg, values[0]) && texts[1..] == CompactAll(cfg, values[1..]);
      var members := Members(cfg, names, texts);
      assert members == [Quoted(cfg, names[0]) + ":" + texts[0]] + Members(cfg, names[1..], texts[1..]);
      MembersLength(cfg, names[1..], texts[1..]);
      JoinMore(Quoted(cfg, names[0]) + ":" + texts[0], Members(cfg, names[1..], texts[1..]));
    }
  }

  lemma JoinMore(t: seq<Byte>, texts: seq<seq<Byte>>)
    ensures Join([t] + texts, ",") == t + (if texts == [] then [] else ",") + Join(texts, ",")
  {
    assert ([t] + texts)[1..] == texts;
  }

  /** The first member and what follows it. */
  lemma CompactMember<N(!new)>(cfg: Config<N>, names: seq<Key>, values: seq<Value<N>>, level: nat)
    requires !cfg.pretty && values != [] && |names| == |values|
    ensures SerializeMembers(cfg, names, values, level)
            == Quoted(cfg, names[0]) + ":" + Serialize(cfg, values[0], level + 1)
               + (if |values| == 1 then [] else ",") + SerializeMembers(cfg, names[1..], values[1..], level)
  {
    hide Serialize, EscapeAll;
    var q, v := Quoted(cfg, names[0]), Serialize(cfg, values[0], level + 1);
    var sep: seq<Byte> := if |values| == 1 then [] else ",";
    assert SerializeString(names[0], cfg.escapeSlashes) == q;
    Unspaced(q, v, sep, SerializeMembers(cfg, names[1..], values[1..], level));
  }

  lemma Unspaced(q: seq<Byte>, v: seq<Byte>, sep: seq<Byte>, more: seq<Byte>)
    ensures [] + q + ":" + [] + v + (sep + []) + more == q + ":" + v + sep + more
  {
    assert [] + q == q && (q + ":") + [] == q + ":" && sep + [] == sep;
  }

  lemma {:induction false} MembersLength<N>(cfg: Config<N>, names: seq<Key>, texts: seq<seq<Byte>>)
    requires |names| == |texts|
    ensures |Members(cfg, names, texts)| == |texts|
  {
    if texts != [] { MembersLength(cfg, names[1..], texts[1..]); }
  }

  // Pretty text

  datatype Line = Line(depth: nat, text: seq<Byte>)

  /** Lines, each indented by four spaces for every level */
  function Render(lines: seq<Line>): seq<Byte> {
    if lines == [] then []
    else seq(4 * lines[0].depth, _ => ' ') + lines[0].text + (if |lines| == 1 then [] else "\n" + Render(lines[1..]))
  }

  function OnLast(lines: seq<Line>, t: seq<Byte>): (r: seq<Line>)
    requires lines != []
    ensures |r| == |lines|
  {
    lines[..|lines| - 1] + [Line(lines[|lines| - 1].depth, lines[|lines| - 1].text + t)]
  }

  function OnFirst(t: seq<Byte>, lines: seq<Line>): (r: seq<Line>)
    requires lines != []
    ensures |r| == |lines|
  {
    [Line(lines[0].depth, t + lines[0].text)] + lines[1..]
  }

  /**
   * A value in lines: anything empty or without parts on one; a container with its brackets on lines of their own,
   * and its parts one level deeper between them, each but the last with a comma, and after its key in an object.
   */
  function Lines<N>(cfg: Config<N>, v: Value<N>, depth: nat): (lines: seq<Line>)
    ensures lines != []
    decreases v, 1
  {
    match v
    case Array(items) =>
      if items == [] then [Line(depth, "[]")]
      else [Line(depth, "[")] + ItemLines(cfg, items, depth + 1) + [Line(depth, "]")]
    case Object(names, values) =>
      if values == [] then [Line(depth, "{}")]
      else [Line(depth, "{")] + MemberLines(cfg, names, values, depth + 1) + [Line(depth, "}")]
    case _ => [Line(depth, Scalar(cfg, v))]
  }

  function ItemLines<N>(cfg: Config<N>, items: seq<Value<N>>, depth: nat): seq<Line>
    decreases items, 0
  {
    if items == [] then []
    else if |items| == 1 then Lines(cfg, items[0], depth)
    else OnLast(Lines(cfg, items[0], depth), ",") + ItemLines(cfg, items[1..], depth)
  }

  function MemberLines<N>(cfg: Config<N>, names: seq<Key>, values: seq<Value<N>>, depth: nat): seq<Line>
    decreases values, 0
  {
    if names == [] || values == [] then []
    else
      var first := OnFirst(Quoted(cfg, names[0]) + ": ", Lines(cfg, values[0], depth));
      if |values| == 1 then first else OnLast(first, ",") + MemberLines(cfg, names[1..], values[1..], depth)
  }

  function Spaces(depth: nat): seq<Byte> {
    seq(4 * depth, _ => ' ')
  }

  lemma {:induction false} IndentIsSpaces(level: nat)
    ensures Indent(level) == Spaces(level)
  {
    if level > 0 { IndentIsSpaces(level - 1); }
  }

  lemma {:induction false} RenderAppend(a: seq<Line>, b: seq<Line>)
    requires a != [] && b != []
    ensures Render(a + b) == Render(a) + "\n" + Render(b)
  {
    assert (a + b)[1..] == a[1..] + b;
    if |a| > 1 { RenderAppend(a[1..], b); }
  }

  lemma {:induction false} RenderOnLast(lines: seq<Line>, t: seq<Byte>)
    requires lines != []
    ensures Render(OnLast(lines, t)) == Render(lines) + t
  {
    if |lines| > 1 {
      RenderOnLast(lines[1..], t);
      assert OnLast(lines, t)[1..] == OnLast(lines[1..], t) && OnLast(lines, t)[0] == lines[0];
    }
  }

  /** With a prefix on the first line, which stays behind the indentation. */
  lemma RenderOnFirst(t: seq<Byte>, lines: seq<Line>, text: seq<Byte>)
    requires lines != [] && Render(lines) == Spaces(lines[0].depth) + text
    ensures Render(OnFirst(t, lines)) == Spaces(lines[0].depth) + (t + text)
  {
    var indent := Spaces(lines[0].depth);
    var end := if |lines| == 1 then [] else "\n" + Render(lines[1..]);
    assert Render(lines) == indent + (lines[0].text + end);
    assert Render(lines)[|indent|..] == text == lines[0].text + end;
    assert OnFirst(t, lines)[1..] == lines[1..];
  }

  /** With pretty printing the text is that of the lines; the indentation of its first line is left to the caller. */
  lemma {:induction false} PrettyText<N(!new)>(cfg: Config<N>, v: Value<N>, level: nat)
    requires cfg.pretty && WellFormed(v)
    ensures Lines(cfg, v, level)[0].depth == level
    ensures Render(Lines(cfg, v, level)) == Spaces(level) + Serialize(cfg, v, level)
    decreases v, 1
  {
    hide Lines, Serialize, Render, Spaces;
    match v
    case Array(items) =>
      if items != [] {
        PrettyItems(cfg, items, level);
        PrettyContainer(cfg, v, level, "[", ItemLines(cfg, items, level + 1), SerializeItems(cfg, items, level), "]")
          by { ArrayText(cfg, items, level); }
      } else {
        EmptyText(cfg, v, level);
      }
    case Object(names, values) =>
      if values != [] {
        PrettyMembers(cfg, names, values, level);
        PrettyContainer(cfg, v, level, "{", MemberLines(cfg, names, values, level + 1),
                        SerializeMembers(cfg, names, values, level), "}")
          by { ObjectText(cfg, names, values, level); }
      } else {
        EmptyText(cfg, v, level);
      }
    case _ => ScalarText(cfg, v, level);
  }

  lemma EmptyText<N>(cfg: Config<N>, v: Value<N>, level: nat)
    requires v == Array([]) || (v.Object? && v.values == [])
    ensures Lines(cfg, v, level)[0].depth == level
    ensures Render(Lines(cfg, v, level)) == Spaces(level) + Serialize(cfg, v, level)
  {}

  lemma ScalarText<N>(cfg: Config<N>, v: Value<N>, level: nat)
    requires !v.Array? && !v.Object?
    ensures Lines(cfg, v, level)[0].depth == level
    ensures Render(Lines(cfg, v, level)) == Spaces(level) + Serialize(cfg, v, level)
  {
    hide EscapeAll;
    assert Serialize(cfg, v, level) == Scalar(cfg, v);
  }

  lemma ArrayText<N>(cfg: Config<N>, items: seq<Value<N>>, level: nat)
    requires cfg.pretty && items != []
    ensures Serialize(cfg, Array(items), level) == "[" + "\n" + SerializeItems(cfg, items, level) + Indent(level) + "]"
    ensures Lines(cfg, Array(items), level)
            == [Line(level, "[")] + ItemLines(cfg, items, level + 1) + [Line(level, "]")]
  {
    hide SerializeItems, ItemLines, Indent;
  }

  lemma ObjectText<N>(cfg: Config<N>, names: seq<Key>, values: seq<Value<N>>, level: nat)
    requires cfg.pretty && values != []
    ensures var v := Object(names, values);
            && Serialize(cfg, v, level)
               == "{" + "\n" + SerializeMembers(cfg, names, values, level) + Indent(level) + "}"
            && Lines(cfg, v, level)
               == [Line(level, "{")] + MemberLines(cfg, names, values, level + 1) + [Line(level, "}")]
  {
    hide SerializeMembers, MemberLines, Indent;
  }

  /** The brackets of a container around its parts. */
  lemma PrettyContainer<N>(cfg: Config<N>, v: Value<N>, level: nat, open: seq<Byte>, inner: seq<Line>,
                           text: seq<Byte>, close: seq<Byte>)
    requires inner != [] && text == Render(inner) + "\n"
    requires Serialize(cfg, v, level) == open + "\n" + text + Indent(level) + close
    requires Lines(cfg, v, level) == [Line(level, open)] + inner + [Line(level, close)]
    ensures Lines(cfg, v, level)[0].depth == level
    ensures Render(Lines(cfg, v, level)) == Spaces(level) + Serialize(cfg, v, level)
  {
    hide Lines, Serialize, Render, Spaces, Indent;
    RenderAppend([Line(level, open)] + inner, [Line(level, close)]);
    RenderAppend([Line(level, open)], inner);
    RenderOne(level, open);
    RenderOne(level, close);
    IndentIsSpaces(level);
    var i, r := Spaces(level), Render(inner);
    Around(i, open, r, close);
  }

  lemma RenderOne(level: nat, t: seq<Byte>)
    ensures Render([Line(level, t)]) == Spaces(level) + t
  {
    assert Spaces(level) + t + [] == Spaces(level) + t;
  }

  lemma Around(i: seq<Byte>, open: seq<Byte>, r: seq<Byte>, close: seq<Byte>)
    ensures i + open + "\n" + r + "\n" + (i + close) == i + (open + "\n" + (r + "\n") + i + close)
  {}

  lemma {:induction false} PrettyItems<N(!new)>(cfg: Config<N>, items: seq<Value<N>>, level: nat)
    requires cfg.pretty && AllWellFormed(items) && items != []
    ensures ItemLines(cfg, items, level + 1) != []
    ensures SerializeItems(cfg, items, level) == Render(ItemLines(cfg, items, level + 1)) + "\n"
    decreases items, 0
  {
    hide Serialize, Lines, Render, OnLast, Spaces, Indent, SerializeItems;
    PrettyText(cfg, items[0], level + 1);
    PrettyItem(cfg, items, level);
    var first, text := Lines(cfg, items[0], level + 1), Serialize(cfg, items[0], level + 1);
    if |items| > 1 {
      PrettyItems(cfg, items[1..], level);
      var more := ItemLines(cfg, items[1..], level + 1);
      RenderOnLast(first, ",");
      RenderAppend(OnLast(first, ","), more);
      WithMore(Spaces(level + 1) + text, Render(more));
    }
  }

  lemma PrettyItem<N(!new)>(cfg: Config<N>, items: seq<Value<N>>, level: nat)
    requires cfg.pretty && items != []
    ensures SerializeItems(cfg, items, level)
            == Spaces(level + 1) + Serialize(cfg, items[0], level + 1)
               + (if |items| == 1 then "\n" else ",\n" + SerializeItems(cfg, items[1..], level))
  {
    hide Serialize, Spaces, Indent;
    IndentIsSpaces(level + 1);
    var t := Spaces(level + 1) + Serialize(cfg, items[0], level + 1);
    if |items| == 1 {
      assert SerializeItems(cfg, items[1..], level) == [];
      LastOne(t);
    } else {
      AnotherOne(t, SerializeItems(cfg, items[1..], level));
    }
  }

  lemma LastOne(t: seq<Byte>)
    ensures t + ([] + "\n") + [] == t + "\n"
  {
    assert [] + "\n" == "\n";
  }

  lemma AnotherOne(t: seq<Byte>, more: seq<Byte>)
    ensures t + ("," + "\n") + more == t + (",\n" + more)
  {
    assert "," + "\n" == ",\n";
  }

  lemma WithMore(t: seq<Byte>, r: seq<Byte>)
    ensures t + (",\n" + (r + "\n")) == t + "," + "\n" + r + "\n"
  {
    assert ",\n" == "," + "\n";
  }

  lemma {:induction false} PrettyMembers<N(!new)>(cfg: Config<N>, names: seq<Key>, values: seq<Value<N>>, level: nat)
    requires cfg.pretty && AllWellFormed(values) && values != [] && |names| == |values|
    ensures MemberLines(cfg, names, values, level + 1) != []
    ensures SerializeMembers(cfg, names, values, level) == Render(MemberLines(cfg, names, values, level + 1)) + "\n"
    decreases values, 0
  {
    hide Serialize, Lines, Render, OnLast, OnFirst, Spaces, Indent, Quoted, SerializeMembers;
    PrettyText(cfg, values[0], level + 1);
    PrettyMember(cfg, names, values, level);
    var lines, key := Lines(cfg, values[0], level + 1), Quoted(cfg, names[0]) + ": ";
    var text := Serialize(cfg, values[0], level + 1);
    RenderOnFirst(key, lines, text);
    var first := OnFirst(key, lines);
    if |values| > 1 {
      PrettyMembers(cfg, names[1..], values[1..], level);
      var more := MemberLines(cfg, names[1..], values[1..], level + 1);
      RenderOnLast(first, ",");
      RenderAppend(OnLast(first, ","), more);
      WithMore(Spaces(level + 1) + (key + text), Render(more));
    }
  }

  lemma PrettyMember<N(!new)>(cfg: Config<N>, names: seq<Key>, values: seq<Value<N>>, level: nat)
    requires cfg.pretty && values != [] && |names| == |values|
    ensures SerializeMembers(cfg, names, values, level)
            == Spaces(level + 1) + (Quoted(cfg, names[0]) + ": " + Serialize(cfg, values[0], level + 1))
               + (if |values| == 1 then "\n" else ",\n" + SerializeMembers(cfg, names[1..], values[1..], level))
  {
    hide Serialize, Spaces, Indent, EscapeAll;
    IndentIsSpaces(level + 1);
    var q, v := Quoted(cfg, names[0]), Serialize(cfg, values[0], level + 1);
    assert SerializeString(names[0], cfg.escapeSlashes) == q;
    Keyed(Spaces(level + 1), q, v);
    var t := Spaces(level + 1) + (q + ": " + v);
    if |values| == 1 {
      assert SerializeMembers(cfg, names[1..], values[1..], level) == [];
      LastOne(t);
    } else {
      AnotherOne(t, SerializeMembers(cfg, names[1..], values[1..], level));
    }
  }

  lemma Keyed(i: seq<Byte>, q: seq<Byte>, v: seq<Byte>)
    ensures i + q + ":" + " " + v == i + (q + ": " + v)
  {
    assert ": " == ":" + " ";
  }
}
