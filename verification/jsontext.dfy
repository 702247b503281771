/**
 * JSON text in parson: the text a value is written as, and what the recursive-descent parser makes
 * of a text. The parser functions work on what is left of the text and return what is left after.
 */
module JsonText {
  import opened Bytes
  import opened ObjectTable

  const MAX_NESTING: nat := 2048

  /** A JSON value; numbers are of some type N with a printer and a reader. */
  datatype Value<+N> =
    | Null
    | Boolean(b: bool)
    | Number(n: N)
    | String(s: seq<Byte>)
    | Array(items: seq<Value<N>>)
    | Object(names: seq<Key>, values: seq<Value<N>>)

  /** sprintf with the float format, and parse_number_value: the number read and how many bytes it took. */
  datatype NumberFormat<!N> = NumberFormat(write: N -> seq<Byte>, read: seq<Byte> -> Option<(N, nat)>)

  datatype Config<!N> = Config(fmt: NumberFormat<N>, pretty: bool, escapeSlashes: bool)

  // Serializing

  function HexDigit(x: nat): (c: Byte)
    requires x < 16
  {
    "0123456789abcdef"[x]
  }

  /** One character of json_serialize_string. */
  function Escape(c: Byte, escapeSlashes: bool): (s: seq<Byte>)
    ensures |s| >= 1
  {
    if c == '"' then "\\\""
    else if c == '\\' then "\\\\"
    else if c == '\U{8}' then "\\b"
    else if c == '\U{c}' then "\\f"
    else if c == '\n' then "\\n"
    else if c == '\r' then "\\r"
    else if c == '\t' then "\\t"
    else if c as int < 0x20 then "\\u00" + [HexDigit(c as int / 16), HexDigit(c as int % 16)]
    else if c == '/' && escapeSlashes then "\\/"
    else [c]
  }

  function EscapeAll(s: seq<Byte>, escapeSlashes: bool): seq<Byte> {
    if s == [] then [] else Escape(s[0], escapeSlashes) + EscapeAll(s[1..], escapeSlashes)
  }

  /** json_serialize_string */
  function SerializeString(s: seq<Byte>, escapeSlashes: bool): (t: seq<Byte>) {
    ['"'] + EscapeAll(s, escapeSlashes) + ['"']
  }

  /** append_indent */
  function Indent(level: nat): (t: seq<Byte>) {
    if level == 0 then [] else "    " + Indent(level - 1)
  }

  /** Text that only appears in pretty output. */
  function Pretty<N>(cfg: Config<N>, t: seq<Byte>): seq<Byte> {
    if cfg.pretty then t else []
  }

  /** json_serialize_to_buffer_r, as the text it appends. */
  function Serialize<N>(cfg: Config<N>, v: Value<N>, level: nat): (t: seq<Byte>)
    decreases v, 1
  {
    match v
    case Null => "null"
    case Boolean(b) => if b then "true" else "false"
    case Number(n) => cfg.fmt.write(n)
    case String(s) => SerializeString(s, cfg.escapeSlashes)
    case Array(items) =>
      "[" + (if items == [] then [] else Pretty(cfg, "\n")) + SerializeItems(cfg, items, level)
      + (if items == [] then [] else Pretty(cfg, Indent(level))) + "]"
    case Object(names, values) =>
      "{" + (if values == [] then [] else Pretty(cfg, "\n")) + SerializeMembers(cfg, names, values, level)
      + (if values == [] then [] else Pretty(cfg, Indent(level))) + "}"
  }

  /** What follows an item: a comma unless it is the last one, and the end of the line. */
  function Separator<N>(cfg: Config<N>, last: bool): seq<Byte> {
    (if last then [] else ",") + Pretty(cfg, "\n")
  }

  function SerializeItems<N>(cfg: Config<N>, items: seq<Value<N>>, level: nat): (t: seq<Byte>)
    decreases items, 0
  {
    if items == [] then []
    else
      Pretty(cfg, Indent(level + 1)) + Serialize(cfg, items[0], level + 1) + Separator(cfg, |items| == 1)
      + SerializeItems(cfg, items[1..], level)
  }

  function SerializeMembers<N>(cfg: Config<N>, names: seq<Key>, values: seq<Value<N>>, level: nat): (t: seq<Byte>)
    decreases values, 0
  {
    if values == [] || names == [] then []
    else
      Pretty(cfg, Indent(level + 1)) + SerializeString(names[0], cfg.escapeSlashes) + ":" + Pretty(cfg, " ")
      + Serialize(cfg, values[0], level + 1) + Separator(cfg, |values| == 1)
      + SerializeMembers(cfg, names[1..], values[1..], level)
  }

  // Parsing

  /** isspace in the C locale */
  predicate IsSpace(c: Byte) {
    c == ' ' || 9 <= c as int <= 13
  }

  /** SKIP_WHITESPACES */
  function SkipWs(s: seq<Byte>): (r: seq<Byte>)
    ensures |r| <= |s|
  {
    if IsSpace(Cur(s)) then SkipWs(s[1..]) else s
  }

  /** skip_quotes after the opening quote: what follows the closing one. */
  function SkipBody(s: seq<Byte>): (r: Option<seq<Byte>>)
    ensures r.Some? ==> |r.value| < |s|
  {
    var c := Cur(s);
    if c == '"' then Some(s[1..])
    else if c == '\0' then None
    else if c == '\\' then (if Cur(s[1..]) == '\0' then None else SkipBody(s[2..]))
    else SkipBody(s[1..])
  }

  /** hex_char_to_int */
  function HexValue(c: Byte): (x: int)
    ensures -1 <= x < 16
  {
    if '0' <= c <= '9' then c as int - '0' as int
    else if 'a' <= c <= 'f' then c as int - 'a' as int + 10
    else if 'A' <= c <= 'F' then c as int - 'A' as int + 10
    else -1
  }

  /** parse_utf16_hex: four hexadecimal digits, none of them the terminating zero. */
  function Hex4(s: seq<Byte>): (r: Option<nat>)
    ensures r.Some? ==> |s| >= 4 && r.value < 0x10000
  {
    if |s| < 4 || s[0] == '\0' || s[1] == '\0' || s[2] == '\0' || s[3] == '\0' then None
    else
      var x1, x2, x3, x4 := HexValue(s[0]), HexValue(s[1]), HexValue(s[2]), HexValue(s[3]);
      if x1 == -1 || x2 == -1 || x3 == -1 || x4 == -1 then None
      else Some(x1 * 0x1000 + x2 * 0x100 + x3 * 0x10 + x4)
  }

  function ByteOf(x: nat): (c: Byte)
    requires x < 256
  {
    x as char
  }

  /** The UTF-8 bytes parse_utf16 stores for a code point. */
  function Utf8(cp: nat): (s: seq<Byte>)
    requires cp < 0x110000
    ensures 1 <= |s| <= 4
  {
    if cp < 0x80 then [ByteOf(cp)]
    else if cp < 0x800 then [ByteOf(0xC0 + cp / 0x40), ByteOf(0x80 + cp % 0x40)]
    else if cp < 0x10000 then
      [ByteOf(0xE0 + cp / 0x1000), ByteOf(0x80 + cp / 0x40 % 0x40), ByteOf(0x80 + cp % 0x40)]
    else
      [ByteOf(0xF0 + cp / 0x40000), ByteOf(0x80 + cp / 0x1000 % 0x40),
       ByteOf(0x80 + cp / 0x40 % 0x40), ByteOf(0x80 + cp % 0x40)]
  }

  /** parse_utf16 after the u: the bytes stored and how many characters of the text were used. */
  function Utf16Escape(s: seq<Byte>): (r: Option<(seq<Byte>, nat)>)
    ensures r.Some? ==> (r.value.1 == 4 || r.value.1 == 10) && r.value.1 <= |s| && 1 <= |r.value.0| <= 4
  {
    match Hex4(s)
    case None => None
    case Some(cp) =>
      if cp < 0xD800 || cp > 0xDFFF then Some((Utf8(cp), 4))
      else if cp > 0xDBFF then None
      else if Cur(s[4..]) != '\\' || Cur(s[5..]) != 'u' then None
      else match Hex4(s[6..])
        case None => None
        case Some(trail) =>
          if trail < 0xDC00 || trail > 0xDFFF then None
          else Some((Utf8((cp - 0xD800) * 0x400 + (trail - 0xDC00) + 0x10000), 10))
  }

  /** The character an escape other than u stands for. */
  function SimpleEscape(c: Byte): Option<Byte> {
    if c == '"' || c == '\\' || c == '/' then Some(c)
    else if c == 'b' then Some('\U{8}')
    else if c == 'f' then Some('\U{c}')
    else if c == 'n' then Some('\n')
    else if c == 'r' then Some('\r')
    else if c == 't' then Some('\t')
    else None
  }

  /** One round of process_string: the bytes stored and how many characters of the text were used. */
  function ProcessOne(s: seq<Byte>): (r: Option<(seq<Byte>, nat)>)
    requires Cur(s) != '\0'
    ensures r.Some? ==> 1 <= r.value.1 <= |s| && 1 <= |r.value.0| <= r.value.1
  {
    if s[0] == '\\' then
      var e := Cur(s[1..]);
      if e == 'u' then
        match Utf16Escape(s[2..])
        case None => None
        case Some((bytes, used)) => Some((bytes, used + 2))
      else
        match SimpleEscape(e)
        case None => None
        case Some(c) => Some(([c], 2))
    else if s[0] as int < 0x20 then None
    else Some(([s[0]], 1))
  }

  /** process_string: the contents of a quoted string of n characters. */
  function Process(s: seq<Byte>, n: int): (r: Option<seq<Byte>>)
    decreases |s|
  {
    if Cur(s) == '\0' || n <= 0 then Some([])
    else
      match ProcessOne(s)
      case None => None
      case Some((bytes, used)) =>
        match Process(s[used..], n - used)
        case None => None
        case Some(rest) => Some(bytes + rest)
  }

  /** get_quoted_string: the processed contents, and what is left of the text. */
  function GetQuotedString(s: seq<Byte>): (r: Option<(seq<Byte>, seq<Byte>)>)
    ensures r.Some? ==> |r.value.1| < |s|
  {
    if Cur(s) != '"' then None
    else
      match SkipBody(s[1..])
      case None => None
      case Some(rest) =>
        match Process(s[1..], |s| - |rest| - 2)
        case None => None
        case Some(contents) => Some((contents, rest))
  }

  type Parsed<+T> = Option<(T, seq<Byte>)>

  function Literal<T>(s: seq<Byte>, token: seq<Byte>, value: T): (r: Parsed<T>)
    ensures r.Some? ==> |r.value.1| <= |s|
  {
    if token <= s then Some((value, s[|token|..])) else None
  }

  /** parse_value */
  function ParseValue<N>(fmt: NumberFormat<N>, text: seq<Byte>, nesting: nat): (r: Parsed<Value<N>>)
    ensures r.Some? ==> |r.value.1| <= |text|
    decreases |text|, 2
  {
    if nesting > MAX_NESTING then None
    else
      var s := SkipWs(text);
      var c := Cur(s);
      if c == '{' then ParseObject(fmt, s, nesting + 1)
      else if c == '[' then ParseArray(fmt, s, nesting + 1)
      else if c == '"' then
        match GetQuotedString(s)
        case None => None
        case Some((contents, rest)) => Some((String(contents), rest))
      else if c == 'f' || c == 't' then
        if "true" <= s then Literal(s, "true", Boolean(true)) else Literal(s, "false", Boolean(false))
      else if c == '-' || '0' <= c <= '9' then
        match fmt.read(s)
        case None => None
        case Some((n, used)) => if used > |s| then None else Some((Number(n), s[used..]))
      else if c == 'n' then Literal(s, "null", Null)
      else None
  }

  /** parse_array_value, from the opening bracket on */
  function ParseArray<N>(fmt: NumberFormat<N>, text: seq<Byte>, nesting: nat): (r: Parsed<Value<N>>)
    requires Cur(text) == '['
    ensures r.Some? ==> |r.value.1| <= |text|
    decreases |text|, 1
  {
    var s := SkipWs(text[1..]);
    if Cur(s) == ']' then Some((Array([]), s[1..]))
    else
      match ParseItems(fmt, s, nesting)
      case None => None
      case Some((items, r)) =>
        var rest := SkipWs(r);
        if Cur(rest) != ']' then None else Some((Array(items), rest[1..]))
  }

  /** The loop of parse_array_value */
  function ParseItems<N>(fmt: NumberFormat<N>, text: seq<Byte>, nesting: nat): (r: Parsed<seq<Value<N>>>)
    ensures r.Some? ==> |r.value.1| <= |text|
    decreases |text|, 3
  {
    if Cur(text) == '\0' then Some(([], text))
    else
      match ParseValue(fmt, text, nesting)
      case None => None
      case Some((v, r)) =>
        var rest := SkipWs(r);
        if Cur(rest) != ',' then Some(([v], rest))
        else
          match ParseItems(fmt, SkipWs(rest[1..]), nesting)
          case None => None
          case Some((items, end)) => Some(([v] + items, end))
  }

  /** parse_object_value, from the opening brace on */
  function ParseObject<N>(fmt: NumberFormat<N>, text: seq<Byte>, nesting: nat): (r: Parsed<Value<N>>)
    requires Cur(text) == '{'
    ensures r.Some? ==> |r.value.1| <= |text|
    decreases |text|, 1
  {
    var s := SkipWs(text[1..]);
    if Cur(s) == '}' then Some((Object([], []), s[1..]))
    else
      match ParseMembers(fmt, s, nesting, [])
      case None => None
      case Some(((names, values), r)) =>
        var rest := SkipWs(r);
        if Cur(rest) != '}' then None else Some((Object(names, values), rest[1..]))
  }

  /** The key and colon of a member. A key must not hold a zero byte. */
  function ParseKey(text: seq<Byte>): (r: Parsed<Key>)
    ensures r.Some? ==> |r.value.1| < |text|
  {
    match GetQuotedString(text)
    case None => None
    case Some((key, r)) =>
      if '\0' in key then None
      else
        var rest := SkipWs(r);
        if Cur(rest) != ':' then None else Some((key, rest[1..]))
  }

  /** The loop of parse_object_value; `seen` are the keys already in the object. */
  function ParseMembers<N>(fmt: NumberFormat<N>, text: seq<Byte>, nesting: nat, seen: seq<Key>)
    : (r: Parsed<(seq<Key>, seq<Value<N>>)>)
    ensures r.Some? ==> |r.value.1| <= |text|
    decreases |text|, 3
  {
    if Cur(text) == '\0' then Some((([], []), text))
    else
      match ParseKey(text)
      case None => None
      case Some((key, afterKey)) =>
        match ParseValue(fmt, afterKey, nesting)
        case None => None
        case Some((v, r)) =>
          if key in seen then None
          else
            var rest := SkipWs(r);
            if Cur(rest) != ',' then Some((([key], [v]), rest))
            else
              match ParseMembers(fmt, SkipWs(rest[1..]), nesting, seen + [key])
              case None => None
              case Some(((names, values), end)) => Some((([key] + names, [v] + values), end))
  }

  /** json_parse_string: a UTF-8 byte order mark is skipped; what follows the value is ignored. */
  function ParseString<N>(fmt: NumberFormat<N>, text: seq<Byte>): (r: Option<Value<N>>) {
    var s := if "\U{EF}\U{BB}\U{BF}" <= text then text[3..] else text;
    match ParseValue(fmt, s, 0)
    case None => None
    case Some((v, _)) => Some(v)
  }
}
