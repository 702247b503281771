/** What parson accepts: exactly the texts of the grammar, with anything behind them. */
module JsonAccepted {
  import opened Alphabets
  import opened Bytes
  import opened ObjectTable
  import opened JsonText
  import opened JsonRoundTrip
  import opened JsonStrings
  import opened JsonGrammar

  /** The white space that is skipped. */
  lemma {:induction false} Skipped(s: seq<Byte>) returns (ws: seq<Byte>)
    ensures IsBlank(ws) && s == ws + SkipWs(s) && SkipWs(SkipWs(s)) == SkipWs(s)
  {
    if IsSpace(Cur(s)) {
      hide IsBlank;
      var more := Skipped(s[1..]);
      ws := [s[0]] + more;
      OneBlank(s[0]);
      BlankAppend([s[0]], more);
    } else {
      ws := [];
    }
  }

  lemma OneBlank(c: Byte)
    requires IsSpace(c)
    ensures IsBlank([c])
  {
    SpaceIsBlank(c);
  }

  lemma BlankAppend(a: seq<Byte>, b: seq<Byte>)
    requires IsBlank(a) && IsBlank(b)
    ensures IsBlank(a + b)
  {}

  /** Whatever is read as a value is one, behind white space. */
  lemma {:induction false} ReadIsDoc<N(!new)>(fmt: NumberFormat<N>, text: seq<Byte>, nesting: nat)
    returns (ws: seq<Byte>, d: Doc<N>)
    requires ParseValue(fmt, text, nesting).Some?
    ensures IsBlank(ws) && Proper(d)
    ensures var (v, rest) := ParseValue(fmt, text, nesting).value;
            text == ws + (DocText(d) + rest) && NumbersFit(fmt, d, rest) && ValueOf(d) == v
    decreases |text|, 2
  {
    hide ParseObject, ParseArray, GetQuotedString, DocText, NumbersFit, Proper, ValueOf;
    ws := Skipped(text);
    var s := SkipWs(text);
    var c := Cur(s);
    if c == '{' {
      d := ReadIsObject(fmt, s, nesting + 1);
    } else if c == '[' {
      d := ReadIsArray(fmt, s, nesting + 1);
    } else if c == '"' {
      var chars := ReadIsString(s);
      d := StringDoc(chars);
      WordDoc(fmt, d, GetQuotedString(s).value.1);
    } else if c == '-' || '0' <= c <= '9' {
      d := ReadIsNumber(fmt, s);
    } else {
      d := ReadIsWord(fmt, s, nesting);
    }
  }

  /** The text and the value of a document without parts */
  lemma WordDoc<N(!new)>(fmt: NumberFormat<N>, d: Doc<N>, rest: seq<Byte>)
    requires d.NullDoc? || d.TrueDoc? || d.FalseDoc? || (d.StringDoc? && ValidChars(d.chars))
    ensures Proper(d) && NumbersFit(fmt, d, rest)
    ensures DocText(d) == if d.StringDoc? then StringText(d.chars)
                          else if d.NullDoc? then "null" else if d.TrueDoc? then "true" else "false"
    ensures ValueOf(d) == if d.StringDoc? then String(Contents(d.chars))
                          else if d.NullDoc? then Null else Boolean(d.TrueDoc?)
  {
    hide StringText, Contents, ValidChars;
  }

  lemma ReadIsNumber<N(!new)>(fmt: NumberFormat<N>, s: seq<Byte>) returns (d: Doc<N>)
    requires s != [] && (s[0] == '-' || '0' <= s[0] <= '9')
    requires fmt.read(s).Some? && fmt.read(s).value.1 <= |s|
    ensures Proper(d)
    ensures var (n, used) := fmt.read(s).value;
            s == DocText(d) + s[used..] && NumbersFit(fmt, d, s[used..]) && ValueOf(d) == Number(n)
  {
    var (n, used) := fmt.read(s).value;
    d := NumberDoc(s[..used], n);
    assert s == s[..used] + s[used..];
    DigitPlace(s[0]);
  }

  lemma ReadIsWord<N(!new)>(fmt: NumberFormat<N>, s: seq<Byte>, nesting: nat) returns (d: Doc<N>)
    requires SkipWs(s) == s && ParseValue(fmt, s, nesting).Some?
    requires Cur(s) != '{' && Cur(s) != '[' && Cur(s) != '"' && Cur(s) != '-' && !('0' <= Cur(s) <= '9')
    ensures Proper(d)
    ensures var (v, rest) := ParseValue(fmt, s, nesting).value;
            s == DocText(d) + rest && NumbersFit(fmt, d, rest) && ValueOf(d) == v
  {
    hide DocText, NumbersFit, Proper, ValueOf;
    d := if Cur(s) == 'n' then NullDoc else if "true" <= s then TrueDoc else FalseDoc;
    var rest := ParseValue(fmt, s, nesting).value.1;
    WordDoc(fmt, d, rest);
    var word: seq<Byte> := if Cur(s) == 'n' then "null" else if "true" <= s then "true" else "false";
    assert word <= s && rest == s[|word|..];
    assert s == word + s[|word|..];
  }

  // Arrays

  lemma {:induction false} ReadIsArray<N(!new)>(fmt: NumberFormat<N>, s: seq<Byte>, nesting: nat) returns (d: Doc<N>)
    requires Cur(s) == '[' && ParseArray(fmt, s, nesting).Some?
    ensures Proper(d)
    ensures var (v, rest) := ParseArray(fmt, s, nesting).value;
            s == DocText(d) + rest && NumbersFit(fmt, d, rest) && ValueOf(d) == v
    decreases |s|, 1
  {
    hide ParseItems, ListText, ListFits, ProperItems, Values;
    var rest := ParseArray(fmt, s, nesting).value.1;
    var ws := Skipped(s[1..]);
    var inner := SkipWs(s[1..]);
    if Cur(inner) == ']' {
      d := ArrayDoc(ws, []);
      EmptyList(fmt, [']'] + rest);
      assert s == ['['] + ws + [']'] + rest;
    } else {
      var items := ReadIsList(fmt, ws, inner, nesting);
      var end := SkipWs(ParseItems(fmt, inner, nesting).value.1);
      assert end == [']'] + rest;
      d := ArrayDoc([], items);
      assert s == ['['] + ListText(items) + [']'] + rest;
    }
  }

  lemma EmptyList<N(!new)>(fmt: NumberFormat<N>, end: seq<Byte>)
    ensures ListFits<N>(fmt, [], end) && ProperItems<N>([]) && Values<N>([]) == []
  {}

  /** Whatever the loop of parse_array_value reads up to a bracket is a list. */
  lemma {:induction false} ReadIsList<N(!new)>(fmt: NumberFormat<N>, ws: seq<Byte>, text: seq<Byte>, nesting: nat)
    returns (items: seq<Item<N>>)
    requires IsBlank(ws) && ParseItems(fmt, text, nesting).Some?
    requires Cur(SkipWs(ParseItems(fmt, text, nesting).value.1)) == ']'
    ensures items != [] && ProperItems(items)
    ensures var (vs, r) := ParseItems(fmt, text, nesting).value;
            && ws + text == ListText(items) + SkipWs(r) && ListFits(fmt, items, SkipWs(r))
            && Values(items) == vs
    decreases |text|, 3
  {
    hide ParseValue, DocText, ListText, NumbersFit, ListFits, Proper, IsBlank, ValueOf, SkipWs, ProperItems, Values;
    EndNotRead(text);
    var before, doc := ReadIsDoc(fmt, text, nesting);
    var (v, r1) := ParseValue(fmt, text, nesting).value;
    BlankAppend(ws, before);
    var after := Skipped(r1);
    var rest := SkipWs(r1);
    var item := Item(ws + before, doc, after);
    ItemStarts(ws, before, DocText(doc), after, rest, text);
    if Cur(rest) != ',' {
      items := [item];
      OneItem(fmt, item, rest);
    } else {
      var sp := Skipped(rest[1..]);
      var more := ReadIsList(fmt, sp, SkipWs(rest[1..]), nesting);
      var end := SkipWs(ParseItems(fmt, text, nesting).value.1);
      items := [item] + more;
      assert rest == [','] + (ListText(more) + end);
      MoreItems(fmt, item, more, end);
    }
  }

  lemma EndNotRead(text: seq<Byte>)
    ensures Cur(text) == '\0' ==> Cur(SkipWs(text)) == '\0'
  {}

  lemma ItemStarts(ws: seq<Byte>, before: seq<Byte>, d: seq<Byte>, after: seq<Byte>, rest: seq<Byte>, text: seq<Byte>)
    requires text == before + (d + (after + rest))
    ensures ws + text == ws + before + d + after + rest
  {}

  lemma OneItem<N(!new)>(fmt: NumberFormat<N>, item: Item<N>, rest: seq<Byte>)
    requires IsBlank(item.before) && Proper(item.doc) && IsBlank(item.after)
    requires NumbersFit(fmt, item.doc, item.after + rest)
    ensures ProperItems([item]) && ListFits(fmt, [item], rest)
    ensures ListText([item]) == item.before + DocText(item.doc) + item.after
    ensures Values([item]) == [ValueOf(item.doc)]
  {
    hide DocText, NumbersFit, Proper, IsBlank, ValueOf;
    assert [item][1..] == [];
    EmptyList(fmt, rest);
    var text := item.before + DocText(item.doc) + item.after;
    assert text + [] == text;
  }

  lemma MoreItems<N(!new)>(fmt: NumberFormat<N>, item: Item<N>, more: seq<Item<N>>, end: seq<Byte>)
    requires IsBlank(item.before) && Proper(item.doc) && IsBlank(item.after) && more != [] && ProperItems(more)
    requires NumbersFit(fmt, item.doc, item.after + ([','] + (ListText(more) + end))) && ListFits(fmt, more, end)
    ensures ProperItems([item] + more) && ListFits(fmt, [item] + more, end)
    ensures ListText([item] + more) + end
            == item.before + DocText(item.doc) + item.after + ([','] + (ListText(more) + end))
    ensures Values([item] + more) == [ValueOf(item.doc)] + Values(more)
  {
    hide DocText, NumbersFit, Proper, IsBlank, ValueOf;
    var items := [item] + more;
    assert items[1..] == more;
    assert ListText(items) == item.before + DocText(item.doc) + item.after + ([','] + ListText(more));
    hide ListText, ListFits, Values, ProperItems;
    Inserted(item.before + DocText(item.doc) + item.after, ListText(more), end);
  }

  lemma Inserted(a: seq<Byte>, more: seq<Byte>, end: seq<Byte>)
    ensures a + ([','] + more) + end == a + ([','] + (more + end))
  {}

  // Objects

  lemma {:induction false} ReadIsObject<N(!new)>(fmt: NumberFormat<N>, s: seq<Byte>, nesting: nat) returns (d: Doc<N>)
    requires Cur(s) == '{' && ParseObject(fmt, s, nesting).Some?
    ensures Proper(d)
    ensures var (v, rest) := ParseObject(fmt, s, nesting).value;
            s == DocText(d) + rest && NumbersFit(fmt, d, rest) && ValueOf(d) == v
    decreases |s|, 1
  {
    hide ParseMembers, MemberListText, MemberListFits, ProperMembers, Keys, MemberValues, DistinctKeys;
    var rest := ParseObject(fmt, s, nesting).value.1;
    var ws := Skipped(s[1..]);
    var inner := SkipWs(s[1..]);
    if Cur(inner) == '}' {
      d := ObjectDoc(ws, []);
      NoMembers(fmt, ['}'] + rest);
      assert s == ['{'] + ws + ['}'] + rest;
    } else {
      NoKeys();
      var members := ReadIsMembers(fmt, ws, inner, nesting, []);
      var end := SkipWs(ParseMembers(fmt, inner, nesting, []).value.1);
      assert end == ['}'] + rest;
      d := ObjectDoc([], members);
      NoneSeen(Keys(members));
      assert s == ['{'] + MemberListText(members) + ['}'] + rest;
    }
  }

  lemma NoKeys()
    ensures DistinctKeys([])
  {}

  lemma NoMembers<N(!new)>(fmt: NumberFormat<N>, end: seq<Byte>)
    ensures MemberListFits<N>(fmt, [], end) && ProperMembers<N>([]) && MemberValues<N>([]) == [] && Keys<N>([]) == []
    ensures DistinctKeys([])
  {}

  /** Whatever is read as a key and a colon is a string without zeros, white space and a colon. */
  lemma ReadIsKey(text: seq<Byte>) returns (key: seq<Char>, mid: seq<Byte>)
    requires ParseKey(text).Some?
    ensures ValidChars(key) && IsBlank(mid) && '\0' !in Contents(key)
    ensures var (k, afterKey) := ParseKey(text).value;
            text == StringText(key) + (mid + ([':'] + afterKey)) && Contents(key) == k
  {
    hide GetQuotedString, StringText, Contents, ValidChars, SkipWs;
    key := ReadIsString(text);
    var r := GetQuotedString(text).value.1;
    mid := Skipped(r);
    var rest := SkipWs(r);
    assert rest == [':'] + rest[1..];
  }

  lemma {:induction false} ReadIsMembers<N(!new)>(fmt: NumberFormat<N>, ws: seq<Byte>, text: seq<Byte>, nesting: nat,
                                                  seen: seq<Key>)
    returns (members: seq<Member<N>>)
    requires IsBlank(ws) && ParseMembers(fmt, text, nesting, seen).Some? && DistinctKeys(seen)
    requires Cur(SkipWs(ParseMembers(fmt, text, nesting, seen).value.1)) == '}'
    ensures members != [] && ProperMembers(members)
    ensures var ((names, values), r) := ParseMembers(fmt, text, nesting, seen).value;
            && ws + text == MemberListText(members) + SkipWs(r) && MemberListFits(fmt, members, SkipWs(r))
            && Keys(members) == names && MemberValues(members) == values
    ensures DistinctKeys(seen + Keys(members))
    decreases |text|, 3
  {
    hide ParseValue, ParseKey, DocText, MemberListText, NumbersFit, MemberListFits, Proper, IsBlank, ValueOf, SkipWs;
    hide StringText, Contents, ValidChars, ProperMembers, Keys, MemberValues, DistinctKeys;
    EndNotRead(text);
    var key, mid := ReadIsKey(text);
    var (k, afterKey) := ParseKey(text).value;
    var before, doc := ReadIsDoc(fmt, afterKey, nesting);
    var (v, r1) := ParseValue(fmt, afterKey, nesting).value;
    var after := Skipped(r1);
    var rest := SkipWs(r1);
    var m := Member(ws, key, mid, Item(before, doc, after));
    OneMoreKey(seen, k);
    MemberStarts(ws, StringText(key), mid, before, DocText(doc), after, rest);
    assert ws + text == MemberFront(m) + rest;
    if Cur(rest) != ',' {
      members := [m];
      OneMember(fmt, m, rest);
    } else {
      var sp := Skipped(rest[1..]);
      var more := ReadIsMembers(fmt, sp, SkipWs(rest[1..]), nesting, seen + [k]);
      var end := SkipWs(ParseMembers(fmt, text, nesting, seen).value.1);
      members := [m] + more;
      assert rest == [','] + (MemberListText(more) + end);
      MoreMembers(fmt, m, more, end);
      assert seen + [k] + Keys(more) == seen + ([k] + Keys(more));
    }
  }

  lemma OneMoreKey(seen: seq<Key>, k: Key)
    requires DistinctKeys(seen) && k !in seen && '\0' !in k
    ensures DistinctKeys(seen + [k])
  {}

  /** The text of a member without what follows it */
  function MemberFront<N>(m: Member<N>): seq<Byte> {
    m.before + StringText(m.key) + m.mid + [':'] + m.item.before + DocText(m.item.doc) + m.item.after
  }

  lemma MemberStarts(ws: seq<Byte>, key: seq<Byte>, mid: seq<Byte>, before: seq<Byte>, d: seq<Byte>, after: seq<Byte>,
                     rest: seq<Byte>)
    ensures ws + (key + (mid + ([':'] + (before + (d + (after + rest))))))
            == ws + key + mid + [':'] + before + d + after + rest
  {
    var value := before + (d + (after + rest));
    Threefold(ws + key + mid + [':'] + before, d, after, [], rest);
    var front := ws + key + mid + [':'] + before + d + after;
    assert [] + rest == rest && front + [] == front;
    Threefold(ws + key, mid, [':'], before, d + (after + rest));
    Twofold(ws, key, mid + ([':'] + value));
  }

  lemma OneMember<N(!new)>(fmt: NumberFormat<N>, m: Member<N>, rest: seq<Byte>)
    requires IsBlank(m.before) && ValidChars(m.key) && IsBlank(m.mid)
    requires IsBlank(m.item.before) && Proper(m.item.doc) && IsBlank(m.item.after)
    requires NumbersFit(fmt, m.item.doc, m.item.after + rest)
    ensures ProperMembers([m]) && MemberListFits(fmt, [m], rest) && MemberListText([m]) == MemberFront(m)
    ensures Keys([m]) == [Contents(m.key)] && MemberValues([m]) == [ValueOf(m.item.doc)]
  {
    hide DocText, NumbersFit, Proper, IsBlank, ValueOf, StringText, Contents, ValidChars;
    assert [m][1..] == [];
    NoMembers(fmt, rest);
    assert MemberFront(m) + [] == MemberFront(m);
  }

  lemma MoreMembers<N(!new)>(fmt: NumberFormat<N>, m: Member<N>, more: seq<Member<N>>, end: seq<Byte>)
    requires IsBlank(m.before) && ValidChars(m.key) && IsBlank(m.mid)
    requires IsBlank(m.item.before) && Proper(m.item.doc) && IsBlank(m.item.after)
    requires more != [] && ProperMembers(more) && MemberListFits(fmt, more, end)
    requires NumbersFit(fmt, m.item.doc, m.item.after + ([','] + (MemberListText(more) + end)))
    ensures ProperMembers([m] + more) && MemberListFits(fmt, [m] + more, end)
    ensures MemberListText([m] + more) + end == MemberFront(m) + ([','] + (MemberListText(more) + end))
    ensures Keys([m] + more) == [Contents(m.key)] + Keys(more)
    ensures MemberValues([m] + more) == [ValueOf(m.item.doc)] + MemberValues(more)
  {
    hide DocText, NumbersFit, Proper, IsBlank, ValueOf, StringText, Contents, ValidChars;
    var members := [m] + more;
    assert members[1..] == more;
    assert MemberListText(members) == MemberFront(m) + ([','] + MemberListText(more));
    hide MemberListText, MemberListFits, MemberValues, ProperMembers, Keys, MemberFront;
    Inserted(MemberFront(m), MemberListText(more), end);
  }

  // json_parse_string

  /** The bytes of a byte order mark */
  const MARK: seq<Byte> := ['\U{EF}', '\U{BB}', '\U{BF}']

  /** The text is a value's in the grammar, behind a mark or none and white space, with anything behind it. */
  ghost predicate Says<N(!new)>(fmt: NumberFormat<N>, text: seq<Byte>, v: Value<N>) {
    exists mark: seq<Byte>, ws: seq<Byte>, d: Doc<N>, rest: seq<Byte> ::
      IsText(fmt, text, v, mark, ws, d, rest)
  }

  ghost predicate IsText<N(!new)>(fmt: NumberFormat<N>, text: seq<Byte>, v: Value<N>, mark: seq<Byte>, ws: seq<Byte>,
                                  d: Doc<N>, rest: seq<Byte>) {
    && (mark == [] || mark == MARK) && IsBlank(ws) && text == mark + (ws + (DocText(d) + rest))
    && Proper(d) && NumbersFit(fmt, d, rest) && ValueOf(d) == v
  }

  /** A text of the grammar is parsed to what it stands for, unless that is nested too deep. */
  lemma TextIsParsed<N(!new)>(fmt: NumberFormat<N>, text: seq<Byte>, v: Value<N>)
    requires Says(fmt, text, v)
    ensures ParseString(fmt, text) == if Depth(v) <= MAX_NESTING then Some(v) else None
    ensures WellFormed(v)
  {
    hide ParseValue, DocText, Proper, NumbersFit, ValueOf, Depth, WellFormed, IsBlank;
    var mark, ws, d, rest :| IsText(fmt, text, v, mark, ws, d, rest);
    var s := ws + (DocText(d) + rest);
    ValueIsWellFormed(d);
    DocRead(fmt, d, rest, 0);
    MemberValueRead(fmt, s, ws, DocText(d) + rest, 0);
    DocFirst(fmt, d, rest);
    NoMark(ws, DocText(d) + rest);
    if mark == MARK {
      assert text[3..] == s;
    } else {
      assert text == s;
    }
  }

  /** White space and what may follow it do not begin like a byte order mark. */
  lemma NoMark(ws: seq<Byte>, s: seq<Byte>)
    requires IsBlank(ws) && s != [] && s[0] != '\U{EF}'
    ensures !(MARK <= ws + s)
  {
    if ws != [] { SpaceIsBlank(ws[0]); }
    assert (ws + s)[0] != MARK[0];
  }

  /** A text is parsed to a value exactly if it says this value and does not nest it deeper than 2048. */
  lemma ParsedIffSaid<N(!new)>(fmt: NumberFormat<N>, text: seq<Byte>, v: Value<N>)
    ensures ParseString(fmt, text) == Some(v) <==> Says(fmt, text, v) && Depth(v) <= MAX_NESTING
    ensures ParseString(fmt, text) == Some(v) ==> WellFormed(v)
  {
    hide ParseValue, Depth, WellFormed, Says;
    if Says(fmt, text, v) {
      TextIsParsed(fmt, text, v);
    }
    if ParseString(fmt, text) == Some(v) {
      ParsedIsText(fmt, text);
      TextIsParsed(fmt, text, v);
    }
  }

  lemma ParsedIsText<N(!new)>(fmt: NumberFormat<N>, text: seq<Byte>)
    requires ParseString(fmt, text).Some?
    ensures Says(fmt, text, ParseString(fmt, text).value)
  {
    hide ParseValue, DocText, Proper, NumbersFit, ValueOf, IsBlank;
    var mark: seq<Byte> := if MARK <= text then MARK else [];
    var s := if MARK <= text then text[3..] else text;
    assert text == mark + s;
    var ws, d := ReadIsDoc(fmt, s, 0);
    var (v, rest) := ParseValue(fmt, s, 0).value;
    assert IsText(fmt, text, v, mark, ws, d, rest);
  }
}
