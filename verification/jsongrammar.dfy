/** The texts of JSON as a grammar (RFC 8259), what they stand for, and that parson reads them so. */
module JsonGrammar {
  import opened Alphabets
  import opened Bytes
  import opened ObjectTable
  import opened JsonText
  import opened JsonRoundTrip
  import opened JsonStrings

  /** What isspace takes for white space: two characters more than RFC 8259. */
  const BLANKS: seq<Byte> := " \t\n\U{b}\U{c}\r"

  predicate IsBlank(ws: seq<Byte>) {
    forall i :: 0 <= i < |ws| ==> ws[i] in BLANKS
  }

  /** A value as it is written; a container without parts may have white space between its brackets. */
  datatype Doc<+N> =
    | NullDoc
    | TrueDoc
    | FalseDoc
    | NumberDoc(text: seq<Byte>, n: N)
    | StringDoc(chars: seq<Char>)
    | ArrayDoc(blank: seq<Byte>, items: seq<Item<N>>)
    | ObjectDoc(blank: seq<Byte>, members: seq<Member<N>>)

  /** A value with white space around it */
  datatype Item<+N> = Item(before: seq<Byte>, doc: Doc<N>, after: seq<Byte>)

  datatype Member<+N> = Member(before: seq<Byte>, key: seq<Char>, mid: seq<Byte>, item: Item<N>)

  // The text

  function DocText<N>(d: Doc<N>): seq<Byte>
    decreases d, 1
  {
    match d
    case NullDoc => "null"
    case TrueDoc => "true"
    case FalseDoc => "false"
    case NumberDoc(text, _) => text
    case StringDoc(chars) => StringText(chars)
    case ArrayDoc(blank, items) => ['['] + (if items == [] then blank else ListText(items)) + [']']
    case ObjectDoc(blank, members) => ['{'] + (if members == [] then blank else MemberListText(members)) + ['}']
  }

  /** Items with commas between them */
  function ListText<N>(items: seq<Item<N>>): seq<Byte>
    decreases items, 0
  {
    if items == [] then []
    else
      items[0].before + DocText(items[0].doc) + items[0].after
      + (if |items| == 1 then [] else [','] + ListText(items[1..]))
  }

  function MemberListText<N>(members: seq<Member<N>>): seq<Byte>
    decreases members, 0
  {
    if members == [] then []
    else
      var m := members[0];
      m.before + StringText(m.key) + m.mid + [':'] + m.item.before + DocText(m.item.doc) + m.item.after
      + (if |members| == 1 then [] else [','] + MemberListText(members[1..]))
  }

  // The meaning

  /** White space is blank, strings are well-formed, and keys are distinct and hold no zero. */
  ghost predicate Proper<N>(d: Doc<N>)
    decreases d, 1
  {
    match d
    case StringDoc(chars) => ValidChars(chars)
    case ArrayDoc(blank, items) => IsBlank(blank) && ProperItems(items)
    case ObjectDoc(blank, members) => IsBlank(blank) && ProperMembers(members) && DistinctKeys(Keys(members))
    case _ => true
  }

  ghost predicate ProperItems<N>(items: seq<Item<N>>)
    decreases items, 0
  {
    items == []
    || (IsBlank(items[0].before) && Proper(items[0].doc) && IsBlank(items[0].after) && ProperItems(items[1..]))
  }

  ghost predicate ProperMembers<N>(members: seq<Member<N>>)
    decreases members, 0
  {
    members == []
    || (var m := members[0];
        && IsBlank(m.before) && ValidChars(m.key) && IsBlank(m.mid)
        && IsBlank(m.item.before) && Proper(m.item.doc) && IsBlank(m.item.after) && ProperMembers(members[1..]))
  }

  ghost function Keys<N>(members: seq<Member<N>>): (keys: seq<Key>)
    requires ProperMembers(members)
    ensures |keys| == |members|
  {
    if members == [] then [] else [Contents(members[0].key)] + Keys(members[1..])
  }

  ghost function ValueOf<N>(d: Doc<N>): Value<N>
    requires Proper(d)
    decreases d, 1
  {
    match d
    case NullDoc => Null
    case TrueDoc => Boolean(true)
    case FalseDoc => Boolean(false)
    case NumberDoc(_, n) => Number(n)
    case StringDoc(chars) => String(Contents(chars))
    case ArrayDoc(_, items) => Array(Values(items))
    case ObjectDoc(_, members) => Object(Keys(members), MemberValues(members))
  }

  ghost function Values<N>(items: seq<Item<N>>): (values: seq<Value<N>>)
    requires ProperItems(items)
    ensures |values| == |items|
    decreases items, 0
  {
    if items == [] then [] else [ValueOf(items[0].doc)] + Values(items[1..])
  }

  ghost function MemberValues<N>(members: seq<Member<N>>): (values: seq<Value<N>>)
    requires ProperMembers(members)
    ensures |values| == |members|
    decreases members, 0
  {
    if members == [] then [] else [ValueOf(members[0].item.doc)] + MemberValues(members[1..])
  }

  /**
   * Each number is what the number reader makes of its text and of all that follows it; what it makes of a text
   * that begins with a minus or a digit is up to the reader.
   */
  ghost predicate NumbersFit<N(!new)>(fmt: NumberFormat<N>, d: Doc<N>, rest: seq<Byte>)
    decreases d, 1
  {
    match d
    case NumberDoc(text, n) =>
      && text + rest != [] && ((text + rest)[0] == '-' || (text + rest)[0] in DIGITS)
      && fmt.read(text + rest) == Some((n, |text|))
    case ArrayDoc(_, items) => ListFits(fmt, items, [']'] + rest)
    case ObjectDoc(_, members) => MemberListFits(fmt, members, ['}'] + rest)
    case _ => true
  }

  /** What follows the first of some parts, before what follows them all */
  function Following(more: seq<Byte>, last: bool, rest: seq<Byte>): seq<Byte> {
    if last then rest else [','] + (more + rest)
  }

  ghost predicate ListFits<N(!new)>(fmt: NumberFormat<N>, items: seq<Item<N>>, rest: seq<Byte>)
    decreases items, 0
  {
    items == []
    || (&& NumbersFit(fmt, items[0].doc, items[0].after + Following(ListText(items[1..]), |items| == 1, rest))
        && ListFits(fmt, items[1..], rest))
  }

  ghost predicate MemberListFits<N(!new)>(fmt: NumberFormat<N>, members: seq<Member<N>>, rest: seq<Byte>)
    decreases members, 0
  {
    members == []
    || (var i := members[0].item;
        && NumbersFit(fmt, i.doc, i.after + Following(MemberListText(members[1..]), |members| == 1, rest))
        && MemberListFits(fmt, members[1..], rest))
  }

  /** What a text stands for is a value that parson can hold. */
  lemma {:induction false} ValueIsWellFormed<N>(d: Doc<N>)
    requires Proper(d)
    ensures WellFormed(ValueOf(d))
    decreases d, 1
  {
    match d
    case ArrayDoc(_, items) => ValuesAreWellFormed(items);
    case ObjectDoc(_, members) => MembersAreWellFormed(members);
    case _ =>
  }

  lemma {:induction false} ValuesAreWellFormed<N>(items: seq<Item<N>>)
    requires ProperItems(items)
    ensures AllWellFormed(Values(items))
    decreases items, 0
  {
    if items != [] {
      ValueIsWellFormed(items[0].doc);
      ValuesAreWellFormed(items[1..]);
      assert Values(items)[1..] == Values(items[1..]);
    }
  }

  lemma {:induction false} MembersAreWellFormed<N>(members: seq<Member<N>>)
    requires ProperMembers(members)
    ensures AllWellFormed(MemberValues(members))
    decreases members, 0
  {
    if members != [] {
      ValueIsWellFormed(members[0].item.doc);
      MembersAreWellFormed(members[1..]);
      assert MemberValues(members)[1..] == MemberValues(members[1..]);
    }
  }

  // White space

  lemma SpaceIsBlank(c: Byte)
    ensures IsSpace(c) <==> c in BLANKS
  {
    var b := BLANKS;
    assert |b| == 6 && b[0] == ' ' && b[1] == '\t' && b[2] == '\n' && b[3] == '\U{b}' && b[4] == '\U{c}';
    assert b[5] == '\r';
  }

  lemma BlankSkipped(ws: seq<Byte>, s: seq<Byte>)
    requires IsBlank(ws)
    ensures SkipWs(ws + s) == SkipWs(s)
  {
    forall i | 0 <= i < |ws|
      ensures IsSpace(ws[i])
    {
      SpaceIsBlank(ws[i]);
    }
    SkipSpaces(ws, s);
  }

  lemma NotBlank(s: seq<Byte>)
    requires s != [] && !IsSpace(s[0])
    ensures SkipWs(s) == s && Cur(s) == s[0]
  {}

  // Reading

  /** A value starts with a character that parse_value looks at, and that is no white space. */
  lemma DocFirst<N(!new)>(fmt: NumberFormat<N>, d: Doc<N>, rest: seq<Byte>)
    requires NumbersFit(fmt, d, rest)
    ensures var s := DocText(d) + rest;
            && s != [] && !IsSpace(s[0]) && SkipWs(s) == s
            && s[0] !in {'\0', ',', ']', '}', '\U{EF}'}
  {
    hide ListText, MemberListText, ListFits, MemberListFits, CharsText;
    var s := DocText(d) + rest;
    if d.NumberDoc? { DigitPlace(s[0]); }
    assert s != [];
    match d
    case NullDoc => assert s[0] == 'n';
    case TrueDoc => assert s[0] == 't';
    case FalseDoc => assert s[0] == 'f';
    case NumberDoc(text, _) => assert s == text + rest;
    case StringDoc(chars) => assert s[0] == '"';
    case ArrayDoc(_, _) => assert s[0] == '[';
    case ObjectDoc(_, _) => assert s[0] == '{';
  }

  /** A value in its place is read as what it stands for, exactly when it is not nested too deep. */
  lemma {:induction false} DocRead<N(!new)>(fmt: NumberFormat<N>, d: Doc<N>, rest: seq<Byte>, nesting: nat)
    requires Proper(d) && NumbersFit(fmt, d, rest)
    ensures ParseValue(fmt, DocText(d) + rest, nesting)
            == Expected(nesting + Depth(ValueOf(d)) <= MAX_NESTING, ValueOf(d), rest)
    decreases d, 3
  {
    hide ParseValue, DocText, ListText, MemberListText, CharsText, ProperItems, ProperMembers, ListFits, MemberListFits;
    hide Depth, NumbersFit, Values, Keys, MemberValues;
    if nesting > MAX_NESTING {
      TooDeep(fmt, DocText(d) + rest, nesting);
    } else {
      match d
      case NullDoc =>
        NullRoundTrip(fmt, rest, nesting);
        ScalarDepth(ValueOf(d));
        assert DocText(d) == "null" by { WordText(d); }
      case TrueDoc =>
        BooleanRoundTrip(fmt, true, rest, nesting);
        ScalarDepth(ValueOf(d));
        WordText(d);
      case FalseDoc =>
        BooleanRoundTrip(fmt, false, rest, nesting);
        ScalarDepth(ValueOf(d));
        WordText(d);
      case NumberDoc(_, _) =>
        NumberRead(fmt, d, rest, nesting);
        ScalarDepth(ValueOf(d));
      case StringDoc(chars) =>
        StringValueRead(fmt, chars, rest, nesting);
        ScalarDepth(ValueOf(d));
        WordText(d);
      case ArrayDoc(_, _) => ArrayRead(fmt, d, rest, nesting);
      case ObjectDoc(_, _) => ObjectRead(fmt, d, rest, nesting);
    }
  }

  lemma TooDeep<N(!new)>(fmt: NumberFormat<N>, s: seq<Byte>, nesting: nat)
    requires nesting > MAX_NESTING
    ensures ParseValue(fmt, s, nesting) == None
  {}

  lemma ScalarDepth<N>(v: Value<N>)
    requires !v.Array? && !v.Object?
    ensures Depth(v) == 0
  {}

  lemma WordText<N>(d: Doc<N>)
    ensures d.NullDoc? ==> DocText(d) == "null"
    ensures d.TrueDoc? ==> DocText(d) == "true"
    ensures d.FalseDoc? ==> DocText(d) == "false"
    ensures d.StringDoc? ==> DocText(d) == StringText(d.chars)
  {
    hide StringText;
  }

  lemma NumberRead<N(!new)>(fmt: NumberFormat<N>, d: Doc<N>, rest: seq<Byte>, nesting: nat)
    requires d.NumberDoc? && NumbersFit(fmt, d, rest) && nesting <= MAX_NESTING
    ensures ParseValue(fmt, DocText(d) + rest, nesting) == Some((Number(d.n), rest))
  {
    hide ParseObject, ParseArray, GetQuotedString, Place;
    var s := d.text + rest;
    DigitPlace(s[0]);
    NotBlank(s);
    assert s[|d.text|..] == rest;
  }

  lemma StringValueRead<N(!new)>(fmt: NumberFormat<N>, chars: seq<Char>, rest: seq<Byte>, nesting: nat)
    requires ValidChars(chars) && nesting <= MAX_NESTING
    ensures ParseValue(fmt, StringText(chars) + rest, nesting) == Some((String(Contents(chars)), rest))
  {
    hide ParseObject, ParseArray, GetQuotedString, Contents, CharsText, ValidChars;
    StringRead(chars, rest);
    var s := StringText(chars) + rest;
    assert s[0] == '"';
    NotBlank(s);
  }

  /** A container around its parts, and what follows it. */
  lemma Brackets(open: Byte, inner: seq<Byte>, close: Byte, rest: seq<Byte>)
    ensures var t := [open] + inner + [close] + rest;
            Cur(t) == open && t[1..] == inner + ([close] + rest) && ([close] + rest)[1..] == rest
            && Cur([close] + rest) == close
  {}

  lemma {:induction false} ArrayRead<N(!new)>(fmt: NumberFormat<N>, d: Doc<N>, rest: seq<Byte>, nesting: nat)
    requires d.ArrayDoc? && Proper(d) && NumbersFit(fmt, d, rest) && nesting <= MAX_NESTING
    ensures ParseValue(fmt, DocText(d) + rest, nesting)
            == Expected(nesting + Depth(ValueOf(d)) <= MAX_NESTING, ValueOf(d), rest)
    decreases d, 2
  {
    hide ParseValue, ParseArray, ListText, ProperItems, ListFits, Depth, Values;
    var items, t, end := d.items, DocText(d) + rest, [']'] + rest;
    var inner := if items == [] then d.blank else ListText(items);
    Brackets('[', inner, ']', rest);
    ParseContainer(fmt, t, nesting);
    DepthOfContainer(Values(items), []);
    if items == [] {
      BlankSkipped(d.blank, end);
      NotBlank(end);
      ParseEmpty(fmt, t, nesting + 1);
    } else {
      ListStarts(fmt, items, end);
      ListRead(fmt, items, rest, nesting + 1);
      ArrayFromItems(fmt, t, SkipWs(inner + end), nesting + 1, nesting + 1 + MaxDepth(Values(items)) <= MAX_NESTING,
                     Values(items), rest);
    }
  }

  /** The first item, what follows it, and where the parser starts on it. */
  lemma ListStarts<N(!new)>(fmt: NumberFormat<N>, items: seq<Item<N>>, end: seq<Byte>)
    requires items != [] && ProperItems(items) && ListFits(fmt, items, end)
    ensures var after := items[0].after + Following(ListText(items[1..]), |items| == 1, end);
            && SkipWs(ListText(items) + end) == DocText(items[0].doc) + after
            && NumbersFit(fmt, items[0].doc, after)
            && Cur(SkipWs(ListText(items) + end)) !in {'\0', ',', ']', '}'}
  {
    hide DocText, ListText, Proper, NumbersFit, IsBlank;
    var i := items[0];
    var after := i.after + Following(ListText(items[1..]), |items| == 1, end);
    RegroupItem(items, end);
    BlankSkipped(i.before, DocText(i.doc) + after);
    DocFirst(fmt, i.doc, after);
  }

  lemma RegroupItem<N>(items: seq<Item<N>>, end: seq<Byte>)
    requires items != []
    ensures var i := items[0];
            ListText(items) + end
            == i.before + (DocText(i.doc) + (i.after + Following(ListText(items[1..]), |items| == 1, end)))
  {
    hide DocText;
    var i := items[0];
    var more: seq<Byte> := if |items| == 1 then [] else [','] + ListText(items[1..]);
    assert ListText(items) == i.before + DocText(i.doc) + i.after + more;
    hide ListText;
    FollowingText(ListText(items[1..]), |items| == 1, end);
    Threefold(i.before, DocText(i.doc), i.after, more, end);
  }

  lemma FollowingText(more: seq<Byte>, last: bool, end: seq<Byte>)
    ensures Following(more, last, end) == (if last then [] else [','] + more) + end
  {}

  lemma Threefold(a: seq<Byte>, b: seq<Byte>, c: seq<Byte>, more: seq<Byte>, end: seq<Byte>)
    ensures a + b + c + more + end == a + (b + (c + (more + end)))
  {}

  /** What follows an item is a comma or the end of the list. */
  lemma AfterBlank(ws: seq<Byte>, more: seq<Byte>, last: bool, end: seq<Byte>)
    requires IsBlank(ws) && end != [] && (end[0] == ']' || end[0] == '}')
    ensures var after := ws + Following(more, last, end);
            if last then SkipWs(after) == end && Cur(end) != ','
            else Cur(SkipWs(after)) == ',' && SkipWs(after)[1..] == more + end
  {
    BlankSkipped(ws, Following(more, last, end));
    NotBlank(Following(more, last, end));
  }

  /** The loop of parse_array_value, from the first item on. */
  lemma {:induction false} ListRead<N(!new)>(fmt: NumberFormat<N>, items: seq<Item<N>>, rest: seq<Byte>, nesting: nat)
    requires items != [] && ProperItems(items) && ListFits(fmt, items, [']'] + rest)
    ensures ParseItems(fmt, SkipWs(ListText(items) + ([']'] + rest)), nesting)
            == Expected(nesting + MaxDepth(Values(items)) <= MAX_NESTING, Values(items), [']'] + rest)
    decreases items, 0
  {
    hide ParseItems, ParseValue, SkipWs, ListText, DocText, Proper, NumbersFit, IsBlank, Depth;
    var i, end, more := items[0], [']'] + rest, ListText(items[1..]);
    var after := i.after + Following(more, |items| == 1, end);
    var s, v := SkipWs(ListText(items) + end), ValueOf(i.doc);
    var fits := nesting + Depth(v) <= MAX_NESTING;
    ListStarts(fmt, items, end);
    DocRead(fmt, i.doc, after, nesting);
    AfterBlank(i.after, more, |items| == 1, end);
    assert Values(items) == [v] + Values(items[1..]);
    if |items| == 1 {
      LastItem(fmt, s, nesting, fits, v, after);
      assert Values(items[1..]) == [] && Values(items) == [v];
    } else {
      ListRead(fmt, items[1..], rest, nesting);
      FurtherItem(fmt, s, nesting, fits, v, after, nesting + MaxDepth(Values(items[1..])) <= MAX_NESTING,
                  Values(items[1..]), end);
    }
    FirstDepth(v, Values(items[1..]));
  }

  lemma FirstDepth<N>(v: Value<N>, vs: seq<Value<N>>)
    ensures MaxDepth([v] + vs) == if Depth(v) > MaxDepth(vs) then Depth(v) else MaxDepth(vs)
    ensures MaxDepth<N>([]) == 0
  {
    assert ([v] + vs)[1..] == vs;
  }

  lemma FurtherItem<N(!new)>(fmt: NumberFormat<N>, t: seq<Byte>, nesting: nat, fits: bool, v: Value<N>,
                             after: seq<Byte>, fits2: bool, items: seq<Value<N>>, end: seq<Byte>)
    requires Cur(t) != '\0' && ParseValue(fmt, t, nesting) == Expected(fits, v, after) && Cur(SkipWs(after)) == ','
    requires ParseItems(fmt, SkipWs(SkipWs(after)[1..]), nesting) == Expected(fits2, items, end)
    ensures ParseItems(fmt, t, nesting) == Expected(fits && fits2, [v] + items, end)
  {}

  lemma {:induction false} ObjectRead<N(!new)>(fmt: NumberFormat<N>, d: Doc<N>, rest: seq<Byte>, nesting: nat)
    requires d.ObjectDoc? && Proper(d) && NumbersFit(fmt, d, rest) && nesting <= MAX_NESTING
    ensures ParseValue(fmt, DocText(d) + rest, nesting)
            == Expected(nesting + Depth(ValueOf(d)) <= MAX_NESTING, ValueOf(d), rest)
    decreases d, 2
  {
    hide ParseValue, ParseObject, MemberListText, ProperMembers, MemberListFits, Depth, Keys, MemberValues;
    hide DistinctKeys;
    var members, t, end := d.members, DocText(d) + rest, ['}'] + rest;
    var inner := if members == [] then d.blank else MemberListText(members);
    Brackets('{', inner, '}', rest);
    ParseContainer(fmt, t, nesting);
    DepthOfContainer(MemberValues(members), Keys(members));
    if members == [] {
      BlankSkipped(d.blank, end);
      NotBlank(end);
      ParseEmpty(fmt, t, nesting + 1);
    } else {
      MembersStart(fmt, members, end);
      NoneSeen(Keys(members));
      MembersRead(fmt, members, rest, nesting + 1, []);
      ObjectFromMembers(fmt, t, SkipWs(inner + end), nesting + 1,
                        nesting + 1 + MaxDepth(MemberValues(members)) <= MAX_NESTING, Keys(members),
                        MemberValues(members), rest);
    }
  }

  lemma NoneSeen(keys: seq<Key>)
    ensures [] + keys == keys
  {}

  /** The value of the first member, and what follows it. */
  function AfterColon<N>(members: seq<Member<N>>, end: seq<Byte>): seq<Byte>
    requires members != []
  {
    var i := members[0].item;
    i.before + (DocText(i.doc) + (i.after + Following(MemberListText(members[1..]), |members| == 1, end)))
  }

  /** The key of the first member, and where the parser starts on it. */
  lemma MembersStart<N(!new)>(fmt: NumberFormat<N>, members: seq<Member<N>>, end: seq<Byte>)
    requires members != [] && ProperMembers(members) && MemberListFits(fmt, members, end)
    ensures var m := members[0];
            var s := SkipWs(MemberListText(members) + end);
            && s == StringText(m.key) + (m.mid + ([':'] + AfterColon(members, end)))
            && Cur(s) == '"'
  {
    hide DocText, Proper, NumbersFit, IsBlank, CharsText, ValidChars;
    var m, value := members[0], AfterColon(members, end);
    var s := StringText(m.key) + (m.mid + ([':'] + value));
    assert MemberListText(members) + end == m.before + s by { RegroupFirst(members, end); }
    BlankSkipped(m.before, s);
    assert s[0] == '"';
    NotBlank(s);
  }

  lemma RegroupFirst<N>(members: seq<Member<N>>, end: seq<Byte>)
    requires members != []
    ensures var m := members[0];
            MemberListText(members) + end
            == m.before + (StringText(m.key) + (m.mid + ([':'] + AfterColon(members, end))))
  {
    hide DocText, StringText;
    var m := members[0];
    var text, value := StringText(m.key), DocText(m.item.doc);
    var more: seq<Byte> := if |members| == 1 then [] else [','] + MemberListText(members[1..]);
    assert MemberListText(members) == m.before + text + m.mid + [':'] + m.item.before + value + m.item.after + more;
    hide MemberListText;
    FollowingText(MemberListText(members[1..]), |members| == 1, end);
    Threefold(m.before + text + m.mid + [':'] + m.item.before, value, m.item.after, more, end);
    var rest := value + (m.item.after + (more + end));
    Threefold(m.before + text, m.mid, [':'], m.item.before, rest);
    Twofold(m.before, text, m.mid + ([':'] + (m.item.before + rest)));
  }

  lemma Twofold(a: seq<Byte>, b: seq<Byte>, c: seq<Byte>)
    ensures a + b + c == a + (b + c)
  {}

  /** The key and the colon of a member */
  lemma KeyRead(key: seq<Char>, mid: seq<Byte>, value: seq<Byte>)
    requires ValidChars(key) && IsBlank(mid) && '\0' !in Contents(key)
    ensures ParseKey(StringText(key) + (mid + ([':'] + value))) == Some((Contents(key), value))
  {
    hide GetQuotedString, StringText, Contents, ValidChars;
    StringRead(key, mid + ([':'] + value));
    BlankSkipped(mid, [':'] + value);
    NotBlank([':'] + value);
  }

  lemma MemberValueRead<N(!new)>(fmt: NumberFormat<N>, t: seq<Byte>, ws: seq<Byte>, s: seq<Byte>, nesting: nat)
    requires t == ws + s && IsBlank(ws)
    ensures ParseValue(fmt, t, nesting) == ParseValue(fmt, s, nesting)
  {
    hide ParseValue;
    BlankSkipped(ws, s);
    ParseSkips(fmt, t, s, nesting);
  }

  /** The keys from the first on, behind those seen. */
  lemma FirstKey(seen: seq<Key>, key: Key, more: seq<Key>)
    requires DistinctKeys(seen + ([key] + more))
    ensures key !in seen && '\0' !in key && DistinctKeys(seen + [key] + more)
  {
    var all := seen + ([key] + more);
    assert all[|seen|] == key;
    forall i | 0 <= i < |seen|
      ensures seen[i] != key
    {
      assert all[i] == seen[i];
    }
    assert seen + [key] + more == all;
  }

  /** The loop of parse_object_value, from the first member on. */
  lemma {:induction false} MembersRead<N(!new)>(fmt: NumberFormat<N>, members: seq<Member<N>>, rest: seq<Byte>,
                                                nesting: nat, seen: seq<Key>)
    requires members != [] && ProperMembers(members) && MemberListFits(fmt, members, ['}'] + rest)
    requires DistinctKeys(seen + Keys(members))
    ensures ParseMembers(fmt, SkipWs(MemberListText(members) + (['}'] + rest)), nesting, seen)
            == Expected(nesting + MaxDepth(MemberValues(members)) <= MAX_NESTING,
                        (Keys(members), MemberValues(members)), ['}'] + rest)
    decreases members, 0
  {
    hide ParseMembers, ParseKey, ParseValue, SkipWs, MemberListText, DocText, Proper, NumbersFit, IsBlank, Depth;
    hide DistinctKeys, StringText, Contents, ValidChars;
    var m, end, more := members[0], ['}'] + rest, MemberListText(members[1..]);
    var after := m.item.after + Following(more, |members| == 1, end);
    var s, v, key := SkipWs(MemberListText(members) + end), ValueOf(m.item.doc), Contents(m.key);
    var value, fits := AfterColon(members, end), nesting + Depth(v) <= MAX_NESTING;
    assert Keys(members) == [key] + Keys(members[1..]) && MemberValues(members) == [v] + MemberValues(members[1..]);
    FirstKey(seen, key, Keys(members[1..]));
    MembersStart(fmt, members, end);
    KeyRead(m.key, m.mid, value);
    DocRead(fmt, m.item.doc, after, nesting);
    MemberValueRead(fmt, value, m.item.before, DocText(m.item.doc) + after, nesting);
    AfterBlank(m.item.after, more, |members| == 1, end);
    FirstDepth(v, MemberValues(members[1..]));
    if |members| == 1 {
      LastMember(fmt, s, nesting, seen, key, value, fits, v, after);
      assert Keys(members[1..]) == [] && MemberValues(members[1..]) == [];
      assert Keys(members) == [key] && MemberValues(members) == [v];
    } else {
      MembersRead(fmt, members[1..], rest, nesting, seen + [key]);
      FurtherMember(fmt, s, nesting, seen, key, value, fits, v, after,
                    nesting + MaxDepth(MemberValues(members[1..])) <= MAX_NESTING, Keys(members[1..]),
                    MemberValues(members[1..]), end);
    }
  }

  lemma FurtherMember<N(!new)>(fmt: NumberFormat<N>, t: seq<Byte>, nesting: nat, seen: seq<Key>, key: Key,
                               afterKey: seq<Byte>, fits: bool, v: Value<N>, after: seq<Byte>, fits2: bool,
                               names: seq<Key>, values: seq<Value<N>>, end: seq<Byte>)
    requires Cur(t) != '\0' && ParseKey(t) == Some((key, afterKey)) && key !in seen
    requires ParseValue(fmt, afterKey, nesting) == Expected(fits, v, after) && Cur(SkipWs(after)) == ','
    requires ParseMembers(fmt, SkipWs(SkipWs(after)[1..]), nesting, seen + [key])
             == Expected(fits2, (names, values), end)
    ensures ParseMembers(fmt, t, nesting, seen) == Expected(fits && fits2, ([key] + names, [v] + values), end)
  {}
}
