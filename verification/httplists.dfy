/** Words in header values, and the list of a Connection header as the parser reads it. */
module HttpLists {
  import opened Bytes
  import opened HttpParser

  /** A value as it is compared: bit 5 of every byte set. */
  function LowerValue(s: seq<Byte>): (r: seq<Byte>)
    ensures |r| == |s| && forall i :: 0 <= i < |s| ==> r[i] == Lower(s[i])
  {
    seq(|s|, i requires 0 <= i < |s| => Lower(s[i]))
  }

  // Words

  /** The word of a token, in any case, and spaces. */
  predicate IsWord(t: Token, s: seq<Byte>) {
    var w := t.Text();
    |s| >= |w| && LowerValue(s[..|w|]) == w && forall i :: |w| <= i < |s| ==> s[i] == ' '
  }

  /** A beginning of the word that is not all of it. */
  predicate IsPart(t: Token, s: seq<Byte>) {
    0 < |s| < |t.Text()| && LowerValue(s) == t.Text()[..|s|]
  }

  lemma SameSnoc(a: seq<Byte>, b: seq<Byte>, x: Byte, y: Byte)
    requires |a| == |b|
    ensures a + [x] == b + [y] <==> a == b && x == y
  {
    assert (a + [x])[..|a|] == a && (b + [y])[..|a|] == b;
    assert (a + [x])[|a|] == x && (b + [y])[|a|] == y;
  }

  lemma LowerSnoc(s: seq<Byte>, ch: Byte)
    ensures LowerValue(s + [ch]) == LowerValue(s) + [Lower(ch)]
  {}

  /** One more character of a word. */
  lemma WordStep(t: Token, s: seq<Byte>, ch: Byte)
    requires s != []
    ensures IsPart(t, s + [ch]) <==> IsPart(t, s) && |s| + 1 < |t.Text()| && Lower(ch) == t.Text()[|s|]
    ensures IsWord(t, s + [ch]) <==>
              (IsWord(t, s) && ch == ' ') || (IsPart(t, s) && |s| + 1 == |t.Text()| && Lower(ch) == t.Text()[|s|])
  {
    var w, u := t.Text(), s + [ch];
    hide Token.Text, Lower, LowerValue;
    if |s| < |w| {
      LowerSnoc(s, ch);
      SameSnoc(LowerValue(s), w[..|s|], Lower(ch), w[|s|]);
      assert w[..|s| + 1] == w[..|s|] + [w[|s|]] && u[..|s| + 1] == u;
      assert |s| + 1 == |w| ==> w[..|s| + 1] == w && u[..|w|] == u;
    } else {
      assert u[..|w|] == s[..|w|];
      assert u[|s|] == ch && forall i :: 0 <= i < |s| ==> u[i] == s[i];
      assert IsWord(t, u) ==> forall i :: |w| <= i < |s| ==> s[i] == u[i];
    }
  }

  lemma WordBegins(t: Token, ch: Byte)
    ensures IsPart(t, [ch]) <==> Lower(ch) == t.Text()[0]
    ensures !IsWord(t, [ch])
  {
    assert t.Text()[..1] == [t.Text()[0]];
  }

  // The items of a list

  /** The items between commas. */
  function Split(v: seq<Byte>): (items: seq<seq<Byte>>)
    ensures items != []
  {
    if v == [] then [[]]
    else
      var items, ch := Split(v[..|v| - 1]), v[|v| - 1];
      if ch == ',' then items + [[]] else items[..|items| - 1] + [items[|items| - 1] + [ch]]
  }

  lemma SplitSnoc(v: seq<Byte>, ch: Byte)
    ensures var items := Split(v);
            Split(v + [ch]) == if ch == ',' then items + [[]] else items[..|items| - 1] + [items[|items| - 1] + [ch]]
  {
    assert (v + [ch])[..|v|] == v;
  }

  /** What is skipped after a comma. Setting bit 5 makes a space of a zero byte, and a parenthesis of a tab. */
  predicate IsGap(c: Byte) {
    c == ' ' || c == '\0'
  }

  function SkipSpaces(s: seq<Byte>): (r: seq<Byte>)
    ensures |r| <= |s|
    ensures r != [] ==> !IsGap(r[0])
  {
    if s != [] && IsGap(s[0]) then SkipSpaces(s[1..]) else s
  }

  lemma {:induction false} SkipSnoc(s: seq<Byte>, ch: Byte)
    ensures SkipSpaces(s + [ch]) == if SkipSpaces(s) == [] && IsGap(ch) then [] else SkipSpaces(s) + [ch]
  {
    if s == [] {
      assert [ch][1..] == [] && [] + [ch] == [ch];
    } else if IsGap(s[0]) {
      SkipSnoc(s[1..], ch);
      assert (s + [ch])[1..] == s[1..] + [ch];
    }
  }

  /** The words a Connection header is searched for. */
  predicate Wanted(t: Token) {
    t != Chunked
  }

  /**
   * The state in an item that has been read up to here, after its spaces: matching a word, past one, or in another
   * token.
   */
  function InItem(s: seq<Byte>): HeaderState
    requires s != []
  {
    if IsPart(KeepAlive, s) then MatchingToken(KeepAlive)
    else if IsPart(Close, s) then MatchingToken(Close)
    else if IsPart(ConnectionUpgrade, s) then MatchingToken(ConnectionUpgrade)
    else if IsWord(KeepAlive, s) then Found(KeepAlive)
    else if IsWord(Close, s) then Found(Close)
    else if IsWord(ConnectionUpgrade, s) then Found(ConnectionUpgrade)
    else InToken
  }

  /** The same for an item after a comma, which may be refused: then nothing more is read of the value. */
  function InNextItem(item: seq<Byte>): HeaderState {
    var s := SkipSpaces(item);
    if s == [] then TokenStart else if !IsToken(Lower(s[0])) then General else InItem(s)
  }

  /**
   * Where an item begins: at the value's start; after a comma; behind a comma that the item before has
   * swallowed, because it came in the middle of a word or before anything else; or behind an item that was refused.
   */
  datatype Mode = First | Next | Swallowed | Refused

  function ModeAfter(items: seq<seq<Byte>>): Mode {
    if items == [] then First
    else
      var mode, item := ModeAfter(items[..|items| - 1]), items[|items| - 1];
      match mode
      case Refused => Refused
      case Swallowed => Next
      case _ =>
        if mode == First && item == [] then Swallowed
        else
          var h := if mode == First then InItem(item) else InNextItem(item);
          if h.MatchingToken? then Swallowed else if h.TokenStart? || h.General? then Refused else Next
  }

  /** The state in the last item. */
  function ListState(mode: Mode, item: seq<Byte>): HeaderState {
    match mode
    case Refused => General
    case Swallowed => InToken
    case First => if item == [] then Known(Connection) else InItem(item)
    case Next => InNextItem(item)
  }

  /** An item is taken for a word: it is one, and stands where it is read. */
  predicate TakenAt(items: seq<seq<Byte>>, i: nat, t: Token)
    requires i < |items|
  {
    ListState(ModeAfter(items[..i]), items[i]) == Found(t)
  }

  /** The words that are taken from a list. */
  predicate Takes(items: seq<seq<Byte>>, t: Token) {
    exists i :: 0 <= i < |items| && TakenAt(items, i, t)
  }

  lemma TakesSnoc(items: seq<seq<Byte>>, item: seq<Byte>, t: Token)
    ensures Takes(items + [item], t) <==> Takes(items, t) || ListState(ModeAfter(items), item) == Found(t)
  {
    hide ListState, ModeAfter;
    var all := items + [item];
    assert forall i :: 0 <= i < |items| ==> all[..i] == items[..i] && all[i] == items[i];
    assert all[..|items|] == items;
    if Takes(items, t) {
      var i :| 0 <= i < |items| && TakenAt(items, i, t);
      assert TakenAt(all, i, t);
    }
    if ListState(ModeAfter(items), item) == Found(t) {
      assert TakenAt(all, |items|, t);
    }
    if Takes(all, t) {
      var i :| 0 <= i < |all| && TakenAt(all, i, t);
      assert i < |items| ==> TakenAt(items, i, t);
    }
  }

  // Reading a list

  /** The flags of the words are set, besides those set before. */
  predicate FlagsTaken(f0: Flags, f: Flags, items: seq<seq<Byte>>) {
    && f == f0.(keepAlive := f.keepAlive, close := f.close, connectionUpgrade := f.connectionUpgrade)
    && f.keepAlive == (f0.keepAlive || Takes(items, KeepAlive))
    && f.close == (f0.close || Takes(items, Close))
    && f.connectionUpgrade == (f0.connectionUpgrade || Takes(items, ConnectionUpgrade))
  }

  /** The index is that of the last character matched. */
  predicate IndexIn(h: HeaderState, index: nat, s: seq<Byte>) {
    (h.MatchingToken? ==> index == |s| - 1) && (h.TokenStart? ==> index == 0)
  }

  /** The fields after reading v of a Connection value. */
  predicate ListRead(f0: Flags, k: Core, v: seq<Byte>) {
    var items := Split(v);
    var n := |items| - 1;
    var mode := ModeAfter(items[..n]);
    && v != [] && k.header == ListState(mode, items[n]) && FlagsTaken(f0, k.flags, items[..n])
    && IndexIn(k.header, k.index, if mode == First then items[n] else SkipSpaces(items[n]))
  }

  /** A character in an item. */
  lemma InItemStep(k: Core, s: seq<Byte>, ch: Byte)
    requires s != [] && k.header == InItem(s) && IndexIn(k.header, k.index, s) && ch != ','
    ensures ValueChar(k, ch) == k.(header := InItem(s + [ch]), index := ValueChar(k, ch).index)
    ensures IndexIn(InItem(s + [ch]), ValueChar(k, ch).index, s + [ch])
  {
    hide IsPart, IsWord, Lower;
    WordStep(KeepAlive, s, ch);
    WordStep(Close, s, ch);
    WordStep(ConnectionUpgrade, s, ch);
    OneWord(s);
    if k.header.MatchingToken? {
      FirstLetterOf(k.header.token, s);
    }
  }

  lemma FirstLetterOf(t: Token, s: seq<Byte>)
    requires IsPart(t, s) || IsWord(t, s)
    ensures s != [] && Lower(s[0]) == t.Text()[0] && (IsPart(t, s) <==> |s| < |t.Text()|)
  {
    var w := t.Text();
    if IsPart(t, s) {
      assert LowerValue(s)[0] == w[..|s|][0];
    } else {
      assert LowerValue(s[..|w|])[0] == w[0];
    }
  }

  /** An item is a beginning of one word, is one word, or neither. */
  lemma OneWord(s: seq<Byte>)
    requires s != []
    ensures forall t, u ::
              (IsPart(t, s) || IsWord(t, s)) && (IsPart(u, s) || IsWord(u, s)) && Wanted(t) && Wanted(u) ==> t == u
    ensures forall t :: IsPart(t, s) ==> !IsWord(t, s)
  {
    forall t, u | (IsPart(t, s) || IsWord(t, s)) && (IsPart(u, s) || IsWord(u, s)) && Wanted(t) && Wanted(u)
      ensures t == u
    {
      FirstLetterOf(t, s);
      FirstLetterOf(u, s);
    }
  }

  /** A character in an item after a comma. */
  lemma NextItemStep(k: Core, item: seq<Byte>, ch: Byte)
    requires k.header == InNextItem(item) && IndexIn(k.header, k.index, SkipSpaces(item)) && ch != ','
    ensures ValueChar(k, ch) == k.(header := InNextItem(item + [ch]), index := ValueChar(k, ch).index)
    ensures IndexIn(InNextItem(item + [ch]), ValueChar(k, ch).index, SkipSpaces(item + [ch]))
  {
    hide InItem, SkipSpaces;
    SkipSnoc(item, ch);
    var s := SkipSpaces(item);
    if s == [] {
      GapLower(ch);
      assert [] + [ch] == [ch];
      ItemBegins(ch);
    } else if IsToken(Lower(s[0])) {
      InItemStep(k, s, ch);
      assert (s + [ch])[0] == s[0];
    } else {
      assert (s + [ch])[0] == s[0];
    }
  }

  lemma GapLower(ch: Byte)
    ensures Lower(ch) == ' ' <==> IsGap(ch)
    ensures Lower(ch) != '\t'
    ensures !IsToken(' ')
  {}

  /** The first character of an item decides what is matched. */
  lemma ItemBegins(ch: Byte)
    ensures InItem([ch]) == if Lower(ch) == 'k' then MatchingToken(KeepAlive)
                            else if Lower(ch) == 'c' then MatchingToken(Close)
                            else if Lower(ch) == 'u' then MatchingToken(ConnectionUpgrade)
                            else InToken
  {
    hide IsPart, IsWord;
    WordBegins(KeepAlive, ch);
    WordBegins(Close, ch);
    WordBegins(ConnectionUpgrade, ch);
  }

  /** The states in an item, and what a comma makes of each. */
  predicate InList(h: HeaderState) {
    h.General? || h.TokenStart? || h.InToken? || ((h.MatchingToken? || h.Found?) && Wanted(h.token))
  }

  function AfterComma(h: HeaderState): HeaderState {
    if h.MatchingToken? then InToken else if h.TokenStart? || h.General? then General else TokenStart
  }

  lemma CommaDiffers(t: Token, index: nat)
    ensures Lower(',') == ','
    ensures index <= |t.Text()| ==> Differs(t.Text(), index, ',')
    ensures !IsToken(',')
  {}

  /** A comma. */
  lemma CommaStep(k: Core)
    requires InList(k.header) && (k.header.MatchingToken? ==> k.index + 1 <= |k.header.token.Text()|)
    ensures var k' := ValueChar(k, ',');
            && k' == k.(header := AfterComma(k.header), index := k'.index, flags := k'.flags)
            && (k'.header.TokenStart? ==> k'.index == 0)
            && k'.flags == if k.header.Found? then SetFlag(k.flags, k.header.token) else k.flags
  {
    hide Lower, Differs, IsToken, SetFlag;
    if k.header.MatchingToken? {
      CommaDiffers(k.header.token, k.index + 1);
    } else {
      CommaDiffers(Chunked, 0);
    }
  }

  lemma ItemInList(s: seq<Byte>)
    requires s != []
    ensures InList(InItem(s)) && !InItem(s).General? && !InItem(s).TokenStart?
    ensures InItem(s).MatchingToken? ==> |s| < |InItem(s).token.Text()|
  {}

  /** The mode after an item follows from the state in it. */
  lemma ModeSnoc(items: seq<seq<Byte>>)
    requires items != [] && (|items| == 1 ==> items[0] != [])
    ensures var n := |items| - 1;
            var mode := ModeAfter(items[..n]);
            var h := ListState(mode, items[n]);
            ModeAfter(items) == if h.MatchingToken? then Swallowed
                                else if h.TokenStart? || h.General? then Refused
                                else Next
  {
    hide InItem, InNextItem;
    var n := |items| - 1;
    if n > 0 { NotFirst(items[..n]); }
  }

  lemma CommaAfter(items: seq<seq<Byte>>)
    requires items != [] && (|items| == 1 ==> items[0] != [])
    ensures var n := |items| - 1;
            ListState(ModeAfter(items), []) == AfterComma(ListState(ModeAfter(items[..n]), items[n]))
  {
    hide InItem, ModeAfter;
    ModeSnoc(items);
    SkipNone();
  }

  lemma SkipNone()
    ensures SkipSpaces([]) == []
  {}

  lemma NotFirst(items: seq<seq<Byte>>)
    requires items != []
    ensures ModeAfter(items) != First
  {}

  lemma FirstMode(items: seq<seq<Byte>>)
    requires |items| == 1
    ensures ModeAfter(items[..0]) == First
  {}

  lemma StateInList(mode: Mode, item: seq<Byte>)
    requires mode == First ==> item != []
    ensures var h := ListState(mode, item);
            && InList(h)
            && (h.MatchingToken? ==> |if mode == First then item else SkipSpaces(item)| < |h.token.Text()|)
  {
    hide InItem, SkipSpaces, IsToken, Lower;
    if item != [] { ItemInList(item); }
    if SkipSpaces(item) != [] { ItemInList(SkipSpaces(item)); }
  }

  /** The flags after a comma. */
  lemma FlagsSnoc(f0: Flags, f: Flags, items: seq<seq<Byte>>, item: seq<Byte>)
    requires FlagsTaken(f0, f, items) && InList(ListState(ModeAfter(items), item))
    ensures var h := ListState(ModeAfter(items), item);
            FlagsTaken(f0, if h.Found? then SetFlag(f, h.token) else f, items + [item])
  {
    hide Takes, ListState, ModeAfter;
    TakesSnoc(items, item, KeepAlive);
    TakesSnoc(items, item, Close);
    TakesSnoc(items, item, ConnectionUpgrade);
  }

  lemma {:induction false} FirstItem(v: seq<Byte>)
    requires v != []
    ensures |Split(v)| == 1 ==> Split(v)[0] == v
    decreases |v|
  {
    var u := v[..|v| - 1];
    if u != [] { FirstItem(u); }
    assert u + [v[|v| - 1]] == v;
  }

  lemma ItemStep(k: Core, mode: Mode, item: seq<Byte>, ch: Byte)
    requires k.header == ListState(mode, item) && (mode == First ==> item != []) && ch != ','
    requires IndexIn(k.header, k.index, if mode == First then item else SkipSpaces(item))
    ensures ValueChar(k, ch) == k.(header := ListState(mode, item + [ch]), index := ValueChar(k, ch).index)
    ensures IndexIn(ListState(mode, item + [ch]), ValueChar(k, ch).index,
                    if mode == First then item + [ch] else SkipSpaces(item + [ch]))
  {
    hide InItem, InNextItem, SkipSpaces, Lower, IsToken;
    match mode
    case First => InItemStep(k, item, ch);
    case Next => NextItemStep(k, item, ch);
    case Swallowed =>
    case Refused =>
  }

  /** Reading one more character of a Connection value. */
  lemma ListCharRead(f0: Flags, k: Core, v: seq<Byte>, ch: Byte)
    requires ListRead(f0, k, v)
    ensures ListRead(f0, ValueChar(k, ch), v + [ch])
    ensures var k' := ValueChar(k, ch); k' == k.(header := k'.header, index := k'.index, flags := k'.flags)
  {
    hide ListState, ModeAfter, FlagsTaken, InItem, InNextItem, Takes;
    var items := Split(v);
    var n := |items| - 1;
    SplitSnoc(v, ch);
    FirstItem(v);
    if n > 0 { NotFirst(items[..n]); } else { FirstMode(items); }
    if ch == ',' {
      StateInList(ModeAfter(items[..n]), items[n]);
      CommaStep(k);
      CommaAfter(items);
      FlagsSnoc(f0, k.flags, items[..n], items[n]);
      assert items[..n] + [items[n]] == items && (items + [[]])[..n + 1] == items;
      SkipNone();
    } else {
      var items' := items[..n] + [items[n] + [ch]];
      assert items'[..n] == items[..n];
      ItemStep(k, ModeAfter(items[..n]), items[n], ch);
    }
  }

  /** Nothing is taken before the first comma that separates. */
  lemma NoneTaken(f: Flags)
    ensures FlagsTaken(f, f, []) && FlagsTaken(f, f, [[]])
    ensures ModeAfter([]) == First && ModeAfter([[]]) == Swallowed
  {
    var none: seq<seq<Byte>> := [[]];
    assert none[..0] == [];
    forall t: Token
      ensures !Takes([], t) && !Takes(none, t)
    {
      assert !TakenAt(none, 0, t);
    }
  }

  lemma SplitOne(ch: Byte)
    ensures Split([ch]) == if ch == ',' then [[], []] else [[ch]]
  {
    SplitSnoc([], ch);
    assert [] + [ch] == [ch] && Split([]) == [[]];
  }

  /** The parts of ListRead. */
  lemma ListReadOf(f0: Flags, k: Core, v: seq<Byte>, items: seq<seq<Byte>>, item: seq<Byte>)
    requires v != [] && Split(v) == items + [item] && k.header == ListState(ModeAfter(items), item)
    requires FlagsTaken(f0, k.flags, items)
    requires IndexIn(k.header, k.index, if ModeAfter(items) == First then item else SkipSpaces(item))
    ensures ListRead(f0, k, v)
  {
    hide FlagsTaken, ModeAfter, ListState, IndexIn, SkipSpaces, Split;
    assert (items + [item])[..|items|] == items;
  }

  /** A comma that begins a value is in an item of its own. */
  lemma StartsWithComma(k: Core, ch: Byte)
    requires k.header == InToken && ch == ','
    ensures ListRead(k.flags, k, [ch])
  {
    hide InNextItem, FlagsTaken, ModeAfter, SkipSpaces, Split, ListRead;
    SplitOne(ch);
    NoneTaken(k.flags);
    assert [[]] + [[]] == Split([ch]);
    ListReadOf(k.flags, k, [ch], [[]], []);
  }

  lemma StartsWithItem(k: Core, ch: Byte)
    requires k.header == InItem([ch]) && k.index == 0 && ch != ','
    ensures ListRead(k.flags, k, [ch])
  {
    hide InItem, FlagsTaken, ModeAfter, SkipSpaces, Split, ListRead;
    SplitOne(ch);
    NoneTaken(k.flags);
    ItemInList([ch]);
    assert [] + [[ch]] == Split([ch]);
    ListReadOf(k.flags, k, [ch], [], [ch]);
  }

  lemma ValueBegins(k: Core, ch: Byte)
    requires k.header == Known(Connection)
    ensures StepHeaderValueStart(k, ch).core
            == k.(header := if ch == ',' then InToken else InItem([ch]), index := 0, state := HeaderValue)
  {
    hide InItem, Lower;
    CommaDiffers(Close, 0);
    ItemBegins(ch);
  }

  /** The first character of a Connection value. */
  lemma ListStarts(k: Core, ch: Byte)
    requires k.header == Known(Connection)
    ensures var k' := StepHeaderValueStart(k, ch).core;
            && ListRead(k.flags, k', [ch])
            && k' == k.(header := k'.header, index := 0, state := HeaderValue)
  {
    hide ListRead, InItem, StepHeaderValueStart;
    ValueBegins(k, ch);
    var k' := StepHeaderValueStart(k, ch).core;
    if ch == ',' {
      StartsWithComma(k', ch);
    } else {
      StartsWithItem(k', ch);
    }
  }

  // Lists in which nothing is missed

  /** An item that is read for what it is: a token, and not the beginning of one of the words. */
  predicate Plain(items: seq<seq<Byte>>, i: nat)
    requires i < |items|
  {
    var h := if i == 0 then (if items[0] == [] then TokenStart else InItem(items[0])) else InNextItem(items[i]);
    h.Found? || h.InToken?
  }

  lemma {:induction false} PlainMode(items: seq<seq<Byte>>, n: nat)
    requires n <= |items| && forall i :: 0 <= i < n ==> Plain(items, i)
    ensures ModeAfter(items[..n]) == if n == 0 then First else Next
  {
    hide InItem, InNextItem;
    if n > 0 {
      PlainMode(items, n - 1);
      var before := items[..n];
      assert before[..n - 1] == items[..n - 1] && before[n - 1] == items[n - 1];
      assert Plain(items, n - 1);
    }
  }

  lemma NoWord(t: Token)
    ensures !IsWord(t, []) && !IsPart(t, [])
  {}

  /** A word is taken if it is listed, as long as every item before it is a token and none breaks off inside a word. */
  lemma ListedIsTaken(items: seq<seq<Byte>>, i: nat, t: Token)
    requires i < |items| && (forall j :: 0 <= j < i ==> Plain(items, j)) && Wanted(t)
    ensures TakenAt(items, i, t) <==> IsWord(t, if i == 0 then items[0] else SkipSpaces(items[i]))
  {
    hide IsPart, IsWord, SkipSpaces, Lower;
    PlainMode(items, i);
    var s := if i == 0 then items[0] else SkipSpaces(items[i]);
    NoWord(t);
    if s != [] {
      OneWord(s);
      if IsWord(t, s) {
        FirstLetterOf(t, s);
      }
    }
  }

  /** In a list of such items exactly the words that are listed are taken. */
  lemma PlainList(items: seq<seq<Byte>>, t: Token)
    requires (forall i :: 0 <= i < |items| ==> Plain(items, i)) && Wanted(t)
    ensures Takes(items, t)
            <==> exists i :: 0 <= i < |items| && IsWord(t, if i == 0 then items[0] else SkipSpaces(items[i]))
  {
    hide TakenAt, IsWord, Plain;
    forall i | 0 <= i < |items|
      ensures TakenAt(items, i, t) <==> IsWord(t, if i == 0 then items[0] else SkipSpaces(items[i]))
    {
      ListedIsTaken(items, i, t);
    }
    if Takes(items, t) {
      var i :| 0 <= i < |items| && TakenAt(items, i, t);
    }
  }
}
