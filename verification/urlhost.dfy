/** The states of the host splitter after a part of an authority, and the parts that lead to a state. */
module UrlHost {
  import opened Alphabets
  import opened Bytes
  import opened HttpParser
  import opened UrlStates
  import opened UrlSyntax
  import opened UrlScan

  /**
   * An authority as far as it has been read: user information and its @, the opening bracket, the name or address,
   * the percent sign of a zone and the zone, the closing bracket, the colon and the port.
   */
  datatype Inner = Inner(user: seq<Byte>, at: bool, open: bool, name: seq<Byte>, percent: bool, zone: seq<Byte>,
                         close: bool, colon: bool, port: seq<Byte>)

  /** `a` is whether there is an @; without it the host comes first. */
  predicate Proper(i: Inner, a: bool) {
    && IsUser(i.user) && IsZone(i.zone) && IsPort(i.port) && (if i.open then IsAddress(i.name) else IsName(i.name))
    && (!a ==> i.user == [] && !i.at)
    && (i.open || i.name != [] ==> !a || i.at)
    && (i.percent ==> i.open && i.name != [])
    && (i.zone != [] ==> i.percent)
    && (i.close ==> i.open && i.name != [] && (i.percent ==> i.zone != []))
    && (i.colon ==> if i.open then i.close else i.name != [])
    && (i.port != [] ==> i.colon)
  }

  function Sign(there: bool, c: Byte): seq<Byte> {
    if there then [c] else []
  }

  function InnerText(i: Inner): seq<Byte> {
    i.user + Sign(i.at, '@') + Sign(i.open, '[') + i.name + Sign(i.percent, '%') + i.zone + Sign(i.close, ']')
    + Sign(i.colon, ':') + i.port
  }

  function HostStateOf(i: Inner, a: bool): HostState {
    if i.port != [] then HostPort
    else if i.colon then HostPortStart
    else if i.close then HostV6End
    else if i.zone != [] then HostV6Zone
    else if i.percent then HostV6ZoneStart
    else if i.name != [] then (if i.open then HostV6 else InHost)
    else if i.open then HostV6Start
    else if i.at || !a then HostStart
    else if i.user != [] then InUserInfo
    else UserInfoStart
  }

  function HostBegin(a: bool): HostState {
    if a then UserInfoStart else HostStart
  }

  const NONE := Inner([], false, false, [], false, [], false, false, [])

  /** Without its last character */
  function Less(i: Inner): Inner {
    if i.port != [] then i.(port := i.port[..|i.port| - 1])
    else if i.colon then i.(colon := false)
    else if i.close then i.(close := false)
    else if i.zone != [] then i.(zone := i.zone[..|i.zone| - 1])
    else if i.percent then i.(percent := false)
    else if i.name != [] then i.(name := i.name[..|i.name| - 1])
    else if i.open then i.(open := false)
    else if i.at then i.(at := false)
    else if i.user != [] then i.(user := i.user[..|i.user| - 1])
    else i
  }

  function LastOf(i: Inner): Byte {
    if i.port != [] then i.port[|i.port| - 1]
    else if i.colon then ':'
    else if i.close then ']'
    else if i.zone != [] then i.zone[|i.zone| - 1]
    else if i.percent then '%'
    else if i.name != [] then i.name[|i.name| - 1]
    else if i.open then '['
    else if i.at then '@'
    else if i.user != [] then i.user[|i.user| - 1]
    else ' '
  }

  lemma LessProper(i: Inner, a: bool)
    requires Proper(i, a) && i != NONE
    ensures Proper(Less(i), a)
  {
    hide UserChar, NameChar, AddressChar, ZoneMark;
  }

  lemma LessText(i: Inner)
    requires i != NONE
    ensures InnerText(i) == InnerText(Less(i)) + [LastOf(i)]
  {
    hide Sign;
    Signs();
    var host := i.user + Sign(i.at, '@') + Sign(i.open, '[');
    var zone := host + i.name + Sign(i.percent, '%') + i.zone;
    if i.port != [] {
      EndsWith(zone + Sign(i.close, ']') + Sign(i.colon, ':'), i.port);
    } else {
      NoMore(zone + Sign(i.close, ']') + Sign(i.colon, ':'));
      var i' := Less(i);
      NoMore(i'.user + Sign(i'.at, '@') + Sign(i'.open, '[') + i'.name + Sign(i'.percent, '%') + i'.zone
             + Sign(i'.close, ']') + Sign(i'.colon, ':'));
      if i.colon {
        NoMore(zone + Sign(i.close, ']'));
      } else if i.close {
        NoMore(zone);
        NoMore(zone + "]");
      } else {
        LessFront(i);
      }
    }
  }

  lemma Signs()
    ensures forall c: Byte :: Sign(false, c) == [] && Sign(true, c) == [c]
  {}

  lemma NoMore(a: seq<Byte>)
    ensures a + [] == a && a + [] + [] == a
  {}

  lemma LessFront(i: Inner)
    requires i != NONE && i.port == [] && !i.colon && !i.close
    ensures var i' := Less(i);
            i.user + Sign(i.at, '@') + Sign(i.open, '[') + i.name + Sign(i.percent, '%') + i.zone + [] + []
            == i'.user + Sign(i'.at, '@') + Sign(i'.open, '[') + i'.name + Sign(i'.percent, '%') + i'.zone + [] + []
               + [LastOf(i)]
  {
    hide Sign;
    Signs();
    var i' := Less(i);
    var host := i.user + Sign(i.at, '@') + Sign(i.open, '[');
    NoMore(host + i.name + Sign(i.percent, '%') + i.zone);
    NoMore(i'.user + Sign(i'.at, '@') + Sign(i'.open, '[') + i'.name + Sign(i'.percent, '%') + i'.zone);
    if i.zone != [] {
      EndsWith(host + i.name + Sign(i.percent, '%'), i.zone);
    } else if i.percent {
      NoMore(host + i.name + "%");
      NoMore(host + i.name);
    } else {
      NoMore(host + i.name);
      NoMore(i'.user + Sign(i'.at, '@') + Sign(i'.open, '[') + i'.name);
      if i.name != [] {
        EndsWith(host, i.name);
      } else {
        NoMore(host);
        NoMore(i'.user + Sign(i'.at, '@') + Sign(i'.open, '['));
        NoMore(i.user + Sign(i.at, '@'));
        NoMore(i'.user + Sign(i'.at, '@'));
        NoMore(i.user);
        NoMore(i'.user);
        if !i.open && !i.at { EndsWith([], i.user); }
      }
    }
  }

  lemma LessState(i: Inner, a: bool)
    requires Proper(i, a) && i != NONE
    ensures ParseHostChar(HostStateOf(Less(i), a), LastOf(i)) == HostStateOf(i, a)
  {
    if i.name == [] {
      LessBefore(i, a);
    } else {
      LessBehind(i, a);
    }
  }

  lemma LessBefore(i: Inner, a: bool)
    requires Proper(i, a) && i != NONE && i.name == []
    ensures ParseHostChar(HostStateOf(Less(i), a), LastOf(i)) == HostStateOf(i, a)
  {
    hide UserChar, NameChar, AddressChar, ZoneMark, IsUserInfoChar, IsHostChar, IsHexDigit, ZoneChar;
    Characters(LastOf(i));
    Delimiters(LastOf(i));
    hide IsName, IsAddress, IsZone, IsPort;
  }

  lemma LessBehind(i: Inner, a: bool)
    requires Proper(i, a) && i.name != []
    ensures ParseHostChar(HostStateOf(Less(i), a), LastOf(i)) == HostStateOf(i, a)
  {
    hide UserChar, NameChar, AddressChar, ZoneMark, IsUserInfoChar, IsHostChar, IsHexDigit, ZoneChar, UserInfoChar;
    Characters(LastOf(i));
    Delimiters(LastOf(i));
    ZoneOrDead(LastOf(i));
    if i.colon || i.close {
      hide IsUser, IsName, IsAddress, IsZone;
    } else if i.percent {
      hide IsUser, IsName, IsAddress, IsPort;
    } else {
      hide IsUser, IsZone, IsPort;
    }
  }

  lemma ZoneOrDead(ch: Byte)
    ensures ZoneChar(ch) == HostV6Zone || ZoneChar(ch) == HostDead
  {}

  // Its fields

  function InnerPart(i: Inner, part: Part): seq<Byte> {
    match part
    case UserInfo => i.user
    case Host => i.name + Sign(i.percent, '%') + i.zone
    case Port => i.port
    case _ => []
  }

  function InnerStart(i: Inner, part: Part): nat {
    match part
    case Host => |i.user| + |Sign(i.at, '@')| + |Sign(i.open, '[')|
    case Port => |InnerText(i)| - |i.port|
    case _ => 0
  }

  function InnerFields(i: Inner, lo: nat): map<Part, Range> {
    map part: Part | InnerPart(i, part) != [] :: Range(lo + InnerStart(i, part), |InnerPart(i, part)|)
  }

  lemma KeptPart(i: Inner, a: bool, part: Part)
    requires Proper(i, a) && i != NONE && HostPartOf(HostStateOf(i, a)) != Some(part)
    ensures InnerPart(i, part) == InnerPart(Less(i), part)
    ensures InnerPart(i, part) != [] ==> InnerStart(i, part) == InnerStart(Less(i), part)
  {
    hide IsUser, IsName, IsAddress, IsZone, IsPort, InnerText;
  }

  lemma GrownPart(i: Inner, a: bool, part: Part)
    requires Proper(i, a) && i != NONE && HostPartOf(HostStateOf(i, a)) == Some(part)
    ensures |InnerPart(i, part)| == |InnerPart(Less(i), part)| + 1
    ensures InnerPart(Less(i), part) != [] ==> InnerStart(i, part) == InnerStart(Less(i), part)
    ensures InnerStart(i, part) + |InnerPart(Less(i), part)| == |InnerText(Less(i))|
  {
    hide IsUser, IsName, IsAddress, IsZone, IsPort;
    if part == Port {
      hide Sign;
    } else if part == UserInfo {
      assert i.name == [] && !i.open && !i.at;
    } else {
      assert !i.close && !i.colon && i.port == [];
    }
  }

  lemma LastPart(i: Inner, a: bool, lo: nat)
    requires Proper(i, a) && i != NONE
    ensures var m, m', n := InnerFields(i, lo), InnerFields(Less(i), lo), lo + |InnerText(Less(i))|;
            var part := HostPartOf(HostStateOf(i, a));
            if part.None? then m == m'
            else if part.value in m' then
              m'[part.value].off + m'[part.value].len == n
              && m == m'[part.value := Range(m'[part.value].off, m'[part.value].len + 1)]
            else m == m'[part.value := Range(n, 1)]
  {
    hide Proper, Less, HostStateOf, HostPartOf, InnerPart, InnerStart, InnerText;
    forall part: Part | HostPartOf(HostStateOf(i, a)) != Some(part)
      ensures InnerPart(i, part) == InnerPart(Less(i), part)
      ensures InnerPart(i, part) != [] ==> InnerStart(i, part) == InnerStart(Less(i), part)
    {
      KeptPart(i, a, part);
    }
    var k := HostPartOf(HostStateOf(i, a));
    if k.Some? { GrownPart(i, a, k.value); }
    GrownFields(i, Less(i), lo, k, |InnerText(Less(i))|);
  }

  lemma GrownFields(i: Inner, i': Inner, lo: nat, k: Option<Part>, n: nat)
    requires forall part: Part :: k != Some(part) ==> InnerPart(i, part) == InnerPart(i', part)
    requires forall part: Part ::
        k != Some(part) && InnerPart(i, part) != [] ==> InnerStart(i, part) == InnerStart(i', part)
    requires k.Some? ==>
               && |InnerPart(i, k.value)| == |InnerPart(i', k.value)| + 1
               && (InnerPart(i', k.value) != [] ==> InnerStart(i, k.value) == InnerStart(i', k.value))
               && InnerStart(i, k.value) + |InnerPart(i', k.value)| == n
    ensures var m, m' := InnerFields(i, lo), InnerFields(i', lo);
            if k.None? then m == m'
            else if k.value in m' then
              m'[k.value].off + m'[k.value].len == lo + n
              && m == m'[k.value := Range(m'[k.value].off, m'[k.value].len + 1)]
            else m == m'[k.value := Range(lo + n, 1)]
  {
    hide InnerPart, InnerStart;
    var m, m' := InnerFields(i, lo), InnerFields(i', lo);
    if k.Some? {
      var r := Range(lo + InnerStart(i, k.value), |InnerPart(i, k.value)|);
      assert m == m'[k.value := r];
    }
  }

  /** After such a text the state and the fields are those of its parts. */
  lemma {:induction false} InnerScanned(i: Inner, a: bool, text: seq<Byte>, lo: nat)
    requires Proper(i, a) && lo + |InnerText(i)| <= |text| && text[lo..lo + |InnerText(i)|] == InnerText(i)
    ensures var hi := lo + |InnerText(i)|;
            && HostAfter(HostBegin(a), text, lo, hi) == HostStateOf(i, a)
            && Covers(InnerFields(i, lo), HostClass(HostBegin(a), text, lo), lo, hi)
    decreases |InnerText(i)|
  {
    hide Proper, InnerText, InnerFields, HostStateOf, Less, Covers, HostClass, HostPartOf, ParseHostChar;
    if i == NONE {
      NoneIsNothing(a, lo);
      NoHostFields(HostBegin(a), text, lo);
    } else {
      var hi := lo + |InnerText(i)|;
      LessProper(i, a);
      LessText(i);
      LessState(i, a);
      assert text[lo..hi - 1] == text[lo..hi][..hi - 1 - lo] == InnerText(Less(i));
      InnerScanned(Less(i), a, text, lo);
      assert text[hi - 1] == text[lo..hi][hi - 1 - lo] == LastOf(i);
      LastPart(i, a, lo);
      CoverLastHost(InnerFields(Less(i), lo), HostBegin(a), text, lo, hi - 1, HostStateOf(i, a));
    }
  }

  lemma NoneIsNothing(a: bool, lo: nat)
    ensures Proper(NONE, a) && InnerText(NONE) == [] && HostStateOf(NONE, a) == HostBegin(a)
    ensures InnerFields(NONE, lo) == map[]
  {}

  lemma CoverLastHost(fields: map<Part, Range>, h0: HostState, text: seq<Byte>, lo: nat, n: nat, s: HostState)
    requires lo <= n < |text| && Covers(fields, HostClass(h0, text, lo), lo, n)
    requires HostAfter(h0, text, lo, n + 1) == s
    ensures var cls, part := HostClass(h0, text, lo), HostPartOf(s);
            && (part.None? ==> Covers(fields, cls, lo, n + 1))
            && (part.Some? && part.value !in fields ==> Covers(fields[part.value := Range(n, 1)], cls, lo, n + 1))
            && (part.Some? && part.value in fields && fields[part.value].off + fields[part.value].len == n ==>
                Covers(fields[part.value := Range(fields[part.value].off, fields[part.value].len + 1)], cls, lo, n + 1))
  {
    hide Covers, HostAfter, HostPartOf;
    var cls, part := HostClass(h0, text, lo), HostPartOf(s);
    ClassAt(h0, text, lo, n);
    if part.None? {
      CoverSkip(fields, cls, lo, n);
    } else if part.value !in fields {
      CoverFirst(fields, cls, lo, n, part.value);
    } else if fields[part.value].off + fields[part.value].len == n {
      CoverMore(fields, cls, lo, n, part.value);
    }
  }

  // Conversely

  /** With one more character */
  function More(i: Inner, a: bool, ch: Byte): Inner {
    match HostStateOf(i, a)
    case HostStart => if ch == '[' then i.(open := true) else i.(name := [ch])
    case HostV6Start => i.(name := [ch])
    case InHost => if ch == ':' then i.(colon := true) else i.(name := i.name + [ch])
    case HostV6 =>
      if ch == ']' then i.(close := true) else if ch == '%' then i.(percent := true) else i.(name := i.name + [ch])
    case HostV6End => i.(colon := true)
    case HostV6ZoneStart => i.(zone := [ch])
    case HostV6Zone => if ch == ']' then i.(close := true) else i.(zone := i.zone + [ch])
    case HostPortStart => i.(port := [ch])
    case HostPort => i.(port := i.port + [ch])
    case _ => if ch == '@' then i.(at := true) else i.(user := i.user + [ch])
  }

  lemma OneMoreChar(s: seq<Byte>, ch: Byte)
    ensures IsUser(s + [ch]) <==> IsUser(s) && UserChar(ch)
    ensures IsName(s + [ch]) <==> IsName(s) && NameChar(ch)
    ensures IsAddress(s + [ch]) <==> IsAddress(s) && AddressChar(ch)
    ensures IsZone(s + [ch]) <==> IsZone(s) && ZoneMark(ch)
    ensures IsPort(s + [ch]) <==> IsPort(s) && ch in DIGITS
  {
    hide UserChar, NameChar, AddressChar, ZoneMark;
    var t := s + [ch];
    assert t[|s|] == ch && forall k :: 0 <= k < |s| ==> t[k] == s[k];
  }

  lemma Empty(ch: Byte)
    ensures [] + [ch] == [ch] && IsUser([]) && IsName([]) && IsAddress([]) && IsZone([]) && IsPort([])
  {}

  lemma MoreProper(i: Inner, a: bool, ch: Byte)
    requires Proper(i, a) && ParseHostChar(HostStateOf(i, a), ch) != HostDead
    ensures Proper(More(i, a, ch), a) && More(i, a, ch) != NONE
  {
    if i.name == [] {
      MoreBefore(i, a, ch);
    } else {
      MoreBehind(i, a, ch);
    }
  }

  lemma MoreBefore(i: Inner, a: bool, ch: Byte)
    requires Proper(i, a) && ParseHostChar(HostStateOf(i, a), ch) != HostDead && i.name == []
    ensures Proper(More(i, a, ch), a) && More(i, a, ch) != NONE
  {
    hide UserChar, NameChar, AddressChar, ZoneMark, IsUserInfoChar, IsHostChar, IsHexDigit, ZoneChar, IsNum;
    Characters(ch);
    OneMoreChar(i.user, ch);
    OneMoreChar([], ch);
    Empty(ch);
    hide IsUser, IsName, IsAddress, IsZone, IsPort;
  }

  lemma MoreBehind(i: Inner, a: bool, ch: Byte)
    requires Proper(i, a) && ParseHostChar(HostStateOf(i, a), ch) != HostDead && i.name != []
    ensures Proper(More(i, a, ch), a) && More(i, a, ch) != NONE
  {
    if i.colon || i.close {
      MorePort(i, a, ch);
    } else if i.percent {
      MoreZone(i, a, ch);
    } else {
      MoreName(i, a, ch);
    }
  }

  lemma MorePort(i: Inner, a: bool, ch: Byte)
    requires Proper(i, a) && ParseHostChar(HostStateOf(i, a), ch) != HostDead && (i.colon || i.close) && i.name != []
    ensures Proper(More(i, a, ch), a) && More(i, a, ch) != NONE
  {
    hide UserInfoChar, ZoneChar, IsHostChar, IsHexDigit, IsNum;
    Characters(ch);
    Empty(ch);
    OneMoreChar([], ch);
    OneMoreChar(i.port, ch);
    hide IsUser, IsName, IsAddress, IsZone, IsPort;
  }

  lemma MoreZone(i: Inner, a: bool, ch: Byte)
    requires Proper(i, a) && ParseHostChar(HostStateOf(i, a), ch) != HostDead && i.percent && !i.colon && !i.close
    ensures Proper(More(i, a, ch), a) && More(i, a, ch) != NONE
  {
    hide UserInfoChar, ZoneChar, IsHostChar, IsHexDigit, IsNum, ZoneMark;
    Characters(ch);
    ZoneOrDead(ch);
    Empty(ch);
    OneMoreChar([], ch);
    OneMoreChar(i.zone, ch);
    hide IsUser, IsName, IsAddress, IsZone, IsPort;
  }

  lemma MoreName(i: Inner, a: bool, ch: Byte)
    requires Proper(i, a) && ParseHostChar(HostStateOf(i, a), ch) != HostDead && i.name != []
    requires !i.percent && !i.colon && !i.close
    ensures Proper(More(i, a, ch), a) && More(i, a, ch) != NONE
  {
    hide UserInfoChar, ZoneChar, IsHostChar, IsHexDigit, IsNum, NameChar, AddressChar;
    Characters(ch);
    OneMoreChar(i.name, ch);
    hide IsUser, IsName, IsAddress, IsZone, IsPort;
  }

  lemma MoreLess(i: Inner, a: bool, ch: Byte)
    requires Proper(i, a) && ParseHostChar(HostStateOf(i, a), ch) != HostDead
    ensures Less(More(i, a, ch)) == i && LastOf(More(i, a, ch)) == ch
  {
    hide UserChar, NameChar, AddressChar, ZoneMark, IsUserInfoChar, IsHostChar, IsHexDigit, ZoneChar, IsNum;
    hide IsUser, IsName, IsAddress, IsZone, IsPort, Less, LastOf;
    Empty(ch);
    if i.name == [] {
      hide ZoneChar;
      GrownFront(i, ch);
    } else {
      hide UserInfoChar;
      GrownBack(i, ch);
      if i.zone == [] && !i.percent && !i.close && !i.colon && i.port == [] { GrownFront(i, ch); }
    }
  }

  lemma GrownFront(i: Inner, ch: Byte)
    requires i.zone == [] && !i.percent && !i.close && !i.colon && i.port == []
    ensures var i' := i.(name := i.name + [ch]); Less(i') == i && LastOf(i') == ch
    ensures i.name == [] && !i.open ==>
              var i' := i.(open := true); Less(i') == i && LastOf(i') == '['
    ensures i.name == [] && !i.open && !i.at ==>
              var i' := i.(at := true); Less(i') == i && LastOf(i') == '@'
    ensures i.name == [] && !i.open && !i.at ==>
              var i' := i.(user := i.user + [ch]); Less(i') == i && LastOf(i') == ch
  {
    DropLast(i.user, ch);
    DropLast(i.name, ch);
  }

  lemma GrownBack(i: Inner, ch: Byte)
    ensures var i' := i.(port := i.port + [ch]); Less(i') == i && LastOf(i') == ch
    ensures i.port == [] && !i.colon ==> var i' := i.(colon := true); Less(i') == i && LastOf(i') == ':'
    ensures i.port == [] && !i.colon && !i.close ==>
              var i' := i.(close := true); Less(i') == i && LastOf(i') == ']'
    ensures i.port == [] && !i.colon && !i.close ==>
              var i' := i.(zone := i.zone + [ch]); Less(i') == i && LastOf(i') == ch
    ensures i.port == [] && !i.colon && !i.close && i.zone == [] && !i.percent ==>
              var i' := i.(percent := true); Less(i') == i && LastOf(i') == '%'
  {
    DropLast(i.zone, ch);
    DropLast(i.port, ch);
  }

  lemma {:induction false} ScannedInner(a: bool, text: seq<Byte>, lo: nat, hi: nat) returns (i: Inner)
    requires lo <= hi <= |text| && HostAfter(HostBegin(a), text, lo, hi) != HostDead
    ensures Proper(i, a) && InnerText(i) == text[lo..hi] && HostStateOf(i, a) == HostAfter(HostBegin(a), text, lo, hi)
    decreases hi
  {
    hide Proper, InnerText, HostStateOf, Less, More, ParseHostChar, LastOf;
    if lo == hi {
      i := NONE;
      NoneIsNothing(a, lo);
    } else {
      if HostAfter(HostBegin(a), text, lo, hi - 1) == HostDead { HostDeadStays(HostBegin(a), text, lo, hi - 1, hi); }
      var i' := ScannedInner(a, text, lo, hi - 1);
      var ch := text[hi - 1];
      i := More(i', a, ch);
      MoreProper(i', a, ch);
      MoreLess(i', a, ch);
      LessText(i);
      LessState(i, a);
      assert text[lo..hi] == text[lo..hi - 1] + [ch];
    }
  }
}
