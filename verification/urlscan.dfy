/** The states of the URL splitter after a part of a URL, and the parts that lead to a state. */
module UrlScan {
  import opened Alphabets
  import opened Bytes
  import opened HttpParser
  import opened HttpChars
  import opened UrlStates
  import opened UrlSyntax

  // Characters

  lemma AlphaIsLetter(c: Byte)
    ensures IsAlpha(c) <==> IsLetter(c)
  {
    Letters(c);
    hide IsLetter;
    if c as int < 256 { LowerByCode(c); }
  }

  lemma InSet(c: Byte)
    ensures c in USER_MARKS <==>
              c in {'-', '_', '.', '!', '~', '*', '\'', '(', ')', '%', ';', ':', '&', '=', '+', '$', ','}
    ensures c in ZONE_MARKS <==> c in {'%', '.', '-', '_', '~'}
  {
    var m, z := USER_MARKS, ZONE_MARKS;
    assert |m| == 17 && m[0] == '-' && m[1] == '_' && m[2] == '.' && m[3] == '!' && m[4] == '~' && m[5] == '*';
    assert m[6] == '\'' && m[7] == '(' && m[8] == ')' && m[9] == '%' && m[10] == ';' && m[11] == ':' && m[12] == '&';
    assert m[13] == '=' && m[14] == '+' && m[15] == '$' && m[16] == ',';
    assert |z| == 5 && z[0] == '%' && z[1] == '.' && z[2] == '-' && z[3] == '_' && z[4] == '~';
  }

  /** The macros for characters, by the alphabets. */
  lemma Characters(c: Byte)
    ensures IsAlpha(c) <==> IsLetter(c)
    ensures IsNum(c) <==> c in DIGITS
    ensures IsHostChar(c) <==> NameChar(c)
    ensures IsUserInfoChar(c) <==> UserChar(c)
    ensures IsHexDigit(c) || c == ':' || c == '.' <==> AddressChar(c)
    ensures ZoneChar(c) == HostV6Zone <==> ZoneMark(c)
    ensures IsUrlChar(c) <==> Visible(c) && c != '?' && c != '#'
  {
    AlphaIsLetter(c);
    DigitIsPlace(c);
    HexIsAlphaOrNum(c);
    InSet(c);
    hide IsAlpha, IsLetter, IsNum, IsHexDigit, Place;
  }

  lemma UrlCharIsVisible(c: Byte)
    ensures IsUrlChar(c) <==> Visible(c) && c != '?' && c != '#'
  {}

  lemma UserCharIs(c: Byte)
    ensures IsUserInfoChar(c) <==> UserChar(c)
  {
    Characters(c);
  }

  lemma HexIsAlphaOrNum(c: Byte)
    ensures IsHexDigit(c) <==> c in LOWER_HEX || c in UPPER_HEX
  {
    HexByCode(c);
    assert HexPlace(c) >= 0 <==> c in LOWER_HEX || c in UPPER_HEX;
    hide HexPlace, Place;
    if c as int < 256 { LowerByCode(c); }
  }

  /** Delimiters are none of the characters around them. */
  lemma Delimiters(c: Byte)
    ensures UserChar(c) ==> c !in {'@', '[', ']', '/', '?', '#'} && Visible(c)
    ensures NameChar(c) ==> c !in {'@', '[', ']', '/', '?', '#', ':', '%'} && UserChar(c)
    ensures AddressChar(c) ==> c !in {'@', '[', ']', '/', '?', '#', '%'} && UserChar(c)
    ensures ZoneMark(c) ==> c !in {'@', '[', ']', '/', '?', '#', ':'} && UserChar(c)
    ensures c in DIGITS ==> UserChar(c) && c !in {'@', '[', ']', '/', '?', '#', ':', '%'}
    ensures IsLetter(c) ==> UserChar(c) && c !in {'@', '[', ']', '/', '?', '#', ':', '%', '*'}
    ensures UserChar(':') && UserChar('%')
  {
    Letters(c);
    DigitPlace(c);
    InSet(c);
    InSet(':');
    InSet('%');
    HexByCode(c);
    assert HexPlace(c) >= 0 <==> c in LOWER_HEX || c in UPPER_HEX;
    hide IsLetter, Place, HexPlace;
  }

  // What the first loop has read

  /**
   * A URL as far as it has been read: its scheme, how much of :// follows, its server part, its path, whether there
   * is a question mark, its query, its number signs and its fragment. For CONNECT it begins with the server part.
   */
  datatype Outer = Outer(scheme: seq<Byte>, slashes: nat, server: seq<Byte>, path: seq<Byte>, mark: bool,
                         query: seq<Byte>, hashes: nat, fragment: seq<Byte>)

  predicate ServerByte(c: Byte) {
    UserChar(c) || c == '[' || c == ']' || c == '@'
  }

  predicate IsServer(s: seq<Byte>) {
    && (forall i :: 0 <= i < |s| ==> ServerByte(s[i]))
    && forall i :: 0 <= i < |s| - 1 ==> !(s[i] == '@' && s[i + 1] == '@')
  }

  predicate Valid(o: Outer, c: bool) {
    && o.slashes <= 3 && IsScheme(o.scheme) && IsServer(o.server) && IsPath(o.path) && IsQuery(o.query)
    && IsFragment(o.fragment)
    && (if c then o.scheme == [] && o.slashes == 3 else o.slashes > 0 ==> o.scheme != [])
    && (o.server != [] ==> o.slashes == 3)
    && (o.path != [] ==>
          if o.slashes == 0 then o.scheme == [] && (o.path[0] == '/' || o.path[0] == '*')
              else o.slashes == 3 && o.path[0] == '/')
    && (o.mark ==> o.path != [] || o.slashes == 3)
    && (o.query != [] ==> o.mark)
    && (o.hashes > 0 ==> o.path != [] || o.mark)
    && (o.fragment != [] ==> o.hashes > 0 && o.fragment[0] != '#')
  }

  function Lead(o: Outer, c: bool): seq<Byte>
    requires o.slashes <= 3
  {
    if c then [] else o.scheme + "://"[..o.slashes]
  }

  function Mark(o: Outer): seq<Byte> {
    if o.mark then "?" else []
  }

  function OuterText(o: Outer, c: bool): seq<Byte>
    requires o.slashes <= 3
  {
    Lead(o, c) + o.server + o.path + Mark(o) + o.query + Hashes(o.hashes) + o.fragment
  }

  /** The state by the last of the parts that are there. */
  function StateOf(o: Outer): UrlState {
    if o.fragment != [] then InFragment
    else if o.hashes > 0 then FragmentStart
    else if o.query != [] then QueryString
    else if o.mark then QueryStringStart
    else if o.path != [] then InPath
    else if o.server != [] then (if o.server[|o.server| - 1] == '@' then ServerWithAt else Server)
    else if o.slashes >= 3 then ServerStart
    else if o.slashes == 2 then SchemaSlashSlash
    else if o.slashes == 1 then SchemaSlash
    else if o.scheme != [] then InSchema
    else SpacesBeforeUrl
  }

  function Start(c: bool): UrlState {
    if c then ServerStart else SpacesBeforeUrl
  }

  /** Nothing has been read. */
  function Unread(c: bool): Outer {
    Outer([], if c then 3 else 0, [], [], false, [], 0, [])
  }

  /** Without its last character */
  function Shorter(o: Outer): Outer {
    if o.fragment != [] then o.(fragment := o.fragment[..|o.fragment| - 1])
    else if o.hashes > 0 then o.(hashes := o.hashes - 1)
    else if o.query != [] then o.(query := o.query[..|o.query| - 1])
    else if o.mark then o.(mark := false)
    else if o.path != [] then o.(path := o.path[..|o.path| - 1])
    else if o.server != [] then o.(server := o.server[..|o.server| - 1])
    else if o.slashes > 0 then o.(slashes := o.slashes - 1)
    else if o.scheme != [] then o.(scheme := o.scheme[..|o.scheme| - 1])
    else o
  }

  /** The last character */
  function Last(o: Outer): Byte
    requires o.slashes <= 3
  {
    if o.fragment != [] then o.fragment[|o.fragment| - 1]
    else if o.hashes > 0 then '#'
    else if o.query != [] then o.query[|o.query| - 1]
    else if o.mark then '?'
    else if o.path != [] then o.path[|o.path| - 1]
    else if o.server != [] then o.server[|o.server| - 1]
    else if o.slashes > 0 then "://"[o.slashes - 1]
    else if o.scheme != [] then o.scheme[|o.scheme| - 1]
    else ' '
  }

  lemma ShorterValid(o: Outer, c: bool)
    requires Valid(o, c) && o != Unread(c)
    ensures Valid(Shorter(o), c)
  {
    hide IsLetter, ServerByte, Visible;
  }

  lemma ShorterText(o: Outer, c: bool)
    requires Valid(o, c) && o != Unread(c)
    ensures Shorter(o).slashes <= 3 && OuterText(o, c) == OuterText(Shorter(o), c) + [Last(o)]
  {
    hide IsScheme, IsServer, IsPath, IsQuery, IsFragment;
    var o', ch := Shorter(o), Last(o);
    var server := Lead(o, c) + o.server;
    var path := server + o.path;
    var query := path + Mark(o) + o.query;
    if o.fragment != [] {
      EndsWith(query + Hashes(o.hashes), o.fragment);
    } else if o.hashes > 0 {
      NothingAfter(query + Hashes(o.hashes));
      NothingAfter(query + Hashes(o'.hashes));
      assert Hashes(o.hashes) == Hashes(o'.hashes) + ['#'];
      Twofold(query, Hashes(o'.hashes), ['#']);
    } else {
      NothingAfter(query);
      NothingAfter(path + Mark(o') + o'.query);
      ShorterFront(o, c);
    }
  }

  lemma Twofold(a: seq<Byte>, b: seq<Byte>, c: seq<Byte>)
    ensures a + (b + c) == a + b + c
  {}

  lemma NothingAfter(a: seq<Byte>)
    ensures a + [] == a && a + Hashes(0) == a && a + Hashes(0) + [] == a
  {
    assert Hashes(0) == [];
  }

  lemma EndsWith(a: seq<Byte>, b: seq<Byte>)
    requires b != []
    ensures a + b == a + b[..|b| - 1] + [b[|b| - 1]]
  {}

  lemma ShorterFront(o: Outer, c: bool)
    requires Valid(o, c) && o != Unread(c) && o.fragment == [] && o.hashes == 0
    ensures Shorter(o).slashes <= 3
    ensures var o' := Shorter(o);
            Lead(o, c) + o.server + o.path + Mark(o) + o.query
            == Lead(o', c) + o'.server + o'.path + Mark(o') + o'.query + [Last(o)]
  {
    hide IsScheme, IsServer, IsPath, IsQuery, IsFragment;
    var o' := Shorter(o);
    var server := Lead(o, c) + o.server;
    var path := server + o.path;
    if o.query != [] {
      EndsWith(path + Mark(o), o.query);
    } else if o.mark {
      NothingAfter(path + "?");
      NothingAfter(path);
    } else {
      NothingAfter(path);
      NothingAfter(Lead(o', c) + o'.server + o'.path);
      if o.path != [] {
        EndsWith(server, o.path);
      } else {
        NothingAfter(server);
        NothingAfter(Lead(o', c) + o'.server);
        if o.server != [] {
          EndsWith(Lead(o, c), o.server);
        } else {
          NothingAfter(Lead(o, c));
          NothingAfter(Lead(o', c));
          if o.slashes > 0 {
            assert "://"[..o.slashes] == "://"[..o'.slashes] + ["://"[o'.slashes]];
            Twofold(o.scheme, "://"[..o'.slashes], ["://"[o'.slashes]]);
          } else {
            NothingAfter(o.scheme);
            NothingAfter(o'.scheme);
            EndsWith([], o.scheme);
          }
        }
      }
    }
  }

  /** The last character leads to the state of the whole. */
  lemma ShorterState(o: Outer, c: bool)
    requires Valid(o, c) && o != Unread(c)
    ensures ParseUrlChar(StateOf(Shorter(o)), Last(o)) == StateOf(o)
  {
    if InFront(o) {
      ShorterFrontState(o, c);
    } else {
      ShorterBackState(o, c);
    }
  }

  /** Nothing has been read behind the server part. */
  predicate InFront(o: Outer) {
    o.path == [] && !o.mark && o.query == [] && o.hashes == 0 && o.fragment == []
  }

  lemma ShorterBackState(o: Outer, c: bool)
    requires Valid(o, c) && !InFront(o)
    ensures ParseUrlChar(StateOf(Shorter(o)), Last(o)) == StateOf(o)
  {
    hide Visible, IsLetter, UserChar, IsUserInfoChar, IsUrlChar, IsAlpha;
    Characters(Last(o));
    VisibleNotBlank(Last(o));
    hide IsScheme, IsServer;
    if o.fragment != [] || o.hashes > 0 {
      hide IsPath, IsQuery;
    } else if o.mark {
      hide IsPath, IsFragment;
    } else {
      hide IsQuery, IsFragment;
    }
  }

  lemma ShorterFrontState(o: Outer, c: bool)
    requires Valid(o, c) && o != Unread(c) && InFront(o)
    ensures ParseUrlChar(StateOf(Shorter(o)), Last(o)) == StateOf(o)
  {
    hide Visible, IsLetter, UserChar, IsUserInfoChar, IsUrlChar, IsAlpha, QueryChar;
    Characters(Last(o));
    Delimiters(Last(o));
    VisibleNotBlank(Last(o));
    hide IsPath, IsQuery, IsFragment;
    if o.server != [] {
      hide IsScheme;
      if |o.server| >= 2 { assert !(o.server[|o.server| - 2] == '@' && o.server[|o.server| - 1] == '@'); }
    } else if o.slashes > 0 {
      hide IsScheme, IsServer;
    } else {
      hide IsServer;
    }
  }

  lemma VisibleNotBlank(c: Byte)
    ensures Visible(c) || UserChar(c) || c in {'[', ']', '@', '/', ':', '?', '#'} ==>
              c != ' ' && c != '\r' && c != '\n' && c != '\t' && c != '\U{c}'
  {
    Delimiters(c);
    hide UserChar;
  }

  // Its fields

  function OuterPart(o: Outer, part: Part): seq<Byte> {
    match part
    case Schema => o.scheme
    case Host => o.server
    case Path => o.path
    case Query => o.query
    case Fragment => o.fragment
    case _ => []
  }

  function OuterStart(o: Outer, c: bool, part: Part): nat
    requires o.slashes <= 3
  {
    var server := |Lead(o, c)|;
    match part
    case Host => server
    case Path => server + |o.server|
    case Query => server + |o.server| + |o.path| + 1
    case Fragment => server + |o.server| + |o.path| + |Mark(o)| + |o.query| + o.hashes
    case _ => 0
  }

  function OuterFields(o: Outer, c: bool): map<Part, Range>
    requires o.slashes <= 3
  {
    map part: Part | OuterPart(o, part) != [] :: Range(OuterStart(o, c, part), |OuterPart(o, part)|)
  }

  /** The parts before the last one are as they were. */
  lemma KeptPart(o: Outer, c: bool, part: Part)
    requires Valid(o, c) && o != Unread(c) && PartOf(StateOf(o)) != Some(part)
    ensures Shorter(o).slashes <= 3 && OuterPart(o, part) == OuterPart(Shorter(o), part)
    ensures OuterPart(o, part) != [] ==> OuterStart(o, c, part) == OuterStart(Shorter(o), c, part)
  {
    hide IsScheme, IsServer, IsPath, IsQuery, IsFragment;
    if o.fragment == [] && o.hashes == 0 && o.query == [] && !o.mark && o.path == [] && o.server == [] {
      hide OuterStart;
    }
  }

  /** The last part grows at the end of the text. */
  lemma GrownPart(o: Outer, c: bool, part: Part)
    requires Valid(o, c) && o != Unread(c) && PartOf(StateOf(o)) == Some(part)
    ensures Shorter(o).slashes <= 3 && |OuterPart(o, part)| == |OuterPart(Shorter(o), part)| + 1
    ensures OuterStart(o, c, part) == OuterStart(Shorter(o), c, part)
    ensures OuterStart(o, c, part) + |OuterPart(Shorter(o), part)| == |OuterText(Shorter(o), c)|
  {
    hide IsScheme, IsServer, IsPath, IsQuery, IsFragment, OuterText;
    FewSlashes(o, c);
    ShorterValid(o, c);
    FewSlashes(Shorter(o), c);
    TextLength(Shorter(o), c);
    hide Valid;
    if part == Schema {
      assert o.slashes == 0 && o.server == [] && InFront(o);
    } else {
      SameLead(o, Shorter(o), c);
      hide Lead;
    }
  }

  lemma SameLead(o: Outer, o': Outer, c: bool)
    requires o.slashes <= 3 && o'.slashes == o.slashes && o'.scheme == o.scheme
    ensures Lead(o', c) == Lead(o, c)
  {}

  lemma TextLength(o: Outer, c: bool)
    requires o.slashes <= 3
    ensures |OuterText(o, c)| == |Lead(o, c)| + |o.server| + |o.path| + |Mark(o)| + |o.query| + o.hashes + |o.fragment|
  {
    hide Lead, Mark;
  }

  /** The last character goes to the end of the last part, or is a delimiter. */
  lemma LastPart(o: Outer, c: bool)
    requires Valid(o, c) && o != Unread(c)
    ensures Shorter(o).slashes <= 3
    ensures var o', n := Shorter(o), |OuterText(Shorter(o), c)|;
            var part := PartOf(StateOf(o));
            if part.None? then OuterFields(o, c) == OuterFields(o', c)
            else if part.value in OuterFields(o', c) then
              var r := OuterFields(o', c)[part.value];
              r.off + r.len == n && OuterFields(o, c) == OuterFields(o', c)[part.value := Range(r.off, r.len + 1)]
            else OuterFields(o, c) == OuterFields(o', c)[part.value := Range(n, 1)]
  {
    FewSlashes(o, c);
    ShorterValid(o, c);
    FewSlashes(Shorter(o), c);
    hide Valid, Shorter, StateOf, PartOf, OuterPart, OuterStart, OuterText;
    forall part: Part | PartOf(StateOf(o)) != Some(part)
      ensures OuterPart(o, part) == OuterPart(Shorter(o), part)
      ensures OuterPart(o, part) != [] ==> OuterStart(o, c, part) == OuterStart(Shorter(o), c, part)
    {
      KeptPart(o, c, part);
    }
    var k := PartOf(StateOf(o));
    if k.Some? { GrownPart(o, c, k.value); }
    GrownFields(o, Shorter(o), c, k, |OuterText(Shorter(o), c)|);
  }

  lemma GrownFields(o: Outer, o': Outer, c: bool, k: Option<Part>, n: nat)
    requires o.slashes <= 3 && o'.slashes <= 3
    requires forall part: Part :: k != Some(part) ==> OuterPart(o, part) == OuterPart(o', part)
    requires forall part: Part ::
        k != Some(part) && OuterPart(o, part) != [] ==> OuterStart(o, c, part) == OuterStart(o', c, part)
    requires k.Some? ==>
               && |OuterPart(o, k.value)| == |OuterPart(o', k.value)| + 1
               && OuterStart(o, c, k.value) == OuterStart(o', c, k.value)
               && OuterStart(o, c, k.value) + |OuterPart(o', k.value)| == n
    ensures var m, m' := OuterFields(o, c), OuterFields(o', c);
            if k.None? then m == m'
            else if k.value in m' then
              m'[k.value].off + m'[k.value].len == n
              && m == m'[k.value := Range(m'[k.value].off, m'[k.value].len + 1)]
            else m == m'[k.value := Range(n, 1)]
  {
    hide OuterPart, OuterStart;
    var m, m' := OuterFields(o, c), OuterFields(o', c);
    if k.Some? {
      var r := Range(OuterStart(o, c, k.value), |OuterPart(o, k.value)|);
      assert m == m'[k.value := r];
    }
  }

  lemma FewSlashes(o: Outer, c: bool)
    requires Valid(o, c)
    ensures o.slashes <= 3
  {}

  lemma UnreadIsNothing(c: bool)
    ensures Valid(Unread(c), c) && OuterText(Unread(c), c) == [] && StateOf(Unread(c)) == Start(c)
    ensures OuterFields(Unread(c), c) == map[]
  {
    NothingIsValid();
    hide IsScheme, IsServer, IsPath, IsQuery, IsFragment;
    NothingIsText(c);
    hide OuterText;
    NoFields(c);
    hide OuterFields;
  }

  lemma NothingIsValid()
    ensures IsScheme([]) && IsServer([]) && IsPath([]) && IsQuery([]) && IsFragment([])
  {}

  lemma NothingIsText(c: bool)
    ensures Unread(c).slashes <= 3 && OuterText(Unread(c), c) == []
  {
    assert Lead(Unread(c), c) == [] && Hashes(0) == [];
  }

  lemma NoFields(c: bool)
    ensures Unread(c).slashes <= 3 && OuterFields(Unread(c), c) == map[]
  {
    hide OuterStart;
    assert forall part: Part :: OuterPart(Unread(c), part) == [];
  }

  /** After such a text the states, the fields and the sign of user information are those of its parts. */
  lemma {:induction false} OuterScanned(o: Outer, c: bool, text: seq<Byte>)
    requires Valid(o, c) && OuterText(o, c) <= text
    ensures var n := |OuterText(o, c)|;
            && StateAfter(Start(c), text, n) == StateOf(o)
            && Covers(OuterFields(o, c), UrlClass(Start(c), text), 0, n)
            && (SeenAt(Start(c), text, n) <==> '@' in o.server)
    decreases |OuterText(o, c)|
  {
    hide Valid, OuterText, OuterFields, StateOf, Shorter, Covers, UrlClass, PartOf, SeenAt, ParseUrlChar;
    FewSlashes(o, c);
    if o == Unread(c) {
      UnreadIsNothing(c);
      NoneCovered(Start(c), text);
    } else {
      var o', n := Shorter(o), |OuterText(o, c)|;
      ShorterValid(o, c);
      FewSlashes(o', c);
      ShorterText(o, c);
      ShorterState(o, c);
      OuterScanned(o', c, text);
      assert text[n - 1] == Last(o);
      LastPart(o, c);
      CoverLast(OuterFields(o', c), Start(c), text, n - 1, StateOf(o));
      SeenStep(Start(c), text, n - 1);
      SeenLast(o, c);
    }
  }

  lemma NoneCovered(s0: UrlState, text: seq<Byte>)
    ensures Covers(map[], UrlClass(s0, text), 0, 0) && !SeenAt(s0, text, 0)
  {}

  /** One more byte is covered. */
  lemma CoverLast(fields: map<Part, Range>, s0: UrlState, text: seq<Byte>, n: nat, s: UrlState)
    requires n < |text| && Covers(fields, UrlClass(s0, text), 0, n) && StateAfter(s0, text, n + 1) == s
    ensures var cls, part := UrlClass(s0, text), PartOf(s);
            && (part.None? ==> Covers(fields, cls, 0, n + 1))
            && (part.Some? && part.value !in fields ==> Covers(fields[part.value := Range(n, 1)], cls, 0, n + 1))
            && (part.Some? && part.value in fields && fields[part.value].off + fields[part.value].len == n ==>
                Covers(fields[part.value := Range(fields[part.value].off, fields[part.value].len + 1)], cls, 0, n + 1))
  {
    hide Covers, StateAfter, PartOf;
    var cls, part := UrlClass(s0, text), PartOf(s);
    assert cls(n) == part;
    if part.None? {
      CoverSkip(fields, cls, 0, n);
    } else if part.value !in fields {
      CoverFirst(fields, cls, 0, n, part.value);
    } else if fields[part.value].off + fields[part.value].len == n {
      CoverMore(fields, cls, 0, n, part.value);
    }
  }

  lemma SeenLast(o: Outer, c: bool)
    requires Valid(o, c) && o != Unread(c)
    ensures '@' in o.server <==> '@' in Shorter(o).server || StateOf(o) == ServerWithAt
  {
    hide IsScheme, IsServer, IsPath, IsQuery, IsFragment;
    if o.server != [] && Shorter(o).server != o.server {
      assert o.server == Shorter(o).server + [o.server[|o.server| - 1]];
    }
  }

  // Conversely: any text that keeps the splitter going is read so

  /** With one more character */
  function Longer(o: Outer, ch: Byte): Outer {
    match StateOf(o)
    case SpacesBeforeUrl =>
      if ch == '/' || ch == '*' then o.(path := [ch]) else o.(scheme := [ch])
    case InSchema => if ch == ':' then o.(slashes := 1) else o.(scheme := o.scheme + [ch])
    case SchemaSlash => o.(slashes := 2)
    case SchemaSlashSlash => o.(slashes := 3)
    case InPath =>
      if ch == '?' then o.(mark := true) else if ch == '#' then o.(hashes := 1) else o.(path := o.path + [ch])
    case QueryStringStart => if ch == '#' then o.(hashes := 1) else o.(query := [ch])
    case QueryString => if ch == '#' then o.(hashes := 1) else o.(query := o.query + [ch])
    case FragmentStart => if ch == '#' then o.(hashes := o.hashes + 1) else o.(fragment := [ch])
    case InFragment => o.(fragment := o.fragment + [ch])
    case _ =>
      if ch == '/' then o.(path := [ch]) else if ch == '?' then o.(mark := true) else o.(server := o.server + [ch])
  }

  lemma LongerValid(o: Outer, c: bool, ch: Byte)
    requires Valid(o, c) && ParseUrlChar(StateOf(o), ch) != UrlDead
    ensures Valid(Longer(o, ch), c) && Longer(o, ch) != Unread(c)
  {
    if InFront(o) {
      LongerFront(o, c, ch);
    } else {
      LongerBack(o, c, ch);
    }
  }

  lemma LongerBack(o: Outer, c: bool, ch: Byte)
    requires Valid(o, c) && ParseUrlChar(StateOf(o), ch) != UrlDead && !InFront(o)
    ensures Valid(Longer(o, ch), c) && Longer(o, ch) != Unread(c)
  {
    if o.fragment != [] || o.hashes > 0 {
      LongerFragment(o, c, ch);
    } else if o.mark {
      LongerQuery(o, c, ch);
    } else {
      LongerPath(o, c, ch);
    }
  }

  lemma LongerFragment(o: Outer, c: bool, ch: Byte)
    requires Valid(o, c) && ParseUrlChar(StateOf(o), ch) != UrlDead && (o.fragment != [] || o.hashes > 0)
    ensures Valid(Longer(o, ch), c) && Longer(o, ch) != Unread(c)
  {
    hide Visible, IsUrlChar, IsAlpha, ServerChar, QueryChar;
    UrlCharIsVisible(ch);
    VisibleMarks();
    OneMore([], ch);
    OneMore(o.fragment, ch);
    hide IsScheme, IsServer, IsPath, IsQuery, IsFragment;
  }

  lemma LongerQuery(o: Outer, c: bool, ch: Byte)
    requires Valid(o, c) && ParseUrlChar(StateOf(o), ch) != UrlDead && o.mark && o.hashes == 0
    ensures Valid(Longer(o, ch), c) && Longer(o, ch) != Unread(c)
  {
    hide Visible, IsUrlChar, IsAlpha, ServerChar;
    UrlCharIsVisible(ch);
    VisibleMarks();
    OneMore([], ch);
    OneMore(o.query, ch);
    hide IsScheme, IsServer, IsPath, IsQuery, IsFragment;
  }

  lemma LongerPath(o: Outer, c: bool, ch: Byte)
    requires Valid(o, c) && ParseUrlChar(StateOf(o), ch) != UrlDead && o.path != [] && !o.mark && o.hashes == 0
    ensures Valid(Longer(o, ch), c) && Longer(o, ch) != Unread(c)
  {
    hide Visible, IsUrlChar, IsAlpha, ServerChar, QueryChar;
    UrlCharIsVisible(ch);
    OneMore(o.path, ch);
    hide IsScheme, IsServer, IsPath, IsQuery, IsFragment;
  }

  lemma LongerFront(o: Outer, c: bool, ch: Byte)
    requires Valid(o, c) && ParseUrlChar(StateOf(o), ch) != UrlDead && InFront(o)
    ensures Valid(Longer(o, ch), c) && Longer(o, ch) != Unread(c)
  {
    if o.slashes == 3 {
      LongerServer(o, c, ch);
    } else {
      LongerScheme(o, c, ch);
    }
  }

  lemma LongerServer(o: Outer, c: bool, ch: Byte)
    requires Valid(o, c) && ParseUrlChar(StateOf(o), ch) != UrlDead && InFront(o) && o.slashes == 3
    ensures Valid(Longer(o, ch), c) && Longer(o, ch) != Unread(c)
  {
    hide Visible, UserChar, ServerByte, IsUserInfoChar, IsUrlChar, IsAlpha, QueryChar;
    UserCharIs(ch);
    VisibleMarks();
    OneMore([], ch);
    OneMoreServer(o.server, ch);
    IsServerByte(ch);
    hide IsScheme, IsServer, IsPath, IsQuery, IsFragment;
  }

  lemma LongerScheme(o: Outer, c: bool, ch: Byte)
    requires Valid(o, c) && ParseUrlChar(StateOf(o), ch) != UrlDead && InFront(o) && o.slashes < 3
    ensures Valid(Longer(o, ch), c) && Longer(o, ch) != Unread(c)
  {
    hide Visible, IsLetter, IsUrlChar, IsAlpha, QueryChar, ServerChar;
    Characters(ch);
    VisibleMarks();
    OneMore(o.scheme, ch);
    OneMore([], ch);
    hide IsScheme, IsServer, IsPath, IsQuery, IsFragment;
  }

  lemma IsServerByte(ch: Byte)
    ensures ServerByte(ch) <==> UserChar(ch) || ch == '[' || ch == ']' || ch == '@'
  {
    hide UserChar;
  }

  lemma OneMore(s: seq<Byte>, ch: Byte)
    ensures IsScheme(s + [ch]) <==> IsScheme(s) && IsLetter(ch)
    ensures IsPath(s + [ch]) <==> IsPath(s) && Visible(ch) && ch != '?' && ch != '#'
    ensures IsQuery(s + [ch]) <==> IsQuery(s) && Visible(ch) && ch != '#'
    ensures IsFragment(s + [ch]) <==> IsFragment(s) && Visible(ch)
    ensures [] + [ch] == [ch] && IsScheme([]) && IsPath([]) && IsQuery([]) && IsFragment([])
  {
    hide Visible, IsLetter;
    var t := s + [ch];
    assert t[|s|] == ch && t[..|s|] == s;
    assert forall i :: 0 <= i < |s| ==> t[i] == s[i];
  }

  lemma OneMoreServer(s: seq<Byte>, ch: Byte)
    ensures IsServer(s + [ch]) <==> IsServer(s) && ServerByte(ch) && !(s != [] && s[|s| - 1] == '@' && ch == '@')
  {
    hide ServerByte;
    var t := s + [ch];
    assert t[|s|] == ch && forall i :: 0 <= i < |s| ==> t[i] == s[i];
    if s != [] { assert t[|s| - 1] == s[|s| - 1]; }
    if IsServer(t) {
      forall i | 0 <= i < |s|
        ensures ServerByte(s[i]) && (i < |s| - 1 ==> !(s[i] == '@' && s[i + 1] == '@'))
      {
        assert t[i] == s[i];
        if i < |s| - 1 { assert t[i + 1] == s[i + 1]; }
      }
    }
  }

  lemma VisibleMarks()
    ensures Visible('?') && Visible('/') && Visible('*') && Visible('#')
  {}

  lemma LongerShorter(o: Outer, c: bool, ch: Byte)
    requires Valid(o, c) && ParseUrlChar(StateOf(o), ch) != UrlDead
    ensures Shorter(Longer(o, ch)) == o && Longer(o, ch).slashes <= 3 && Last(Longer(o, ch)) == ch
  {
    hide Visible, IsLetter, UserChar, IsUserInfoChar, IsUrlChar, Shorter, Last;
    hide IsScheme, IsServer, IsPath, IsQuery, IsFragment;
    NothingBefore(ch);
    if InFront(o) {
      hide QueryChar;
      GrownFront(o, ch);
      if o.server == [] && o.slashes == 3 { GrownBack(o, ch); }
      if o.server != [] { GrownBack(o, ch); }
    } else {
      hide ServerChar, IsAlpha;
      GrownBack(o, ch);
      if o.fragment == [] && o.hashes == 0 && o.query == [] && !o.mark { GrownFront(o, ch); }
    }
  }

  lemma NothingBefore(ch: Byte)
    ensures [] + [ch] == [ch]
  {}

  lemma GrownBack(o: Outer, ch: Byte)
    requires o.slashes <= 3
    ensures var o' := o.(fragment := o.fragment + [ch]); Shorter(o') == o && Last(o') == ch
    ensures o.fragment == [] ==> var o' := o.(hashes := o.hashes + 1); Shorter(o') == o && Last(o') == '#'
    ensures o.fragment == [] && o.hashes == 0 ==>
              var o' := o.(query := o.query + [ch]); Shorter(o') == o && Last(o') == ch
    ensures o.fragment == [] && o.hashes == 0 && o.query == [] && !o.mark ==>
              var o' := o.(mark := true); Shorter(o') == o && Last(o') == '?'
  {
    DropLast(o.fragment, ch);
    DropLast(o.query, ch);
  }

  lemma GrownFront(o: Outer, ch: Byte)
    requires o.slashes <= 3
    ensures o.fragment == [] && o.hashes == 0 && o.query == [] && !o.mark ==>
              var o' := o.(path := o.path + [ch]); Shorter(o') == o && Last(o') == ch
    ensures InFront(o) ==> var o' := o.(server := o.server + [ch]); Shorter(o') == o && Last(o') == ch
    ensures InFront(o) && o.server == [] && o.slashes < 3 ==>
              var o' := o.(slashes := o.slashes + 1); Shorter(o') == o && Last(o') == "://"[o.slashes]
    ensures InFront(o) && o.server == [] && o.slashes == 0 ==>
              var o' := o.(scheme := o.scheme + [ch]); Shorter(o') == o && Last(o') == ch
  {
    DropLast(o.path, ch);
    DropLast(o.server, ch);
    DropLast(o.scheme, ch);
  }

  lemma DropLast(s: seq<Byte>, ch: Byte)
    ensures (s + [ch])[..|s + [ch]| - 1] == s && (s + [ch])[|s + [ch]| - 1] == ch
    ensures s + [ch] != []
  {}

  lemma {:induction false} ScannedOuter(c: bool, text: seq<Byte>, n: nat) returns (o: Outer)
    requires n <= |text| && StateAfter(Start(c), text, n) != UrlDead
    ensures Valid(o, c) && OuterText(o, c) == text[..n] && StateOf(o) == StateAfter(Start(c), text, n)
    decreases n
  {
    hide Valid, OuterText, StateOf, Shorter, Longer, ParseUrlChar, Last;
    if n == 0 {
      o := Unread(c);
      UnreadIsNothing(c);
      FewSlashes(o, c);
    } else {
      if StateAfter(Start(c), text, n - 1) == UrlDead { DeadStays(Start(c), text, n - 1, n); }
      var o' := ScannedOuter(c, text, n - 1);
      var ch := text[n - 1];
      FewSlashes(o', c);
      o := Longer(o', ch);
      LongerValid(o', c, ch);
      LongerShorter(o', c, ch);
      ShorterText(o, c);
      ShorterState(o, c);
      assert text[..n] == text[..n - 1] + [ch];
    }
  }
}
