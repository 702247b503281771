/** The states of http_parser's URL splitter, and the field that each state puts a byte into. */
module UrlStates {
  import opened Bytes
  import opened HttpParser

  /** enum http_parser_url_fields */
  datatype Part = Schema | Host | Port | Path | Query | Fragment | UserInfo

  /** An element of field_data. Both numbers are stored in 16 bits. */
  datatype Range = Range(off: nat, len: nat)

  const UINT16: nat := 0x1_0000

  function Stored(r: Range): Range {
    Range(r.off % UINT16, r.len % UINT16)
  }

  /** The states of parse_url_char, without s_req_. */
  datatype UrlState =
    | UrlDead | SpacesBeforeUrl | InSchema | SchemaSlash | SchemaSlashSlash | ServerStart | Server | ServerWithAt
    | InPath | QueryStringStart | QueryString | FragmentStart | InFragment

  // Characters

  predicate IsAlpha(c: Byte) {
    'a' <= Lower(c) <= 'z'
  }

  predicate IsHexDigit(c: Byte) {
    IsNum(c) || 'a' <= Lower(c) <= 'f'
  }

  predicate IsUserInfoChar(c: Byte) {
    || IsAlpha(c) || IsNum(c)
    || c in {'-', '_', '.', '!', '~', '*', '\'', '(', ')', '%', ';', ':', '&', '=', '+', '$', ','}
  }

  /** IS_URL_CHAR in strict mode: the bits of normal_url_char. */
  predicate IsUrlChar(c: Byte) {
    33 <= c as int <= 126 && c != '#' && c != '?'
  }

  predicate IsHostChar(c: Byte) {
    IsAlpha(c) || IsNum(c) || c == '.' || c == '-'
  }

  /** parse_url_char */
  function ParseUrlChar(s: UrlState, ch: Byte): UrlState {
    if ch == ' ' || ch == '\r' || ch == '\n' || ch == '\t' || ch == '\U{c}' then UrlDead
    else
      match s
      case SpacesBeforeUrl => if ch == '/' || ch == '*' then InPath else if IsAlpha(ch) then InSchema else UrlDead
      case InSchema => if IsAlpha(ch) then InSchema else if ch == ':' then SchemaSlash else UrlDead
      case SchemaSlash => if ch == '/' then SchemaSlashSlash else UrlDead
      case SchemaSlashSlash => if ch == '/' then ServerStart else UrlDead
      case ServerWithAt => if ch == '@' then UrlDead else ServerChar(ch)
      case ServerStart => ServerChar(ch)
      case Server => ServerChar(ch)
      case InPath =>
        if IsUrlChar(ch) then InPath
        else if ch == '?' then QueryStringStart
        else if ch == '#' then FragmentStart
        else UrlDead
      case QueryStringStart => QueryChar(ch)
      case QueryString => QueryChar(ch)
      case FragmentStart =>
        if IsUrlChar(ch) || ch == '?' then InFragment else if ch == '#' then FragmentStart else UrlDead
      case InFragment => if IsUrlChar(ch) || ch == '?' || ch == '#' then InFragment else UrlDead
      case UrlDead => UrlDead
  }

  function ServerChar(ch: Byte): UrlState {
    if ch == '/' then InPath
    else if ch == '?' then QueryStringStart
    else if ch == '@' then ServerWithAt
    else if IsUserInfoChar(ch) || ch == '[' || ch == ']' then Server
    else UrlDead
  }

  function QueryChar(ch: Byte): UrlState {
    if IsUrlChar(ch) || ch == '?' then QueryString else if ch == '#' then FragmentStart else UrlDead
  }

  /** The state after p bytes. */
  function StateAfter(s0: UrlState, text: seq<Byte>, p: nat): UrlState
    requires p <= |text|
  {
    if p == 0 then s0 else ParseUrlChar(StateAfter(s0, text, p - 1), text[p - 1])
  }

  /** The field that a byte belongs to which leads to this state; delimiters belong to none. */
  function PartOf(s: UrlState): Option<Part> {
    match s
    case InSchema => Some(Schema)
    case Server => Some(Host)
    case ServerWithAt => Some(Host)
    case InPath => Some(Path)
    case QueryString => Some(Query)
    case InFragment => Some(Fragment)
    case _ => None
  }

  /** The states of http_parse_host_char, without s_http_. */
  datatype HostState =
    | HostDead | UserInfoStart | InUserInfo | HostStart | HostV6Start | InHost | HostV6 | HostV6End
    | HostV6ZoneStart | HostV6Zone | HostPortStart | HostPort

  /** http_parse_host_char */
  function ParseHostChar(s: HostState, ch: Byte): HostState {
    match s
    case UserInfoStart => UserInfoChar(ch)
    case InUserInfo => UserInfoChar(ch)
    case HostStart => if ch == '[' then HostV6Start else if IsHostChar(ch) then InHost else HostDead
    case InHost => if IsHostChar(ch) then InHost else if ch == ':' then HostPortStart else HostDead
    case HostV6End => if ch == ':' then HostPortStart else HostDead
    case HostV6 =>
      if ch == ']' then HostV6End
      else if IsHexDigit(ch) || ch == ':' || ch == '.' then HostV6
      else if ch == '%' then HostV6ZoneStart
      else HostDead
    case HostV6Start => if IsHexDigit(ch) || ch == ':' || ch == '.' then HostV6 else HostDead
    case HostV6Zone => if ch == ']' then HostV6End else ZoneChar(ch)
    case HostV6ZoneStart => ZoneChar(ch)
    case HostPort => if IsNum(ch) then HostPort else HostDead
    case HostPortStart => if IsNum(ch) then HostPort else HostDead
    case HostDead => HostDead
  }

  function UserInfoChar(ch: Byte): HostState {
    if ch == '@' then HostStart else if IsUserInfoChar(ch) then InUserInfo else HostDead
  }

  function ZoneChar(ch: Byte): HostState {
    if IsAlpha(ch) || IsNum(ch) || ch in {'%', '.', '-', '_', '~'} then HostV6Zone else HostDead
  }

  /** The state after the bytes of the server part from lo up to p. */
  function HostAfter(h0: HostState, text: seq<Byte>, lo: nat, p: nat): HostState
    requires lo <= p <= |text|
  {
    if p == lo then h0 else ParseHostChar(HostAfter(h0, text, lo, p - 1), text[p - 1])
  }

  function HostPartOf(s: HostState): Option<Part> {
    match s
    case InUserInfo => Some(UserInfo)
    case InHost => Some(Host)
    case HostV6 => Some(Host)
    case HostV6ZoneStart => Some(Host)
    case HostV6Zone => Some(Host)
    case HostPort => Some(Port)
    case _ => None
  }

  /** The states a server part may end in. */
  predicate HostEnds(s: HostState) {
    s.InHost? || s.HostV6End? || s.HostPort?
  }

  // Fields in order

  /** Where a field stands in a URL. */
  function Order(part: Part): nat {
    match part
    case Schema => 0
    case UserInfo => 1
    case Host => 2
    case Port => 3
    case Path => 4
    case Query => 5
    case Fragment => 6
  }

  /** The fields are exactly the bytes of text[lo..n] that belong to them. */
  ghost predicate Covers(fields: map<Part, Range>, cls: int -> Option<Part>, lo: nat, n: nat) {
    && (forall part :: part in fields ==>
          fields[part].len > 0 && lo <= fields[part].off && fields[part].off + fields[part].len <= n)
    && forall part, q: int :: lo <= q < n ==>
         (cls(q) == Some(part) <==> part in fields && fields[part].off <= q < fields[part].off + fields[part].len)
  }

  /** Bytes of later fields come later, and a field, once left, is not entered again. */
  ghost predicate Rising(cls: int -> Option<Part>, lo: nat, n: nat) {
    && (forall q: int, r: int ::
          lo <= q <= r < n && cls(q).Some? && cls(r).Some? ==> Order(cls(q).value) <= Order(cls(r).value))
    && forall q: int, m: int, r: int :: lo <= q <= m <= r < n && cls(q).Some? && cls(r) == cls(q) ==> cls(m) == cls(q)
  }

  lemma OrderInjective(a: Part, b: Part)
    ensures Order(a) == Order(b) <==> a == b
  {}

  /** One more byte, of no field; of the field of the byte before; or the first one of a field. */
  lemma CoverSkip(fields: map<Part, Range>, cls: int -> Option<Part>, lo: nat, n: nat)
    requires Covers(fields, cls, lo, n) && lo <= n && cls(n) == None
    ensures Covers(fields, cls, lo, n + 1)
  {}

  lemma CoverMore(fields: map<Part, Range>, cls: int -> Option<Part>, lo: nat, n: nat, part: Part)
    requires Covers(fields, cls, lo, n) && lo <= n && cls(n) == Some(part) && part in fields
             && fields[part].off + fields[part].len == n
    ensures Covers(fields[part := Range(fields[part].off, fields[part].len + 1)], cls, lo, n + 1)
  {}

  lemma CoverFirst(fields: map<Part, Range>, cls: int -> Option<Part>, lo: nat, n: nat, part: Part)
    requires Covers(fields, cls, lo, n) && lo <= n && cls(n) == Some(part) && part !in fields
    ensures Covers(fields[part := Range(n, 1)], cls, lo, n + 1)
  {}

  /** Fields that cover rising bytes are in order. */
  lemma InOrder(fields: map<Part, Range>, cls: int -> Option<Part>, lo: nat, n: nat, a: Part, b: Part)
    requires Covers(fields, cls, lo, n) && Rising(cls, lo, n) && a in fields && b in fields && Order(a) < Order(b)
    ensures fields[a].off + fields[a].len <= fields[b].off
  {
    var q, r := fields[a].off + fields[a].len - 1, fields[b].off;
    assert cls(q) == Some(a) && cls(r) == Some(b);
  }

  /** The field of the last byte ends there. */
  lemma LastField(fields: map<Part, Range>, cls: int -> Option<Part>, lo: nat, n: nat, top: nat, part: Part)
    requires Covers(fields, cls, lo, n) && Rising(cls, lo, top) && lo <= n < top && cls(n) == Some(part)
             && part in fields
    ensures fields[part].off + fields[part].len == n && n > lo && cls(n - 1) == Some(part)
  {
    var q := fields[part].off;
    assert cls(q) == Some(part);
    assert cls(n - 1) == Some(part);
  }

  // The states rise

  function Rank(s: UrlState): nat {
    match s
    case SpacesBeforeUrl => 0
    case InSchema => 1
    case SchemaSlash => 2
    case SchemaSlashSlash => 3
    case ServerStart => 4
    case Server => 5
    case ServerWithAt => 5
    case InPath => 6
    case QueryStringStart => 7
    case QueryString => 8
    case FragmentStart => 9
    case InFragment => 10
    case UrlDead => 11
  }

  lemma RankStep(s: UrlState, ch: Byte)
    ensures Rank(s) <= Rank(ParseUrlChar(s, ch))
  {
    hide IsUserInfoChar, IsUrlChar, IsAlpha;
  }

  lemma {:induction false} RankRises(s0: UrlState, text: seq<Byte>, p: nat, q: nat)
    requires p <= q <= |text|
    ensures Rank(StateAfter(s0, text, p)) <= Rank(StateAfter(s0, text, q))
    decreases q
  {
    hide Rank, ParseUrlChar;
    if p < q {
      RankRises(s0, text, p, q - 1);
      RankStep(StateAfter(s0, text, q - 1), text[q - 1]);
    }
  }

  /** The field of each byte. */
  function UrlClass(s0: UrlState, text: seq<Byte>): int -> Option<Part> {
    q => if 0 <= q < |text| then PartOf(StateAfter(s0, text, q + 1)) else None
  }

  lemma RankOfParts(s: UrlState, t: UrlState)
    requires Rank(s) <= Rank(t) && PartOf(s).Some?
    ensures PartOf(t).Some? ==> Order(PartOf(s).value) <= Order(PartOf(t).value)
    ensures PartOf(t) == PartOf(s) <==> Rank(t) == Rank(s)
  {}

  lemma TwoBytes(s0: UrlState, text: seq<Byte>, q: nat, r: nat)
    requires q <= r < |text|
    ensures var cls := UrlClass(s0, text);
            cls(q).Some? ==>
              (cls(r).Some? ==> Order(cls(q).value) <= Order(cls(r).value))
              && (cls(r) == cls(q) <==> Rank(StateAfter(s0, text, r + 1)) == Rank(StateAfter(s0, text, q + 1)))
  {
    hide PartOf, Rank, Order, StateAfter;
    RankRises(s0, text, q + 1, r + 1);
    if PartOf(StateAfter(s0, text, q + 1)).Some? {
      RankOfParts(StateAfter(s0, text, q + 1), StateAfter(s0, text, r + 1));
    }
  }

  lemma ThreeBytes(s0: UrlState, text: seq<Byte>, q: nat, m: nat, r: nat)
    requires q <= m <= r < |text|
    ensures var cls := UrlClass(s0, text); cls(q).Some? && cls(r) == cls(q) ==> cls(m) == cls(q)
  {
    hide PartOf, Rank, Order, StateAfter;
    TwoBytes(s0, text, q, r);
    TwoBytes(s0, text, q, m);
    RankRises(s0, text, q + 1, m + 1);
    RankRises(s0, text, m + 1, r + 1);
  }

  lemma UrlRises(s0: UrlState, text: seq<Byte>)
    ensures Rising(UrlClass(s0, text), 0, |text|)
  {
    hide UrlClass, Order, StateAfter;
    var cls := UrlClass(s0, text);
    forall q: int, r: int | 0 <= q <= r < |text| && cls(q).Some? && cls(r).Some?
      ensures Order(cls(q).value) <= Order(cls(r).value)
    {
      TwoBytes(s0, text, q, r);
    }
    forall q: int, m: int, r: int | 0 <= q <= m <= r < |text| && cls(q).Some? && cls(r) == cls(q)
      ensures cls(m) == cls(q)
    {
      ThreeBytes(s0, text, q, m, r);
    }
  }

  function HostRank(s: HostState): nat {
    match s
    case UserInfoStart => 0
    case InUserInfo => 1
    case HostStart => 2
    case HostV6Start => 3
    case InHost => 4
    case HostV6 => 4
    case HostV6ZoneStart => 4
    case HostV6Zone => 4
    case HostV6End => 5
    case HostPortStart => 6
    case HostPort => 7
    case HostDead => 8
  }

  lemma HostRankStep(s: HostState, ch: Byte)
    ensures HostRank(s) <= HostRank(ParseHostChar(s, ch))
  {
    hide IsUserInfoChar, IsHostChar, IsAlpha, IsHexDigit;
  }

  lemma {:induction false} HostRankRises(h0: HostState, text: seq<Byte>, lo: nat, p: nat, q: nat)
    requires lo <= p <= q <= |text|
    ensures HostRank(HostAfter(h0, text, lo, p)) <= HostRank(HostAfter(h0, text, lo, q))
    decreases q
  {
    hide HostRank, ParseHostChar;
    if p < q {
      HostRankRises(h0, text, lo, p, q - 1);
      HostRankStep(HostAfter(h0, text, lo, q - 1), text[q - 1]);
    }
  }

  function HostClass(h0: HostState, text: seq<Byte>, lo: nat): int -> Option<Part>
    requires lo <= |text|
  {
    q => if lo <= q < |text| then HostPartOf(HostAfter(h0, text, lo, q + 1)) else None
  }

  lemma HostRankOfParts(s: HostState, t: HostState)
    requires HostRank(s) <= HostRank(t) && HostPartOf(s).Some?
    ensures HostPartOf(t).Some? ==> Order(HostPartOf(s).value) <= Order(HostPartOf(t).value)
    ensures HostPartOf(t) == HostPartOf(s) <==> HostRank(t) == HostRank(s)
  {}

  lemma TwoHostBytes(h0: HostState, text: seq<Byte>, lo: nat, q: nat, r: nat)
    requires lo <= q <= r < |text|
    ensures var cls := HostClass(h0, text, lo);
            cls(q).Some? ==>
              (cls(r).Some? ==> Order(cls(q).value) <= Order(cls(r).value))
              && (cls(r) == cls(q) <==>
                  HostRank(HostAfter(h0, text, lo, r + 1)) == HostRank(HostAfter(h0, text, lo, q + 1)))
  {
    hide HostPartOf, HostRank, Order, HostAfter;
    HostRankRises(h0, text, lo, q + 1, r + 1);
    if HostPartOf(HostAfter(h0, text, lo, q + 1)).Some? {
      HostRankOfParts(HostAfter(h0, text, lo, q + 1), HostAfter(h0, text, lo, r + 1));
    }
  }

  lemma ThreeHostBytes(h0: HostState, text: seq<Byte>, lo: nat, q: nat, m: nat, r: nat)
    requires lo <= q <= m <= r < |text|
    ensures var cls := HostClass(h0, text, lo); cls(q).Some? && cls(r) == cls(q) ==> cls(m) == cls(q)
  {
    hide HostPartOf, HostRank, Order, HostAfter;
    TwoHostBytes(h0, text, lo, q, r);
    TwoHostBytes(h0, text, lo, q, m);
    HostRankRises(h0, text, lo, q + 1, m + 1);
    HostRankRises(h0, text, lo, m + 1, r + 1);
  }

  lemma HostRises(h0: HostState, text: seq<Byte>, lo: nat)
    requires lo <= |text|
    ensures Rising(HostClass(h0, text, lo), lo, |text|)
  {
    hide HostClass, Order, HostAfter;
    var cls := HostClass(h0, text, lo);
    forall q: int, r: int | lo <= q <= r < |text| && cls(q).Some? && cls(r).Some?
      ensures Order(cls(q).value) <= Order(cls(r).value)
    {
      TwoHostBytes(h0, text, lo, q, r);
    }
    forall q: int, m: int, r: int | lo <= q <= m <= r < |text| && cls(q).Some? && cls(r) == cls(q)
      ensures cls(m) == cls(q)
    {
      ThreeHostBytes(h0, text, lo, q, m, r);
    }
  }

  // What has been seen

  ghost predicate SeenAt(s0: UrlState, text: seq<Byte>, n: nat)
    requires n <= |text|
  {
    exists p :: 0 < p <= n && StateAfter(s0, text, p) == ServerWithAt
  }

  lemma SeenStep(s0: UrlState, text: seq<Byte>, p: nat)
    requires p < |text|
    ensures SeenAt(s0, text, p + 1) <==> SeenAt(s0, text, p) || StateAfter(s0, text, p + 1) == ServerWithAt
  {
    hide StateAfter;
    if SeenAt(s0, text, p) {
      var q :| 0 < q <= p && StateAfter(s0, text, q) == ServerWithAt;
    }
  }

  lemma {:induction false} DeadStays(s0: UrlState, text: seq<Byte>, p: nat, q: nat)
    requires p <= q <= |text| && StateAfter(s0, text, p) == UrlDead
    ensures StateAfter(s0, text, q) == UrlDead
    decreases q
  {
    if p < q {
      DeadStays(s0, text, p, q - 1);
    }
  }

  lemma ClassAt(h0: HostState, text: seq<Byte>, lo: nat, p: nat)
    requires lo <= p < |text|
    ensures HostClass(h0, text, lo)(p) == HostPartOf(HostAfter(h0, text, lo, p + 1))
  {}

  lemma {:induction false} HostDeadStays(h0: HostState, text: seq<Byte>, lo: nat, p: nat, q: nat)
    requires lo <= p <= q <= |text| && HostAfter(h0, text, lo, p) == HostDead
    ensures HostAfter(h0, text, lo, q) == HostDead
    decreases q
  {
    if p < q {
      HostDeadStays(h0, text, lo, p, q - 1);
    }
  }

  lemma NoHostFields(h0: HostState, text: seq<Byte>, lo: nat)
    requires lo <= |text|
    ensures Covers(map[], HostClass(h0, text, lo), lo, lo)
  {}
}
