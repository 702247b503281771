/** The syntax of URLs that http_parser takes, by their parts, and the fields of a URL joined from parts. */
module UrlSyntax {
  import opened Alphabets
  import opened Bytes
  import opened HttpParser
  import opened HttpChars
  import opened UrlStates

  // Characters

  const USER_MARKS := "-_.!~*'()%;:&=+$,"
  const ZONE_MARKS := "%.-_~"

  predicate NameChar(c: Byte) {
    IsLetter(c) || c in DIGITS || c == '.' || c == '-'
  }

  predicate UserChar(c: Byte) {
    IsLetter(c) || c in DIGITS || c in USER_MARKS
  }

  predicate AddressChar(c: Byte) {
    c in LOWER_HEX || c in UPPER_HEX || c == ':' || c == '.'
  }

  predicate ZoneMark(c: Byte) {
    IsLetter(c) || c in DIGITS || c in ZONE_MARKS
  }

  /** Printing characters, VCHAR of RFC 5234 */
  predicate Visible(c: Byte) {
    0x21 <= c as int <= 0x7E
  }

  predicate IsScheme(s: seq<Byte>) {
    forall i :: 0 <= i < |s| ==> IsLetter(s[i])
  }

  predicate IsUser(s: seq<Byte>) {
    forall i :: 0 <= i < |s| ==> UserChar(s[i])
  }

  predicate IsName(s: seq<Byte>) {
    forall i :: 0 <= i < |s| ==> NameChar(s[i])
  }

  predicate IsAddress(s: seq<Byte>) {
    forall i :: 0 <= i < |s| ==> AddressChar(s[i])
  }

  predicate IsZone(s: seq<Byte>) {
    forall i :: 0 <= i < |s| ==> ZoneMark(s[i])
  }

  predicate IsPort(s: seq<Byte>) {
    forall i :: 0 <= i < |s| ==> s[i] in DIGITS
  }

  /** No question mark and no number sign in a path, no number sign in a query, and any visible one in a fragment. */
  predicate IsPath(s: seq<Byte>) {
    forall i :: 0 <= i < |s| ==> Visible(s[i]) && s[i] != '?' && s[i] != '#'
  }

  predicate IsQuery(s: seq<Byte>) {
    forall i :: 0 <= i < |s| ==> Visible(s[i]) && s[i] != '#'
  }

  predicate IsFragment(s: seq<Byte>) {
    forall i :: 0 <= i < |s| ==> Visible(s[i])
  }

  // Parts

  /** A name, or an address in brackets with a zone or without */
  datatype HostName = Name(text: seq<Byte>) | Address(text: seq<Byte>, zone: Option<seq<Byte>>)

  /** [user@]host[:port] */
  datatype Authority = Authority(user: Option<seq<Byte>>, host: HostName, port: Option<seq<Byte>>)

  /** #fragment; further number signs in front of it do not count. */
  datatype Anchor = Anchor(extra: nat, text: seq<Byte>)

  /** scheme://authority/path?query#fragment */
  datatype Form = Form(scheme: Option<seq<Byte>>, authority: Option<Authority>, path: seq<Byte>,
                       query: Option<seq<Byte>>, anchor: Option<Anchor>)

  predicate ValidHost(h: HostName) {
    && h.text != []
    && match h
       case Name(t) => IsName(t)
       case Address(t, zone) => IsAddress(t) && (zone.Some? ==> zone.value != [] && IsZone(zone.value))
  }

  /** There is a host, and a port is not empty. */
  predicate ValidAuthority(a: Authority) {
    && (a.user.Some? ==> IsUser(a.user.value)) && ValidHost(a.host)
    && (a.port.Some? ==> a.port.value != [] && IsPort(a.port.value))
  }

  /**
   * An absolute URL has a scheme and an authority; a relative one neither of them, and begins with / or * unless it
   * is empty. Behind an authority a path begins with /, and a fragment needs a path or a question mark before it.
   */
  predicate ValidForm(f: Form) {
    && (f.scheme.Some? ==> f.scheme.value != [] && IsScheme(f.scheme.value))
    && (f.authority.Some? ==> ValidAuthority(f.authority.value))
    && IsPath(f.path) && (f.path != [] ==> f.path[0] == '/' || (f.authority.None? && f.path[0] == '*'))
    && (f.query.Some? ==> IsQuery(f.query.value) && (f.path != [] || f.authority.Some?))
    && (f.anchor.Some? ==>
          IsFragment(f.anchor.value.text) && (f.anchor.value.text != [] ==> f.anchor.value.text[0] != '#')
          && (f.path != [] || f.query.Some?))
  }

  /** For CONNECT only a host and a port; a question mark and number signs behind them are overlooked. */
  predicate Allowed(f: Form, isConnect: bool) {
    && ValidForm(f)
    && if isConnect then
         && f.scheme.None? && f.authority.Some? && f.authority.value.port.Some? && f.path == []
         && (f.authority.value.user.Some? ==> f.authority.value.user.value == [])
         && (f.query.Some? ==> f.query.value == []) && (f.anchor.Some? ==> f.anchor.value.text == [])
       else f.scheme.Some? == f.authority.Some?
  }

  // Text

  function HostText(h: HostName): seq<Byte> {
    match h
    case Name(t) => t
    case Address(t, zone) => "[" + HostField(h) + "]"
  }

  /** What counts as the host: without the brackets */
  function HostField(h: HostName): seq<Byte> {
    match h
    case Name(t) => t
    case Address(t, zone) => t + (if zone.Some? then "%" + zone.value else [])
  }

  function UserText(a: Authority): seq<Byte> {
    if a.user.Some? then a.user.value + "@" else []
  }

  function PortText(a: Authority): seq<Byte> {
    if a.port.Some? then ":" + a.port.value else []
  }

  function AuthorityText(a: Authority): seq<Byte> {
    UserText(a) + HostText(a.host) + PortText(a)
  }

  function Hashes(n: nat): seq<Byte> {
    seq(n, _ => '#')
  }

  function LeadText(f: Form): seq<Byte> {
    if f.scheme.Some? then f.scheme.value + "://" else []
  }

  function ServerText(f: Form): seq<Byte> {
    if f.authority.Some? then AuthorityText(f.authority.value) else []
  }

  function QueryText(f: Form): seq<Byte> {
    if f.query.Some? then "?" + f.query.value else []
  }

  function AnchorText(f: Form): seq<Byte> {
    if f.anchor.Some? then Hashes(f.anchor.value.extra + 1) + f.anchor.value.text else []
  }

  function FormText(f: Form): seq<Byte> {
    LeadText(f) + ServerText(f) + f.path + QueryText(f) + AnchorText(f)
  }

  // Fields

  function OrNone(o: Option<seq<Byte>>): seq<Byte> {
    if o.Some? then o.value else []
  }

  function PartText(f: Form, part: Part): seq<Byte> {
    match part
    case Schema => OrNone(f.scheme)
    case UserInfo => if f.authority.Some? then OrNone(f.authority.value.user) else []
    case Host => if f.authority.Some? then HostField(f.authority.value.host) else []
    case Port => if f.authority.Some? then OrNone(f.authority.value.port) else []
    case Path => f.path
    case Query => OrNone(f.query)
    case Fragment => if f.anchor.Some? then f.anchor.value.text else []
  }

  /** Where a part begins in the text. */
  function PartStart(f: Form, part: Part): nat {
    var server, path := |LeadText(f)|, |LeadText(f)| + |ServerText(f)|;
    match part
    case Schema => 0
    case UserInfo => server
    case Host =>
      if f.authority.None? then server
      else
        server + |UserText(f.authority.value)|
        + (if f.authority.value.host.Address? then 1 else 0)
    case Port => if f.authority.None? then server else path - |OrNone(f.authority.value.port)|
    case Path => path
    case Query => path + |f.path| + 1
    case Fragment =>
      path + |f.path| + |QueryText(f)| + (if f.anchor.Some? then f.anchor.value.extra + 1 else 0)
  }

  /** The fields of a URL: its parts that are not empty. */
  function FieldsOf(f: Form): map<Part, Range> {
    map part: Part | PartText(f, part) != [] :: Range(PartStart(f, part), |PartText(f, part)|)
  }

  /** A part stands in the text where it begins. */
  lemma PartsInPlace(f: Form, part: Part)
    requires PartText(f, part) != []
    ensures PartStart(f, part) + |PartText(f, part)| <= |FormText(f)|
    ensures FormText(f)[PartStart(f, part)..PartStart(f, part) + |PartText(f, part)|] == PartText(f, part)
  {
    hide FormText, LeadText, ServerText, QueryText, AnchorText;
    match part
    case Schema => SchemePart(f);
    case Path => PathPart(f);
    case Query => QueryPart(f);
    case Fragment => AnchorPart(f);
    case _ => ServerPart(f, part);
  }

  /** A piece in the middle of a text */
  lemma Slice(t: seq<Byte>, a: seq<Byte>, p: seq<Byte>, b: seq<Byte>)
    requires t == a + p + b
    ensures t[|a|..|a| + |p|] == p
  {}

  lemma SchemePart(f: Form)
    requires f.scheme.Some?
    ensures |f.scheme.value| <= |FormText(f)| && FormText(f)[..|f.scheme.value|] == f.scheme.value
  {
    hide ServerText, QueryText, AnchorText;
    assert FormText(f) == f.scheme.value + ("://" + (ServerText(f) + (f.path + (QueryText(f) + AnchorText(f)))));
  }

  lemma PathPart(f: Form)
    ensures var from := |LeadText(f)| + |ServerText(f)|;
            from + |f.path| <= |FormText(f)| && FormText(f)[from..from + |f.path|] == f.path
  {
    hide LeadText, ServerText, QueryText, AnchorText;
    Slice(FormText(f), LeadText(f) + ServerText(f), f.path, QueryText(f) + AnchorText(f));
  }

  lemma QueryPart(f: Form)
    requires f.query.Some?
    ensures var p, from := f.query.value, |LeadText(f)| + |ServerText(f)| + |f.path| + 1;
            from + |p| <= |FormText(f)| && FormText(f)[from..from + |p|] == p
  {
    hide LeadText, ServerText, AnchorText;
    var front := LeadText(f) + ServerText(f) + f.path;
    assert front + ("?" + f.query.value) == front + "?" + f.query.value;
    Slice(FormText(f), front + "?", f.query.value, AnchorText(f));
  }

  lemma AnchorPart(f: Form)
    requires f.anchor.Some?
    ensures var p := f.anchor.value.text;
            var from := |LeadText(f)| + |ServerText(f)| + |f.path| + |QueryText(f)| + f.anchor.value.extra + 1;
            from + |p| <= |FormText(f)| && FormText(f)[from..from + |p|] == p
  {
    hide LeadText, ServerText, QueryText;
    var front, hashes, p := LeadText(f) + ServerText(f) + f.path + QueryText(f), Hashes(f.anchor.value.extra + 1),
        f.anchor.value.text;
    assert front + (hashes + p) == front + hashes + p + [];
    Slice(FormText(f), front + hashes, p, []);
  }

  /** The same within the authority, and then within the URL. */
  lemma ServerPart(f: Form, part: Part)
    requires part in {UserInfo, Host, Port} && PartText(f, part) != []
    ensures PartStart(f, part) + |PartText(f, part)| <= |FormText(f)|
    ensures FormText(f)[PartStart(f, part)..PartStart(f, part) + |PartText(f, part)|] == PartText(f, part)
  {
    hide FormText, LeadText, AuthorityText, QueryText, AnchorText;
    var a, from, p := f.authority.value, PartStart(f, part) - |LeadText(f)|, PartText(f, part);
    AuthorityPart(f, part);
    var t := AuthorityText(a);
    var after := f.path + (QueryText(f) + AnchorText(f));
    assert t == t[..from] + p + t[from + |p|..];
    assert FormText(f) == LeadText(f) + t + after by { FormAround(f); }
    hide PartStart, PartText, ServerText;
    Nested(LeadText(f), t[..from], p, t[from + |p|..], after);
    Slice(FormText(f), LeadText(f) + t[..from], p, t[from + |p|..] + after);
  }

  lemma Nested(a: seq<Byte>, b: seq<Byte>, p: seq<Byte>, c: seq<Byte>, d: seq<Byte>)
    ensures a + (b + p + c) + d == a + b + p + (c + d)
  {}

  lemma FormAround(f: Form)
    ensures FormText(f) == LeadText(f) + ServerText(f) + (f.path + (QueryText(f) + AnchorText(f)))
  {
    hide LeadText, ServerText, QueryText, AnchorText;
  }

  lemma AuthorityPart(f: Form, part: Part)
    requires part in {UserInfo, Host, Port} && PartText(f, part) != []
    ensures var t, from, p := AuthorityText(f.authority.value), PartStart(f, part) - |LeadText(f)|, PartText(f, part);
            0 <= from && from + |p| <= |t| && t[from..from + |p|] == p
  {
    hide LeadText;
    var a, p := f.authority.value, PartText(f, part);
    var t := AuthorityText(a);
    if part == UserInfo {
      assert t == [] + p + ("@" + (HostText(a.host) + PortText(a)));
      Slice(t, [], p, "@" + (HostText(a.host) + PortText(a)));
    } else if part == Port {
      assert t == UserText(a) + HostText(a.host) + ":" + p + [];
      Slice(t, UserText(a) + HostText(a.host) + ":", p, []);
    } else if a.host.Address? {
      assert UserText(a) + ("[" + p + "]") == UserText(a) + "[" + p + "]";
      assert t == UserText(a) + "[" + p + ("]" + PortText(a));
      Slice(t, UserText(a) + "[", p, "]" + PortText(a));
    } else {
      Slice(t, UserText(a), p, PortText(a));
    }
  }
}
