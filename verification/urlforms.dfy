/** The splitter's states over a URL joined from parts, and the parts of a URL that it has gone through. */
module UrlForms {
  import opened Alphabets
  import opened Bytes
  import opened HttpParser
  import opened UrlStates
  import opened UrlSyntax
  import Scan = UrlScan
  import Inside = UrlHost

  /** Valid parts of which there is an authority behind a scheme and nowhere else, or for CONNECT at the start. */
  predicate Shaped(f: Form, c: bool) {
    ValidForm(f) && if c then f.scheme.None? && f.authority.Some? else f.scheme.Some? == f.authority.Some?
  }

  function OuterOf(f: Form): Scan.Outer {
    Scan.Outer(OrNone(f.scheme), if f.authority.Some? then 3 else 0, ServerText(f), f.path, f.query.Some?,
               OrNone(f.query), if f.anchor.Some? then f.anchor.value.extra + 1 else 0, PartText(f, Fragment))
  }

  function InnerOf(a: Authority): Inside.Inner {
    Inside.Inner(OrNone(a.user), a.user.Some?, a.host.Address?, a.host.text, a.host.Address? && a.host.zone.Some?,
                 if a.host.Address? then OrNone(a.host.zone) else [], a.host.Address?, a.port.Some?, OrNone(a.port))
  }

  // From parts to states

  lemma ServerBytes(s: seq<Byte>)
    ensures IsUser(s) || IsName(s) || IsAddress(s) || IsZone(s) || IsPort(s) ==>
              forall i :: 0 <= i < |s| ==> UserChar(s[i]) && s[i] != '@'
  {
    forall i | 0 <= i < |s|
      ensures UserChar(s[i]) ==> s[i] != '@'
      ensures NameChar(s[i]) || AddressChar(s[i]) || ZoneMark(s[i]) || s[i] in DIGITS ==> UserChar(s[i])
    {
      Scan.Delimiters(s[i]);
    }
    hide UserChar, NameChar, AddressChar, ZoneMark;
  }

  /** Text that the first loop takes for part of a server, without an @ */
  predicate Quiet(s: seq<Byte>) {
    forall i :: 0 <= i < |s| ==> Scan.ServerByte(s[i]) && s[i] != '@'
  }

  lemma QuietParts(a: Authority)
    requires ValidAuthority(a)
    ensures Quiet(OrNone(a.user)) && Quiet(HostText(a.host)) && Quiet(PortText(a)) && HostText(a.host) != []
  {
    hide UserChar, NameChar, AddressChar, ZoneMark;
    ServerBytes(OrNone(a.user));
    ServerBytes(a.host.text);
    ServerBytes(OrNone(a.port));
    Scan.Delimiters(':');
    if a.host.Address? {
      ServerBytes(OrNone(a.host.zone));
    }
  }

  /** An authority is a server part with at most one @, the one behind the user information. */
  lemma AuthorityIsServer(a: Authority)
    requires ValidAuthority(a)
    ensures Scan.IsServer(AuthorityText(a)) && AuthorityText(a) != []
    ensures '@' in AuthorityText(a) <==> a.user.Some?
  {
    QuietParts(a);
    hide ValidAuthority, HostText, PortText, Quiet, Scan.IsServer;
    var host := HostText(a.host) + PortText(a);
    Joined(HostText(a.host), PortText(a));
    Around(OrNone(a.user), a.user.Some?, host);
    assert AuthorityText(a) == UserText(a) + host;
  }

  lemma Joined(s: seq<Byte>, t: seq<Byte>)
    requires Quiet(s) && Quiet(t)
    ensures Quiet(s + t)
  {}

  lemma Around(user: seq<Byte>, at: bool, host: seq<Byte>)
    requires Quiet(user) && Quiet(host) && (!at ==> user == [])
    ensures var t := (if at then user + "@" else []) + host;
            Scan.IsServer(t) && ('@' in t <==> at)
  {
    hide UserChar;
    var t := (if at then user + "@" else []) + host;
    assert at ==> t[|user|] == '@';
  }

  lemma FormIsOuter(f: Form, c: bool)
    requires Shaped(f, c)
    ensures Scan.Valid(OuterOf(f), c) && Scan.OuterText(OuterOf(f), c) == FormText(f)
  {
    hide ValidAuthority, AuthorityText, IsScheme, IsPath, IsQuery, IsFragment, Scan.IsServer;
    if f.authority.Some? { AuthorityIsServer(f.authority.value); }
    EmptyParts();
    OuterIsValid(f, c);
    LeadIsLead(f, c);
    TailIsTail(f);
    hide LeadText, ServerText, Scan.Lead, QueryText, AnchorText;
    var front := LeadText(f) + ServerText(f) + f.path;
    Regroup(front, Scan.Mark(OuterOf(f)), OrNone(f.query), Hashes(OuterOf(f).hashes), PartText(f, Fragment));
  }

  lemma EmptyParts()
    ensures IsScheme([]) && Scan.IsServer([]) && IsPath([]) && IsQuery([]) && IsFragment([])
  {}

  lemma OuterIsValid(f: Form, c: bool)
    requires Shaped(f, c) && Scan.IsServer(ServerText(f)) && IsScheme([]) && IsQuery([]) && IsFragment([])
    ensures Scan.Valid(OuterOf(f), c)
  {
    hide ValidAuthority, AuthorityText, IsScheme, IsPath, IsQuery, IsFragment, Scan.IsServer;
  }

  lemma LeadIsLead(f: Form, c: bool)
    requires Shaped(f, c)
    ensures Scan.Lead(OuterOf(f), c) == LeadText(f)
  {
    hide ValidAuthority, ValidForm;
    assert "://"[..3] == "://" && "://"[..0] == [];
  }

  lemma TailIsTail(f: Form)
    ensures Scan.Mark(OuterOf(f)) + OrNone(f.query) == QueryText(f)
    ensures Hashes(OuterOf(f).hashes) + PartText(f, Fragment) == AnchorText(f)
  {}

  lemma Regroup(front: seq<Byte>, mark: seq<Byte>, query: seq<Byte>, hashes: seq<Byte>, fragment: seq<Byte>)
    ensures front + mark + query + hashes + fragment == front + (mark + query) + (hashes + fragment)
  {}

  lemma AuthorityIsInner(a: Authority)
    requires ValidAuthority(a)
    ensures Inside.Proper(InnerOf(a), a.user.Some?) && Inside.InnerText(InnerOf(a)) == AuthorityText(a)
    ensures HostEnds(Inside.HostStateOf(InnerOf(a), a.user.Some?))
  {
    hide IsUser, IsName, IsAddress, IsZone, IsPort;
    Inside.Empty('@');
    InnerIsText(a);
  }

  lemma InnerIsText(a: Authority)
    ensures Inside.InnerText(InnerOf(a)) == AuthorityText(a)
  {
    hide Inside.InnerText, AuthorityText;
    InnerTexts(a);
    WholeText(a);
  }

  lemma InnerTexts(a: Authority)
    ensures var i := InnerOf(a);
            && i.user + Inside.Sign(i.at, '@') == UserText(a)
            && Inside.Sign(i.open, '[') + i.name + Inside.Sign(i.percent, '%') + i.zone + Inside.Sign(i.close, ']')
               == HostText(a.host)
            && Inside.Sign(i.colon, ':') + i.port == PortText(a)
  {}

  lemma WholeText(a: Authority)
    requires var i := InnerOf(a);
             && i.user + Inside.Sign(i.at, '@') == UserText(a)
             && Inside.Sign(i.open, '[') + i.name + Inside.Sign(i.percent, '%') + i.zone + Inside.Sign(i.close, ']')
                == HostText(a.host)
             && Inside.Sign(i.colon, ':') + i.port == PortText(a)
    ensures Inside.InnerText(InnerOf(a)) == AuthorityText(a)
  {
    hide UserText, HostText, PortText, InnerOf, Inside.Sign;
    var i := InnerOf(a);
    Ninefold(i.user + Inside.Sign(i.at, '@'), Inside.Sign(i.open, '['), i.name, Inside.Sign(i.percent, '%'), i.zone,
             Inside.Sign(i.close, ']'), Inside.Sign(i.colon, ':'), i.port);
  }

  lemma Ninefold(a: seq<Byte>, b: seq<Byte>, c: seq<Byte>, d: seq<Byte>, e: seq<Byte>, f: seq<Byte>, g: seq<Byte>,
                 h: seq<Byte>)
    ensures a + b + c + d + e + f + g + h == a + (b + c + d + e + f) + (g + h)
  {}

  // The fields

  /** Fields that cover the same bytes are the same. */
  lemma CoversUnique(a: map<Part, Range>, b: map<Part, Range>, cls: int -> Option<Part>, lo: nat, n: nat)
    requires Covers(a, cls, lo, n) && Covers(b, cls, lo, n)
    ensures a == b
  {
    forall part | part in a
      ensures part in b && a[part] == b[part]
    {
      SameRange(a, b, cls, lo, n, part);
    }
    forall part | part in b
      ensures part in a
    {
      SameRange(b, a, cls, lo, n, part);
    }
  }

  lemma SameRange(a: map<Part, Range>, b: map<Part, Range>, cls: int -> Option<Part>, lo: nat, n: nat, part: Part)
    requires Covers(a, cls, lo, n) && Covers(b, cls, lo, n) && part in a
    ensures part in b && a[part] == b[part]
  {
    CoveredEnds(a, cls, lo, n, part);
    InRange(b, cls, lo, n, part, a[part].off);
    InRange(b, cls, lo, n, part, a[part].off + a[part].len - 1);
    CoveredEnds(b, cls, lo, n, part);
    InRange(a, cls, lo, n, part, b[part].off);
    InRange(a, cls, lo, n, part, b[part].off + b[part].len - 1);
    hide Covers;
  }

  lemma CoveredEnds(a: map<Part, Range>, cls: int -> Option<Part>, lo: nat, n: nat, part: Part)
    requires Covers(a, cls, lo, n) && part in a
    ensures lo <= a[part].off < a[part].off + a[part].len <= n
    ensures cls(a[part].off) == Some(part) && cls(a[part].off + a[part].len - 1) == Some(part)
  {}

  lemma InRange(a: map<Part, Range>, cls: int -> Option<Part>, lo: nat, n: nat, part: Part, q: int)
    requires Covers(a, cls, lo, n) && lo <= q < n && cls(q) == Some(part)
    ensures part in a && a[part].off <= q < a[part].off + a[part].len
  {}

  /** What the first loop finds in a URL joined from parts. */
  lemma FormScanned(f: Form, c: bool, text: seq<Byte>, n: nat)
    requires Shaped(f, c) && n <= |text| && FormText(f) == text[..n]
    ensures var s0 := Scan.Start(c);
            && OuterOf(f).slashes <= 3
            && StateAfter(s0, text, n) != UrlDead && Covers(Scan.OuterFields(OuterOf(f), c), UrlClass(s0, text), 0, n)
            && (SeenAt(s0, text, n) <==> f.authority.Some? && f.authority.value.user.Some?)
  {
    hide Covers, UrlClass, SeenAt, StateAfter, Scan.Valid, Scan.OuterText, Scan.OuterFields, FormText, ValidForm;
    FormIsOuter(f, c);
    Scan.OuterScanned(OuterOf(f), c, text);
    if f.authority.Some? {
      AuthorityIsServer(f.authority.value) by { AuthorityOfForm(f); }
    }
  }

  lemma AuthorityOfForm(f: Form)
    requires ValidForm(f)
    ensures f.authority.Some? ==> ValidAuthority(f.authority.value)
  {}

  /** The server part of a URL joined from parts, and what the second loop finds in it. */
  lemma ServerScanned(f: Form, c: bool, text: seq<Byte>, n: nat)
    requires Shaped(f, c) && n <= |text| && FormText(f) == text[..n] && f.authority.Some?
    ensures var a := f.authority.value;
            var lo, hi, h0 := |LeadText(f)|, |LeadText(f)| + |AuthorityText(a)|, Inside.HostBegin(a.user.Some?);
            && OuterOf(f).slashes <= 3 && hi <= n
            && Host in Scan.OuterFields(OuterOf(f), c) && Scan.OuterFields(OuterOf(f), c)[Host] == Range(lo, hi - lo)
            && HostEnds(HostAfter(h0, text, lo, hi))
            && Covers(Inside.InnerFields(InnerOf(a), lo), HostClass(h0, text, lo), lo, hi)
  {
    hide Covers, HostClass, HostAfter, HostEnds, Inside.InnerFields, Inside.Proper, Inside.InnerText, ValidForm;
    hide AuthorityText, Inside.HostStateOf, FormText, LeadText, Scan.OuterFields, InnerOf, ValidAuthority, OuterOf;
    AuthorityOfForm(f);
    hide ServerText;
    var a := f.authority.value;
    AuthorityIsInner(a);
    HostOfForm(f, c);
    var lo, hi := |LeadText(f)|, |LeadText(f)| + |AuthorityText(a)|;
    ServerInPlace(f);
    assert text[..n][lo..hi] == text[lo..hi];
    Inside.InnerScanned(InnerOf(a), a.user.Some?, text, lo);
  }

  lemma HostOfForm(f: Form, c: bool)
    requires Shaped(f, c) && f.authority.Some?
    ensures OuterOf(f).slashes <= 3
    ensures var m := Scan.OuterFields(OuterOf(f), c);
            Host in m && m[Host] == Range(|LeadText(f)|, |AuthorityText(f.authority.value)|)
  {
    hide AuthorityText, LeadText, Scan.Lead;
    AuthorityOfForm(f);
    AuthorityIsServer(f.authority.value);
    LeadIsLead(f, c);
    assert Scan.OuterPart(OuterOf(f), Host) == AuthorityText(f.authority.value);
  }

  lemma ServerInPlace(f: Form)
    ensures var lo, hi := |LeadText(f)|, |LeadText(f)| + |ServerText(f)|;
            hi <= |FormText(f)| && FormText(f)[lo..hi] == ServerText(f)
            && (f.authority.Some? ==> ServerText(f) == AuthorityText(f.authority.value))
  {
    hide LeadText, AuthorityText, QueryText, AnchorText;
    FormAround(f);
    Slice(FormText(f), LeadText(f), ServerText(f), f.path + (QueryText(f) + AnchorText(f)));
  }

  /** The fields of the two loops, the second one's in place of the host of the first, are the parts. */
  lemma FieldsAreParts(f: Form, c: bool, fields: map<Part, Range>)
    requires Shaped(f, c) && OuterOf(f).slashes <= 3
    requires var outer := Scan.OuterFields(OuterOf(f), c);
             var inner := if f.authority.Some? then Inside.InnerFields(InnerOf(f.authority.value), |LeadText(f)|)
                 else map[];
             && (forall part :: part in fields <==> part in outer || part in inner)
             && (forall part :: part in inner ==> fields[part] == inner[part])
             && (forall part :: part in outer && part !in inner ==> fields[part] == outer[part])
    ensures fields == FieldsOf(f)
  {
    hide FieldsOf, Scan.OuterFields, Inside.InnerFields, OuterOf, InnerOf, LeadText;
    forall part: Part
      ensures part in fields <==> part in FieldsOf(f)
      ensures part in fields ==> fields[part] == FieldsOf(f)[part]
    {
      OuterField(f, c, part);
      if f.authority.Some? { InnerField(f, part); }
      EveryPart(part);
    }
  }

  lemma EveryPart(part: Part)
    ensures part in {Schema, Path, Query, Fragment} <==> part !in {UserInfo, Host, Port}
  {}

  lemma OuterField(f: Form, c: bool, part: Part)
    requires Shaped(f, c) && OuterOf(f).slashes <= 3
    ensures var m, m' := Scan.OuterFields(OuterOf(f), c), FieldsOf(f);
            && (part in {Schema, Path, Query, Fragment} ==>
                (part in m <==> part in m') && (part in m ==> m[part] == m'[part]))
            && (part in {UserInfo, Port} ==> part !in m)
            && (f.authority.None? && part in {UserInfo, Host, Port} ==> part !in m && part !in m')
  {
    hide LeadText, ServerText, ValidForm;
    LeadIsLead(f, c);
    OuterParts(f, c, part);
  }

  lemma InnerField(f: Form, part: Part)
    requires ValidForm(f) && f.authority.Some?
    ensures var m, m' := Inside.InnerFields(InnerOf(f.authority.value), |LeadText(f)|), FieldsOf(f);
            && (part in {UserInfo, Host, Port} ==>
                (part in m <==> part in m') && (part in m ==> m[part] == m'[part]))
            && (part !in {UserInfo, Host, Port} ==> part !in m)
            && (part == Host ==> part in m)
  {
    AuthorityOfForm(f);
    HostNotEmpty(f.authority.value);
    hide LeadText, ServerText, ValidForm, HostField, InnerOf, Inside.InnerPart, Inside.InnerStart, PartStart;
    InnerParts(f, part);
  }

  lemma HostNotEmpty(a: Authority)
    requires ValidAuthority(a)
    ensures HostField(a.host) != []
  {}

  lemma OuterParts(f: Form, c: bool, part: Part)
    requires OuterOf(f).slashes <= 3 && Scan.Lead(OuterOf(f), c) == LeadText(f)
    ensures part in {Schema, Path, Query, Fragment} ==>
              Scan.OuterPart(OuterOf(f), part) == PartText(f, part)
              && (PartText(f, part) != [] ==> Scan.OuterStart(OuterOf(f), c, part) == PartStart(f, part))
    ensures part in {UserInfo, Port} ==> Scan.OuterPart(OuterOf(f), part) == []
    ensures f.authority.None? && part == Host ==> Scan.OuterPart(OuterOf(f), part) == [] == PartText(f, part)
    ensures f.authority.None? && part in {UserInfo, Port} ==> PartText(f, part) == []
  {
    hide AuthorityText, LeadText, Scan.Lead;
  }

  lemma InnerParts(f: Form, part: Part)
    requires f.authority.Some?
    ensures part in {UserInfo, Host, Port} ==>
              Inside.InnerPart(InnerOf(f.authority.value), part) == PartText(f, part)
              && (PartText(f, part) != [] ==>
                  |LeadText(f)| + Inside.InnerStart(InnerOf(f.authority.value), part) == PartStart(f, part))
    ensures part !in {UserInfo, Host, Port} ==> Inside.InnerPart(InnerOf(f.authority.value), part) == []
  {
    hide LeadText, AuthorityText, Inside.InnerText;
    InnerIsText(f.authority.value);
  }

  // From states to parts

  function AuthorityOf(i: Inside.Inner): Authority {
    Authority(if i.at then Some(i.user) else None,
              if i.open then Address(i.name, if i.percent then Some(i.zone) else None) else Name(i.name),
              if i.colon then Some(i.port) else None)
  }

  lemma InnerIsAuthority(i: Inside.Inner, a: bool)
    requires Inside.Proper(i, a) && HostEnds(Inside.HostStateOf(i, a))
    ensures ValidAuthority(AuthorityOf(i)) && InnerOf(AuthorityOf(i)) == i
    ensures AuthorityText(AuthorityOf(i)) == Inside.InnerText(i)
  {
    hide IsUser, IsName, IsAddress, IsZone, IsPort, AuthorityText, Inside.InnerText;
    InnerIsText(AuthorityOf(i));
  }

  function FormOf(o: Scan.Outer, a: Option<Authority>): Form {
    Form(if o.scheme != [] then Some(o.scheme) else None, a, o.path, if o.mark then Some(o.query) else None,
         if o.hashes > 0 then Some(Anchor(o.hashes - 1, o.fragment)) else None)
  }

  lemma OuterIsForm(o: Scan.Outer, c: bool, a: Option<Authority>)
    requires Scan.Valid(o, c) && (if c then o.server != [] else o.scheme != [] ==> o.server != [])
    requires if o.server == [] then a == None
             else a.Some? && ValidAuthority(a.value) && AuthorityText(a.value) == o.server
    ensures Shaped(FormOf(o, a), c) && OuterOf(FormOf(o, a)) == o
  {
    hide IsScheme, IsPath, IsQuery, IsFragment, Scan.IsServer, ValidAuthority, AuthorityText;
  }

  /** Text that both loops have gone through is a URL joined from parts. */
  lemma ScannedIsForm(c: bool, text: seq<Byte>, n: nat, exact: map<Part, Range>) returns (f: Form)
    requires n <= |text| && StateAfter(Scan.Start(c), text, n) != UrlDead
    requires Covers(exact, UrlClass(Scan.Start(c), text), 0, n)
    requires if c then Host in exact else Schema in exact ==> Host in exact
    requires Host in exact && exact[Host].off + exact[Host].len <= n ==>
               HostEnds(HostAfter(Inside.HostBegin(SeenAt(Scan.Start(c), text, n)), text, exact[Host].off,
                                  exact[Host].off + exact[Host].len))
    ensures Shaped(f, c) && FormText(f) == text[..n]
  {
    hide Covers, UrlClass, SeenAt, StateAfter, HostAfter, Scan.Valid, Scan.OuterText, ValidForm, HostEnds, FormText;
    hide Inside.Proper, Inside.InnerText, Inside.HostStateOf, ValidAuthority, AuthorityText, Scan.StateOf;
    var o := Scan.ScannedOuter(c, text, n);
    Scan.FewSlashes(o, c);
    Scan.OuterScanned(o, c, text);
    CoversUnique(exact, Scan.OuterFields(o, c), UrlClass(Scan.Start(c), text), 0, n);
    if o.server == [] {
      f := FormOf(o, None);
      OuterIsForm(o, c, None);
    } else {
      var lo, hi, seen := |Scan.Lead(o, c)|, |Scan.Lead(o, c)| + |o.server|, SeenAt(Scan.Start(c), text, n);
      assert exact[Host] == Range(lo, |o.server|);
      assert hi <= n && text[lo..hi] == o.server by { OuterServer(o, c); assert text[..n][lo..hi] == text[lo..hi]; }
      NotHostDead(HostAfter(Inside.HostBegin(seen), text, lo, hi));
      var i := Inside.ScannedInner(seen, text, lo, hi);
      InnerIsAuthority(i, seen);
      f := FormOf(o, Some(AuthorityOf(i)));
      OuterIsForm(o, c, Some(AuthorityOf(i)));
    }
    FormIsOuter(f, c);
  }

  lemma NotHostDead(s: HostState)
    requires HostEnds(s)
    ensures s != HostDead
  {}

  lemma OuterServer(o: Scan.Outer, c: bool)
    requires o.slashes <= 3
    ensures var lo, hi := |Scan.Lead(o, c)|, |Scan.Lead(o, c)| + |o.server|;
            hi <= |Scan.OuterText(o, c)| && Scan.OuterText(o, c)[lo..hi] == o.server
  {
    hide Scan.Lead, Scan.Mark;
    var t, lead := Scan.OuterText(o, c), Scan.Lead(o, c);
    assert t[..|lead| + |o.server|] == lead + o.server;
  }
}
