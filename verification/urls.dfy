/** The URL splitter of http_parser: which bytes of a URL each field is. */
module Urls {
  import opened Bytes
  import opened HttpParser
  import opened HttpResponses
  import opened UrlStates
  import opened UrlSyntax
  import opened UrlForms
  import Scan = UrlScan
  import Inside = UrlHost

  // The code

  /** What is stored of the fields. */
  predicate StoredAs(stored: map<Part, Range>, exact: map<Part, Range>) {
    stored.Keys == exact.Keys && forall part :: part in exact ==> stored[part] == Stored(exact[part])
  }

  lemma AddByte(stored: map<Part, Range>, exact: map<Part, Range>, part: Part)
    requires StoredAs(stored, exact) && part in exact
    ensures part in stored
    ensures StoredAs(stored[part := Range(stored[part].off, (stored[part].len + 1) % UINT16)],
                     exact[part := Range(exact[part].off, exact[part].len + 1)])
  {}

  lemma AddField(stored: map<Part, Range>, exact: map<Part, Range>, part: Part, p: nat)
    requires StoredAs(stored, exact)
    ensures StoredAs(stored[part := Range(p % UINT16, 1)], exact[part := Range(p, 1)])
  {}

  lemma NoFields(s0: UrlState, text: seq<Byte>)
    ensures Covers(map[], UrlClass(s0, text), 0, 0) && StoredAs(map[], map[]) && !SeenAt(s0, text, 0)
  {}

  /** The digits that strtoul reads. */
  function DigitsFrom(text: seq<Byte>, off: nat): (d: seq<Byte>)
    requires off <= |text|
    ensures |d| <= |text| - off && forall i :: 0 <= i < |d| ==> IsNum(d[i]) && text[off + i] == d[i]
    decreases |text| - off
  {
    if off < |text| && IsNum(text[off]) then [text[off]] + DigitsFrom(text, off + 1) else []
  }

  predicate InField(fields: map<Part, Range>, q: nat) {
    exists part :: part in fields && fields[part].off <= q < fields[part].off + fields[part].len
  }

  /**
   * The fields are not empty, lie in the URL, and are in order without overlapping; every byte of the URL is in
   * one of them or is a delimiter; and a port is made of digits.
   */
  ghost predicate WellSplit(fields: map<Part, Range>, text: seq<Byte>, n: nat)
    requires n <= |text|
  {
    && (forall part :: part in fields ==> fields[part].len > 0 && fields[part].off + fields[part].len <= n)
    && (forall a, b :: a in fields && b in fields && Order(a) < Order(b) ==>
          fields[a].off + fields[a].len <= fields[b].off)
    && (forall q: nat :: q < n ==> InField(fields, q) || text[q] in {':', '/', '?', '#', '@', '[', ']'})
    && (Port in fields ==> forall q :: fields[Port].off <= q < fields[Port].off + fields[Port].len ==> IsNum(text[q]))
  }

  /** Why a URL without characters out of place is refused. */
  ghost predicate Refused(text: seq<Byte>, n: nat, s0: UrlState, exact: map<Part, Range>, fields: map<Part, Range>,
                          isConnect: bool)
    requires n <= |text|
  {
    || (Schema in exact && Host !in exact)
    || (Host in exact && exact[Host].off + exact[Host].len <= n
        && !HostEnds(HostAfter(if SeenAt(s0, text, n) then UserInfoStart else HostStart, text,
                               exact[Host].off, exact[Host].off + exact[Host].len)))
    || (isConnect && fields.Keys != {Host, Port})
    || (Port in fields && fields[Port].off <= |text| && DecimalOf(DigitsFrom(text, fields[Port].off)) > 0xFFFF)
  }

  /** The number that strtoul reads for a port is one of 16 bits. */
  predicate PortFits(text: seq<Byte>, fields: map<Part, Range>) {
    Port in fields && fields[Port].off <= |text| ==> DecimalOf(DigitsFrom(text, fields[Port].off)) <= 0xFFFF
  }

  /** The first n bytes are a URL of these parts, and its port is a number of 16 bits. */
  ghost predicate IsUrl(text: seq<Byte>, n: nat, isConnect: bool, f: Form)
    requires n <= |text|
  {
    Allowed(f, isConnect) && FormText(f) == text[..n] && PortFits(text, FieldsOf(f))
  }

  /** struct http_parser_url: field_data, for the fields in field_set, and port. */
  class Url {
    var fields: map<Part, Range>
    var port: nat

    constructor ()
      ensures fields == map[] && port == 0
    {
      fields, port := map[], 0;
    }

    /** The first loop of http_parser_parse_url. */
    method SplitParts(text: seq<Byte>, buflen: nat, s0: UrlState)
      returns (bad: bool, foundAt: bool, ghost exact: map<Part, Range>)
      requires buflen <= |text| && s0 != UrlDead
      modifies this`fields
      ensures bad <==> StateAfter(s0, text, buflen) == UrlDead
      ensures !bad ==> Covers(exact, UrlClass(s0, text), 0, buflen) && StoredAs(fields, exact)
      ensures !bad ==> (foundAt <==> SeenAt(s0, text, buflen))
    {
      hide ParseUrlChar, Stored, Covers, Rising, Order, PartOf, StoredAs, SeenAt;
      fields, foundAt, exact := map[], false, map[];
      var s, oldUf := s0, None;
      NoFields(s0, text);
      UrlRises(s0, text);
      ghost var cls := UrlClass(s0, text);
      for p := 0 to buflen
        invariant s == StateAfter(s0, text, p) != UrlDead
        invariant Covers(exact, cls, 0, p) && StoredAs(fields, exact)
        invariant if oldUf.None? then exact == map[] else oldUf.value in exact
        invariant oldUf.Some? ==> forall part :: part in exact ==> Order(part) <= Order(oldUf.value)
        invariant foundAt <==> SeenAt(s0, text, p)
      {
        s := ParseUrlChar(s, text[p]);
        SeenStep(s0, text, p);
        if s == UrlDead {
          DeadStays(s0, text, p + 1, buflen);
          return true, foundAt, exact;
        }
        if s == ServerWithAt {
          foundAt := true;
        }
        var uf := PartOf(s);
        if uf.None? {
          CoverSkip(exact, cls, 0, p);
          continue;
        }
        if uf == oldUf {
          LastField(exact, cls, 0, p, |text|, uf.value);
          AddByte(fields, exact, uf.value);
          CoverMore(exact, cls, 0, p, uf.value);
          fields := fields[uf.value := Range(fields[uf.value].off, (fields[uf.value].len + 1) % UINT16)];
          exact := exact[uf.value := Range(exact[uf.value].off, exact[uf.value].len + 1)];
          continue;
        }
        NewField(exact, cls, 0, p, |text|, oldUf, uf.value);
        CoverFirst(exact, cls, 0, p, uf.value);
        ghost var fields0 := fields;
        fields := fields[uf.value := Range(p % UINT16, 1)];
        AddField(fields0, exact, uf.value, p);
        exact := exact[uf.value := Range(p, 1)];
        oldUf := uf;
      }
      return false, foundAt, exact;
    }

    /**
     * http_parse_host. The host's own place and length are found again, and those of the user information and the port.
     */
    method ParseHost(text: seq<Byte>, foundAt: bool) returns (bad: bool, ghost exact: map<Part, Range>)
      requires Host in fields && fields[Host].off + fields[Host].len <= |text| && UserInfo !in fields && Port !in fields
      modifies this`fields
      ensures var lo := old(fields[Host].off);
              var hi, h0 := lo + old(fields[Host].len), if foundAt then UserInfoStart else HostStart;
              && (bad <==> !HostEnds(HostAfter(h0, text, lo, hi)))
              && (!bad ==> Covers(exact, HostClass(h0, text, lo), lo, hi))
      ensures !bad ==> Host in exact && Replacing(old(fields), fields, exact)
      ensures !bad ==> Host in fields && (Port in fields ==> fields[Port].off <= |text|)
    {
      hide ParseHostChar, Stored, Covers, Rising, Order, Replacing, HostClass;
      var lo := fields[Host].off;
      var hi := lo + fields[Host].len;
      var s := if foundAt then UserInfoStart else HostStart;
      ghost var h0 := s;
      ghost var cls := HostClass(h0, text, lo);
      exact := map[];
      fields := fields[Host := Range(lo, 0)];
      ghost var before := fields;
      NoHostFields(h0, text, lo);
      StartReplacing(before);
      for p := lo to hi
        invariant s == HostAfter(h0, text, lo, p) != HostDead
        invariant Covers(exact, cls, lo, p) && Replacing(before, fields, exact)
      {
        var newS := ParseHostChar(s, text[p]);
        if newS == HostDead {
          HostDeadStays(h0, text, lo, p + 1, hi);
          return true, exact;
        }
        var uf := HostPartOf(newS);
        ClassAt(h0, text, lo, p);
        if uf.Some? {
          GoesOn(h0, text, lo, p, exact);
          StoreByte(before, exact, uf.value, p, s, newS);
          if uf.value in exact {
            CoverMore(exact, cls, lo, p, uf.value);
            exact := exact[uf.value := Range(exact[uf.value].off, exact[uf.value].len + 1)];
          } else {
            CoverFirst(exact, cls, lo, p, uf.value);
            exact := exact[uf.value := Range(p, 1)];
          }
        } else {
          CoverSkip(exact, cls, lo, p);
        }
        s := newS;
      }
      bad := !HostEnds(s);
      if !bad {
        HostFound(h0, text, lo, hi, exact);
        DoneReplacing(old(fields), Range(lo, 0), fields, exact);
        PortInText(old(fields), fields, exact, cls, lo, hi);
      }
    }

    /** The switch of http_parse_host. */
    method StoreByte(ghost before: map<Part, Range>, ghost exact: map<Part, Range>, ghost part: Part, p: nat,
                     s: HostState, newS: HostState)
      requires HostPartOf(newS) == Some(part) && part in {UserInfo, Host, Port} && Replacing(before, fields, exact)
      requires Host in before && before[Host].len == 0
      requires newS == InHost || newS == HostV6 || newS == HostPort || newS == InUserInfo
               ==> (part in exact <==> s == newS)
      requires newS == HostV6ZoneStart || newS == HostV6Zone ==> part in exact
      modifies this`fields
      ensures Replacing(before, fields,
              exact[part := if part in exact then Range(exact[part].off, exact[part].len + 1) else Range(p, 1)])
    {
      hide Replacing, Stored;
      ReplaceStep(before, fields, exact, part, p);
      ghost var to := Updated(fields, part, p, part in exact);
      if newS == InHost || newS == HostV6 {
        if s != newS {
          fields := fields[Host := fields[Host].(off := p % UINT16)];
        }
        fields := fields[Host := fields[Host].(len := (fields[Host].len + 1) % UINT16)];
        assert fields == to;
      } else if newS == HostV6ZoneStart || newS == HostV6Zone {
        fields := fields[Host := fields[Host].(len := (fields[Host].len + 1) % UINT16)];
        assert fields == to;
      } else if newS == HostPort {
        if s != HostPort {
          fields := fields[Port := Range(p % UINT16, 0)];
        }
        fields := fields[Port := fields[Port].(len := (fields[Port].len + 1) % UINT16)];
        assert fields == to;
      } else {
        if s != InUserInfo {
          fields := fields[UserInfo := Range(p % UINT16, 0)];
        }
        fields := fields[UserInfo := fields[UserInfo].(len := (fields[UserInfo].len + 1) % UINT16)];
        assert fields == to;
      }
    }

    /**
     * http_parser_parse_url. The text goes on behind the URL, up to its terminating zero; only strtoul looks there.
     * What is promised of a URL that is taken, and why one is refused, holds for URLs of less than 2^16 bytes.
     */
    method Parse(text: seq<Byte>, buflen: nat, isConnect: bool)
      returns (bad: bool, ghost exact: map<Part, Range>, ghost server: map<Part, Range>)
      requires buflen <= |text|
      modifies this
      ensures buflen < UINT16 && !bad ==>
                && WellSplit(fields, text, buflen)
                && (Schema in fields ==> Host in fields) && (isConnect ==> fields.Keys == {Host, Port})
                && (Port in fields ==>
                    fields[Port].off <= |text| && port == DecimalOf(DigitsFrom(text, fields[Port].off)) <= 0xFFFF)
                && (Port !in fields ==> port == 0)
      ensures buflen < UINT16 ==>
                var s0 := if isConnect then ServerStart else SpacesBeforeUrl;
                if StateAfter(s0, text, buflen) == UrlDead then bad
                else
                  && Covers(exact, UrlClass(s0, text), 0, buflen)
                  && (bad <==> Refused(text, buflen, s0, exact, fields, isConnect))
      ensures buflen < UINT16 ==>
                && (bad <==> !exists f: Form :: IsUrl(text, buflen, isConnect, f))
                && (!bad ==> forall f: Form :: IsUrl(text, buflen, isConnect, f) ==> fields == FieldsOf(f))
    {
      hide StateAfter, HostAfter, Covers, Replacing, StoredAs, WellSplit, UrlClass, HostClass, HostEnds, DigitsFrom;
      hide DecimalOf, IsUrl, SeenAt, PortFits;
      server := map[];
      port := 0;
      var s0 := if isConnect then ServerStart else SpacesBeforeUrl;
      var foundAt;
      bad, foundAt, exact := SplitParts(text, buflen, s0);
      if bad {
        DeadIsNoUrl(text, buflen, isConnect);
        return;
      }
      FitsBuffer(fields, exact, UrlClass(s0, text), buflen, |text|);
      NoServerParts(text, buflen, s0, exact);
      if Schema in fields && Host !in fields {
        NoHostIsNoUrl(text, buflen, isConnect, exact);
        return true, exact, server;
      }
      if Host in fields {
        bad, server := ParseHost(text, foundAt);
        if bad {
          if buflen < UINT16 { BadHostIsNoUrl(text, buflen, isConnect, exact); }
          return;
        }
      }
      if buflen < UINT16 {
        FieldPlaces(text, buflen, s0, if foundAt then UserInfoStart else HostStart, exact, server, fields);
        SplitWell(text, buflen, s0, if foundAt then UserInfoStart else HostStart, exact, server, fields);
        FieldsOfUrls(text, buflen, isConnect, exact, server, fields);
        UrlOrNone(text, buflen, isConnect, exact, server, fields);
        PortOrNone(text, fields);
      }
      if isConnect && fields.Keys != {Host, Port} {
        return true, exact, server;
      }
      if Port in fields {
        var v := DecimalOf(DigitsFrom(text, fields[Port].off));
        if v > 0xFFFF {
          return true, exact, server;
        }
        port := v;
      }
      return false, exact, server;
    }
  }

  /** A server part that ends well has a host. */
  lemma {:induction false} SomeHost(h0: HostState, text: seq<Byte>, lo: nat, p: nat) returns (q: nat)
    requires lo <= p <= |text| && HostRank(h0) < 4 && 4 <= HostRank(HostAfter(h0, text, lo, p)) < 8
    ensures lo <= q < p && HostPartOf(HostAfter(h0, text, lo, q + 1)) == Some(Host)
    decreases p
  {
    hide IsUserInfoChar, IsHostChar, IsHexDigit, IsAlpha;
    if HostPartOf(HostAfter(h0, text, lo, p)) == Some(Host) {
      q := p - 1;
    } else {
      q := SomeHost(h0, text, lo, p - 1);
    }
  }

  lemma PortInText(was: map<Part, Range>, fields: map<Part, Range>, exact: map<Part, Range>, cls: int -> Option<Part>,
                   lo: nat, hi: nat)
    requires Port !in was && Host in exact && Replacing(was, fields, exact) && Covers(exact, cls, lo, hi)
    ensures Host in fields && (Port in fields ==> fields[Port].off <= hi)
  {
    if Port in fields { Mod16(exact[Port].off); }
  }

  lemma Mod16(x: nat)
    ensures x % UINT16 <= x && (x < UINT16 ==> x % UINT16 == x)
  {}

  lemma StoredSmall(r: Range)
    ensures Stored(r).off <= r.off && Stored(r).len <= r.len
    ensures r.off < UINT16 && r.len < UINT16 ==> Stored(r) == r
  {
    Mod16(r.off);
    Mod16(r.len);
  }

  lemma HostFound(h0: HostState, text: seq<Byte>, lo: nat, hi: nat, exact: map<Part, Range>)
    requires lo <= hi <= |text| && Covers(exact, HostClass(h0, text, lo), lo, hi) && HostRank(h0) < 4
             && HostEnds(HostAfter(h0, text, lo, hi))
    ensures Host in exact
  {
    var q := SomeHost(h0, text, lo, hi);
    ClassAt(h0, text, lo, q);
  }

  /** The server's fields have the places found so far; a host that has none yet has no length. */
  predicate Replacing(before: map<Part, Range>, fields: map<Part, Range>, exact: map<Part, Range>) {
    && exact.Keys <= {UserInfo, Host, Port}
    && (forall part :: part in fields <==> part in before || part in exact)
    && (forall part :: part in fields ==>
          fields[part] == if part in exact then Stored(exact[part]) else before[part])
  }

  lemma StartReplacing(before: map<Part, Range>)
    requires Host in before && UserInfo !in before && Port !in before
    ensures Replacing(before, before, map[])
  {}

  lemma DoneReplacing(was: map<Part, Range>, r: Range, fields: map<Part, Range>, exact: map<Part, Range>)
    requires Host in was && Host in exact && Replacing(was[Host := r], fields, exact)
    ensures Replacing(was, fields, exact)
  {}

  /** The store for a byte of a field, its first one or another one. */
  function Updated(fields: map<Part, Range>, part: Part, p: nat, more: bool): map<Part, Range>
    requires more ==> part in fields
  {
    if more then fields[part := Range(fields[part].off, (fields[part].len + 1) % UINT16)]
        else fields[part := Range(p % UINT16, 1)]
  }

  lemma ReplaceStep(before: map<Part, Range>, fields: map<Part, Range>, exact: map<Part, Range>, part: Part, p: nat)
    requires Replacing(before, fields, exact) && part in {UserInfo, Host, Port}
    ensures part in exact ==> part in fields
    ensures Host in before && Host !in exact ==> Host in fields && fields[Host] == before[Host]
    ensures Replacing(before, Updated(fields, part, p, part in exact),
                      exact[part := if part in exact then Range(exact[part].off, exact[part].len + 1) else Range(p, 1)])
  {
    hide Stored;
    StoredOne(p);
    if part in exact { StoredMore(exact[part]); }
  }

  lemma StoredOne(p: nat)
    ensures Stored(Range(p, 1)) == Range(p % UINT16, 1)
  {}

  lemma StoredMore(r: Range)
    ensures Stored(Range(r.off, r.len + 1)) == Range(Stored(r).off, (Stored(r).len + 1) % UINT16)
  {}

  /** Whether the byte at p goes on with the field of the byte before, by the states before and after it. */
  lemma GoesOn(h0: HostState, text: seq<Byte>, lo: nat, p: nat, exact: map<Part, Range>)
    requires lo <= p < |text| && Covers(exact, HostClass(h0, text, lo), lo, p) && HostPartOf(h0) == None
    requires HostPartOf(HostAfter(h0, text, lo, p + 1)).Some?
    ensures var s, s' := HostAfter(h0, text, lo, p), HostAfter(h0, text, lo, p + 1);
            var part := HostPartOf(s').value;
            && part in {UserInfo, Host, Port}
            && (part in exact <==> HostPartOf(s) == Some(part))
            && (part in exact ==> exact[part].off + exact[part].len == p)
            && (s' == InHost || s' == HostV6 || s' == HostPort || s' == InUserInfo ==> (part in exact <==> s == s'))
            && (s' == HostV6ZoneStart || s' == HostV6Zone ==> part in exact)
  {
    hide IsUserInfoChar, IsHostChar, IsHexDigit, IsAlpha, Rising;
    var cls := HostClass(h0, text, lo);
    var part := HostPartOf(HostAfter(h0, text, lo, p + 1)).value;
    HostRises(h0, text, lo);
    assert cls(p) == Some(part);
    if part in exact {
      LastField(exact, cls, lo, p, |text|, part);
    }
    if p > lo {
      assert cls(p - 1) == HostPartOf(HostAfter(h0, text, lo, p));
    }
  }

  /** A byte of another field than the last is the first of its field. */
  lemma NewField(exact: map<Part, Range>, cls: int -> Option<Part>, lo: nat, p: nat, top: nat, last: Option<Part>,
                 part: Part)
    requires Covers(exact, cls, lo, p) && Rising(cls, lo, top) && lo <= p < top && cls(p) == Some(part)
             && last != Some(part)
    requires if last.None? then exact == map[] else last.value in exact
    requires last.Some? ==> forall part :: part in exact ==> Order(part) <= Order(last.value)
    ensures part !in exact && forall other :: other in exact ==> Order(other) <= Order(part)
  {
    if last.Some? {
      var r := exact[last.value].off;
      assert cls(r) == last;
      OrderInjective(last.value, part);
    }
  }

  lemma FitsBuffer(stored: map<Part, Range>, exact: map<Part, Range>, cls: int -> Option<Part>, n: nat, top: nat)
    requires StoredAs(stored, exact) && Covers(exact, cls, 0, n) && n <= top
    ensures forall part :: part in stored ==> stored[part].off + stored[part].len <= top
    ensures stored.Keys == exact.Keys
    ensures n < UINT16 ==> stored == exact
    ensures Host in exact ==> exact[Host].off + exact[Host].len <= n
  {
    hide Stored;
    forall part | part in exact
      ensures stored[part].off + stored[part].len <= top && (n < UINT16 ==> stored[part] == exact[part])
    {
      StoredSmall(exact[part]);
    }
  }

  /** The two loops have done their work: the fields of the URL, with the server's fields in place of its host. */
  ghost predicate Scanned(text: seq<Byte>, n: nat, s0: UrlState, h0: HostState, exact: map<Part, Range>,
                          server: map<Part, Range>, fields: map<Part, Range>)
    requires n <= |text|
  {
    && n < UINT16 && StateAfter(s0, text, n) != UrlDead && Covers(exact, UrlClass(s0, text), 0, n)
    && if Host in exact then
         var lo, hi := exact[Host].off, exact[Host].off + exact[Host].len;
         && hi <= n && Covers(server, HostClass(h0, text, lo), lo, hi) && HostEnds(HostAfter(h0, text, lo, hi))
         && Replacing(exact, fields, server)
       else fields == exact && server == map[]
  }

  lemma NoServerParts(text: seq<Byte>, n: nat, s0: UrlState, exact: map<Part, Range>)
    requires n <= |text| && Covers(exact, UrlClass(s0, text), 0, n)
    ensures Port !in exact && UserInfo !in exact
  {
    hide StateAfter;
    forall part | part in exact
      ensures part != Port && part != UserInfo
    {
      assert UrlClass(s0, text)(exact[part].off) == Some(part);
    }
  }

  /** Where the fields are. */
  lemma FieldPlaces(text: seq<Byte>, n: nat, s0: UrlState, h0: HostState, exact: map<Part, Range>,
                    server: map<Part, Range>, fields: map<Part, Range>)
    requires n <= |text| && Scanned(text, n, s0, h0, exact, server, fields)
    ensures server.Keys <= {UserInfo, Host, Port} && (server != map[] ==> Host in exact)
    ensures forall part :: part in fields ==> (part in server && fields[part] == server[part])
                                              || (part !in server && part in exact && fields[part] == exact[part])
    ensures forall part :: part in exact || part in server ==> part in fields
    ensures forall part :: part in fields ==> fields[part].len > 0 && fields[part].off + fields[part].len <= n
    ensures forall part :: part in server ==>
              exact[Host].off <= fields[part].off
              && fields[part].off + fields[part].len <= exact[Host].off + exact[Host].len
  {
    hide StateAfter, HostAfter, HostEnds, UrlClass, HostClass, Covers, Stored, Replacing;
    CoversPlaces(exact, UrlClass(s0, text), 0, n);
    if Host in exact {
      var lo, hi := exact[Host].off, exact[Host].off + exact[Host].len;
      CoversPlaces(server, HostClass(h0, text, lo), lo, hi);
      forall part | part in server
        ensures Stored(server[part]) == server[part]
      {
        StoredSmall(server[part]);
      }
      ReplacedPlaces(exact, fields, server);
    }
  }

  lemma CoversPlaces(fields: map<Part, Range>, cls: int -> Option<Part>, lo: nat, n: nat)
    requires Covers(fields, cls, lo, n)
    ensures forall part :: part in fields ==>
              fields[part].len > 0 && lo <= fields[part].off && fields[part].off + fields[part].len <= n
  {}

  lemma ReplacedPlaces(was: map<Part, Range>, fields: map<Part, Range>, exact: map<Part, Range>)
    requires Replacing(was, fields, exact) && forall part :: part in exact ==> Stored(exact[part]) == exact[part]
    ensures exact.Keys <= {UserInfo, Host, Port} && (forall part :: part in fields <==> part in was || part in exact)
    ensures forall part :: part in fields ==> fields[part] == if part in exact then exact[part] else was[part]
  {
    hide Stored;
  }

  lemma FieldsInOrder(text: seq<Byte>, n: nat, s0: UrlState, h0: HostState, exact: map<Part, Range>,
                      server: map<Part, Range>, fields: map<Part, Range>,
                      a: Part, b: Part)
    requires n <= |text| && Scanned(text, n, s0, h0, exact, server, fields) && a in fields && b in fields
             && Order(a) < Order(b)
    requires Host in exact ==> Host in server
    ensures fields[a].off + fields[a].len <= fields[b].off
  {
    hide StateAfter, HostAfter, HostEnds, UrlClass, HostClass, Covers, Rising, Replacing;
    FieldPlaces(text, n, s0, h0, exact, server, fields);
    NoServerParts(text, n, s0, exact);
    UrlRises(s0, text);
    RisingPart(UrlClass(s0, text), 0, |text|, n);
    var cls := UrlClass(s0, text);
    if a in server && b in server {
      var lo, hi := exact[Host].off, exact[Host].off + exact[Host].len;
      HostRises(h0, text, lo);
      RisingPart(HostClass(h0, text, lo), lo, |text|, hi);
      InOrder(server, HostClass(h0, text, lo), lo, hi, a, b);
    } else if a in server {
      InOrder(exact, cls, 0, n, Host, b);
    } else if b in server {
      InOrder(exact, cls, 0, n, a, Host);
    } else {
      InOrder(exact, cls, 0, n, a, b);
    }
  }

  // The syntax

  lemma AllowedShape(f: Form, c: bool)
    requires Allowed(f, c)
    ensures Shaped(f, c) && (c ==> FieldsOf(f).Keys == {Host, Port})
  {
    if c {
      var a := f.authority.value;
      HostNotEmpty(a);
      forall part: Part
        ensures PartText(f, part) != [] <==> part == Host || part == Port
      {
      }
      assert FieldsOf(f).Keys == {Host, Port};
    }
  }

  lemma UrlShape(text: seq<Byte>, n: nat, c: bool, f: Form)
    requires n <= |text| && IsUrl(text, n, c, f)
    ensures Shaped(f, c) && FormText(f) == text[..n] && PortFits(text, FieldsOf(f))
    ensures c ==> FieldsOf(f).Keys == {Host, Port}
  {
    hide FormText, FieldsOf, Shaped, Allowed, PortFits;
    AllowedShape(f, c);
  }

  /** A URL is none of which the first loop finds a byte out of place. */
  lemma DeadIsNoUrl(text: seq<Byte>, n: nat, c: bool)
    requires n <= |text| && StateAfter(Scan.Start(c), text, n) == UrlDead
    ensures !exists f: Form :: IsUrl(text, n, c, f)
  {
    hide FormText, FieldsOf, Allowed, Shaped, StateAfter;
    forall f: Form
      ensures !IsUrl(text, n, c, f)
    {
      if IsUrl(text, n, c, f) {
        UrlShape(text, n, c, f);
        FormScanned(f, c, text, n);
      }
    }
  }

  /** What the first loop finds in a URL: its parts. */
  lemma FoundInUrl(text: seq<Byte>, n: nat, c: bool, exact: map<Part, Range>, f: Form)
    requires n <= |text| && Covers(exact, UrlClass(Scan.Start(c), text), 0, n)
    requires Shaped(f, c) && FormText(f) == text[..n]
    ensures OuterOf(f).slashes <= 3 && exact == Scan.OuterFields(OuterOf(f), c)
    ensures (Host in exact <==> f.authority.Some?) && (Schema in exact ==> Host in exact)
    ensures SeenAt(Scan.Start(c), text, n) <==> f.authority.Some? && f.authority.value.user.Some?
    ensures Host in exact ==>
              var lo, hi := exact[Host].off, exact[Host].off + exact[Host].len;
              var h0 := Inside.HostBegin(SeenAt(Scan.Start(c), text, n));
              && lo == |LeadText(f)| && hi <= n && HostEnds(HostAfter(h0, text, lo, hi))
              && Covers(Inside.InnerFields(InnerOf(f.authority.value), lo), HostClass(h0, text, lo), lo, hi)
  {
    hide FormText, FieldsOf, Allowed, StateAfter, HostAfter, HostEnds, Covers, UrlClass, HostClass, SeenAt, ValidForm;
    hide LeadText, AuthorityText, InnerOf, Inside.InnerFields;
    FormScanned(f, c, text, n);
    CoversUnique(exact, Scan.OuterFields(OuterOf(f), c), UrlClass(Scan.Start(c), text), 0, n);
    if f.authority.Some? { ServerScanned(f, c, text, n); }
  }

  lemma NoHostIsNoUrl(text: seq<Byte>, n: nat, c: bool, exact: map<Part, Range>)
    requires n <= |text| && Covers(exact, UrlClass(Scan.Start(c), text), 0, n) && Schema in exact && Host !in exact
    ensures !exists f: Form :: IsUrl(text, n, c, f)
  {
    hide *;
    forall f: Form
      ensures !IsUrl(text, n, c, f)
    {
      if IsUrl(text, n, c, f) {
        UrlShape(text, n, c, f);
        FoundInUrl(text, n, c, exact, f);
      }
    }
  }

  lemma BadHostIsNoUrl(text: seq<Byte>, n: nat, c: bool, exact: map<Part, Range>)
    requires n <= |text| && Covers(exact, UrlClass(Scan.Start(c), text), 0, n) && Host in exact
    requires exact[Host].off + exact[Host].len <= n
    requires !HostEnds(HostAfter(Inside.HostBegin(SeenAt(Scan.Start(c), text, n)), text, exact[Host].off,
                                 exact[Host].off + exact[Host].len))
    ensures !exists f: Form :: IsUrl(text, n, c, f)
  {
    hide *;
    forall f: Form
      ensures !IsUrl(text, n, c, f)
    {
      if IsUrl(text, n, c, f) {
        UrlShape(text, n, c, f);
        FoundInUrl(text, n, c, exact, f);
      }
    }
  }

  /** Of any URL that the text is, the fields are the parts. */
  lemma FieldsOfUrls(text: seq<Byte>, n: nat, c: bool, exact: map<Part, Range>, server: map<Part, Range>,
                     fields: map<Part, Range>)
    requires n <= |text|
    requires Scanned(text, n, Scan.Start(c), Inside.HostBegin(SeenAt(Scan.Start(c), text, n)), exact, server, fields)
    ensures forall f: Form :: IsUrl(text, n, c, f) ==>
              fields == FieldsOf(f) && PortFits(text, fields) && (c ==> fields.Keys == {Host, Port})
  {
    forall f: Form | IsUrl(text, n, c, f)
      ensures fields == FieldsOf(f) && PortFits(text, fields) && (c ==> fields.Keys == {Host, Port})
    {
      UrlShape(text, n, c, f);
      FieldsOfShaped(text, n, c, exact, server, fields, f);
    }
  }

  lemma FieldsOfShaped(text: seq<Byte>, n: nat, c: bool, exact: map<Part, Range>, server: map<Part, Range>,
                       fields: map<Part, Range>, f: Form)
    requires n <= |text| && Shaped(f, c) && FormText(f) == text[..n]
    requires Scanned(text, n, Scan.Start(c), Inside.HostBegin(SeenAt(Scan.Start(c), text, n)), exact, server, fields)
    ensures fields == FieldsOf(f)
  {
    hide FormText, FieldsOf, Allowed, StateAfter, HostAfter, HostEnds, Covers, UrlClass, HostClass, SeenAt, ValidForm;
    hide LeadText, InnerOf, OuterOf, Inside.InnerFields, Scan.OuterFields, Replacing, PortFits, Shaped;
    FoundInUrl(text, n, c, exact, f);
    FieldPlaces(text, n, Scan.Start(c), Inside.HostBegin(SeenAt(Scan.Start(c), text, n)), exact, server, fields);
    if Host in exact {
      var lo, hi := exact[Host].off, exact[Host].off + exact[Host].len;
      var h0 := Inside.HostBegin(SeenAt(Scan.Start(c), text, n));
      CoversUnique(server, Inside.InnerFields(InnerOf(f.authority.value), lo), HostClass(h0, text, lo), lo, hi);
    }
    FieldsAreParts(f, c, fields);
  }

  /** A text that both loops have gone through is a URL, if nothing is left to be refused. */
  lemma UrlOrNone(text: seq<Byte>, n: nat, c: bool, exact: map<Part, Range>, server: map<Part, Range>,
                  fields: map<Part, Range>)
    requires n <= |text|
    requires Scanned(text, n, Scan.Start(c), Inside.HostBegin(SeenAt(Scan.Start(c), text, n)), exact, server, fields)
    requires Schema in exact ==> Host in exact
    ensures (c ==> fields.Keys == {Host, Port}) && PortFits(text, fields) ==> exists f: Form :: IsUrl(text, n, c, f)
  {
    hide FormText, FieldsOf, StateAfter, HostAfter, HostEnds, Covers, UrlClass, HostClass, SeenAt, ValidForm;
    hide Replacing, PortFits, Allowed;
    var h0 := Inside.HostBegin(SeenAt(Scan.Start(c), text, n));
    FieldPlaces(text, n, Scan.Start(c), h0, exact, server, fields);
    if (c ==> fields.Keys == {Host, Port}) && PortFits(text, fields) {
      assert c ==> Host in exact by { if c { assert Host in fields; } }
      var f := ScannedIsForm(c, text, n, exact);
      FieldsOfShaped(text, n, c, exact, server, fields, f);
      ShapedIsAllowed(f, c);
      assert IsUrl(text, n, c, f);
    }
  }

  lemma ShapedIsAllowed(f: Form, c: bool)
    requires Shaped(f, c) && (c ==> FieldsOf(f).Keys == {Host, Port})
    ensures Allowed(f, c)
  {
    hide ValidForm, PartStart;
    if c {
      forall part: Part
        ensures PartText(f, part) != [] <==> part in {Host, Port}
      {
        assert PartText(f, part) != [] <==> part in FieldsOf(f).Keys;
      }
      assert PartText(f, Path) == [] && PartText(f, Query) == [] && PartText(f, Fragment) == [];
      assert PartText(f, UserInfo) == [] && PartText(f, Port) != [];
    }
  }

  lemma PortOrNone(text: seq<Byte>, fields: map<Part, Range>)
    ensures PortFits(text, fields) <==>
              (Port in fields && fields[Port].off <= |text| ==> DecimalOf(DigitsFrom(text, fields[Port].off)) <= 0xFFFF)
  {}

  lemma RisingPart(cls: int -> Option<Part>, lo: nat, top: nat, n: nat)
    requires Rising(cls, lo, top) && n <= top
    ensures Rising(cls, lo, n)
  {}

  lemma UrlDelimiter(s: UrlState, ch: Byte)
    requires ParseUrlChar(s, ch) != UrlDead && PartOf(ParseUrlChar(s, ch)) == None
    ensures ch in {':', '/', '?', '#'}
  {
    hide IsUserInfoChar, IsUrlChar, IsAlpha;
  }

  lemma HostDelimiter(s: HostState, ch: Byte)
    requires ParseHostChar(s, ch) != HostDead && HostPartOf(ParseHostChar(s, ch)) == None
    ensures ch in {':', '@', '[', ']'}
  {
    hide IsUserInfoChar, IsHostChar, IsAlpha, IsHexDigit;
  }

  /** A byte is in a field or is a delimiter. */
  lemma EveryByte(text: seq<Byte>, n: nat, s0: UrlState, h0: HostState, exact: map<Part, Range>,
                  server: map<Part, Range>, fields: map<Part, Range>, q: nat)
    requires n <= |text| && Scanned(text, n, s0, h0, exact, server, fields) && q < n
             && (Host in exact ==> Host in server)
    ensures InField(fields, q) || text[q] in {':', '/', '?', '#', '@', '[', ']'}
  {
    hide HostEnds, ParseUrlChar, ParseHostChar, PartOf, HostPartOf, Replacing;
    FieldPlaces(text, n, s0, h0, exact, server, fields);
    var part := PartOf(StateAfter(s0, text, q + 1));
    assert UrlClass(s0, text)(q) == part;
    if part.None? {
      if StateAfter(s0, text, q + 1) == UrlDead { DeadStays(s0, text, q + 1, n); }
      UrlDelimiter(StateAfter(s0, text, q), text[q]);
    } else if part.value in server {
      NoServerParts(text, n, s0, exact);
      assert part == Some(Host);
      ServerByte(text, n, s0, h0, exact, server, fields, q);
    } else {
      assert part.value in fields && fields[part.value] == exact[part.value];
    }
  }

  lemma ServerByte(text: seq<Byte>, n: nat, s0: UrlState, h0: HostState, exact: map<Part, Range>,
                   server: map<Part, Range>, fields: map<Part, Range>, q: nat)
    requires n <= |text| && Scanned(text, n, s0, h0, exact, server, fields) && q < n && Host in exact
    requires exact[Host].off <= q < exact[Host].off + exact[Host].len
    ensures InField(fields, q) || text[q] in {':', '@', '[', ']'}
  {
    hide ParseUrlChar, ParseHostChar, PartOf, HostPartOf, StateAfter, UrlClass, Replacing;
    FieldPlaces(text, n, s0, h0, exact, server, fields);
    var lo, hi := exact[Host].off, exact[Host].off + exact[Host].len;
    var h := HostAfter(h0, text, lo, q + 1);
    ClassAt(h0, text, lo, q);
    if HostPartOf(h).None? {
      if h == HostDead { HostDeadStays(h0, text, lo, q + 1, hi); }
      HostDelimiter(HostAfter(h0, text, lo, q), text[q]);
    } else {
      assert HostPartOf(h).value in server;
    }
  }

  lemma PortDigit(s: HostState, ch: Byte)
    requires HostPartOf(ParseHostChar(s, ch)) == Some(Port)
    ensures IsNum(ch)
  {}

  lemma SplitWell(text: seq<Byte>, n: nat, s0: UrlState, h0: HostState, exact: map<Part, Range>,
                  server: map<Part, Range>, fields: map<Part, Range>)
    requires n <= |text| && Scanned(text, n, s0, h0, exact, server, fields) && (Host in exact ==> Host in server)
    ensures WellSplit(fields, text, n)
  {
    hide Scanned, HostEnds, Replacing;
    FieldPlaces(text, n, s0, h0, exact, server, fields);
    PortIsDigits(text, n, s0, h0, exact, server, fields);
    forall a, b | a in fields && b in fields && Order(a) < Order(b)
      ensures fields[a].off + fields[a].len <= fields[b].off
    {
      FieldsInOrder(text, n, s0, h0, exact, server, fields, a, b);
    }
    forall q: nat | q < n
      ensures InField(fields, q) || text[q] in {':', '/', '?', '#', '@', '[', ']'}
    {
      EveryByte(text, n, s0, h0, exact, server, fields, q);
    }
  }

  lemma PortIsDigits(text: seq<Byte>, n: nat, s0: UrlState, h0: HostState, exact: map<Part, Range>,
                     server: map<Part, Range>, fields: map<Part, Range>)
    requires n <= |text| && Scanned(text, n, s0, h0, exact, server, fields)
    requires forall part :: part in fields ==> fields[part].off + fields[part].len <= n
    ensures Port in fields ==>
              forall q :: fields[Port].off <= q < fields[Port].off + fields[Port].len ==> IsNum(text[q])
  {
    hide HostEnds, Replacing, ParseHostChar, UrlClass, StateAfter;
    FieldPlaces(text, n, s0, h0, exact, server, fields);
    NoServerParts(text, n, s0, exact);
    if Port in fields {
      var lo := exact[Host].off;
      forall q | fields[Port].off <= q < fields[Port].off + fields[Port].len
        ensures IsNum(text[q])
      {
        ClassAt(h0, text, lo, q);
        PortDigit(HostAfter(h0, text, lo, q), text[q]);
      }
    }
  }

  /** The number of a port is that of its text, unless the text goes on with digits behind the URL. */
  lemma PortOfText(text: seq<Byte>, off: nat, len: nat)
    requires off + len <= |text| && forall q :: off <= q < off + len ==> IsNum(text[q])
    ensures len <= |DigitsFrom(text, off)| && DigitsFrom(text, off)[..len] == text[off..off + len]
    ensures DecimalOf(DigitsFrom(text, off)) == DecimalOf(text[off..off + len])
            <==> off + len == |text| || !IsNum(text[off + len]) || DecimalOf(DigitsFrom(text, off)) == 0
  {
    DigitsGoOn(text, off, len);
    var d := DigitsFrom(text, off);
    assert d[..len] == text[off..off + len];
    DecimalPrefix(d, len);
    if |d| > len {
      LongerNumber(d, len);
    } else {
      assert d[..len] == d;
    }
  }

  lemma {:induction false} DigitsGoOn(text: seq<Byte>, off: nat, len: nat)
    requires off + len <= |text| && forall q :: off <= q < off + len ==> IsNum(text[q])
    ensures len <= |DigitsFrom(text, off)|
    ensures |DigitsFrom(text, off)| == len <==> off + len == |text| || !IsNum(text[off + len])
    decreases len
  {
    if len > 0 {
      DigitsGoOn(text, off + 1, len - 1);
    }
  }

  /** A number with more digits behind it is larger, unless it is zero. */
  lemma {:induction false} LongerNumber(d: seq<Byte>, len: nat)
    requires len < |d| && forall i :: 0 <= i < |d| ==> IsNum(d[i])
    ensures DecimalOf(d) > DecimalOf(d[..len]) || DecimalOf(d) == 0
    decreases |d|
  {
    var u := d[..|d| - 1];
    DecimalPrefix(u, len);
    if len < |u| {
      LongerNumber(u, len);
      assert u[..len] == d[..len];
    } else {
      assert u == d[..len];
    }
  }

  lemma {:induction false} SlashesArePath(text: seq<Byte>, p: nat)
    requires 0 < p <= |text| && forall i :: 0 <= i < |text| ==> text[i] == '/'
    ensures StateAfter(SpacesBeforeUrl, text, p) == InPath
    decreases p
  {
    if p > 1 {
      SlashesArePath(text, p - 1);
    }
  }

  /** Longer URLs need more than 16 bits: a path of 2^16 bytes is stored as an empty one. */
  lemma LongPath(text: seq<Byte>)
    requires |text| == UINT16 && forall i :: 0 <= i < |text| ==> text[i] == '/'
    ensures Covers(map[Path := Range(0, UINT16)], UrlClass(SpacesBeforeUrl, text), 0, UINT16)
    ensures StoredAs(map[Path := Range(0, 0)], map[Path := Range(0, UINT16)])
  {
    var cls := UrlClass(SpacesBeforeUrl, text);
    forall q: int | 0 <= q < UINT16
      ensures cls(q) == Some(Path)
    {
      SlashesArePath(text, q + 1);
    }
  }
}
