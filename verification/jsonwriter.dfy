/**
 * parson's serializer as it runs: once with no buffer to find the size, and once through a buffer of
 * exactly that size.
 */
module JsonWriter {
  import opened Bytes
  import opened ObjectTable
  import opened JsonText

  /** The buffer of a serialization, if there is one, and how many characters have been put out. */
  class Output {
    const buf: array?<Byte>
    var written: nat

    // The text this serialization is to put out, and the part of it that is still to come.
    ghost const whole: seq<Byte>
    ghost var rest: seq<Byte>

    constructor (buf: array?<Byte>, ghost whole: seq<Byte>)
      requires buf != null ==> buf.Length > |whole|
      ensures Valid() && this.buf == buf && this.whole == whole && rest == whole
    {
      this.buf, written, this.whole, rest := buf, 0, whole, whole;
    }

    ghost predicate Valid()
      reads this, buf
    {
      && written <= |whole| && rest == whole[written..]
      && (buf != null ==> buf.Length > |whole| && buf[..written] == whole[..written])
    }

    /** append_string: sprintf also stores a terminating zero. */
    method AppendString(s: seq<Byte>, ghost more: seq<Byte>)
      requires Valid() && rest == s + more
      modifies this`written, this`rest, buf
      ensures Valid() && rest == more && written == old(written) + |s|
      ensures buf != null ==> buf[written] == '\0'
    {
      assert s == rest[..|s|] && more == rest[|s|..];
      if buf != null {
        forall k | 0 <= k < |s| {
          buf[written + k] := s[k];
        }
        buf[written + |s|] := '\0';
        assert buf[..written + |s|] == whole[..written + |s|] by {
          assert forall k :: 0 <= k < |s| ==> s[k] == rest[k] == whole[written + k];
          assert forall k :: 0 <= k < written ==> buf[k] == old(buf[..written])[k];
        }
      }
      written := written + |s|;
      rest := more;
    }

    /** A plain character of json_serialize_string is stored without a terminating zero. */
    method AppendCharacter(c: Byte, ghost more: seq<Byte>)
      requires Valid() && rest == [c] + more
      modifies this`written, this`rest, buf
      ensures Valid() && rest == more && written == old(written) + 1
    {
      assert c == rest[0] && more == rest[1..];
      if buf != null {
        buf[written] := c;
        assert buf[..written + 1] == whole[..written + 1];
      }
      written := written + 1;
      rest := more;
    }

    /** append_indent */
    method AppendIndent(level: nat, ghost more: seq<Byte>)
      requires Valid() && rest == Indent(level) + more
      modifies this`written, this`rest, buf
      ensures Valid() && rest == more
    {
      for i := 0 to level
        invariant Valid() && rest == Indent(level - i) + more
      {
        Regroup("    ", Indent(level - i - 1), more);
        AppendString("    ", Indent(level - i - 1) + more);
      }
      assert [] + more == more;
    }

    /** Text that is only written in pretty output. */
    method AppendPretty<N>(cfg: Config<N>, s: seq<Byte>, ghost more: seq<Byte>)
      requires Valid() && rest == Pretty(cfg, s) + more
      modifies this`written, this`rest, buf
      ensures Valid() && rest == more
    {
      if cfg.pretty {
        AppendString(s, more);
      } else {
        assert [] + more == more;
      }
    }

    method AppendPrettyIndent<N>(cfg: Config<N>, level: nat, ghost more: seq<Byte>)
      requires Valid() && rest == Pretty(cfg, Indent(level)) + more
      modifies this`written, this`rest, buf
      ensures Valid() && rest == more
    {
      if cfg.pretty {
        AppendIndent(level, more);
      } else {
        assert [] + more == more;
      }
    }

    /** json_serialize_string */
    method AppendQuoted(s: seq<Byte>, escapeSlashes: bool, ghost more: seq<Byte>)
      requires Valid() && rest == SerializeString(s, escapeSlashes) + more
      modifies this`written, this`rest, buf
      ensures Valid() && rest == more
      ensures buf != null ==> buf[written] == '\0'
    {
      ghost var end := ['"'] + more;
      assert rest == ['"'] + (EscapeAll(s, escapeSlashes) + end);
      AppendString("\"", EscapeAll(s, escapeSlashes) + end);
      assert s[0..] == s;
      for i := 0 to |s|
        invariant Valid() && rest == EscapeAll(s[i..], escapeSlashes) + end
      {
        ghost var after := EscapeAll(s[i + 1..], escapeSlashes);
        assert s[i..][0] == s[i] && s[i..][1..] == s[i + 1..];
        var c := Escape(s[i], escapeSlashes);
        Regroup(c, after, end);
        if |c| > 1 {
          AppendString(c, after + end);
        } else {
          assert c == [c[0]];
          AppendCharacter(c[0], after + end);
        }
      }
      assert s[|s|..] == [];
      assert [] + end == end;
      AppendString("\"", more);
    }

    method AppendSeparator<N>(cfg: Config<N>, last: bool, ghost more: seq<Byte>)
      requires Valid() && rest == Separator(cfg, last) + more
      modifies this`written, this`rest, buf
      ensures Valid() && rest == more
    {
      Regroup(if last then [] else ",", Pretty(cfg, "\n"), more);
      if !last {
        AppendString(",", Pretty(cfg, "\n") + more);
      } else {
        assert [] + (Pretty(cfg, "\n") + more) == Pretty(cfg, "\n") + more;
      }
      AppendPretty(cfg, "\n", more);
    }

    /** json_serialize_to_buffer_r */
    method AppendValue<N>(cfg: Config<N>, value: Value<N>, level: nat, ghost more: seq<Byte>)
      requires Valid() && rest == Serialize(cfg, value, level) + more
      modifies this`written, this`rest, buf
      ensures Valid() && rest == more
      ensures buf != null ==> buf[written] == '\0'
      decreases value, 1
    {
      match value
      case Null => AppendString("null", more);
      case Boolean(b) => AppendString(if b then "true" else "false", more);
      case Number(n) => AppendString(cfg.fmt.write(n), more);
      case String(s) => AppendQuoted(s, cfg.escapeSlashes, more);
      case Array(items) => AppendArray(cfg, items, level, more);
      case Object(names, values) => AppendObject(cfg, names, values, level, more);
    }

    method AppendArray<N>(cfg: Config<N>, items: seq<Value<N>>, level: nat, ghost more: seq<Byte>)
      requires Valid() && rest == Serialize(cfg, Array(items), level) + more
      modifies this`written, this`rest, buf
      ensures Valid() && rest == more
      ensures buf != null ==> buf[written] == '\0'
      decreases items, 4
    {
      ghost var close := (if items == [] then [] else Pretty(cfg, Indent(level))) + ("]" + more);
      ghost var inside := SerializeItems(cfg, items, level) + close;
      ArrayText(cfg, items, level, more);
      AppendOpening(cfg, "[", items == [], inside);
      assert items[0..] == items;
      for i := 0 to |items|
        invariant Valid() && rest == SerializeItems(cfg, items[i..], level) + close
      {
        assert items[i..][0] == items[i] && items[i..][1..] == items[i + 1..];
        ghost var after := SerializeItems(cfg, items[i + 1..], level) + close;
        ItemsText(cfg, items[i..], level, close);
        AppendItem(cfg, items[i], level, i == |items| - 1, after);
      }
      assert items[|items|..] == [];
      assert [] + close == close;
      AppendClosing(cfg, level, "]", items == [], more);
    }

    /** The bracket that opens a container, and its line break unless it is empty. */
    method AppendOpening<N>(cfg: Config<N>, bracket: seq<Byte>, empty: bool, ghost more: seq<Byte>)
      requires Valid() && rest == bracket + ((if empty then [] else Pretty(cfg, "\n")) + more)
      modifies this`written, this`rest, buf
      ensures Valid() && rest == more
    {
      AppendString(bracket, (if empty then [] else Pretty(cfg, "\n")) + more);
      if !empty {
        AppendPretty(cfg, "\n", more);
      } else {
        assert [] + more == more;
      }
    }

    /** The bracket that closes a container, indented unless it is empty. */
    method AppendClosing<N>(cfg: Config<N>, level: nat, bracket: seq<Byte>, empty: bool, ghost more: seq<Byte>)
      requires Valid() && rest == (if empty then [] else Pretty(cfg, Indent(level))) + (bracket + more)
      modifies this`written, this`rest, buf
      ensures Valid() && rest == more
      ensures buf != null ==> buf[written] == '\0'
    {
      if !empty {
        AppendPrettyIndent(cfg, level, bracket + more);
      } else {
        assert [] + (bracket + more) == bracket + more;
      }
      AppendString(bracket, more);
    }

    /** One round of the array loop. */
    method AppendItem<N>(cfg: Config<N>, item: Value<N>, level: nat, last: bool, ghost more: seq<Byte>)
      requires Valid() && rest == ItemText(cfg, item, level, last, more)
      modifies this`written, this`rest, buf
      ensures Valid() && rest == more
      decreases item, 2
    {
      ghost var after := Separator(cfg, last) + more;
      AppendPrettyIndent(cfg, level + 1, Serialize(cfg, item, level + 1) + after);
      AppendValue(cfg, item, level + 1, after);
      AppendSeparator(cfg, last, more);
    }

    method AppendObject<N>(cfg: Config<N>, names: seq<Key>, values: seq<Value<N>>, level: nat, ghost more: seq<Byte>)
      requires Valid() && rest == Serialize(cfg, Object(names, values), level) + more
      modifies this`written, this`rest, buf
      ensures Valid() && rest == more
      ensures buf != null ==> buf[written] == '\0'
      decreases values, 4
    {
      ghost var close := (if values == [] then [] else Pretty(cfg, Indent(level))) + ("}" + more);
      hide SerializeMembers, Serialize, MemberText, Separator;
      ghost var inside := SerializeMembers(cfg, names, values, level) + close;
      ObjectText(cfg, names, values, level, more);
      AppendOpening(cfg, "{", values == [], inside);
      assert names[0..] == names && values[0..] == values;
      var count := if |names| < |values| then |names| else |values|;
      for i := 0 to count
        invariant Valid() && rest == SerializeMembers(cfg, names[i..], values[i..], level) + close
      {
        assert names[i..][0] == names[i] && names[i..][1..] == names[i + 1..];
        assert values[i..][0] == values[i] && values[i..][1..] == values[i + 1..];
        ghost var after := SerializeMembers(cfg, names[i + 1..], values[i + 1..], level) + close;
        MembersText(cfg, names[i..], values[i..], level, close);
        AppendMember(cfg, names[i], values[i], level, i == |values| - 1, after);
      }
      NoMembers(cfg, names[count..], values[count..], level);
      assert [] + close == close;
      AppendClosing(cfg, level, "}", values == [], more);
    }

    /** One round of the object loop. */
    method AppendMember<N>(cfg: Config<N>, name: Key, value: Value<N>, level: nat, last: bool, ghost more: seq<Byte>)
      requires Valid() && rest == MemberText(cfg, name, value, level, last, more)
      modifies this`written, this`rest, buf
      ensures Valid() && rest == more
      decreases value, 2
    {
      ghost var after := Separator(cfg, last) + more;
      ghost var mapped := Pretty(cfg, " ") + (Serialize(cfg, value, level + 1) + after);
      AppendPrettyIndent(cfg, level + 1, SerializeString(name, cfg.escapeSlashes) + (":" + mapped));
      AppendQuoted(name, cfg.escapeSlashes, ":" + mapped);
      AppendString(":", mapped);
      AppendPretty(cfg, " ", Serialize(cfg, value, level + 1) + after);
      AppendValue(cfg, value, level + 1, after);
      AppendSeparator(cfg, last, more);
    }
  }

  // The serialized text, cut where the writer moves from one piece to the next

  lemma Regroup(a: seq<Byte>, b: seq<Byte>, c: seq<Byte>)
    ensures a + b + c == a + (b + c)
  {}

  function ItemText<N>(cfg: Config<N>, item: Value<N>, level: nat, last: bool, more: seq<Byte>): seq<Byte> {
    Pretty(cfg, Indent(level + 1)) + (Serialize(cfg, item, level + 1) + (Separator(cfg, last) + more))
  }

  function MemberText<N>(cfg: Config<N>, name: Key, value: Value<N>, level: nat, last: bool, more: seq<Byte>)
    : seq<Byte>
  {
    Pretty(cfg, Indent(level + 1)) + (SerializeString(name, cfg.escapeSlashes) + (":" + (Pretty(cfg, " ")
    + (Serialize(cfg, value, level + 1) + (Separator(cfg, last) + more)))))
  }

  lemma RegroupFour(a: seq<Byte>, b: seq<Byte>, c: seq<Byte>, d: seq<Byte>, e: seq<Byte>)
    ensures a + b + c + d + e == a + (b + (c + (d + e)))
  {
    Regroup(a + b + c, d, e);
    Regroup(a + b, c, d + e);
    Regroup(a, b, c + (d + e));
  }

  lemma ArrayText<N>(cfg: Config<N>, items: seq<Value<N>>, level: nat, more: seq<Byte>)
    ensures Serialize(cfg, Array(items), level) + more
            == "[" + ((if items == [] then [] else Pretty(cfg, "\n")) + (SerializeItems(cfg, items, level)
               + ((if items == [] then [] else Pretty(cfg, Indent(level))) + ("]" + more))))
  {
    var first := if items == [] then [] else Pretty(cfg, "\n");
    var last := if items == [] then [] else Pretty(cfg, Indent(level));
    Regroup("[" + first + SerializeItems(cfg, items, level) + last, "]", more);
    RegroupFour("[", first, SerializeItems(cfg, items, level), last, "]" + more);
  }

  lemma ObjectText<N>(cfg: Config<N>, names: seq<Key>, values: seq<Value<N>>, level: nat, more: seq<Byte>)
    ensures Serialize(cfg, Object(names, values), level) + more
            == "{" + ((if values == [] then [] else Pretty(cfg, "\n")) + (SerializeMembers(cfg, names, values, level)
               + ((if values == [] then [] else Pretty(cfg, Indent(level))) + ("}" + more))))
  {
    var first := if values == [] then [] else Pretty(cfg, "\n");
    var last := if values == [] then [] else Pretty(cfg, Indent(level));
    Regroup("{" + first + SerializeMembers(cfg, names, values, level) + last, "}", more);
    RegroupFour("{", first, SerializeMembers(cfg, names, values, level), last, "}" + more);
  }

  lemma ItemsText<N>(cfg: Config<N>, items: seq<Value<N>>, level: nat, more: seq<Byte>)
    requires items != []
    ensures SerializeItems(cfg, items, level) + more
            == ItemText(cfg, items[0], level, |items| == 1, SerializeItems(cfg, items[1..], level) + more)
  {
    RegroupFour(Pretty(cfg, Indent(level + 1)), Serialize(cfg, items[0], level + 1), Separator(cfg, |items| == 1),
      SerializeItems(cfg, items[1..], level), more);
  }

  lemma NoMembers<N>(cfg: Config<N>, names: seq<Key>, values: seq<Value<N>>, level: nat)
    requires names == [] || values == []
    ensures SerializeMembers(cfg, names, values, level) == []
  {}

  lemma MembersText<N>(cfg: Config<N>, names: seq<Key>, values: seq<Value<N>>, level: nat, more: seq<Byte>)
    requires values != [] && names != []
    ensures SerializeMembers(cfg, names, values, level) + more
            == MemberText(cfg, names[0], values[0], level, |values| == 1,
                 SerializeMembers(cfg, names[1..], values[1..], level) + more)
  {
    var a, b := Pretty(cfg, Indent(level + 1)), SerializeString(names[0], cfg.escapeSlashes);
    var c, d := Pretty(cfg, " "), Serialize(cfg, values[0], level + 1);
    var e, f := Separator(cfg, |values| == 1), SerializeMembers(cfg, names[1..], values[1..], level);
    RegroupFour(a + b + ":" + c, d, e, f, more);
    RegroupFour(a, b, ":", c, d + (e + (f + more)));
  }

  /** json_serialization_size and json_serialization_size_pretty: the text and its terminating zero. */
  method SerializationSize<N>(cfg: Config<N>, value: Value<N>) returns (size: nat)
    ensures size == |Serialize(cfg, value, 0)| + 1
  {
    var output := new Output(null, Serialize(cfg, value, 0));
    assert output.rest + [] == output.rest;
    output.AppendValue(cfg, value, 0, []);
    size := output.written + 1;
  }

  /** json_serialize_to_buffer: it succeeds exactly when the buffer holds the text and its zero. */
  method SerializeToBuffer<N>(cfg: Config<N>, value: Value<N>, buf: array<Byte>) returns (ok: bool)
    modifies buf
    ensures ok <==> buf.Length > |Serialize(cfg, value, 0)|
    ensures ok ==> var t := Serialize(cfg, value, 0); buf[..|t|] == t && buf[|t|] == '\0'
    ensures !ok ==> buf[..] == old(buf[..])
  {
    var needed := SerializationSize(cfg, value);
    if buf.Length < needed {
      return false;
    }
    var output := new Output(buf, Serialize(cfg, value, 0));
    assert output.rest + [] == output.rest;
    output.AppendValue(cfg, value, 0, []);
    assert output.whole[..output.written] == output.whole;
    return true;
  }

  /** json_serialize_to_string */
  method SerializeToString<N>(cfg: Config<N>, value: Value<N>) returns (text: seq<Byte>)
    ensures text == Serialize(cfg, value, 0)
  {
    var size := SerializationSize(cfg, value);
    var buf := new Byte[size];
    var ok := SerializeToBuffer(cfg, value, buf);
    text := buf[..size - 1];
  }
}
