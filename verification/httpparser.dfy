/** The response half of http_parser in strict mode: what one byte does to the parser. */
module HttpParser {
  import opened Bytes

  const ULLONG_MAX: nat := 0xFFFF_FFFF_FFFF_FFFF
  const CR := '\r'
  const LF := '\n'

  /** The states of enum state that a response goes through; a name without its s_ or s_res_ prefix. */
  datatype State =
    | Dead | StartRes | ResH | ResHT | ResHTT | ResHTTP
    | FirstHttpMajor | HttpMajor | FirstHttpMinor | HttpMinor
    | FirstStatusCode | StatusCode | StatusStart | Status | LineAlmostDone
    | HeaderFieldStart | HeaderField
    | DiscardWs | DiscardWsAlmostDone | DiscardLws
    | HeaderValueStart | HeaderValue | HeaderValueLws | HeaderAlmostDone
    | ChunkSizeStart | ChunkSize | ChunkParameters | ChunkSizeAlmostDone
    | HeadersAlmostDone | HeadersDone
    | ChunkData | ChunkDataAlmostDone | ChunkDataDone
    | BodyIdentity | BodyIdentityEof | MessageDone

  /** PARSING_HEADER */
  predicate ParsingHeader(s: State) {
    !(s.ChunkData? || s.ChunkDataAlmostDone? || s.ChunkDataDone? || s.BodyIdentity? || s.BodyIdentityEof?
        || s.MessageDone?)
  }

  /** The header names the parser looks for, and the header each stands for. */
  datatype Name = NConnection | NProxyConnection | NContentLength | NTransferEncoding | NUpgrade {
    function Text(): string {
      match this
      case NConnection => "connection"
      case NProxyConnection => "proxy-connection"
      case NContentLength => "content-length"
      case NTransferEncoding => "transfer-encoding"
      case NUpgrade => "upgrade"
    }

    function Header(): Header {
      match this
      case NConnection => Connection
      case NProxyConnection => Connection
      case NContentLength => ContentLength
      case NTransferEncoding => TransferEncoding
      case NUpgrade => Upgrade
    }
  }

  datatype Header = Connection | ContentLength | TransferEncoding | Upgrade

  /** The header values the parser looks for. */
  datatype Token = Chunked | KeepAlive | Close | ConnectionUpgrade {
    function Text(): string {
      match this
      case Chunked => "chunked"
      case KeepAlive => "keep-alive"
      case Close => "close"
      case ConnectionUpgrade => "upgrade"
    }
  }

  /**
   * enum header_states: h_C, h_CO and h_CON by their names; Matching(n) is h_matching_ of a header
   * name and Known(h) is h_ of a header; MatchingToken(v) and Found(v) are the same for values;
   * TokenStart and InToken are h_matching_connection_token_start and h_matching_connection_token.
   */
  datatype HeaderState =
    | General | C | CO | CON
    | Matching(name: Name) | Known(header: Header)
    | MatchingToken(token: Token) | TokenStart | InToken | Found(token: Token)

  datatype Errno =
    | OK | InvalidEofState | HeaderOverflow | ClosedConnection | InvalidVersion | InvalidStatus
    | InvalidHeaderToken | InvalidContentLength | InvalidChunkSize | InvalidConstant | Strict

  datatype Flags = Flags(chunked: bool, keepAlive: bool, close: bool, connectionUpgrade: bool,
                         trailing: bool, upgrade: bool, skipBody: bool)

  const NO_FLAGS := Flags(false, false, false, false, false, false, false)

  /** The fields of struct http_parser, without nread. A response leaves method at its initial 0. */
  datatype Core = Core(state: State, header: HeaderState, index: nat, flags: Flags,
                       major: nat, minor: nat, status: nat, length: nat, upgrade: bool, errno: Errno)

  /** http_parser_init for HTTP_RESPONSE */
  const INITIAL := Core(StartRes, General, 0, NO_FLAGS, 0, 0, 0, 0, false, OK)

  // What the callbacks are told

  datatype Kind = StatusText | FieldName | FieldValue | Body

  datatype Note =
    | MessageBegin | HeadersComplete(status: nat) | ChunkHeader(length: nat) | ChunkComplete | MessageComplete

  /** What a callback saw: a byte of its data, or a notification. */
  datatype Seen = Data(kind: Kind, byte: Byte) | Notify(note: Note)

  /**
   * What a byte does: the new fields; the kind of data it belongs to; whether the data up to here
   * is then passed to its callback; the notifications after that; an early return; and whether
   * nread is set to zero.
   */
  datatype Out = Out(core: Core, kind: Option<Kind>, flush: bool, notes: seq<Note>, exit: bool, restart: bool)

  function Go(k: Core, s: State): Out {
    Out(k.(state := s), None, false, [], false, false)
  }

  function Fail(k: Core, e: Errno): Out {
    Out(k.(errno := e), None, false, [], false, false)
  }

  function Keep(kind: Kind, o: Out): Out {
    o.(kind := Some(kind))
  }

  function Pass(o: Out): Out {
    o.(flush := true)
  }

  function Told(note: Note, o: Out): Out {
    o.(notes := [note] + o.notes)
  }

  // Characters

  predicate IsNum(c: Byte) {
    '0' <= c <= '9'
  }

  function Digit(c: Byte): (d: nat)
    requires IsNum(c)
    ensures d <= 9
  {
    c as int - '0' as int
  }

  /** LOWER: the byte with bit 5 set. */
  function Lower(c: Byte): (l: Byte) {
    var b := c as int;
    if b < 0x20 || 0x40 <= b < 0x60 || 0x80 <= b < 0xA0 || 0xC0 <= b < 0xE0 then (b + 0x20) as char else c
  }

  /** STRICT_TOKEN and, in strict mode, TOKEN: whether the table has an entry. */
  predicate IsToken(c: Byte) {
    || 'a' <= c <= 'z' || 'A' <= c <= 'Z' || '0' <= c <= '9'
    || c in {'!', '#', '$', '%', '&', '\'', '*', '+', '-', '.', '^', '_', '`', '|', '~'}
  }

  /** The entry: the token character in lower case. */
  function TokenOf(c: Byte): (l: Byte) {
    if 'A' <= c <= 'Z' then (c as int + 0x20) as char else c
  }

  /** unhex */
  function Unhex(c: Byte): (d: int)
    ensures -1 <= d <= 15
  {
    if '0' <= c <= '9' then c as int - '0' as int
    else if 'a' <= c <= 'f' then c as int - 'a' as int + 10
    else if 'A' <= c <= 'F' then c as int - 'A' as int + 10
    else -1
  }

  // The end of a message

  /** http_message_needs_eof */
  predicate NeedsEof(k: Core) {
    && !(k.status / 100 == 1 || k.status == 204 || k.status == 304 || k.flags.skipBody)
    && !(k.flags.chunked || k.length != ULLONG_MAX)
  }

  /** http_should_keep_alive */
  predicate ShouldKeepAlive(k: Core) {
    && (if k.major > 0 && k.minor > 0 then !k.flags.close else k.flags.keepAlive)
    && !NeedsEof(k)
  }

  /** NEW_MESSAGE */
  function NewMessage(k: Core): State {
    if ShouldKeepAlive(k) then StartRes else Dead
  }

  /** s_message_done */
  function StepMessageDone(k: Core): Out {
    Out(k.(state := NewMessage(k)), None, false, [MessageComplete], k.upgrade, false)
  }

  // The status line

  /** s_dead to s_res_http_minor, and then the status */
  function StepStatusLine(k: Core, ch: Byte): Out {
    match k.state
    case Dead => if ch == CR || ch == LF then Go(k, Dead) else Fail(k, ClosedConnection)
    case StartRes =>
      var k := k.(flags := NO_FLAGS, length := ULLONG_MAX);
      if ch == 'H' then Told(MessageBegin, Go(k, ResH))
      else if ch == CR || ch == LF then Told(MessageBegin, Go(k, StartRes))
      else Fail(k, InvalidConstant)
    case ResH => if ch == 'T' then Go(k, ResHT) else Fail(k, Strict)
    case ResHT => if ch == 'T' then Go(k, ResHTT) else Fail(k, Strict)
    case ResHTT => if ch == 'P' then Go(k, ResHTTP) else Fail(k, Strict)
    case ResHTTP => if ch == '/' then Go(k, FirstHttpMajor) else Fail(k, Strict)
    case FirstHttpMajor => if IsNum(ch) then Go(k.(major := Digit(ch)), HttpMajor) else Fail(k, InvalidVersion)
    case HttpMajor =>
      if ch == '.' then Go(k, FirstHttpMinor)
      else if !IsNum(ch) then Fail(k, InvalidVersion)
      else
        var k := k.(major := k.major * 10 + Digit(ch));
        if k.major > 999 then Fail(k, InvalidVersion) else Go(k, HttpMajor)
    case FirstHttpMinor => if IsNum(ch) then Go(k.(minor := Digit(ch)), HttpMinor) else Fail(k, InvalidVersion)
    case HttpMinor =>
      if ch == ' ' then Go(k, FirstStatusCode)
      else if !IsNum(ch) then Fail(k, InvalidVersion)
      else
        var k := k.(minor := k.minor * 10 + Digit(ch));
        if k.minor > 999 then Fail(k, InvalidVersion) else Go(k, HttpMinor)
    case _ => StepStatus(k, ch)
  }

  /** s_res_first_status_code to s_res_line_almost_done */
  function StepStatus(k: Core, ch: Byte): Out {
    match k.state
    case FirstStatusCode =>
      if IsNum(ch) then Go(k.(status := Digit(ch)), StatusCode)
      else if ch == ' ' then Go(k, FirstStatusCode)
      else Fail(k, InvalidStatus)
    case StatusCode =>
      if IsNum(ch) then
        var k := k.(status := k.status * 10 + Digit(ch));
        if k.status > 999 then Fail(k, InvalidStatus) else Go(k, StatusCode)
      else if ch == ' ' then Go(k, StatusStart)
      else if ch == CR then Go(k, LineAlmostDone)
      else if ch == LF then Go(k, HeaderFieldStart)
      else Fail(k, InvalidStatus)
    case StatusStart =>
      if ch == CR then Go(k, LineAlmostDone)
      else if ch == LF then Go(k, HeaderFieldStart)
      else Keep(StatusText, Go(k.(index := 0), Status))
    case Status =>
      if ch == CR then Pass(Go(k, LineAlmostDone))
      else if ch == LF then Pass(Go(k, HeaderFieldStart))
      else Keep(StatusText, Go(k, Status))
    case _ => if ch == LF then Go(k, HeaderFieldStart) else Fail(k, Strict)
  }

  // Header fields

  /** One more character against a word: past its end, a zero byte is what it is compared with. */
  predicate Differs(word: string, index: nat, c: Byte) {
    index > |word| || c != (if index < |word| then word[index] else '\0')
  }

  /** A token character in s_header_field */
  function FieldChar(k: Core, ch: Byte): Core {
    var c := TokenOf(ch);
    match k.header
    case General => k
    case C => k.(index := k.index + 1, header := if c == 'o' then CO else General)
    case CO => k.(index := k.index + 1, header := if c == 'n' then CON else General)
    case CON =>
      k.(index := k.index + 1,
         header := if c == 'n' then Matching(NConnection) else if c == 't' then Matching(NContentLength) else General)
    case Matching(n) =>
      var index := k.index + 1;
      k.(index := index,
         header := if Differs(n.Text(), index, c) then General
                   else if index == |n.Text()| - 1 then Known(n.Header())
                   else k.header)
    case Known(_) => if ch != ' ' then k.(header := General) else k
    case _ => k
  }

  function StepHeaderField(k: Core, ch: Byte): Out {
    if IsToken(ch) then Keep(FieldName, Go(FieldChar(k, ch), HeaderField))
    else if ch == ':' then Pass(Go(k, DiscardWs))
    else Fail(k, InvalidHeaderToken)
  }

  /** s_header_field_start */
  function StepHeaderFieldStart(noBody: Core -> bool, k: Core, ch: Byte): Out {
    if ch == CR then Go(k, HeadersAlmostDone)
    else if ch == LF then StepHeadersAlmostDone(noBody, k.(state := HeadersAlmostDone), ch)
    else if !IsToken(ch) then Fail(k, InvalidHeaderToken)
    else
      var c := TokenOf(ch);
      var h := if c == 'c' then C
               else if c == 'p' then Matching(NProxyConnection)
               else if c == 't' then Matching(NTransferEncoding)
               else if c == 'u' then Matching(NUpgrade)
               else General;
      Keep(FieldName, Go(k.(index := 0, header := h), HeaderField))
  }

  /** s_headers_almost_done; noBody is what on_headers_complete answers: 0, or 1 for no body. */
  function StepHeadersAlmostDone(noBody: Core -> bool, k: Core, ch: Byte): Out {
    if ch != LF then Fail(k, Strict)
    else if k.flags.trailing then Told(ChunkComplete, StepMessageDone(k.(state := MessageDone)))
    else
      var k := k.(state := HeadersDone, upgrade := k.flags.upgrade && k.flags.connectionUpgrade);
      var k' := if noBody(k) then k.(flags := k.flags.(skipBody := true)) else k;
      Told(HeadersComplete(k.status), StepHeadersDone(k', ch))
  }

  /** s_headers_done */
  function StepHeadersDone(k: Core, ch: Byte): Out {
    if ch != LF then Fail(k, Strict)
    else
      var hasBody := k.flags.chunked || (k.length > 0 && k.length != ULLONG_MAX);
      var complete := Out(k.(state := NewMessage(k)), None, false, [MessageComplete], false, true);
      if k.upgrade && (k.flags.skipBody || !hasBody) then complete.(exit := true)
      else if k.flags.skipBody then complete
      else if k.flags.chunked then Go(k, ChunkSizeStart).(restart := true)
      else if k.length == 0 then complete
      else if k.length != ULLONG_MAX then Go(k, BodyIdentity).(restart := true)
      else if !NeedsEof(k) then complete
      else Go(k, BodyIdentityEof).(restart := true)
  }

  // Header values

  /** s_header_value_start */
  function StepHeaderValueStart(k: Core, ch: Byte): Out {
    var k := k.(state := HeaderValue, index := 0);
    var c := Lower(ch);
    match k.header
    case Known(Upgrade) => Keep(FieldValue, Go(k.(flags := k.flags.(upgrade := true), header := General), HeaderValue))
    case Known(TransferEncoding) =>
      Keep(FieldValue, Go(k.(header := if c == 'c' then MatchingToken(Chunked) else General), HeaderValue))
    case Known(ContentLength) =>
      if IsNum(ch) then Keep(FieldValue, Go(k.(length := Digit(ch)), HeaderValue))
      else Fail(k, InvalidContentLength)
    case Known(Connection) =>
      var h := if c == 'k' then MatchingToken(KeepAlive)
               else if c == 'c' then MatchingToken(Close)
               else if c == 'u' then MatchingToken(ConnectionUpgrade)
               else InToken;
      Keep(FieldValue, Go(k.(header := h), HeaderValue))
    case TokenStart => Keep(FieldValue, Go(k, HeaderValue))
    case _ => Keep(FieldValue, Go(k.(header := General), HeaderValue))
  }

  /** The flag a value sets when its header, or its item of a list, ends. */
  function SetFlag(flags: Flags, token: Token): Flags {
    match token
    case Chunked => flags.(chunked := true)
    case KeepAlive => flags.(keepAlive := true)
    case Close => flags.(close := true)
    case ConnectionUpgrade => flags.(connectionUpgrade := true)
  }

  /** A character other than CR and LF in s_header_value */
  function ValueChar(k: Core, ch: Byte): Core {
    var c := Lower(ch);
    match k.header
    case General => k
    case Known(ContentLength) =>
      if ch == ' ' then k
      else if !IsNum(ch) then k.(errno := InvalidContentLength)
      else
        var t := (k.length * 10 + Digit(ch)) % (ULLONG_MAX + 1);
        if (ULLONG_MAX - 10) / 10 < k.length then k.(errno := InvalidContentLength) else k.(length := t)
    case MatchingToken(v) =>
      var index := k.index + 1;
      k.(index := index,
         header := if Differs(v.Text(), index, c) then (if v == Chunked then General else InToken)
                   else if index == |v.Text()| - 1 then Found(v)
                   else k.header)
    case TokenStart =>
      k.(header := if c == 'k' then MatchingToken(KeepAlive)
                   else if c == 'c' then MatchingToken(Close)
                   else if c == 'u' then MatchingToken(ConnectionUpgrade)
                   else if IsToken(c) then InToken
                   else if c == ' ' || c == '\t' then TokenStart
                   else General)
    case InToken => if ch == ',' then k.(header := TokenStart, index := 0) else k
    case Found(v) =>
      if v == Chunked then (if ch != ' ' then k.(header := General) else k)
      else if ch == ',' then k.(flags := SetFlag(k.flags, v), header := TokenStart, index := 0)
      else if ch != ' ' then k.(header := InToken)
      else k
    case _ => k.(header := General)
  }

  function StepHeaderValue(k: Core, ch: Byte): Out {
    if ch == CR then Pass(Go(k, HeaderAlmostDone))
    else if ch == LF then Pass(Go(k, HeaderValueLws))
    else
      var k' := ValueChar(k, ch);
      if k'.errno != OK then Go(k', HeaderValue)
      else Keep(FieldValue, Go(k', HeaderValue))
  }

  /** The flag set in s_header_value_lws and s_header_value_discard_lws when a header is finished. */
  function Finished(k: Core): Core {
    if k.header.Found? then k.(flags := SetFlag(k.flags, k.header.token)) else k
  }

  /**
   * s_header_value_discard_ws to s_header_value_lws. An empty value is passed to its callback in
   * s_header_value_discard_lws; that has no bytes, so it is not recorded.
   */
  function StepHeaderEnds(noBody: Core -> bool, k: Core, ch: Byte): Out {
    match k.state
    case DiscardWs =>
      if ch == ' ' || ch == '\t' then Go(k, DiscardWs)
      else if ch == CR then Go(k, DiscardWsAlmostDone)
      else if ch == LF then Go(k, DiscardLws)
      else StepHeaderValueStart(k, ch)
    case DiscardWsAlmostDone => if ch == LF then Go(k, DiscardLws) else Fail(k, Strict)
    case DiscardLws =>
      if ch == ' ' || ch == '\t' then Go(k, DiscardWs)
      else StepHeaderFieldStart(noBody, Finished(k).(state := HeaderFieldStart), ch)
    case HeaderAlmostDone => if ch == LF then Go(k, HeaderValueLws) else Fail(k, Strict)
    case HeaderValueLws =>
      if ch == ' ' || ch == '\t' then StepHeaderValueStart(k, ch)
      else StepHeaderFieldStart(noBody, Finished(k).(state := HeaderFieldStart), ch)
    case _ => StepHeaderValueStart(k, ch)
  }

  // Bodies

  /** s_chunk_size_start to s_chunk_size_almost_done */
  function StepChunkSize(k: Core, ch: Byte): Out {
    match k.state
    case ChunkSizeStart =>
      if Unhex(ch) == -1 then Fail(k, InvalidChunkSize) else Go(k.(length := Unhex(ch)), ChunkSize)
    case ChunkSize =>
      if ch == CR then Go(k, ChunkSizeAlmostDone)
      else if Unhex(ch) == -1 then
        if ch == ';' || ch == ' ' then Go(k, ChunkParameters) else Fail(k, InvalidChunkSize)
      else
        var t := (k.length * 16 + Unhex(ch)) % (ULLONG_MAX + 1);
        if (ULLONG_MAX - 16) / 16 < k.length then Fail(k, InvalidContentLength) else Go(k.(length := t), ChunkSize)
    case ChunkParameters => if ch == CR then Go(k, ChunkSizeAlmostDone) else Go(k, ChunkParameters)
    case _ =>
      if ch != LF then Fail(k, Strict)
      else
        var k' := if k.length == 0 then k.(flags := k.flags.(trailing := true), state := HeaderFieldStart)
                  else k.(state := ChunkData);
        Out(k', None, false, [ChunkHeader(k.length)], false, true)
  }

  /** s_chunk_data to s_message_done, one byte of the body at a time. */
  function StepBody(k: Core, ch: Byte): Out {
    match k.state
    case ChunkData =>
      var left := if k.length > 0 then k.length - 1 else 0;
      Keep(Body, Go(k.(length := left), if left == 0 then ChunkDataAlmostDone else ChunkData))
    case ChunkDataAlmostDone => if ch == CR then Pass(Go(k, ChunkDataDone)) else Fail(k, Strict)
    case ChunkDataDone =>
      if ch == LF then Told(ChunkComplete, Go(k, ChunkSizeStart).(restart := true)) else Fail(k, Strict)
    case BodyIdentity =>
      var left := if k.length > 0 then k.length - 1 else 0;
      if left > 0 then Keep(Body, Go(k.(length := left), BodyIdentity))
      else Keep(Body, Pass(StepMessageDone(k.(length := 0, state := MessageDone))))
    case BodyIdentityEof => Keep(Body, Go(k, BodyIdentityEof))
    case _ => StepMessageDone(k)
  }

  /** One byte, with everything reexecute does on it. */
  function Step(noBody: Core -> bool, k: Core, ch: Byte): Out {
    match k.state
    case HeaderFieldStart => StepHeaderFieldStart(noBody, k, ch)
    case HeaderField => StepHeaderField(k, ch)
    case DiscardWs => StepHeaderEnds(noBody, k, ch)
    case DiscardWsAlmostDone => StepHeaderEnds(noBody, k, ch)
    case DiscardLws => StepHeaderEnds(noBody, k, ch)
    case HeaderValueStart => StepHeaderEnds(noBody, k, ch)
    case HeaderValue => StepHeaderValue(k, ch)
    case HeaderValueLws => StepHeaderEnds(noBody, k, ch)
    case HeaderAlmostDone => StepHeaderEnds(noBody, k, ch)
    case ChunkSizeStart => StepChunkSize(k, ch)
    case ChunkSize => StepChunkSize(k, ch)
    case ChunkParameters => StepChunkSize(k, ch)
    case ChunkSizeAlmostDone => StepChunkSize(k, ch)
    case HeadersAlmostDone => StepHeadersAlmostDone(noBody, k, ch)
    case HeadersDone => StepHeadersDone(k, ch)
    case ChunkData => StepBody(k, ch)
    case ChunkDataAlmostDone => StepBody(k, ch)
    case ChunkDataDone => StepBody(k, ch)
    case BodyIdentity => StepBody(k, ch)
    case BodyIdentityEof => StepBody(k, ch)
    case MessageDone => StepBody(k, ch)
    case _ => StepStatusLine(k, ch)
  }

  /** The states in which a chunked body is being read. */
  predicate InChunks(s: State) {
    || s.ChunkSizeStart? || s.ChunkSize? || s.ChunkParameters? || s.ChunkSizeAlmostDone?
    || s.ChunkData? || s.ChunkDataAlmostDone? || s.ChunkDataDone?
  }

  /** The header states of a name that is still being read. */
  predicate InName(h: HeaderState) {
    h.General? || h.C? || h.CO? || h.CON? || h.Matching? || h.Known?
  }

  /** What holds of the fields between bytes, and what the asserts of http_parser_execute rely on. */
  predicate Sound(k: Core) {
    && k.length <= ULLONG_MAX
    && (k.state.HeaderField? ==> InName(k.header))
    && (k.state.HeaderValue? ==> k.header != Known(Connection) && k.header != Known(TransferEncoding))
    && (InChunks(k.state) ==> k.flags.chunked)
    && (k.state.ChunkSize? || k.state.ChunkParameters? || k.state.ChunkSizeAlmostDone? ==> k.length < ULLONG_MAX)
    && (k.state.ChunkData? || k.state.BodyIdentity? ==> 0 < k.length < ULLONG_MAX)
    && (k.state.ChunkDataAlmostDone? ==> k.length == 0)
    && !(k.state.MessageDone? || k.state.HeadersDone? || k.state.HeaderValueStart?)
  }

  predicate SoundOut(o: Out) {
    o.core.length <= ULLONG_MAX && (o.core.errno == OK ==> Sound(o.core))
  }

  lemma HeadersDoneSound(k: Core)
    requires k.length <= ULLONG_MAX
    ensures SoundOut(StepHeadersDone(k, LF))
  {}

  lemma HeadersEndSound(noBody: Core -> bool, k: Core, ch: Byte)
    requires k.length <= ULLONG_MAX && k.state == HeadersAlmostDone
    ensures SoundOut(StepHeadersAlmostDone(noBody, k, ch))
  {
    if ch == LF && !k.flags.trailing {
      var k' := k.(state := HeadersDone, upgrade := k.flags.upgrade && k.flags.connectionUpgrade);
      HeadersDoneSound(if noBody(k') then k'.(flags := k'.flags.(skipBody := true)) else k');
    }
  }

  /** The status line changes none of the fields that the asserts are about, except at its start. */
  lemma StatusLineFields(k: Core, ch: Byte)
    ensures var k' := StepStatusLine(k, ch).core;
            (k'.length == k.length || k'.length == ULLONG_MAX) && k'.header == k.header
  {
    hide Digit, IsNum, StepStatus;
    StatusFields(k, ch);
  }

  lemma StatusFields(k: Core, ch: Byte)
    ensures var k' := StepStatus(k, ch).core; k'.length == k.length && k'.header == k.header
  {
    hide Digit, IsNum;
  }

  lemma StatusLineStates(k: Core, ch: Byte)
    requires !InChunks(k.state) && ParsingHeader(k.state) && k.state != HeaderField && k.state != HeaderValue
    ensures var s := StepStatusLine(k, ch).core.state;
            s == k.state || s.Dead? || s.StartRes? || s.HeaderFieldStart? || s.LineAlmostDone?
            || s.Status? || s.StatusStart? || s.StatusCode? || s.FirstStatusCode?
            || s.HttpMinor? || s.FirstHttpMinor? || s.HttpMajor? || s.FirstHttpMajor?
            || s.ResH? || s.ResHT? || s.ResHTT? || s.ResHTTP?
  {
    hide Digit, IsNum;
  }

  lemma StatusLineSound(k: Core, ch: Byte)
    requires Sound(k) && !InChunks(k.state) && ParsingHeader(k.state) && k.state != HeaderField
             && k.state != HeaderValue
    ensures SoundOut(StepStatusLine(k, ch))
  {
    hide StepStatusLine;
    StatusLineFields(k, ch);
    StatusLineStates(k, ch);
  }

  lemma ChunkSizeSound(k: Core, ch: Byte)
    requires Sound(k) && InChunks(k.state) && ParsingHeader(k.state)
    ensures SoundOut(StepChunkSize(k, ch))
  {
    hide InName, Unhex;
  }

  lemma BodySound(k: Core, ch: Byte)
    requires Sound(k) && !ParsingHeader(k.state)
    ensures SoundOut(StepBody(k, ch))
  {}

  lemma HeaderStartSound(noBody: Core -> bool, k: Core, ch: Byte)
    requires k.length <= ULLONG_MAX && k.state == HeaderFieldStart
    ensures SoundOut(StepHeaderFieldStart(noBody, k, ch))
  {
    HeadersEndSound(noBody, k.(state := HeadersAlmostDone), ch);
  }

  lemma HeaderFieldSound(k: Core, ch: Byte)
    requires Sound(k) && k.state == HeaderField
    ensures SoundOut(StepHeaderField(k, ch))
  {}

  /** What the characters of a value do to the header state and to the length. */
  lemma ValueHeader(k: Core, ch: Byte)
    requires k.header != Known(Connection) && k.header != Known(TransferEncoding)
    ensures ValueChar(k, ch).header != Known(Connection) && ValueChar(k, ch).header != Known(TransferEncoding)
  {
    hide Lower, IsToken, Differs, SetFlag;
  }

  lemma ValueLength(k: Core, ch: Byte)
    requires k.length <= ULLONG_MAX
    ensures ValueChar(k, ch).length <= ULLONG_MAX && ValueChar(k, ch).state == k.state
  {
    hide Lower, IsToken, Differs, SetFlag;
  }

  lemma ValueStartSound(k: Core, ch: Byte)
    requires k.length <= ULLONG_MAX
    ensures SoundOut(StepHeaderValueStart(k, ch))
  {
    hide Lower;
  }

  lemma HeaderValueSound(k: Core, ch: Byte)
    requires Sound(k) && (k.state == HeaderValue || k.state == HeaderValueLws || k.state == DiscardWs)
    ensures k.state == HeaderValue ==> SoundOut(StepHeaderValue(k, ch))
    ensures SoundOut(StepHeaderValueStart(k, ch))
  {
    hide ValueChar, StepHeaderValueStart;
    ValueStartSound(k, ch);
    ValueLength(k, ch);
    if k.state == HeaderValue {
      ValueHeader(k, ch);
    }
  }

  /** After the line end of a value. */
  lemma LineEndsSound(noBody: Core -> bool, k: Core, ch: Byte)
    requires Sound(k) && (k.state == DiscardLws || k.state == HeaderValueLws)
    ensures SoundOut(StepHeaderEnds(noBody, k, ch))
  {
    hide StepHeaderFieldStart, StepHeaderValueStart, StepHeaderValue, StepHeadersAlmostDone;
    HeaderStartSound(noBody, Finished(k).(state := HeaderFieldStart), ch);
    if k.state == HeaderValueLws {
      HeaderValueSound(k, ch);
    }
  }

  lemma HeaderEndsSound(noBody: Core -> bool, k: Core, ch: Byte)
    requires Sound(k) && (k.state == DiscardWs || k.state == DiscardWsAlmostDone || k.state == DiscardLws
                          || k.state == HeaderAlmostDone || k.state == HeaderValueLws)
    ensures SoundOut(StepHeaderEnds(noBody, k, ch))
  {
    hide StepHeaderFieldStart, StepHeaderValueStart, StepHeaderValue, StepHeadersAlmostDone;
    if k.state == DiscardLws || k.state == HeaderValueLws {
      hide StepHeaderEnds, Sound, SoundOut;
      LineEndsSound(noBody, k, ch);
    } else if k.state == DiscardWs {
      HeaderValueSound(k, ch);
    }
  }

  lemma SoundStates(k: Core)
    requires Sound(k)
    ensures k.length <= ULLONG_MAX && !(k.state.MessageDone? || k.state.HeadersDone? || k.state.HeaderValueStart?)
  {}

  /** Every byte keeps the fields sound, until one is refused. */
  lemma StepKeepsSound(noBody: Core -> bool, k: Core, ch: Byte)
    requires Sound(k) && k.errno == OK
    ensures SoundOut(Step(noBody, k, ch))
  {
    hide StepStatusLine, StepHeaderEnds, StepHeaderFieldStart, StepHeadersAlmostDone, StepChunkSize, StepBody;
    hide StepHeaderField;
    hide StepHeaderValue, Sound, SoundOut, StepHeadersDone;
    SoundStates(k);
    match k.state
    case HeaderFieldStart => HeaderStartSound(noBody, k, ch);
    case HeaderField => HeaderFieldSound(k, ch);
    case HeaderValue => HeaderValueSound(k, ch);
    case HeadersAlmostDone => HeadersEndSound(noBody, k, ch);
    case DiscardWs => HeaderEndsSound(noBody, k, ch);
    case DiscardWsAlmostDone => HeaderEndsSound(noBody, k, ch);
    case DiscardLws => HeaderEndsSound(noBody, k, ch);
    case HeaderAlmostDone => HeaderEndsSound(noBody, k, ch);
    case HeaderValueLws => HeaderEndsSound(noBody, k, ch);
    case _ =>
      if !ParsingHeader(k.state) {
        BodySound(k, ch);
      } else if InChunks(k.state) {
        ChunkSizeSound(k, ch);
      } else {
        StatusLineSound(k, ch);
      }
  }

  /** A content length is never computed modulo 2^64, and never becomes the value that stands for none. */
  lemma LengthNeverWraps(k: Core, ch: Byte)
    requires IsNum(ch) && k.header == Known(ContentLength)
    ensures ValueChar(k, ch).errno == k.errno ==> k.errno != InvalidContentLength ==>
              ValueChar(k, ch).length == k.length * 10 + Digit(ch) < ULLONG_MAX
  {}
}
