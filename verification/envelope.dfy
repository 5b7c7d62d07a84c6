/**
  The envelope framing codec: a fully buffered byte stream is parsed into a
  header and a list of items, and an envelope is serialized back with every
  item's `length` recomputed from its current payload.

  Wire format: the envelope header line, then per item a header line and a
  payload. A header with a `length` frames exactly that many payload bytes,
  optionally followed by `\n`; without one the payload runs to the next
  `\n`. Blank item-header lines are skipped.
 */
module EnvelopeCodec {
  import opened Bytes
  import opened JsonModel
  import opened ItemHeader

  /** `typ` and `filename` are copies of header fields taken when parsing. */
  datatype Item = Item(header: Bytes, payload: Bytes, typ: string, filename: string)

  datatype Envelope = Envelope(header: Bytes, items: seq<Item>)

  datatype ParseError =
    | EmptyHeader
    | InvalidEnvelopeHeader
    | InvalidItemHeader(line: Bytes)
    | BadItemHeaderFields(line: Bytes, reason: FieldError)
    | NegativeLength(length: int)
    | TruncatedPayload(expected: int, available: nat)

  /** The errors that belong to an item frame rather than to the envelope header. */
  predicate ItemError(e: ParseError) {
    !e.EmptyHeader? && !e.InvalidEnvelopeHeader?
  }

  datatype HeaderError = HeaderNotJson | HeaderNotObject | KeyNotReadable | ValueNotReadable

  datatype SerializeError =
    | EnvelopeHeaderNotJson
    | ItemHeaderNotUpdatable(reason: HeaderError)
    | ItemHeaderNotJson

  // ---------------------------------------------------------------------
  // What a successful parse guarantees about each item.
  // ---------------------------------------------------------------------

  /** The fields read from a header line, when it is JSON and they decode. */
  function HeaderFields(c: Codec, header: Bytes): Option<ItemFields> {
    match c.decode(header)
    case None => None
    case Some(v) =>
      match DecodeFields(v)
      case Failure(_) => None
      case Success(f) => Some(f)
  }

  /**
    An item as the parser produces it: its header is one non-empty JSON
    line whose fields decode, `typ` and `filename` agree with them, and the
    payload is framed by the header's length or, without one, holds no `\n`.
   */
  predicate Framed(c: Codec, it: Item) {
    && |it.header| > 0
    && NoNewline(it.header)
    && HeaderFields(c, it.header).Some?
    && var f := HeaderFields(c, it.header).value;
       && f.typ == it.typ
       && f.filename == it.filename
       && (f.length == Some(|it.payload|) || (f.length == None && NoNewline(it.payload)))
  }

  /** An envelope as the parser produces it. */
  predicate Parsed(c: Codec, env: Envelope) {
    && |env.header| > 0
    && NoNewline(env.header)
    && c.decode(env.header).Some?
    && forall i | 0 <= i < |env.items| :: Framed(c, env.items[i])
  }

  // ---------------------------------------------------------------------
  // Parse
  // ---------------------------------------------------------------------

  /**
    One item frame: `line` is its non-blank header line, `body` the bytes
    after it. Returns the item and the bytes after the frame.
   */
  function ReadFrame(c: Codec, line: Bytes, body: Bytes): (r: Result<(Item, Bytes), ParseError>)
    requires |line| > 0 && NoNewline(line)
    ensures c.decode(line).None? ==> r == Failure(InvalidItemHeader(line))
    ensures r.Failure? ==> ItemError(r.error)
    ensures r.Success? ==> Framed(c, r.value.0) && r.value.0.header == line
    ensures r.Success? ==> |r.value.0.payload| + |r.value.1| <= |body|
    ensures r.Success? && HeaderFields(c, line).value.length.Some? ==>
              r.value.0.payload == body[..|r.value.0.payload|]
  {
    match c.decode(line)
    case None => Failure(InvalidItemHeader(line))
    case Some(v) =>
      match DecodeFields(v)
      case Failure(e) => Failure(BadItemHeaderFields(line, e))
      case Success(f) =>
        match f.length
        case Some(n) =>
          if n < 0 then Failure(NegativeLength(n))
          else if |body| < n then Failure(TruncatedPayload(n, |body|))
          else
            var tail := body[n..];
            var after := if |tail| > 0 && tail[0] == LF then tail[1..] else tail;
            Success((Item(line, body[..n], f.typ, f.filename), after))
        case None =>
          var (payload, after) := SplitLine(body);
          Success((Item(line, payload, f.typ, f.filename), after))
  }

  /** The items in `rest`, in stream order; the first failing frame fails them all. */
  function ParseItems(c: Codec, rest: Bytes): (r: Result<seq<Item>, ParseError>)
    ensures r.Success? ==> forall i | 0 <= i < |r.value| :: Framed(c, r.value[i])
    ensures r.Success? ==> forall i | 0 <= i < |r.value| :: |r.value[i].payload| <= |rest|
    ensures r.Failure? ==> ItemError(r.error)
    decreases |rest|
  {
    if rest == [] then Success([])
    else
      var (line, after) := SplitLine(rest);
      if line == [] then ParseItems(c, after)
      else
        match ReadFrame(c, line, after)
        case Failure(e) => Failure(e)
        case Success((item, tail)) =>
          match ParseItems(c, tail)
          case Failure(e) => Failure(e)
          case Success(items) => Success([item] + items)
  }

  function Parse(c: Codec, data: Bytes): (r: Result<Envelope, ParseError>)
    ensures data == [] ==> r == Failure(EmptyHeader)
    ensures r == Failure(EmptyHeader) <==> SplitLine(data).0 == []
    ensures r == Failure(InvalidEnvelopeHeader) <==>
              SplitLine(data).0 != [] && c.decode(SplitLine(data).0).None?
    ensures r.Success? ==> Parsed(c, r.value) && r.value.header == SplitLine(data).0
    ensures r.Success? ==> forall i | 0 <= i < |r.value.items| :: |r.value.items[i].payload| <= |data|
  {
    var (line, rest) := SplitLine(data);
    if line == [] then Failure(EmptyHeader)
    else if c.decode(line).None? then Failure(InvalidEnvelopeHeader)
    else
      match ParseItems(c, rest)
      case Failure(e) => Failure(e)
      case Success(items) => Success(Envelope(line, items))
  }

  // ---------------------------------------------------------------------
  // UpdateLength and Serialize
  // ---------------------------------------------------------------------

  /**
    Re-encodes a header with `length` set to `n`: the header is read into an
    insertion-ordered map of `any` values (a member name the map's parser
    cannot read fails the update; every member value goes through `any`,
    and one that cannot be read fails it too), `length` is set or appended,
    and the map is marshalled.
   */
  function UpdateLength(c: Codec, header: Bytes, n: int): (r: Result<Bytes, HeaderError>)
    ensures c.decode(header).None? <==> r == Failure(HeaderNotJson)
    ensures r.Success? <==>
              c.decode(header).Some? && c.decode(header).value.Object?
              && c.keysReadable(header)
              && ReadableValues(c, c.decode(header).value.members)
    ensures r == Failure(KeyNotReadable) <==>
              c.decode(header).Some? && c.decode(header).value.Object?
              && !c.keysReadable(header)
    ensures r == Failure(ValueNotReadable) <==>
              c.decode(header).Some? && c.decode(header).value.Object?
              && c.keysReadable(header)
              && !ReadableValues(c, c.decode(header).value.members)
  {
    match c.decode(header)
    case None => Failure(HeaderNotJson)
    case Some(Object(ms)) =>
      if !c.keysReadable(header) then Failure(KeyNotReadable)
      else
        (match ThroughAny(c, ms)
         case None => Failure(ValueNotReadable)
         case Some(ms') => Success(c.marshal(Object(Set(Collapse(ms'), "length", Int(n))))))
    case Some(_) => Failure(HeaderNotObject)
  }

  /** One item frame: compacted header with the current length, `\n`, payload, `\n`. */
  function SerializeItem(c: Codec, it: Item): (r: Result<Bytes, SerializeError>)
    ensures r.Success? ==> |r.value| >= |it.payload| + 2
    ensures r.Success? ==> r.value[|r.value| - 1] == LF
    ensures r.Success? ==> r.value[|r.value| - 1 - |it.payload| .. |r.value| - 1] == it.payload
    ensures UpdateLength(c, it.header, |it.payload|).Failure? <==> r.Failure? && r.error.ItemHeaderNotUpdatable?
  {
    match UpdateLength(c, it.header, |it.payload|)
    case Failure(e) => Failure(ItemHeaderNotUpdatable(e))
    case Success(header) =>
      match c.compact(header)
      case None => Failure(ItemHeaderNotJson)
      case Some(h) =>
        var out := h + [LF] + it.payload + [LF];
        assert out[|out| - 1 - |it.payload| .. |out| - 1] == it.payload;
        Success(out)
  }

  /** Item `i` is the first that cannot be framed, and it fails with `e`. */
  predicate FailsFirstAt(c: Codec, items: seq<Item>, i: int, e: SerializeError) {
    && 0 <= i < |items|
    && SerializeItem(c, items[i]) == Failure(e)
    && forall j | 0 <= j < i :: SerializeItem(c, items[j]).Success?
  }

  /**
    The frames of all items in order; the first item that cannot be framed
    decides the error.
   */
  function SerializeItems(c: Codec, items: seq<Item>): (r: Result<Bytes, SerializeError>)
    ensures r.Success? <==> forall i | 0 <= i < |items| :: SerializeItem(c, items[i]).Success?
    ensures r.Failure? ==> exists i :: FailsFirstAt(c, items, i, r.error)
    decreases |items|
  {
    if items == [] then Success([])
    else
      match SerializeItem(c, items[0])
      case Failure(e) =>
        assert FailsFirstAt(c, items, 0, e);
        Failure(e)
      case Success(frame) =>
        assert forall i | 1 <= i < |items| :: items[i] == items[1..][i - 1];
        match SerializeItems(c, items[1..])
        case Failure(e) =>
          var i :| FailsFirstAt(c, items[1..], i, e);
          assert FailsFirstAt(c, items, i + 1, e);
          Failure(e)
        case Success(frames) =>
          Success(frame + frames)
  }

  /**
    The compacted envelope header on its own line, then the item frames. An
    envelope header that is not JSON fails first; otherwise the error is the
    first failing item's.
   */
  function Serialize(c: Codec, env: Envelope): (r: Result<Bytes, SerializeError>)
    ensures c.compact(env.header).None? ==> r == Failure(EnvelopeHeaderNotJson)
    ensures c.compact(env.header).Some? && r.Failure? ==> exists i :: FailsFirstAt(c, env.items, i, r.error)
    ensures r.Success? <==>
              c.compact(env.header).Some? && forall i | 0 <= i < |env.items| :: SerializeItem(c, env.items[i]).Success?
    ensures r.Success? ==>
              c.compact(env.header).Some?
              && var h := c.compact(env.header).value;
                 |r.value| > |h| && r.value[..|h| + 1] == h + [LF]
  {
    match c.compact(env.header)
    case None => Failure(EnvelopeHeaderNotJson)
    case Some(h) =>
      match SerializeItems(c, env.items)
      case Failure(e) => Failure(e)
      case Success(frames) => Success(h + [LF] + frames)
  }
}
