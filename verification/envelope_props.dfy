/**
  Properties of the envelope codec: how single frames are read, which
  inputs fail, how `UpdateLength` rewrites a header, and the round trip
  `Parse(Serialize(e))`.
 */
module EnvelopeProperties {
  import opened Bytes
  import opened JsonModel
  import opened ItemHeader
  import opened EnvelopeCodec

  /** `item` in front of the items of `r`, or the failure of `r`. */
  function Prepend(item: Item, r: Result<seq<Item>, ParseError>): Result<seq<Item>, ParseError> {
    match r
    case Failure(e) => Failure(e)
    case Success(items) => Success([item] + items)
  }

  function Repeat(b: byte, k: nat): (s: Bytes)
    ensures |s| == k && forall i | 0 <= i < k :: s[i] == b
  {
    if k == 0 then [] else [b] + Repeat(b, k - 1)
  }

  // ---------------------------------------------------------------------
  // Reading frames
  // ---------------------------------------------------------------------

  /** Blank lines before an item header produce no item, however many there are. */
  lemma {:induction false} BlankLinesAreSkipped(c: Codec, k: nat, rest: Bytes)
    ensures ParseItems(c, Repeat(LF, k) + rest) == ParseItems(c, rest)
  {
    if k > 0 {
      var s := Repeat(LF, k) + rest;
      var t := Repeat(LF, k - 1) + rest;
      assert s == [] + [LF] + t;
      SplitLineOfTerminated([], t);
      BlankLinesAreSkipped(c, k - 1, rest);
    } else {
      assert Repeat(LF, k) + rest == rest;
    }
  }

  /**
    With `length = |p|` the payload is exactly `p`, whatever bytes it holds;
    one following `\n` is consumed and anything else is left in place.
   */
  lemma ExplicitLengthFrame(c: Codec, line: Bytes, p: Bytes, rest: Bytes)
    requires |line| > 0 && NoNewline(line)
    requires HeaderFields(c, line).Some? && HeaderFields(c, line).value.length == Some(|p|)
    ensures var f := HeaderFields(c, line).value;
            var after := if |rest| > 0 && rest[0] == LF then rest[1..] else rest;
            ParseItems(c, line + [LF] + p + rest) == Prepend(Item(line, p, f.typ, f.filename), ParseItems(c, after))
  {
    var s := line + [LF] + p + rest;
    assert s == line + [LF] + (p + rest);
    SplitLineOfTerminated(line, p + rest);
    assert (p + rest)[..|p|] == p;
    assert (p + rest)[|p|..] == rest;
  }

  /** A declared length larger than what remains fails; no short payload is returned. */
  lemma TruncatedFrameFails(c: Codec, line: Bytes, body: Bytes, n: int)
    requires |line| > 0 && NoNewline(line)
    requires HeaderFields(c, line).Some? && HeaderFields(c, line).value.length == Some(n)
    requires n > |body|
    ensures ParseItems(c, line + [LF] + body) == Failure(TruncatedPayload(n, |body|))
  {
    SplitLineOfTerminated(line, body);
  }

  /** Without a length the payload is the bytes up to the next `\n`, which is consumed. */
  lemma ImplicitLengthFrame(c: Codec, line: Bytes, p: Bytes, rest: Bytes)
    requires |line| > 0 && NoNewline(line) && NoNewline(p)
    requires HeaderFields(c, line).Some? && HeaderFields(c, line).value.length.None?
    ensures var f := HeaderFields(c, line).value;
            ParseItems(c, line + [LF] + p + [LF] + rest) == Prepend(Item(line, p, f.typ, f.filename), ParseItems(c, rest))
  {
    var s := line + [LF] + p + [LF] + rest;
    assert s == line + [LF] + (p + [LF] + rest);
    SplitLineOfTerminated(line, p + [LF] + rest);
    SplitLineOfTerminated(p, rest);
  }

  /** Without a length and without a further `\n` the payload runs to the end of the input. */
  lemma ImplicitLengthFrameAtEnd(c: Codec, line: Bytes, p: Bytes)
    requires |line| > 0 && NoNewline(line) && NoNewline(p)
    requires HeaderFields(c, line).Some? && HeaderFields(c, line).value.length.None?
    ensures var f := HeaderFields(c, line).value;
            ParseItems(c, line + [LF] + p) == Success([Item(line, p, f.typ, f.filename)])
  {
    SplitLineOfTerminated(line, p);
    SplitLineOfUnterminated(p);
    var f := HeaderFields(c, line).value;
    var it := Item(line, p, f.typ, f.filename);
    assert ReadFrame(c, line, p) == Success((it, []));
    assert ParseItems(c, []) == Success([]);
    assert [it] + [] == [it];
  }

  /** An item header line that is not JSON fails the parse. */
  lemma InvalidItemHeaderFails(c: Codec, line: Bytes, rest: Bytes)
    requires |line| > 0 && NoNewline(line)
    requires c.decode(line).None?
    ensures ParseItems(c, line + [LF] + rest) == Failure(InvalidItemHeader(line))
  {
    SplitLineOfTerminated(line, rest);
  }

  /** An item header whose type, length or filename cannot be read fails the parse. */
  lemma UnreadableItemFieldsFail(c: Codec, line: Bytes, rest: Bytes)
    requires |line| > 0 && NoNewline(line)
    requires c.decode(line).Some? && DecodeFields(c.decode(line).value).Failure?
    ensures ParseItems(c, line + [LF] + rest) ==
              Failure(BadItemHeaderFields(line, DecodeFields(c.decode(line).value).error))
  {
    SplitLineOfTerminated(line, rest);
  }

  /** A first line that is not JSON fails the parse, whatever follows. */
  lemma InvalidEnvelopeHeaderFails(c: Codec, line: Bytes, rest: Bytes)
    requires |line| > 0 && NoNewline(line)
    requires c.decode(line).None?
    ensures Parse(c, line + [LF] + rest) == Failure(InvalidEnvelopeHeader)
  {
    SplitLineOfTerminated(line, rest);
  }

  // ---------------------------------------------------------------------
  // UpdateLength
  // ---------------------------------------------------------------------

  /**
    On an object header without repeated keys, whose member names can be
    read and whose values other than `length` survive the trip through `any`, `UpdateLength` keeps every key
    in its position and every other value; `length` takes the new value in
    place, or is appended last when it was absent.
   */
  lemma UpdateLengthKeepsOrder(c: Codec, header: Bytes, ms: seq<Member>, n: int)
    requires Lawful(c)
    requires c.decode(header) == Some(Object(ms)) && DistinctKeys(ms)
    requires c.keysReadable(header) && StableValues(c, ms, "length")
    ensures UpdateLength(c, header, n).Success?
    ensures var out := c.decode(UpdateLength(c, header, n).value);
            && out.Some? && out.value.Object?
            && var ms' := out.value.members;
               && DistinctKeys(ms')
               && Lookup(ms', "length") == Some(Int(n))
               && (HasKey(ms, "length") ==> KeysOf(ms') == KeysOf(ms))
               && (!HasKey(ms, "length") ==> KeysOf(ms') == KeysOf(ms) + ["length"])
               && forall i | 0 <= i < |ms| && ms[i].0 != "length" :: ms'[i] == ms[i]
  {
    UpdateLengthDecodes(c, header, ms, n);
    ThroughAnyThenSet(c, ms, "length", Int(n));
    SetKeys(ms, "length", Int(n));
  }

  /**
    On an object without repeated keys whose member names and values can
    all be read, the update decodes to the ordered-map `Set` of the members as they come back
    from `any`.
   */
  lemma UpdateLengthDecodes(c: Codec, header: Bytes, ms: seq<Member>, n: int)
    requires Lawful(c)
    requires c.decode(header) == Some(Object(ms)) && DistinctKeys(ms)
    requires c.keysReadable(header) && ReadableValues(c, ms)
    ensures UpdateLength(c, header, n).Success?
    ensures c.decode(UpdateLength(c, header, n).value) ==
              Some(Object(Set(ThroughAny(c, ms).value, "length", Int(n))))
  {
    var ms' := ThroughAny(c, ms).value;
    assert DistinctKeys(ms') by {
      assert forall i | 0 <= i < |ms| :: ms'[i].0 == ms[i].0;
    }
    CollapseDistinct(ms');
    MarshalFacts(c, Object(Set(ms', "length", Int(n))));
  }

  /** `{"type":"event","length":10}` updated to 42 is `{"type":"event","length":42}`. */
  lemma UpdateLengthExample(c: Codec, header: Bytes)
    requires Lawful(c)
    requires c.decode(header) == Some(Object([("type", Str("event")), ("length", Int(10))]))
    requires c.keysReadable(header)
    ensures UpdateLength(c, header, 42).Success?
    ensures c.decode(UpdateLength(c, header, 42).value) ==
              Some(Object([("type", Str("event")), ("length", Int(42))]))
  {
    var ms := [("type", Str("event")), ("length", Int(10))];
    assert "type" != "length";
    assert DistinctKeys(ms);
    AnyFacts(c, Str("event"));
    AnyFacts(c, Int(10));
    assert StableValues(c, ms, "length");
    UpdateLengthDecodes(c, header, ms, 42);
    ThroughAnyThenSet(c, ms, "length", Int(42));
    assert IndexOf(ms, "length") == Some(1);
    assert Set(ms, "length", Int(42)) == [("type", Str("event")), ("length", Int(42))];
  }

  /** A header that is JSON but not an object cannot be updated. */
  lemma UpdateLengthNeedsObject(c: Codec, header: Bytes, n: int)
    requires c.decode(header).Some? && !c.decode(header).value.Object?
    ensures UpdateLength(c, header, n) == Failure(HeaderNotObject)
  {
  }

  // ---------------------------------------------------------------------
  // Serialize and the round trip
  // ---------------------------------------------------------------------

  /**
    Every member value can be read into `any`, and one under a key that
    names a field, other than `length` itself, comes back unchanged.
   */
  predicate FieldValuesStable(c: Codec, ms: seq<Member>) {
    && ReadableValues(c, ms)
    && forall i | 0 <= i < |ms| && NamesField(ms[i].0) && ms[i].0 != "length" ::
         c.viaAny(ms[i].1) == Some(ms[i].1)
  }

  /**
    The item's header is an object without repeated keys whose member names
    can be read, and whose values can all be read into `any` with those
    that name a field coming back unchanged.
   */
  predicate PlainObjectHeader(c: Codec, it: Item) {
    c.decode(it.header).Some? && c.decode(it.header).value.Object?
    && DistinctKeys(c.decode(it.header).value.members)
    && c.keysReadable(it.header)
    && FieldValuesStable(c, c.decode(it.header).value.members)
  }

  /** An item whose header and payload length the serializer can write and the parser read back. */
  predicate Rewritable(c: Codec, it: Item) {
    Framed(c, it) && PlainObjectHeader(c, it) && |it.payload| <= MaxInt64
  }

  /** Same item count, and per item the same type, filename and payload bytes. */
  predicate SameContent(a: seq<Item>, b: seq<Item>) {
    && |a| == |b|
    && forall i | 0 <= i < |a| ::
         a[i].typ == b[i].typ && a[i].payload == b[i].payload && a[i].filename == b[i].filename
  }

  /**
    Serialize fails exactly when the envelope header is not JSON, or an
    item header is not an object, or one of its member names cannot be
    read, or one of its member values cannot be read into `any`.
   */
  lemma {:induction false} SerializeSucceedsIff(c: Codec, env: Envelope)
    requires Lawful(c)
    ensures Serialize(c, env).Success? <==>
              c.decode(env.header).Some?
              && forall i | 0 <= i < |env.items| ::
                   && c.decode(env.items[i].header).Some?
                   && c.decode(env.items[i].header).value.Object?
                   && c.keysReadable(env.items[i].header)
                   && ReadableValues(c, c.decode(env.items[i].header).value.members)
  {
    CompactSucceedsIff(c, env.header);
    SerializeItemsSucceedIff(c, env.items);
  }

  /** The item's header is a JSON object whose member names and values can all be read. */
  predicate UpdatableHeader(c: Codec, it: Item) {
    && c.decode(it.header).Some?
    && c.decode(it.header).value.Object?
    && c.keysReadable(it.header)
    && ReadableValues(c, c.decode(it.header).value.members)
  }

  lemma SerializeItemsSucceedIff(c: Codec, items: seq<Item>)
    requires Lawful(c)
    ensures SerializeItems(c, items).Success? <==> forall i | 0 <= i < |items| :: UpdatableHeader(c, items[i])
  {
    forall i | 0 <= i < |items| ensures SerializeItem(c, items[i]).Success? <==> UpdatableHeader(c, items[i]) {
      SerializeItemSucceedsIff(c, items[i]);
    }
  }

  /** One frame is written exactly when the item's header can be updated. */
  lemma SerializeItemSucceedsIff(c: Codec, it: Item)
    requires Lawful(c)
    ensures SerializeItem(c, it).Success? <==> UpdatableHeader(c, it)
  {
    if UpdatableHeader(c, it) {
      var ms' := ThroughAny(c, c.decode(it.header).value.members).value;
      MarshalFacts(c, Object(Set(Collapse(ms'), "length", Int(|it.payload|))));
    }
  }

  /**
    Going through `any` changes no value under a key that names a field,
    so after `length` is set on both the original members and the members
    as they come back, the two agree wherever the item fields are read.
   */
  lemma ThroughAnyKeepsFields(c: Codec, ms: seq<Member>, n: int)
    requires DistinctKeys(ms) && FieldValuesStable(c, ms)
    ensures ThroughAny(c, ms).Some?
    ensures SameFieldMembers(Set(ms, "length", Int(n)), Set(ThroughAny(c, ms).value, "length", Int(n)))
  {
    var ms' := ThroughAny(c, ms).value;
    assert forall j | 0 <= j < |ms| :: ms'[j].0 == ms[j].0;
    assert DistinctKeys(ms');
    IndexOfByKeys(ms', ms, "length");
    var a, b := Set(ms, "length", Int(n)), Set(ms', "length", Int(n));
    forall j | 0 <= j < |a| ensures a[j].0 == b[j].0 && (NamesField(a[j].0) ==> a[j].1 == b[j].1) {
      if j < |ms| && ms[j].0 != "length" {
        assert a[j] == ms[j] && b[j] == ms'[j];
      }
    }
  }

  /**
    The members the serializer writes: every value has been through `any`
    and `length` holds a 64-bit integer, so they all come back unchanged
    from `any` once more, `length` included.
   */
  lemma RewrittenIsStable(c: Codec, ms: seq<Member>, n: int)
    requires Lawful(c)
    requires DistinctKeys(ms) && ReadableValues(c, ms)
    requires MinInt64 <= n <= MaxInt64
    ensures ThroughAny(c, ms).Some?
    ensures var ms1 := Set(ThroughAny(c, ms).value, "length", Int(n));
            && DistinctKeys(ms1)
            && StableValues(c, ms1, "length")
            && FieldValuesStable(c, ms1)
  {
    var ms' := ThroughAny(c, ms).value;
    assert forall j | 0 <= j < |ms| :: ms'[j].0 == ms[j].0;
    assert DistinctKeys(ms');
    var ms1 := Set(ms', "length", Int(n));
    AnyFacts(c, Int(n));
    forall i | 0 <= i < |ms1| ensures c.viaAny(ms1[i].1).Some? && (ms1[i].0 != "length" ==> c.viaAny(ms1[i].1) == Some(ms1[i].1)) {
      if ms1[i].0 != "length" {
        assert i < |ms'| && ms1[i] == ms'[i];
        AnyFacts(c, ms[i].1);
      }
    }
  }

  /** The members of the header line the serializer writes for an item with an object header. */
  function RewrittenMembers(c: Codec, it: Item): seq<Member>
    requires PlainObjectHeader(c, it)
  {
    Set(ThroughAny(c, c.decode(it.header).value.members).value, "length", Int(|it.payload|))
  }

  /** The header line the serializer writes for an item with an object header. */
  function RewrittenHeader(c: Codec, it: Item): Bytes
    requires PlainObjectHeader(c, it)
  {
    c.marshal(Object(RewrittenMembers(c, it)))
  }

  /** The serialized frame is the rewritten header, `\n`, the payload and `\n`. */
  lemma SerializedFrameShape(c: Codec, it: Item)
    requires Lawful(c)
    requires PlainObjectHeader(c, it)
    ensures SerializeItem(c, it) == Success(RewrittenHeader(c, it) + [LF] + it.payload + [LF])
    ensures |RewrittenHeader(c, it)| > 0 && NoNewline(RewrittenHeader(c, it))
  {
    var ms' := ThroughAny(c, c.decode(it.header).value.members).value;
    assert DistinctKeys(ms') by {
      var ms := c.decode(it.header).value.members;
      assert forall j | 0 <= j < |ms| :: ms'[j].0 == ms[j].0;
    }
    CollapseDistinct(ms');
    MarshalFacts(c, Object(RewrittenMembers(c, it)));
  }

  /** The rewritten header keeps type and filename and frames the payload it was written for. */
  lemma RewrittenHeaderFrames(c: Codec, it: Item)
    requires Lawful(c)
    requires Rewritable(c, it)
    ensures var it' := Item(RewrittenHeader(c, it), it.payload, it.typ, it.filename);
            Rewritable(c, it')
  {
    RewrittenHeaderIsPlain(c, it);
    RewrittenHeaderIsFramed(c, it);
  }

  lemma RewrittenHeaderIsPlain(c: Codec, it: Item)
    requires Lawful(c)
    requires Rewritable(c, it)
    ensures PlainObjectHeader(c, Item(RewrittenHeader(c, it), it.payload, it.typ, it.filename))
  {
    MarshalFacts(c, Object(RewrittenMembers(c, it)));
    RewrittenIsStable(c, c.decode(it.header).value.members, |it.payload|);
  }

  lemma RewrittenHeaderIsFramed(c: Codec, it: Item)
    requires Lawful(c)
    requires Rewritable(c, it)
    ensures Framed(c, Item(RewrittenHeader(c, it), it.payload, it.typ, it.filename))
  {
    var ms := c.decode(it.header).value.members;
    assert HeaderFields(c, it.header) == Some(DecodeMembers(ms).value);
    RewrittenHeaderReads(c, it);
    RewrittenFields(c, ms, |it.payload|);
  }

  /** The rewritten header is one non-empty line whose fields are those of the rewritten members. */
  lemma RewrittenHeaderReads(c: Codec, it: Item)
    requires Lawful(c)
    requires PlainObjectHeader(c, it)
    ensures |RewrittenHeader(c, it)| > 0 && NoNewline(RewrittenHeader(c, it))
    ensures HeaderFields(c, RewrittenHeader(c, it)) == match DecodeMembers(RewrittenMembers(c, it)) {
              case Success(g) => Some(g)
              case Failure(_) => None
            }
  {
    MarshalFacts(c, Object(RewrittenMembers(c, it)));
  }

  /**
    The rewritten members read as the same type and filename, and their
    length is the new one unless a later differently spelled length key
    still overrides it.
   */
  lemma RewrittenFields(c: Codec, ms: seq<Member>, n: int)
    requires DistinctKeys(ms) && FieldValuesStable(c, ms)
    requires DecodeMembers(ms).Success?
    requires MinInt64 <= n <= MaxInt64
    ensures ThroughAny(c, ms).Some?
    ensures var f := DecodeMembers(ms).value;
            var g := DecodeMembers(Set(ThroughAny(c, ms).value, "length", Int(n)));
            && g.Success?
            && g.value.typ == f.typ && g.value.filename == f.filename
            && (g.value.length == Some(n) || g.value.length == f.length)
  {
    ThroughAnyKeepsFields(c, ms, n);
    DecodeIgnoresOtherKeys(Set(ms, "length", Int(n)), Set(ThroughAny(c, ms).value, "length", Int(n)));
    DecodeAfterSet(ms, n);
  }

  /**
    A serialized frame reads back as one item with the same type, filename
    and payload, whose header is again a plain object, and the reader stops
    exactly at the end of the frame.
   */
  lemma ReadSerializedFrame(c: Codec, it: Item, rest: Bytes)
    requires Lawful(c)
    requires Rewritable(c, it)
    ensures SerializeItem(c, it).Success?
    ensures var it' := Item(RewrittenHeader(c, it), it.payload, it.typ, it.filename);
            && SerializeItem(c, it).value == it'.header + [LF] + it.payload + [LF]
            && Rewritable(c, it')
            && ParseItems(c, SerializeItem(c, it).value + rest) == Prepend(it', ParseItems(c, rest))
  {
    SerializedFrameShape(c, it);
    RewrittenHeaderFrames(c, it);
    ReadFramedItem(c, Item(RewrittenHeader(c, it), it.payload, it.typ, it.filename), rest);
  }

  /** A framed item written as header, `\n`, payload, `\n` reads back as itself. */
  lemma ReadFramedItem(c: Codec, it: Item, rest: Bytes)
    requires Framed(c, it)
    ensures ParseItems(c, it.header + [LF] + it.payload + [LF] + rest) == Prepend(it, ParseItems(c, rest))
  {
    var m, p := it.header, it.payload;
    if HeaderFields(c, m).value.length == Some(|p|) {
      ExplicitLengthFrame(c, m, p, [LF] + rest);
      assert m + [LF] + p + ([LF] + rest) == m + [LF] + p + [LF] + rest;
      assert ([LF] + rest)[1..] == rest;
    } else {
      ImplicitLengthFrame(c, m, p, rest);
    }
  }

  /** The items of a serialized list read back one for one, with the same content. */
  lemma {:induction false} ReadSerializedItems(c: Codec, items: seq<Item>)
    requires Lawful(c)
    requires forall i | 0 <= i < |items| :: Rewritable(c, items[i])
    ensures SerializeItems(c, items).Success?
    ensures var r := ParseItems(c, SerializeItems(c, items).value);
            && r.Success?
            && SameContent(items, r.value)
            && forall i | 0 <= i < |r.value| :: Rewritable(c, r.value[i])
  {
    if items == [] {
      assert ParseItems(c, []) == Success([]);
    } else {
      var tail := items[1..];
      assert forall i | 0 <= i < |tail| :: tail[i] == items[i + 1];
      ReadSerializedItems(c, tail);
      var frames := SerializeItems(c, tail).value;
      var reread := ParseItems(c, frames).value;
      ReadSerializedFrame(c, items[0], frames);
      var frame := SerializeItem(c, items[0]).value;
      assert SerializeItems(c, items) == Success(frame + frames);
      var first := Item(RewrittenHeader(c, items[0]), items[0].payload, items[0].typ, items[0].filename);
      assert ParseItems(c, frame + frames) == Success([first] + reread);
      SameContentCons(items, reread, first);
      RewritableCons(c, first, reread);
    }
  }

  lemma SameContentCons(a: seq<Item>, b: seq<Item>, x: Item)
    requires |a| > 0 && SameContent(a[1..], b)
    requires x.typ == a[0].typ && x.payload == a[0].payload && x.filename == a[0].filename
    ensures SameContent(a, [x] + b)
  {
    assert forall i | 1 <= i < |a| :: a[i] == a[1..][i - 1] && ([x] + b)[i] == b[i - 1];
  }

  lemma RewritableCons(c: Codec, x: Item, b: seq<Item>)
    requires Rewritable(c, x) && forall i | 0 <= i < |b| :: Rewritable(c, b[i])
    ensures forall i | 0 <= i < |[x] + b| :: Rewritable(c, ([x] + b)[i])
  {
    assert forall i | 1 <= i < |[x] + b| :: ([x] + b)[i] == b[i - 1];
  }

  /**
    Serializing an envelope in the parsed shape and parsing the result gives
    the same item count and, per item, the same type, filename and payload
    bytes; the envelope header comes back compacted.
   */
  lemma SerializeThenParse(c: Codec, env: Envelope)
    requires Lawful(c)
    requires Parsed(c, env)
    requires forall i | 0 <= i < |env.items| :: Rewritable(c, env.items[i])
    ensures Serialize(c, env).Success?
    ensures var r := Parse(c, Serialize(c, env).value);
            && r.Success?
            && r.value.header == c.compact(env.header).value
            && SameContent(env.items, r.value.items)
            && forall i | 0 <= i < |r.value.items| :: Rewritable(c, r.value.items[i])
  {
    CompactFacts(c, env.header);
    var h := c.compact(env.header).value;
    ReadSerializedItems(c, env.items);
    var frames := SerializeItems(c, env.items).value;
    SplitLineOfTerminated(h, frames);
  }

  /**
    The round trip as the source's tests state it: a parsed envelope whose
    item headers are objects without repeated keys serializes, and parsing
    the output yields the same item count, types and payload bytes.
   */
  lemma ParseSerializeRoundTrip(c: Codec, data: Bytes)
    requires Lawful(c)
    requires |data| <= MaxInt64
    requires Parse(c, data).Success?
    requires forall i | 0 <= i < |Parse(c, data).value.items| ::
               PlainObjectHeader(c, Parse(c, data).value.items[i])
    ensures var env := Parse(c, data).value;
            && Serialize(c, env).Success?
            && Parse(c, Serialize(c, env).value).Success?
            && SameContent(env.items, Parse(c, Serialize(c, env).value).value.items)
  {
    SerializeThenParse(c, Parse(c, data).value);
  }

  /** After one round trip serialization is a fixed point: the bytes repeat exactly. */
  lemma SerializeIsStable(c: Codec, env: Envelope)
    requires Lawful(c)
    requires Parsed(c, env)
    requires forall i | 0 <= i < |env.items| :: Rewritable(c, env.items[i])
    ensures Serialize(c, env).Success?
    ensures var out := Serialize(c, env).value;
            Parse(c, out).Success? && Serialize(c, Parse(c, out).value) == Success(out)
  {
    SerializeThenParse(c, env);
    CompactFacts(c, env.header);
    var h := c.compact(env.header).value;
    var frames := SerializeItems(c, env.items).value;
    SplitLineOfTerminated(h, frames);
    SerializedItemsAreFixed(c, env.items);
  }

  /** Items read back from serialized frames serialize to the same frames. */
  lemma {:induction false} SerializedItemsAreFixed(c: Codec, items: seq<Item>)
    requires Lawful(c)
    requires forall i | 0 <= i < |items| :: Rewritable(c, items[i])
    ensures SerializeItems(c, items).Success?
    ensures ParseItems(c, SerializeItems(c, items).value).Success?
    ensures SerializeItems(c, ParseItems(c, SerializeItems(c, items).value).value) == SerializeItems(c, items)
  {
    ReadSerializedItems(c, items);
    if items == [] {
      assert ParseItems(c, []) == Success([]);
    } else {
      var tail := items[1..];
      assert forall i | 0 <= i < |tail| :: tail[i] == items[i + 1];
      SerializedItemsAreFixed(c, tail);
      var frames := SerializeItems(c, tail).value;
      var reread := ParseItems(c, frames).value;
      ReadSerializedFrame(c, items[0], frames);
      var frame := SerializeItem(c, items[0]).value;
      assert SerializeItems(c, items) == Success(frame + frames);
      var first := Item(RewrittenHeader(c, items[0]), items[0].payload, items[0].typ, items[0].filename);
      var all := [first] + reread;
      assert ParseItems(c, frame + frames) == Success(all);
      FrameIsFixed(c, items[0]);
      assert all[1..] == reread;
      assert SerializeItems(c, all) == Success(frame + frames);
    }
  }

  /** Re-serializing the item read back from a frame writes the same frame. */
  lemma FrameIsFixed(c: Codec, it: Item)
    requires Lawful(c)
    requires Rewritable(c, it)
    ensures SerializeItem(c, it).Success?
    ensures SerializeItem(c, Item(RewrittenHeader(c, it), it.payload, it.typ, it.filename)) == SerializeItem(c, it)
  {
    var n := |it.payload|;
    var ms := c.decode(it.header).value.members;
    var ms1 := RewrittenMembers(c, it);
    var m := RewrittenHeader(c, it);
    SerializedFrameShape(c, it);
    MarshalFacts(c, Object(ms1));
    RewrittenIsStable(c, ms, n);
    ThroughAnyThenSet(c, ms1, "length", Int(n));
    CollapseDistinct(ThroughAny(c, ms1).value);
    SetTwice(ThroughAny(c, ms).value, "length", Int(n));
    assert UpdateLength(c, m, n) == Success(m);
  }
}
