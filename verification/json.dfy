/**
  JSON as the envelope codec sees it (RFC 8259 is kept abstract).

  A header is decoded into a `Json` value whose objects keep their members
  in the order they were written, duplicates included. The four library
  operations the codec relies on (validating and decoding, compacting,
  marshalling an ordered map, and passing a member value through Go's
  `any`) are bundled in a `Codec` record; `Lawful` states the only facts
  the framing needs about them.
 */
module JsonModel {
  import opened Bytes

  datatype Json =
    | Null
    | Bool(b: bool)
    | Int(i: int)              // a number literal with no fraction and no exponent
    | Number(literal: string)  // any other number literal, kept as written
    | Str(s: string)
    | Array(elems: seq<Json>)
    | Object(members: seq<Member>)

  type Member = (string, Json)

  const MinInt64: int := -0x8000_0000_0000_0000
  const MaxInt64: int := 0x7FFF_FFFF_FFFF_FFFF
  /** The largest integer a float64 holds together with all smaller ones (2^53). */
  const MaxExactInt: int := 0x20_0000_0000_0000

  /**
    `decode` is validity plus decoding (None for malformed JSON), `compact`
    removes insignificant whitespace (None for malformed JSON), `marshal`
    writes a value in compact form. `viaAny` is what becomes of a member
    value that is unmarshalled into Go's `any` and marshalled again (numbers
    become float64, nested objects become maps with sorted keys); None when
    the value cannot be unmarshalled, such as a number beyond float64 range.
    `keysReadable` tells whether the member names of an object text can be
    read by the ordered map's parser, which rejects a name that is not
    valid UTF-8 or holds an unpaired surrogate escape such as `\ud800`.
   */
  datatype Codec = Codec(
    decode: Bytes -> Option<Json>,
    compact: Bytes -> Option<Bytes>,
    marshal: Json -> Bytes,
    viaAny: Json -> Option<Json>,
    keysReadable: Bytes -> bool)

  /**
    Marshalled text for `v` is one non-empty line, decodes to `v`, is
    already compact, and has readable member names.
   */
  ghost predicate MarshalsFaithfully(c: Codec, v: Json) {
    && |c.marshal(v)| > 0
    && NoNewline(c.marshal(v))
    && c.decode(c.marshal(v)) == Some(v)
    && c.compact(c.marshal(v)) == Some(c.marshal(v))
    && c.keysReadable(c.marshal(v))
  }

  /**
    Compaction of `b` succeeds exactly when `b` is JSON; the result is one
    non-empty line with the same value, and compacting it again changes
    nothing.
   */
  ghost predicate CompactsFaithfully(c: Codec, b: Bytes) {
    && (c.compact(b).Some? <==> c.decode(b).Some?)
    && (c.compact(b).Some? ==>
          && |c.compact(b).value| > 0
          && NoNewline(c.compact(b).value)
          && c.decode(c.compact(b).value) == c.decode(b)
          && c.compact(c.compact(b).value) == c.compact(b))
  }

  /**
    Through `any`, null, booleans, strings and integers a float64 holds
    exactly come back unchanged, and every 64-bit integer can be read. A
    value that has been through `any` once comes back unchanged the next
    time: float64 numbers are written in a form that reads back as the same
    float64, and maps are written with their keys already sorted.
   */
  ghost predicate PassesThroughAny(c: Codec, v: Json) {
    && ((v.Null? || v.Bool? || v.Str? || (v.Int? && -MaxExactInt <= v.i <= MaxExactInt))
          ==> c.viaAny(v) == Some(v))
    && (v.Int? && MinInt64 <= v.i <= MaxInt64 ==> c.viaAny(v).Some?)
    && (c.viaAny(v).Some? ==> c.viaAny(c.viaAny(v).value) == c.viaAny(v))
  }

  /** What the framing needs of the JSON library, for every value and every text. */
  ghost predicate Lawful(c: Codec) {
    && (forall v: Json :: MarshalsFaithfully(c, v))
    && (forall b: Bytes :: CompactsFaithfully(c, b))
    && (forall v: Json :: PassesThroughAny(c, v))
  }

  lemma MarshalFacts(c: Codec, v: Json)
    requires Lawful(c)
    ensures |c.marshal(v)| > 0 && NoNewline(c.marshal(v))
    ensures c.decode(c.marshal(v)) == Some(v)
    ensures c.compact(c.marshal(v)) == Some(c.marshal(v))
    ensures c.keysReadable(c.marshal(v))
  {
    assert MarshalsFaithfully(c, v);
  }

  lemma CompactFacts(c: Codec, b: Bytes)
    requires Lawful(c)
    requires c.decode(b).Some?
    ensures c.compact(b).Some?
    ensures |c.compact(b).value| > 0 && NoNewline(c.compact(b).value)
    ensures c.decode(c.compact(b).value) == c.decode(b)
    ensures c.compact(c.compact(b).value) == c.compact(b)
  {
    assert CompactsFaithfully(c, b);
  }

  lemma AnyFacts(c: Codec, v: Json)
    requires Lawful(c)
    ensures (v.Null? || v.Bool? || v.Str? || (v.Int? && -MaxExactInt <= v.i <= MaxExactInt))
              ==> c.viaAny(v) == Some(v)
    ensures v.Int? && MinInt64 <= v.i <= MaxInt64 ==> c.viaAny(v).Some?
    ensures c.viaAny(v).Some? ==> c.viaAny(c.viaAny(v).value) == c.viaAny(v)
  {
    assert PassesThroughAny(c, v);
  }

  lemma CompactSucceedsIff(c: Codec, b: Bytes)
    requires Lawful(c)
    ensures c.compact(b).Some? <==> c.decode(b).Some?
  {
    assert CompactsFaithfully(c, b);
  }

  // ---------------------------------------------------------------------
  // Ordered objects: the insertion-ordered map used to rewrite headers.
  // ---------------------------------------------------------------------

  function KeysOf(ms: seq<Member>): (ks: seq<string>)
    ensures |ks| == |ms|
    ensures forall i | 0 <= i < |ms| :: ks[i] == ms[i].0
  {
    if ms == [] then [] else [ms[0].0] + KeysOf(ms[1..])
  }

  predicate HasKey(ms: seq<Member>, k: string) {
    exists i | 0 <= i < |ms| :: ms[i].0 == k
  }

  predicate DistinctKeys(ms: seq<Member>) {
    forall i, j | 0 <= i < j < |ms| :: ms[i].0 != ms[j].0
  }

  /** Position of the first member named `k`. */
  function IndexOf(ms: seq<Member>, k: string): (r: Option<nat>)
    ensures r.Some? ==> r.value < |ms| && ms[r.value].0 == k
    ensures r.Some? ==> forall j | 0 <= j < r.value :: ms[j].0 != k
    ensures r.None? <==> !HasKey(ms, k)
  {
    if ms == [] then None
    else if ms[0].0 == k then Some(0)
    else match IndexOf(ms[1..], k)
      case None => None
      case Some(i) => Some(i + 1)
  }

  /** Value of the first member named `k`. */
  function Lookup(ms: seq<Member>, k: string): (r: Option<Json>)
    ensures r.None? <==> !HasKey(ms, k)
    ensures r.Some? ==> exists i | 0 <= i < |ms| :: ms[i] == (k, r.value)
  {
    match IndexOf(ms, k)
    case None => None
    case Some(i) => Some(ms[i].1)
  }

  /**
    The ordered map's set-or-append: an existing key keeps its position and
    gets the new value, a new key goes last.
   */
  function Set(ms: seq<Member>, k: string, v: Json): (r: seq<Member>)
    ensures HasKey(ms, k) ==> |r| == |ms|
    ensures !HasKey(ms, k) ==> |r| == |ms| + 1 && r[|ms|] == (k, v)
    ensures forall i | 0 <= i < |ms| :: r[i].0 == ms[i].0
    ensures forall i | 0 <= i < |ms| && ms[i].0 != k :: r[i] == ms[i]
    ensures DistinctKeys(ms) ==> DistinctKeys(r) && Lookup(r, k) == Some(v)
    ensures DistinctKeys(ms) ==> forall i | 0 <= i < |r| && r[i].0 == k :: r[i].1 == v
  {
    match IndexOf(ms, k)
    case None => ms + [(k, v)]
    case Some(i) => ms[i := (k, v)]
  }

  /**
    Decoding an object into the ordered map sets each member in turn, so a
    repeated key keeps its first position and its last value.
   */
  function Collapse(ms: seq<Member>): (r: seq<Member>)
    ensures DistinctKeys(r)
    ensures forall k :: HasKey(r, k) <==> HasKey(ms, k)
  {
    if ms == [] then []
    else
      var init := ms[..|ms| - 1];
      var last := ms[|ms| - 1];
      var r := Set(Collapse(init), last.0, last.1);
      assert forall k :: HasKey(ms, k) <==> HasKey(init, k) || k == last.0 by {
        forall k | HasKey(ms, k) ensures HasKey(init, k) || k == last.0 {
          var i :| 0 <= i < |ms| && ms[i].0 == k;
          if i < |ms| - 1 { assert init[i] == ms[i]; }
        }
        forall k | HasKey(init, k) ensures HasKey(ms, k) {
          var i :| 0 <= i < |init| && init[i].0 == k;
          assert ms[i] == init[i];
        }
        assert ms[|ms| - 1] == last;
      }
      r
  }

  /** An object without repeated keys passes through the ordered map unchanged. */
  lemma {:induction false} CollapseDistinct(ms: seq<Member>)
    requires DistinctKeys(ms)
    ensures Collapse(ms) == ms
  {
    if ms != [] {
      var init := ms[..|ms| - 1];
      var last := ms[|ms| - 1];
      assert DistinctKeys(init);
      CollapseDistinct(init);
      assert !HasKey(init, last.0);
      assert init + [last] == ms;
    }
  }

  /** Setting a key to the value it was just set to changes nothing. */
  lemma SetTwice(ms: seq<Member>, k: string, v: Json)
    requires DistinctKeys(ms)
    ensures Set(Set(ms, k, v), k, v) == Set(ms, k, v)
  {
    var once := Set(ms, k, v);
    assert HasKey(once, k) by {
      if HasKey(ms, k) {
        var i :| 0 <= i < |ms| && ms[i].0 == k;
        assert once[i].0 == k;
      } else {
        assert once[|ms|].0 == k;
      }
    }
    var i := IndexOf(once, k).value;
    assert once[i] == (k, v) by {
      if !HasKey(ms, k) {
        assert once[|ms|] == (k, v);
        assert i == |ms|;
      } else {
        var j := IndexOf(ms, k).value;
        assert once[j] == (k, v);
        assert i == j;
      }
    }
    assert once[i := (k, v)] == once;
  }

  /** Set keeps the sequence of keys, extended by `k` only when `k` was absent. */
  lemma SetKeys(ms: seq<Member>, k: string, v: Json)
    ensures HasKey(ms, k) ==> KeysOf(Set(ms, k, v)) == KeysOf(ms)
    ensures !HasKey(ms, k) ==> KeysOf(Set(ms, k, v)) == KeysOf(ms) + [k]
  {
    var ks, ks' := KeysOf(ms), KeysOf(Set(ms, k, v));
    if HasKey(ms, k) {
      assert ks' == ks;
    } else {
      assert ks' == ks + [k];
    }
  }

  // ---------------------------------------------------------------------
  // Member values through `any`
  // ---------------------------------------------------------------------

  /** Every member value can be unmarshalled into `any`. */
  predicate ReadableValues(c: Codec, ms: seq<Member>) {
    forall i | 0 <= i < |ms| :: c.viaAny(ms[i].1).Some?
  }

  /**
    Every member value can be read into `any`, and every member not named
    `k` comes back from `any` exactly as it was.
   */
  predicate StableValues(c: Codec, ms: seq<Member>, k: string) {
    forall i | 0 <= i < |ms| ::
      c.viaAny(ms[i].1).Some? && (ms[i].0 != k ==> c.viaAny(ms[i].1) == Some(ms[i].1))
  }

  /**
    The members after each value went through `any`, in the same order;
    None as soon as one value cannot be read.
   */
  function ThroughAny(c: Codec, ms: seq<Member>): (r: Option<seq<Member>>)
    ensures r.Some? <==> ReadableValues(c, ms)
    ensures r.Some? ==> |r.value| == |ms|
    ensures r.Some? ==> forall i | 0 <= i < |ms| :: r.value[i] == (ms[i].0, c.viaAny(ms[i].1).value)
  {
    if ms == [] then Some([])
    else if c.viaAny(ms[0].1).None? then None
    else
      match ThroughAny(c, ms[1..])
      case None =>
        assert !ReadableValues(c, ms) by {
          var j :| 0 <= j < |ms[1..]| && c.viaAny(ms[1..][j].1).None?;
          assert ms[j + 1] == ms[1..][j];
        }
        None
      case Some(rest) => Some([(ms[0].0, c.viaAny(ms[0].1).value)] + rest)
  }

  /** The first position of a key depends on the keys alone. */
  lemma {:induction false} IndexOfByKeys(a: seq<Member>, b: seq<Member>, k: string)
    requires |a| == |b| && forall i | 0 <= i < |a| :: a[i].0 == b[i].0
    ensures IndexOf(a, k) == IndexOf(b, k)
  {
    if a != [] {
      IndexOfByKeys(a[1..], b[1..], k);
    }
  }

  /**
    When the values other than `k`'s survive `any`, setting `k` after the
    trip gives what setting it on the original members gives.
   */
  lemma ThroughAnyThenSet(c: Codec, ms: seq<Member>, k: string, v: Json)
    requires DistinctKeys(ms) && StableValues(c, ms, k)
    ensures ThroughAny(c, ms).Some?
    ensures DistinctKeys(ThroughAny(c, ms).value)
    ensures Set(ThroughAny(c, ms).value, k, v) == Set(ms, k, v)
  {
    var ms' := ThroughAny(c, ms).value;
    assert forall j | 0 <= j < |ms| :: ms'[j].0 == ms[j].0;
    IndexOfByKeys(ms', ms, k);
    match IndexOf(ms, k)
    case None =>
      forall j | 0 <= j < |ms| ensures ms'[j] == ms[j] {
        assert ms[j].0 != k;
      }
      assert ms' == ms;
    case Some(i) =>
      forall j | 0 <= j < |ms| && j != i ensures ms'[j] == ms[j] {
        assert ms[j].0 != k;
      }
      assert ms'[i := (k, v)] == ms[i := (k, v)];
  }
}
