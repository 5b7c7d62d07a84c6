/**
  The three item-header fields the codec interprets: `type`, `length` and
  `filename`, read the way Go's encoding/json fills a struct with fields
  `Type string`, `Length *int` and `Filename string`.

  Members are visited in order. A key names a field when it equals the
  field name after Go's case folding. A string field takes a string and ignores
  `null`; the length takes an integer literal that fits in 64 bits and is
  reset to absent by `null`. Any other value for a named field, or a
  header that is neither an object nor `null`, is an error.
 */
module ItemHeader {
  import opened Bytes
  import opened JsonModel

  datatype ItemFields = ItemFields(typ: string, length: Option<int>, filename: string)

  datatype FieldError = NotAnObject | WrongFieldType(key: string)

  const Defaults := ItemFields("", None, "")

  /**
    Go's folding of a key rune before it is compared with a field name
    (encoding/json, Go 1.21 and later): ASCII letters are upper-cased, and a
    non-ASCII rune becomes the upper case of its simple case fold. The three
    runes whose fold is an ASCII letter are listed; every other non-ASCII
    rune folds to a non-ASCII rune and so never matches a field name, which
    keeping it as it is preserves. The dotted capital I (U+0130) has no
    simple case fold, so it stays itself.
   */
  function FoldRune(ch: char): char {
    if 'a' <= ch <= 'z' then (ch as int - 32) as char
    else if ch == '\U{0131}' then 'I'   // dotless small i
    else if ch == '\U{017F}' then 'S'   // long s
    else if ch == '\U{212A}' then 'K'   // Kelvin sign
    else ch
  }

  /** `key` names `field` once both are folded. */
  predicate Names(key: string, field: string) {
    |key| == |field| && forall i | 0 <= i < |key| :: FoldRune(key[i]) == FoldRune(field[i])
  }

  predicate IsTypeKey(key: string) { Names(key, "type") }
  predicate IsLengthKey(key: string) { Names(key, "length") }
  predicate IsFilenameKey(key: string) { Names(key, "filename") }

  /** One member applied to the fields read so far. */
  function Step(f: ItemFields, m: Member): (r: Result<ItemFields, FieldError>)
    ensures r.Success? && !IsLengthKey(m.0) ==> r.value.length == f.length
    ensures r.Success? && !IsTypeKey(m.0) ==> r.value.typ == f.typ
    ensures r.Success? && !IsFilenameKey(m.0) ==> r.value.filename == f.filename
  {
    var (key, v) := m;
    if IsTypeKey(key) then
      match v
      case Str(s) => Success(f.(typ := s))
      case Null => Success(f)
      case _ => Failure(WrongFieldType(key))
    else if IsLengthKey(key) then
      match v
      case Int(i) =>
        if MinInt64 <= i <= MaxInt64 then Success(f.(length := Some(i)))
        else Failure(WrongFieldType(key))
      case Null => Success(f.(length := None))
      case _ => Failure(WrongFieldType(key))
    else if IsFilenameKey(key) then
      match v
      case Str(s) => Success(f.(filename := s))
      case Null => Success(f)
      case _ => Failure(WrongFieldType(key))
    else Success(f)
  }

  /** The members folded left to right, starting from the defaults. */
  function DecodeMembers(ms: seq<Member>): Result<ItemFields, FieldError> {
    if ms == [] then Success(Defaults)
    else
      match DecodeMembers(ms[..|ms| - 1])
      case Failure(e) => Failure(e)
      case Success(f) => Step(f, ms[|ms| - 1])
  }

  function DecodeFields(v: Json): (r: Result<ItemFields, FieldError>)
    ensures v.Null? ==> r == Success(Defaults)
    ensures !v.Null? && !v.Object? ==> r == Failure(NotAnObject)
  {
    match v
    case Null => Success(Defaults)
    case Object(ms) => DecodeMembers(ms)
    case _ => Failure(NotAnObject)
  }

  /** `key` names one of the three fields once folded. */
  predicate NamesField(key: string) {
    IsTypeKey(key) || IsLengthKey(key) || IsFilenameKey(key)
  }

  /** The same keys in the same order, and the same value under every key that names a field. */
  predicate SameFieldMembers(a: seq<Member>, b: seq<Member>) {
    && |a| == |b|
    && forall i | 0 <= i < |a| :: a[i].0 == b[i].0 && (NamesField(a[i].0) ==> a[i].1 == b[i].1)
  }

  /** Values under keys that name no field are skipped, so they do not affect the fields read. */
  lemma {:induction false} DecodeIgnoresOtherKeys(a: seq<Member>, b: seq<Member>)
    requires SameFieldMembers(a, b)
    ensures DecodeMembers(a) == DecodeMembers(b)
  {
    if a != [] {
      var n := |a| - 1;
      assert SameFieldMembers(a[..n], b[..n]) by {
        assert forall i | 0 <= i < n :: a[..n][i] == a[i] && b[..n][i] == b[i];
      }
      DecodeIgnoresOtherKeys(a[..n], b[..n]);
      assert a[n].0 == b[n].0;
    }
  }

  /**
    A dotted capital I does not fold to `I`, so `fİlename` names no field
    and its value is skipped; a dotless small i does, so `fılename` sets
    the filename.
   */
  lemma DottedCapitalIIsSkipped()
    ensures DecodeMembers([("type", Str("event")), ("f\U{0130}lename", Str("x"))]) ==
              Success(ItemFields("event", None, ""))
    ensures DecodeMembers([("type", Str("event")), ("f\U{0131}lename", Str("x"))]) ==
              Success(ItemFields("event", None, "x"))
  {
    var dotted, dotless := "f\U{0130}lename", "f\U{0131}lename";
    assert FoldRune(dotted[1]) != FoldRune("type"[1]);
    assert FoldRune(dotted[1]) != FoldRune("filename"[1]);
    assert !NamesField(dotted);
    assert forall i | 0 <= i < |dotless| :: FoldRune(dotless[i]) == FoldRune("filename"[i]);
    assert IsFilenameKey(dotless) && !IsTypeKey(dotless) && !IsLengthKey(dotless);
    var ms := [("type", Str("event")), ("f\U{0130}lename", Str("x"))];
    assert ms[..1] == [("type", Str("event"))] && ms[..1][..0] == [];
    var ms' := [("type", Str("event")), ("f\U{0131}lename", Str("x"))];
    assert ms'[..1] == [("type", Str("event"))];
  }

  // ---------------------------------------------------------------------
  // The fields without the fold: the last member that sets each one wins
  // ---------------------------------------------------------------------

  /** A member whose value suits the field its key names (any value suits other keys). */
  predicate FieldTyped(m: Member) {
    && (IsTypeKey(m.0) || IsFilenameKey(m.0) ==> m.1.Str? || m.1.Null?)
    && (IsLengthKey(m.0) ==> m.1.Null? || (m.1.Int? && MinInt64 <= m.1.i <= MaxInt64))
  }

  /** The member sets the string field `field`; a null leaves it alone. */
  predicate SetsString(m: Member, field: string) {
    Names(m.0, field) && m.1.Str?
  }

  /** The member sets the length; a null resets it to absent. */
  predicate SetsLength(m: Member) {
    IsLengthKey(m.0) && (m.1.Int? || m.1.Null?)
  }

  function StringField(f: ItemFields, field: string): string {
    if field == "type" then f.typ else f.filename
  }

  /** Reading fails exactly when some member holds the wrong kind of value for its field. */
  lemma {:induction false} DecodeMembersSucceedsIff(ms: seq<Member>)
    ensures DecodeMembers(ms).Success? <==> forall i | 0 <= i < |ms| :: FieldTyped(ms[i])
  {
    if ms != [] {
      var init := ms[..|ms| - 1];
      DecodeMembersSucceedsIff(init);
      assert forall i | 0 <= i < |init| :: init[i] == ms[i];
    }
  }

  /** No member sets the string field `field`. */
  predicate NoStringSetter(ms: seq<Member>, field: string) {
    forall i | 0 <= i < |ms| :: !SetsString(ms[i], field)
  }

  /** Member `i` sets the string field `field` and no later member does. */
  predicate LastSetsString(ms: seq<Member>, i: int, field: string) {
    0 <= i < |ms| && SetsString(ms[i], field) && forall j | i < j < |ms| :: !SetsString(ms[j], field)
  }

  /**
    `type` and `filename` are the string of the last member that sets them,
    and empty when none does.
   */
  lemma {:induction false} DecodedStringIsLast(ms: seq<Member>, field: string)
    requires field == "type" || field == "filename"
    requires DecodeMembers(ms).Success?
    ensures NoStringSetter(ms, field) ==> StringField(DecodeMembers(ms).value, field) == ""
    ensures forall i | LastSetsString(ms, i, field) :: StringField(DecodeMembers(ms).value, field) == ms[i].1.s
  {
    if ms != [] {
      var init, last := ms[..|ms| - 1], ms[|ms| - 1];
      LastStep(ms);
      var f := DecodeMembers(init).value;
      StepString(f, last, field);
      DecodedStringIsLast(init, field);
      LastStringSetter(ms, field);
    }
  }

  /** Where the last member that sets `field` sits, in terms of the members before the last. */
  lemma LastStringSetter(ms: seq<Member>, field: string)
    requires ms != []
    ensures SetsString(ms[|ms| - 1], field) ==> forall i | LastSetsString(ms, i, field) :: i == |ms| - 1
    ensures !SetsString(ms[|ms| - 1], field) ==>
              && (forall i | LastSetsString(ms, i, field) :: LastSetsString(ms[..|ms| - 1], i, field))
              && (NoStringSetter(ms, field) ==> NoStringSetter(ms[..|ms| - 1], field))
  {
    var init := ms[..|ms| - 1];
    if !SetsString(ms[|ms| - 1], field) {
      forall i | LastSetsString(ms, i, field) ensures LastSetsString(init, i, field) {
        assert init[i] == ms[i];
        forall j | i < j < |init| ensures !SetsString(init[j], field) {
          assert init[j] == ms[j];
        }
      }
      if NoStringSetter(ms, field) {
        assert forall i | 0 <= i < |init| :: init[i] == ms[i];
      }
    }
  }

  /** The fields read from all members are the last member applied to those read from the rest. */
  lemma LastStep(ms: seq<Member>)
    requires ms != [] && DecodeMembers(ms).Success?
    ensures DecodeMembers(ms[..|ms| - 1]).Success?
    ensures Step(DecodeMembers(ms[..|ms| - 1]).value, ms[|ms| - 1]) == DecodeMembers(ms)
  {
  }

  /** One member sets a string field to its string or leaves it as it was. */
  lemma StepString(f: ItemFields, m: Member, field: string)
    requires field == "type" || field == "filename"
    requires Step(f, m).Success?
    ensures SetsString(m, field) ==> StringField(Step(f, m).value, field) == m.1.s
    ensures !SetsString(m, field) ==> StringField(Step(f, m).value, field) == StringField(f, field)
  {
  }

  /**
    The length is that of the last member that sets it (absent when that
    member is null), and absent when none does.
   */
  lemma {:induction false} DecodedLengthIsLast(ms: seq<Member>)
    requires DecodeMembers(ms).Success?
    ensures NoLengthSetter(ms) ==> DecodeMembers(ms).value.length == None
    ensures forall i | LastSetsLength(ms, i) ::
              DecodeMembers(ms).value.length == (if ms[i].1.Int? then Some(ms[i].1.i) else None)
  {
    if ms != [] {
      var init, last := ms[..|ms| - 1], ms[|ms| - 1];
      LastStep(ms);
      var f := DecodeMembers(init).value;
      StepLength(f, last);
      DecodedLengthIsLast(init);
      LastLengthSetter(ms);
    }
  }

  /** Where the last member that sets the length sits, in terms of the members before the last. */
  lemma LastLengthSetter(ms: seq<Member>)
    requires ms != []
    ensures SetsLength(ms[|ms| - 1]) ==> forall i | LastSetsLength(ms, i) :: i == |ms| - 1
    ensures !SetsLength(ms[|ms| - 1]) ==>
              && (forall i | LastSetsLength(ms, i) :: LastSetsLength(ms[..|ms| - 1], i))
              && (NoLengthSetter(ms) ==> NoLengthSetter(ms[..|ms| - 1]))
  {
    var init := ms[..|ms| - 1];
    if !SetsLength(ms[|ms| - 1]) {
      forall i | LastSetsLength(ms, i) ensures LastSetsLength(init, i) {
        assert init[i] == ms[i];
        forall j | i < j < |init| ensures !SetsLength(init[j]) {
          assert init[j] == ms[j];
        }
      }
      if NoLengthSetter(ms) {
        assert forall i | 0 <= i < |init| :: init[i] == ms[i];
      }
    }
  }

  /** One member sets the length to its integer, resets it on null, or leaves it as it was. */
  lemma StepLength(f: ItemFields, m: Member)
    requires Step(f, m).Success?
    ensures SetsLength(m) ==> Step(f, m).value.length == (if m.1.Int? then Some(m.1.i) else None)
    ensures !SetsLength(m) ==> Step(f, m).value.length == f.length
  {
  }

  /** No member sets the length. */
  predicate NoLengthSetter(ms: seq<Member>) {
    forall i | 0 <= i < |ms| :: !SetsLength(ms[i])
  }

  /** Member `i` sets the length and no later member does. */
  predicate LastSetsLength(ms: seq<Member>, i: int) {
    0 <= i < |ms| && SetsLength(ms[i]) && forall j | i < j < |ms| :: !SetsLength(ms[j])
  }

  /** The exact key `length` names the length field and no other. */
  lemma LengthKeyNamesOnlyLength()
    ensures IsLengthKey("length") && !IsTypeKey("length") && !IsFilenameKey("length")
  {
    assert FoldRune('l') != FoldRune('t');
  }

  /**
    Writing `length = n` over an existing exact `length` member keeps the
    type and filename and leaves the length either `n` or whatever a later
    member spelled with other case says, as before.
   */
  lemma {:induction false} DecodeAfterReplace(ms: seq<Member>, i: nat, n: int)
    requires i < |ms| && ms[i].0 == "length"
    requires MinInt64 <= n <= MaxInt64
    requires DecodeMembers(ms).Success?
    ensures DecodeMembers(ms[i := ("length", Int(n))]).Success?
    ensures var f := DecodeMembers(ms).value;
            var g := DecodeMembers(ms[i := ("length", Int(n))]).value;
            g.typ == f.typ && g.filename == f.filename && (g.length == Some(n) || g.length == f.length)
  {
    LengthKeyNamesOnlyLength();
    var ms' := ms[i := ("length", Int(n))];
    var init, init' := ms[..|ms| - 1], ms'[..|ms| - 1];
    if i == |ms| - 1 {
      assert init' == init;
    } else {
      assert init' == init[i := ("length", Int(n))];
      DecodeAfterReplace(init, i, n);
      assert ms'[|ms| - 1] == ms[|ms| - 1];
    }
  }

  /** Appending `length = n` keeps the type and filename and sets the length to `n`. */
  lemma DecodeAfterAppend(ms: seq<Member>, n: int)
    requires MinInt64 <= n <= MaxInt64
    requires DecodeMembers(ms).Success?
    ensures var g := DecodeMembers(ms + [("length", Int(n))]);
            g.Success? && g.value == DecodeMembers(ms).value.(length := Some(n))
  {
    LengthKeyNamesOnlyLength();
    assert (ms + [("length", Int(n))])[..|ms|] == ms;
  }

  /**
    Setting `length = n` on an object without repeated keys keeps the type
    and filename; the length read back is `n`, unless a later member whose
    key differs from `length` only in case overrides it, as it already did.
   */
  lemma DecodeAfterSet(ms: seq<Member>, n: int)
    requires MinInt64 <= n <= MaxInt64
    requires DecodeMembers(ms).Success?
    ensures DecodeMembers(Set(ms, "length", Int(n))).Success?
    ensures var f := DecodeMembers(ms).value;
            var g := DecodeMembers(Set(ms, "length", Int(n))).value;
            g.typ == f.typ && g.filename == f.filename && (g.length == Some(n) || g.length == f.length)
  {
    match IndexOf(ms, "length")
    case None => DecodeAfterAppend(ms, n);
    case Some(i) => DecodeAfterReplace(ms, i, n);
  }

  /**
    The object `{"type":"a","type":null}` reads as type "a", but after the
    ordered map has collapsed the repeated key and `length` has been set,
    it reads as type "".
   */
  lemma RepeatedKeyLosesType()
    ensures var ms := [("type", Str("a")), ("type", Null)];
            && DecodeMembers(ms) == Success(ItemFields("a", None, ""))
            && Collapse(ms) == [("type", Null)]
            && DecodeMembers(Set(Collapse(ms), "length", Int(0))) == Success(ItemFields("", Some(0), ""))
  {
    RepeatedKeyDecodes();
    RepeatedKeyCollapses();
    CollapsedTypeDecodes();
  }

  /** With the key repeated, the decoder keeps the string and skips the null. */
  lemma RepeatedKeyDecodes()
    ensures DecodeMembers([("type", Str("a")), ("type", Null)]) == Success(ItemFields("a", None, ""))
  {
    var ms := [("type", Str("a")), ("type", Null)];
    LengthKeyNamesOnlyLength();
    assert IsTypeKey("type");
    assert ms[..1] == [("type", Str("a"))];
    assert [("type", Str("a"))][..0] == [];
  }

  /** The ordered map keeps the last value of a repeated key. */
  lemma RepeatedKeyCollapses()
    ensures Collapse([("type", Str("a")), ("type", Null)]) == [("type", Null)]
  {
    var ms := [("type", Str("a")), ("type", Null)];
    assert ms[..1] == [("type", Str("a"))];
    assert Collapse(ms[..1]) == [("type", Str("a"))] by {
      assert ms[..1][..0] == [];
    }
  }

  /** A null type with a length set decodes as type "". */
  lemma CollapsedTypeDecodes()
    ensures DecodeMembers(Set([("type", Null)], "length", Int(0))) == Success(ItemFields("", Some(0), ""))
  {
    LengthKeyNamesOnlyLength();
    assert IsTypeKey("type");
    var c := [("type", Null)];
    assert IndexOf(c, "length") == None;
    var s := Set(c, "length", Int(0));
    assert s == [("type", Null), ("length", Int(0))];
    assert s[..1] == c;
    assert c[..0] == [];
  }
}
