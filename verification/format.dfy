/**
  The text of one list entry: `"<n>. <TYPE> · <size>"`, with ` · <filename>`
  appended when the item names a file. Sizes below 1024 bytes are printed
  exactly in bytes; larger ones in kilobytes or megabytes with one decimal,
  rounded to the nearest tenth with ties to even, as `%.1f` does.
 */
module Format {
  import opened Bytes
  import opened ItemHeader
  import opened EnvelopeCodec

  // ---------------------------------------------------------------------
  // Decimal numerals
  // ---------------------------------------------------------------------

  predicate IsDigit(ch: char) { '0' <= ch <= '9' }

  predicate AllDigits(s: string) { forall i | 0 <= i < |s| :: IsDigit(s[i]) }

  function Digit(d: nat): (ch: char)
    requires d < 10
    ensures IsDigit(ch)
  {
    ('0' as int + d) as char
  }

  function DigitValue(ch: char): (d: nat)
    requires IsDigit(ch)
    ensures d < 10 && Digit(d) == ch
  {
    ch as int - '0' as int
  }

  /** The shortest decimal numeral for `n`. */
  function Decimal(n: nat): (s: string)
    ensures |s| > 0 && AllDigits(s)
    ensures |s| > 1 ==> s[0] != '0'
  {
    if n < 10 then [Digit(n)] else Decimal(n / 10) + [Digit(n % 10)]
  }

  /** The value of a numeral. */
  function ParseDecimal(s: string): nat
    requires AllDigits(s)
  {
    if s == [] then 0 else ParseDecimal(s[..|s| - 1]) * 10 + DigitValue(s[|s| - 1])
  }

  /** Reading a printed number gives the number back. */
  lemma {:induction false} DecimalReadsBack(n: nat)
    ensures ParseDecimal(Decimal(n)) == n
  {
    var s := Decimal(n);
    if n >= 10 {
      assert s[..|s| - 1] == Decimal(n / 10);
      DecimalReadsBack(n / 10);
    }
  }

  /** Go's `%d`: a minus sign for negative numbers, then the decimal numeral. */
  function FormatInt(i: int): (s: string)
    ensures |s| > 0
    ensures i >= 0 <==> IsDigit(s[0])
  {
    if i < 0 then "-" + Decimal(-i) else Decimal(i)
  }

  // ---------------------------------------------------------------------
  // formatSize
  // ---------------------------------------------------------------------

  const KiB: nat := 1024
  const MiB: nat := 1024 * 1024

  /** `t` is `num / den` rounded to the nearest integer, ties to even. */
  predicate RoundsTo(num: int, den: int, t: int) {
    && den * (2 * t - 1) <= 2 * num <= den * (2 * t + 1)
    && (2 * num == den * (2 * t - 1) || 2 * num == den * (2 * t + 1) ==> t % 2 == 0)
  }

  function RoundHalfEven(num: nat, den: nat): (t: nat)
    requires den > 0
    ensures RoundsTo(num, den, t)
  {
    var q, r := num / den, num % den;
    var t := if 2 * r > den then q + 1
             else if 2 * r < den then q
             else if q % 2 == 0 then q
             else q + 1;
    RoundingStep(num, den, q, r, t);
    t
  }

  /** Rounding up or down from the quotient, as the remainder dictates, gives the nearest integer. */
  lemma RoundingStep(num: int, den: int, q: int, r: int, t: int)
    requires den > 0 && num == den * q + r && 0 <= r < den
    requires (t == q + 1 && 2 * r >= den) || (t == q && 2 * r <= den)
    requires 2 * r == den ==> t % 2 == 0
    ensures RoundsTo(num, den, t)
  {
    if t == q {
      assert den * (2 * t - 1) == 2 * (den * q) - den;
      assert den * (2 * t + 1) == 2 * (den * q) + den;
    } else {
      assert den * (2 * t - 1) == 2 * (den * q) + den;
      assert den * (2 * t + 1) == 2 * (den * q) + 3 * den;
    }
  }

  /** A count of tenths printed with one decimal. */
  function TenthsText(t: nat): string {
    Decimal(t / 10) + "." + [Digit(t % 10)]
  }

  /** The unit `formatSize` picks for `b` bytes. */
  function UnitFor(b: int): string {
    if b >= MiB then "MB" else if b >= KiB then "KB" else "B"
  }

  function Scale(unit: string): nat {
    if unit == "MB" then MiB else if unit == "KB" then KiB else 1
  }

  /** A byte count in B below 1024, in KB below 1024 * 1024, and in MB above, with one decimal for KB and MB. */
  function FormatSize(b: int): (s: string)
    ensures |s| >= 3
    ensures s[|s| - 3..] == " MB" <==> b >= MiB
    ensures s[|s| - 3..] == " KB" <==> KiB <= b < MiB
    ensures b < KiB ==> s[|s| - 2..] == " B"
  {
    if b >= MiB then TenthsText(RoundHalfEven(10 * b, MiB)) + " MB"
    else if b >= KiB then TenthsText(RoundHalfEven(10 * b, KiB)) + " KB"
    else
      var s := FormatInt(b) + " B";
      assert s[|s| - 2] == ' ';
      s
  }

  /**
    Reads a size back as a number of tenths and a unit: `"<d> B"` or
    `"<d>.<e> KB"` / `"<d>.<e> MB"`.
   */
  function ReadSize(s: string): Option<(nat, string)> {
    if |s| >= 3 && (s[|s| - 3..] == " KB" || s[|s| - 3..] == " MB") then
      match ReadTenths(s[..|s| - 3])
      case None => None
      case Some(t) => Some((t, s[|s| - 2..]))
    else if |s| >= 2 && s[|s| - 2..] == " B" then
      var f := s[..|s| - 2];
      if |f| > 0 && AllDigits(f) then Some((10 * ParseDecimal(f), "B")) else None
    else None
  }

  function ReadTenths(f: string): Option<nat> {
    if |f| >= 3 && f[|f| - 2] == '.' && IsDigit(f[|f| - 1]) && AllDigits(f[..|f| - 2]) then
      Some(10 * ParseDecimal(f[..|f| - 2]) + DigitValue(f[|f| - 1]))
    else None
  }

  lemma TenthsReadBack(t: nat)
    ensures ReadTenths(TenthsText(t)) == Some(t)
  {
    var f := TenthsText(t);
    var d := Decimal(t / 10);
    assert f[..|f| - 2] == d;
    assert f[|f| - 2] == '.';
    DecimalReadsBack(t / 10);
  }

  /**
    The printed size reads back as the unit chosen by the thresholds and a
    figure that is `b` in that unit rounded to the nearest tenth (exact for
    bytes).
   */
  lemma FormatSizeReadsBack(b: nat)
    ensures ReadSize(FormatSize(b)).Some?
    ensures ReadSize(FormatSize(b)).value.1 == UnitFor(b)
    ensures RoundsTo(10 * b, Scale(UnitFor(b)), ReadSize(FormatSize(b)).value.0)
  {
    var s := FormatSize(b);
    if b >= KiB {
      var den := if b >= MiB then MiB else KiB;
      var t := RoundHalfEven(10 * b, den);
      var f := TenthsText(t);
      var unit := if b >= MiB then " MB" else " KB";
      assert s == f + unit;
      assert s[..|s| - 3] == f;
      assert s[|s| - 3..] == unit;
      assert s[|s| - 2..] == unit[1..];
      TenthsReadBack(t);
    } else {
      var f := Decimal(b);
      assert s == f + " B";
      assert s[..|s| - 2] == f;
      assert s[|s| - 2..] == " B";
      assert s[|s| - 3..] != " KB" && s[|s| - 3..] != " MB" by {
        if |s| >= 3 { assert s[|s| - 2] == ' '; }
      }
      DecimalReadsBack(b);
    }
  }

  /** The byte-sized examples from the format tests: printed as a plain count. */
  lemma ByteSizeExamples()
    ensures FormatSize(0) == "0 B"
    ensures FormatSize(50) == "50 B"
    ensures FormatSize(100) == "100 B"
    ensures FormatSize(512) == "512 B"
  {
    assert Decimal(512) == "512" by {
      assert Decimal(51) == "51";
    }
    assert Decimal(50) == "50";
    assert Decimal(100) == "100" by {
      assert Decimal(10) == "10";
    }
  }

  /** The kilobyte examples from the format tests: one decimal. */
  lemma KiloSizeExamples()
    ensures FormatSize(1024) == "1.0 KB"
    ensures FormatSize(1536) == "1.5 KB"
  {
    assert RoundHalfEven(10240, KiB) == 10;
    assert RoundHalfEven(15360, KiB) == 15;
  }

  /** The megabyte examples from the format tests: one decimal. */
  lemma MegaSizeExamples()
    ensures FormatSize(1048576) == "1.0 MB"
    ensures FormatSize(1572864) == "1.5 MB"
  {
    assert RoundHalfEven(10485760, MiB) == 10;
    assert RoundHalfEven(15728640, MiB) == 15;
  }

  /** 1.25 KB is printed as 1.2 KB: a tie rounds to the even tenth. */
  lemma TieRoundsToEven()
    ensures FormatSize(1280) == "1.2 KB"
  {
    assert RoundHalfEven(12800, KiB) == 12;
  }

  // ---------------------------------------------------------------------
  // itemLabel
  // ---------------------------------------------------------------------

  /** The separator between label parts: space, U+00B7 MIDDLE DOT, space. */
  const Separator: string := " \U{00B7} "

  /** `strings.Join`. */
  function Join(parts: seq<string>, sep: string): string {
    if |parts| == 0 then ""
    else if |parts| == 1 then parts[0]
    else parts[0] + sep + Join(parts[1..], sep)
  }

  function UpperAscii(ch: char): char {
    if 'a' <= ch <= 'z' then (ch as int - 32) as char else ch
  }

  /** ASCII upper-casing of a whole string. */
  function ToUpper(s: string): (r: string)
    ensures |r| == |s|
    ensures forall i | 0 <= i < |r| :: !('a' <= r[i] <= 'z')
    ensures forall i | 0 <= i < |s| && !('a' <= s[i] <= 'z') :: r[i] == s[i]
  {
    seq(|s|, i requires 0 <= i < |s| => UpperAscii(s[i]))
  }

  function ItemLabel(idx: int, it: Item): string {
    var first := FormatInt(idx + 1) + ". " + ToUpper(it.typ);
    var parts := [first, FormatSize(|it.payload|)] + (if it.filename != "" then [it.filename] else []);
    Join(parts, Separator)
  }

  /** Length of the run of digits at the start of `s`. */
  function DigitRun(s: string): (k: nat)
    ensures k <= |s| && AllDigits(s[..k])
    ensures k < |s| ==> !IsDigit(s[k])
  {
    if s != [] && IsDigit(s[0]) then
      var k := 1 + DigitRun(s[1..]);
      assert s[..k] == [s[0]] + s[1..][..k - 1];
      k
    else 0
  }

  lemma {:induction false} DigitRunOfNumeral(a: string, b: string)
    requires AllDigits(a)
    requires b != [] && !IsDigit(b[0])
    ensures DigitRun(a + b) == |a|
  {
    if a != [] {
      assert (a + b)[1..] == a[1..] + b;
      DigitRunOfNumeral(a[1..], b);
    }
  }

  /** The zero-based index named by a label's leading `"<n>. "`. */
  function ReadIndex(text: string): Option<int> {
    var k := DigitRun(text);
    if k > 0 && k + 2 <= |text| && text[k..k + 2] == ". " then
      Some(ParseDecimal(text[..k]) - 1)
    else None
  }

  /** The list position can be read back from the label. */
  lemma LabelReadsIndex(idx: nat, it: Item)
    ensures ReadIndex(ItemLabel(idx, it)) == Some(idx)
  {
    var text := ItemLabel(idx, it);
    var num := Decimal(idx + 1);
    var rest := text[|num|..];
    assert text == num + rest;
    assert rest[..2] == ". ";
    DigitRunOfNumeral(num, rest);
    assert text[..|num|] == num;
    DecimalReadsBack(idx + 1);
  }

  /**
    The label starts with the number, the upper-cased type and the size;
    the filename is the last part when it is non-empty, and the size is
    the last part otherwise.
   */
  lemma LabelLayout(idx: int, it: Item)
    ensures var head := FormatInt(idx + 1) + ". " + ToUpper(it.typ) + Separator + FormatSize(|it.payload|);
            && (it.filename == "" ==> ItemLabel(idx, it) == head)
            && (it.filename != "" ==> ItemLabel(idx, it) == head + Separator + it.filename)
  {
    var first := FormatInt(idx + 1) + ". " + ToUpper(it.typ);
    var size := FormatSize(|it.payload|);
    if it.filename == "" {
      var parts := [first, size];
      assert [first, size] + [] == parts;
      assert ItemLabel(idx, it) == Join(parts, Separator);
      assert parts[1..] == [size];
      assert Join(parts, Separator) == first + Separator + size;
    } else {
      var parts := [first, size, it.filename];
      assert [first, size] + [it.filename] == parts;
      assert ItemLabel(idx, it) == Join(parts, Separator);
      assert parts[1..] == [size, it.filename];
      assert parts[1..][1..] == [it.filename];
      assert Join(parts[1..], Separator) == size + Separator + it.filename;
      assert Join(parts, Separator) == first + Separator + (size + Separator + it.filename);
    }
  }

  /** Upper-casing the two item types from the format tests. */
  lemma ToUpperExamples()
    ensures ToUpper("event") == "EVENT"
    ensures ToUpper("attachment") == "ATTACHMENT"
  {
    var a := ToUpper("attachment");
    assert forall i | 0 <= i < 10 :: a[i] == "ATTACHMENT"[i];
    var e := ToUpper("event");
    assert forall i | 0 <= i < 5 :: e[i] == "EVENT"[i];
  }

  /** A label assembled from its already formatted parts. */
  lemma LabelFromParts(idx: int, it: Item, num: string, typ: string, size: string)
    requires FormatInt(idx + 1) == num && ToUpper(it.typ) == typ && FormatSize(|it.payload|) == size
    ensures it.filename == "" ==> ItemLabel(idx, it) == num + ". " + typ + Separator + size
    ensures it.filename != "" ==> ItemLabel(idx, it) == num + ". " + typ + Separator + size + Separator + it.filename
  {
    LabelLayout(idx, it);
  }

  /** The label parts of the first format test, joined. */
  lemma EventLabelText()
    ensures "1" + ". " + "EVENT" + Separator + "100 B" == "1. EVENT \U{00B7} 100 B"
  {
  }

  /** The label parts of the second format test, joined. */
  lemma AttachmentLabelText()
    ensures "3" + ". " + "ATTACHMENT" + Separator + "50 B" + Separator + "test.bin"
         == "3. ATTACHMENT \U{00B7} 50 B \U{00B7} test.bin"
  {
  }

  /** The first label from the format tests, for any 100-byte payload. */
  lemma EventLabelExample(header: Bytes, payload: Bytes)
    requires |payload| == 100
    ensures ItemLabel(0, Item(header, payload, "event", "")) == "1. EVENT \U{00B7} 100 B"
  {
    assert FormatSize(100) == "100 B" by { ByteSizeExamples(); }
    ToUpperExamples();
    assert FormatInt(1) == "1";
    LabelFromParts(0, Item(header, payload, "event", ""), "1", "EVENT", "100 B");
    EventLabelText();
  }

  /** The second label from the format tests, for any 50-byte payload. */
  lemma AttachmentLabelExample(header: Bytes, payload: Bytes)
    requires |payload| == 50
    ensures ItemLabel(2, Item(header, payload, "attachment", "test.bin"))
              == "3. ATTACHMENT \U{00B7} 50 B \U{00B7} test.bin"
  {
    assert FormatSize(50) == "50 B" by { ByteSizeExamples(); }
    ToUpperExamples();
    assert FormatInt(3) == "3";
    LabelFromParts(2, Item(header, payload, "attachment", "test.bin"), "3", "ATTACHMENT", "50 B");
    AttachmentLabelText();
  }
}
