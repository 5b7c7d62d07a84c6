/**
  Binary-versus-text classification of payloads. A payload is binary when
  it is not well-formed UTF-8 or holds a control byte other than tab, line
  feed or carriage return.

  `WellFormed` is the UTF-8 syntax of section 4 of RFC 3629, one encoded
  character at a time; `Valid` is the table-driven scan of Go's
  unicode/utf8 package, which is proved to accept exactly that syntax.
 */
module BinaryClassifier {
  import opened Bytes

  predicate IsTail(b: byte) { 0x80 <= b <= 0xBF }

  /**
    Length of the encoded character at the head of `s` per RFC 3629,
    or 0 when `s` does not start with one.
   */
  function CharLength(s: Bytes): (n: nat)
    ensures n <= |s| && n <= 4
    ensures |s| > 0 && s[0] < 0x80 ==> n == 1
  {
    if |s| == 0 then 0
    else
      var b0 := s[0];
      if b0 <= 0x7F then 1
      else if 0xC2 <= b0 <= 0xDF then
        if |s| >= 2 && IsTail(s[1]) then 2 else 0
      else if b0 == 0xE0 then
        if |s| >= 3 && 0xA0 <= s[1] <= 0xBF && IsTail(s[2]) then 3 else 0
      else if 0xE1 <= b0 <= 0xEC || 0xEE <= b0 <= 0xEF then
        if |s| >= 3 && IsTail(s[1]) && IsTail(s[2]) then 3 else 0
      else if b0 == 0xED then
        if |s| >= 3 && 0x80 <= s[1] <= 0x9F && IsTail(s[2]) then 3 else 0
      else if b0 == 0xF0 then
        if |s| >= 4 && 0x90 <= s[1] <= 0xBF && IsTail(s[2]) && IsTail(s[3]) then 4 else 0
      else if 0xF1 <= b0 <= 0xF3 then
        if |s| >= 4 && IsTail(s[1]) && IsTail(s[2]) && IsTail(s[3]) then 4 else 0
      else if b0 == 0xF4 then
        if |s| >= 4 && 0x80 <= s[1] <= 0x8F && IsTail(s[2]) && IsTail(s[3]) then 4 else 0
      else 0
  }

  /** `s` is a sequence of UTF-8 encoded characters. */
  predicate WellFormed(s: Bytes)
    decreases |s|
  {
    |s| == 0 || (CharLength(s) > 0 && WellFormed(s[CharLength(s)..]))
  }

  /** A control byte that makes a payload binary: below 0x20 and not tab, line feed or carriage return. */
  predicate IsControl(b: byte) {
    b < 0x20 && b != 0x09 && b != 0x0A && b != 0x0D
  }

  /** The classification the viewer relies on. */
  predicate Binary(d: Bytes) {
    !WellFormed(d) || exists i | 0 <= i < |d| :: IsControl(d[i])
  }

  /** A lead byte's entry in the decoder's table: sequence size and the range allowed for the second byte. */
  datatype Lead = Lead(size: nat, lo: byte, hi: byte)

  function LeadOf(b: byte): Option<Lead>
    requires b >= 0x80
  {
    if b < 0xC2 then None
    else if b <= 0xDF then Some(Lead(2, 0x80, 0xBF))
    else if b == 0xE0 then Some(Lead(3, 0xA0, 0xBF))
    else if b <= 0xEC then Some(Lead(3, 0x80, 0xBF))
    else if b == 0xED then Some(Lead(3, 0x80, 0x9F))
    else if b <= 0xEF then Some(Lead(3, 0x80, 0xBF))
    else if b == 0xF0 then Some(Lead(4, 0x90, 0xBF))
    else if b <= 0xF3 then Some(Lead(4, 0x80, 0xBF))
    else if b == 0xF4 then Some(Lead(4, 0x80, 0x8F))
    else None
  }

  /**
    The lead-byte table agrees with RFC 3629: a byte with no entry starts no
    character, and one with an entry starts a character of the entry's size
    exactly when the input is long enough, the second byte is in the entry's
    range and the remaining bytes are continuation bytes.
   */
  lemma LeadTableAgrees(s: Bytes)
    requires |s| > 0 && s[0] >= 0x80
    ensures LeadOf(s[0]).None? ==> CharLength(s) == 0
    ensures LeadOf(s[0]).Some? ==>
      var l := LeadOf(s[0]).value;
      && 2 <= l.size <= 4
      && CharLength(s) == (if |s| >= l.size && l.lo <= s[1] <= l.hi
                              && (l.size < 3 || IsTail(s[2])) && (l.size < 4 || IsTail(s[3]))
                           then l.size else 0)
  {
  }

  /** Input that does not start with an encoded character is not well-formed. */
  lemma NoCharHere(s: Bytes)
    requires |s| > 0 && CharLength(s) == 0
    ensures !WellFormed(s)
  {
  }

  /** Well-formedness is decided by what follows the first character. */
  lemma NextChar(s: Bytes)
    requires CharLength(s) > 0
    ensures WellFormed(s) == WellFormed(s[CharLength(s)..])
  {
  }

  /** Go's utf8.Valid: walk the input one character at a time using the lead-byte table. */
  method Valid(p: Bytes) returns (ok: bool)
    ensures ok == WellFormed(p)
  {
    var n := |p|;
    var i := 0;
    while i < n
      invariant 0 <= i <= n
      invariant WellFormed(p) == WellFormed(p[i..])
      decreases n - i
    {
      ghost var t := p[i..];
      var pi := p[i];
      if pi < 0x80 {
        assert CharLength(t) == 1;
        NextChar(t);
        assert t[1..] == p[i + 1..];
        i := i + 1;
        continue;
      }
      LeadTableAgrees(t);
      var lead := LeadOf(pi);
      var size := 0;
      if lead.Some? && i + lead.value.size <= n {
        var c1 := p[i + 1];
        assert c1 == t[1];
        if c1 < lead.value.lo || lead.value.hi < c1 {
        } else if lead.value.size == 2 {
          size := 2;
        } else if !IsTail(p[i + 2]) {
          assert p[i + 2] == t[2];
        } else if lead.value.size == 3 {
          size := 3;
        } else if !IsTail(p[i + 3]) {
          assert p[i + 3] == t[3];
        } else {
          size := 4;
        }
      }
      assert CharLength(t) == size;
      if size == 0 {
        NoCharHere(t);
        return false;
      }
      NextChar(t);
      assert t[size..] == p[i + size..];
      i := i + size;
    }
    return true;
  }

  /** Go's IsBinary: invalid UTF-8 first, then a scan for control bytes. */
  method IsBinary(data: Bytes) returns (binary: bool)
    ensures binary == Binary(data)
  {
    var valid := Valid(data);
    if !valid {
      return true;
    }
    var i := 0;
    while i < |data|
      invariant 0 <= i <= |data|
      invariant forall j | 0 <= j < i :: !IsControl(data[j])
    {
      if IsControl(data[i]) {
        return true;
      }
      i := i + 1;
    }
    return false;
  }

  /** Bytes below 0x80 are one character each, so ASCII is always well-formed. */
  lemma {:induction false} AsciiIsWellFormed(s: Bytes)
    requires forall i | 0 <= i < |s| :: s[i] < 0x80
    ensures WellFormed(s)
  {
    if |s| > 0 {
      assert CharLength(s) == 1;
      AsciiIsWellFormed(s[1..]);
    }
  }

  /** ASCII text whose only control bytes are tab, line feed and carriage return is not binary. */
  lemma PlainTextIsNotBinary(s: Bytes)
    requires forall i | 0 <= i < |s| :: s[i] < 0x80 && !IsControl(s[i])
    ensures !Binary(s)
  {
    AsciiIsWellFormed(s);
  }

  /** The bytes 00 01 02 are binary, and so are FF FE, which are not UTF-8. */
  lemma ControlAndInvalidAreBinary()
    ensures Binary([0x00, 0x01, 0x02])
    ensures Binary([0xFF, 0xFE])
  {
    var ctl: Bytes := [0x00, 0x01, 0x02];
    assert IsControl(ctl[0]);
    var bad: Bytes := [0xFF, 0xFE];
    assert CharLength(bad) == 0;
  }
}
