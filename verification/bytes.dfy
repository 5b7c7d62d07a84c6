/**
  Byte strings, optional values and results shared by the envelope codec
  and the viewer. A byte is an integer in 0..255; a line is a run of bytes
  that holds no line feed.
 */
module Bytes {

  newtype byte = b: int | 0 <= b < 256

  type Bytes = seq<byte>

  /** The line feed, `\n`, that separates the lines of an envelope. */
  const LF: byte := 0x0A

  datatype Option<+T> = None | Some(value: T)

  /** Either a value or an error; usable with `:-`. */
  datatype Result<+T, +E> = Success(value: T) | Failure(error: E) {

    predicate IsFailure() {
      Failure?
    }

    function PropagateFailure<U>(): Result<U, E>
      requires Failure?
    {
      Failure(error)
    }

    function Extract(): T
      requires Success?
    {
      value
    }
  }

  /** True when `s` holds no line feed. */
  predicate NoNewline(s: Bytes) {
    forall i | 0 <= i < |s| :: s[i] != LF
  }

  /**
    Reads one line the way a buffered reader reads up to and including the
    next `\n` and the trailing `\n` is then trimmed: the result is the line
    without its terminator and the bytes after the terminator. Without any
    line feed the whole input is the line.
   */
  function SplitLine(s: Bytes): (r: (Bytes, Bytes))
    ensures NoNewline(r.0)
    ensures s == r.0 + [LF] + r.1 || (s == r.0 && r.1 == [])
    ensures |r.1| <= |s|
    ensures |s| > 0 ==> |r.1| < |s|
  {
    if |s| == 0 then ([], [])
    else if s[0] == LF then ([], s[1..])
    else
      var (line, rest) := SplitLine(s[1..]);
      assert s == [s[0]] + s[1..];
      ([s[0]] + line, rest)
  }

  /** A line followed by its terminator is split back into that line and the bytes after it. */
  lemma SplitLineOfTerminated(line: Bytes, rest: Bytes)
    requires NoNewline(line)
    ensures SplitLine(line + [LF] + rest) == (line, rest)
  {
    var s := line + [LF] + rest;
    var (l, r) := SplitLine(s);
    assert s[|line|] == LF;
    if s == l && r == [] {
      assert false;
    }
    assert s == l + [LF] + r;
    assert s[|l|] == LF;
    assert forall i | 0 <= i < |line| :: s[i] == line[i];
    assert forall i | 0 <= i < |l| :: s[i] == l[i];
    assert |l| == |line|;
    assert l == s[..|line|] == line;
    assert r == s[|line| + 1..] == rest;
  }

  /** Input without a line feed is one unterminated line. */
  lemma SplitLineOfUnterminated(line: Bytes)
    requires NoNewline(line)
    ensures SplitLine(line) == (line, [])
  {
  }
}
