/**
 * The window-size probe: `getCursorPosition` and the part of
 * `getWindowSize` that runs (kilo.c:97-129). The editor sends DSR 6
 * (ECMA-48 section 8.3.35) and the terminal answers with a cursor position
 * report, CPR (section 8.3.14): `ESC [ row ; col R`. The bytes the terminal
 * sends are the parameter `input`; reading stops when it runs out.
 */
module Probe {
  import opened Wrappers
  import opened Decimal
  import opened Terminal

  /** `sizeof(buf) - 1`: at most this many reply bytes are kept. */
  const MaxReply: nat := 31

  /**
   * How many bytes the read loop keeps: it stops at the first `R` (which
   * it does not keep), when the input runs out, or after 31 bytes.
   */
  function ReplyLength(input: string): (n: nat)
    ensures n <= MaxReply && n <= |input|
    ensures 'R' !in input[..n]
    ensures n < MaxReply && n < |input| ==> input[n] == 'R'
  {
    ReplyLengthFrom(input, 0)
  }

  function ReplyLengthFrom(input: string, i: nat): (n: nat)
    requires i <= MaxReply && i <= |input|
    requires 'R' !in input[..i]
    ensures i <= n <= MaxReply && n <= |input|
    ensures 'R' !in input[..n]
    ensures n < MaxReply && n < |input| ==> input[n] == 'R'
    decreases MaxReply - i
  {
    if i == MaxReply || i == |input| || input[i] == 'R' then i
    else
      assert input[..i + 1] == input[..i] + [input[i]];
      ReplyLengthFrom(input, i + 1)
  }

  /** The three conditions above fix the length. */
  lemma ReplyLengthUnique(input: string, n: nat)
    requires n <= MaxReply && n <= |input|
    requires 'R' !in input[..n]
    requires n < MaxReply && n < |input| ==> input[n] == 'R'
    ensures n == ReplyLength(input)
  {
  }

  /** The bytes a C string function sees: everything before the first NUL. */
  function CString(s: string): (r: string)
    ensures r <= s && '\0' !in r
    ensures |r| < |s| ==> s[|r|] == '\0'
  {
    if |s| == 0 || s[0] == '\0' then [] else [s[0]] + CString(s[1..])
  }

  /**
   * The parse after the read loop: the kept bytes must start with ESC `[`
   * and continue, up to the first NUL, with `%d;%d`.
   */
  function CursorReply(input: string): (r: Option<(int, int)>)
    ensures r.Some? ==> 2 <= |input| && input[0] == Esc && input[1] == '['
  {
    var raw := input[..ReplyLength(input)];
    if |raw| < 2 || raw[0] != Esc || raw[1] != '[' then None
    else ScanPair(CString(raw[2..]))
  }

  lemma {:induction false} CStringStopsAtNul(a: string, b: string)
    ensures CString(a + ['\0'] + b) == CString(a)
  {
    if |a| > 0 && a[0] != '\0' {
      assert (a + ['\0'] + b)[1..] == a[1..] + ['\0'] + b;
      CStringStopsAtNul(a[1..], b);
    }
  }

  lemma {:induction false} CStringAppend(p: string, r: string)
    requires '\0' !in p
    ensures CString(p + r) == p + CString(r)
  {
    if |p| > 0 {
      assert (p + r)[0] == p[0];
      assert (p + r)[1..] == p[1..] + r;
      CStringAppend(p[1..], r);
      assert p == [p[0]] + p[1..];
    } else {
      assert p + r == r;
    }
  }

  /** No byte of the white space, the numerals and the `;` of a pair text is NUL. */
  lemma PairTextNoNul(s: string, a: int, b: int, w1: string, t1: string, w2: string, t2: string, rest: string)
    requires PairText(s, a, b, w1, t1, w2, t2, rest)
    ensures '\0' !in w1 + t1 + ";" + w2 + t2
  {
    NumeralChars(t1);
    NumeralChars(t2);
    var p := w1 + t1 + ";" + w2 + t2;
    forall i | 0 <= i < |p|
      ensures p[i] != '\0'
    {
      if i < |w1| {
        assert p[i] == w1[i];
      } else if i < |w1| + |t1| {
        assert p[i] == t1[i - |w1|];
      } else if i > |w1| + |t1| && i < |w1| + |t1| + 1 + |w2| {
        assert p[i] == w2[i - |w1| - |t1| - 1];
      } else if i >= |w1| + |t1| + 1 + |w2| {
        assert p[i] == t2[i - |w1| - |t1| - 1 - |w2|];
      }
    }
  }

  /** A pair text stays one when cut at its first NUL. */
  lemma PairTextToNul(x: string, a: int, b: int, w1: string, t1: string, w2: string, t2: string, rest: string)
    requires PairText(x, a, b, w1, t1, w2, t2, rest)
    ensures PairText(CString(x), a, b, w1, t1, w2, t2, CString(rest))
  {
    PairTextNoNul(x, a, b, w1, t1, w2, t2, rest);
    var p := w1 + t1 + ";" + w2 + t2;
    assert x == p + rest;
    CStringAppend(p, rest);
    assert CString(rest) <= rest;
  }

  /** And a pair text before a NUL is one with whatever follows the NUL. */
  lemma PairTextPastNul(x: string, a: int, b: int, w1: string, t1: string, w2: string, t2: string, rest: string)
    requires PairText(CString(x), a, b, w1, t1, w2, t2, rest)
    ensures PairText(x, a, b, w1, t1, w2, t2, rest + x[|CString(x)|..])
  {
    var c := CString(x);
    var after := x[|c|..];
    assert x == c + after;
    assert c + after == w1 + t1 + ";" + w2 + t2 + (rest + after);
    if rest == [] {
      assert rest + after == after;
    } else {
      assert (rest + after)[0] == rest[0];
    }
  }

  /**
   * `sscanf` reads the buffer only up to its NUL, but the NUL never
   * changes what `"%d;%d"` reads: it would stop there anyway.
   */
  lemma ScanPairStopsAtNul(x: string)
    ensures ScanPair(CString(x)) == ScanPair(x)
  {
    var c := CString(x);
    if ScanPair(c).Some? {
      var a, b := ScanPair(c).value.0, ScanPair(c).value.1;
      ScanPairShape(c, a, b);
      var w1, t1, w2, t2, rest :| PairText(c, a, b, w1, t1, w2, t2, rest);
      PairTextPastNul(x, a, b, w1, t1, w2, t2, rest);
      ScanPairOfText(x, a, b, w1, t1, w2, t2, rest + x[|c|..]);
    } else if ScanPair(x).Some? {
      var a, b := ScanPair(x).value.0, ScanPair(x).value.1;
      ScanPairShape(x, a, b);
      var w1, t1, w2, t2, rest :| PairText(x, a, b, w1, t1, w2, t2, rest);
      PairTextToNul(x, a, b, w1, t1, w2, t2, rest);
      ScanPairOfText(c, a, b, w1, t1, w2, t2, CString(rest));
    }
  }

  /**
   * A position (row, col) is reported exactly when the kept bytes are ESC
   * `[`, white space, a numeral of value `row`, `;`, white space, a
   * numeral of value `col`, and then anything that does not go on with a
   * digit.
   */
  lemma CursorReplyShape(input: string, row: int, col: int)
    ensures var raw := input[..ReplyLength(input)];
      CursorReply(input) == Some((row, col)) <==>
        && |raw| >= 2 && raw[0] == Esc && raw[1] == '['
        && exists w1, t1, w2, t2, rest :: PairText(raw[2..], row, col, w1, t1, w2, t2, rest)
  {
    var raw := input[..ReplyLength(input)];
    if |raw| >= 2 && raw[0] == Esc && raw[1] == '[' {
      ScanPairStopsAtNul(raw[2..]);
      ScanPairShape(raw[2..], row, col);
    }
  }

  /**
   * `getCursorPosition`: writes the request, fills `buf` one byte per read,
   * terminates it, and parses it. None stands for the return value -1;
   * Some((rows, cols)) for 0 with `*rows` and `*cols` set.
   */
  method GetCursorPosition(input: string) returns (written: string, res: Option<(int, int)>)
    ensures written == RequestPosition
    ensures res == CursorReply(input)
  {
    written := RequestPosition;
    var buf := new char[32];
    var i := 0;
    while i < buf.Length - 1
      invariant 0 <= i <= MaxReply && i <= |input|
      invariant buf[..i] == input[..i]
      invariant 'R' !in input[..i]
    {
      if i == |input| {
        break;   // read() returned no byte
      }
      buf[i] := input[i];
      if buf[i] == 'R' {
        break;
      }
      assert buf[..i + 1] == buf[..i] + [buf[i]];
      assert input[..i + 1] == input[..i] + [input[i]];
      i := i + 1;
    }
    ReplyLengthUnique(input, i);
    buf[i] := '\0';
    ghost var kept := buf[..];
    assert kept[..i] == input[..i];
    if buf[0] != Esc || buf[1] != '[' {
      RejectedReply(input, kept);
      return written, None;
    }
    AcceptedReply(input, kept);
    res := ScanPair(CString(buf[2..]));
  }

  /** What the buffer holds after `buf[i] = '\0'`, with i the number of bytes kept. */
  predicate Terminated(input: string, kept: string) {
    var i := ReplyLength(input);
    i < |kept| && kept[..i] == input[..i] && kept[i] == '\0'
  }

  lemma RejectedReply(input: string, kept: string)
    requires Terminated(input, kept)
    requires kept[0] != Esc || kept[1] != '['
    ensures CursorReply(input) == None
  {
  }

  /** The NUL written at `buf[i]` hides whatever the array holds beyond it. */
  lemma AcceptedReply(input: string, kept: string)
    requires Terminated(input, kept)
    requires kept[0] == Esc && kept[1] == '['
    ensures CursorReply(input) == ScanPair(CString(kept[2..]))
  {
    var i := ReplyLength(input);
    var raw := input[..i];
    assert kept[2..] == raw[2..] + ['\0'] + kept[i + 1..];
    CStringStopsAtNul(raw[2..], kept[i + 1..]);
  }

  /**
   * `getWindowSize`: the `1 ||` makes the `ioctl` branch dead, so it always
   * pushes the cursor to the bottom-right corner and asks where it is.
   */
  method GetWindowSize(input: string) returns (written: string, res: Option<(int, int)>)
    ensures written == ForceBottomRight + RequestPosition
    ensures res == CursorReply(input)
  {
    var request;
    request, res := GetCursorPosition(input);
    written := ForceBottomRight + request;
  }

  /** A well-formed cursor position report is read back as the position it carries. */
  lemma CursorReplyRoundTrip(row: int, col: int, tail: string)
    requires |[Esc, '['] + IntToString(row) + ";" + IntToString(col)| <= MaxReply
    ensures CursorReply([Esc, '['] + IntToString(row) + ";" + IntToString(col) + "R" + tail)
            == Some((row, col))
  {
    var reply := [Esc, '['] + IntToString(row) + ";" + IntToString(col);
    var body := IntToString(row) + ";" + IntToString(col);
    ReplyChars(row, col);
    KeptBytes(reply, tail);
    var kept := reply + ['\0'];
    assert kept[2..] == body + ['\0'] + [];
    AcceptedReply(reply + "R" + tail, kept);
    CStringStopsAtNul(body, []);
    CStringWhole(body);
    ScanPairRoundTrip(row, col, []);
    assert body + [] == body;
  }

  lemma ReplyChars(row: int, col: int)
    ensures var reply := [Esc, '['] + IntToString(row) + ";" + IntToString(col);
      && reply[2..] == IntToString(row) + ";" + IntToString(col)
      && 'R' !in reply && '\0' !in reply[2..]
      && reply[0] == Esc && reply[1] == '['
  {
    var reply := [Esc, '['] + IntToString(row) + ";" + IntToString(col);
    var body := IntToString(row) + ";" + IntToString(col);
    assert reply[2..] == body;
    PairChars(row, col);
    forall i | 0 <= i < |reply|
      ensures reply[i] != 'R'
    {
      if i >= 2 {
        assert reply[i] == body[i - 2];
      }
    }
  }

  lemma PairChars(row: int, col: int)
    ensures var body := IntToString(row) + ";" + IntToString(col);
      forall i :: 0 <= i < |body| ==> body[i] == ';' || body[i] == '-' || IsDigit(body[i])
  {
    var a, b := IntToString(row), IntToString(col);
    IntToStringChars(row);
    IntToStringChars(col);
    var body := a + ";" + b;
    forall i | 0 <= i < |body|
      ensures body[i] == ';' || body[i] == '-' || IsDigit(body[i])
    {
      if i < |a| {
        assert body[i] == a[i];
      } else if i > |a| {
        assert body[i] == b[i - |a| - 1];
      }
    }
  }

  lemma CStringWhole(s: string)
    requires '\0' !in s
    ensures CString(s) == s
  {
  }

  lemma KeptBytes(reply: string, tail: string)
    requires |reply| <= MaxReply && 'R' !in reply
    ensures ReplyLength(reply + "R" + tail) == |reply|
    ensures (reply + "R" + tail)[..|reply|] == reply
  {
    var input := reply + "R" + tail;
    assert input[..|reply|] == reply;
    assert input[|reply|] == 'R';
    ReplyLengthUnique(input, |reply|);
  }

  /**
   * Once the read loop has stopped early (on an `R` or after 31 bytes),
   * nothing the terminal sends afterwards changes the answer.
   */
  lemma BytesAfterReplyIgnored(input: string, later: string)
    requires ReplyLength(input) < |input|
    ensures CursorReply(input + later) == CursorReply(input)
  {
    var n := ReplyLength(input);
    var ext := input + later;
    assert ext[..n] == input[..n];
    assert ext[n] == input[n];
    ReplyLengthUnique(ext, n);
  }
}
