/**
 * The frame `editorRefreshScreen` writes (kilo.c:133-179), as functions of
 * the screen size and the cursor: the specification the methods of
 * `Kilo.EditorConfig` are proved against, and its properties.
 */
module Render {
  import opened Wrappers
  import opened Decimal
  import opened Terminal

  /** `welcomlen`: the welcome text, cut to the width of the screen. */
  function WelcomeLen(cols: int): (n: int)
    ensures n <= cols && n <= |Welcome|
    ensures n == cols || n == |Welcome|
  {
    if |Welcome| > cols then cols else |Welcome|
  }

  /** `padding`: half the width the welcome text leaves free. */
  function Padding(cols: int): (p: nat)
    requires cols >= 0
    ensures 2 * p + WelcomeLen(cols) <= cols <= 2 * p + WelcomeLen(cols) + 1
  {
    (cols - WelcomeLen(cols)) / 2
  }

  /** `n` copies of `c`: the padding run of spaces, and `n` presses of one key. */
  function Repeat(c: char, n: nat): (s: string)
    ensures |s| == n
    ensures forall i :: 0 <= i < n ==> s[i] == c
  {
    if n == 0 then [] else Repeat(c, n - 1) + [c]
  }

  /** The banner row: a `~` and spaces to centre the welcome text, then the text. */
  function Banner(cols: int): (r: string)
    requires cols >= 0
    ensures |r| <= cols
  {
    var lead := if Padding(cols) > 0 then "~" + Repeat(' ', Padding(cols) - 1) else "";
    lead + Welcome[..WelcomeLen(cols)]
  }

  /** What row `y` shows: the banner on row `rows / 3`, a `~` on every other. */
  function RowContent(y: int, rows: int, cols: int): (r: string)
    requires cols >= 0
    ensures r == "~" || |r| <= cols
  {
    if y == rows / 3 then Banner(cols) else "~"
  }

  /**
   * Row `y` as drawn: its content, erase-to-end-of-line, and CR LF unless
   * it is the last.
   */
  function Row(y: int, rows: int, cols: int): (r: string)
    requires cols >= 0
    ensures y < rows - 1 ==> |r| >= 5 && r[|r| - 5..] == EraseLine + CrLf
    ensures y >= rows - 1 ==> |r| >= 3 && r[|r| - 3..] == EraseLine
  {
    var content, sep := RowContent(y, rows, cols), if y < rows - 1 then CrLf else "";
    EndsWith(content, EraseLine, sep);
    content + EraseLine + sep
  }

  lemma EndsWith(a: string, b: string, c: string)
    ensures |a + b + c| >= |b + c| && (a + b + c)[|a + b + c| - |b + c|..] == b + c
    ensures c == [] ==> b + c == b
  {
  }

  /**
   * Rows 0 to k-1, in order: what the loop of `editorDrawRows` has drawn
   * after k rounds. No round needs the width when there are none.
   */
  function DrawnRows(k: nat, rows: int, cols: int): (r: string)
    requires k > 0 ==> cols >= 0
    ensures |r| >= 3 * k
  {
    if k == 0 then [] else DrawnRows(k - 1, rows, cols) + Row(k - 1, rows, cols)
  }

  /**
   * Everything `editorDrawRows` appends: nothing on a screen with no rows,
   * and otherwise one row per screen line, the last closed by ESC `[K`.
   */
  function Rows(rows: int, cols: int): (r: string)
    requires rows > 0 ==> cols >= 0
    ensures rows <= 0 ==> r == []
    ensures rows > 0 ==> |r| >= 3 * rows && r[|r| - 3..] == EraseLine
  {
    if rows <= 0 then [] else DrawnRows(rows, rows, cols)
  }

  /** What `snprintf` keeps of its output in a buffer of `size` bytes. */
  function Truncate(s: string, size: nat): (r: string)
    requires size > 0
    ensures r <= s && |r| < size
    ensures |s| < size ==> r == s
    ensures |s| >= size ==> r == s[..size - 1]
  {
    if |s| < size then s else s[..size - 1]
  }

  /** `ESC[{row};{col}H`, formatted into `char buf[32]`. */
  function CursorTo(row: int, col: int): (r: string)
    ensures 2 <= |r| < 32 && r[..2] == [Esc, '[']
  {
    Truncate([Esc, '['] + IntToString(row) + ";" + IntToString(col) + "H", 32)
  }

  /**
   * The whole frame, for a cursor at (cx, cy); CUP counts from 1. It opens
   * with hide-cursor and home and closes with show-cursor; with no rows it
   * is only those and the cursor placement.
   */
  function Frame(rows: int, cols: int, cx: int, cy: int): (r: string)
    requires rows > 0 ==> cols >= 0
    ensures |r| >= |HideCursor + CursorHome| + |ShowCursor|
    ensures r[..|HideCursor + CursorHome|] == HideCursor + CursorHome
    ensures r[|r| - |ShowCursor|..] == ShowCursor
    ensures rows <= 0 ==> r == HideCursor + CursorHome + CursorTo(cy + 1, cx + 1) + ShowCursor
  {
    var head, body, pos := HideCursor + CursorHome, Rows(rows, cols), CursorTo(cy + 1, cx + 1);
    FrameEnds(head, body, pos);
    head + body + pos + ShowCursor
  }

  // ---------------------------------------------------------------------
  // The banner row

  /**
   * The banner is centred: `padding` columns on its left, the welcome text
   * (cut to `cols`), and on its right `padding` or `padding + 1` free
   * columns, so it is never wider than the screen. The left margin is a
   * `~` then spaces when there is one.
   */
  lemma BannerLayout(cols: int)
    requires cols >= 0
    ensures var pad, wl := Padding(cols), WelcomeLen(cols);
      && wl == (if cols < 21 then cols else 21)
      && |Banner(cols)| == pad + wl <= cols
      && Banner(cols)[pad..] == Welcome[..wl]
      && (pad > 0 ==> Banner(cols)[0] == '~')
      && (forall i :: 0 < i < pad ==> Banner(cols)[i] == ' ')
      && (cols - pad - wl == pad || cols - pad - wl == pad + 1)
      && (cols <= 22 ==> Banner(cols) == Welcome[..wl])
  {
    var pad, wl := Padding(cols), WelcomeLen(cols);
    var lead := if pad > 0 then "~" + Repeat(' ', pad - 1) else "";
    assert Banner(cols) == lead + Welcome[..wl];
    assert |lead| == pad;
    assert (lead + Welcome[..wl])[pad..] == Welcome[..wl];
    forall i | 0 < i < pad
      ensures Banner(cols)[i] == ' '
    {
      assert Banner(cols)[i] == lead[i] == Repeat(' ', pad - 1)[i - 1];
    }
  }

  // ---------------------------------------------------------------------
  // Counting characters

  function Count(c: char, s: string): nat {
    if |s| == 0 then 0 else (if s[0] == c then 1 else 0) + Count(c, s[1..])
  }

  lemma {:induction false} CountAppend(c: char, a: string, b: string)
    ensures Count(c, a + b) == Count(c, a) + Count(c, b)
  {
    if |a| > 0 {
      assert (a + b)[1..] == a[1..] + b;
      CountAppend(c, a[1..], b);
    } else {
      assert a + b == b;
    }
  }

  /** The characters that mark the structure of a frame. */
  predicate Marker(c: char) {
    c == Esc || c == 'K' || c == '\r' || c == '\n'
  }

  lemma NoMarkerInContent(y: int, rows: int, cols: int, c: char)
    requires cols >= 0 && Marker(c)
    ensures Count(c, RowContent(y, rows, cols)) == 0
  {
    if y == rows / 3 {
      BannerMarkerFree(cols);
      CountMarkerFree(c, Banner(cols));
    } else {
      assert MarkerFree("~");
      CountMarkerFree(c, "~");
    }
  }

  /** The banner row holds no ESC, `K`, CR or LF: only `~`, spaces and the welcome text. */
  lemma BannerMarkerFree(cols: int)
    requires cols >= 0
    ensures MarkerFree(Banner(cols))
  {
    var pad, wl := Padding(cols), WelcomeLen(cols);
    assert MarkerFree(Welcome) by {
      forall i | 0 <= i < |Welcome|
        ensures !Marker(Welcome[i])
      {
      }
    }
    MarkerFreePrefix(Welcome[..wl], Welcome);
    if pad > 0 {
      assert MarkerFree("~");
      assert MarkerFree(Repeat(' ', pad - 1));
      MarkerFreeConcat("~", Repeat(' ', pad - 1));
      MarkerFreeConcat("~" + Repeat(' ', pad - 1), Welcome[..wl]);
    } else {
      assert Banner(cols) == Welcome[..wl];
    }
  }

  /** How often marker `c` occurs in the row that ends with a line break iff `sep`. */
  function MarkerCount(c: char, sep: bool): nat {
    if c == Esc || c == 'K' then 1 else if sep then 1 else 0
  }

  lemma RowCount(c: char, y: int, rows: int, cols: int)
    requires cols >= 0 && Marker(c)
    ensures Count(c, Row(y, rows, cols)) == MarkerCount(c, y < rows - 1)
  {
    var content := RowContent(y, rows, cols);
    var sep := if y < rows - 1 then CrLf else "";
    NoMarkerInContent(y, rows, cols, c);
    CountAppend(c, content + EraseLine, sep);
    CountAppend(c, content, EraseLine);
  }

  /** Over rows 0 to k-1, each row adds its markers: k erase sequences and a break after all but the last row. */
  lemma {:induction false} DrawnRowsCount(c: char, k: nat, rows: int, cols: int)
    requires cols >= 0 && k <= rows && Marker(c)
    ensures var seps := if k == rows && k > 0 then k - 1 else k;
      Count(c, DrawnRows(k, rows, cols)) == if c == Esc || c == 'K' then k else seps
  {
    if k > 0 {
      DrawnRowsCount(c, k - 1, rows, cols);
      RowsStep(c, k, rows, cols);
    }
  }

  /** Drawing row `k - 1` adds that row's markers to the count so far. */
  lemma RowsStep(c: char, k: nat, rows: int, cols: int)
    requires cols >= 0 && k > 0 && Marker(c)
    ensures Count(c, DrawnRows(k, rows, cols)) == Count(c, DrawnRows(k - 1, rows, cols)) + MarkerCount(c, k - 1 < rows - 1)
  {
    RowCount(c, k - 1, rows, cols);
    CountAppend(c, DrawnRows(k - 1, rows, cols), Row(k - 1, rows, cols));
  }

  /**
   * Row structure: the rows carry exactly `rows` erase-to-end-of-line
   * sequences (one ESC and one `K` each) and `rows - 1` line breaks; the
   * last row ends with the erase sequence and no CR LF.
   */
  lemma RowsStructure(rows: int, cols: int)
    requires cols >= 0 && rows > 0
    ensures Count(Esc, Rows(rows, cols)) == rows
    ensures Count('K', Rows(rows, cols)) == rows
    ensures Count('\r', Rows(rows, cols)) == rows - 1
    ensures Count('\n', Rows(rows, cols)) == rows - 1
    ensures |Rows(rows, cols)| >= 3 && Rows(rows, cols)[|Rows(rows, cols)| - 3..] == EraseLine
  {
    DrawnRowsCount(Esc, rows, rows, cols);
    DrawnRowsCount('K', rows, rows, cols);
    DrawnRowsCount('\r', rows, rows, cols);
    DrawnRowsCount('\n', rows, rows, cols);
    var last := Row(rows - 1, rows, cols);
    assert last == RowContent(rows - 1, rows, cols) + EraseLine;
    assert Rows(rows, cols) == DrawnRows(rows - 1, rows, cols) + last;
  }

  // ---------------------------------------------------------------------
  // The rows as lines

  /** The lines joined with `sep` between neighbours and after none of them. */
  function Join(lines: seq<string>, sep: string): string {
    if |lines| == 0 then []
    else if |lines| == 1 then lines[0]
    else lines[0] + sep + Join(lines[1..], sep)
  }

  /** The visible line of each row followed by the erase sequence. */
  function Lines(rows: nat, cols: int): (ls: seq<string>)
    requires cols >= 0
    ensures |ls| == rows
    ensures forall y :: 0 <= y < rows ==> ls[y] == RowContent(y, rows, cols) + EraseLine
  {
    seq(rows, y => RowContent(y, rows, cols) + EraseLine)
  }

  lemma {:induction false} JoinSnoc(lines: seq<string>, sep: string, last: string)
    requires |lines| > 0
    ensures Join(lines + [last], sep) == Join(lines, sep) + sep + last
    decreases |lines|
  {
    if |lines| == 1 {
      assert (lines + [last])[1..] == [last];
    } else {
      assert (lines + [last])[1..] == lines[1..] + [last];
      JoinSnoc(lines[1..], sep, last);
    }
  }

  lemma PrefixSnoc<T>(s: seq<T>, k: nat)
    requires 0 < k <= |s|
    ensures s[..k] == s[..k - 1] + [s[k - 1]]
  {
  }

  /** Regrouping four strings. */
  lemma Associative(a: string, b: string, c: string, d: string)
    ensures a + b + c + d == a + (b + c + d)
    ensures a + b + (c + d) == a + b + c + d
  {
  }

  lemma {:induction false} DrawnRowsAsLines(k: nat, rows: nat, cols: int)
    requires cols >= 0 && 0 < k <= rows
    ensures DrawnRows(k, rows, cols)
            == Join(Lines(rows, cols)[..k], CrLf) + (if k < rows then CrLf else "")
  {
    var ls := Lines(rows, cols);
    if k == 1 {
      assert DrawnRows(0, rows, cols) == [];
      assert ls[..1] == [ls[0]];
      RowIsLine(0, rows, cols);
    } else {
      DrawnRowsAsLines(k - 1, rows, cols);
      LinesStep(k, rows, cols);
    }
  }

  /** Drawing row `k - 1` after rows 0 to k-2 joins line `k - 1` to theirs. */
  lemma LinesStep(k: nat, rows: nat, cols: int)
    requires cols >= 0 && 1 < k <= rows
    requires DrawnRows(k - 1, rows, cols) == Join(Lines(rows, cols)[..k - 1], CrLf) + CrLf
    ensures DrawnRows(k, rows, cols)
            == Join(Lines(rows, cols)[..k], CrLf) + (if k < rows then CrLf else "")
  {
    var ls := Lines(rows, cols);
    var sep := if k < rows then CrLf else "";
    RowIsLine(k - 1, rows, cols);
    JoinPrefix(ls, k);
    DrawnRowsSnoc(k, rows, cols);
    Glue4(DrawnRows(k, rows, cols), DrawnRows(k - 1, rows, cols), Row(k - 1, rows, cols),
          Join(ls[..k], CrLf), Join(ls[..k - 1], CrLf), ls[k - 1], sep);
  }

  lemma DrawnRowsSnoc(k: nat, rows: int, cols: int)
    requires cols >= 0 && k > 0
    ensures DrawnRows(k, rows, cols) == DrawnRows(k - 1, rows, cols) + Row(k - 1, rows, cols)
  {
  }

  /** Row `y` is line `y`, followed by CR LF unless it is the last. */
  lemma RowIsLine(y: nat, rows: nat, cols: int)
    requires cols >= 0 && y < rows
    ensures Row(y, rows, cols) == Lines(rows, cols)[y] + (if y + 1 < rows then CrLf else "")
  {
  }

  /** The join of the first `k` lines is that of the first `k - 1`, CR LF and line `k - 1`. */
  lemma JoinPrefix(ls: seq<string>, k: nat)
    requires 1 < k <= |ls|
    ensures Join(ls[..k], CrLf) == Join(ls[..k - 1], CrLf) + CrLf + ls[k - 1]
  {
    PrefixSnoc(ls, k);
    JoinSnoc(ls[..k - 1], CrLf, ls[k - 1]);
  }

  /** One more row drawn is one more line joined, regrouped. */
  lemma Glue4(drawn: string, earlier: string, row: string, joined: string, before: string, line: string, sep: string)
    requires drawn == earlier + row && earlier == before + CrLf && row == line + sep
    requires joined == before + CrLf + line
    ensures drawn == joined + sep
  {
  }

  /**
   * The rows are the screen's lines separated by CR LF: every plain row is
   * `~` ESC[K, the banner row `rows / 3` is the banner then ESC[K, and no
   * CR LF follows the last line.
   */
  lemma RowsAreJoinedLines(rows: nat, cols: int)
    requires cols >= 0 && rows > 0
    ensures Rows(rows, cols) == Join(Lines(rows, cols), CrLf)
    ensures forall y :: 0 <= y < rows && y != rows / 3 ==> Lines(rows, cols)[y] == "~" + EraseLine
    ensures Lines(rows, cols)[rows / 3] == Banner(cols) + EraseLine
  {
    DrawnRowsAsLines(rows, rows, cols);
    assert Lines(rows, cols)[..rows] == Lines(rows, cols);
  }

  // ---------------------------------------------------------------------
  // The whole frame

  /** No character of `s` marks frame structure. */
  predicate MarkerFree(s: string) {
    forall i :: 0 <= i < |s| ==> !Marker(s[i])
  }

  lemma {:induction false} CountMarkerFree(c: char, s: string)
    requires Marker(c) && MarkerFree(s)
    ensures Count(c, s) == 0
  {
    if |s| > 0 {
      assert MarkerFree(s[1..]);
      CountMarkerFree(c, s[1..]);
    }
  }

  lemma NumberMarkerFree(n: int)
    ensures MarkerFree(IntToString(n))
  {
    IntToStringChars(n);
  }

  lemma CursorToShape(row: int, col: int)
    ensures |CursorTo(row, col)| > 0 && CursorTo(row, col)[0] == Esc
    ensures Count(Esc, CursorTo(row, col)) == 1
    ensures forall c :: Marker(c) && c != Esc ==> Count(c, CursorTo(row, col)) == 0
  {
    var a, b := IntToString(row), IntToString(col);
    NumberMarkerFree(row);
    NumberMarkerFree(col);
    ParamsMarkerFree(a, b);
    var rest := "[" + a + ";" + b + "H";
    RegroupEsc(a, b);
    var r := CursorTo(row, col);
    TailPrefix(r, rest);
    MarkerFreePrefix(r[1..], rest);
    OneEsc(r);
  }

  /** Between the ESC and the end, the position sequence holds no marker. */
  lemma ParamsMarkerFree(a: string, b: string)
    requires MarkerFree(a) && MarkerFree(b)
    ensures MarkerFree("[" + a + ";" + b + "H")
  {
    MarkerFreeConcat("[", a);
    MarkerFreeConcat("[" + a, ";");
    MarkerFreeConcat("[" + a + ";", b);
    MarkerFreeConcat("[" + a + ";" + b, "H");
  }

  lemma RegroupEsc(a: string, b: string)
    ensures [Esc, '['] + a + ";" + b + "H" == [Esc] + ("[" + a + ";" + b + "H")
  {
  }

  lemma TailPrefix(r: string, rest: string)
    requires r <= [Esc] + rest && |r| > 1
    ensures r[0] == Esc && r[1..] <= rest
  {
    assert r[0] == ([Esc] + rest)[0];
  }

  lemma MarkerFreeConcat(s: string, t: string)
    requires MarkerFree(s) && MarkerFree(t)
    ensures MarkerFree(s + t)
  {
    forall i | 0 <= i < |s + t|
      ensures !Marker((s + t)[i])
    {
      if i >= |s| {
        assert (s + t)[i] == t[i - |s|];
      }
    }
  }

  lemma MarkerFreePrefix(p: string, s: string)
    requires p <= s && MarkerFree(s)
    ensures MarkerFree(p)
  {
    forall i | 0 <= i < |p|
      ensures !Marker(p[i])
    {
      assert p[i] == s[i];
    }
  }

  /** A control sequence with one ESC, at its start, and no other marker. */
  lemma OneEsc(s: string)
    requires |s| > 0 && s[0] == Esc && MarkerFree(s[1..])
    ensures Count(Esc, s) == 1
    ensures forall c :: Marker(c) && c != Esc ==> Count(c, s) == 0
  {
    assert s == [Esc] + s[1..];
    CountAppend(Esc, [Esc], s[1..]);
    CountMarkerFree(Esc, s[1..]);
    forall c | Marker(c) && c != Esc
      ensures Count(c, s) == 0
    {
      CountAppend(c, [Esc], s[1..]);
      CountMarkerFree(c, s[1..]);
    }
  }

  lemma FrameEnds(head: string, body: string, pos: string)
    ensures (head + body + pos + ShowCursor)[..|head|] == head
    ensures var f := head + body + pos + ShowCursor; f[|f| - |ShowCursor|..] == ShowCursor
  {
  }

  /**
   * The whole frame: it opens by hiding the cursor and homing it, closes by
   * placing and showing it, and between them holds the rows; it contains
   * `rows + 4` ESC bytes, `rows` `K`s and `rows - 1` line breaks.
   */
  lemma FrameStructure(rows: int, cols: int, cx: int, cy: int)
    requires cols >= 0 && rows > 0
    ensures Frame(rows, cols, cx, cy)[..9] == HideCursor + CursorHome
    ensures Frame(rows, cols, cx, cy)[|Frame(rows, cols, cx, cy)| - 6..] == ShowCursor
    ensures Count(Esc, Frame(rows, cols, cx, cy)) == rows + 4
    ensures Count('K', Frame(rows, cols, cx, cy)) == rows
    ensures Count('\r', Frame(rows, cols, cx, cy)) == rows - 1
    ensures Count('\n', Frame(rows, cols, cx, cy)) == rows - 1
  {
    var head, body, pos := HideCursor + CursorHome, Rows(rows, cols), CursorTo(cy + 1, cx + 1);
    assert Frame(rows, cols, cx, cy) == head + body + pos + ShowCursor;
    FrameEnds(head, body, pos);
    HeadShape();
    ShowCursorShape();
    RowsStructure(rows, cols);
    CursorToShape(cy + 1, cx + 1);
    FrameCount(Esc, head, body, pos);
    FrameCount('K', head, body, pos);
    FrameCount('\r', head, body, pos);
    FrameCount('\n', head, body, pos);
  }

  /** Showing the cursor takes one ESC and no other marker. */
  lemma ShowCursorShape()
    ensures Count(Esc, ShowCursor) == 1
    ensures forall c :: Marker(c) && c != Esc ==> Count(c, ShowCursor) == 0
  {
    OneEsc(ShowCursor);
  }

  /** Hiding and homing the cursor takes two ESCs and no other marker. */
  lemma HeadShape()
    ensures Count(Esc, HideCursor + CursorHome) == 2
    ensures forall c :: Marker(c) && c != Esc ==> Count(c, HideCursor + CursorHome) == 0
  {
    OneEsc(HideCursor);
    OneEsc(CursorHome);
    forall c | Marker(c)
      ensures Count(c, HideCursor + CursorHome) == Count(c, HideCursor) + Count(c, CursorHome)
    {
      CountAppend(c, HideCursor, CursorHome);
    }
  }

  lemma FrameCount(c: char, head: string, body: string, pos: string)
    ensures Count(c, head + body + pos + ShowCursor)
            == Count(c, head) + Count(c, body) + Count(c, pos) + Count(c, ShowCursor)
  {
    CountAppend(c, head + body + pos, ShowCursor);
    CountAppend(c, head + body, pos);
    CountAppend(c, head, body);
  }

  /**
   * The position sequence carries the cursor's coordinates: its parameters,
   * read with the same `%d;%d` scan as a position report, give back
   * (row, col), for every pair that fits the 32-byte buffer.
   */
  lemma CursorToRoundTrip(row: int, col: int)
    requires |IntToString(row)| + |IntToString(col)| <= 27
    ensures |CursorTo(row, col)| > 2
    ensures ScanPair(CursorTo(row, col)[2..]) == Some((row, col))
  {
    CursorToText(row, col);
    ScanPairRoundTrip(row, col, "H");
  }

  /** When nothing is cut, the parameters of the position sequence are the two printed numbers. */
  lemma CursorToText(row: int, col: int)
    requires |IntToString(row)| + |IntToString(col)| <= 27
    ensures |CursorTo(row, col)| > 2
    ensures CursorTo(row, col)[2..] == IntToString(row) + ";" + IntToString(col) + "H"
  {
    var a, b := IntToString(row), IntToString(col);
    Regroup([Esc, '['], a, b);
    DropPrefix([Esc, '['], a + ";" + b + "H");
  }

  lemma Regroup(p: string, a: string, b: string)
    ensures p + a + ";" + b + "H" == p + (a + ";" + b + "H")
    ensures |p + a + ";" + b + "H"| == |p| + |a| + |b| + 2
  {
  }

  lemma DropPrefix(p: string, body: string)
    ensures (p + body)[|p|..] == body
  {
  }
}
