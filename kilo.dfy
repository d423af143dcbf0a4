/**
 * The editor state `struct editorConfigs E` and what the program does with
 * it (kilo.c:39-47, 133-237): drawing the rows into an append buffer,
 * refreshing the screen, moving the cursor with h/j/k/l, dispatching one
 * key, and start-up. Keys are bytes, here the `char`s 0 to 255; reading them
 * is I/O, so the key a step acts on is a parameter, and so is the reply the
 * terminal sends to the size probe.
 */
module Kilo {
  import opened Terminal
  import opened AppendBuffer
  import opened Probe
  import opened Render

  datatype Cursor = Cursor(cx: int, cy: int)

  predicate IsMoveKey(c: char) {
    c == 'h' || c == 'j' || c == 'k' || c == 'l'
  }

  /** `editorMoveKeys` on the cursor alone: one step, with no bound on either coordinate. */
  function Move(p: Cursor, c: char): (r: Cursor)
    ensures r == Cursor(p.cx + Direction(c).0, p.cy + Direction(c).1)
  {
    match c
    case 'h' => p.(cx := p.cx - 1)
    case 'j' => p.(cy := p.cy + 1)
    case 'k' => p.(cy := p.cy - 1)
    case 'l' => p.(cx := p.cx + 1)
    case _ => p
  }

  /**
   * The cursor after the keys, pressed in order: it ends up as many columns
   * right as there were `l`s more than `h`s, and as many rows down as there
   * were `j`s more than `k`s, whatever the order.
   */
  function Moves(p: Cursor, keys: string): (r: Cursor)
    ensures r.cx == p.cx + Count('l', keys) - Count('h', keys)
    ensures r.cy == p.cy + Count('j', keys) - Count('k', keys)
  {
    if |keys| == 0 then p
    else
      var init, last := keys[..|keys| - 1], keys[|keys| - 1];
      assert keys == init + [last];
      CountAppend('h', init, [last]);
      CountAppend('j', init, [last]);
      CountAppend('k', init, [last]);
      CountAppend('l', init, [last]);
      Move(Moves(p, init), last)
  }

  /** The step h, j, k and l each take: left, down, up and right. */
  function Direction(c: char): (int, int) {
    if c == 'h' then (-1, 0)
    else if c == 'j' then (0, 1)
    else if c == 'k' then (0, -1)
    else if c == 'l' then (1, 0)
    else (0, 0)
  }

  function Abs(x: int): nat {
    if x < 0 then -x else x
  }

  /**
   * A movement key changes exactly one coordinate, by one, in its
   * direction; every other key changes nothing.
   */
  lemma MoveOneStep(p: Cursor, c: char)
    ensures Abs(Move(p, c).cx - p.cx) + Abs(Move(p, c).cy - p.cy) == if IsMoveKey(c) then 1 else 0
    ensures !IsMoveKey(c) <==> Move(p, c) == p
  {
  }

  /** `h` and `l` undo each other, and so do `k` and `j`. */
  lemma MoveUndo(p: Cursor)
    ensures Move(Move(p, 'h'), 'l') == p && Move(Move(p, 'l'), 'h') == p
    ensures Move(Move(p, 'k'), 'j') == p && Move(Move(p, 'j'), 'k') == p
  {
  }

  /** Pressing one key n times moves n steps in its direction, with no clamping. */
  lemma {:induction false} MovesRepeated(p: Cursor, c: char, n: nat)
    ensures Moves(p, Repeat(c, n)) == Cursor(p.cx + n * Direction(c).0, p.cy + n * Direction(c).1)
  {
    if n > 0 {
      var keys := Repeat(c, n);
      assert keys[..n - 1] == Repeat(c, n - 1);
      MovesRepeated(p, c, n - 1);
      var q := Moves(p, Repeat(c, n - 1));
      MoveOneStep(q, c);
      var d := Direction(c);
      assert (n - 1) * d.0 + d.0 == n * d.0;
      assert (n - 1) * d.1 + d.1 == n * d.1;
    }
  }

  /** From the top-left corner, n presses of `h` put the cursor at column -n. */
  lemma LeftFromOrigin(n: nat)
    ensures Moves(Cursor(0, 0), Repeat('h', n)) == Cursor(-(n as int), 0)
  {
    MovesRepeated(Cursor(0, 0), 'h', n);
  }

  /** What `editorProcessKeypress` does with a byte. */
  datatype Action = Quit | MoveCursor | Ignore

  function Dispatch(c: char): (a: Action)
    ensures a == Quit <==> c == '\U{11}'
    ensures a == MoveCursor <==> IsMoveKey(c)
    ensures a == Ignore <==> c != '\U{11}' && !IsMoveKey(c)
  {
    if c == QuitKey then Quit
    else if IsMoveKey(c) then MoveCursor
    else Ignore
  }

  /** The outcome of one key: the new cursor, whether the process exits, and the bytes written. */
  datatype Step = Step(cursor: Cursor, quit: bool, written: string)

  /**
   * The quit key writes ED 2 and home and leaves the cursor where it was;
   * every other key writes nothing and moves the cursor as `Move` says.
   */
  function KeyStep(p: Cursor, c: char): (r: Step)
    ensures r.quit <==> c == '\U{11}'
    ensures r.quit ==> r.cursor == p && r.written == ClearScreen + CursorHome
    ensures !r.quit ==> r.cursor == Move(p, c) && r.written == []
  {
    match Dispatch(c)
    case Quit => Step(p, true, ClearScreen + CursorHome)
    case MoveCursor => Step(Move(p, c), false, [])
    case Ignore => Step(p, false, [])
  }

  /** At every cursor position, the quit key clears the screen, homes the cursor and exits. */
  lemma QuitFromAnywhere(p: Cursor)
    ensures KeyStep(p, CtrlKey('q')) == Step(p, true, "\U{1B}[2J\U{1B}[H")
  {
  }

  /**
   * Only the four movement keys move the cursor, only the quit key writes
   * anything, and every other byte leaves the state as it was.
   */
  lemma KeyEffects(p: Cursor, c: char)
    ensures KeyStep(p, c).cursor != p <==> IsMoveKey(c)
    ensures KeyStep(p, c).quit <==> c == '\U{11}'
    ensures KeyStep(p, c).written != [] <==> c == '\U{11}'
    ensures Dispatch(c) == Ignore ==> KeyStep(p, c) == Step(p, false, [])
  {
    MoveOneStep(p, c);
  }

  lemma DrawnRowsStep(start: string, y: nat, rows: int, cols: int)
    requires cols >= 0
    ensures start + DrawnRows(y + 1, rows, cols) == start + DrawnRows(y, rows, cols) + Row(y, rows, cols)
  {
  }

  /** The `while (padding--) abAppend(ab, " ", 1)` loop of `editorDrawRows` (kilo.c:150-152). */
  method AppendSpaces(ab: ABuf, n: nat)
    requires ab.Valid()
    modifies ab
    ensures ab.Valid() && ab.b == old(ab.b) + Repeat(' ', n)
  {
    var padding: int := n;
    while padding != 0
      invariant ab.Valid() && 0 <= padding <= n
      invariant ab.b == old(ab.b) + Repeat(' ', n - padding)
      decreases padding
    {
      assert " "[..1] == " ";
      AbAppend(ab, " ", 1);
      padding := padding - 1;
    }
  }

  /** `snprintf` of the CUP sequence into `buf[32]`, then `abAppend(ab, buf, strlen(buf))` (kilo.c:173-175). */
  method AppendCursorTo(ab: ABuf, row: int, col: int)
    requires ab.Valid()
    modifies ab
    ensures ab.Valid() && ab.b == old(ab.b) + CursorTo(row, col)
  {
    var buf := CursorTo(row, col);
    assert buf[..|buf|] == buf;
    AbAppend(ab, buf, |buf|);
  }

  class EditorConfig {
    var rows: int
    var cols: int
    var cx: int
    var cy: int

    constructor (rows: int, cols: int)
      ensures this.rows == rows && this.cols == cols && cx == 0 && cy == 0
    {
      this.rows := rows;
      this.cols := cols;
      cx := 0;
      cy := 0;
    }

    function Position(): Cursor
      reads this
    {
      Cursor(cx, cy)
    }

    /** `editorMoveKeys` (kilo.c:182-197). */
    method MoveKeys(c: char)
      modifies this
      ensures Position() == Move(old(Position()), c)
      ensures rows == old(rows) && cols == old(cols)
    {
      match c {
        case 'h' => cx := cx - 1;
        case 'j' => cy := cy + 1;
        case 'k' => cy := cy - 1;
        case 'l' => cx := cx + 1;
        case _ =>
      }
    }

    /**
     * `editorProcessKeypress` (kilo.c:200-216) for the key `c` that
     * `editorReadKey` returned; `quit` stands for `exit(0)`.
     */
    method ProcessKeypress(c: char) returns (quit: bool, written: string)
      modifies this
      ensures Step(Position(), quit, written) == KeyStep(old(Position()), c)
      ensures rows == old(rows) && cols == old(cols)
    {
      quit, written := false, [];
      if c == QuitKey {
        written := ClearScreen + CursorHome;
        quit := true;
      } else if c == 'h' || c == 'j' || c == 'k' || c == 'l' {
        MoveKeys(c);
      }
    }

    /**
     * The banner row of `editorDrawRows` (kilo.c:138-153): the welcome text,
     * cut to `cols`, centred by a `~` and a `while (padding--)` run of spaces.
     */
    method DrawBanner(ab: ABuf)
      requires ab.Valid() && cols >= 0
      modifies ab
      ensures ab.Valid() && ab.b == old(ab.b) + Banner(cols)
    {
      ghost var before := ab.b;
      var welcome := Welcome;
      var welcomlen := |welcome|;
      if welcomlen > cols {
        welcomlen := cols;
      }
      var padding := (cols - welcomlen) / 2;
      ghost var lead: string := [];
      if padding != 0 {
        assert "~"[..1] == "~";
        AbAppend(ab, "~", 1);
        padding := padding - 1;
        lead := "~";
      }
      assert ab.b == before + lead;
      AppendSpaces(ab, padding);
      assert lead + Repeat(' ', padding) == if Padding(cols) > 0 then "~" + Repeat(' ', Padding(cols) - 1) else [];
      ghost var spaces, middle := Repeat(' ', padding), ab.b;
      AbAppend(ab, welcome, welcomlen);
      assert welcomlen == WelcomeLen(cols);
      assert ab.b == middle + Welcome[..welcomlen];
      assert lead + spaces + Welcome[..welcomlen] == Banner(cols);
      Associative(before, lead, spaces, Welcome[..welcomlen]);
    }

    /**
     * `editorDrawRows` (kilo.c:133-164). With no rows the loop never runs,
     * whatever `cols` is; with rows, the banner row is always drawn, and a
     * negative `cols` would make `welcomlen` negative and `abAppend` copy a
     * negative length.
     */
    method DrawRows(ab: ABuf)
      requires ab.Valid() && (rows > 0 ==> cols >= 0)
      modifies ab
      ensures ab.Valid() && ab.b == old(ab.b) + Rows(rows, cols)
    {
      var y := 0;
      while y < rows
        invariant ab.Valid()
        invariant 0 <= y && (rows > 0 ==> y <= rows) && (rows <= 0 ==> y == 0)
        invariant ab.b == old(ab.b) + DrawnRows(y, rows, cols)
      {
        DrawRow(ab, y);
        DrawnRowsStep(old(ab.b), y, rows, cols);
        y := y + 1;
      }
    }

    /** One round of the loop of `editorDrawRows` (kilo.c:136-163): row `y`. */
    method DrawRow(ab: ABuf, y: int)
      requires ab.Valid() && cols >= 0
      modifies ab
      ensures ab.Valid() && ab.b == old(ab.b) + Row(y, rows, cols)
    {
      ghost var before := ab.b;
      if y == rows / 3 {
        DrawBanner(ab);
      } else {
        AbAppend(ab, "~", 1);
      }
      ghost var content := RowContent(y, rows, cols);
      ghost var sep: string := if y < rows - 1 then CrLf else [];
      assert ab.b == before + content;
      assert EraseLine[..3] == EraseLine;
      AbAppend(ab, EraseLine, 3);
      if y < rows - 1 {
        assert CrLf[..2] == CrLf;
        AbAppend(ab, CrLf, 2);
      }
      assert ab.b == before + content + EraseLine + sep;
      Associative(before, content, EraseLine, sep);
    }

    /**
     * `editorRefreshScreen` (kilo.c:166-179): builds the frame in a fresh
     * buffer and writes it with one call, whose bytes are `written`.
     */
    method RefreshScreen() returns (written: string)
      requires rows > 0 ==> cols >= 0
      ensures written == Frame(rows, cols, cx, cy)
    {
      var ab := new ABuf();
      assert HideCursor[..6] == HideCursor && CursorHome[..3] == CursorHome;
      AbAppend(ab, HideCursor, 6);
      assert ab.b == HideCursor;
      AbAppend(ab, CursorHome, 3);
      DrawRows(ab);
      AppendCursorTo(ab, cy + 1, cx + 1);
      assert ShowCursor[..6] == ShowCursor;
      AbAppend(ab, ShowCursor, 6);
      assert ab.b == Frame(rows, cols, cx, cy);
      written := ab.b[..ab.len];
    }

    /** One round of the loop in `main` (kilo.c:232-235): draw, then act on one key. */
    method RunOnce(c: char) returns (written: string, quit: bool)
      requires rows > 0 ==> cols >= 0
      modifies this
      ensures var step := KeyStep(old(Position()), c);
        && written == old(Frame(rows, cols, cx, cy)) + step.written
        && quit == step.quit && Position() == step.cursor
      ensures rows == old(rows) && cols == old(cols)
    {
      var frame := RefreshScreen();
      var more;
      quit, more := ProcessKeypress(c);
      written := frame + more;
    }
  }

  /**
   * `initEditor` (kilo.c:218-224): the cursor starts at the top-left corner
   * and the size comes from the probe; when the probe fails, `die` clears
   * the screen, homes the cursor and exits with status 1 (here: null).
   */
  method InitEditor(input: string) returns (e: EditorConfig?, written: string)
    ensures CursorReply(input).None? ==>
      e == null && written == ForceBottomRight + RequestPosition + ClearScreen + CursorHome
    ensures CursorReply(input).Some? ==>
      && e != null && fresh(e)
      && e.rows == CursorReply(input).value.0 && e.cols == CursorReply(input).value.1
      && e.Position() == Cursor(0, 0)
      && written == ForceBottomRight + RequestPosition
  {
    var size;
    written, size := GetWindowSize(input);
    if size.None? {
      written := written + ClearScreen + CursorHome;
      e := null;
    } else {
      e := new EditorConfig(size.value.0, size.value.1);
    }
  }
}
