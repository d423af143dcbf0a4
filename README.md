# kilo, modelled in Dafny

kilo, at this stage, is the skeleton of a terminal text editor in one C file: it opens no file and shows no text. It puts the terminal in raw mode and finds the screen size. It does this by pushing the cursor to the bottom-right corner and asking the terminal where the cursor is. It then loops forever, doing two things each round:

- It redraws the screen. Every row shows a `~`, except the row a third of the way down, which holds the centred "Welcome to my editor!" banner, after a `~` and spaces when there is room. Every row is erased to its end. The cursor is hidden while drawing, then placed at (cx, cy) and shown. The whole frame is built in an append buffer and written with one `write`.
- It reads one key. `h`, `j`, `k` and `l` move the cursor left, down, up and right, with no bounds. Ctrl-Q clears the screen, homes the cursor and exits. Every other key is ignored.

The model has one module per concern:

- `Wrappers`: `Option`.
- `Decimal`: how `%d` prints and scans an `int`.
- `AppendBuffer`: `struct abuf` as a class.
- `Terminal`: the escape sequences, per ECMA-48, and `CTRL_KEY`.
- `Probe`: `getCursorPosition` and `getWindowSize`. The bytes the terminal sends are a parameter. Reading stops when they run out.
- `Render`: the frame as pure functions of the screen size and cursor, and the properties of the frame.
- `Kilo`: the editor state `E` as the class `EditorConfig`. Its methods draw into the buffer, refresh, move, and dispatch a key. `InitEditor` starts the editor up.

The imperative parts keep the C code's form:

- The buffer is appended to in place.
- The padding loop and the row loop are `while` loops.
- The reply is read into a 32-byte array.

Each of these is proved against the pure functions of `Render`, `Probe` and `Kilo`.

## Model

| member | source | states |
|---|---|---|
| AppendBuffer.ABuf.constructor | kilo.c:19 | `ABUF_INIT`: the buffer is empty and its length is 0 |
| AppendBuffer.AbAppend | kilo.c:21-31 | a null buffer is left alone; otherwise the first `n` bytes of `s` go after the current contents, `len` grows by `n`, and `len` stays the number of bytes held |
| AppendBuffer.Appends | kilo.c:19-31 | a run of `abAppend` calls from `ABUF_INIT` keeps `len` equal to the number of bytes held |
| AppendBuffer.AppendStep | kilo.c:21-31 | one append keeps what the buffer held as a prefix, and the piece follows it |
| AppendBuffer.AppendsBuild | kilo.c:19-31 | appending pieces one after another, starting from `ABUF_INIT`, leaves their concatenation in the buffer, and `len` is the sum of their lengths |
| AppendBuffer.AppendsExtend | kilo.c:21-31 | what a run of appends has built so far is a prefix of what the whole run builds |
| Terminal.CtrlKey | kilo.c:12 | `CTRL_KEY` gives a control byte, below 32, with the key's low five bits |
| Terminal.CtrlKeyMasks | kilo.c:12 | `CTRL_KEY` is the bitwise and with 0x1f, for every byte |
| Terminal.QuitKeyIsDc1 | kilo.c:203 | `CTRL_KEY('q')` is the byte 0x11 |
| Decimal.NatToString | kilo.c:174 | `%d` of a natural number is a non-empty run of digits with no leading zero |
| Decimal.IntToString | kilo.c:174 | `%d` of an `int` starts with `-` exactly when the number is negative, and the rest is digits |
| Decimal.DigitsOfNat | kilo.c:174 | the digits printed for `n` denote `n` |
| Decimal.DigitRun | kilo.c:112 | the run of digits `%d` reads ends at the first non-digit or at the end of the input |
| Decimal.ScanNumber | kilo.c:112 | a successful number scan starts with a digit or sign, ends on a digit and stops at the first non-digit |
| Decimal.ScanInt | kilo.c:112 | a successful `%d` consumes at least one byte, ends on a digit and stops at the first non-digit |
| Decimal.ScanIntSkipsSpace | kilo.c:112 | white space before a number changes only how many bytes are consumed, not whether it is read or what value it gives |
| Decimal.ScanIntRoundTrip | kilo.c:112 | scanning what `%d` printed gives back the number and consumes exactly the printed digits |
| Decimal.IntToStringChars | kilo.c:174 | `%d` prints only digits and a minus sign |
| Decimal.NumeralOfInt | kilo.c:174 | what `%d` prints is an optional sign and digits denoting the number printed |
| Decimal.SpaceRun | kilo.c:112 | the white space `%d` skips is the longest run of C-locale blanks at the start |
| Decimal.ScanIntShape | kilo.c:112 | a successful `%d` consumed white space, then a sign and digits whose value is the one returned |
| Decimal.ScanNumeral | kilo.c:112 | conversely, `%d` over white space and a sign and digits, followed by a non-digit or the end, reads their value and consumes up to the last digit |
| Decimal.ScanPair | kilo.c:112 | `"%d;%d"` succeeds only on a string of at least three bytes that contains `;`; its exact shape is `ScanPairShape` |
| Decimal.ScanPairShape | kilo.c:112 | `"%d;%d"` reads (a, b) exactly from the texts made of white space, a numeral of value a, `;`, white space, a numeral of value b, and then a non-digit or the end, where a numeral is an optional `+` or `-` and one or more digits |
| Decimal.ScanPairRoundTrip | kilo.c:112 | scanning `"%d;%d"` over what `"%d;%d"` printed, followed by any non-digit text, gives back both numbers |
| Probe.ReplyLength | kilo.c:104-108 | the read loop keeps at most 31 bytes and no `R`; it stops early only at an `R` or when the input runs out |
| Probe.ReplyLengthUnique | kilo.c:104-108 | those three conditions determine how many bytes are kept |
| Probe.CString | kilo.c:110-112 | what `sscanf` sees is the longest NUL-free prefix of the buffer |
| Probe.CStringStopsAtNul | kilo.c:110 | bytes after a NUL are never seen |
| Probe.CursorReply | kilo.c:110-113 | a position is reported only if the kept bytes start with ESC `[` |
| Probe.ScanPairStopsAtNul | kilo.c:110-112 | the NUL that ends the buffer never changes what `"%d;%d"` reads |
| Probe.CursorReplyShape | kilo.c:97-114 | a position (row, col) is reported exactly when the kept bytes are ESC `[` followed by a `"%d;%d"` text of values row and col |
| Probe.GetCursorPosition | kilo.c:97-114 | the loop over `char buf[32]` writes DSR 6 and returns exactly what `CursorReply` says about the input |
| Probe.RejectedReply | kilo.c:111 | a terminated buffer that does not start with ESC `[` gives -1 |
| Probe.AcceptedReply | kilo.c:110-112 | once the buffer is NUL-terminated, whatever the array holds beyond the NUL does not affect the parse |
| Probe.GetWindowSize | kilo.c:116-129 | writes CUF 999, CUD 999 and DSR 6, and returns the parsed cursor position report |
| Probe.CursorReplyRoundTrip | kilo.c:97-114 | a well-formed report `ESC [ row ; col R` of at most 31 bytes before the `R` is read back as (row, col), whatever follows it |
| Probe.BytesAfterReplyIgnored | kilo.c:104-108 | once the loop stops early, later bytes from the terminal do not change the answer |
| Render.WelcomeLen | kilo.c:139-142 | `welcomlen` is the welcome text's length cut to the screen width: at most each, and equal to one of them |
| Render.Padding | kilo.c:144 | the text is centred: twice the padding plus the text fits the width, with at most one column to spare |
| Render.Truncate | kilo.c:174 | `snprintf` into `buf[size]` keeps a prefix shorter than `size`: all of a string that fits, and otherwise its first `size - 1` bytes |
| Render.Repeat | kilo.c:150-152 | the padding run has the given length and is all spaces |
| Render.Banner | kilo.c:138-153 | the banner row is never wider than the screen |
| Render.RowContent | kilo.c:137-156 | a row shows either a lone `~` or the banner, which is never wider than the screen |
| Render.DrawnRows | kilo.c:136-163 | what the `drawRows` loop has appended after k rounds: rows 0 to k-1 in order, at least three bytes each; `DrawRows`' loop invariant is stated with it |
| Render.Row | kilo.c:136-162 | every row ends with ESC `[K`, followed by CR LF exactly when it is not the last row |
| Render.Rows | kilo.c:133-164 | with no rows nothing is drawn, whatever the width; otherwise at least three bytes per row, closed by ESC `[K` |
| Render.CursorTo | kilo.c:173-175 | the CUP sequence fits `buf[32]` with its NUL, and starts with ESC `[` |
| Render.Frame | kilo.c:166-177 | a frame opens with hide-cursor and home and closes with show-cursor; with no rows it is only those and the CUP sequence |
| Render.BannerLayout | kilo.c:137-153 | the banner is the welcome text cut to `cols` and centred. The left margin is a `~` then spaces, and the right margin is `padding` or `padding + 1` columns. The banner never exceeds the screen width, and at 22 columns or fewer it is the bare text. |
| Render.BannerMarkerFree | kilo.c:138-153 | the banner holds no ESC, `K`, CR or LF |
| Render.RowCount | kilo.c:137-162 | every row has one erase sequence, and a line break exactly when it is not the last row |
| Render.DrawnRowsCount | kilo.c:136-163 | after k rounds, the loop has drawn k erase sequences and one break after every row except the screen's last |
| Render.RowsStructure | kilo.c:136-163 | the rows hold `rows` ESC and `K` bytes and `rows - 1` CRs and LFs, and end with ESC `[K` |
| Render.DrawnRowsAsLines | kilo.c:136-163 | the first k rows are the first k screen lines joined by CR LF, with a trailing CR LF unless the last row has been reached |
| Render.RowsAreJoinedLines | kilo.c:136-163 | the rows are the screen lines joined by CR LF. Every line is `~` ESC `[K`, except line `rows / 3`, which is the banner then ESC `[K`. |
| Render.CursorToShape | kilo.c:174 | the CUP sequence starts with its only ESC and holds no other structural byte |
| Render.FrameStructure | kilo.c:166-177 | a frame opens with hide-cursor and home, and closes with show-cursor. It holds `rows + 4` ESCs, `rows` `K`s and `rows - 1` line breaks. |
| Render.CursorToRoundTrip | kilo.c:173-175 | the CUP sequence's parameters, read back with `%d;%d`, are the cursor's row and column, for every pair that fits the 32-byte buffer |
| Kilo.Move | kilo.c:182-197 | every key moves the cursor by its direction: one column left or right for `h` and `l`, one row down or up for `j` and `k`, nothing for any other key |
| Kilo.Moves | kilo.c:182-197 | after any keys, the column has moved by the number of `l`s less the number of `h`s, and the row by the number of `j`s less the number of `k`s |
| Kilo.MoveOneStep | kilo.c:182-197 | a movement key changes exactly one coordinate, by one; every other key changes nothing |
| Kilo.MoveUndo | kilo.c:182-197 | `h` and `l` undo each other, and so do `j` and `k` |
| Kilo.MovesRepeated | kilo.c:182-197 | pressing one key n times moves n steps in its direction, with no clamping |
| Kilo.LeftFromOrigin | kilo.c:184-186 | from the top-left corner, n presses of `h` put the cursor at column -n |
| Kilo.Dispatch | kilo.c:202-215 | quits exactly on 0x11, moves exactly on `h`/`j`/`k`/`l`, and ignores every other byte |
| Kilo.KeyStep | kilo.c:200-216 | exits exactly on 0x11, writing ED 2 and home without moving; every other key writes nothing and moves the cursor as `Move` says |
| Kilo.QuitFromAnywhere | kilo.c:203-207 | from any cursor position, Ctrl-Q writes ED 2 and the home sequence, then exits |
| Kilo.KeyEffects | kilo.c:200-216 | only movement keys move the cursor, only the quit key writes or exits, and ignored keys leave the state as it was |
| Kilo.AppendSpaces | kilo.c:150-152 | the `while (padding--)` loop appends exactly `padding` spaces |
| Kilo.AppendCursorTo | kilo.c:173-175 | appends the truncated CUP sequence for (row, col) |
| Kilo.EditorConfig.constructor | kilo.c:218-220 | the screen size is the one given, and the cursor starts at (0, 0) |
| Kilo.EditorConfig.MoveKeys | kilo.c:182-197 | the cursor becomes `Move` of the old cursor and the key, and the screen size is unchanged |
| Kilo.EditorConfig.ProcessKeypress | kilo.c:200-216 | the new cursor, the exit flag and the bytes written are `KeyStep` of the old cursor and the key |
| Kilo.EditorConfig.DrawBanner | kilo.c:138-153 | appends exactly `Banner(cols)` |
| Kilo.EditorConfig.DrawRow | kilo.c:136-163 | one round of the row loop appends exactly row `y` |
| Kilo.EditorConfig.DrawRows | kilo.c:133-164 | appends exactly `Rows(rows, cols)`, the loop invariant being the rows drawn so far |
| Kilo.EditorConfig.RefreshScreen | kilo.c:166-179 | the single write is exactly `Frame(rows, cols, cx, cy)` |
| Kilo.EditorConfig.RunOnce | kilo.c:232-235 | one round of `main` writes the frame for the old state followed by the key's output, and moves or quits as `KeyStep` says |
| Kilo.InitEditor | kilo.c:218-224 | with a valid report, the editor has the reported size and its cursor at (0, 0). Otherwise `die` writes ED 2 and home after the probe, and no editor exists. |

## Left out

- Raw mode: `enableRawMode`, `disableRawMode`, `atexit` and the termios flags are terminal I/O.
- `editorReadKey`: blocking reads and retry on `EAGAIN` are I/O. The key a step acts on is a parameter.
- The terminal's reply is a parameter. The read timeout of raw mode is modelled as the input running out.
- `write` results: every write is taken to complete. The write checks in `getCursorPosition` and `getWindowSize` that return -1 are not modelled.
- `die` and `exit`: `perror`, the exit status and process termination are not modelled. `die` is modelled as its two writes, after which no editor exists. Quitting is modelled as a flag.
- `getWindowSize`: the `ioctl` branch is dead code (`1 || ...`) and is not modelled.
- `main`: the infinite loop is modelled one round at a time (`RunOnce`).
- `abFree` and `realloc`: storage is a sequence, so there is nothing to free, and allocation failure is not modelled.
- Decimal.ScanInt: integers are unbounded. `%d` of a value out of `int` range is undefined behaviour in C.
- Kilo.EditorConfig.MoveKeys: no 32-bit wrap-around of `cx` and `cy`. Overflowing them is undefined behaviour in C.
- Kilo.InitEditor: on failure, `sscanf` may already have stored `*rows`. That partial write is not modelled, because `die` follows.
- Kilo.EditorConfig.DrawRows: requires `cols >= 0` when there are rows. The banner row is then always drawn, a negative width makes `welcomlen` negative, and `abAppend` would copy a negative length, which C does not define. With no rows, any width is allowed.
- Kilo.EditorConfig.RefreshScreen: requires `cols >= 0` when there are rows, for the same reason.
- Kilo.EditorConfig.RunOnce: requires `cols >= 0` when there are rows, for the same reason.
- Keys are `char`s from 0 to 255. C's signed `char` does not matter here, because every key the program compares against is below 128.
- kilo has no cursor clamping, no arrow or page keys, no vim mode and no escape-sequence decoder, and the model adds none.
