/**
 * The control sequences kilo writes, the welcome text, and `CTRL_KEY`
 * (kilo.c:12). Sequences beginning with ESC `[` are control sequences of
 * ECMA-48: CUP `ESC[H` and `ESC[{row};{col}H` (section 8.3.21), EL `ESC[K`
 * (section 8.3.41), ED `ESC[2J` (section 8.3.39), CUF `ESC[999C` (section
 * 8.3.20), CUD `ESC[999B` (section 8.3.19), DSR `ESC[6n` (section 8.3.35);
 * `ESC[?25l` and `ESC[?25h` are the private hide/show-cursor modes.
 */
module Terminal {

  const Esc: char := '\U{1B}'

  const HideCursor: string := "\U{1B}[?25l"
  const ShowCursor: string := "\U{1B}[?25h"
  const CursorHome: string := "\U{1B}[H"
  const EraseLine: string := "\U{1B}[K"
  const ClearScreen: string := "\U{1B}[2J"
  const CrLf: string := "\r\n"
  /** Moves the cursor as far right, then as far down, as the screen allows. */
  const ForceBottomRight: string := "\U{1B}[999C\U{1B}[999B"
  /** Device status report 6: asks the terminal where the cursor is. */
  const RequestPosition: string := "\U{1B}[6n"

  /** What `snprintf` writes into `welcome`, and its return value's length. */
  const Welcome: string := "Welcome to my editor!"

  /**
   * `CTRL_KEY(k)`: keeps the low five bits of a byte, as the Ctrl key does;
   * for a byte that is its remainder modulo 32.
   */
  function CtrlKey(k: char): (c: char)
    requires k as int < 256
    ensures c as int < 32 && (k as int - c as int) % 32 == 0
  {
    (k as int % 32) as char
  }

  /** `CTRL_KEY` is the bitwise and with 0x1f, for every byte. */
  lemma CtrlKeyMasks(b: bv8)
    ensures CtrlKey(b as int as char) as int == (b & 0x1F) as int
  {
    MaskIsRemainder(b);
    RemainderAsInt(b);
  }

  lemma MaskIsRemainder(b: bv8)
    ensures b & 0x1F == b % 32
  {
  }

  lemma RemainderAsInt(b: bv8)
    ensures (b % 32) as int == b as int % 32
  {
  }

  const QuitKey: char := CtrlKey('q')

  /** The quit key is the byte 0x11 (DC1). */
  lemma QuitKeyIsDc1()
    ensures QuitKey == '\U{11}'
  {
  }
}
