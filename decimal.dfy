/**
 * Decimal rendering and scanning of `int`s, as the C library's `%d`
 * conversion does it for `snprintf` (kilo.c:174) and `sscanf` (kilo.c:112).
 * Integers are unbounded here; `%d` of a negative value prints a minus sign.
 * Scanning skips leading white space, accepts an optional sign followed by
 * one or more digits, and stops at the first non-digit.
 */
module Decimal {
  import opened Wrappers

  predicate IsDigit(c: char) {
    '0' <= c <= '9'
  }

  predicate AllDigits(s: string) {
    forall i :: 0 <= i < |s| ==> IsDigit(s[i])
  }

  function DigitChar(d: int): (c: char)
    requires 0 <= d < 10
    ensures IsDigit(c) && c as int - '0' as int == d
  {
    ('0' as int + d) as char
  }

  function DigitValue(c: char): (d: nat)
    requires IsDigit(c)
    ensures d < 10 && DigitChar(d) == c
  {
    c as int - '0' as int
  }

  /** The digits of `n`, most significant first, without leading zeros. */
  function NatToString(n: nat): (s: string)
    ensures |s| > 0 && AllDigits(s)
    ensures s[0] == '0' ==> s == "0"
    decreases n
  {
    if n < 10 then [DigitChar(n)] else NatToString(n / 10) + [DigitChar(n % 10)]
  }

  /** What `%d` prints for `n`. */
  function IntToString(n: int): (s: string)
    ensures |s| > 0
    ensures s[0] == '-' <==> n < 0
    ensures n < 0 ==> AllDigits(s[1..])
    ensures n >= 0 ==> AllDigits(s)
  {
    if n < 0 then "-" + NatToString(-n) else NatToString(n)
  }

  /** The number a string of digits denotes. */
  function DigitsValue(ds: string): nat
    requires AllDigits(ds)
  {
    if |ds| == 0 then 0 else DigitsValue(ds[..|ds| - 1]) * 10 + DigitValue(ds[|ds| - 1])
  }

  /** The length of the longest run of digits at the start of `s`. */
  function DigitRun(s: string): (k: nat)
    ensures k <= |s| && AllDigits(s[..k])
    ensures k < |s| ==> !IsDigit(s[k])
  {
    if |s| > 0 && IsDigit(s[0]) then 1 + DigitRun(s[1..]) else 0
  }

  /** 1 when `s` starts with a sign, else 0. */
  function SignLength(s: string): nat {
    if |s| > 0 && (s[0] == '-' || s[0] == '+') then 1 else 0
  }

  /** The white-space characters of the C locale, which `%d` skips before a number. */
  predicate IsSpace(c: char) {
    c == ' ' || c == '\t' || c == '\n' || c == '\U{0B}' || c == '\U{0C}' || c == '\r'
  }

  predicate Blank(w: string) {
    forall i :: 0 <= i < |w| ==> IsSpace(w[i])
  }

  /** The length of the run of white space at the start of `s`. */
  function SpaceRun(s: string): (k: nat)
    ensures k <= |s| && Blank(s[..k])
    ensures k < |s| ==> !IsSpace(s[k])
  {
    if |s| > 0 && IsSpace(s[0]) then
      assert s[..1 + SpaceRun(s[1..])] == [s[0]] + s[1..][..SpaceRun(s[1..])];
      1 + SpaceRun(s[1..])
    else 0
  }

  /** The text of a number `%d` accepts: an optional sign, then one or more digits. */
  predicate Numeral(t: string) {
    SignLength(t) < |t| && AllDigits(t[SignLength(t)..])
  }

  /** The value a numeral denotes; a leading `+` changes nothing. */
  function NumeralValue(t: string): int
    requires Numeral(t)
  {
    var m: int := DigitsValue(t[SignLength(t)..]);
    if SignLength(t) == 1 && t[0] == '-' then -m else m
  }

  /**
   * The number a `%d` conversion reads once white space is skipped: an
   * optional sign and the longest run of digits after it, with the number
   * of characters consumed; None when no digit follows the sign.
   */
  function ScanNumber(s: string): (r: Option<(int, nat)>)
    ensures r.Some? ==> 0 < r.value.1 <= |s|
    ensures r.Some? ==> IsDigit(s[0]) || s[0] == '-' || s[0] == '+'
    ensures r.Some? ==> IsDigit(s[r.value.1 - 1])
    ensures r.Some? ==> r.value.1 == |s| || !IsDigit(s[r.value.1])
  {
    var start := SignLength(s);
    var k := DigitRun(s[start..]);
    if k == 0 then None
    else
      assert s[start..start + k] == s[start..][..k];
      var magnitude: int := DigitsValue(s[start..start + k]);
      Some((if start == 1 && s[0] == '-' then -magnitude else magnitude, start + k))
  }

  /**
   * One `%d` conversion at the start of `s`: leading white space is
   * skipped, then a number is read. The result is the value and the number
   * of characters consumed, white space included, or None on a matching
   * failure.
   */
  function ScanInt(s: string): (r: Option<(int, nat)>)
    ensures r.Some? ==> 0 < r.value.1 <= |s|
    ensures r.Some? ==> IsDigit(s[r.value.1 - 1])
    ensures r.Some? ==> r.value.1 == |s| || !IsDigit(s[r.value.1])
  {
    if |s| > 0 && IsSpace(s[0]) then
      match ScanInt(s[1..])
      case None => None
      case Some((v, k)) => Some((v, k + 1))
    else ScanNumber(s)
  }

  /**
   * The format `"%d;%d"`: Some pair exactly when both conversions succeed,
   * which is when `sscanf` returns 2. What follows the second number is
   * not looked at.
   */
  function ScanPair(s: string): (r: Option<(int, int)>)
    ensures r.Some? ==> |s| >= 3
    ensures r.Some? ==> ';' in s
  {
    var first := ScanInt(s);
    if first.Some? && first.value.1 < |s| && s[first.value.1] == ';' then
      var second := ScanInt(s[first.value.1 + 1..]);
      if second.Some? then Some((first.value.0, second.value.0)) else None
    else None
  }

  lemma {:induction false} DigitsOfNat(n: nat)
    ensures DigitsValue(NatToString(n)) == n
    decreases n
  {
    if n >= 10 {
      var s := NatToString(n / 10);
      assert NatToString(n) == s + [DigitChar(n % 10)];
      assert (s + [DigitChar(n % 10)])[..|s|] == s;
      DigitsOfNat(n / 10);
    }
  }

  lemma {:induction false} DigitRunOfDigits(a: string, rest: string)
    requires AllDigits(a)
    requires rest == [] || !IsDigit(rest[0])
    ensures DigitRun(a + rest) == |a|
  {
    if |a| == 0 {
      assert a + rest == rest;
    } else {
      assert (a + rest)[0] == a[0];
      assert (a + rest)[1..] == a[1..] + rest;
      DigitRunOfDigits(a[1..], rest);
    }
  }

  lemma ScanIntOf(s: string, digits: string, rest: string)
    requires s[SignLength(s)..] == digits + rest
    requires AllDigits(digits) && |digits| > 0
    requires rest == [] || !IsDigit(rest[0])
    ensures var m: int := DigitsValue(digits);
      ScanNumber(s) == Some((if SignLength(s) == 1 && s[0] == '-' then -m else m, SignLength(s) + |digits|))
  {
    DigitRunOfDigits(digits, rest);
    ScanIntOfRun(s, digits, rest);
  }

  /** Once the digit run after the sign is known to be `digits`, the scan reads exactly them. */
  lemma ScanIntOfRun(s: string, digits: string, rest: string)
    requires s[SignLength(s)..] == digits + rest
    requires AllDigits(digits) && |digits| > 0
    requires DigitRun(digits + rest) == |digits|
    ensures var m: int := DigitsValue(digits);
      ScanNumber(s) == Some((if SignLength(s) == 1 && s[0] == '-' then -m else m, SignLength(s) + |digits|))
  {
    var start := SignLength(s);
    assert s[start..start + |digits|] == digits;
  }

  /** What `%d` prints is a numeral whose value is the number printed. */
  lemma NumeralOfInt(n: int)
    ensures Numeral(IntToString(n)) && NumeralValue(IntToString(n)) == n
  {
    var s := IntToString(n);
    var m: nat := if n < 0 then -n else n;
    DigitsOfNat(m);
    if n < 0 {
      assert s[1..] == NatToString(m);
    } else {
      assert s[0..] == NatToString(m);
    }
  }

  /** Every character `%d` prints is a digit or a minus sign. */
  lemma IntToStringChars(n: int)
    ensures forall i :: 0 <= i < |IntToString(n)| ==> IsDigit(IntToString(n)[i]) || IntToString(n)[i] == '-'
  {
    var s := IntToString(n);
    forall i | 0 <= i < |s|
      ensures IsDigit(s[i]) || s[i] == '-'
    {
      if n < 0 && i > 0 {
        assert s[i] == s[1..][i - 1];
      }
    }
  }

  /** A numeral holds only digits and, first, a sign. */
  lemma NumeralChars(t: string)
    requires Numeral(t)
    ensures forall i :: 0 <= i < |t| ==> IsDigit(t[i]) || t[i] == '-' || t[i] == '+'
  {
    var sign := SignLength(t);
    forall i | 0 <= i < |t|
      ensures IsDigit(t[i]) || t[i] == '-' || t[i] == '+'
    {
      if i >= sign {
        assert t[i] == t[sign..][i - sign];
      }
    }
  }

  /** A numeral, once white space is skipped, has exactly the sign and digit run `ScanNumber` reads. */
  lemma ScanNumberShape(s: string)
    requires ScanNumber(s).Some?
    ensures var k := ScanNumber(s).value.1;
      Numeral(s[..k]) && NumeralValue(s[..k]) == ScanNumber(s).value.0
  {
    var start := SignLength(s);
    var k := DigitRun(s[start..]);
    var t := s[..start + k];
    assert SignLength(t) == start;
    assert forall j :: 0 <= j < k ==> t[start..][j] == s[start + j] == s[start..][..k][j];
    assert t[start..] == s[start..][..k];
  }

  /**
   * A successful `%d` consumed white space, then a numeral whose value is
   * the one returned.
   */
  lemma {:induction false} ScanIntShape(s: string, v: int, k: nat)
    requires ScanInt(s) == Some((v, k))
    ensures SpaceRun(s) < k && Numeral(s[SpaceRun(s)..k]) && NumeralValue(s[SpaceRun(s)..k]) == v
    decreases |s|
  {
    if |s| > 0 && IsSpace(s[0]) {
      var s1 := s[1..];
      OneSpace(s, s1);
      ScanIntShape(s1, v, k - 1);
      SkippedSpace(s, s1, k);
    } else {
      ScanIntWithoutSpace(s);
      ScanNumberShape(s);
      assert s[0..k] == s[..k];
    }
  }

  /** One blank skipped: the run of blanks, and what follows it, move by one. */
  lemma SkippedSpace(s: string, s1: string, k: nat)
    requires |s| > 0 && IsSpace(s[0]) && s1 == s[1..]
    requires SpaceRun(s1) < k <= |s|
    ensures SpaceRun(s) == SpaceRun(s1) + 1
    ensures s1[SpaceRun(s1)..k - 1] == s[SpaceRun(s)..k]
  {
  }

  /**
   * Conversely, `%d` over white space, a numeral, and text that does not
   * go on with a digit reads the numeral's value and consumes up to its end.
   */
  lemma ScanNumeral(s: string, w: string, t: string, rest: string)
    requires s == w + t + rest
    requires Blank(w) && Numeral(t)
    requires rest == [] || !IsDigit(rest[0])
    ensures ScanInt(s) == Some((NumeralValue(t), |w| + |t|))
  {
    var u := Join(s, w, t, rest);
    ScanNumeralAt(u, t, rest);
    SkipBlank(s, w, u, NumeralValue(t), |t|);
  }

  lemma Join(s: string, w: string, t: string, rest: string) returns (u: string)
    requires s == w + t + rest
    ensures u == t + rest && s == w + u
  {
    u := t + rest;
  }

  /** `ScanIntSkipsSpace` for a string known to be blanks then `u`. */
  lemma SkipBlank(s: string, w: string, u: string, v: int, k: nat)
    requires s == w + u && Blank(w) && ScanInt(u) == Some((v, k))
    ensures ScanInt(s) == Some((v, |w| + k))
  {
    ScanIntSkipsSpace(w, u);
  }

  /**
   * `ScanNumeral` by positions: white space up to `i`, a numeral from `i`
   * to `k`, and no digit at `k`.
   */
  lemma ScanNumeralIn(s: string, i: nat, k: nat, v: int)
    requires i <= k <= |s| && Blank(s[..i]) && Numeral(s[i..k]) && NumeralValue(s[i..k]) == v
    requires k == |s| || !IsDigit(s[k])
    ensures ScanInt(s) == Some((v, k))
  {
    var w, t, rest := Cut3(s, i, k, v);
    ScanNumeralBy(s, w, t, rest, v, k);
  }

  lemma ScanNumeralBy(s: string, w: string, t: string, rest: string, v: int, k: nat)
    requires s == w + t + rest && |w| + |t| == k
    requires Blank(w) && Numeral(t) && NumeralValue(t) == v
    requires rest == [] || !IsDigit(rest[0])
    ensures ScanInt(s) == Some((v, k))
  {
    ScanNumeral(s, w, t, rest);
  }

  /** `s` cut at `i` and at `k` into the pieces `ScanNumeral` takes. */
  lemma Cut3(s: string, i: nat, k: nat, v: int) returns (w: string, t: string, rest: string)
    requires i <= k <= |s| && Blank(s[..i]) && Numeral(s[i..k]) && NumeralValue(s[i..k]) == v
    requires k == |s| || !IsDigit(s[k])
    ensures s == w + t + rest && |w| + |t| == k
    ensures Blank(w) && Numeral(t) && NumeralValue(t) == v
    ensures rest == [] || !IsDigit(rest[0])
  {
    w, t, rest := s[..i], s[i..k], s[k..];
    assert s == w + t + rest;
  }

  /** `ScanNumeral` with no white space. */
  lemma ScanNumeralAt(u: string, t: string, rest: string)
    requires u == t + rest && Numeral(t)
    requires rest == [] || !IsDigit(rest[0])
    ensures ScanInt(u) == Some((NumeralValue(t), |t|))
  {
    var sign := SignLength(t);
    assert t[sign..][0] == t[sign];
    assert u[0] == t[0] && !IsSpace(u[0]);
    assert SignLength(u) == sign;
    assert u[sign..] == (t + rest)[sign..] == t[sign..] + rest;
    ScanIntOf(u, t[sign..], rest);
    ScanIntWithoutSpace(u);
  }

  /** Scanning what `%d` printed gives back the number, and consumes exactly it. */
  lemma ScanIntRoundTrip(n: int, rest: string)
    requires rest == [] || !IsDigit(rest[0])
    ensures ScanInt(IntToString(n) + rest) == Some((n, |IntToString(n)|))
  {
    NumeralOfInt(n);
    ScanNumeralAt(IntToString(n) + rest, IntToString(n), rest);
  }

  /** With nothing to skip, `%d` reads the number right at the start. */
  lemma ScanIntWithoutSpace(s: string)
    requires |s| > 0 && !IsSpace(s[0])
    ensures ScanInt(s) == ScanNumber(s)
  {
  }

  /** White space before a number changes only how many characters are consumed. */
  lemma {:induction false} ScanIntSkipsSpace(ws: string, s: string)
    requires Blank(ws)
    ensures ScanInt(ws + s).None? <==> ScanInt(s).None?
    ensures ScanInt(s).Some? ==>
      ScanInt(ws + s) == Some((ScanInt(s).value.0, ScanInt(s).value.1 + |ws|))
  {
    if |ws| > 0 {
      var t := Behead(ws, s);
      OneSpace(ws + s, t);
      ScanIntSkipsSpace(ws[1..], s);
    } else {
      assert ws + s == s;
    }
  }

  /** One blank skipped: `%d` reads the same number one character later. */
  lemma OneSpace(s: string, t: string)
    requires |s| > 0 && IsSpace(s[0]) && s[1..] == t
    ensures ScanInt(s).None? <==> ScanInt(t).None?
    ensures ScanInt(t).Some? ==> ScanInt(s) == Some((ScanInt(t).value.0, ScanInt(t).value.1 + 1))
  {
  }

  lemma Behead(ws: string, s: string) returns (t: string)
    requires |ws| > 0
    ensures t == ws[1..] + s && (ws + s)[1..] == t && (ws + s)[0] == ws[0]
  {
    t := ws[1..] + s;
  }

  /**
   * `s` is white space, a numeral of value `a`, `;`, white space, a
   * numeral of value `b`, and then text that does not go on with a digit.
   */
  predicate PairText(s: string, a: int, b: int, w1: string, t1: string, w2: string, t2: string, rest: string) {
    && s == w1 + t1 + ";" + w2 + t2 + rest
    && Blank(w1) && Numeral(t1) && NumeralValue(t1) == a
    && Blank(w2) && Numeral(t2) && NumeralValue(t2) == b
    && (rest == [] || !IsDigit(rest[0]))
  }

  /**
   * `"%d;%d"` reads (a, b) exactly from the texts that are white space, a
   * numeral of value `a`, `;`, white space and a numeral of value `b`,
   * followed by anything that does not go on with a digit.
   */
  lemma ScanPairShape(s: string, a: int, b: int)
    ensures ScanPair(s) == Some((a, b)) <==>
      exists w1, t1, w2, t2, rest :: PairText(s, a, b, w1, t1, w2, t2, rest)
  {
    if ScanPair(s) == Some((a, b)) {
      ScanPairCut(s, a, b);
    }
    if exists w1, t1, w2, t2, rest :: PairText(s, a, b, w1, t1, w2, t2, rest) {
      var w1, t1, w2, t2, rest :| PairText(s, a, b, w1, t1, w2, t2, rest);
      ScanPairOfText(s, a, b, w1, t1, w2, t2, rest);
    }
  }

  lemma ScanPairOfText(s: string, a: int, b: int, w1: string, t1: string, w2: string, t2: string, rest: string)
    requires PairText(s, a, b, w1, t1, w2, t2, rest)
    ensures ScanPair(s) == Some((a, b))
  {
    var i, k, j, m := PairPositions(s, a, b, w1, t1, w2, t2, rest);
    ScanPairAt(s, a, b, i, k, j, m);
  }

  lemma ScanPairCut(s: string, a: int, b: int)
    requires ScanPair(s) == Some((a, b))
    ensures exists w1, t1, w2, t2, rest :: PairText(s, a, b, w1, t1, w2, t2, rest)
  {
    var i, k, j, m := PairAtOfScan(s, a, b);
    var w1, t1, w2, t2, rest := PairTextOf(s, a, b, i, k, j, m);
    Witness(s, a, b, w1, t1, w2, t2, rest);
  }

  /** The positions of the two successful `%d` of a pair scan. */
  lemma PairAtOfScan(s: string, a: int, b: int) returns (i: nat, k: nat, j: nat, m: nat)
    requires ScanPair(s) == Some((a, b))
    ensures PairAt(s, a, b, i, k, j, m)
  {
    var s2;
    k, s2, m := PairScanned(s, a, b);
    i, j := PairAtOfInts(s, a, b, k, s2, m);
  }

  /** Where the two conversions of a successful pair scan end. */
  lemma PairScanned(s: string, a: int, b: int) returns (k: nat, s2: string, m: nat)
    requires ScanPair(s) == Some((a, b))
    ensures ScanInt(s) == Some((a, k)) && k < |s| && s[k] == ';' && s2 == s[k + 1..]
    ensures ScanInt(s2) == Some((b, m))
  {
    k := FirstOfPair(s, a, b);
    s2 := s[k + 1..];
    m := ScanInt(s2).value.1;
  }

  /** A successful pair scan: the first `%d` stops at the `;`, and the second reads `b`. */
  lemma FirstOfPair(s: string, a: int, b: int) returns (k: nat)
    requires ScanPair(s) == Some((a, b))
    ensures ScanInt(s) == Some((a, k)) && k < |s| && s[k] == ';'
    ensures ScanInt(s[k + 1..]).Some? && ScanInt(s[k + 1..]).value.0 == b
  {
    var first := ScanInt(s);
    k := first.value.1;
    var second := ScanInt(s[k + 1..]);
    assert second.Some? && second.value.0 == b;
  }

  lemma PairAtOfInts(s: string, a: int, b: int, k: nat, s2: string, m: nat) returns (i: nat, j: nat)
    requires ScanInt(s) == Some((a, k)) && k < |s| && s[k] == ';' && s2 == s[k + 1..]
    requires ScanInt(s2) == Some((b, m))
    ensures PairAt(s, a, b, i, k, j, m)
  {
    ScanIntShape(s, a, k);
    ScanIntShape(s2, b, m);
    i, j := SpaceRun(s), SpaceRun(s2);
  }

  lemma Witness(s: string, a: int, b: int, w1: string, t1: string, w2: string, t2: string, rest: string)
    requires PairText(s, a, b, w1, t1, w2, t2, rest)
    ensures exists w1, t1, w2, t2, rest :: PairText(s, a, b, w1, t1, w2, t2, rest)
  {
  }

  /**
   * The positions in `s` of a pair text: white space up to `i`, the first
   * numeral up to `k`, the `;` at `k`, and, in what follows it, white space
   * up to `j` and the second numeral up to `m`.
   */
  predicate PairAt(s: string, a: int, b: int, i: nat, k: nat, j: nat, m: nat) {
    && i < k < |s| && s[k] == ';' && j < m <= |s| - k - 1
    && Blank(s[..i]) && Numeral(s[i..k]) && NumeralValue(s[i..k]) == a
    && var s2 := s[k + 1..];
      && Blank(s2[..j]) && Numeral(s2[j..m]) && NumeralValue(s2[j..m]) == b
      && (m == |s2| || !IsDigit(s2[m]))
  }

  /** The positions of a successful pair scan give the pieces of `PairText`. */
  lemma PairTextOf(s: string, a: int, b: int, i: nat, k: nat, j: nat, m: nat)
    returns (w1: string, t1: string, w2: string, t2: string, rest: string)
    requires PairAt(s, a, b, i, k, j, m)
    ensures PairText(s, a, b, w1, t1, w2, t2, rest)
  {
    Cuts(s, i, k, j, m);
    var s2 := s[k + 1..];
    w1, t1, w2, t2, rest := s[..i], s[i..k], s2[..j], s2[j..m], s2[m..];
  }

  /** The pieces of a pair text sit at their lengths' positions. */
  lemma PairPositions(s: string, a: int, b: int, w1: string, t1: string, w2: string, t2: string, rest: string)
    returns (i: nat, k: nat, j: nat, m: nat)
    requires PairText(s, a, b, w1, t1, w2, t2, rest)
    ensures PairAt(s, a, b, i, k, j, m)
  {
    Pieces(s, w1, t1, w2, t2, rest);
    PairAtOfPieces(s, a, b, w1, t1, w2, t2, rest);
    i, k, j, m := |w1|, |w1| + |t1|, |w2|, |w2| + |t2|;
  }

  lemma PairAtOfPieces(s: string, a: int, b: int, w1: string, t1: string, w2: string, t2: string, rest: string)
    requires var k := |w1| + |t1|;
      && k < |s| && |w2| + |t2| <= |s| - k - 1
      && s[..|w1|] == w1 && s[|w1|..k] == t1 && s[k] == ';'
      && s[k + 1..][..|w2|] == w2 && s[k + 1..][|w2|..|w2| + |t2|] == t2
      && s[k + 1..][|w2| + |t2|..] == rest
    requires Blank(w1) && Numeral(t1) && NumeralValue(t1) == a
    requires Blank(w2) && Numeral(t2) && NumeralValue(t2) == b
    requires rest == [] || !IsDigit(rest[0])
    ensures PairAt(s, a, b, |w1|, |w1| + |t1|, |w2|, |w2| + |t2|)
  {
  }

  lemma Pieces(s: string, w1: string, t1: string, w2: string, t2: string, rest: string)
    requires s == w1 + t1 + ";" + w2 + t2 + rest
    ensures var k := |w1| + |t1|;
      && k < |s| && s[..|w1|] == w1 && s[|w1|..k] == t1 && s[k] == ';'
      && s[k + 1..] == w2 + t2 + rest
      && s[k + 1..][..|w2|] == w2 && s[k + 1..][|w2|..|w2| + |t2|] == t2
      && s[k + 1..][|w2| + |t2|..] == rest
  {
    var k := |w1| + |t1|;
    assert s[..|w1|] == w1 && s[|w1|..k] == t1;
    var s2 := s[k + 1..];
    assert s2 == w2 + t2 + rest;
    assert s2[..|w2|] == w2 && s2[|w2|..|w2| + |t2|] == t2;
  }

  /** Cutting `s` at the white space, the numerals and the `;` of a pair. */
  lemma Cuts(s: string, i: nat, k: nat, j: nat, m: nat)
    requires i <= k < |s| && j <= m <= |s| - k - 1 && s[k] == ';'
    ensures var s2 := s[k + 1..];
      s == s[..i] + s[i..k] + ";" + s2[..j] + s2[j..m] + s2[m..]
  {
    var s2 := s[k + 1..];
    CutTwice(s, i, k);
    CutTwice(s2, j, m);
    Glue(s, s[..i], s[i..k], s2, s2[..j], s2[j..m], s2[m..]);
  }

  lemma CutTwice(u: string, i: nat, k: nat)
    requires i <= k <= |u|
    ensures u == u[..i] + u[i..k] + u[k..]
    ensures k < |u| ==> u == u[..i] + u[i..k] + [u[k]] + u[k + 1..]
  {
    assert u == u[..i] + u[i..k] + u[k..];
    if k < |u| {
      assert u[k..] == [u[k]] + u[k + 1..];
    }
  }

  lemma Glue(s: string, w1: string, t1: string, s2: string, w2: string, t2: string, rest: string)
    requires s == w1 + t1 + ";" + s2 && s2 == w2 + t2 + rest
    ensures s == w1 + t1 + ";" + w2 + t2 + rest
  {
  }

  /** `"%d;%d"` over a pair text, given by its positions, reads both numbers. */
  lemma ScanPairAt(s: string, a: int, b: int, i: nat, k: nat, j: nat, m: nat)
    requires PairAt(s, a, b, i, k, j, m)
    ensures ScanPair(s) == Some((a, b))
  {
    ScanNumeralIn(s, i, k, a);
    var tail := s[k + 1..];
    ScanNumeralIn(tail, j, m, b);
    ScanPairOf(s, k, tail, a, b);
  }

  /** Scanning `"%d;%d"` over what `"%d;%d"` printed gives back both numbers. */
  lemma ScanPairRoundTrip(a: int, b: int, rest: string)
    requires rest == [] || !IsDigit(rest[0])
    ensures ScanPair(IntToString(a) + ";" + IntToString(b) + rest) == Some((a, b))
  {
    var sa, sb := IntToString(a), IntToString(b);
    NumeralOfInt(a);
    NumeralOfInt(b);
    Unblanked(sa, sb, rest);
    ScanPairOfText(sa + ";" + sb + rest, a, b, [], sa, [], sb, rest);
  }

  lemma Unblanked(sa: string, sb: string, rest: string)
    ensures sa + ";" + sb + rest == [] + sa + ";" + [] + sb + rest && Blank([])
  {
  }

  lemma ScanPairOf(s: string, k: nat, tail: string, a: int, b: int)
    requires ScanInt(s) == Some((a, k))
    requires k < |s| && s[k] == ';' && s[k + 1..] == tail
    requires ScanInt(tail).Some? && ScanInt(tail).value.0 == b
    ensures ScanPair(s) == Some((a, b))
  {
  }
}
