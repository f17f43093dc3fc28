/**
 * Decimal integers as the standard library reads and writes them:
 * `strconv.Atoi` (used for the quiz id of a form) and the `%d` verb of
 * `fmt.Sscanf` (used for answer trigger ids). Both accept an optional
 * sign followed by one or more ASCII digits and reject values outside
 * the 64-bit signed range; `%d` first skips white space.
 */
module Decimal {
  import opened Wrappers

  const Int64Min: int := -0x8000_0000_0000_0000
  const Int64Max: int := 0x7FFF_FFFF_FFFF_FFFF

  predicate IsDigit(c: char) { '0' <= c <= '9' }

  predicate AllDigits(s: string) { forall i :: 0 <= i < |s| ==> IsDigit(s[i]) }

  /** The value of a string of digits, read left to right. */
  function DigitsValue(s: string): nat
    requires AllDigits(s)
  {
    if s == [] then 0 else DigitsValue(s[..|s| - 1]) * 10 + (s[|s| - 1] as int - '0' as int)
  }

  /** The shortest decimal rendering of `n` (no sign, no leading zeros). */
  function Render(n: nat): (s: string)
    ensures 1 <= |s| && AllDigits(s)
  {
    if n < 10 then [('0' as int + n) as char]
    else Render(n / 10) + [('0' as int + n % 10) as char]
  }

  lemma {:induction false} ParseRender(n: nat)
    ensures DigitsValue(Render(n)) == n
  {
    if n >= 10 {
      var s := Render(n);
      assert s[..|s| - 1] == Render(n / 10);
      ParseRender(n / 10);
    }
  }

  /** Length of the run of digits at the start of `s`. */
  function DigitRun(s: string): (k: nat)
    ensures k <= |s| && AllDigits(s[..k])
    ensures k < |s| ==> !IsDigit(s[k])
  {
    if s == [] || !IsDigit(s[0]) then 0
    else
      var k := 1 + DigitRun(s[1..]);
      assert s[..k] == [s[0]] + s[1..][..k - 1];
      k
  }

  lemma {:induction false} DigitRunOfDigits(d: string, rest: string)
    requires AllDigits(d)
    requires rest == [] || !IsDigit(rest[0])
    ensures DigitRun(d + rest) == |d|
  {
    if d != [] {
      assert (d + rest)[1..] == d[1..] + rest;
      DigitRunOfDigits(d[1..], rest);
    }
  }

  /** Why a decimal integer could not be read. */
  datatype NumError = Syntax | Range | UnexpectedNewline | UnexpectedEof

  /**
   * The white space `fmt` skips before a number: its `isSpace` table
   * (U+0009 to U+000D, U+0020, U+0085, U+00A0, U+1680, U+2000 to U+200A,
   * U+2028, U+2029, U+202F, U+205F, U+3000) without the newline, which
   * `Sscanf` refuses instead.
   */
  predicate IsScanSpace(c: char)
  {
    var x := c as int;
    || (0x09 <= x <= 0x0D && x != 0x0A)
    || x == 0x20 || x == 0x85 || x == 0xA0 || x == 0x1680
    || (0x2000 <= x <= 0x200A)
    || x == 0x2028 || x == 0x2029 || x == 0x202F || x == 0x205F || x == 0x3000
  }

  /** Length of the run of skippable white space at the start of `s`. */
  function SpaceRun(s: string): (k: nat)
    ensures k <= |s|
    ensures forall i :: 0 <= i < k ==> IsScanSpace(s[i])
    ensures k < |s| ==> !IsScanSpace(s[k])
  {
    if s == [] || !IsScanSpace(s[0]) then 0 else 1 + SpaceRun(s[1..])
  }

  /**
   * Reads an optional `+` or `-` followed by a maximal run of digits from
   * the start of `s`, and returns the value, which must fit in 64 signed
   * bits as `strconv.ParseInt(tok, 10, 64)` demands, together with the
   * unread rest of `s`.
   */
  function ScanToken(s: string): (r: Result<(int, string), NumError>)
    ensures r.Ok? ==> Int64Min <= r.value.0 <= Int64Max
    ensures r.Ok? ==> |r.value.1| < |s| && r.value.1 == s[|s| - |r.value.1|..]
    ensures r.Ok? ==> r.value.1 == [] || !IsDigit(r.value.1[0])
    ensures r.Err? ==> r.error == Syntax || r.error == Range
  {
    var signed := |s| > 0 && (s[0] == '+' || s[0] == '-');
    var body := if signed then s[1..] else s;
    var k := DigitRun(body);
    if k == 0 then Err(Syntax)
    else
      var magnitude: int := DigitsValue(body[..k]);
      var v := if signed && s[0] == '-' then -magnitude else magnitude;
      if v < Int64Min || Int64Max < v then Err(Range)
      else Ok((v, body[k..]))
  }

  /**
   * The `%d` verb of `fmt.Sscanf`: white space is skipped, a newline or
   * the end of the input is refused, and then a token is read as
   * `ScanToken` reads it (the digit set of `%d` has no `_`). A sign with
   * nothing after it reaches the end of the input where a digit is
   * required, which `fmt` reports as an unexpected end of input rather
   * than as a malformed number.
   */
  function ScanInt(s: string): (r: Result<(int, string), NumError>)
    ensures r.Ok? ==> Int64Min <= r.value.0 <= Int64Max
    ensures r.Ok? ==> |r.value.1| < |s| && r.value.1 == s[|s| - |r.value.1|..]
    ensures r.Ok? ==> r.value.1 == [] || !IsDigit(r.value.1[0])
    ensures SpaceRun(s) == |s| ==> r == Err(UnexpectedEof)
    ensures SpaceRun(s) < |s| && s[SpaceRun(s)] == '\n' ==> r == Err(UnexpectedNewline)
    ensures (SpaceRun(s) + 1 == |s| && (s[SpaceRun(s)] == '+' || s[SpaceRun(s)] == '-'))
              ==> r == Err(UnexpectedEof)
    ensures (r.Err? && r.error == UnexpectedEof)
              ==> (|| SpaceRun(s) == |s|
                   || (SpaceRun(s) + 1 == |s| && (s[SpaceRun(s)] == '+' || s[SpaceRun(s)] == '-')))
  {
    var k := SpaceRun(s);
    var r := ScanNoSpace(s[k..]);
    assert r.Ok? ==> r.value.1 == s[k..][|s[k..]| - |r.value.1|..] == s[|s| - |r.value.1|..];
    r
  }

  /** `ScanInt` once the white space is skipped. */
  function ScanNoSpace(t: string): (r: Result<(int, string), NumError>)
    ensures r.Ok? ==> |r.value.1| < |t| && r.value.1 == t[|t| - |r.value.1|..]
  {
    if t == [] then Err(UnexpectedEof)
    else if t[0] == '\n' then Err(UnexpectedNewline)
    else if t == "+" || t == "-" then Err(UnexpectedEof)
    else ScanToken(t)
  }

  /** Leading white space is skipped: it does not change what `%d` reads. */
  lemma {:induction false} ScanIntSkipsSpace(sp: string, s: string)
    requires forall i :: 0 <= i < |sp| ==> IsScanSpace(sp[i])
    ensures ScanInt(sp + s) == ScanInt(s)
  {
    SpaceRunAfterSpace(sp, s);
    var t := s[SpaceRun(s)..];
    assert (sp + s)[SpaceRun(sp + s)..] == t;
    calc {
      ScanInt(sp + s);
      ScanNoSpace((sp + s)[SpaceRun(sp + s)..]);
      ScanNoSpace(t);
      ScanInt(s);
    }
  }

  lemma {:induction false} SpaceRunAfterSpace(sp: string, s: string)
    requires forall i :: 0 <= i < |sp| ==> IsScanSpace(sp[i])
    ensures SpaceRun(sp + s) == |sp| + SpaceRun(s)
    decreases |sp|
  {
    if sp == [] {
      assert sp + s == s;
    } else {
      assert (sp + s)[0] == sp[0] && (sp + s)[1..] == sp[1..] + s;
      SpaceRunAfterSpace(sp[1..], s);
    }
  }

  /**
   * A lone sign is an unexpected end of input for `%d`, before or after
   * white space, while for `Atoi` it is a malformed number.
   */
  lemma LoneSignIsEof()
    ensures ScanInt("-") == Err(UnexpectedEof) && ScanInt("+") == Err(UnexpectedEof)
    ensures ScanInt(" -") == Err(UnexpectedEof)
    ensures ScanInt("-x") == Err(Syntax)
    ensures Atoi("-") == Err(Syntax)
  {
    assert SpaceRun(" -") == 1 by {
      assert SpaceRun(" -"[1..]) == 0;
    }
    assert DigitRun("x") == 0;
  }

  /** `%d` stops at `_`: `1_` reads as 1 with `_` left unread. */
  lemma UnderscoreEndsNumber()
    ensures ScanInt("1_") == Ok((1, "_"))
  {
    assert SpaceRun("1_") == 0;
    assert DigitRun("_") == 0;
    assert DigitRun("1_") == 1;
    assert DigitsValue("1") == 1;
  }

  /** `strconv.Atoi`: the whole string must be one signed decimal integer, with no white space. */
  function Atoi(s: string): (r: Result<int, NumError>)
    ensures r.Ok? ==> Int64Min <= r.value <= Int64Max
    ensures r.Ok? <==> ScanToken(s).Ok? && ScanToken(s).value.1 == []
  {
    match ScanToken(s)
    case Err(e) => Err(e)
    case Ok((v, rest)) => if rest == [] then Ok(v) else Err(Syntax)
  }

  /** A rendered number reads back as a token that stops exactly where the digits stop. */
  lemma ScanTokenRender(n: nat, rest: string)
    requires n <= Int64Max
    requires rest == [] || !IsDigit(rest[0])
    ensures ScanToken(Render(n) + rest) == Ok((n, rest))
  {
    var s := Render(n) + rest;
    assert s[0] == Render(n)[0];
    DigitRunOfDigits(Render(n), rest);
    assert s[..|Render(n)|] == Render(n);
    ParseRender(n);
    assert s[|Render(n)|..] == rest;
  }

  /** Reading back a rendered number with `%d` stops exactly where the digits stop. */
  lemma ScanRender(n: nat, rest: string)
    requires n <= Int64Max
    requires rest == [] || !IsDigit(rest[0])
    ensures ScanInt(Render(n) + rest) == Ok((n, rest))
  {
    var s := Render(n) + rest;
    assert s[0] == Render(n)[0];
    assert SpaceRun(s) == 0;
    assert s[0..] == s;
    ScanTokenRender(n, rest);
  }

  lemma AtoiRender(n: nat)
    requires n <= Int64Max
    ensures Atoi(Render(n)) == Ok(n)
  {
    ScanTokenRender(n, []);
    assert Render(n) + [] == Render(n);
  }
}
