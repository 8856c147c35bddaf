/**
 * The parts of JavaScript's number <-> text conversions that the server relies on:
 * `Number.prototype.toString(radix)` for non-negative integers, `String.prototype.padStart`
 * with a one-character filler, and the global `parseInt` without a radix argument.
 * Numbers are mathematical integers here; `NaN` is an explicit case.
 */
module JsText {

  /** The result of `parseInt`: either NaN or an integer. */
  datatype JsInt = NaN | Int(value: int)

  /** Characters `parseInt` skips before the number (ECMAScript WhiteSpace and LineTerminator). */
  predicate IsJsSpace(c: char) {
    var k := c as int;
    k == 0x09 || k == 0x0A || k == 0x0B || k == 0x0C || k == 0x0D || k == 0x20 || k == 0xA0
    || k == 0x1680 || (0x2000 <= k <= 0x200A) || k == 0x2028 || k == 0x2029 || k == 0x202F
    || k == 0x205F || k == 0x3000 || k == 0xFEFF
  }

  /** The value of an alphanumeric character as a digit (0-35); 36 for any other character. */
  function DigitValue(c: char): (d: nat)
    ensures d <= 36
  {
    if '0' <= c <= '9' then c as int - '0' as int
    else if 'a' <= c <= 'z' then c as int - 'a' as int + 10
    else if 'A' <= c <= 'Z' then c as int - 'A' as int + 10
    else 36
  }

  predicate IsDigitIn(c: char, radix: nat) {
    DigitValue(c) < radix
  }

  predicate IsDecimalDigit(c: char) {
    '0' <= c <= '9'
  }

  /** The characters `toString(radix)` writes for radices up to 16: `0`-`9` and `a`-`f`. */
  predicate IsLowerHexDigit(c: char) {
    '0' <= c <= '9' || 'a' <= c <= 'f'
  }

  /** The lower-case digit character for `d`, as `toString(radix)` writes it. */
  function DigitChar(d: nat): (c: char)
    requires d < 16
    ensures DigitValue(c) == d && IsLowerHexDigit(c)
  {
    if d < 10 then ('0' as int + d) as char else ('a' as int + d - 10) as char
  }

  /** The value of a digit string, most significant digit first. */
  function ValueIn(s: string, radix: nat): nat {
    if s == [] then 0 else ValueIn(s[..|s| - 1], radix) * radix + DigitValue(s[|s| - 1])
  }

  /** `n.toString(radix)` for a non-negative integer `n`. */
  function NatToText(n: nat, radix: nat): (r: string)
    requires 2 <= radix <= 16
    ensures |r| >= 1 && forall i :: 0 <= i < |r| ==> IsLowerHexDigit(r[i])
    decreases n
  {
    if n < radix then [DigitChar(n)]
    else
      DivMod(n, radix);
      var p := NatToText(n / radix, radix);
      LowerHexSnoc(p, DigitChar(n % radix));
      p + [DigitChar(n % radix)]
  }

  lemma LowerHexSnoc(p: string, c: char)
    requires forall i :: 0 <= i < |p| ==> IsLowerHexDigit(p[i])
    requires IsLowerHexDigit(c)
    ensures forall i :: 0 <= i < |p + [c]| ==> IsLowerHexDigit((p + [c])[i])
  {
    forall i | 0 <= i < |p + [c]| ensures IsLowerHexDigit((p + [c])[i]) {
      if i < |p| {
        assert (p + [c])[i] == p[i];
      }
    }
  }

  /** `n.toString()` for an integer `n`: a minus sign exactly for negative numbers. */
  function IntToText(n: int): (r: string)
    ensures |r| >= 2 || (|r| == 1 && n >= 0)
    ensures r[0] == '-' <==> n < 0
  {
    if n < 0 then "-" + NatToText(-n, 10) else NatToText(n, 10)
  }

  function Repeat(c: char, k: nat): (r: string)
    ensures |r| == k && forall i :: 0 <= i < k ==> r[i] == c
  {
    if k == 0 then [] else [c] + Repeat(c, k - 1)
  }

  /** `s.padStart(width, [fill])`. */
  function PadStart(s: string, width: nat, fill: char): (r: string)
    ensures |s| >= width ==> r == s
    ensures |s| < width ==> |r| == width && r[width - |s|..] == s
    ensures forall i :: 0 <= i < |r| - |s| ==> r[i] == fill
  {
    if |s| >= width then s else Repeat(fill, width - |s|) + s
  }

  /** Drops the leading characters `parseInt` skips. */
  function TrimStart(s: string): (r: string)
    ensures |r| <= |s| && r == s[|s| - |r|..]
    ensures r == [] || !IsJsSpace(r[0])
    ensures forall i :: 0 <= i < |s| - |r| ==> IsJsSpace(s[i])
  {
    if s != [] && IsJsSpace(s[0]) then
      var r := TrimStart(s[1..]);
      TrimStep(s, r);
      r
    else s
  }

  /** Skipping one white-space character keeps what the rest of the skipping promises. */
  lemma TrimStep(s: string, r: string)
    requires s != [] && IsJsSpace(s[0])
    requires |r| <= |s[1..]| && r == s[1..][|s[1..]| - |r|..]
    requires forall i :: 0 <= i < |s[1..]| - |r| ==> IsJsSpace(s[1..][i])
    ensures |r| <= |s| && r == s[|s| - |r|..]
    ensures forall i :: 0 <= i < |s| - |r| ==> IsJsSpace(s[i])
  {
    assert s[1..][|s[1..]| - |r|..] == s[|s| - |r|..];
    forall i | 0 <= i < |s| - |r| ensures IsJsSpace(s[i]) {
      if i > 0 {
        assert s[i] == s[1..][i - 1];
      }
    }
  }

  /** The length of the longest prefix of `s` made of digits of the given radix. */
  function DigitRun(s: string, radix: nat): (n: nat)
    ensures n <= |s|
    ensures forall i :: 0 <= i < n ==> IsDigitIn(s[i], radix)
    ensures n < |s| ==> !IsDigitIn(s[n], radix)
  {
    if s != [] && IsDigitIn(s[0], radix) then 1 + DigitRun(s[1..], radix) else 0
  }

  /**
   * The global `parseInt(text)` with no radix: skip leading white space, take one optional
   * sign, then read the magnitude. No digits at all gives NaN.
   */
  function ParseInt(text: string): (r: JsInt)
    ensures r.Int? ==> exists i :: 0 <= i < |text| && IsDecimalDigit(text[i])
  {
    var s := TrimStart(text);
    var r := ParseSigned(s);
    assert r.Int? ==> exists i :: 0 <= i < |text| && IsDecimalDigit(text[i]) by {
      if r.Int? {
        var j :| 0 <= j < |s| && IsDecimalDigit(s[j]);
        assert s[j] == text[|text| - |s| + j];
      }
    }
    r
  }

  /** `parseInt` after the white space: one optional sign, then the magnitude. */
  function ParseSigned(s: string): (r: JsInt)
    ensures r.Int? ==> exists i :: 0 <= i < |s| && IsDecimalDigit(s[i])
  {
    if s != [] && s[0] == '-' then Negate(ParseMagnitude(s[1..]))
    else if s != [] && s[0] == '+' then ParseMagnitude(s[1..])
    else ParseMagnitude(s)
  }

  /** The sign change `-v`, which keeps NaN. */
  function Negate(j: JsInt): JsInt {
    match j
    case NaN => NaN
    case Int(v) => Int(-v)
  }

  /**
   * The unsigned part of `parseInt`: radix 16 after a `0x`/`0X` prefix, radix 10 otherwise,
   * then the longest run of digits of that radix.
   */
  function ParseMagnitude(u: string): (r: JsInt)
    ensures r.Int? ==> r.value >= 0
    ensures r.Int? ==> u != [] && IsDecimalDigit(u[0])
  {
    var hex := |u| >= 2 && u[0] == '0' && (u[1] == 'x' || u[1] == 'X');
    var radix := if hex then 16 else 10;
    var body := if hex then u[2..] else u;
    var z := body[..DigitRun(body, radix)];
    if z == [] then NaN else Int(ValueIn(z, radix))
  }

  // ---------------------------------------------------------------------------
  // Facts about the conversions

  /** `toString(radix)` writes only digits of that radix, at least one, and they denote `n`. */
  lemma {:induction false} NatToTextDenotes(n: nat, radix: nat)
    requires 2 <= radix <= 16
    ensures |NatToText(n, radix)| >= 1
    ensures forall i :: 0 <= i < |NatToText(n, radix)| ==> IsDigitIn(NatToText(n, radix)[i], radix)
    ensures ValueIn(NatToText(n, radix), radix) == n
    decreases n
  {
    if n >= radix {
      var q, d := n / radix, n % radix;
      NatToTextStep(n, radix);
      NatToTextDenotes(q, radix);
      var p := NatToText(q, radix);
      var c := DigitChar(d);
      ValueInSnoc(p, c, radix);
      Recombine(ValueIn(p, radix), q, DigitValue(c), d, radix, n);
      DigitsSnoc(p, c, radix);
    } else {
      ValueInSnoc([], DigitChar(n), radix);
      assert [] + [DigitChar(n)] == [DigitChar(n)];
    }
  }

  /** One step of `toString(radix)`: the rendering of the quotient, then the last digit. */
  lemma NatToTextStep(n: nat, radix: nat)
    requires 2 <= radix <= 16 && n >= radix
    ensures n / radix < n && n % radix < radix
    ensures n == (n / radix) * radix + n % radix
    ensures NatToText(n, radix) == NatToText(n / radix, radix) + [DigitChar(n % radix)]
  {
    DivMod(n, radix);
  }

  lemma DivMod(n: nat, radix: nat)
    requires radix >= 2
    ensures n % radix < radix && n == (n / radix) * radix + n % radix
    ensures n >= radix ==> 1 <= n / radix < n
  {
  }

  lemma Recombine(v: nat, q: nat, e: nat, d: nat, radix: nat, n: nat)
    requires v == q && e == d && n == q * radix + d
    ensures v * radix + e == n
  {
  }

  lemma DigitsSnoc(p: string, c: char, radix: nat)
    requires forall i :: 0 <= i < |p| ==> IsDigitIn(p[i], radix)
    requires IsDigitIn(c, radix)
    ensures forall i :: 0 <= i < |p + [c]| ==> IsDigitIn((p + [c])[i], radix)
  {
    forall i | 0 <= i < |p + [c]| ensures IsDigitIn((p + [c])[i], radix) {
      if i < |p| {
        assert (p + [c])[i] == p[i];
      }
    }
  }

  /** Appending a digit scales the value by the radix and adds the digit. */
  lemma ValueInSnoc(p: string, c: char, radix: nat)
    ensures ValueIn(p + [c], radix) == ValueIn(p, radix) * radix + DigitValue(c)
  {
    var s := p + [c];
    assert s[..|s| - 1] == p;
  }


  /** Digits other than the decimal ones never start a decimal rendering. */
  lemma DecimalDigitsAreDecimal(s: string)
    requires forall i :: 0 <= i < |s| ==> IsDigitIn(s[i], 10)
    ensures forall i :: 0 <= i < |s| ==> IsDecimalDigit(s[i]) && !IsJsSpace(s[i])
  {
  }

  /** A string whose first character is not alphanumeric stops a digit run. */
  lemma {:induction false} DigitRunOfDigitsThen(d: string, rest: string, radix: nat)
    requires forall i :: 0 <= i < |d| ==> IsDigitIn(d[i], radix)
    requires rest == [] || !IsDigitIn(rest[0], radix)
    ensures DigitRun(d + rest, radix) == |d|
    decreases |d|
  {
    if d != [] {
      assert (d + rest)[1..] == d[1..] + rest;
      DigitRunOfDigitsThen(d[1..], rest, radix);
    } else {
      assert d + rest == rest;
    }
  }

  /**
   * Reading back what `toString()` wrote: `parseInt(String(n) + rest)` is `n` when `rest`
   * does not continue the number (it is empty or starts with a character that is not
   * alphanumeric, such as a line break).
   */
  lemma ParseIntRoundTrip(n: int, rest: string)
    requires rest == [] || DigitValue(rest[0]) == 36
    ensures ParseInt(IntToText(n) + rest) == Int(n)
  {
    var m: nat := if n < 0 then -n else n;
    var u := NatToText(m, 10) + rest;
    MagnitudeOfNatText(m, rest);
    if n < 0 {
      assert IntToText(n) + rest == "-" + u;
      NegativeParse(u, m);
    } else {
      assert IntToText(n) + rest == u;
      UnsignedParse(u, m);
    }
  }

  /** `toString` of a magnitude, followed by a non-digit, reads back as that magnitude. */
  lemma MagnitudeOfNatText(m: nat, rest: string)
    requires rest == [] || DigitValue(rest[0]) == 36
    ensures var u := NatToText(m, 10) + rest; u != [] && IsDecimalDigit(u[0]) && ParseMagnitude(u) == Int(m)
  {
    var d := NatToText(m, 10);
    NatToTextDenotes(m, 10);
    DecimalDigitsAreDecimal(d);
    MagnitudeOfDecimal(d, rest);
  }

  /** A leading minus sign negates the magnitude that follows it. */
  lemma NegativeParse(u: string, m: nat)
    requires u != [] && IsDecimalDigit(u[0]) && ParseMagnitude(u) == Int(m as int)
    ensures ParseInt("-" + u) == Int(-(m as int))
  {
    var text := "-" + u;
    NoSpaceFirst(text);
    assert text[0] == '-' && text[1..] == u;
  }

  /** Text that starts with a decimal digit is read as an unsigned magnitude. */
  lemma UnsignedParse(u: string, m: nat)
    requires u != [] && IsDecimalDigit(u[0]) && ParseMagnitude(u) == Int(m as int)
    ensures ParseInt(u) == Int(m as int)
  {
    NoSpaceFirst(u);
  }

  lemma NoSpaceFirst(text: string)
    requires text != [] && (text[0] == '-' || IsDecimalDigit(text[0]))
    ensures TrimStart(text) == text
  {
  }

  /** Decimal digits followed by a non-alphanumeric character or nothing read back as their value. */
  lemma MagnitudeOfDecimal(d: string, rest: string)
    requires |d| >= 1 && forall i :: 0 <= i < |d| ==> IsDigitIn(d[i], 10)
    requires rest == [] || DigitValue(rest[0]) == 36
    ensures ParseMagnitude(d + rest) == Int(ValueIn(d, 10))
  {
    var u := d + rest;
    NoHexPrefix(d, rest);
    DecimalMagnitude(u);
    DigitRunOfDigitsThen(d, rest, 10);
    assert u[..|d|] == d;
  }

  /** Decimal digits followed by a non-alphanumeric character never start with `0x`. */
  lemma NoHexPrefix(d: string, rest: string)
    requires |d| >= 1 && forall i :: 0 <= i < |d| ==> IsDigitIn(d[i], 10)
    requires rest == [] || DigitValue(rest[0]) == 36
    ensures var u := d + rest; |u| >= 2 ==> u[1] != 'x' && u[1] != 'X'
  {
    var u := d + rest;
    if |d| >= 2 {
      assert u[1] == d[1];
    } else if |u| >= 2 {
      assert u[1] == rest[0];
    }
  }

  /** Without a `0x` prefix the magnitude is read in radix 10. */
  lemma DecimalMagnitude(u: string)
    requires |u| >= 2 ==> u[1] != 'x' && u[1] != 'X'
    ensures ParseMagnitude(u) ==
      if DigitRun(u, 10) == 0 then NaN else Int(ValueIn(u[..DigitRun(u, 10)], 10))
  {
  }

  /** Leading zeros add nothing to a digit string's value. */
  lemma {:induction false} ValueOfZeroPadded(k: nat, s: string, radix: nat)
    ensures ValueIn(Repeat('0', k) + s, radix) == ValueIn(s, radix)
    decreases |s|
  {
    var t := Repeat('0', k) + s;
    if s == [] {
      assert t == Repeat('0', k);
      ValueOfZeros(k, radix);
    } else {
      assert t[..|t| - 1] == Repeat('0', k) + s[..|s| - 1];
      ValueOfZeroPadded(k, s[..|s| - 1], radix);
    }
  }

  lemma {:induction false} ValueOfZeros(k: nat, radix: nat)
    ensures ValueIn(Repeat('0', k), radix) == 0
  {
    if k > 0 {
      var z := Repeat('0', k);
      assert z[..k - 1] == Repeat('0', k - 1);
      ValueOfZeros(k - 1, radix);
    }
  }

  function Pow(b: nat, e: nat): (r: nat)
    ensures b >= 1 ==> r >= 1
  {
    if e == 0 then 1 else b * Pow(b, e - 1)
  }

  /** A rendering in `k` digits stays below `radix^k`. */
  lemma {:induction false} NatToTextBelow(n: nat, radix: nat)
    requires 2 <= radix <= 16
    ensures n < Pow(radix, |NatToText(n, radix)|)
    decreases n
  {
    if n >= radix {
      var q := n / radix;
      NatToTextStep(n, radix);
      NatToTextBelow(q, radix);
      var k := |NatToText(q, radix)|;
      assert Pow(radix, k + 1) == radix * Pow(radix, k);
      BelowStep(n, q, n % radix, radix, Pow(radix, k));
    } else {
      assert NatToText(n, radix) == [DigitChar(n)];
      assert Pow(radix, 1) == radix;
    }
  }

  lemma BelowStep(n: nat, q: nat, d: nat, radix: nat, p: nat)
    requires n == q * radix + d && d < radix && q < p
    ensures n < radix * p
  {
    MulMono(q + 1, p, radix);
  }

  /** A number below `radix^j` needs at most `j` digits. */
  lemma {:induction false} NatToTextFits(n: nat, radix: nat, j: nat)
    requires 2 <= radix <= 16 && j >= 1 && n < Pow(radix, j)
    ensures |NatToText(n, radix)| <= j
    decreases n
  {
    if n >= radix {
      assert Pow(radix, 1) == radix;
      assert j >= 2;
      assert Pow(radix, j) == radix * Pow(radix, j - 1);
      NatToTextStep(n, radix);
      DivBelow(n, radix, Pow(radix, j - 1));
      NatToTextFits(n / radix, radix, j - 1);
    } else {
      assert NatToText(n, radix) == [DigitChar(n)];
    }
  }

  lemma DivBelow(n: nat, r: nat, p: nat)
    requires r >= 2 && n < r * p
    ensures n / r < p
  {
    DivBounds(n, r);
    if n / r >= p {
      MulMono(p, n / r, r);
    }
  }

  lemma DivBounds(n: nat, r: nat)
    requires r >= 2
    ensures (n / r) * r <= n < (n / r + 1) * r
  {
  }

  lemma MulMono(a: nat, b: nat, c: nat)
    requires a <= b
    ensures a * c <= b * c && c * a <= c * b
  {
  }
}
