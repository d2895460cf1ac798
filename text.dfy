/**
 * Text conversions shared by the CSV readers and writers of the model:
 * decimal and hexadecimal digits, Python's `int()` / `float()` on the plain
 * forms the data files use, Rust's `u32::from_str`, zero padding and
 * splitting on a separator.
 */
module Text {
  import opened Wrappers
  import opened MachineInts

  predicate IsDigit(c: char) { '0' <= c <= '9' }

  function DigitValue(c: char): (d: nat)
    requires IsDigit(c)
    ensures d <= 9
  {
    c as int - '0' as int
  }

  /** The digit character for `d`; `DigitValue` inverts it. */
  function DigitChar(d: nat): (c: char)
    requires d <= 9
    ensures IsDigit(c) && DigitValue(c) == d
  {
    ('0' as int + d) as char
  }

  predicate AllDigits(s: string)
  {
    forall i :: 0 <= i < |s| ==> IsDigit(s[i])
  }

  /** The value of a string of decimal digits, most significant first. */
  function DigitsValue(s: string): nat
    requires AllDigits(s)
  {
    if s == [] then 0 else 10 * DigitsValue(s[..|s| - 1]) + DigitValue(s[|s| - 1])
  }

  /** Decimal rendering of a natural number (Python `str`, Rust `to_string` / `{}`). */
  function Decimal(n: nat): (s: string)
    ensures |s| >= 1 && AllDigits(s)
  {
    if n < 10 then [DigitChar(n)] else Decimal(n / 10) + [DigitChar(n % 10)]
  }

  lemma {:induction false} DecimalValue(n: nat)
    ensures DigitsValue(Decimal(n)) == n
  {
    if n >= 10 {
      var s := Decimal(n);
      assert s[..|s| - 1] == Decimal(n / 10);
      DecimalValue(n / 10);
    }
  }

  /** A rendering has no leading zero unless it is "0". */
  lemma {:induction false} DecimalNoLeadingZero(n: nat)
    ensures Decimal(n)[0] == '0' <==> n == 0
  {
    if n >= 10 {
      DecimalNoLeadingZero(n / 10);
      assert Decimal(n)[0] == Decimal(n / 10)[0];
    }
  }

  /** Decimal rendering of an integer, with a leading '-' when negative. */
  function IntDecimal(i: int): string
  {
    if i < 0 then "-" + Decimal(-i) else Decimal(i)
  }

  /** Left-pads with '0' to `width` characters (`{:02}` in Rust, `{:02d}` in Python). */
  function ZeroPad(s: string, width: nat): (r: string)
    ensures |r| == if |s| >= width then |s| else width
    ensures r[|r| - |s|..] == s
    ensures forall i :: 0 <= i < |r| - |s| ==> r[i] == '0'
  {
    if |s| >= width then s
    else
      var pad := seq(width - |s|, _ => '0');
      assert (pad + s)[|pad|..] == s;
      pad + s
  }

  /**
   * Python's `int(s)` on the forms the data files contain: an optional sign
   * followed by one or more decimal digits. None is the ValueError.
   */
  function PyInt(s: string): (r: Option<int>)
    ensures r.Some? <==> (AllDigits(s) && |s| > 0) || (|s| > 1 && (s[0] == '+' || s[0] == '-') && AllDigits(s[1..]))
  {
    if |s| > 1 && (s[0] == '+' || s[0] == '-') && AllDigits(s[1..]) then
      Some(if s[0] == '-' then -(DigitsValue(s[1..]) as int) else DigitsValue(s[1..]))
    else if |s| > 0 && AllDigits(s) then
      Some(DigitsValue(s))
    else
      None
  }

  lemma PyIntDecimal(i: int)
    ensures PyInt(IntDecimal(i)) == Some(i)
  {
    if i < 0 {
      PyIntNegativeDecimal(i);
    } else {
      var s := Decimal(i);
      assert IsDigit(s[0]);
      DecimalValue(i);
    }
  }

  lemma PyIntNegativeDecimal(i: int)
    requires i < 0
    ensures PyInt(IntDecimal(i)) == Some(i)
  {
    DecimalValue(-i);
    PyIntMinus(IntDecimal(i), Decimal(-i), -i);
  }

  /** A minus sign before the digits of `n` reads as -n. */
  lemma PyIntMinus(s: string, d: string, n: nat)
    requires |d| > 0 && AllDigits(d) && s == "-" + d && DigitsValue(d) == n
    ensures PyInt(s) == Some(-(n as int))
  {
    assert s[0] == '-' && s[1..] == d;
  }

  /**
   * Rust's `u32::from_str`: an optional '+', then one or more decimal digits
   * whose value fits in 32 bits. None is the ParseIntError.
   */
  function ParseU32(s: string): (r: Option<nat>)
    ensures r.Some? ==> r.value <= U32_MAX
  {
    var digits := if |s| > 0 && s[0] == '+' then s[1..] else s;
    if |digits| > 0 && AllDigits(digits) && DigitsValue(digits) <= U32_MAX then Some(DigitsValue(digits)) else None
  }

  lemma ParseU32Decimal(n: nat)
    requires n <= U32_MAX
    ensures ParseU32(Decimal(n)) == Some(n)
  {
    DecimalValue(n);
  }

  /** A run of leading zeros does not change the value that `ParseU32` reads. */
  lemma {:induction false} DigitsValueLeadingZeros(z: string, s: string)
    requires AllDigits(z) && AllDigits(s) && forall i :: 0 <= i < |z| ==> z[i] == '0'
    ensures AllDigits(z + s) && DigitsValue(z + s) == DigitsValue(s)
  {
    if s == [] {
      DigitsValueZeros(z);
      assert z + s == z;
    } else {
      assert (z + s)[..|z + s| - 1] == z + s[..|s| - 1];
      DigitsValueLeadingZeros(z, s[..|s| - 1]);
    }
  }

  lemma {:induction false} DigitsValueZeros(z: string)
    requires AllDigits(z) && forall i :: 0 <= i < |z| ==> z[i] == '0'
    ensures DigitsValue(z) == 0
  {
    if z != [] {
      DigitsValueZeros(z[..|z| - 1]);
    }
  }

  function Pow10(k: nat): (p: nat)
    ensures p >= 1
  {
    if k == 0 then 1 else 10 * Pow10(k - 1)
  }

  /**
   * Python's `float(s)` on decimal forms: an optional sign, digits with an
   * optional fraction after '.' and at least one digit in all, then an
   * optional exponent 'e' or 'E' with an optionally signed integer. None is
   * the ValueError.
   */
  function PyFloat(s: string): (r: Option<real>)
    ensures r.Some? ==> |s| > 0
    ensures |s| > 0 && AllDigits(s) ==> r == Some(DigitsValue(s) as real)
  {
    if |s| > 0 && AllDigits(s) then
      assert IsDigit(s[0]);
      UnsignedFloatDigits(s);
      Some(DigitsValue(s) as real)
    else
    var neg := |s| > 0 && s[0] == '-';
    var body := if |s| > 0 && (s[0] == '-' || s[0] == '+') then s[1..] else s;
    match UnsignedFloat(body)
    case Some(v) => Some(if neg then -v else v)
    case None => None
  }

  /** `float` after the sign: a mantissa, then an optional exponent. */
  function UnsignedFloat(body: string): (r: Option<real>)
    ensures r.Some? ==> |body| > 0
  {
    var ecut := ExponentAt(body);
    var exp := if ecut < |body| then PyInt(body[ecut + 1..]) else Some(0);
    var m := Mantissa(body[..ecut]);
    if m.Some? && exp.Some? then Some(TimesTenTo(m.value, exp.value)) else None
  }

  /** Digits with an optional fraction after '.', at least one digit in all. */
  function Mantissa(mant: string): (r: Option<real>)
    ensures r.Some? ==> |mant| > 0
  {
    var cut := Find(mant, '.');
    var whole := if cut < |mant| then mant[..cut] else mant;
    var frac := if cut < |mant| then mant[cut + 1..] else "";
    if AllDigits(whole) && AllDigits(frac) && |whole| + |frac| > 0 then
      Some(DigitsValue(whole) as real + TimesTenTo(DigitsValue(frac) as real, -|frac|))
    else
      None
  }

  /** Index of the first 'e' or 'E' in `s`, or `|s|` when there is none. */
  function ExponentAt(s: string): (k: nat)
    ensures k <= |s|
    ensures k < |s| ==> s[k] == 'e' || s[k] == 'E'
    ensures forall i :: 0 <= i < k ==> s[i] != 'e' && s[i] != 'E'
  {
    var e, E := Find(s, 'e'), Find(s, 'E');
    if e <= E then e else E
  }

  /** `x` times ten to the power `e`, one factor of ten at a time. */
  function TimesTenTo(x: real, e: int): real
    decreases if e < 0 then -e else e
  {
    if e == 0 then x else if e > 0 then 10.0 * TimesTenTo(x, e - 1) else TimesTenTo(x, e + 1) / 10.0
  }

  /** Plain digits read as `float` give their value. */
  lemma UnsignedFloatDigits(d: string)
    requires |d| > 0 && AllDigits(d)
    ensures UnsignedFloat(d) == Some(DigitsValue(d) as real)
  {
    FindMissing(d, 'e');
    FindMissing(d, 'E');
    assert ExponentAt(d) == |d|;
    assert d[..|d|] == d;
    MantissaDigits(d);
  }

  lemma MantissaDigits(d: string)
    requires |d| > 0 && AllDigits(d)
    ensures Mantissa(d) == Some(DigitsValue(d) as real)
  {
    FindMissing(d, '.');
    assert AllDigits("") && DigitsValue("") == 0;
  }

  /** A mantissa, an exponent letter and an integer read as the mantissa scaled by ten to that integer. */
  lemma UnsignedFloatExponent(mant: string, letter: char, exp: string, v: real, e: int)
    requires letter == 'e' || letter == 'E'
    requires ExponentAt(mant) == |mant| && Mantissa(mant) == Some(v) && PyInt(exp) == Some(e)
    ensures UnsignedFloat(mant + [letter] + exp) == Some(TimesTenTo(v, e))
  {
    var body := mant + [letter] + exp;
    ExponentAfter(mant, letter, exp);
    assert body[..|mant|] == mant && body[|mant| + 1..] == exp;
    assert PyInt(body[|mant| + 1..]) == Some(e);
    assert Mantissa(body[..|mant|]) == Some(v);
  }

  lemma ExponentAfter(mant: string, letter: char, exp: string)
    requires letter == 'e' || letter == 'E'
    requires ExponentAt(mant) == |mant|
    ensures ExponentAt(mant + [letter] + exp) == |mant|
  {
    var body := mant + [letter] + exp;
    var k := ExponentAt(body);
    assert body[|mant|] == letter;
    assert forall i :: 0 <= i < |mant| ==> body[i] == mant[i];
  }

  lemma PyFloatDecimal(i: int)
    ensures PyFloat(IntDecimal(i)) == Some(i as real)
  {
    var n: nat := if i < 0 then -i else i;
    var body := Decimal(n);
    UnsignedFloatDigits(body);
    DecimalValue(n);
    assert IsDigit(body[0]);
    PyFloatOfUnsigned(body, i < 0, n as real);
    if i >= 0 {
      assert IntDecimal(i) == "" + body;
    }
  }

  /**
   * Exponent forms such as numpy's "1e-05" or "2.5E+3": a mantissa, an
   * exponent letter and an integer read as the mantissa scaled by ten to that
   * integer (a sign in front is `PyFloatOfUnsigned`).
   */
  lemma PyFloatExponentForm(mant: string, letter: char, exp: string, v: real, e: int)
    requires letter == 'e' || letter == 'E'
    requires ExponentAt(mant) == |mant| && Mantissa(mant) == Some(v) && PyInt(exp) == Some(e)
    ensures PyFloat(mant + [letter] + exp) == Some(TimesTenTo(v, e))
  {
    var body := mant + [letter] + exp;
    UnsignedFloatExponent(mant, letter, exp, v, e);
    MantissaUnsigned(mant);
    assert body[0] == mant[0];
    PyFloatOfUnsigned(body, false, TimesTenTo(v, e));
    assert "" + body == body;
  }

  /** `float` of an optional minus sign and an unsigned body is the body's value, negated after the sign. */
  lemma PyFloatOfUnsigned(body: string, negative: bool, v: real)
    requires |body| > 0 && body[0] != '-' && body[0] != '+' && UnsignedFloat(body) == Some(v)
    ensures PyFloat((if negative then "-" else "") + body) == Some(if negative then -v else v)
  {
    var s := (if negative then "-" else "") + body;
    if negative {
      assert s[0] == '-' && s[1..] == body;
    } else {
      assert s == body;
      if AllDigits(body) {
        UnsignedFloatDigits(body);
      }
    }
  }

  /** A mantissa starts with a digit or '.', never with a sign. */
  lemma MantissaUnsigned(mant: string)
    requires Mantissa(mant).Some?
    ensures |mant| > 0 && mant[0] != '-' && mant[0] != '+'
  {
    var cut := Find(mant, '.');
    if cut > 0 {
      var whole := if cut < |mant| then mant[..cut] else mant;
      assert whole[0] == mant[0];
    }
  }

  /** An exponent needs digits after it and a mantissa before it. */
  lemma PyFloatBadExponent()
    ensures PyFloat("1e") == None && PyFloat("e5") == None
  {
    assert ExponentAt("1e") == 1 && "1e"[2..] == "";
    assert ExponentAt("e5") == 0 && "e5"[..0] == "";
  }

  /** Index of the first `c` in `s`, or `|s|` when there is none. */
  function Find(s: string, c: char): (k: nat)
    ensures k <= |s|
    ensures k < |s| ==> s[k] == c
    ensures forall i :: 0 <= i < k ==> s[i] != c
  {
    if s == [] then 0 else if s[0] == c then 0 else 1 + Find(s[1..], c)
  }

  lemma FindMissing(s: string, c: char)
    requires AllDigits(s) && !IsDigit(c)
    ensures Find(s, c) == |s|
  {
  }

  predicate IsHexDigit(c: char)
  {
    IsDigit(c) || 'a' <= c <= 'f' || 'A' <= c <= 'F'
  }

  function HexValue(c: char): (d: nat)
    requires IsHexDigit(c)
    ensures d < 16
  {
    if IsDigit(c) then DigitValue(c)
    else if 'a' <= c <= 'f' then c as int - 'a' as int + 10
    else c as int - 'A' as int + 10
  }

  /** Lower-case hexadecimal digit for `d`; `HexValue` inverts it. */
  function HexChar(d: nat): (c: char)
    requires d < 16
    ensures IsHexDigit(c) && HexValue(c) == d
  {
    if d < 10 then DigitChar(d) else ('a' as int + d - 10) as char
  }

  predicate AllHex(s: string)
  {
    forall i :: 0 <= i < |s| ==> IsHexDigit(s[i])
  }

  function HexDigitsValue(s: string): nat
    requires AllHex(s)
  {
    if s == [] then 0 else 16 * HexDigitsValue(s[..|s| - 1]) + HexValue(s[|s| - 1])
  }

  /** Lower-case hexadecimal rendering of a natural number (Python `format(n, 'x')`). */
  function Hex(n: nat): (s: string)
    ensures |s| >= 1 && AllHex(s)
  {
    if n < 16 then [HexChar(n)] else Hex(n / 16) + [HexChar(n % 16)]
  }

  lemma {:induction false} HexDigitsValueOf(n: nat)
    ensures HexDigitsValue(Hex(n)) == n
  {
    if n >= 16 {
      var s := Hex(n);
      assert s[..|s| - 1] == Hex(n / 16);
      HexDigitsValueOf(n / 16);
    }
  }

  lemma {:induction false} HexLength(n: nat)
    ensures n < 256 ==> |Hex(n)| <= 2
    ensures n >= 16 ==> |Hex(n)| >= 2
  {
    if n >= 16 {
      HexLength(n / 16);
    }
  }

  /** Python's `format(n, '02x')`: zero padded to two digits; a negative value gets '-' and no padding. */
  function Hex02(n: int): (s: string)
    ensures |s| >= 2
    ensures n < 0 <==> s[0] == '-'
    ensures n >= 0 ==> AllHex(s)
    ensures 0 <= n < 256 ==> |s| == 2
  {
    HexLength(if n < 0 then -n else n);
    if n < 0 then "-" + Hex(-n) else ZeroPad(Hex(n), 2)
  }

  /**
   * Python's `int(s, 16)`: an optional sign, an optional "0x" / "0X" prefix,
   * then one or more hexadecimal digits. None is the ValueError.
   */
  function PyIntHex(s: string): (r: Option<int>)
    ensures r.Some? ==> |s| > 0 && IsHexDigit(s[|s| - 1])
    ensures r.Some? && r.value < 0 ==> s[0] == '-'
  {
    if |s| > 0 && s[0] == '-' then
      match PyHexMagnitude(s[1..]) case Some(v) => Some(-(v as int)) case None => None
    else if |s| > 0 && s[0] == '+' then
      match PyHexMagnitude(s[1..]) case Some(v) => Some(v as int) case None => None
    else
      match PyHexMagnitude(s) case Some(v) => Some(v as int) case None => None
  }

  /** The unsigned part of `int(s, 16)`: the optional prefix and the digits. */
  function PyHexMagnitude(body: string): (r: Option<nat>)
    ensures r.Some? ==> |body| > 0 && IsHexDigit(body[|body| - 1])
  {
    var digits := if |body| >= 2 && body[0] == '0' && (body[1] == 'x' || body[1] == 'X') then body[2..] else body;
    if |digits| > 0 && AllHex(digits) then Some(HexDigitsValue(digits)) else None
  }

  lemma PyHexMagnitudeDigits(d: string)
    requires |d| > 0 && AllHex(d)
    ensures PyHexMagnitude(d) == Some(HexDigitsValue(d))
  {
    assert |d| >= 2 ==> IsHexDigit(d[1]);
  }

  /** A string of hexadecimal digits that does not start with a sign or a "0x" prefix is read as its value. */
  lemma PyIntHexDigits(d: string)
    requires |d| > 0 && AllHex(d)
    ensures PyIntHex(d) == Some(HexDigitsValue(d) as int)
  {
    assert IsHexDigit(d[0]);
    assert |d| >= 2 ==> IsHexDigit(d[1]);
  }

  /** Reading back what `Hex02` wrote gives the number again, for every integer. */
  lemma PyIntHex02(n: int)
    ensures PyIntHex(Hex02(n)) == Some(n)
  {
    if n < 0 {
      PyIntHex02Negative(n);
    } else {
      HexDigitsValueOf(n);
      var h := Hex(n);
      if |h| < 2 {
        PaddedHexValue(h);
      } else {
        assert Hex02(n) == h;
        PyIntHexDigits(h);
      }
    }
  }

  lemma PyIntHex02Negative(n: int)
    requires n < 0
    ensures PyIntHex(Hex02(n)) == Some(n)
  {
    HexDigitsValueOf(-n);
    PyIntHexMinus(Hex02(n), Hex(-n), -n);
  }

  /** A minus sign before the hexadecimal digits of `n` reads as -n. */
  lemma PyIntHexMinus(s: string, d: string, n: nat)
    requires |d| > 0 && AllHex(d) && s == "-" + d && HexDigitsValue(d) == n
    ensures PyIntHex(s) == Some(-(n as int))
  {
    assert s[0] == '-' && s[1..] == d;
    PyHexMagnitudeDigits(d);
  }

  lemma PaddedHexValue(h: string)
    requires |h| == 1 && AllHex(h)
    ensures ZeroPad(h, 2) == "0" + h
    ensures PyIntHex("0" + h) == Some(HexDigitsValue(h) as int)
  {
    var s := "0" + h;
    assert s[1] == h[0] && s[0] == '0';
    assert AllHex(s);
    assert s[..1] == "0";
    assert HexDigitsValue("0") == 0 by {
      assert "0"[..0] == "";
    }
    assert HexDigitsValue(h) == HexValue(h[0]) by {
      assert h[..0] == "";
    }
    assert HexDigitsValue(s) == 16 * HexDigitsValue(s[..1]) + HexValue(s[1]);
    PyIntHexDigits(s);
  }

  /** `str.split(sep)` / Rust's `split(sep)`: the pieces between separators, at least one. */
  function Split(s: string, sep: char): (parts: seq<string>)
    ensures |parts| >= 1
    ensures forall k :: 0 <= k < |parts| ==> sep !in parts[k]
    decreases |s|
  {
    if s == [] then [[]]
    else
      var rest := Split(s[1..], sep);
      if s[0] == sep then [[]] + rest else [[s[0]] + rest[0]] + rest[1..]
  }

  function Join(parts: seq<string>, sep: char): string
  {
    if |parts| <= 1 then (if parts == [] then [] else parts[0])
    else parts[0] + [sep] + Join(parts[1..], sep)
  }

  /** Splitting loses nothing: joining the pieces with the separator gives the string back. */
  lemma {:induction false} SplitJoin(s: string, sep: char)
    ensures Join(Split(s, sep), sep) == s
    decreases |s|
  {
    if s != [] {
      var rest := Split(s[1..], sep);
      SplitJoin(s[1..], sep);
      if s[0] == sep {
        assert Split(s, sep)[1..] == rest;
      } else {
        var parts := Split(s, sep);
        if |rest| == 1 {
          assert parts == [[s[0]] + rest[0]];
        } else {
          assert parts[1..] == rest[1..];
        }
      }
    }
  }

  /** The number of occurrences of `c` in `s`. */
  function Count(s: string, c: char): nat
  {
    if s == [] then 0 else (if s[0] == c then 1 else 0) + Count(s[1..], c)
  }

  lemma {:induction false} SplitCount(s: string, sep: char)
    ensures |Split(s, sep)| == Count(s, sep) + 1
    decreases |s|
  {
    if s != [] {
      SplitCount(s[1..], sep);
    }
  }

  /** A string without the separator splits into itself. */
  lemma {:induction false} SplitWithout(s: string, sep: char)
    requires sep !in s
    ensures Split(s, sep) == [s]
    decreases |s|
  {
    if s != [] {
      assert sep !in s[1..];
      SplitWithout(s[1..], sep);
      assert [s[0]] + s[1..] == s;
    }
  }

  /** Every character of a piece is a character of the split string. */
  lemma {:induction false} SplitPieceChars(s: string, sep: char, k: nat, c: char)
    requires k < |Split(s, sep)| && c in Split(s, sep)[k]
    ensures c in s
    decreases |s|
  {
    if s != [] {
      var rest := Split(s[1..], sep);
      if s[0] == sep {
        if k > 0 {
          SplitPieceChars(s[1..], sep, k - 1, c);
        }
      } else if k > 0 {
        SplitPieceChars(s[1..], sep, k, c);
      } else if c != s[0] {
        SplitPieceChars(s[1..], sep, 0, c);
      }
    }
  }

  /** A separator after a separator-free prefix starts a new piece. */
  lemma {:induction false} SplitSeparated(a: string, b: string, sep: char)
    requires sep !in a
    ensures Split(a + [sep] + b, sep) == [a] + Split(b, sep)
    decreases |a|
  {
    var s := a + [sep] + b;
    if a == [] {
      assert s[0] == sep && s[1..] == b;
    } else {
      assert s[0] == a[0] && s[1..] == a[1..] + [sep] + b;
      assert sep !in a[1..];
      SplitSeparated(a[1..], b, sep);
      assert [a[0]] + a[1..] == a;
    }
  }

  /** Pieces without the separator are recovered by splitting their join. */
  lemma {:induction false} JoinSplit(parts: seq<string>, sep: char)
    requires |parts| >= 1 && forall k :: 0 <= k < |parts| ==> sep !in parts[k]
    ensures Split(Join(parts, sep), sep) == parts
    decreases |parts|
  {
    if |parts| == 1 {
      SplitWithout(parts[0], sep);
    } else {
      JoinSplit(parts[1..], sep);
      SplitSeparated(parts[0], Join(parts[1..], sep), sep);
      assert [parts[0]] + parts[1..] == parts;
    }
  }

  /** A zero-padded rendering of `n` still reads as `n`. */
  lemma PaddedDecimalValue(n: nat, width: nat)
    ensures AllDigits(ZeroPad(Decimal(n), width)) && |ZeroPad(Decimal(n), width)| > 0
    ensures PyInt(ZeroPad(Decimal(n), width)) == Some(n)
  {
    var d := Decimal(n);
    var r := ZeroPad(d, width);
    var z := r[..|r| - |d|];
    assert r == z + d;
    DigitsValueLeadingZeros(z, d);
    DecimalValue(n);
    assert IsDigit(r[0]);
  }

  /** `u32::from_str` reads a zero-padded rendering of `n` as `n`. */
  lemma ParseU32Padded(n: nat, width: nat)
    requires n <= U32_MAX
    ensures ParseU32(ZeroPad(Decimal(n), width)) == Some(n)
  {
    PaddedDecimalValue(n, width);
    var r := ZeroPad(Decimal(n), width);
    assert IsDigit(r[0]);
    assert DigitsValue(r) == n;
    ParseU32Digits(r);
  }

  /** `u32::from_str` of a non-empty digit string whose value fits. */
  lemma ParseU32Digits(s: string)
    requires |s| > 0 && AllDigits(s) && DigitsValue(s) <= U32_MAX
    ensures ParseU32(s) == Some(DigitsValue(s))
  {
    assert IsDigit(s[0]);
  }

  lemma JoinTwo(a: string, b: string, sep: char)
    ensures Join([a, b], sep) == a + [sep] + b
  {
    assert [a, b][1..] == [b];
  }

  lemma JoinThree(a: string, b: string, c: string, sep: char)
    ensures Join([a, b, c], sep) == a + [sep] + b + [sep] + c
  {
    assert [a, b, c][1..] == [b, c];
    JoinTwo(b, c, sep);
  }

  /** Two separator-free pieces around one separator. */
  lemma SplitPair(a: string, b: string, sep: char)
    requires sep !in a && sep !in b
    ensures Split(a + [sep] + b, sep) == [a, b]
  {
    SplitSeparated(a, b, sep);
    SplitWithout(b, sep);
  }

  /** Three separator-free pieces around two separators. */
  lemma SplitTriple(a: string, b: string, c: string, sep: char)
    requires sep !in a && sep !in b && sep !in c
    ensures Split(a + [sep] + b + [sep] + c, sep) == [a, b, c]
  {
    var bc := b + [sep] + c;
    SplitPair(b, c, sep);
    SplitSeparated(a, bc, sep);
    assert a + [sep] + b + [sep] + c == a + [sep] + bc;
  }
}
