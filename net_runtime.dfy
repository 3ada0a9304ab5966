/**
  The pieces of the .NET base library that the element-id text format relies on:
  32-bit integers, `Int32.ToString()` and `int.Parse(string)` (invariant culture,
  `NumberStyles.Integer`), and the exceptions those calls and their neighbours throw.
 */
module NetRuntime {
  import opened Wrappers

  const MinInt32: int := -0x8000_0000
  const MaxInt32: int := 0x7FFF_FFFF

  /** `System.Int32`, the type of `ElementId.IntegerValue`. */
  type Int32 = x: int | MinInt32 <= x <= MaxInt32

  /** The exceptions the modelled code can throw. */
  datatype Exception =
    | ArgumentNull        // Enumerable.First on a null list
    | ArgumentOutOfRange  // String.Remove(0, 2) on a string shorter than two code units
    | Format              // int.Parse on text that is not an integer
    | InvalidOperation    // Enumerable.First on an empty list
    | Overflow            // int.Parse on an integer outside the 32-bit range

  /**
    A .NET `string` is a sequence of UTF-16 code units. A character of the Basic Multilingual
    Plane takes one code unit; any other character takes two, a surrogate pair.
   */
  predicate IsBmp(c: char) { c as int < 0x1_0000 }

  /** `String.Length`: the number of UTF-16 code units of `s`. */
  function Utf16Length(s: string): (n: nat)
    ensures |s| <= n <= 2 * |s|
    ensures n == |s| <==> forall i | 0 <= i < |s| :: IsBmp(s[i])
  {
    if s == [] then 0 else (if IsBmp(s[0]) then 1 else 2) + Utf16Length(s[1..])
  }

  predicate IsDigit(c: char) { '0' <= c <= '9' }

  /** The characters `int.Parse` skips before and after the number: U+0009 to U+000D and the space. */
  predicate IsWhite(c: char) { c == ' ' || '\t' <= c <= '\r' }

  predicate AllDigits(s: string) { forall i | 0 <= i < |s| :: IsDigit(s[i]) }

  function DigitValue(c: char): (d: nat)
    requires IsDigit(c)
    ensures d < 10
  {
    c as int - '0' as int
  }

  function DigitChar(d: nat): (c: char)
    requires d < 10
    ensures IsDigit(c) && DigitValue(c) == d
  {
    ('0' as int + d) as char
  }

  /** The value of a string of decimal digits, most significant digit first. */
  function DigitsValue(s: string): nat
    requires AllDigits(s)
  {
    if s == [] then 0 else DigitsValue(s[..|s| - 1]) * 10 + DigitValue(s[|s| - 1])
  }

  /** The shortest decimal representation of `n`. */
  function NatDigits(n: nat): (s: string)
    ensures s != [] && AllDigits(s)
    ensures DigitsValue(s) == n
    ensures n == 0 <==> s[0] == '0'
    ensures |s| == 1 <==> n < 10
    ensures n == 0 ==> s == "0"
  {
    if n < 10 then [DigitChar(n)]
    else
      var p := NatDigits(n / 10);
      var s := p + [DigitChar(n % 10)];
      assert s[..|s| - 1] == p;
      s
  }

  /** `Int32.ToString()` in the invariant culture: a minus sign for negative values, then the digits. */
  function FormatInt32(n: Int32): (s: string)
    ensures s != []
    ensures forall i | 0 <= i < |s| :: IsDigit(s[i]) || s[i] == '-'
    ensures s[0] == '-' <==> n < 0
  {
    if n < 0 then "-" + NatDigits(-(n as int)) else NatDigits(n)
  }

  /** `s` with its leading white space removed. */
  function SkipWhite(s: string): (t: string)
    ensures |t| <= |s| && t == s[|s| - |t|..]
    ensures t == [] || !IsWhite(t[0])
  {
    if s != [] && IsWhite(s[0]) then SkipWhite(s[1..]) else s
  }

  /** The length of the run of digits that `s` starts with. */
  function DigitRun(s: string): (n: nat)
    ensures n <= |s| && AllDigits(s[..n])
    ensures n < |s| ==> !IsDigit(s[n])
  {
    if s == [] || !IsDigit(s[0]) then 0 else 1 + DigitRun(s[1..])
  }

  /** What `int.Parse` accepts after the digits: white space, then NUL characters. */
  predicate IsTrailer(s: string)
  {
    (forall i | 0 <= i < |s| :: s[i] == '\0') || (s != [] && IsWhite(s[0]) && IsTrailer(s[1..]))
  }

  /**
    `int.Parse(s)` with `NumberStyles.Integer` in the invariant culture: optional white space,
    an optional `+` or `-`, one or more decimal digits, optional white space, optional NULs.
    Text of any other shape throws `FormatException`; a well-formed value outside the
    32-bit range throws `OverflowException`.
   */
  function ParseInt32(s: string): (r: Result<Int32, Exception>)
    ensures r.Err? ==> r.error == Format || r.error == Overflow
    ensures (forall i | 0 <= i < |s| :: !IsDigit(s[i])) ==> r == Err(Format)
  {
    var t := SkipWhite(s);
    if t != [] && (t[0] == '-' || t[0] == '+') then
      assert t[1..] == s[|s| - |t| + 1..];
      ParseMagnitude(t[1..], t[0] == '-')
    else
      ParseMagnitude(t, false)
  }

  /** The part of `int.Parse` after the sign: the digits, the trailer and the range check. */
  function ParseMagnitude(u: string, negative: bool): (r: Result<Int32, Exception>)
    ensures r.Err? ==> r.error == Format || r.error == Overflow
    ensures (forall i | 0 <= i < |u| :: !IsDigit(u[i])) ==> r == Err(Format)
  {
    var n := DigitRun(u);
    if n == 0 || !IsTrailer(u[n..]) then Err(Format)
    else
      var magnitude := DigitsValue(u[..n]);
      var v: int := if negative then -(magnitude as int) else magnitude;
      if MinInt32 <= v <= MaxInt32 then Ok(v) else Err(Overflow)
  }

  /** `int.Parse` reads back exactly what `Int32.ToString` writes, negative values included. */
  lemma ParseFormat(n: Int32)
    ensures ParseInt32(FormatInt32(n)) == Ok(n)
  {
    var s := FormatInt32(n);
    assert SkipWhite(s) == s;
    if n < 0 {
      var d := NatDigits(-(n as int));
      assert s[1..] == d;
      ParseDigits(d, true);
    } else {
      ParseDigits(s, false);
    }
  }

  /** A run of digits, with nothing after it, reads as its value. */
  lemma ParseDigits(d: string, negative: bool)
    requires d != [] && AllDigits(d)
    requires MinInt32 <= (if negative then -(DigitsValue(d) as int) else DigitsValue(d)) <= MaxInt32
    ensures ParseMagnitude(d, negative) == Ok(if negative then -(DigitsValue(d) as int) else DigitsValue(d))
  {
    DigitRunOfDigits(d);
    assert d[|d|..] == [];
    assert d[..|d|] == d;
  }

  lemma {:induction false} DigitRunOfDigits(s: string)
    requires AllDigits(s)
    ensures DigitRun(s) == |s|
  {
    if s != [] {
      DigitRunOfDigits(s[1..]);
    }
  }

  /** A decimal number above the 32-bit range makes `int.Parse` throw `OverflowException`. */
  lemma ParseOverflow(n: nat)
    requires n > MaxInt32
    ensures ParseInt32(NatDigits(n)) == Err(Overflow)
  {
    var d := NatDigits(n);
    assert SkipWhite(d) == d && d[0] != '-' && d[0] != '+';
    DigitRunOfDigits(d);
    assert d[|d|..] == [];
    assert d[..|d|] == d;
  }

  /** A negative decimal number below the 32-bit range makes `int.Parse` throw `OverflowException` too. */
  lemma ParseUnderflow(n: nat)
    requires -(n as int) < MinInt32
    ensures ParseInt32("-" + NatDigits(n)) == Err(Overflow)
  {
    var d := NatDigits(n);
    var s := "-" + d;
    assert SkipWhite(s) == s && s[1..] == d;
    DigitRunOfDigits(d);
    assert d[|d|..] == [];
    assert d[..|d|] == d;
  }
}
