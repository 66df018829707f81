/** Fixed-width integers and their decimal text: Rust's `u32` and C's
    `c_int`/`c_uint` ranges, `to_string()` for integers, and `u32::from_str`. */
module Numbers {
  import opened Wrappers

  const U32_MAX: nat := 0xFFFF_FFFF

  /** `u32`, and C's `unsigned int` on the targets the extension builds for. */
  type U32 = x: int | 0 <= x <= U32_MAX

  /** C's `int`. */
  type I32 = x: int | -0x8000_0000 <= x < 0x8000_0000

  predicate IsDigit(c: char) {
    '0' <= c <= '9'
  }

  function DigitValue(c: char): nat
    requires IsDigit(c)
  {
    c as int - '0' as int
  }

  function DigitChar(d: nat): (c: char)
    requires d < 10
    ensures IsDigit(c) && DigitValue(c) == d
  {
    ('0' as int + d) as char
  }

  predicate AllDigits(s: string) {
    forall k :: 0 <= k < |s| ==> IsDigit(s[k])
  }

  function Pow10(n: nat): (r: nat)
    ensures r >= 1
  {
    if n == 0 then 1 else 10 * Pow10(n - 1)
  }

  /** The number a string of decimal digits denotes, most significant digit
      first. */
  function DigitsValue(s: string): nat
    requires AllDigits(s)
    decreases |s|
  {
    if s == [] then 0 else DigitsValue(s[..|s| - 1]) * 10 + DigitValue(s[|s| - 1])
  }

  /** `n.to_string()` for an unsigned integer: its decimal digits, with no
      leading zero. */
  function Dec(n: nat): (r: string)
    ensures r != [] && AllDigits(r) && DigitsValue(r) == n
    ensures |r| > 1 ==> r[0] != '0'
    decreases n
  {
    if n < 10 then
      [DigitChar(n)]
    else
      var high := Dec(n / 10);
      var r := high + [DigitChar(n % 10)];
      assert r[..|r| - 1] == high;
      assert |high| == 1 ==> DigitsValue(high) == DigitValue(high[0]) by {
        if |high| == 1 { assert high[..0] == []; }
      }
      r
  }

  /** `i.to_string()` for a signed integer: a `-` before the digits of a
      negative value. */
  function IntToString(i: int): (r: string)
    ensures r != [] && (r[0] == '-' <==> i < 0)
    ensures i < 0 ==> r[1..] == Dec(-i)
    ensures i >= 0 ==> r == Dec(i)
  {
    if i < 0 then "-" + Dec(-i) else Dec(i)
  }

  /** The kinds of `ParseIntError` that `u32::from_str` reports. */
  datatype IntErrorKind = Empty | InvalidDigit | PosOverflow

  /** The digits `u32::from_str` reads: one leading `+` is allowed. */
  function Unsigned(s: string): string {
    if |s| > 0 && s[0] == '+' then s[1..] else s
  }

  /** The texts `u32::from_str` accepts: an optional `+`, then at least one
      decimal digit, denoting a value that fits in 32 bits. */
  predicate ValidU32Text(s: string) {
    var d := Unsigned(s);
    d != [] && AllDigits(d) && DigitsValue(d) <= U32_MAX
  }

  /** The digit loop of `from_str_radix`: a character that is not a digit
      stops it with `InvalidDigit`, an accumulated value above `u32::MAX`
      with `PosOverflow`. */
  function Accumulate(d: string, acc: U32): Result<U32, IntErrorKind>
    decreases |d|
  {
    if d == [] then Success(acc)
    else if !IsDigit(d[0]) then Failure(InvalidDigit)
    else
      var next := acc * 10 + DigitValue(d[0]);
      if next > U32_MAX then Failure(PosOverflow) else Accumulate(d[1..], next)
  }

  lemma {:induction false} DigitsValuePrepend(c: char, d: string)
    requires IsDigit(c) && AllDigits(d)
    ensures AllDigits([c] + d)
    ensures DigitsValue([c] + d) == DigitValue(c) * Pow10(|d|) + DigitsValue(d)
    decreases |d|
  {
    var s := [c] + d;
    if d == [] {
      assert s[..0] == [];
    } else {
      var init := d[..|d| - 1];
      var x := DigitValue(d[|d| - 1]);
      assert DigitsValue(s) == DigitsValue([c] + init) * 10 + x by {
        assert s[..|s| - 1] == [c] + init;
        assert s[|s| - 1] == d[|d| - 1];
      }
      assert DigitsValue(d) == DigitsValue(init) * 10 + x;
      DigitsValuePrepend(c, init);
      PrependStep(DigitValue(c), Pow10(|init|), DigitsValue(init), x);
    }
  }

  lemma PrependStep(c: nat, p: nat, v: nat, x: nat)
    ensures (c * p + v) * 10 + x == c * (10 * p) + (v * 10 + x)
  {
  }

  /** The digit loop computes `acc` followed by the digits of `d`, and fails
      exactly when a character is not a digit or that value overflows. */
  lemma {:induction false} AccumulateValue(d: string, acc: U32)
    ensures Accumulate(d, acc).Success? <==> AllDigits(d) && acc * Pow10(|d|) + DigitsValue(d) <= U32_MAX
    ensures Accumulate(d, acc).Success? ==> Accumulate(d, acc).value == acc * Pow10(|d|) + DigitsValue(d)
    decreases |d|
  {
    if d == [] {
    } else if !IsDigit(d[0]) {
    } else {
      var c, rest := d[0], d[1..];
      assert d == [c] + rest;
      var next := acc * 10 + DigitValue(c);
      var p := Pow10(|rest|);
      assert Pow10(|d|) == 10 * p;
      if AllDigits(d) {
        assert AllDigits(rest) by {
          forall k | 0 <= k < |rest| ensures IsDigit(rest[k]) { assert rest[k] == d[k + 1]; }
        }
        DigitsValuePrepend(c, rest);
        ShiftDigit(acc, DigitValue(c), p, DigitsValue(rest));
      } else if IsDigit(c) {
        var k :| 0 <= k < |d| && !IsDigit(d[k]);
        assert k > 0 && rest[k - 1] == d[k];
      }
      if next <= U32_MAX {
        AccumulateValue(rest, next);
      }
    }
  }

  /** Over digits alone the loop can only fail by overflowing. */
  lemma {:induction false} AccumulateDigits(d: string, acc: U32)
    ensures AllDigits(d) ==> Accumulate(d, acc).Success? || Accumulate(d, acc) == Failure(PosOverflow)
    decreases |d|
  {
    if d != [] && AllDigits(d) {
      assert IsDigit(d[0]);
      var next := acc * 10 + DigitValue(d[0]);
      if next <= U32_MAX {
        assert AllDigits(d[1..]) by {
          forall k | 0 <= k < |d[1..]| ensures IsDigit(d[1..][k]) { assert d[1..][k] == d[k + 1]; }
        }
        AccumulateDigits(d[1..], next);
      }
    }
  }

  /** The loop stops with `InvalidDigit` at the first character that is not a
      digit, provided the digits before it have not overflowed. */
  lemma {:induction false} AccumulateInvalid(d: string, acc: U32, k: nat)
    requires k < |d| && !IsDigit(d[k]) && AllDigits(d[..k])
    requires acc * Pow10(k) + DigitsValue(d[..k]) <= U32_MAX
    ensures Accumulate(d, acc) == Failure(InvalidDigit)
    decreases k
  {
    if k > 0 {
      var c, rest := d[0], d[1..];
      assert d[..k] == [c] + rest[..k - 1];
      assert IsDigit(c) by { assert d[..k][0] == c; }
      var init := rest[..k - 1];
      assert AllDigits(init) by {
        forall j | 0 <= j < |init| ensures IsDigit(init[j]) { assert init[j] == d[..k][j + 1]; }
      }
      var p := Pow10(k - 1);
      DigitsValuePrepend(c, rest[..k - 1]);
      ShiftDigit(acc, DigitValue(c), p, DigitsValue(rest[..k - 1]));
      assert rest[k - 1] == d[k];
      AccumulateInvalid(rest, acc * 10 + DigitValue(c), k - 1);
    }
  }

  lemma ShiftDigit(acc: nat, c: nat, p: nat, v: nat)
    requires p >= 1
    ensures acc * (10 * p) + (c * p + v) == (acc * 10 + c) * p + v
    ensures (acc * 10 + c) * p + v >= acc * 10 + c
  {
    assert acc * (10 * p) == (acc * 10) * p;
    assert (acc * 10 + c) * p == (acc * 10) * p + c * p;
  }

  /** `u32::from_str`: an empty text is `Empty`, a lone sign `InvalidDigit`,
      and otherwise the digits after an optional `+` are read; a text that is
      all digits but too large is `PosOverflow`. */
  function ParseU32(s: string): (r: Result<U32, IntErrorKind>)
    ensures r.Success? <==> ValidU32Text(s)
    ensures r.Success? ==> r.value == DigitsValue(Unsigned(s))
    ensures s == [] ==> r == Failure(Empty)
    ensures s == "+" || s == "-" ==> r == Failure(InvalidDigit)
    ensures Unsigned(s) != [] && AllDigits(Unsigned(s)) && DigitsValue(Unsigned(s)) > U32_MAX ==> r == Failure(PosOverflow)
  {
    if s == [] then Failure(Empty)
    else if s == "+" || s == "-" then Failure(InvalidDigit)
    else
      var d := Unsigned(s);
      AccumulateValue(d, 0);
      AccumulateDigits(d, 0);
      Accumulate(d, 0)
  }

  /** Reading back the decimal text of a `u32` gives the value, with or
      without a leading `+`. */
  lemma ParseDec(n: U32)
    ensures ParseU32(Dec(n)) == Success(n)
    ensures ParseU32("+" + Dec(n)) == Success(n)
  {
    var d := Dec(n);
    assert Unsigned("+" + d) == d;
    assert IsDigit(d[0]);
  }

  /** A value above `u32::MAX`, written in decimal, is refused. */
  lemma ParseDecOverflow(n: nat)
    requires n > U32_MAX
    ensures ParseU32(Dec(n)).Failure?
  {
    assert IsDigit(Dec(n)[0]);
  }

  /** A character other than a digit after the optional `+`, with no
      overflow before it, is `InvalidDigit`. */
  lemma ParseInvalidDigit(s: string, k: nat)
    requires k < |Unsigned(s)| && !IsDigit(Unsigned(s)[k])
    requires AllDigits(Unsigned(s)[..k]) && DigitsValue(Unsigned(s)[..k]) <= U32_MAX
    ensures ParseU32(s) == Failure(InvalidDigit)
  {
    AccumulateInvalid(Unsigned(s), 0, k);
  }

  /** Any character other than a digit after the optional `+` is refused. */
  lemma ParseRejectsNonDigit(s: string, k: nat)
    requires k < |Unsigned(s)| && !IsDigit(Unsigned(s)[k])
    ensures ParseU32(s).Failure?
  {
  }
}
