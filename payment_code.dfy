/**
 * The payment code (`SF:` field): the entered code is read with `parseInt`,
 * a missing or zero code falls back to 189, and 100 is added before it is
 * written back with `toString`.
 *
 * `parseInt` yields a double. The model reads the integer exactly and is
 * restricted to codes whose value, and that value plus 100, are exact doubles
 * (`PaymentCodeInRange`).
 */
module PaymentCode {
  import opened JsStrings

  // ---------------------------------------------------------------------------
  // parseInt

  predicate IsHexDigit(c: char) { IsDigit(c) || 'a' <= c <= 'f' || 'A' <= c <= 'F' }

  function HexValue(c: char): (v: nat)
    requires IsHexDigit(c)
    ensures v < 16
  {
    if IsDigit(c) then DigitValue(c)
    else if 'a' <= c <= 'f' then c as int - 'a' as int + 10
    else c as int - 'A' as int + 10
  }

  predicate AllHexDigits(s: string) { forall i :: 0 <= i < |s| ==> IsHexDigit(s[i]) }

  /** The value of a hexadecimal digit string, most significant digit first. */
  function HexDigitsValue(s: string): nat
    requires AllHexDigits(s)
  {
    if s == [] then 0 else HexDigitsValue(s[..|s| - 1]) * 16 + HexValue(s[|s| - 1])
  }

  /** The length of the run of hexadecimal digits at the start of `s`. */
  function LeadingHexDigits(s: string): (n: nat)
    ensures n <= |s| && AllHexDigits(s[..n]) && (n < |s| ==> !IsHexDigit(s[n]))
  {
    if s != [] && IsHexDigit(s[0]) then
      var n := 1 + LeadingHexDigits(s[1..]);
      assert s[..n] == [s[0]] + s[1..][..n - 1];
      n
    else 0
  }

  function Signed(negative: bool, m: nat): int
  {
    if negative then -(m as int) else m
  }

  /** `u` opens with the `0x` or `0X` prefix of a hexadecimal integer. */
  predicate HexPrefix(u: string)
  {
    |u| >= 2 && u[0] == '0' && (u[1] == 'x' || u[1] == 'X')
  }

  /**
   * `parseInt(s)` with no radix: leading white space and one sign skipped,
   * then a `0x`/`0X` prefix selects base 16; the longest run of digits of the
   * base is read and `None` (NaN) is the result when that run is empty.
   * Negative zero is `Some(0)`: it is falsy like positive zero.
   */
  function ParseInt(s: string): Option<int>
  {
    var t := TrimStart(s);
    var negative := t != [] && t[0] == '-';
    var u := if t != [] && (t[0] == '-' || t[0] == '+') then t[1..] else t;
    ParseUnsignedInt(negative, u)
  }

  /** The digits after the sign, in base 16 after a `0x` prefix and in base 10 otherwise. */
  function ParseUnsignedInt(negative: bool, u: string): Option<int>
  {
    if HexPrefix(u) then
      var n := LeadingHexDigits(u[2..]);
      if n == 0 then None else Some(Signed(negative, HexDigitsValue(u[2..][..n])))
    else
      var n := LeadingDigits(u);
      if n == 0 then None else Some(Signed(negative, DigitsValue(u[..n])))
  }

  // ---------------------------------------------------------------------------
  // formatPaymentCode

  /** The code used when none (or zero) is entered. */
  const DefaultCode := 189

  /** 2^53: every integer of at most this magnitude is an exact double. */
  const ExactLimit: int := 0x20_0000_0000_0000

  /** `parseInt(code) || 189`: NaN and zero are falsy, so the code used is never zero. */
  function BaseCode(code: string): (r: int)
    ensures r != 0
    ensures ParseInt(code).Some? && ParseInt(code).value != 0 ==> r == ParseInt(code).value
    ensures ParseInt(code).None? || ParseInt(code) == Some(0) ==> r == DefaultCode
  {
    match ParseInt(code)
    case None => DefaultCode
    case Some(n) => if n == 0 then DefaultCode else n
  }

  /** The codes the model covers exactly: the code and the code plus 100 are exact doubles. */
  predicate PaymentCodeInRange(code: string)
  {
    -ExactLimit <= BaseCode(code) && BaseCode(code) + 100 <= ExactLimit
  }

  /**
   * The `SF:` field: the base code plus 100, written as an integer (a minus
   * sign exactly when it is negative, then its magnitude in digits without a
   * leading zero); reading it back gives that number.
   */
  function FormatPaymentCode(code: string): (r: string)
    requires PaymentCodeInRange(code)
    ensures var v := BaseCode(code) + 100;
      && |r| >= 1 && (r[0] == '-' <==> v < 0)
      && (v < 0 ==> IsCanonical(r[1..]) && DigitsValue(r[1..]) == -v)
      && (v >= 0 ==> IsCanonical(r) && DigitsValue(r) == v)
    ensures ParseInt(r) == Some(BaseCode(code) + 100)
  {
    ParseIntToString(BaseCode(code) + 100);
    IntToString(BaseCode(code) + 100)
  }

  /**
   * The `SF:` text is the only text of its shape: a sign exactly when the
   * code plus 100 is negative, then that number's magnitude in digits with
   * no leading zero.
   */
  lemma {:induction false} FormatPaymentCodeUnique(code: string, t: string)
    requires PaymentCodeInRange(code)
    requires var v := BaseCode(code) + 100;
      && |t| >= 1 && (t[0] == '-' <==> v < 0)
      && (v < 0 ==> IsCanonical(t[1..]) && DigitsValue(t[1..]) == -v)
      && (v >= 0 ==> IsCanonical(t) && DigitsValue(t) == v)
    ensures t == FormatPaymentCode(code)
  {
    var r := FormatPaymentCode(code);
    if BaseCode(code) + 100 < 0 {
      CanonicalUnique(t[1..], r[1..]);
      assert t == [t[0]] + t[1..] && r == [r[0]] + r[1..];
    } else {
      CanonicalUnique(t, r);
    }
  }

  // ---------------------------------------------------------------------------
  // Properties

  /** After an optional minus sign, a text starting with a digit is read by its digits. */
  lemma {:induction false} SignedDigits(negative: bool, u: string)
    requires u != [] && IsDigit(u[0])
    ensures ParseInt((if negative then "-" else "") + u) == ParseUnsignedInt(negative, u)
  {
    SignedDigitStart(negative, u);
  }

  /** Digits not forming a `0x` prefix are read in base 10, up to the first non-digit. */
  lemma {:induction false} UnsignedDecimal(negative: bool, d: string, rest: string)
    requires AllDigits(d) && d != []
    requires rest == [] || !IsDigit(rest[0])
    requires d[0] != '0' || |d| >= 2 || rest == [] || (rest[0] != 'x' && rest[0] != 'X')
    ensures ParseUnsignedInt(negative, d + rest) == Some(Signed(negative, DigitsValue(d)))
  {
    var u := d + rest;
    assert !HexPrefix(u) by {
      if |u| >= 2 && |d| == 1 {
        assert u[1] == rest[0];
      } else if |u| >= 2 {
        assert u[0] == d[0] && u[1] == d[1];
      }
    }
    LeadingDigitsOf(d, rest);
    assert u[..|d|] == d;
  }

  /** `parseInt` of the empty text is NaN. */
  lemma {:induction false} ParseIntEmpty()
    ensures ParseInt("") == None
  {
    assert TrimStart("") == "";
  }

  /** A text opening with anything but white space, a sign or a digit is NaN to `parseInt`. */
  lemma {:induction false} ParseIntNoDigits(s: string)
    requires s != [] && !IsJsWhitespace(s[0]) && s[0] != '-' && s[0] != '+' && !IsDigit(s[0])
    ensures ParseInt(s) == None
  {
    assert TrimStart(s) == s;
    assert !HexPrefix(s);
  }

  /** An integer written by `toString` is read back by `parseInt`. */
  lemma {:induction false} ParseIntToString(i: int)
    ensures ParseInt(IntToString(i)) == Some(i)
  {
    var m := NatToString(if i < 0 then -i else i);
    assert IntToString(i) == (if i < 0 then "-" else "") + m;
    SignedDigits(i < 0, m);
    UnsignedDecimal(i < 0, m, []);
    assert m + [] == m;
  }

  lemma {:induction false} Written189()
    ensures NatToString(189) == "189"
  {
    assert NatToString(1) == "1";
    assert NatToString(18) == NatToString(1) + "8";
  }

  lemma {:induction false} Written289()
    ensures NatToString(289) == "289"
  {
    assert NatToString(2) == "2";
    assert NatToString(28) == NatToString(2) + "8";
  }

  lemma {:induction false} Written389()
    ensures NatToString(389) == "389"
  {
    assert NatToString(3) == "3";
    assert NatToString(38) == NatToString(3) + "8";
  }

  /** A code that is not a number, or is zero, becomes the default 189, written as 289. */
  lemma {:induction false} DefaultCodeUsed(code: string)
    requires ParseInt(code) == None || ParseInt(code) == Some(0)
    ensures PaymentCodeInRange(code)
    ensures FormatPaymentCode(code) == "289"
  {
    Written289();
  }

  /** A canonical decimal code `k` other than zero becomes `k + 100`. */
  lemma {:induction false} DecimalCode(k: nat)
    requires 0 < k && k + 100 <= ExactLimit
    ensures PaymentCodeInRange(NatToString(k))
    ensures FormatPaymentCode(NatToString(k)) == NatToString(k + 100)
  {
    var code := NatToString(k);
    assert ParseInt(code) == Some(k) by {
      ParseIntToString(k);
    }
    assert BaseCode(code) == k;
    assert FormatPaymentCode(code) == IntToString(k + 100);
  }

  /** The standard code 189 is written as 289. */
  lemma {:induction false} StandardCode()
    ensures PaymentCodeInRange("189") && FormatPaymentCode("189") == "289"
  {
    Written189();
    Written289();
    DecimalCode(189);
  }

  /** The code is not checked for already holding the 100: 289 becomes 389. */
  lemma {:induction false} ShiftedCodeShiftedAgain()
    ensures PaymentCodeInRange("289") && FormatPaymentCode("289") == "389"
  {
    Written289();
    Written389();
    DecimalCode(289);
  }

  /** `0x` and hexadecimal digits are read in base 16. */
  lemma {:induction false} HexCode(h: string)
    requires h != [] && AllHexDigits(h)
    ensures ParseInt("0x" + h) == Some(HexDigitsValue(h))
  {
    var s := "0x" + h;
    assert TrimStart(s) == s;
    assert s[2..] == h;
    LeadingHexDigitsOf(h);
    assert h[..|h|] == h;
  }

  lemma {:induction false} LeadingHexDigitsOf(h: string)
    requires AllHexDigits(h)
    ensures LeadingHexDigits(h) == |h|
  {
    if h != [] {
      LeadingHexDigitsOf(h[1..]);
    }
  }

  /** Whatever follows the leading digits is ignored: `189abc` reads as 189; only `0x` switches to base 16. */
  lemma {:induction false} TrailingTextIgnored(d: string, rest: string)
    requires AllDigits(d) && d != []
    requires rest == [] || !IsDigit(rest[0])
    requires d[0] != '0' || |d| >= 2 || rest == [] || (rest[0] != 'x' && rest[0] != 'X')
    ensures ParseInt(d + rest) == Some(DigitsValue(d))
  {
    SignedDigits(false, d + rest);
    assert "" + (d + rest) == d + rest;
    UnsignedDecimal(false, d, rest);
  }
}
