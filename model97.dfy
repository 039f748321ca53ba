/**
 * Model 97 reference numbers: the reference is cleaned (white space and
 * hyphens dropped, letters capitalised), each letter replaced by its number
 * (A = 10 ... Z = 35), and two check digits that make the numeral followed
 * by them 1 modulo 97 (the ISO 7064 MOD 97-10 test) are put in front of the
 * cleaned reference. This variant writes 00 and 01 where ISO 7064 writes 97
 * and 98.
 */
module Model97 {
  import opened JsStrings

  // ---------------------------------------------------------------------------
  // Cleaning

  /** `s.replace(/[\s-]/g, '')`: white space and hyphens removed, everything else kept in order. */
  function StripSeparators(s: string): (r: string)
    ensures |r| <= |s|
    ensures forall i :: 0 <= i < |r| ==> !IsJsWhitespace(r[i]) && r[i] != '-'
    ensures forall c :: c in r ==> c in s
    ensures forall c :: c in s && !IsJsWhitespace(c) && c != '-' ==> c in r
  {
    if s == [] then []
    else
      var tail := StripSeparators(s[1..]);
      assert forall c :: c in s ==> c == s[0] || c in s[1..];
      if IsJsWhitespace(s[0]) || s[0] == '-' then tail else [s[0]] + tail
  }

  /** One character is dropped when it is white space or a hyphen, and kept otherwise. */
  lemma StripSeparatorsChar(c: char)
    ensures StripSeparators([c]) == if IsJsWhitespace(c) || c == '-' then [] else [c]
  {
    assert [c][1..] == [];
  }

  /** Stripping works character by character, so it distributes over concatenation. */
  lemma {:induction false} StripSeparatorsAppend(a: string, b: string)
    ensures StripSeparators(a + b) == StripSeparators(a) + StripSeparators(b)
  {
    if a == [] {
      assert a + b == b;
    } else {
      assert (a + b)[1..] == a[1..] + b;
      StripSeparatorsAppend(a[1..], b);
    }
  }

  /** A text with no white space and no hyphen is kept whole, in order. */
  lemma {:induction false} StripSeparatorsPlain(s: string)
    requires forall i :: 0 <= i < |s| ==> !IsJsWhitespace(s[i]) && s[i] != '-'
    ensures StripSeparators(s) == s
  {
    if s != [] {
      StripSeparatorsPlain(s[1..]);
    }
  }

  /** The cleaned reference: no white space, no hyphen and no lower-case ASCII letter is left. */
  function CleanReference(reference: string): (clean: string)
    ensures forall i :: 0 <= i < |clean| ==>
      !IsJsWhitespace(clean[i]) && clean[i] != '-' && !('a' <= clean[i] <= 'z')
  {
    ToUpperAscii(StripSeparators(reference))
  }

  /** Cleaning works character by character, so it distributes over concatenation. */
  lemma {:induction false} CleanReferenceAppend(a: string, b: string)
    ensures CleanReference(a + b) == CleanReference(a) + CleanReference(b)
  {
    StripSeparatorsAppend(a, b);
    var x, y := StripSeparators(a), StripSeparators(b);
    assert ToUpperAscii(x + y) == ToUpperAscii(x) + ToUpperAscii(y);
  }

  /** A reference with no white space and no hyphen is only capitalised. */
  lemma {:induction false} CleanReferencePlain(s: string)
    requires forall i :: 0 <= i < |s| ==> !IsJsWhitespace(s[i]) && s[i] != '-'
    ensures CleanReference(s) == ToUpperAscii(s)
  {
    StripSeparatorsPlain(s);
  }

  // ---------------------------------------------------------------------------
  // Letters to numbers

  predicate IsUpperLetter(c: char) { 'A' <= c <= 'Z' }

  /** Every character is a decimal digit or a capital ASCII letter. */
  predicate AlphaNumeric(s: string)
  {
    forall i :: 0 <= i < |s| ==> IsDigit(s[i]) || IsUpperLetter(s[i])
  }

  /** The number of a capital letter: `A` is 10 and `Z` is 35. */
  function LetterNumber(c: char): (n: nat)
    requires IsUpperLetter(c)
    ensures 10 <= n <= 35
  {
    c as int - 'A' as int + 10
  }

  /** A capital letter becomes the two digits of its number; any other character stays. */
  function CharNumeral(c: char): (r: string)
    ensures 1 <= |r| <= 2
    ensures IsUpperLetter(c) ==> |r| == 2 && AllDigits(r) && DigitsValue(r) == LetterNumber(c)
    ensures !IsUpperLetter(c) ==> r == [c]
  {
    if IsUpperLetter(c) then
      var n := LetterNumber(c);
      var r := [DigitChar(n / 10), DigitChar(n % 10)];
      assert r[..1] == [DigitChar(n / 10)] && r[..1][..0] == [];
      assert DigitsValue(r[..1]) == n / 10;
      assert DigitsValue(r) == DigitsValue(r[..1]) * 10 + n % 10;
      r
    else [c]
  }

  /** The numeral of a cleaned reference: every capital letter replaced by its number. */
  function Numeral(clean: string): (r: string)
    ensures |clean| <= |r| <= 2 * |clean|
  {
    if clean == [] then [] else CharNumeral(clean[0]) + Numeral(clean[1..])
  }

  // ---------------------------------------------------------------------------
  // BigInt and the check digits

  /**
   * `BigInt(s)` on a decimal text: surrounding white space ignored, the empty
   * text is zero, otherwise one optional sign and at least one digit;
   * anything else is a syntax error (`None`).
   */
  function ParseBigInt(s: string): Option<int>
  {
    var t := Trim(s);
    if t == [] then Some(0)
    else if t[0] == '+' || t[0] == '-' then
      var digits := t[1..];
      if digits != [] && AllDigits(digits) then
        var value: int := DigitsValue(digits);
        Some(if t[0] == '-' then -value else value)
      else None
    else if AllDigits(t) then Some(DigitsValue(t))
    else None
  }

  /** BigInt `%`: the remainder takes the sign of the dividend. */
  function TruncRem(a: int, b: int): int
    requires b > 0
  {
    if a >= 0 then a % b else -((-a) % b)
  }

  /**
   * `(98n - (numeric * 100n % 97n)) % 97n`: for a non-negative numeral, the
   * number in 0..96 that makes the numeral followed by it 1 modulo 97.
   */
  function CheckNumber(numeric: int): (check: int)
    ensures numeric >= 0 ==> 0 <= check < 97 && (numeric * 100 + check) % 97 == 1
  {
    var x := numeric * 100;
    var check := TruncRem(98 - TruncRem(x, 97), 97);
    assert numeric >= 0 ==> 0 <= check < 97 && (x + check) % 97 == 1 by {
      if numeric >= 0 {
        var m := x % 97;
        var k := x / 97;
        assert TruncRem(x, 97) == m;
        assert x == 97 * k + m;
        assert check == if m == 0 then 1 else if m == 1 then 0 else 98 - m;
        assert x + check == 97 * (if m <= 1 then k else k + 1) + 1;
        OneAfterMultiple(if m <= 1 then k else k + 1);
      }
    }
    check
  }

  /**
   * ISO 7064 MOD 97-10 writes `98 - (numeral * 100) mod 97`, a number in
   * 2..98. The extra `% 97n` makes this variant write 0 where ISO writes 97
   * and 1 where ISO writes 98; every other check number is ISO's own.
   */
  lemma {:induction false} Iso7064Variant(numeric: nat)
    ensures var iso := 98 - numeric * 100 % 97;
      && 2 <= iso <= 98 && (numeric * 100 + iso) % 97 == 1
      && (CheckNumber(numeric) != iso <==> numeric * 100 % 97 <= 1)
      && (CheckNumber(numeric) != iso ==> CheckNumber(numeric) == iso - 97)
  {
    var x := numeric * 100;
    var m, k := x % 97, x / 97;
    assert TruncRem(x, 97) == m;
    assert x == 97 * k + m;
    assert x + (98 - m) == 97 * (k + 1) + 1;
    OneAfterMultiple(k + 1);
  }

  /** The two kinds of numeral where the variant departs from ISO 7064: `97` gets `01`, not 98, and `65` gets `00`, not 97. */
  lemma {:induction false} Iso7064Departures()
    ensures 97 * 100 % 97 == 0 && CheckNumber(97) == 1
    ensures 65 * 100 % 97 == 1 && CheckNumber(65) == 0
  {
    assert 65 * 100 == 97 * 67 + 1;
    assert TruncRem(65 * 100, 97) == 1;
    assert TruncRem(97 * 100, 97) == 0;
  }

  /** The check number written with `toString` and padded to two characters with `0`. */
  function CheckDigits(numeric: int): string
  {
    PadStart(IntToString(CheckNumber(numeric)), 2, '0')
  }

  /**
   * `calculateModel97`: the empty text when nothing is left after cleaning;
   * otherwise two check digits and the cleaned reference, `00` standing for
   * the check digits when the numeral is not an integer.
   */
  function CalculateModel97(reference: string): (r: string)
    ensures r == [] <==> CleanReference(reference) == []
    ensures r != [] ==> |r| == |CleanReference(reference)| + 2 && r[2..] == CleanReference(reference)
    ensures r != [] ==> AllDigits(r[..2])
  {
    var clean := CleanReference(reference);
    if clean == [] then []
    else
      var check := CheckField(clean);
      CheckDigitsBefore(check, clean);
      check + clean
  }

  /** The check digits of a cleaned reference: `00` when its numeral is not an integer. */
  function CheckField(clean: string): (check: string)
    requires forall i :: 0 <= i < |clean| ==> clean[i] != '-'
    ensures |check| == 2 && AllDigits(check)
  {
    match ParseBigInt(Numeral(clean))
    case None => "00"
    case Some(numeric) =>
      assert numeric >= 0 by { NumeralNotNegative(clean); }
      CheckDigitsText(numeric);
      CheckDigits(numeric)
  }

  lemma CheckDigitsBefore(check: string, clean: string)
    requires |check| == 2 && AllDigits(check)
    ensures |check + clean| == |clean| + 2 && (check + clean)[2..] == clean
    ensures (check + clean)[..2] == check
  {
  }

  // ---------------------------------------------------------------------------
  // Properties

  lemma {:induction false} OneAfterMultiple(q: int)
    ensures (97 * q + 1) % 97 == 1
  {
  }

  /** A number below 100 padded to two characters: two digits with that value. */
  lemma {:induction false} TwoDigitText(c: nat)
    requires c < 100
    ensures var t := PadStart(NatToString(c), 2, '0');
      |t| == 2 && AllDigits(t) && DigitsValue(t) == c
  {
    var s := NatToString(c);
    if c < 10 {
      var t := "0" + s;
      assert PadStart(s, 2, '0') == t;
      assert t[..1] == "0" && "0"[..0] == [];
    } else {
      assert NatToString(c / 10) == [DigitChar(c / 10)];
    }
  }

  /** The check digits of a non-negative numeral: two digits whose value is the check number. */
  lemma {:induction false} CheckDigitsText(numeric: int)
    requires numeric >= 0
    ensures |CheckDigits(numeric)| == 2 && AllDigits(CheckDigits(numeric))
    ensures DigitsValue(CheckDigits(numeric)) == CheckNumber(numeric)
  {
    TwoDigitText(CheckNumber(numeric));
  }

  /** Every character of a numeral is a digit or a character of the reference other than a capital letter, and each such character survives. */
  lemma {:induction false} NumeralChars(clean: string)
    ensures forall c :: c in Numeral(clean) ==> IsDigit(c) || (c in clean && !IsUpperLetter(c))
    ensures forall c :: c in clean && !IsUpperLetter(c) ==> c in Numeral(clean)
  {
    if clean != [] {
      NumeralChars(clean[1..]);
      assert clean == [clean[0]] + clean[1..];
    }
  }

  /** A single character's numeral is its own expansion. */
  lemma {:induction false} NumeralChar(c: char)
    ensures Numeral([c]) == CharNumeral(c)
  {
    assert [c][1..] == [];
  }

  /** The numeral is built character by character, in order: it distributes over concatenation. */
  lemma {:induction false} NumeralAppend(a: string, b: string)
    ensures Numeral(a + b) == Numeral(a) + Numeral(b)
  {
    if a == [] {
      assert a + b == b;
    } else {
      assert (a + b)[1..] == a[1..] + b;
      NumeralAppend(a[1..], b);
    }
  }

  /** A reference is made of digits and letters exactly when its numeral is made of digits. */
  lemma {:induction false} AlphaNumericNumeral(clean: string)
    ensures AlphaNumeric(clean) <==> AllDigits(Numeral(clean))
  {
    NumeralChars(clean);
    var r := Numeral(clean);
    if AlphaNumeric(clean) {
      forall i | 0 <= i < |r| ensures IsDigit(r[i]) {
        assert r[i] in r;
      }
    }
    if AllDigits(r) {
      forall i | 0 <= i < |clean| ensures IsDigit(clean[i]) || IsUpperLetter(clean[i]) {
        assert clean[i] in clean;
        if !IsUpperLetter(clean[i]) {
          var j :| 0 <= j < |r| && r[j] == clean[i];
        }
      }
    }
  }

  /** A text without surrounding white space is its own trim. */
  lemma {:induction false} TrimPlain(s: string)
    requires s == [] || (!IsJsWhitespace(s[0]) && !IsJsWhitespace(s[|s| - 1]))
    ensures Trim(s) == s
  {
  }

  /** A text with no minus sign is never read as a negative BigInt. */
  lemma {:induction false} ParseBigIntNoMinus(s: string)
    requires '-' !in s
    ensures ParseBigInt(s).Some? ==> ParseBigInt(s).value >= 0
  {
    var t := Trim(s);
    if t != [] {
      assert t[0] in t;
    }
  }

  /** The numeral of a cleaned reference is never read as a negative BigInt. */
  lemma {:induction false} NumeralNotNegative(clean: string)
    requires forall i :: 0 <= i < |clean| ==> clean[i] != '-'
    ensures ParseBigInt(Numeral(clean)).Some? ==> ParseBigInt(Numeral(clean)).value >= 0
  {
    NumeralChars(clean);
    ParseBigIntNoMinus(Numeral(clean));
  }

  /** The text BigInt accepts for a numeral: digits, or one leading `+` and at least one digit after it. */
  predicate Integral(clean: string)
  {
    AlphaNumeric(clean) || (|clean| >= 2 && clean[0] == '+' && AlphaNumeric(clean[1..]))
  }

  /** The part of the reference that carries its value: without a leading `+`. */
  function Unsigned(clean: string): (u: string)
    ensures |u| <= |clean|
  {
    if clean != [] && clean[0] == '+' then clean[1..] else clean
  }

  /** A text with no white space in it is read by BigInt exactly when it is digits after at most one sign. */
  lemma {:induction false} ParseBigIntPlain(s: string)
    requires forall i :: 0 <= i < |s| ==> !IsJsWhitespace(s[i])
    ensures ParseBigInt(s).Some? <==>
      AllDigits(s) || (|s| >= 2 && (s[0] == '+' || s[0] == '-') && AllDigits(s[1..]))
    ensures AllDigits(s) ==> ParseBigInt(s) == Some(DigitsValue(s))
    ensures |s| >= 2 && s[0] == '+' && AllDigits(s[1..]) ==> ParseBigInt(s) == Some(DigitsValue(s[1..]))
    ensures |s| >= 2 && s[0] == '-' && AllDigits(s[1..]) ==> ParseBigInt(s) == Some(0 - DigitsValue(s[1..]))
  {
    assert Trim(s) == s by { TrimPlain(s); }
    if s != [] && (s[0] == '+' || s[0] == '-') {
      assert !AllDigits(s) by { assert !IsDigit(s[0]); }
    }
  }

  /** The numeral of a text with no white space and no hyphen has none either. */
  lemma {:induction false} NumeralPlain(clean: string)
    requires forall i :: 0 <= i < |clean| ==> !IsJsWhitespace(clean[i]) && clean[i] != '-'
    ensures forall i :: 0 <= i < |Numeral(clean)| ==> !IsJsWhitespace(Numeral(clean)[i]) && Numeral(clean)[i] != '-'
  {
    var r := Numeral(clean);
    NumeralChars(clean);
    forall i | 0 <= i < |r| ensures !IsJsWhitespace(r[i]) && r[i] != '-' {
      assert r[i] in r;
      if !IsDigit(r[i]) {
        var j :| 0 <= j < |clean| && clean[j] == r[i];
      }
    }
  }

  /** The numeral starts with a sign only where the reference does. */
  lemma {:induction false} NumeralHead(clean: string)
    requires clean != []
    ensures clean[0] == '+' ==> Numeral(clean) == "+" + Numeral(clean[1..])
    ensures clean[0] != '+' && clean[0] != '-' ==> Numeral(clean)[0] != '+' && Numeral(clean)[0] != '-'
  {
    if IsUpperLetter(clean[0]) {
      assert IsDigit(CharNumeral(clean[0])[0]);
    }
  }

  /**
   * The numeral of a cleaned reference is an integer for BigInt exactly when
   * the reference is made of digits and letters after at most a leading `+`,
   * and then its value is that of the numeral of the rest.
   */
  lemma {:induction false} NumeralParse(clean: string)
    requires clean != []
    requires forall i :: 0 <= i < |clean| ==> !IsJsWhitespace(clean[i]) && clean[i] != '-'
    ensures ParseBigInt(Numeral(clean)).Some? <==> Integral(clean)
    ensures Integral(clean) ==>
      AllDigits(Numeral(Unsigned(clean))) &&
      ParseBigInt(Numeral(clean)) == Some(DigitsValue(Numeral(Unsigned(clean))))
  {
    var r := Numeral(clean);
    assert forall i :: 0 <= i < |r| ==> !IsJsWhitespace(r[i]) by { NumeralPlain(clean); }
    ParseBigIntPlain(r);
    if clean[0] == '+' {
      PlusNumeral(clean);
    } else {
      assert r == [] || (r[0] != '+' && r[0] != '-') by { NumeralHead(clean); }
      AlphaNumericNumeral(clean);
    }
  }

  /** After a leading `+` the numeral is the sign and the numeral of the rest, which is digits exactly when the rest is alphanumeric. */
  lemma {:induction false} PlusNumeral(clean: string)
    requires clean != [] && clean[0] == '+'
    ensures var r := Numeral(clean);
      r != [] && r[0] == '+' && r[1..] == Numeral(clean[1..]) && !AllDigits(r) && !AlphaNumeric(clean)
      && (|r| >= 2 <==> |clean| >= 2)
      && (AllDigits(r[1..]) <==> AlphaNumeric(clean[1..]))
  {
    var r := Numeral(clean);
    assert r == "+" + Numeral(clean[1..]) by { NumeralHead(clean); }
    assert !AllDigits(r) by { assert !IsDigit(r[0]); }
    assert !AlphaNumeric(clean) by { assert !IsDigit(clean[0]); }
    AlphaNumericNumeral(clean[1..]);
  }

  /**
   * The check digits put in front of a reference of digits and letters pass
   * the ISO 7064 MOD 97-10 test: its numeral followed by them is 1 modulo 97.
   */
  lemma {:induction false} Model97Checks(reference: string)
    requires CleanReference(reference) != []
    requires Integral(CleanReference(reference))
    ensures var clean := CleanReference(reference);
      var check := CalculateModel97(reference)[..2];
      var n := Numeral(Unsigned(clean));
      AllDigits(n) && DigitsValue(n + check) % 97 == 1
  {
    var clean := CleanReference(reference);
    var n := Numeral(Unsigned(clean));
    assert AllDigits(n) by { NumeralParse(clean); }
    var check := CheckDigits(DigitsValue(n));
    assert CalculateModel97(reference)[..2] == check by {
      Model97Integral(reference);
      CheckDigitsText(DigitsValue(n));
    }
    CheckValue(n);
  }

  /** A reference of digits and letters gets the check digits of the value of its numeral. */
  lemma {:induction false} Model97Integral(reference: string)
    requires CleanReference(reference) != []
    requires Integral(CleanReference(reference))
    ensures var clean := CleanReference(reference);
      AllDigits(Numeral(Unsigned(clean))) &&
      CalculateModel97(reference) == CheckDigits(DigitsValue(Numeral(Unsigned(clean)))) + clean
  {
    NumeralParse(CleanReference(reference));
  }

  /** A reference with any other character than digits and letters (past a leading `+`) gets `00` as its check digits. */
  lemma {:induction false} Model97Fallback(reference: string)
    requires CleanReference(reference) != []
    requires !Integral(CleanReference(reference))
    ensures CalculateModel97(reference) == "00" + CleanReference(reference)
  {
    NumeralParse(CleanReference(reference));
  }

  /** A digit string followed by its check digits is 1 modulo 97. */
  lemma {:induction false} CheckValue(n: string)
    requires AllDigits(n)
    ensures AllDigits(n + CheckDigits(DigitsValue(n)))
    ensures DigitsValue(n + CheckDigits(DigitsValue(n))) % 97 == 1
  {
    var check := CheckDigits(DigitsValue(n));
    CheckDigitsText(DigitsValue(n));
    DigitsValueAppend(n, check);
    assert Pow10(2) == 100;
  }

  /** `a-1` is cleaned to `A1`, whose numeral 101 gets the check digits 86. */
  lemma {:induction false} Model97Example()
    ensures CalculateModel97("a-1") == "86A1"
  {
    ExampleFacts();
    Model97Of("a-1", "A1", "101", "86");
    ExampleJoin();
  }

  /**
   * The check digits and the cleaned reference joined into the expected text,
   * kept apart from `Model97Example` so that the literal join is proved
   * without the facts about the reference in scope.
   */
  lemma ExampleJoin()
    ensures "86" + "A1" == "86A1"
  {
  }

  /** The steps of the example: cleaning, the numeral and its check digits. */
  lemma {:induction false} ExampleFacts()
    ensures CleanReference("a-1") == "A1" && Integral("A1") && Unsigned("A1") == "A1"
    ensures Numeral("A1") == "101" && AllDigits("101") && CheckDigits(DigitsValue("101")) == "86"
  {
    ExampleClean();
    assert Integral("A1") && Unsigned("A1") == "A1" by { assert AlphaNumeric("A1"); }
    ExampleNumeral();
    ExampleCheck();
  }

  lemma {:induction false} Model97Of(reference: string, clean: string, n: string, check: string)
    requires CleanReference(reference) == clean && clean != [] && Integral(clean)
    requires Numeral(Unsigned(clean)) == n && AllDigits(n) && CheckDigits(DigitsValue(n)) == check
    ensures CalculateModel97(reference) == check + clean
  {
    Model97Integral(reference);
  }

  lemma {:induction false} ExampleClean()
    ensures CleanReference("a-1") == "A1"
  {
    assert StripSeparators("a-1") == "a1";
  }

  lemma {:induction false} ExampleNumeral()
    ensures Numeral("A1") == "101" && DigitsValue("101") == 101
  {
    assert CharNumeral('A') == "10" by { assert LetterNumber('A') == 10; }
    assert Numeral("1") == "1" by {
      assert "1"[1..] == [];
      assert CharNumeral('1') == "1";
    }
    assert Numeral("A1") == CharNumeral('A') + Numeral("1") by { assert "A1"[1..] == "1"; }
    assert "101"[..2] == "10" && "10"[..1] == "1" && "1"[..0] == [];
  }

  lemma {:induction false} ExampleCheck()
    ensures CheckDigits(101) == "86"
  {
    assert CheckNumber(101) == 86 by {
      assert TruncRem(101 * 100, 97) == 12 by { assert 101 * 100 == 97 * 104 + 12; }
      assert TruncRem(98 - 12, 97) == 86;
    }
    var t := NatToString(86);
    assert t == "86" by {
      assert NatToString(8) == "8";
      assert t == NatToString(8) + [DigitChar(6)];
    }
    assert IntToString(86) == t;
    assert PadStart(t, 2, '0') == t;
  }

  /** A character that is not in the reference, not a digit and not a capital letter is not in its Model 97 form. */
  lemma {:induction false} Model97KeepsOut(reference: string, c: char)
    requires c !in reference && !IsDigit(c) && !IsUpperLetter(c)
    ensures c !in CalculateModel97(reference)
  {
    var clean := CleanReference(reference);
    assert c !in clean by { CleanKeepsOut(reference, c); }
    if clean != [] {
      var check := CheckField(clean);
      assert c !in check by {
        forall i | 0 <= i < |check| ensures check[i] != c { assert IsDigit(check[i]); }
      }
      assert CalculateModel97(reference) == check + clean;
    }
  }

  /** Cleaning brings in no character other than capitals of the reference's small letters. */
  lemma {:induction false} CleanKeepsOut(reference: string, c: char)
    requires c !in reference && !IsUpperLetter(c)
    ensures c !in CleanReference(reference)
  {
    var clean := CleanReference(reference);
    var stripped := StripSeparators(reference);
    forall i | 0 <= i < |clean| ensures clean[i] != c {
      assert clean[i] == UpperChar(stripped[i]);
      assert stripped[i] in stripped;
    }
  }
}
