/**
 * Amount formatting: the entered amount is cleaned (grouping dots dropped,
 * the first decimal comma made a point), read with `parseFloat`, written with
 * `toFixed(2)`, and the integer part is grouped in threes with dots, with a
 * comma before the two decimals.
 *
 * `parseFloat` and `toFixed` work on IEEE doubles. The model reads the
 * decimal prefix exactly and is restricted to the amounts where the double
 * is exact to the cent: at most two fraction digits, an integer part below
 * 10^13 and no exponent (`AmountInDomain`).
 */
module Amount {
  import opened JsStrings

  // ---------------------------------------------------------------------------
  // Cleaning

  /** `amount.replace(/\./g, '').replace(',', '.')`. */
  function CleanAmount(amount: string): (r: string)
    ensures |r| <= |amount|
    ensures ',' !in amount ==> '.' !in r
    ensures '.' !in amount && ',' !in amount ==> r == amount
  {
    var undotted := RemoveChar(amount, '.');
    var r := ReplaceFirst(undotted, ',', '.');
    assert ',' !in amount ==> '.' !in r && ('.' !in amount ==> r == amount) by {
      if ',' !in amount {
        RemoveCharKeeps(amount, '.', ',');
        ReplaceFirstAbsent(undotted, ',', '.');
        if '.' !in amount {
          RemoveCharAbsent(amount, '.');
        }
      }
    }
    r
  }

  /** Every dot is dropped, the first comma becomes the point, and nothing else changes. */
  lemma {:induction false} CleanAmountSplit(a: string, b: string)
    requires ',' !in a
    ensures CleanAmount(a + "," + b) == RemoveChar(a, '.') + "." + RemoveChar(b, '.')
  {
    RemoveCharAppend(a + ",", b, '.');
    RemoveCharAppend(a, ",", '.');
    assert RemoveChar(",", '.') == ",";
    RemoveCharKeeps(a, '.', ',');
    ReplaceFirstAfter(RemoveChar(a, '.'), RemoveChar(b, '.'), ',', '.');
  }

  /** Without a comma, cleaning only drops the dots. */
  lemma {:induction false} CleanAmountNoComma(s: string)
    requires ',' !in s
    ensures CleanAmount(s) == RemoveChar(s, '.')
  {
    RemoveCharKeeps(s, '.', ',');
    ReplaceFirstAbsent(RemoveChar(s, '.'), ',', '.');
  }

  lemma {:induction false} ReplaceFirstAbsent(s: string, from: char, to: char)
    requires from !in s
    ensures ReplaceFirst(s, from, to) == s
  {
    if s != [] {
      ReplaceFirstAbsent(s[1..], from, to);
      assert s == [s[0]] + s[1..];
    }
  }

  // ---------------------------------------------------------------------------
  // parseFloat

  /**
   * What `parseFloat` reads: nothing (NaN), an infinity, or the longest
   * decimal prefix `whole.fraction` after leading white space and a sign;
   * `rest` is what follows it.
   */
  datatype FloatPrefix =
    | NotANumber
    | Infinity(negative: bool)
    | Decimal(negative: bool, whole: string, fraction: string, rest: string)

  function ParseFloatPrefix(s: string): (p: FloatPrefix)
    ensures p.Decimal? ==> AllDigits(p.whole) && AllDigits(p.fraction) && (p.whole != [] || p.fraction != [])
    ensures p.Decimal? ==> p.rest == [] || !IsDigit(p.rest[0])
  {
    var t := TrimStart(s);
    var negative := t != [] && t[0] == '-';
    var u := if t != [] && (t[0] == '-' || t[0] == '+') then t[1..] else t;
    if |u| >= 8 && u[..8] == "Infinity" then Infinity(negative)
    else ParseUnsignedDecimal(negative, u)
  }

  /** The longest prefix `digits`, `digits.`, `digits.digits` or `.digits` of `u`. */
  function ParseUnsignedDecimal(negative: bool, u: string): (p: FloatPrefix)
    ensures p.NotANumber? || p.Decimal?
    ensures p.Decimal? ==> p.negative == negative
    ensures p.Decimal? ==> AllDigits(p.whole) && AllDigits(p.fraction) && (p.whole != [] || p.fraction != [])
    ensures p.Decimal? ==> p.rest == [] || !IsDigit(p.rest[0])
  {
    var n := LeadingDigits(u);
    var after := u[n..];
    if after != [] && after[0] == '.' then
      var m := LeadingDigits(after[1..]);
      if n == 0 && m == 0 then NotANumber
      else Decimal(negative, u[..n], after[1..][..m], after[1..][m..])
    else if n == 0 then NotANumber
    else Decimal(negative, u[..n], [], after)
  }

  /** The unsigned text `u` opens with no number `parseFloat` can read. */
  predicate NoDecimalAt(u: string)
  {
    (u == [] || !IsDigit(u[0])) && !(|u| >= 2 && u[0] == '.' && IsDigit(u[1]))
  }

  /**
   * `whole`, `fraction` and `rest` lie in `u` in that order: the integer
   * digits open it and are all of its leading digits; a point right after
   * them is consumed, and the decimals are all the digits that follow it;
   * the rest is what is left at the end.
   */
  predicate DecimalOf(u: string, whole: string, fraction: string, rest: string)
  {
    AllDigits(whole) && AllDigits(fraction)
    && |whole| + |fraction| + |rest| <= |u| && u[..|whole|] == whole && u[|u| - |rest|..] == rest
    && (|whole| < |u| ==> !IsDigit(u[|whole|]))
    && (fraction != [] ==> |u| == |whole| + 1 + |fraction| + |rest|
                           && u[|whole|] == '.' && u[|whole| + 1..|u| - |rest|] == fraction)
    && (fraction == [] ==> |u| <= |whole| + 1 + |rest| && (|u| > |whole| + |rest| ==> u[|whole|] == '.'))
    && (|whole| < |u| && u[|whole|] == '.' ==>
          |u| == |whole| + 1 + |fraction| + |rest| && (rest == [] || !IsDigit(rest[0])))
  }

  /** `DecimalOf` leaves no choice: one text has at most one such reading. */
  lemma {:induction false} DecimalOfUnique(u: string, w1: string, f1: string, r1: string,
                                           w2: string, f2: string, r2: string)
    requires DecimalOf(u, w1, f1, r1) && DecimalOf(u, w2, f2, r2)
    ensures w1 == w2 && f1 == f2 && r1 == r2
  {
    SameWhole(u, w1, f1, r1, w2, f2, r2);
    SameWhole(u, w2, f2, r2, w1, f1, r1);
    var k := |w1|;
    if k < |u| && u[k] == '.' {
      SameFraction(u, w1, f1, r1, f2, r2);
      SameFraction(u, w1, f2, r2, f1, r1);
    }
  }

  /** The integer part of one reading is no longer than that of another. */
  lemma {:induction false} SameWhole(u: string, w1: string, f1: string, r1: string,
                                     w2: string, f2: string, r2: string)
    requires DecimalOf(u, w1, f1, r1) && DecimalOf(u, w2, f2, r2)
    ensures |w2| <= |w1| || w1 == w2
  {
    if |w1| < |w2| {
      assert false;
    }
  }

  /** With the same integer part and a point after it, the decimals of one reading are no fewer than another's. */
  lemma {:induction false} SameFraction(u: string, w: string, f1: string, r1: string, f2: string, r2: string)
    requires DecimalOf(u, w, f1, r1) && DecimalOf(u, w, f2, r2) && |w| < |u| && u[|w|] == '.'
    ensures |f2| <= |f1| && (|f1| == |f2| ==> f1 == f2 && r1 == r2)
  {
    if |f1| < |f2| {
      assert false;
    }
  }

  /** After the sign, `parseFloat` gives NaN exactly when no number opens the text, and otherwise reads the number in place. */
  lemma {:induction false} ParseDecimalReads(negative: bool, u: string)
    ensures ParseUnsignedDecimal(negative, u).NotANumber? <==> NoDecimalAt(u)
    ensures var p := ParseUnsignedDecimal(negative, u);
      p.Decimal? ==> DecimalOf(u, p.whole, p.fraction, p.rest)
  {
    var n := LeadingDigits(u);
    if n < |u| && u[n] == '.' {
      ReadsWithPoint(negative, u, n);
    } else {
      assert n == 0 && |u| >= 2 ==> u[0] != '.';
    }
  }

  /** The case of `ParseDecimalReads` where a point follows the leading digits. */
  lemma {:induction false} ReadsWithPoint(negative: bool, u: string, n: nat)
    requires n == LeadingDigits(u) && n < |u| && u[n] == '.'
    ensures ParseUnsignedDecimal(negative, u).NotANumber? <==> NoDecimalAt(u)
    ensures var p := ParseUnsignedDecimal(negative, u);
      p.Decimal? ==> DecimalOf(u, p.whole, p.fraction, p.rest)
  {
    var m := LeadingDigits(u[n + 1..]);
    PointParse(negative, u, n, m);
    PointNotANumber(u, n, m);
    PointSlices(u, n, m);
  }

  /** With the point at `n`, NaN comes exactly from a point with no digit on either side. */
  lemma {:induction false} PointNotANumber(u: string, n: nat, m: nat)
    requires n == LeadingDigits(u) && n < |u| && u[n] == '.' && m == LeadingDigits(u[n + 1..])
    ensures n == 0 && m == 0 <==> NoDecimalAt(u)
  {
    if n == 0 && |u| >= 2 {
      assert u[1] == u[n + 1..][0];
    }
  }

  /** The three slices around the point at `n` lie in `u` as `DecimalOf` describes. */
  lemma {:induction false} PointSlices(u: string, n: nat, m: nat)
    requires n == LeadingDigits(u) && n < |u| && u[n] == '.' && m == LeadingDigits(u[n + 1..])
    ensures DecimalOf(u, u[..n], u[n + 1..n + 1 + m], u[n + 1 + m..])
  {
    assert u[n + 1..][..m] == u[n + 1..n + 1 + m];
  }

  /** With the point at `n` and `m` decimals after it, the parse is these three slices of `u`. */
  lemma {:induction false} PointParse(negative: bool, u: string, n: nat, m: nat)
    requires n == LeadingDigits(u) && n < |u| && u[n] == '.' && m == LeadingDigits(u[n + 1..])
    ensures ParseUnsignedDecimal(negative, u)
      == if n == 0 && m == 0 then NotANumber
         else Decimal(negative, u[..n], u[n + 1..n + 1 + m], u[n + 1 + m..])
  {
    var after := u[n..];
    assert after[1..] == u[n + 1..];
  }

  /**
   * What `parseFloat` reads from the whole text: after the leading white
   * space, a minus sign makes the number negative and one sign is skipped;
   * what follows opens with `Infinity`, with no number (NaN), or with the
   * number read in place.
   */
  lemma {:induction false} ParseFloatReads(s: string)
    ensures var t := TrimStart(s);
      var u := if t != [] && (t[0] == '-' || t[0] == '+') then t[1..] else t;
      var p := ParseFloatPrefix(s);
      && (p.Infinity? <==> |u| >= 8 && u[..8] == "Infinity")
      && (p.NotANumber? <==> !(|u| >= 8 && u[..8] == "Infinity") && NoDecimalAt(u))
      && (!p.NotANumber? ==> p.negative == (t != [] && t[0] == '-'))
      && (p.Decimal? ==> DecimalOf(u, p.whole, p.fraction, p.rest))
  {
    var t := TrimStart(s);
    var u := if t != [] && (t[0] == '-' || t[0] == '+') then t[1..] else t;
    ParseDecimalReads(t != [] && t[0] == '-', u);
  }

  /** `rest` starts with an exponent part that `parseFloat` would also read. */
  predicate HasExponent(rest: string)
  {
    |rest| >= 2 && (rest[0] == 'e' || rest[0] == 'E')
    && (IsDigit(rest[1]) || ((rest[1] == '+' || rest[1] == '-') && |rest| >= 3 && IsDigit(rest[2])))
  }

  /** Integer parts below this bound are within half a cent of their double. */
  const WholeLimit: nat := 10_000_000_000_000

  /** The prefix denotes a number whose double `toFixed(2)` writes exactly. */
  predicate ExactPrefix(p: FloatPrefix)
  {
    match p
    case Decimal(_, whole, fraction, rest) =>
      AllDigits(whole) && AllDigits(fraction) && |fraction| <= 2
      && DigitsValue(whole) < WholeLimit && !HasExponent(rest)
    case _ => true
  }

  /** The amounts the model covers exactly; every input that reads as NaN or infinity is among them. */
  predicate AmountInDomain(amount: string)
  {
    ExactPrefix(ParseFloatPrefix(CleanAmount(amount)))
  }

  /** The parsed number in hundredths. */
  function Cents(whole: string, fraction: string): nat
    requires AllDigits(whole) && AllDigits(fraction) && |fraction| <= 2
  {
    DigitsValue(whole) * 100 + DigitsValue(fraction) * Pow10(2 - |fraction|)
  }

  // ---------------------------------------------------------------------------
  // toFixed(2)

  /**
   * `Number.prototype.toFixed(2)` of the parsed number: the digits of the
   * hundredths, zero-padded to three, with a point before the last two, and a
   * minus sign for a negative non-zero value (negative zero prints without one).
   */
  function ToFixed2(p: FloatPrefix): (r: string)
    requires !p.NotANumber? && ExactPrefix(p)
    ensures p.Infinity? ==> r == InfinityName(p.negative)
    ensures p.Decimal? ==> var n := Cents(p.whole, p.fraction);
      r == (if p.negative && n != 0 then "-" else "") + NatToString(n / 100) + "." + PadStart(NatToString(n % 100), 2, '0')
  {
    match p
    case Infinity(negative) => InfinityName(negative)
    case Decimal(negative, whole, fraction, _) =>
      FixedTextShape(negative, Cents(whole, fraction));
      FixedText(negative, Cents(whole, fraction))
  }

  /** How an infinity prints. */
  function InfinityName(negative: bool): string
  {
    if negative then "-Infinity" else "Infinity"
  }

  /** `toFixed(2)` of the finite value `n` hundredths, negated when `negative`. */
  function FixedText(negative: bool, n: nat): string
  {
    var m := NatToString(n);
    var padded := if |m| <= 2 then Repeat('0', 3 - |m|) + m else m;
    (if negative && n != 0 then "-" else "") + padded[..|padded| - 2] + "." + padded[|padded| - 2..]
  }

  lemma {:induction false} ZerosValue(k: nat)
    ensures AllDigits(Repeat('0', k)) && DigitsValue(Repeat('0', k)) == 0
  {
    if k > 0 {
      var z := Repeat('0', k);
      assert z[..k - 1] == Repeat('0', k - 1);
      ZerosValue(k - 1);
    }
  }

  /** The two halves of `toFixed(2)`: the integer digits are `n / 100` as written by `toString`, the decimals `n % 100`. */
  lemma {:induction false} ToFixedDigits(n: nat)
    ensures var m := NatToString(n);
      var padded := if |m| <= 2 then Repeat('0', 3 - |m|) + m else m;
      |padded| >= 3
      && IsCanonical(padded[..|padded| - 2]) && DigitsValue(padded[..|padded| - 2]) == n / 100
      && |padded[|padded| - 2..]| == 2 && AllDigits(padded[|padded| - 2..]) && DigitsValue(padded[|padded| - 2..]) == n % 100
  {
    var m := NatToString(n);
    var padded := if |m| <= 2 then Repeat('0', 3 - |m|) + m else m;
    assert AllDigits(padded) && DigitsValue(padded) == n by {
      if |m| <= 2 {
        ZerosValue(3 - |m|);
        DigitsValueAppend(Repeat('0', 3 - |m|), m);
      }
    }
    var a, b := padded[..|padded| - 2], padded[|padded| - 2..];
    assert padded == a + b;
    DigitsValueAppend(a, b);
    DigitsValueBound(b);
    assert n == DigitsValue(a) * 100 + DigitsValue(b);
    assert IsCanonical(a) by {
      if |m| <= 2 {
        assert a == [padded[0]] && padded[0] == '0';
      } else {
        assert a[0] == m[0];
      }
    }
  }

  // ---------------------------------------------------------------------------
  // The thousands separator: integerPart.replace(/\B(?=(\d{3})+(?!\d))/g, '.')

  predicate IsWordChar(c: char) { 'a' <= c <= 'z' || 'A' <= c <= 'Z' || IsDigit(c) || c == '_' }

  /** The number of consecutive digits in `s` from index `p`. */
  function DigitRunFrom(s: string, p: nat): (n: nat)
    requires p <= |s|
    ensures n <= |s| - p
    decreases |s| - p
  {
    if p < |s| && IsDigit(s[p]) then 1 + DigitRunFrom(s, p + 1) else 0
  }

  /**
   * The regular expression matches at position `p`: it is not a word
   * boundary (`\B`), and the digits from `p` on can be read as groups of
   * three up to a non-digit; the greedy repetition may back off, so this is
   * exactly a digit run from `p` whose length is a positive multiple of 3.
   */
  predicate GroupBoundary(s: string, p: nat)
    requires p <= |s|
  {
    var wordBefore := p > 0 && IsWordChar(s[p - 1]);
    var wordAfter := p < |s| && IsWordChar(s[p]);
    var run := DigitRunFrom(s, p);
    wordBefore == wordAfter && run > 0 && run % 3 == 0
  }

  /** The global replace from position `p` on: a `.` at every match, the characters kept. */
  function InsertSeparatorsFrom(s: string, p: nat): string
    requires p <= |s|
    decreases |s| - p
  {
    if p == |s| then []
    else (if GroupBoundary(s, p) then "." else "") + [s[p]] + InsertSeparatorsFrom(s, p + 1)
  }

  function InsertThousandsSeparators(s: string): string
  {
    InsertSeparatorsFrom(s, 0)
  }

  /** Grouping of a digit string in threes from the right: the reference the regex is proved against. */
  function Thousands(d: string): string
    decreases |d|
  {
    if |d| <= 3 then d else Thousands(d[..|d| - 3]) + "." + d[|d| - 3..]
  }

  /** A display integer: groups split by dots, the first of one to three digits and every other of exactly three. */
  predicate WellGrouped(g: string)
  {
    var groups := SplitOn(g, '.');
    1 <= |groups[0]| <= 3 && AllDigits(groups[0])
    && forall i :: 1 <= i < |groups| ==> |groups[i]| == 3 && AllDigits(groups[i])
  }

  lemma {:induction false} DigitRunOfDigits(d: string, p: nat)
    requires AllDigits(d) && p <= |d|
    ensures DigitRunFrom(d, p) == |d| - p
    decreases |d| - p
  {
    if p < |d| {
      DigitRunOfDigits(d, p + 1);
    }
  }

  lemma {:induction false} NoBoundaryFrom(s: string, p: nat)
    requires p <= |s|
    requires forall q :: p <= q < |s| ==> !GroupBoundary(s, q)
    ensures InsertSeparatorsFrom(s, p) == s[p..]
    decreases |s| - p
  {
    if p < |s| {
      NoBoundaryFrom(s, p + 1);
      assert s[p..] == [s[p]] + s[p + 1..];
    }
  }

  /** In a digit string the regex matches exactly where a multiple of three digits is left, away from the start. */
  lemma {:induction false} DigitBoundaries(d: string, p: nat)
    requires AllDigits(d) && p <= |d|
    ensures GroupBoundary(d, p) <==> 0 < p < |d| && (|d| - p) % 3 == 0
  {
    DigitRunOfDigits(d, p);
  }

  /** Two strings sharing a prefix and its match positions get the same separators there. */
  lemma {:induction false} SharedPrefix(d: string, e: string, p: nat)
    requires p <= |e| <= |d| && e == d[..|e|]
    requires forall q :: p <= q < |e| ==> GroupBoundary(d, q) == GroupBoundary(e, q)
    ensures InsertSeparatorsFrom(d, p) == InsertSeparatorsFrom(e, p) + InsertSeparatorsFrom(d, |e|)
    decreases |e| - p
  {
    if p < |e| {
      SharedPrefix(d, e, p + 1);
      assert e[p] == d[p];
    }
  }

  /** The last three digits of a longer digit string form a group of their own. */
  lemma {:induction false} LastGroup(d: string)
    requires AllDigits(d) && |d| > 3
    ensures InsertSeparatorsFrom(d, |d| - 3) == "." + d[|d| - 3..]
  {
    var p := |d| - 3;
    DigitBoundaries(d, p);
    forall q | p + 1 <= q < |d| ensures !GroupBoundary(d, q) { DigitBoundaries(d, q); }
    NoBoundaryFrom(d, p + 1);
    assert d[p..] == [d[p]] + d[p + 1..];
  }

  lemma {:induction false} SplitLastGroup(d: string, p: nat)
    requires AllDigits(d) && |d| > 3 && p <= |d| - 3
    ensures InsertSeparatorsFrom(d, p) == InsertSeparatorsFrom(d[..|d| - 3], p) + "." + d[|d| - 3..]
  {
    var e := d[..|d| - 3];
    assert InsertSeparatorsFrom(d, p) == InsertSeparatorsFrom(e, p) + InsertSeparatorsFrom(d, |e|) by {
      forall q | p <= q < |e| ensures GroupBoundary(d, q) == GroupBoundary(e, q) {
        DigitBoundaries(d, q);
        DigitBoundaries(e, q);
      }
      SharedPrefix(d, e, p);
    }
    LastGroup(d);
  }

  /** On a digit string the regex replacement is grouping in threes from the right. */
  lemma {:induction false} InsertSeparatorsDigits(d: string)
    requires AllDigits(d)
    ensures InsertThousandsSeparators(d) == Thousands(d)
    decreases |d|
  {
    if |d| <= 3 {
      forall q | 0 <= q < |d| ensures !GroupBoundary(d, q) { DigitBoundaries(d, q); }
      NoBoundaryFrom(d, 0);
    } else {
      SplitLastGroup(d, 0);
      InsertSeparatorsDigits(d[..|d| - 3]);
    }
  }

  lemma {:induction false} DigitRunShift(c: char, t: string, q: nat)
    requires q <= |t|
    ensures DigitRunFrom([c] + t, q + 1) == DigitRunFrom(t, q)
    decreases |t| - q
  {
    if q < |t| {
      DigitRunShift(c, t, q + 1);
    }
  }

  /** A leading non-word character (the minus sign) does not change where the regex matches after it. */
  lemma {:induction false} InsertSeparatorsShift(c: char, t: string, q: nat)
    requires !IsWordChar(c) && q <= |t|
    ensures InsertSeparatorsFrom([c] + t, q + 1) == InsertSeparatorsFrom(t, q)
    decreases |t| - q
  {
    if q < |t| {
      var s := [c] + t;
      assert GroupBoundary(s, q + 1) == GroupBoundary(t, q) by {
        DigitRunShift(c, t, q);
        assert s[q] == (if q == 0 then c else t[q - 1]);
        assert s[q + 1] == t[q];
      }
      assert InsertSeparatorsFrom(s, q + 2) == InsertSeparatorsFrom(t, q + 1) by {
        InsertSeparatorsShift(c, t, q + 1);
      }
      assert s[q + 1] == t[q];
    }
  }

  lemma {:induction false} SignedInsertSeparators(t: string)
    ensures InsertThousandsSeparators("-" + t) == "-" + InsertThousandsSeparators(t)
  {
    InsertSeparatorsShift('-', t, 0);
  }

  /** Where there is no digit the regex never matches. */
  lemma {:induction false} NoDigitsNoSeparators(s: string)
    requires forall i :: 0 <= i < |s| ==> !IsDigit(s[i])
    ensures InsertThousandsSeparators(s) == s
  {
    NoBoundaryFrom(s, 0);
  }

  /** Grouping inserts only dots: dropping them gives the digits back. */
  lemma {:induction false} ThousandsRemoveDots(d: string)
    requires AllDigits(d)
    ensures RemoveChar(Thousands(d), '.') == d
    decreases |d|
  {
    if |d| <= 3 {
      NoSeparatorInDigits(d, '.');
      RemoveCharAbsent(d, '.');
    } else {
      var e, tail := d[..|d| - 3], d[|d| - 3..];
      assert AllDigits(e) && AllDigits(tail);
      ThousandsRemoveDots(e);
      RemoveDotBeforeGroup(Thousands(e), tail);
      assert e + tail == d;
    }
  }

  lemma {:induction false} RemoveDotBeforeGroup(g: string, tail: string)
    requires AllDigits(tail)
    ensures RemoveChar(g + "." + tail, '.') == RemoveChar(g, '.') + tail
  {
    var h := g + ".";
    NoSeparatorInDigits(tail, '.');
    RemoveCharAbsent(tail, '.');
    RemoveCharAppend(g, ".", '.');
    assert RemoveChar(".", '.') == [];
    assert RemoveChar(h, '.') == RemoveChar(g, '.');
    RemoveCharAppend(h, tail, '.');
  }

  lemma {:induction false} ThousandsGrouped(d: string)
    requires AllDigits(d) && |d| >= 1
    ensures WellGrouped(Thousands(d))
    decreases |d|
  {
    if |d| <= 3 {
      SplitOnNoSeparator(d, '.');
    } else {
      var e, tail := d[..|d| - 3], d[|d| - 3..];
      ThousandsGrouped(e);
      SplitOnAppend(Thousands(e), '.', tail);
      SplitOnNoSeparator(tail, '.');
      var groups := SplitOn(Thousands(d), '.');
      assert groups == SplitOn(Thousands(e), '.') + [tail];
    }
  }

  lemma {:induction false} ThousandsNoComma(d: string)
    requires AllDigits(d)
    ensures ',' !in Thousands(d) && '|' !in Thousands(d) && '-' !in Thousands(d)
    decreases |d|
  {
    if |d| > 3 {
      ThousandsNoComma(d[..|d| - 3]);
      var tail := d[|d| - 3..];
      assert AllDigits(tail);
      assert forall i :: 0 <= i < |tail| ==> IsDigit(tail[i]);
    } else {
      assert forall i :: 0 <= i < |d| ==> IsDigit(d[i]);
    }
  }

  // ---------------------------------------------------------------------------
  // formatAmount

  /**
   * The display form of a parsed amount: `"0,00"` for NaN; otherwise the
   * `toFixed(2)` text split at its point, the integer part grouped and the
   * decimal part after a comma (`undefined` when there is no point, as for
   * an infinity).
   */
  function FormatParsed(p: FloatPrefix): string
    requires ExactPrefix(p)
  {
    if p.NotANumber? then "0,00"
    else FormatFixed(ToFixed2(p))
  }

  /** The `toFixed(2)` text split at its point: the integer part grouped, the decimal part after a comma. */
  function FormatFixed(fixed: string): string
  {
    var parts := SplitOn(fixed, '.');
    var integerPart := parts[0];
    var decimalPart := if |parts| > 1 then parts[1] else "undefined";
    InsertThousandsSeparators(integerPart) + "," + decimalPart
  }

  /** The amount as embedded in the payload after the currency. */
  function FormatAmount(amount: string): (r: string)
    requires AmountInDomain(amount)
    ensures var p := ParseFloatPrefix(CleanAmount(amount));
      && (p.NotANumber? ==> r == "0,00")
      && (p.Infinity? ==> r == InfinityName(p.negative) + "," + "undefined")
      && (p.Decimal? ==> r == Display(p.negative, Cents(p.whole, p.fraction)))
  {
    var p := ParseFloatPrefix(CleanAmount(amount));
    assert (p.Infinity? ==> FormatParsed(p) == InfinityName(p.negative) + "," + "undefined")
        && (p.Decimal? ==> FormatParsed(p) == Display(p.negative, Cents(p.whole, p.fraction))) by {
      if p.Infinity? {
        InfinityText(p.negative);
      } else if p.Decimal? {
        FormatDecimal(p);
      }
    }
    FormatParsed(p)
  }

  /** The display form of a finite amount of `n` hundredths: sign, grouped integer, comma, two decimals. */
  function Display(negative: bool, n: nat): string
  {
    (if negative && n != 0 then "-" else "") + Thousands(NatToString(n / 100)) + "," + PadStart(NatToString(n % 100), 2, '0')
  }

  lemma {:induction false} NoSeparatorInDigits(d: string, c: char)
    requires AllDigits(d) && !IsDigit(c)
    ensures c !in d
  {
    assert forall i :: 0 <= i < |d| ==> IsDigit(d[i]);
  }

  /** `toFixed(2)` is the integer `n / 100` as `toString` writes it, a point and two decimals. */
  lemma {:induction false} FixedTextShape(negative: bool, n: nat)
    ensures FixedText(negative, n)
      == (if negative && n != 0 then "-" else "") + NatToString(n / 100) + "." + PadStart(NatToString(n % 100), 2, '0')
  {
    var m := NatToString(n);
    var padded := if |m| <= 2 then Repeat('0', 3 - |m|) + m else m;
    assert |padded| >= 3 by { ToFixedDigits(n); }
    var a, b := padded[..|padded| - 2], padded[|padded| - 2..];
    assert FixedText(negative, n) == (if negative && n != 0 then "-" else "") + a + "." + b;
    assert a == NatToString(n / 100) by {
      ToFixedDigits(n);
      CanonicalUnique(a, NatToString(n / 100));
    }
    assert b == PadStart(NatToString(n % 100), 2, '0') by {
      ToFixedDigits(n);
      TwoDigits(b, n % 100);
    }
  }

  /** Splitting a signed digit text at its point and grouping the integer part. */
  lemma {:induction false} FormatFixedDigits(sign: string, a: string, b: string)
    requires sign == "" || sign == "-"
    requires AllDigits(a) && AllDigits(b)
    ensures FormatFixed(sign + a + "." + b) == sign + Thousands(a) + "," + b
  {
    NoSeparatorInDigits(a, '.');
    NoSeparatorInDigits(b, '.');
    assert '.' !in sign + a;
    SplitOnPair(sign + a, '.', b);
    assert sign + a + "." + b == (sign + a) + ['.'] + b;
    assert InsertThousandsSeparators(sign + a) == sign + Thousands(a) by {
      InsertSeparatorsDigits(a);
      if sign == "-" {
        SignedInsertSeparators(a);
      } else {
        assert sign + a == a;
      }
    }
  }

  /** The `Decimal` case of the formatter, written as `Display`. */
  lemma {:induction false} FormatDecimal(p: FloatPrefix)
    requires p.Decimal? && ExactPrefix(p)
    ensures FormatParsed(p) == Display(p.negative, Cents(p.whole, p.fraction))
  {
    var n := Cents(p.whole, p.fraction);
    FixedTextShape(p.negative, n);
    var a := NatToString(n / 100);
    var b := PadStart(NatToString(n % 100), 2, '0');
    ToFixedDigits(n);
    assert AllDigits(b) by {
      ZerosValue(2 - |NatToString(n % 100)|);
      assert forall i :: 0 <= i < |b| ==> IsDigit(b[i]);
    }
    FormatFixedDigits(if p.negative && n != 0 then "-" else "", a, b);
  }

  lemma {:induction false} TwoDigits(b: string, v: nat)
    requires |b| == 2 && AllDigits(b) && DigitsValue(b) == v
    ensures b == PadStart(NatToString(v), 2, '0')
  {
    assert b[..1] == [b[0]];
    assert b[..1][..0] == [];
    assert DigitsValue(b[..1]) == DigitValue(b[0]);
    assert v == DigitValue(b[0]) * 10 + DigitValue(b[1]);
    if v >= 10 {
      assert b[0] != '0';
      CanonicalUnique(b, NatToString(v));
    } else {
      assert NatToString(v) == [b[1]];
      assert b == Repeat('0', 1) + [b[1]];
    }
  }

  // ---------------------------------------------------------------------------
  // What formatAmount produces

  /** The fraction adds less than one unit to the whole part: the hundredths divided by 100 give the whole part back. */
  lemma {:induction false} CentsWhole(whole: string, fraction: string)
    requires AllDigits(whole) && AllDigits(fraction) && |fraction| <= 2
    ensures Cents(whole, fraction) / 100 == DigitsValue(whole)
  {
    DigitsValueBound(fraction);
    assert DigitsValue(fraction) * Pow10(2 - |fraction|) < 100 by {
      if |fraction| == 0 {
      } else if |fraction| == 1 {
        assert Pow10(1) == 10;
      } else {
        assert Pow10(2) == 100;
      }
    }
  }

  /** `parseFloat` reads all of a signed digit text with a decimal point. */
  lemma {:induction false} ParseSignedPoint(negative: bool, a: string, b: string)
    requires AllDigits(a) && AllDigits(b) && a != []
    ensures ParseFloatPrefix((if negative then "-" else "") + a + "." + b) == Decimal(negative, a, b, [])
  {
    var u := a + "." + b;
    assert (if negative then "-" else "") + a + "." + b == (if negative then "-" else "") + u;
    SignedDigitText(negative, u);
    ParseUnsignedPoint(negative, a, b);
  }

  lemma {:induction false} ParsePoint(a: string, b: string)
    requires AllDigits(a) && AllDigits(b) && a != []
    ensures ParseFloatPrefix(a + "." + b) == Decimal(false, a, b, [])
  {
    var u := a + "." + b;
    assert ParseFloatPrefix(u) == ParseUnsignedDecimal(false, u) by {
      assert u[0] == a[0];
      SignedDigitText(false, u);
      assert "" + u == u;
    }
    assert ParseUnsignedDecimal(false, u) == Decimal(false, a, b, []) by {
      ParseUnsignedPoint(false, a, b);
    }
  }

  /** A text starting with a digit, after an optional minus sign, is read as a decimal. */
  lemma {:induction false} SignedDigitText(negative: bool, u: string)
    requires u != [] && IsDigit(u[0])
    ensures ParseFloatPrefix((if negative then "-" else "") + u) == ParseUnsignedDecimal(negative, u)
  {
    var s := (if negative then "-" else "") + u;
    assert TrimStart(s) == s && (s[0] == '-') == negative
      && (if s[0] == '-' || s[0] == '+' then s[1..] else s) == u by {
      SignedDigitStart(negative, u);
    }
    assert !(|u| >= 8 && u[..8] == "Infinity") by {
      NotInfinityText(u);
    }
    var t := TrimStart(s);
    var rest := if t != [] && (t[0] == '-' || t[0] == '+') then t[1..] else t;
    assert rest == u && (t != [] && t[0] == '-') == negative;
    assert ParseFloatPrefix(s) == ParseUnsignedDecimal(t != [] && t[0] == '-', rest);
  }

  lemma {:induction false} NotInfinityText(u: string)
    requires u != [] && IsDigit(u[0])
    ensures !(|u| >= 8 && u[..8] == "Infinity")
  {
    if |u| >= 8 {
      assert u[..8][0] == u[0];
    }
  }

  lemma {:induction false} ParseUnsignedPoint(negative: bool, a: string, b: string)
    requires AllDigits(a) && AllDigits(b)
    ensures a != [] || b != [] ==> ParseUnsignedDecimal(negative, a + "." + b) == Decimal(negative, a, b, [])
  {
    var u := a + "." + b;
    LeadingDigitsOf(a, "." + b);
    assert u == a + ("." + b);
    var after := u[|a|..];
    assert after == "." + b;
    assert after[1..] == b + [];
    LeadingDigitsOf(b, []);
    assert u[..|a|] == a;
    assert b[..|b|] == b && b[|b|..] == [];
  }

  /** What `Display` writes, cleaned and read again, is the same value in hundredths. */
  lemma {:induction false} DisplayReads(negative: bool, n: nat)
    requires n / 100 < WholeLimit
    ensures var p := ParseFloatPrefix(CleanAmount(Display(negative, n)));
      p.Decimal? && ExactPrefix(p) && p.negative == (negative && n != 0) && Cents(p.whole, p.fraction) == n
  {
    var sign := if negative && n != 0 then "-" else "";
    var a, b := NatToString(n / 100), PadStart(NatToString(n % 100), 2, '0');
    assert AllDigits(b) && |b| == 2 && DigitsValue(b) == n % 100 by {
      var m := NatToString(n % 100);
      LeadingDigitPositiveBound(m, n % 100);
      ZerosValue(2 - |m|);
      if |m| < 2 {
        DigitsValueAppend(Repeat('0', 2 - |m|), m);
      } else {
        LeadingDigitPositiveBound(m, n % 100);
      }
      assert forall i :: 0 <= i < |b| ==> IsDigit(b[i]);
    }
    var g := Thousands(a);
    assert Display(negative, n) == sign + g + "," + b;
    assert CleanAmount(Display(negative, n)) == sign + a + "." + b by {
      CleanDisplay(sign, a, b);
    }
    ParseSignedPoint(negative && n != 0, a, b);
    DigitsValueBound(b);
  }

  /** A canonical digit string of a value below 100 has at most two digits. */
  lemma {:induction false} LeadingDigitPositiveBound(m: string, v: nat)
    requires IsCanonical(m) && DigitsValue(m) == v && v < 100
    ensures |m| <= 2
  {
    if |m| > 2 {
      AtLeastHundred(m);
    }
  }

  lemma {:induction false} AtLeastHundred(m: string)
    requires IsCanonical(m) && |m| > 2
    ensures DigitsValue(m) >= 100
  {
    var m' := m[..|m| - 1];
    assert m'[0] == m[0];
    LeadingDigitPositive(m');
  }

  /** Cleaning a display text drops the group dots and turns its comma into a point. */
  lemma {:induction false} CleanDisplay(sign: string, a: string, b: string)
    requires sign == "" || sign == "-"
    requires AllDigits(a) && AllDigits(b)
    ensures CleanAmount(sign + Thousands(a) + "," + b) == sign + a + "." + b
  {
    var g := Thousands(a);
    ThousandsNoComma(a);
    assert ',' !in sign + g;
    CleanAmountSplit(sign + g, b);
    NoSeparatorInDigits(b, '.');
    RemoveCharAbsent(b, '.');
    ThousandsRemoveDots(a);
    RemoveCharAbsent(sign, '.');
    RemoveCharAppend(sign, g, '.');
  }

  lemma {:induction false} InfinityText(negative: bool)
    ensures FormatFixed(InfinityName(negative)) == InfinityName(negative) + "," + "undefined"
  {
    var t := InfinityName(negative);
    assert forall i :: 0 <= i < |t| ==> !IsDigit(t[i]) && t[i] != '.';
    SplitOnNoSeparator(t, '.');
    NoDigitsNoSeparators(t);
  }

  /**
   * A finite result is a sign, dot-grouped integer digits whose value is the
   * whole part, a comma and exactly two decimals holding the hundredths.
   */
  lemma {:induction false} DisplayShape(negative: bool, n: nat)
    ensures var a := NatToString(n / 100);
      var b := PadStart(NatToString(n % 100), 2, '0');
      && Display(negative, n) == (if negative && n != 0 then "-" else "") + Thousands(a) + "," + b
      && WellGrouped(Thousands(a)) && RemoveChar(Thousands(a), '.') == a
      && |b| == 2 && AllDigits(b) && DigitsValue(a) * 100 + DigitsValue(b) == n
  {
    var a := NatToString(n / 100);
    var m := NatToString(n % 100);
    var b := PadStart(m, 2, '0');
    ThousandsGrouped(a);
    ThousandsRemoveDots(a);
    LeadingDigitPositiveBound(m, n % 100);
    ZerosValue(2 - |m|);
    if |m| < 2 {
      DigitsValueAppend(Repeat('0', 2 - |m|), m);
    } else {
      LeadingDigitPositiveBound(m, n % 100);
    }
    assert forall i :: 0 <= i < |b| ==> IsDigit(b[i]);
  }

  /** Formatting a formatted amount gives it back unchanged. */
  lemma {:induction false} FormatAmountIdempotent(amount: string)
    requires AmountInDomain(amount)
    ensures AmountInDomain(FormatAmount(amount))
    ensures FormatAmount(FormatAmount(amount)) == FormatAmount(amount)
  {
    var p := ParseFloatPrefix(CleanAmount(amount));
    var r := FormatAmount(amount);
    if p.NotANumber? {
      assert r == Display(false, 0) by { ZeroDisplay(); }
      DisplayReformats(false, 0);
    } else if p.Infinity? {
      InfinityReformats(p.negative);
    } else {
      var n := Cents(p.whole, p.fraction);
      CentsWhole(p.whole, p.fraction);
      DisplayReformats(p.negative, n);
    }
  }

  lemma {:induction false} ZeroDisplay()
    ensures Display(false, 0) == "0,00"
  {
    assert NatToString(0) == "0";
    assert Thousands("0") == "0";
    assert PadStart("0", 2, '0') == "00";
  }

  /** A display form is in the domain and formats to itself. */
  lemma {:induction false} DisplayReformats(negative: bool, n: nat)
    requires n / 100 < WholeLimit
    ensures AmountInDomain(Display(negative, n))
    ensures FormatAmount(Display(negative, n)) == Display(negative, n)
  {
    DisplayReads(negative, n);
    var p := ParseFloatPrefix(CleanAmount(Display(negative, n)));
    FormatDecimal(p);
  }

  lemma {:induction false} InfinityReformats(negative: bool)
    ensures var r := InfinityName(negative) + "," + "undefined";
      AmountInDomain(r) && FormatAmount(r) == r
  {
    InfinityReadBack(negative);
  }

  /** `Infinity,undefined`, cleaned, is read as the same infinity. */
  lemma {:induction false} InfinityReadBack(negative: bool)
    ensures ParseFloatPrefix(CleanAmount(InfinityName(negative) + "," + "undefined")) == Infinity(negative)
  {
    CleanInfinity(negative);
    ParseInfinityPoint(negative);
  }

  lemma {:induction false} ParseInfinityPoint(negative: bool)
    ensures ParseFloatPrefix(InfinityName(negative) + "." + "undefined") == Infinity(negative)
  {
    var t := InfinityName(negative);
    ParseInfinity(negative, "." + "undefined");
    assert t + "." + "undefined" == t + ("." + "undefined");
  }

  lemma {:induction false} CleanInfinity(negative: bool)
    ensures CleanAmount(InfinityName(negative) + "," + "undefined") == InfinityName(negative) + "." + "undefined"
  {
    var t := InfinityName(negative);
    assert forall i :: 0 <= i < |t| ==> t[i] != '.' && t[i] != ',';
    assert forall i :: 0 <= i < |"undefined"| ==> "undefined"[i] != '.';
    CleanAtComma(t, "undefined");
  }

  /** A text with one comma and no dot: cleaning turns the comma into a point. */
  lemma {:induction false} CleanAtComma(a: string, b: string)
    requires '.' !in a && ',' !in a && '.' !in b
    ensures CleanAmount(a + "," + b) == a + "." + b
  {
    CleanAmountSplit(a, b);
    RemoveCharAbsent(a, '.');
    RemoveCharAbsent(b, '.');
  }

  /** `parseFloat` reads `Infinity` after an optional sign, whatever follows it. */
  lemma {:induction false} ParseInfinity(negative: bool, rest: string)
    ensures ParseFloatPrefix(InfinityName(negative) + rest) == Infinity(negative)
  {
    var u := "Infinity" + rest;
    InfinityUnsigned(negative, rest);
    assert u[..8] == "Infinity";
  }

  /** Leading white space and the sign taken off, an infinity text is `Infinity` and what follows. */
  lemma {:induction false} InfinityUnsigned(negative: bool, rest: string)
    ensures var t := TrimStart(InfinityName(negative) + rest);
      t == InfinityName(negative) + rest
      && (t != [] && t[0] == '-') == negative
      && (if t != [] && (t[0] == '-' || t[0] == '+') then t[1..] else t) == "Infinity" + rest
  {
    var w := "Infinity" + rest;
    assert InfinityName(negative) + rest == (if negative then "-" else "") + w by {
      if negative {
        assert "-Infinity" == "-" + "Infinity";
      }
    }
    assert w[0] == 'I';
    SignedWordStart(negative, w);
  }

  /** A text opening with neither white space nor a sign, after an optional minus sign, loses only that sign. */
  lemma {:induction false} SignedWordStart(negative: bool, w: string)
    requires w != [] && !IsJsWhitespace(w[0]) && w[0] != '-' && w[0] != '+'
    ensures var s := (if negative then "-" else "") + w;
      && TrimStart(s) == s
      && (s[0] == '-') == negative
      && (if s[0] == '-' || s[0] == '+' then s[1..] else s) == w
  {
    var s := (if negative then "-" else "") + w;
    if negative {
      assert s[0] == '-' && s[1..] == w;
    } else {
      assert s == w;
    }
  }

  /** No result holds the payload's field separator. */
  lemma {:induction false} FormatAmountNoBar(amount: string)
    requires AmountInDomain(amount)
    ensures '|' !in FormatAmount(amount)
  {
    var p := ParseFloatPrefix(CleanAmount(amount));
    if p.Decimal? {
      DisplayNoBar(p.negative, Cents(p.whole, p.fraction));
    } else if p.Infinity? {
      InfinityNoBar(p.negative);
    }
  }

  lemma {:induction false} InfinityNoBar(negative: bool)
    ensures '|' !in InfinityName(negative) + "," + "undefined"
  {
    var t := InfinityName(negative);
    assert '|' !in t;
    assert '|' !in "," + "undefined";
  }

  lemma {:induction false} DisplayNoBar(negative: bool, n: nat)
    ensures '|' !in Display(negative, n)
  {
    var a := NatToString(n / 100);
    var b := PadStart(NatToString(n % 100), 2, '0');
    DisplayShape(negative, n);
    ThousandsNoComma(a);
    NoSeparatorInDigits(b, '|');
    var sign := if negative && n != 0 then "-" else "";
    assert '|' !in sign;
  }

  /** Text without a dot or comma that does not start with a number (or is empty) formats as zero. */
  lemma {:induction false} NotANumberAmount(s: string)
    requires '.' !in s && ',' !in s
    requires s == [] || (!IsDigit(s[0]) && s[0] != '-' && s[0] != '+' && s[0] != 'I' && !IsJsWhitespace(s[0]))
    ensures AmountInDomain(s) && FormatAmount(s) == "0,00"
  {
    CleanAmountNoComma(s);
    RemoveCharAbsent(s, '.');
    ParseNoNumber(s);
  }

  lemma {:induction false} ParseNoNumber(s: string)
    requires s == [] || (!IsDigit(s[0]) && s[0] != '.' && s[0] != '-' && s[0] != '+' && s[0] != 'I' && !IsJsWhitespace(s[0]))
    ensures ParseFloatPrefix(s) == NotANumber
  {
    ParseFloatReads(s);
    assert TrimStart(s) == s;
    if |s| >= 8 {
      assert s[..8][0] == s[0];
    }
  }

  // ---------------------------------------------------------------------------
  // The stored amount

  /** A plain digit text is read whole, with no fraction. */
  lemma {:induction false} ParseUnsignedWhole(negative: bool, d: string)
    requires AllDigits(d) && d != []
    ensures ParseUnsignedDecimal(negative, d) == Decimal(negative, d, [], [])
  {
    LeadingDigitsOf(d, []);
    assert d + [] == d;
    assert d[..|d|] == d && d[|d|..] == [];
  }

  /** Cleaning a digit text with one point drops the point. */
  lemma {:induction false} CleanPoint(a: string, b: string)
    requires AllDigits(a) && AllDigits(b)
    ensures CleanAmount(a + "." + b) == a + b
  {
    assert '.' !in a && '.' !in b by {
      NoSeparatorInDigits(a, '.');
      NoSeparatorInDigits(b, '.');
    }
    assert CleanAmount(a + "." + b) == RemoveChar(a + "." + b, '.') by {
      NoSeparatorInDigits(a, ',');
      NoSeparatorInDigits(b, ',');
      CleanAmountNoComma(a + "." + b);
    }
    RemoveOnly(a, b, '.');
  }

  /** Removing the one occurrence of `c` joins the two sides. */
  lemma {:induction false} RemoveOnly(a: string, b: string, c: char)
    requires c !in a && c !in b
    ensures RemoveChar(a + [c] + b, c) == a + b
  {
    var ra, rb := RemoveChar(a, c), RemoveChar(b, c);
    assert ra == a && rb == b by {
      RemoveCharAbsent(a, c);
      RemoveCharAbsent(b, c);
    }
    assert RemoveChar(a + [c], c) == ra by {
      RemoveCharAppend(a, [c], c);
      assert RemoveChar([c], c) == [];
    }
    assert RemoveChar(a + [c] + b, c) == RemoveChar(a + [c], c) + rb by {
      RemoveCharAppend(a + [c], b, c);
    }
  }

  /** The stored text `a.b`, cleaned, is read as the whole number `ab`. */
  lemma {:induction false} StoredParse(a: string, b: string)
    requires AllDigits(a) && AllDigits(b) && a != []
    ensures AllDigits(a + b)
    ensures ParseFloatPrefix(CleanAmount(a + "." + b)) == Decimal(false, a + b, [], [])
  {
    CleanPoint(a, b);
    DigitsValueAppend(a, b);
    SignedDigitText(false, a + b);
    assert "" + (a + b) == a + b;
    ParseUnsignedWhole(false, a + b);
  }

  /**
   * As written: a stored amount `a.b` (a point before the decimals, the form
   * the entry form keeps) loses its point in cleaning, so it is displayed as
   * the whole number `ab`, that is `10^|b|` times its value (`StoredScale`).
   */
  lemma {:induction false} StoredAmountDotDropped(a: string, b: string)
    requires AllDigits(a) && AllDigits(b) && a != []
    requires DigitsValue(a + b) < WholeLimit
    ensures AmountInDomain(a + "." + b)
    ensures FormatAmount(a + "." + b) == Display(false, DigitsValue(a + b) * 100)
  {
    StoredParse(a, b);
    FormatWhole(a + "." + b, a + b);
  }

  /** An amount read as the whole number `d` is displayed as `d` with no cents. */
  lemma {:induction false} FormatWhole(amount: string, d: string)
    requires AllDigits(d) && d != [] && DigitsValue(d) < WholeLimit
    requires ParseFloatPrefix(CleanAmount(amount)) == Decimal(false, d, [], [])
    ensures AmountInDomain(amount) && FormatAmount(amount) == Display(false, DigitsValue(d) * 100)
  {
    var p := Decimal(false, d, [], []);
    assert ExactPrefix(p);
    FormatAmountOfDecimal(amount, p);
    assert Cents(d, []) == DigitsValue(d) * 100 by {
      assert Pow10(2) == 100;
    }
  }

  /** An amount read as a decimal in the domain is formatted as its display form. */
  lemma {:induction false} FormatAmountOfDecimal(amount: string, p: FloatPrefix)
    requires ParseFloatPrefix(CleanAmount(amount)) == p && p.Decimal? && ExactPrefix(p)
    ensures AmountInDomain(amount) && FormatAmount(amount) == Display(p.negative, Cents(p.whole, p.fraction))
  {
    FormatDecimal(p);
  }

  /** Dropping the point multiplies the hundredths by ten per decimal. */
  lemma {:induction false} CentsShift(a: string, b: string)
    requires AllDigits(a) && AllDigits(b) && |b| <= 2
    ensures AllDigits(a + b) && Cents(a + b, []) == Cents(a, b) * Pow10(|b|)
  {
    var x, y := DigitsValue(a), DigitsValue(b);
    var p := Pow10(|b|);
    assert Cents(a + b, []) == (x * p + y) * 100 by {
      DigitsValueAppend(a, b);
      assert Pow10(2) == 100;
    }
    assert p * Pow10(2 - |b|) == 100 by {
      if |b| == 0 {
        assert Pow10(0) == 1;
      } else if |b| == 1 {
        assert Pow10(1) == 10;
      } else {
        assert Pow10(2) == 100 && Pow10(0) == 1;
      }
    }
    assert Cents(a, b) == x * 100 + y * Pow10(2 - |b|);
    ScaleBy(x, y, p, Pow10(2 - |b|));
  }

  lemma {:induction false} ScaleBy(x: nat, y: nat, p: nat, q: nat)
    requires p * q == 100
    ensures (x * p + y) * 100 == (x * 100 + y * q) * p
  {
    calc {
      (x * 100 + y * q) * p;
      x * 100 * p + y * (q * p);
      x * 100 * p + y * 100;
      (x * p + y) * 100;
    }
  }

  /** The stored amount read as the number it holds: `parseFloat` on the text as it is. */
  function FormatStoredAmount(stored: string): string
    requires ExactPrefix(ParseFloatPrefix(stored))
  {
    FormatParsed(ParseFloatPrefix(stored))
  }

  /** The stored `a.b` and the display form `a,b` are read as the same number. */
  lemma {:induction false} PointAndCommaParse(a: string, b: string)
    requires AllDigits(a) && AllDigits(b) && a != []
    ensures ParseFloatPrefix(a + "." + b) == Decimal(false, a, b, [])
    ensures ParseFloatPrefix(CleanAmount(a + "," + b)) == Decimal(false, a, b, [])
  {
    ParsePoint(a, b);
    assert CleanAmount(a + "," + b) == a + "." + b by {
      NoSeparatorInDigits(a, '.');
      NoSeparatorInDigits(a, ',');
      NoSeparatorInDigits(b, '.');
      CleanAtComma(a, b);
    }
  }

  /** Corrected: the stored `a.b` is displayed as its own value, the same text as the display form `a,b` gives. */
  lemma {:induction false} StoredAmountRead(a: string, b: string)
    requires AllDigits(a) && AllDigits(b) && a != [] && |b| <= 2
    requires DigitsValue(a) < WholeLimit
    ensures ExactPrefix(ParseFloatPrefix(a + "." + b)) && AmountInDomain(a + "," + b)
    ensures FormatStoredAmount(a + "." + b) == Display(false, Cents(a, b))
    ensures FormatStoredAmount(a + "." + b) == FormatAmount(a + "," + b)
  {
    StoredRead(a + "." + b, a, b);
    CommaRead(a + "," + b, a, b);
  }

  /** The stored `a.b`, read by `parseFloat` as it is, is displayed as its own value. */
  lemma {:induction false} StoredRead(stored: string, a: string, b: string)
    requires AllDigits(a) && AllDigits(b) && a != [] && |b| <= 2
    requires DigitsValue(a) < WholeLimit && stored == a + "." + b
    ensures ExactPrefix(ParseFloatPrefix(stored))
    ensures FormatStoredAmount(stored) == Display(false, Cents(a, b))
  {
    ParsePoint(a, b);
    FormatStoredDecimal(stored, Decimal(false, a, b, []));
  }

  /** A stored text read as a decimal in the domain is displayed as that decimal's value. */
  lemma {:induction false} FormatStoredDecimal(stored: string, p: FloatPrefix)
    requires ParseFloatPrefix(stored) == p && p.Decimal? && ExactPrefix(p)
    ensures ExactPrefix(ParseFloatPrefix(stored))
    ensures FormatStoredAmount(stored) == Display(p.negative, Cents(p.whole, p.fraction))
  {
    FormatDecimal(p);
  }

  /** The display form `a,b` is displayed as the same value. */
  lemma {:induction false} CommaRead(shown: string, a: string, b: string)
    requires AllDigits(a) && AllDigits(b) && a != [] && |b| <= 2
    requires DigitsValue(a) < WholeLimit && shown == a + "," + b
    ensures AmountInDomain(shown) && FormatAmount(shown) == Display(false, Cents(a, b))
  {
    CommaParse(shown, a, b);
    FormatAmountOfDecimal(shown, Decimal(false, a, b, []));
  }

  /** The cleaned display form `a,b` is read as the decimal `a.b`. */
  lemma {:induction false} CommaParse(shown: string, a: string, b: string)
    requires AllDigits(a) && AllDigits(b) && a != [] && shown == a + "," + b
    ensures ParseFloatPrefix(CleanAmount(shown)) == Decimal(false, a, b, [])
  {
    PointAndCommaParse(a, b);
  }

  /** Display forms of different values differ. */
  lemma {:induction false} DisplayInjective(negative: bool, x: nat, y: nat)
    requires x / 100 < WholeLimit && y / 100 < WholeLimit
    ensures Display(negative, x) == Display(negative, y) ==> x == y
  {
    DisplayReads(negative, x);
    DisplayReads(negative, y);
  }

  /** The values behind the two readings of a stored amount with one or two decimals. */
  lemma {:induction false} StoredScale(a: string, b: string)
    requires AllDigits(a) && AllDigits(b) && 1 <= |b| <= 2
    requires DigitsValue(a + b) < WholeLimit && DigitsValue(a + b) > 0
    ensures DigitsValue(a) < WholeLimit
    ensures DigitsValue(a + b) * 100 == Cents(a, b) * Pow10(|b|) > Cents(a, b)
  {
    var v, x, p := DigitsValue(a + b), DigitsValue(a), Pow10(|b|);
    assert p >= 10 by {
      if |b| == 1 {
        assert Pow10(1) == 10;
      } else {
        assert Pow10(2) == 100;
      }
    }
    assert v == x * p + DigitsValue(b) by {
      DigitsValueAppend(a, b);
    }
    assert v * 100 == Cents(a, b) * p by {
      CentsShift(a, b);
      assert Pow10(2) == 100;
    }
    ScaleGrows(v, x, Cents(a, b), p);
  }

  /** The arithmetic behind `StoredScale`: a positive value scaled up by `p` outgrows its own hundredths. */
  lemma {:induction false} ScaleGrows(v: nat, x: nat, c: nat, p: nat)
    requires p >= 10 && x * p <= v && v > 0 && v * 100 == c * p
    ensures x <= v && c * p > c
  {
    assert x <= x * p;
    assert c > 0;
  }

  /** Every non-zero stored amount with one or two decimals is displayed wrongly. */
  lemma {:induction false} StoredAmountMisread(a: string, b: string)
    requires AllDigits(a) && AllDigits(b) && a != [] && 1 <= |b| <= 2
    requires DigitsValue(a + b) < WholeLimit && DigitsValue(a + b) > 0
    ensures AmountInDomain(a + "." + b) && ExactPrefix(ParseFloatPrefix(a + "." + b))
    ensures FormatAmount(a + "." + b) != FormatStoredAmount(a + "." + b)
  {
    StoredScale(a, b);
    var x, y := DigitsValue(a + b) * 100, Cents(a, b);
    assert AmountInDomain(a + "." + b) && FormatAmount(a + "." + b) == Display(false, x) by {
      StoredAmountDotDropped(a, b);
    }
    assert ExactPrefix(ParseFloatPrefix(a + "." + b)) && FormatStoredAmount(a + "." + b) == Display(false, y) by {
      StoredAmountRead(a, b);
    }
    assert Display(false, x) != Display(false, y) by {
      CentsWhole(a, b);
      DisplayInjective(false, x, y);
    }
  }

  lemma {:induction false} Written1234()
    ensures NatToString(1234) == "1234"
  {
    assert NatToString(1) == "1";
    assert NatToString(12) == "1" + "2";
    assert NatToString(123) == "12" + "3";
  }

  lemma {:induction false} Written123456()
    ensures NatToString(123456) == "123456"
  {
    Written1234();
    assert NatToString(12345) == "1234" + "5";
  }

  /**
   * The display of the misread stored amount, as text. The amount is a
   * parameter fixed by the precondition, so that the proof unfolds the
   * display one step at a time instead of evaluating it on the literal.
   */
  lemma {:induction false} MisreadDisplayText(n: nat)
    requires n == 12345600
    ensures Display(false, n) == "123.456,00"
  {
    assert n / 100 == 123456 && n % 100 == 0;
    var w, c := Thousands(NatToString(n / 100)), PadStart(NatToString(n % 100), 2, '0');
    assert Display(false, n) == w + "," + c;
    assert w == "123.456" by {
      Written123456();
      assert "123456"[..3] == "123" && "123456"[3..] == "456";
    }
    assert c == "00" by {
      assert NatToString(0) == "0";
      assert Repeat('0', 1) == "0";
    }
    assert "123.456" + "," + "00" == "123.456,00";
  }

  /** The display of the value the stored amount holds, as text (the amount a parameter as above). */
  lemma {:induction false} StoredDisplayText(n: nat)
    requires n == 123456
    ensures Display(false, n) == "1.234,56"
  {
    assert n / 100 == 1234 && n % 100 == 56;
    var w, c := Thousands(NatToString(n / 100)), PadStart(NatToString(n % 100), 2, '0');
    assert Display(false, n) == w + "," + c;
    assert w == "1.234" by {
      Written1234();
      assert "1234"[..1] == "1" && "1234"[1..] == "234";
    }
    assert c == "56" by {
      assert NatToString(5) == "5";
    }
    assert "1.234" + "," + "56" == "1.234,56";
  }

  /**
   * The entry form stores `1.234,56` as `1234.56`; formatted as written that
   * shows as 123.456,00. The stored text is a parameter fixed by the
   * precondition, so that the proof reasons about it through the general
   * lemmas instead of evaluating the parser on the literal.
   */
  lemma {:induction false} StoredAmountExample(stored: string)
    requires stored == "1234.56"
    ensures AmountInDomain(stored) && ExactPrefix(ParseFloatPrefix(stored))
    ensures FormatAmount(stored) == Display(false, 12345600)
    ensures FormatStoredAmount(stored) == Display(false, 123456)
    ensures FormatAmount(stored) != FormatStoredAmount(stored)
  {
    var a, b := "1234", "56";
    assert stored == a + "." + b;
    assert AllDigits(a) && AllDigits(b);
    assert DigitsValue(a) == 1234 && DigitsValue(b) == 56 by {
      assert "1"[..0] == [] && "5"[..0] == [];
      assert "12"[..1] == "1" && b[..1] == "5";
      assert "123"[..2] == "12";
      assert a[..3] == "123";
    }
    assert DigitsValue(a + b) == 123456 by {
      DigitsValueAppend(a, b);
      assert Pow10(2) == 100;
    }
    assert Cents(a, b) == 123456 by { assert Pow10(0) == 1; }
    StoredAmountDotDropped(a, b);
    StoredAmountRead(a, b);
    StoredAmountMisread(a, b);
  }

  /** The two readings of the stored `1234.56`, as the text they put into the payload. */
  lemma {:induction false} StoredAmountTexts(stored: string)
    requires stored == "1234.56"
    ensures AmountInDomain(stored) && ExactPrefix(ParseFloatPrefix(stored))
    ensures FormatAmount(stored) == "123.456,00"
    ensures FormatStoredAmount(stored) == "1.234,56"
  {
    StoredAmountExample(stored);
    MisreadDisplayText(12345600);
    StoredDisplayText(123456);
  }
}
