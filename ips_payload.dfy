/**
 * The NBS IPS payload: the pipe-separated text put into the payment QR code,
 * built from the fields of a payment order. Each field is a tag, a colon and
 * the formatted value; the reference field `RO` is added only when a
 * reference is given.
 */
module IpsPayload {
  import opened JsStrings
  import opened Transliteration
  import opened BankAccount
  import opened Amount
  import opened PaymentCode
  import opened Model97
  import opened IpsTemplate

  /** A payment order as the form holds it: every field is free text. */
  datatype PaymentData = PaymentData(
    payerName: string,
    payerAddress: string,
    payerCity: string,
    purpose: string,
    receiverName: string,
    receiverAddress: string,
    receiverCity: string,
    receiverAccount: string,
    paymentCode: string,
    currency: string,
    amount: string,
    model: string,
    reference: string)

  // ---------------------------------------------------------------------------
  // The fields

  /** Name, then address and city on lines of their own when given, all transliterated. */
  function PartyLines(name: string, address: string, city: string): (r: string)
    ensures |r| == |Transliterate(name)|
      + (if address != [] then 1 + |Transliterate(address)| else 0)
      + (if city != [] then 1 + |Transliterate(city)| else 0)
    ensures r[..|Transliterate(name)|] == Transliterate(name)
    ensures address == [] && city == [] ==> r == Transliterate(name)
  {
    var lines := Transliterate(name);
    var lines := if address != [] then lines + "\n" + Transliterate(address) else lines;
    if city != [] then lines + "\n" + Transliterate(city) else lines
  }

  /** The party lines cut to the 70 characters the `N` and `P` fields allow. */
  function PartyBlock(name: string, address: string, city: string): (r: string)
    ensures |r| <= 70 && |r| <= |PartyLines(name, address, city)|
    ensures r == PartyLines(name, address, city)[..|r|]
    ensures |PartyLines(name, address, city)| <= 70 ==> r == PartyLines(name, address, city)
    ensures |r| == if |PartyLines(name, address, city)| <= 70 then |PartyLines(name, address, city)| else 70
  {
    Take(PartyLines(name, address, city), 70)
  }

  /** The purpose, transliterated and cut to 35 characters. */
  function Purpose(purpose: string): (r: string)
    ensures |r| <= 35 && |r| <= |Transliterate(purpose)| && r == Transliterate(purpose)[..|r|]
    ensures |r| == if |Transliterate(purpose)| <= 35 then |Transliterate(purpose)| else 35
  {
    Take(Transliterate(purpose), 35)
  }

  /** The currency, `RSD` when none is given. */
  function Currency(currency: string): (r: string)
    ensures r != []
    ensures currency != [] ==> r == currency
    ensures currency == [] ==> r == "RSD"
  {
    if currency != [] then currency else "RSD"
  }

  /**
   * The model written in the `RO` field: `97`, the given model, or `00` when
   * none is given. The `97` case writes the model as given too, so every
   * given model is written verbatim.
   */
  function ModelPrefix(model: string): (r: string)
    ensures r != []
    ensures model != [] ==> r == model
    ensures model == [] ==> r == "00"
  {
    if model == "97" then "97" else if model != [] then model else "00"
  }

  /** The reference written in the `RO` field: trimmed, and with Model 97 check digits in front under model 97. */
  function FormattedReference(model: string, reference: string): (r: string)
    ensures model != "97" ==> r == Trim(reference)
    ensures model == "97" ==> var clean := CleanReference(Trim(reference));
      && (r == [] <==> clean == [])
      && (r != [] ==> |r| == |clean| + 2 && AllDigits(r[..2]) && r[2..] == clean)
  {
    var trimmed := Trim(reference);
    if model == "97" then CalculateModel97(trimmed) else trimmed
  }

  /** A reference is given when it holds more than white space. */
  predicate HasReference(reference: string)
  {
    reference != [] && Trim(reference) != []
  }

  /** The optional `|RO:` field. */
  function ReferenceField(model: string, reference: string): (r: string)
    ensures r == [] <==> !HasReference(reference)
  {
    if HasReference(reference) then
      "|RO:" + ModelPrefix(model) + FormattedReference(model, reference)
    else []
  }

  /**
   * The payload for a formatted amount: the template filled with the
   * formatted account, receiver, currency and amount, payer, code, purpose
   * and optional reference.
   */
  function Payload(data: PaymentData, formattedAmount: string): string
    requires PaymentCodeInRange(data.paymentCode)
  {
    Template(
      FormatBankAccount(data.receiverAccount),
      PartyBlock(data.receiverName, data.receiverAddress, data.receiverCity),
      Currency(data.currency) + formattedAmount,
      PartyBlock(data.payerName, data.payerAddress, data.payerCity),
      FormatPaymentCode(data.paymentCode),
      Purpose(data.purpose),
      ReferenceField(data.model, data.reference))
  }

  /** The order names a receiver's account, an amount and a receiver. */
  predicate Complete(data: PaymentData)
  {
    data.receiverAccount != [] && data.amount != [] && data.receiverName != []
  }

  /**
   * `generateIPSString`: no payload for an incomplete order, otherwise the
   * payload with the amount in its display form.
   */
  function GenerateIPSString(data: PaymentData): (r: Option<string>)
    requires Complete(data) ==> AmountInDomain(data.amount) && PaymentCodeInRange(data.paymentCode)
    ensures r.None? <==> !Complete(data)
    ensures r.Some? ==> r.value == Payload(data, FormatAmount(data.amount))
  {
    if !Complete(data) then None
    else Some(Payload(data, FormatAmount(data.amount)))
  }

  /**
   * The generator for an amount stored with a decimal point, as the form
   * stores it: the amount is read as the number it holds.
   */
  function GenerateStoredIPSString(data: PaymentData): (r: Option<string>)
    requires Complete(data) ==> ExactPrefix(ParseFloatPrefix(data.amount)) && PaymentCodeInRange(data.paymentCode)
    ensures r.None? <==> !Complete(data)
    ensures r.Some? ==> r.value == Payload(data, FormatStoredAmount(data.amount))
  {
    if !Complete(data) then None
    else Some(Payload(data, FormatStoredAmount(data.amount)))
  }

  // ---------------------------------------------------------------------------
  // The payload read back

  /** The fields of the payload, tag and value, in order. */
  function Fields(data: PaymentData, formattedAmount: string): seq<string>
    requires PaymentCodeInRange(data.paymentCode)
  {
    HeaderParts +
    ["R:" + FormatBankAccount(data.receiverAccount),
     "N:" + PartyBlock(data.receiverName, data.receiverAddress, data.receiverCity),
     "I:" + (Currency(data.currency) + formattedAmount),
     "P:" + PartyBlock(data.payerName, data.payerAddress, data.payerCity),
     "SF:" + FormatPaymentCode(data.paymentCode),
     "S:" + Purpose(data.purpose)]
    + (if HasReference(data.reference)
       then ["RO:" + ModelPrefix(data.model) + FormattedReference(data.model, data.reference)]
       else [])
  }

  /** No free-text field of the order holds the field separator `|`. */
  predicate NoBars(data: PaymentData)
  {
    && '|' !in data.payerName && '|' !in data.payerAddress && '|' !in data.payerCity
    && '|' !in data.purpose
    && '|' !in data.receiverName && '|' !in data.receiverAddress && '|' !in data.receiverCity
    && '|' !in data.currency && '|' !in data.model && '|' !in data.reference
  }

  /** Transliteration never writes `|`. */
  lemma {:induction false} TransliterateNoBar(s: string)
    requires '|' !in s
    ensures '|' !in Transliterate(s)
  {
    TransliterateKeepsOut(s, '|');
  }

  lemma {:induction false} PartyNoBar(name: string, address: string, city: string)
    requires '|' !in name && '|' !in address && '|' !in city
    ensures '|' !in PartyBlock(name, address, city)
  {
    TransliterateNoBar(name);
    TransliterateNoBar(address);
    TransliterateNoBar(city);
    TakeKeepsOut(PartyLines(name, address, city), 70, '|');
  }

  lemma {:induction false} PaymentCodeNoBar(code: string)
    requires PaymentCodeInRange(code)
    ensures '|' !in FormatPaymentCode(code)
  {
    var s := FormatPaymentCode(code);
    var i := BaseCode(code) + 100;
    if i < 0 {
      DigitsNoBar(s[1..]);
      assert s == [s[0]] + s[1..];
    } else {
      DigitsNoBar(s);
    }
  }

  lemma {:induction false} ReferenceNoBar(model: string, reference: string)
    requires '|' !in model && '|' !in reference
    ensures '|' !in ModelPrefix(model) + FormattedReference(model, reference)
  {
    var t := Trim(reference);
    assert '|' !in t;
    if model == "97" {
      Model97KeepsOut(t, '|');
    }
  }

  /**
   * Splitting the payload at `|` gives back its fields when no free text
   * holds a `|`: the account, receiver, amount, payer, code, purpose and
   * reference can each be read back whole.
   */
  lemma {:induction false} PayloadSplit(data: PaymentData, formattedAmount: string)
    requires PaymentCodeInRange(data.paymentCode)
    requires NoBars(data) && '|' !in formattedAmount
    ensures SplitOn(Payload(data, formattedAmount), '|') == Fields(data, formattedAmount)
  {
    var r := FormatBankAccount(data.receiverAccount);
    var n := PartyBlock(data.receiverName, data.receiverAddress, data.receiverCity);
    var cur := Currency(data.currency);
    var p := PartyBlock(data.payerName, data.payerAddress, data.payerCity);
    var sf := FormatPaymentCode(data.paymentCode);
    var st := Purpose(data.purpose);
    var ro := ReferenceField(data.model, data.reference);
    ValuesNoBar(data, formattedAmount);
    TemplateSplit(r, n, cur + formattedAmount, p, sf, st, ro);
    if HasReference(data.reference) {
      ReferenceFieldShape(data.model, data.reference);
    }
  }

  /** The reference field is a separator followed by the tagged reference. */
  lemma {:induction false} ReferenceFieldShape(model: string, reference: string)
    requires HasReference(reference)
    ensures var ro := ReferenceField(model, reference);
      ro != [] && ro[0] == '|' && ro[1..] == "RO:" + ModelPrefix(model) + FormattedReference(model, reference)
  {
    var a, b := ModelPrefix(model), FormattedReference(model, reference);
    assert ReferenceField(model, reference) == "|RO:" + a + b;
    TaggedAfterBar(a, b);
  }

  lemma {:induction false} TaggedAfterBar(a: string, b: string)
    ensures var f := "|RO:" + a + b; f != [] && f[0] == '|' && f[1..] == "RO:" + a + b
  {
  }

  /** No value written into the payload holds `|` when no free text does. */
  lemma {:induction false} ValuesNoBar(data: PaymentData, formattedAmount: string)
    requires PaymentCodeInRange(data.paymentCode)
    requires NoBars(data) && '|' !in formattedAmount
    ensures '|' !in FormatBankAccount(data.receiverAccount)
    ensures '|' !in PartyBlock(data.receiverName, data.receiverAddress, data.receiverCity)
    ensures '|' !in Currency(data.currency) + formattedAmount
    ensures '|' !in PartyBlock(data.payerName, data.payerAddress, data.payerCity)
    ensures '|' !in FormatPaymentCode(data.paymentCode)
    ensures '|' !in Purpose(data.purpose)
    ensures var ro := ReferenceField(data.model, data.reference);
      ro == [] || (ro[0] == '|' && '|' !in ro[1..])
  {
    assert '|' !in FormatBankAccount(data.receiverAccount) by {
      DigitsNoBar(FormatBankAccount(data.receiverAccount));
    }
    assert '|' !in PartyBlock(data.receiverName, data.receiverAddress, data.receiverCity) by {
      PartyNoBar(data.receiverName, data.receiverAddress, data.receiverCity);
    }
    assert '|' !in PartyBlock(data.payerName, data.payerAddress, data.payerCity) by {
      PartyNoBar(data.payerName, data.payerAddress, data.payerCity);
    }
    assert '|' !in FormatPaymentCode(data.paymentCode) by {
      PaymentCodeNoBar(data.paymentCode);
    }
    assert '|' !in Purpose(data.purpose) by {
      TransliterateNoBar(data.purpose);
      TakeKeepsOut(Transliterate(data.purpose), 35, '|');
    }
    assert '|' !in Currency(data.currency) + formattedAmount by {
      CurrencyNoBar(data.currency, formattedAmount);
    }
    ReferenceFieldNoBar(data.model, data.reference);
  }

  lemma {:induction false} CurrencyNoBar(currency: string, formattedAmount: string)
    requires '|' !in currency && '|' !in formattedAmount
    ensures '|' !in Currency(currency) + formattedAmount
  {
  }

  /** The reference field holds `|` only as its leading separator. */
  lemma {:induction false} ReferenceFieldNoBar(model: string, reference: string)
    requires '|' !in model && '|' !in reference
    ensures var ro := ReferenceField(model, reference);
      ro == [] || (ro[0] == '|' && '|' !in ro[1..])
  {
    if HasReference(reference) {
      ReferenceNoBar(model, reference);
      ReferenceFieldShape(model, reference);
    }
  }

  // ---------------------------------------------------------------------------
  // Properties of the generator

  /** A complete order whose free text holds no `|` gives a payload that splits back into its fields. */
  lemma {:induction false} GeneratedFields(data: PaymentData)
    requires Complete(data) && AmountInDomain(data.amount) && PaymentCodeInRange(data.paymentCode)
    requires NoBars(data)
    ensures GenerateIPSString(data).Some?
    ensures SplitOn(GenerateIPSString(data).value, '|') == Fields(data, FormatAmount(data.amount))
  {
    FormatAmountNoBar(data.amount);
    PayloadSplit(data, FormatAmount(data.amount));
  }

  /** The name, address and city lines split back at line breaks when none holds one. */
  lemma {:induction false} PartyLinesSplit(name: string, address: string, city: string)
    requires '\n' !in name && '\n' !in address && '\n' !in city
    ensures SplitOn(PartyLines(name, address, city), '\n')
      == [Transliterate(name)]
         + (if address != [] then [Transliterate(address)] else [])
         + (if city != [] then [Transliterate(city)] else [])
  {
    var n, a, c := Transliterate(name), Transliterate(address), Transliterate(city);
    TransliterateKeepsOut(name, '\n');
    TransliterateKeepsOut(address, '\n');
    TransliterateKeepsOut(city, '\n');
    SplitOnNoSeparator(n, '\n');
    var first := if address != [] then n + "\n" + a else n;
    if address != [] {
      assert first == n + ['\n'] + a;
      SplitOnPair(n, '\n', a);
    }
    if city != [] {
      assert PartyLines(name, address, city) == first + ['\n'] + c;
      SplitOnAppend(first, '\n', c);
      SplitOnNoSeparator(c, '\n');
    } else {
      assert PartyLines(name, address, city) == first;
    }
  }

  /**
   * Under model 97 the `RO` field is `97`, the two check digits and the
   * cleaned reference (`Model97.Model97Checks` states what the check digits
   * satisfy).
   */
  lemma {:induction false} ReferenceModel97(reference: string)
    requires HasReference(reference) && CleanReference(Trim(reference)) != []
    ensures var r := CalculateModel97(Trim(reference));
      && |r| >= 2 && AllDigits(r[..2])
      && ReferenceField("97", reference) == "|RO:97" + r[..2] + CleanReference(Trim(reference))
  {
    var r := CalculateModel97(Trim(reference));
    ReferenceUnder97(reference);
    SplitAtTwo("|RO:97", r);
  }

  lemma {:induction false} SplitAtTwo(prefix: string, r: string)
    requires |r| >= 2
    ensures prefix + r == prefix + r[..2] + r[2..]
  {
    assert r == r[..2] + r[2..];
  }

  /** Under model 97 the `RO` field is `97` and the reference in its Model 97 form. */
  lemma {:induction false} ReferenceUnder97(reference: string)
    requires HasReference(reference)
    ensures ReferenceField("97", reference) == "|RO:97" + CalculateModel97(Trim(reference))
  {
    var v := CalculateModel97(Trim(reference));
    assert ReferenceField("97", reference) == "|RO:" + ModelPrefix("97") + v by {
      assert FormattedReference("97", reference) == v;
    }
    assert "|RO:" + ModelPrefix("97") == "|RO:97" by {
      assert ModelPrefix("97") == "97";
    }
  }

  /** Under any other model the `RO` field is that model (`00` when none is given) and the trimmed reference. */
  lemma {:induction false} ReferenceOtherModel(model: string, reference: string)
    requires HasReference(reference) && model != "97"
    ensures ReferenceField(model, reference) == "|RO:" + (if model == [] then "00" else model) + Trim(reference)
  {
    ReferenceFieldShape(model, reference);
  }

  /** The stored amount `a.b` of the form, given to the corrected generator, gives the payload of the typed `a,b`. */
  lemma {:induction false} StoredGeneratorAgrees(data: PaymentData, a: string, b: string)
    requires AllDigits(a) && AllDigits(b) && a != [] && |b| <= 2 && DigitsValue(a) < WholeLimit
    requires data.amount == a + "." + b && PaymentCodeInRange(data.paymentCode)
    ensures ExactPrefix(ParseFloatPrefix(data.amount))
    ensures var typed := data.(amount := a + "," + b);
      AmountInDomain(typed.amount) && GenerateStoredIPSString(data) == GenerateIPSString(typed)
  {
    StoredAmountRead(a, b);
    var typed := data.(amount := a + "," + b);
    assert Complete(data) == Complete(typed);
    assert Payload(data, FormatAmount(typed.amount)) == Payload(typed, FormatAmount(typed.amount));
  }

  /**
   * The generator as written, given the stored amount `a.b` with one or two
   * decimals, writes an amount other than the one the order holds.
   */
  lemma {:induction false} StoredGeneratorMisreads(data: PaymentData, a: string, b: string)
    requires AllDigits(a) && AllDigits(b) && a != [] && 1 <= |b| <= 2
    requires DigitsValue(a + b) < WholeLimit && DigitsValue(a + b) > 0
    requires data.amount == a + "." + b && PaymentCodeInRange(data.paymentCode)
    requires data.receiverAccount != [] && data.receiverName != [] && NoBars(data)
    ensures AmountInDomain(data.amount) && ExactPrefix(ParseFloatPrefix(data.amount))
    ensures GenerateIPSString(data) != GenerateStoredIPSString(data)
  {
    assert AmountInDomain(data.amount) && ExactPrefix(ParseFloatPrefix(data.amount))
      && FormatAmount(data.amount) != FormatStoredAmount(data.amount) by {
      StoredAmountMisread(a, b);
    }
    var written, meant := FormatAmount(data.amount), FormatStoredAmount(data.amount);
    assert '|' !in written by {
      FormatAmountNoBar(data.amount);
    }
    assert '|' !in meant by {
      PrefixValue(a, b);
      StoredAmountRead(a, b);
      FormatAmountNoBar(a + "," + b);
    }
    var fw, fm := Fields(data, written), Fields(data, meant);
    assert SplitOn(Payload(data, written), '|') == fw by {
      PayloadSplit(data, written);
    }
    assert SplitOn(Payload(data, meant), '|') == fm by {
      PayloadSplit(data, meant);
    }
    assert fw[5] != fm[5] by {
      var cur := Currency(data.currency);
      FieldsAmount(data, written);
      FieldsAmount(data, meant);
      AmountField(cur, written, meant);
      AmountField("I:", cur + written, cur + meant);
    }
  }

  /** Two fields with the same tag and different values differ. */
  lemma {:induction false} AmountField(tag: string, x: string, y: string)
    requires x != y
    ensures tag + x != tag + y
  {
    assert (tag + x)[|tag|..] == x;
    assert (tag + y)[|tag|..] == y;
  }

  /** The sixth field carries the currency and the amount. */
  lemma {:induction false} FieldsAmount(data: PaymentData, formattedAmount: string)
    requires PaymentCodeInRange(data.paymentCode)
    ensures |Fields(data, formattedAmount)| >= 9
    ensures Fields(data, formattedAmount)[5] == "I:" + (Currency(data.currency) + formattedAmount)
  {
    var extra := if HasReference(data.reference)
      then ["RO:" + ModelPrefix(data.model) + FormattedReference(data.model, data.reference)]
      else [];
    SixthField("R:" + FormatBankAccount(data.receiverAccount),
      "N:" + PartyBlock(data.receiverName, data.receiverAddress, data.receiverCity),
      "I:" + (Currency(data.currency) + formattedAmount),
      "P:" + PartyBlock(data.payerName, data.payerAddress, data.payerCity),
      "SF:" + FormatPaymentCode(data.paymentCode),
      "S:" + Purpose(data.purpose), extra);
  }

  lemma {:induction false} SixthField(r: string, n: string, i: string, p: string, sf: string, st: string, extra: seq<string>)
    ensures |HeaderParts + [r, n, i, p, sf, st] + extra| >= 9
    ensures (HeaderParts + [r, n, i, p, sf, st] + extra)[5] == i
  {
    assert |HeaderParts| == 3;
  }

  /** The digits before the point are worth no more than all the digits. */
  lemma {:induction false} PrefixValue(a: string, b: string)
    requires AllDigits(a) && AllDigits(b)
    ensures AllDigits(a + b) && DigitsValue(a) <= DigitsValue(a + b)
  {
    DigitsValueAppend(a, b);
    AtLeastOnce(DigitsValue(a), Pow10(|b|));
  }

  lemma {:induction false} AtLeastOnce(x: nat, p: nat)
    requires p >= 1
    ensures x * p >= x
  {
    assert x * p == x * (p - 1) + x;
  }
}
