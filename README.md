# IPS payment-slip QR payload

This project models the generator of the NBS IPS QR text for a Serbian
payment order (uplatnica). It takes a payment order as the entry form holds
it, all free text: payer, receiver, account, payment code, currency, amount,
model and reference. From that it builds the pipe-separated payload
`K:PR|V:01|C:1|R:…|N:…|I:…|P:…|SF:…|S:…[|RO:…]`. The steps are:

- The receiver's account is reduced to its digits and, once it holds at
  least three, normalised to the 18-digit form: bank code, a zero-padded
  account number and check digits. With no digits the field is empty;
  one or two digits give a field of 16 or 17 digits.
- Names, addresses, cities and the purpose are transliterated from Serbian
  Cyrillic to Latin, then cut to the lengths of their fields.
- The amount is re-read with the Serbian conventions: dot for thousands,
  comma for decimals. It is then written with two decimals and dot-grouped
  thousands.
- The payment code is raised by 100.
- A reference under model 97 gets check digits that make its numeral
  followed by them 1 modulo 97 (the ISO 7064 MOD 97-10 test). This variant
  writes 00 and 01 where ISO 7064 writes 97 and 98.

Every function of the generator is pure, so the model consists of
datatypes, functions and lemmas. There is one module per concern:

- `JsStrings`: the JavaScript string and number primitives the generator
  relies on: trim, split, padStart, substring, the replacements, integer
  printing.
- `Transliteration`: the letter table and `transliterate`.
- `BankAccount`: `formatBankAccount`.
- `Amount`: `formatAmount`. It includes the `parseFloat` prefix grammar,
  `toFixed(2)` and the thousands regular expression.
- `PaymentCode`: `formatPaymentCode`, with `parseInt` and its `0x` form.
- `Model97`: `calculateModel97`. It includes the BigInt reading of the
  numeral and the BigInt remainder.
- `IpsTemplate`: the fixed header and the payload template, and how the
  template splits back at `|`.
- `IpsPayload`: the `PaymentData` record (types.ts:1-19) and `generateIPSString`.

## Model

| member | source | states |
|---|---|---|
| Transliteration.TableKeys | src/utils/ipsGenerator.ts:3-14 | Every key of the letter table is a letter of the Cyrillic block, never a Latin letter. |
| Transliteration.TableValues | src/utils/ipsGenerator.ts:3-14 | Every value of the letter table is one or two Latin letters. |
| Transliteration.Transliterate | src/utils/ipsGenerator.ts:16-19 | The output is at least as long as the input and at most twice as long. |
| Transliteration.TransliterateAppend | src/utils/ipsGenerator.ts:18 | Transliteration works character by character, so it distributes over concatenation. |
| Transliteration.TransliterateUnmapped | src/utils/ipsGenerator.ts:18 | A text with no table letter is returned unchanged: the fallback is the character itself. |
| Transliteration.TransliterateOutput | src/utils/ipsGenerator.ts:16-19 | Every output character is a Latin letter, or an input character that is not in the table. |
| Transliteration.TransliterateIdempotent | src/utils/ipsGenerator.ts:16-19 | Transliterating twice gives the same text as transliterating once. |
| Transliteration.TransliterateKeepsOut | src/utils/ipsGenerator.ts:16-19 | A non-Latin character missing from the input is missing from the output. |
| Transliteration.DigraphTitleCase | src/utils/ipsGenerator.ts:11 | `Љубав` becomes `LJubav`: the capital digraph is always written in two capitals. |
| BankAccount.FormatBankAccount | src/utils/ipsGenerator.ts:21-32 | The result is empty exactly when the account holds no digit. It is all digits, and it is 18 long once the account has three digits. |
| BankAccount.FormatBankAccountCases | src/utils/ipsGenerator.ts:23-31 | Fewer than three digits get fifteen zeros after them. Three to eighteen digits get `18 - n` zeros after the bank code. Longer inputs keep their first eighteen digits. |
| BankAccount.BankCodeLeads | src/utils/ipsGenerator.ts:27-31 | The first three digits of the account open the field unpadded. |
| BankAccount.FormatBankAccountIdempotent | src/utils/ipsGenerator.ts:21-32 | An account with at least three digits, once normalised, normalises to itself. |
| BankAccount.ShortAccountNotIdempotent | src/utils/ipsGenerator.ts:24-31 | One or two digits give a 16- or 17-digit field, which normalises differently a second time. |
| BankAccount.HyphenatedAccount | src/utils/ipsGenerator.ts:23-31 | `bank-number-check` with the number's leading zeros left out gets those zeros put back between the bank code and the number. |
| BankAccount.BankCodeOnly | src/utils/ipsGenerator.ts:27-29 | A bare three-digit bank code is followed by fifteen zeros. |
| Amount.CleanAmount | src/utils/ipsGenerator.ts:36 | Cleaning never lengthens the text. Without a comma no point is left. A text with neither a dot nor a comma is left unchanged. |
| Amount.CleanAmountSplit | src/utils/ipsGenerator.ts:36 | Cleaning drops every dot and turns only the first comma into a point. |
| Amount.ParseFloatPrefix | src/utils/ipsGenerator.ts:37 | What `parseFloat` reads is NaN, an infinity, or a digit prefix with something after it that is not a digit. |
| Amount.ParseDecimalReads | src/utils/ipsGenerator.ts:37 | After the sign, the result is NaN exactly when the text opens with neither a digit nor a point followed by a digit. Otherwise the integer digits are all the leading digits of the text. A point right after them is consumed, and the decimals are all the digits after it. The rest is what is left at the end. |
| Amount.DecimalOfUnique | src/utils/ipsGenerator.ts:37 | That description of the reading leaves no choice: a text has at most one reading that meets it. |
| Amount.ParseFloatReads | src/utils/ipsGenerator.ts:37 | Leading white space is skipped. A minus sign makes the number negative, and one sign is skipped. The text after it gives an infinity exactly when it opens with `Infinity`, NaN exactly when it opens with no number, and otherwise the number read in place. |
| Amount.InsertSeparatorsDigits | src/utils/ipsGenerator.ts:45 | On a digit string, the `\B(?=(\d{3})+(?!\d))` replacement equals grouping in threes from the right. |
| Amount.DigitBoundaries | src/utils/ipsGenerator.ts:45 | The regular expression matches a digit string exactly at the inner positions where a multiple of three digits follows. |
| Amount.SignedInsertSeparators | src/utils/ipsGenerator.ts:45 | A leading minus sign does not move the separators. |
| Amount.ThousandsGrouped | src/utils/ipsGenerator.ts:45 | The grouped integer has a first group of one to three digits and every later group of exactly three. |
| Amount.ThousandsRemoveDots | src/utils/ipsGenerator.ts:45 | Grouping only inserts dots: removing them gives the digits back. |
| Amount.FormatAmount | src/utils/ipsGenerator.ts:34-49 | NaN gives `0,00`. An infinity gives `Infinity,undefined`. A number gives its display form with the parsed value in hundredths. |
| Amount.DisplayShape | src/utils/ipsGenerator.ts:41-48 | A finite result is a sign, the grouped digits of `n / 100`, a comma and two decimals; the value of those digits and decimals is `n`. |
| Amount.ToFixed2 | src/utils/ipsGenerator.ts:41 | An infinity prints as its name. A number of `n` hundredths prints as a minus sign when it is negative and not zero, then `n / 100` written by `toString`, a point, and `n % 100` on two digits. |
| Amount.FixedTextShape | src/utils/ipsGenerator.ts:41 | `toFixed(2)` writes the integer `n / 100`, a point and `n % 100` on two digits. |
| Amount.FormatFixedDigits | src/utils/ipsGenerator.ts:42-48 | A signed digit text with a point is split there: the integer digits are grouped in threes, then a comma, then the decimals unchanged. |
| Amount.DisplayReads | src/utils/ipsGenerator.ts:36-37 | A display form, cleaned and read by `parseFloat`, gives back the same number of hundredths. |
| Amount.DisplayInjective | src/utils/ipsGenerator.ts:41-48 | Different amounts have different display forms. |
| Amount.FormatAmountIdempotent | src/utils/ipsGenerator.ts:34-49 | Formatting a formatted amount returns it unchanged. |
| Amount.DisplayReformats | src/utils/ipsGenerator.ts:34-49 | Every display form is in the covered domain and formats to itself. |
| Amount.InfinityReformats | src/utils/ipsGenerator.ts:37-48 | `Infinity,undefined` formats to itself. |
| Amount.NotANumberAmount | src/utils/ipsGenerator.ts:37-38 | Text with no dot or comma that does not open with a number formats as `0,00`. |
| Amount.FormatAmountNoBar | src/utils/ipsGenerator.ts:34-49 | No formatted amount holds the payload's separator bar. |
| Amount.StoredAmountDotDropped | src/App.tsx:70-79 | As written: the stored amount `a.b` is displayed as the whole number `ab`. |
| Amount.StoredScale | src/App.tsx:70-79 | That whole number is ten to the power of the number of decimals times the stored value. |
| Amount.StoredAmountMisread | src/utils/ipsGenerator.ts:36 | As written: for every non-zero stored amount with one or two decimals, the stored amount is displayed as a different amount than it holds. |
| Amount.StoredAmountExample | src/App.tsx:73 | The stored `1234.56` is displayed as the amount 123456 with no cents, and not as its own value 1234.56. The two display forms differ. |
| Amount.StoredAmountTexts | src/App.tsx:73 | As text, the stored `1234.56` is written as `123.456,00`, while its own value reads `1.234,56`. |
| Amount.PointAndCommaParse | src/utils/ipsGenerator.ts:36-37 | `parseFloat` reads the stored `a.b` as the same number that the cleaned display form `a,b` gives. |
| Amount.StoredAmountRead | src/utils/ipsGenerator.ts:37-48 | Corrected: the stored `a.b`, read as the number it holds, is displayed exactly as the typed `a,b`. |
| PaymentCode.BaseCode | src/utils/ipsGenerator.ts:52 | The code used is never zero. It is the number `parseInt` reads when that is neither NaN nor zero, and 189 otherwise. |
| PaymentCode.SignedDigits | src/utils/ipsGenerator.ts:52 | `parseInt` skips one minus sign and reads the digits after it. |
| PaymentCode.UnsignedDecimal | src/utils/ipsGenerator.ts:52 | Digits that do not form a `0x` prefix are read in base 10, up to the first non-digit. |
| PaymentCode.FormatPaymentCode | src/utils/ipsGenerator.ts:51-61 | The `SF` text is the code used plus 100, as `toString` writes it: a minus sign exactly when the number is negative, then its magnitude in digits with no leading zero. Reading it back gives that number. |
| PaymentCode.FormatPaymentCodeUnique | src/utils/ipsGenerator.ts:60 | No other text has that shape, so the contract fixes the `SF` text exactly. |
| PaymentCode.ParseIntToString | src/utils/ipsGenerator.ts:60 | `parseInt` reads back any integer written by `toString`. |
| PaymentCode.ParseIntEmpty | src/utils/ipsGenerator.ts:52 | `parseInt` of the empty text is NaN. |
| PaymentCode.ParseIntNoDigits | src/utils/ipsGenerator.ts:52 | A text that opens with anything but white space, a sign or a digit is NaN. |
| PaymentCode.DefaultCodeUsed | src/utils/ipsGenerator.ts:52 | A code that is not a number, or is zero, is written as 289. |
| PaymentCode.DecimalCode | src/utils/ipsGenerator.ts:52-60 | A positive decimal code `k` is written as `k + 100`. |
| PaymentCode.StandardCode | src/utils/ipsGenerator.ts:57 | 189 is written as 289. |
| PaymentCode.ShiftedCodeShiftedAgain | src/utils/ipsGenerator.ts:58 | A code typed as 289 is written as 389. |
| PaymentCode.HexCode | src/utils/ipsGenerator.ts:52 | `0x` and hexadecimal digits are read in base 16. |
| PaymentCode.TrailingTextIgnored | src/utils/ipsGenerator.ts:52 | Whatever follows the leading decimal digits is ignored. |
| Model97.StripSeparators | src/utils/ipsGenerator.ts:71 | The result holds no white space and no hyphen. Its characters are exactly the input characters that are neither. |
| Model97.StripSeparatorsAppend | src/utils/ipsGenerator.ts:71 | Stripping distributes over concatenation, so characters are kept in their order. |
| Model97.StripSeparatorsPlain | src/utils/ipsGenerator.ts:71 | A text with no white space and no hyphen is kept whole. |
| Model97.CleanReference | src/utils/ipsGenerator.ts:71 | No white space, hyphen or lower-case ASCII letter is left. |
| Model97.CleanReferenceAppend | src/utils/ipsGenerator.ts:71 | Cleaning distributes over concatenation. |
| Model97.CleanReferencePlain | src/utils/ipsGenerator.ts:71 | A reference with no white space and no hyphen is only capitalised. |
| Model97.CleanKeepsOut | src/utils/ipsGenerator.ts:71 | Cleaning introduces no character other than capital letters. |
| Model97.CharNumeral | src/utils/ipsGenerator.ts:64-76 | A capital letter becomes the two digits of its number, 10 to 35. Any other character stays. |
| Model97.Numeral | src/utils/ipsGenerator.ts:74-76 | Each character becomes one or two characters, so the numeral is between the reference's length and twice that length. |
| Model97.NumeralChar | src/utils/ipsGenerator.ts:74-76 | The numeral of a single character is that character's expansion. |
| Model97.NumeralAppend | src/utils/ipsGenerator.ts:74-76 | The numeral distributes over concatenation, so each character is expanded in place and in order. |
| Model97.NumeralChars | src/utils/ipsGenerator.ts:74-76 | Every numeral character is a digit or a non-letter of the reference, and every such character of the reference survives. |
| Model97.AlphaNumericNumeral | src/utils/ipsGenerator.ts:74-76 | The numeral is all digits exactly when the reference is all digits and capital letters. |
| Model97.ParseBigIntPlain | src/utils/ipsGenerator.ts:80 | BigInt accepts a text without white space exactly when it is digits after at most one sign. It then reads their value, negated after a minus sign. |
| Model97.ParseBigIntNoMinus | src/utils/ipsGenerator.ts:80 | A text with no minus sign is never read as a negative number. |
| Model97.NumeralParse | src/utils/ipsGenerator.ts:74-80 | The numeral of a cleaned reference is an integer for BigInt exactly when the reference is alphanumeric after at most one leading `+`. |
| Model97.CheckNumber | src/utils/ipsGenerator.ts:81 | For a non-negative numeral, the check number lies in 0..96, and the numeral followed by it is 1 modulo 97. |
| Model97.Iso7064Variant | src/utils/ipsGenerator.ts:81 | ISO 7064 MOD 97-10 writes `98 - N*100 mod 97`, a number in 2..98 that also gives 1 modulo 97. The check number differs from it exactly when `N*100 mod 97` is 0 or 1, and then it is 97 less: 1 for 98 and 0 for 97. |
| Model97.Iso7064Departures | src/utils/ipsGenerator.ts:81 | The numeral 97 gets 1 where ISO 7064 gives 98, and the numeral 65 gets 0 where ISO 7064 gives 97. |
| Model97.CheckDigitsText | src/utils/ipsGenerator.ts:82 | The check number is padded to exactly two digits of the same value. |
| Model97.CalculateModel97 | src/utils/ipsGenerator.ts:63-86 | The result is empty exactly when nothing is left after cleaning. Otherwise it is two digits followed by the cleaned reference. |
| Model97.CheckField | src/utils/ipsGenerator.ts:79-85 | The check field is always two digits, including the fallback `00`. |
| Model97.Model97Checks | src/utils/ipsGenerator.ts:74-82 | For an alphanumeric reference, the numeral followed by the check digits is 1 modulo 97, which is the ISO 7064 MOD 97-10 test. |
| Model97.Model97Integral | src/utils/ipsGenerator.ts:79-82 | An alphanumeric reference gets the check digits of the value of its numeral. |
| Model97.Model97Fallback | src/utils/ipsGenerator.ts:83-85 | Any other reference gets `00` in front. |
| Model97.CheckValue | src/utils/ipsGenerator.ts:81-82 | A digit string followed by its check digits is 1 modulo 97. |
| Model97.Model97Example | src/utils/ipsGenerator.ts:63-86 | `a-1` becomes `86A1`. |
| Model97.Model97KeepsOut | src/utils/ipsGenerator.ts:71-84 | A character that is not in the reference, not a digit and not a capital letter is not in the result. |
| IpsTemplate.TemplateSplit | src/utils/ipsGenerator.ts:112-123 | Split at the separator bar, the template gives the three header fields, the six tagged fields and the reference field when there is one. |
| IpsPayload.PartyLines | src/utils/ipsGenerator.ts:94-96 | The name comes first. Its length is the name's, plus one line break and the address or city for each one given. With neither given, it is the name alone. |
| IpsPayload.PartyBlock | src/utils/ipsGenerator.ts:94-97 | The `N` and `P` text is a prefix of the transliterated lines. It is exactly 70 long when the lines are longer, and complete when they fit. |
| IpsPayload.PartyLinesSplit | src/utils/ipsGenerator.ts:94-96 | Without line breaks in its parts, the party text splits back into the name and the given address and city. |
| IpsPayload.Purpose | src/utils/ipsGenerator.ts:108 | The purpose is a prefix of its transliteration. It is exactly 35 long when the transliteration is longer, and complete when it fits. |
| IpsPayload.Currency | src/utils/ipsGenerator.ts:109 | The currency is the given one, or `RSD` when none is given. |
| IpsPayload.ModelPrefix | src/utils/ipsGenerator.ts:116 | A given model is written as given, `97` included. No model gives `00`. |
| IpsPayload.FormattedReference | src/utils/ipsGenerator.ts:117-121 | Under any model but 97, the reference is trimmed. Under 97 it is empty exactly when nothing is left after cleaning; otherwise it is two digits and the cleaned reference. |
| IpsPayload.ReferenceField | src/utils/ipsGenerator.ts:115-124 | The `RO` field is absent exactly when the reference is empty or white space. |
| IpsPayload.ReferenceUnder97 | src/utils/ipsGenerator.ts:116-123 | Under model 97 the field is `RO:97` followed by the Model 97 form of the trimmed reference. |
| IpsPayload.ReferenceModel97 | src/utils/ipsGenerator.ts:119-123 | Under model 97 the field is `RO:97`, two check digits and the cleaned reference. |
| IpsPayload.ReferenceOtherModel | src/utils/ipsGenerator.ts:116-123 | Under any other model, the field is that model (`00` when none is given) followed by the trimmed reference. |
| IpsPayload.GenerateIPSString | src/utils/ipsGenerator.ts:88-127 | There is no payload exactly when the account, the amount or the receiver is missing. Otherwise the payload is the template filled with the formatted fields. |
| IpsPayload.PayloadSplit | src/utils/ipsGenerator.ts:112-126 | When no free text holds the separator bar, splitting the payload at the separator bar gives back exactly its fields. |
| IpsPayload.GeneratedFields | src/utils/ipsGenerator.ts:88-127 | A complete order whose free text holds no separator bar gives a payload that splits back into its fields. |
| IpsPayload.GenerateStoredIPSString | src/utils/ipsGenerator.ts:88-127 | Corrected generator: the same payload, with the stored amount read as the number it holds. |
| IpsPayload.StoredGeneratorAgrees | src/App.tsx:70-79 | Corrected: the stored `a.b` gives the same payload as the typed `a,b`. |
| IpsPayload.StoredGeneratorMisreads | src/utils/ipsGenerator.ts:99 | As written: every non-zero stored amount with one or two decimals gives a payload with the wrong amount. |

## Left out

- Amount.FormatAmount: numbers are modelled exactly only where the double is exact to the cent. That means at most two decimals, an integer part below 10^13, and no exponent (`AmountInDomain`). Rounding of longer fractions and exponent notation are not modelled. Every input that reads as NaN or as an infinity is covered.
- PaymentCode.FormatPaymentCode: requires the parsed code and the code plus 100 to be integers of magnitude at most 2^53 (`PaymentCodeInRange`). Beyond that, doubles lose precision and `toString` switches to exponent notation.
- IpsPayload.GenerateIPSString: carries both of the domain conditions above as its precondition for complete orders.
- Strings are sequences of Unicode scalar values. JavaScript's `split('')`, `substring` and `length` count UTF-16 code units, so characters outside the Basic Multilingual Plane are counted and cut differently.
- Model97.CleanReference: `toUpperCase` is modelled on ASCII letters only, and every other character is left as it is. The source capitalises non-ASCII letters too. So for a reference holding a non-ASCII lower-case letter, the `RO` text differs: Cyrillic `а` stays `а` where the source writes `А`. For letters whose capital is ASCII, the check digits differ as well. These include `ı` to `I`, `ſ` to `S`, `ß` to `SS` and `ﬁ` to `FI`. For the reference `ı1`, the source gives `40I1` and the model gives `00ı1`.
- Model97.ParseBigInt: reads decimal text only. The `0x`, `0o` and `0b` forms cannot arise, because the numeral holds no ASCII letters.
- PaymentCode.ParseInt: `-0` is read as zero. It is falsy in the source just like zero, so the code falls back to 189 either way.
- The entry form, the slip view, sharing, storage and the React state are not part of this model. This includes `isQRValid`'s 18-digit account check in src/App.tsx.
- The capital digraphs Љ, Њ and Џ follow the table in the code (`LJ`, `NJ`, `DŽ`), not title case (`Lj`).
- IpsPayload.ReferenceModel97: states the shape of the field only. The mod-97 property of its check digits is Model97.Model97Checks.

## Findings

| source | as written | input that shows it | evidently intended | confidence | as-written member | corrected member |
|---|---|---|---|---|---|---|
| src/App.tsx:70-79 with src/utils/ipsGenerator.ts:36 | The entry form stores the amount with a decimal point. `formatAmount` then removes every dot as a thousands separator, so the stored point is dropped. | The typed amount `1.234,56` is stored as `1234.56` and written into the payload as `123.456,00`. | The stored amount is read as the number it holds and written as `1.234,56`. | not executed | Amount.StoredAmountDotDropped, Amount.StoredAmountMisread, Amount.StoredAmountExample, Amount.StoredAmountTexts, IpsPayload.StoredGeneratorMisreads | Amount.FormatStoredAmount, Amount.StoredAmountRead, IpsPayload.GenerateStoredIPSString, IpsPayload.StoredGeneratorAgrees |
