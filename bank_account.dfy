/**
 * Bank-account normalisation: keep the digits, keep the first three (the bank
 * code), left-pad the remaining digits with zeros to fifteen and cut the
 * whole to eighteen characters.
 */
module BankAccount {
  import opened JsStrings

  function Zeros(n: nat): string { Repeat('0', n) }

  /** The account as written into the payload's `R:` field. */
  function FormatBankAccount(account: string): (r: string)
    ensures r == [] <==> forall i :: 0 <= i < |account| ==> !IsDigit(account[i])
    ensures AllDigits(r)
    ensures |KeepDigits(account)| >= 3 ==> |r| == 18
  {
    var cleaned := KeepDigits(account);
    KeepDigitsEmpty(account);
    if cleaned == [] then []
    else
      var first3 := Take(cleaned, 3);
      var rest := PadStart(Drop(cleaned, 3), 15, '0');
      Take(first3 + rest, 18)
  }

  /**
   * The normalised field by the number of digits `d` holds: a short account
   * gets fifteen zeros after its digits; three to eighteen digits get
   * `18 - |d|` zeros after the bank code; a longer one keeps its first
   * eighteen digits.
   */
  function NormalizedAccount(d: string): string
    requires AllDigits(d)
  {
    if d == [] then []
    else if |d| < 3 then d + Zeros(15)
    else if |d| <= 18 then d[..3] + Zeros(18 - |d|) + d[3..]
    else d[..18]
  }

  /** The normaliser agrees with the case-by-case description of the field. */
  lemma FormatBankAccountCases(account: string)
    ensures FormatBankAccount(account) == NormalizedAccount(KeepDigits(account))
  {
    var d := KeepDigits(account);
    if d != [] {
      assert FormatBankAccount(account) == Take(Take(d, 3) + PadStart(Drop(d, 3), 15, '0'), 18);
      if |d| < 3 {
        ShortCase(d);
      } else if |d| <= 18 {
        MiddleCase(d);
      } else {
        LongCase(d);
      }
    }
  }

  lemma ShortCase(d: string)
    requires AllDigits(d) && 0 < |d| < 3
    ensures Take(Take(d, 3) + PadStart(Drop(d, 3), 15, '0'), 18) == d + Zeros(15)
  {
    assert Drop(d, 3) == [];
    assert PadStart(Drop(d, 3), 15, '0') == Zeros(15) + [];
  }

  lemma MiddleCase(d: string)
    requires AllDigits(d) && 3 <= |d| <= 18
    ensures Take(Take(d, 3) + PadStart(Drop(d, 3), 15, '0'), 18) == d[..3] + Zeros(18 - |d|) + d[3..]
  {
    assert Take(d, 3) == d[..3];
    assert PadStart(Drop(d, 3), 15, '0') == Zeros(18 - |d|) + d[3..];
  }

  lemma LongCase(d: string)
    requires AllDigits(d) && |d| > 18
    ensures Take(Take(d, 3) + PadStart(Drop(d, 3), 15, '0'), 18) == d[..18]
  {
    assert Take(d, 3) + PadStart(Drop(d, 3), 15, '0') == d[..3] + d[3..];
    assert d[..3] + d[3..] == d;
  }

  /** The bank code (the first three digits) is never padded: it opens the field. */
  lemma BankCodeLeads(account: string)
    requires |KeepDigits(account)| >= 3
    ensures FormatBankAccount(account)[..3] == KeepDigits(account)[..3]
  {
    FormatBankAccountCases(account);
  }

  /** Eighteen digits are already normalised, so normalising again changes nothing. */
  lemma FormatBankAccountIdempotent(account: string)
    requires |KeepDigits(account)| >= 3
    ensures FormatBankAccount(FormatBankAccount(account)) == FormatBankAccount(account)
  {
    var r := FormatBankAccount(account);
    KeepDigitsOfDigits(r);
    FormatBankAccountCases(r);
    assert r[..3] + Zeros(0) + r[3..] == r;
  }

  /**
   * Fewer than three digits give the digits and fifteen zeros, which is
   * shorter than the field; normalising that again pads it differently.
   */
  lemma ShortAccountNotIdempotent(d: string)
    requires AllDigits(d) && 0 < |d| < 3
    ensures FormatBankAccount(d) == d + Zeros(15)
    ensures |FormatBankAccount(d)| < 18
    ensures FormatBankAccount(FormatBankAccount(d)) != FormatBankAccount(d)
  {
    KeepDigitsOfDigits(d);
    FormatBankAccountCases(d);
    var once := FormatBankAccount(d);
    KeepDigitsOfDigits(once);
  }

  /**
   * An account written in the usual three groups, bank code, account number
   * and check digits, separated by hyphens, may leave out the account number's
   * leading zeros: they are put back between the bank code and the number.
   */
  lemma HyphenatedAccount(bank: string, number: string, check: string)
    requires AllDigits(bank) && AllDigits(number) && AllDigits(check)
    requires |bank| == 3 && |number| + |check| <= 15
    ensures FormatBankAccount(bank + "-" + number + "-" + check) == bank + Zeros(15 - |number| - |check|) + number + check
  {
    var written := bank + "-" + number + "-" + check;
    HyphensDropped(written, bank, number, check);
    FormatBankAccountCases(written);
    NormalizedAfterCode(bank, number, check);
  }

  /** Cleaning drops the two hyphens and keeps the three groups in order. */
  lemma HyphensDropped(written: string, bank: string, number: string, check: string)
    requires AllDigits(bank) && AllDigits(number) && AllDigits(check)
    requires written == bank + "-" + number + "-" + check
    ensures KeepDigits(written) == bank + number + check
  {
    KeepDigitsOfDigits(bank);
    HyphenDropped(bank, bank);
    DigitsKept(bank + "-", bank, number);
    HyphenDropped(bank + "-" + number, bank + number);
    DigitsKept(bank + "-" + number + "-", bank + number, check);
  }

  /** A hyphen appended to the text adds nothing to its digits. */
  lemma HyphenDropped(x: string, kept: string)
    requires KeepDigits(x) == kept
    ensures KeepDigits(x + "-") == kept
  {
    KeepDigitsAppend(x, "-");
    assert KeepDigits("-") == [] by {
      assert "-"[1..] == [];
    }
    assert kept + [] == kept;
  }

  /** Digits appended to the text are all kept, after its own digits. */
  lemma DigitsKept(x: string, kept: string, y: string)
    requires KeepDigits(x) == kept && AllDigits(y)
    ensures KeepDigits(x + y) == kept + y
  {
    KeepDigitsAppend(x, y);
    KeepDigitsOfDigits(y);
  }

  /** Zeros go between the three-digit bank code and the digits after it. */
  lemma NormalizedAfterCode(bank: string, number: string, check: string)
    requires AllDigits(bank) && AllDigits(number) && AllDigits(check)
    requires |bank| == 3 && |number| + |check| <= 15
    ensures NormalizedAccount(bank + number + check) == bank + Zeros(15 - |number| - |check|) + number + check
  {
    var d := bank + number + check;
    assert d[..3] == bank;
    assert d[3..] == number + check;
    assert Zeros(15 - |number| - |check|) + d[3..] == Zeros(15 - |number| - |check|) + number + check;
  }

  /** A bare three-digit bank code is followed by fifteen zeros. */
  lemma BankCodeOnly(bank: string)
    requires AllDigits(bank) && |bank| == 3
    ensures FormatBankAccount(bank) == bank + Zeros(15)
  {
    assert FormatBankAccount(bank) == NormalizedAccount(bank) by {
      KeepDigitsOfDigits(bank);
      FormatBankAccountCases(bank);
    }
    assert bank[..3] == bank && bank[3..] == [];
  }

  lemma BankCodeOnlyExample()
    ensures FormatBankAccount("160") == "160000000000000000"
  {
    assert AllDigits("160");
    BankCodeOnly("160");
    assert Zeros(15) == "000000000000000" by {
      assert forall i :: 0 <= i < 15 ==> Zeros(15)[i] == "000000000000000"[i];
    }
  }

  lemma NoDigitsExample()
    ensures FormatBankAccount("n/a") == ""
  {
  }
}
