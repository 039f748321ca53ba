/**
 * The text of the NBS IPS payload: a fixed header and tagged fields joined
 * by `|`, and how that text splits back into its fields.
 */
module IpsTemplate {
  import opened JsStrings

  /** The fixed header: payment order (`K:PR`), version 01, character set 1 (UTF-8). */
  const Header := "K:PR|V:01|C:1"

  /** The header's three fields. */
  const HeaderParts: seq<string> := ["K:PR", "V:01", "C:1"]

  /**
   * The payload text: the header, then the receiver's account `R`, the
   * receiver `N`, currency and amount `I`, the payer `P`, the payment code
   * `SF`, the purpose `S`, and the optional reference field, which brings
   * its own `|RO:`.
   */
  function Template(account: string, receiver: string, money: string, payer: string, code: string, purpose: string, reference: string): string
  {
    Header + "|R:" + account + "|N:" + receiver + "|I:" + money + "|P:" + payer + "|SF:" + code + "|S:" + purpose + reference
  }

  lemma {:induction false} TakeKeepsOut(s: string, n: nat, c: char)
    requires c !in s
    ensures c !in Take(s, n)
  {
    var t := Take(s, n);
    forall i | 0 <= i < |t| ensures t[i] != c {
      assert t[i] == s[i] && s[i] in s;
    }
  }

  lemma {:induction false} DigitsNoBar(s: string)
    requires AllDigits(s)
    ensures '|' !in s
  {
    forall i | 0 <= i < |s| ensures s[i] != '|' {
      assert IsDigit(s[i]);
    }
  }

  /** A field appended after `|`: splitting adds it whole when it holds no `|`. */
  lemma {:induction false} SplitField(x: string, field: string)
    requires '|' !in field
    ensures SplitOn(x + ['|'] + field, '|') == SplitOn(x, '|') + [field]
  {
    SplitOnAppend(x, '|', field);
    SplitOnNoSeparator(field, '|');
  }

  /** Three separator-free texts joined by `|` split back into the three. */
  lemma {:induction false} SplitThree(k: string, v: string, c: string)
    requires '|' !in k && '|' !in v && '|' !in c
    ensures SplitOn(k + ['|'] + (v + ['|'] + c), '|') == [k, v, c]
  {
    SplitOnAppend(k, '|', v + ['|'] + c);
    SplitOnPair(v, '|', c);
    SplitOnNoSeparator(k, '|');
  }

  lemma {:induction false} HeaderFields()
    ensures SplitOn(Header, '|') == HeaderParts
  {
    assert Header == "K:PR" + ['|'] + ("V:01" + ['|'] + "C:1");
    SplitThree("K:PR", "V:01", "C:1");
  }

  /** Six fields free of `|`, each appended after a `|`, are split off whole. */
  lemma {:induction false} SplitSix(h: string, r: string, n: string, i: string, p: string, sf: string, st: string)
    requires '|' !in r && '|' !in n && '|' !in i && '|' !in p && '|' !in sf && '|' !in st
    ensures SplitOn(h + ['|'] + r + ['|'] + n + ['|'] + i + ['|'] + p + ['|'] + sf + ['|'] + st, '|')
      == SplitOn(h, '|') + [r, n, i, p, sf, st]
  {
    var x1 := h + ['|'] + r;
    SplitField(h, r);
    var x2 := x1 + ['|'] + n;
    SplitField(x1, n);
    var x3 := x2 + ['|'] + i;
    SplitField(x2, i);
    var x4 := x3 + ['|'] + p;
    SplitField(x3, p);
    var x5 := x4 + ['|'] + sf;
    SplitField(x4, sf);
    SplitField(x5, st);
  }

  /** The template with each tag written as the separator, then the tag and its value. */
  lemma {:induction false} TemplateFields(h: string, r: string, n: string, i: string, p: string, sf: string, st: string)
    ensures h + "|R:" + r + "|N:" + n + "|I:" + i + "|P:" + p + "|SF:" + sf + "|S:" + st
      == h + ['|'] + ("R:" + r) + ['|'] + ("N:" + n) + ['|'] + ("I:" + i) + ['|'] + ("P:" + p)
         + ['|'] + ("SF:" + sf) + ['|'] + ("S:" + st)
  {
  }

  /** After any head, the six tagged fields and the optional reference field split off whole. */
  lemma {:induction false} SplitAfterHead(h: string, r: string, n: string, i: string, p: string, sf: string, st: string, ro: string)
    requires '|' !in r && '|' !in n && '|' !in i && '|' !in p && '|' !in sf && '|' !in st
    requires ro == [] || (ro[0] == '|' && '|' !in ro[1..])
    ensures SplitOn(h + "|R:" + r + "|N:" + n + "|I:" + i + "|P:" + p + "|SF:" + sf + "|S:" + st + ro, '|')
      == SplitOn(h, '|') + ["R:" + r, "N:" + n, "I:" + i, "P:" + p, "SF:" + sf, "S:" + st]
         + (if ro == [] then [] else [ro[1..]])
  {
    var x := h + ['|'] + ("R:" + r) + ['|'] + ("N:" + n) + ['|'] + ("I:" + i) + ['|'] + ("P:" + p)
      + ['|'] + ("SF:" + sf) + ['|'] + ("S:" + st);
    TemplateFields(h, r, n, i, p, sf, st);
    SplitSix(h, "R:" + r, "N:" + n, "I:" + i, "P:" + p, "SF:" + sf, "S:" + st);
    if ro == [] {
      assert x + ro == x;
    } else {
      assert x + ro == x + ['|'] + ro[1..];
      SplitField(x, ro[1..]);
    }
  }

  /**
   * The template over its values: split at `|`, it gives the header, the six
   * tagged fields and the reference field when there is one.
   */
  lemma {:induction false} TemplateSplit(r: string, n: string, i: string, p: string, sf: string, st: string, ro: string)
    requires '|' !in r && '|' !in n && '|' !in i && '|' !in p && '|' !in sf && '|' !in st
    requires ro == [] || (ro[0] == '|' && '|' !in ro[1..])
    ensures SplitOn(Template(r, n, i, p, sf, st, ro), '|')
      == HeaderParts + ["R:" + r, "N:" + n, "I:" + i, "P:" + p, "SF:" + sf, "S:" + st]
         + (if ro == [] then [] else [ro[1..]])
  {
    SplitAfterHead(Header, r, n, i, p, sf, st, ro);
    HeaderFields();
  }
}
