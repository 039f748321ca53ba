/**
 * Serbian Cyrillic to Latin transliteration: a fixed table from 60 Cyrillic
 * letters to their Latin spelling, applied character by character; every
 * character outside the table is kept.
 */
module Transliteration {
  import opened JsStrings

  /**
   * The fixed letter table: `Some(latin)` for the 60 Cyrillic letters it lists,
   * `None` (the lookup's `undefined`) for every other character. The digraph
   * letters map to all-capital pairs (`Љ` to `LJ`).
   */
  function CyrillicToLatin(c: char): Option<string>
  {
    match c
    case 'а' => Some("a") case 'б' => Some("b") case 'в' => Some("v") case 'г' => Some("g") case 'д' => Some("d") case 'ђ' => Some("đ")
    case 'е' => Some("e") case 'ж' => Some("ž") case 'з' => Some("z") case 'и' => Some("i") case 'ј' => Some("j") case 'к' => Some("k")
    case 'л' => Some("l") case 'љ' => Some("lj") case 'м' => Some("m") case 'н' => Some("n") case 'њ' => Some("nj") case 'о' => Some("o")
    case 'п' => Some("p") case 'р' => Some("r") case 'с' => Some("s") case 'т' => Some("t") case 'ћ' => Some("ć") case 'у' => Some("u")
    case 'ф' => Some("f") case 'х' => Some("h") case 'ц' => Some("c") case 'ч' => Some("č") case 'џ' => Some("dž") case 'ш' => Some("š")
    case 'А' => Some("A") case 'Б' => Some("B") case 'В' => Some("V") case 'Г' => Some("G") case 'Д' => Some("D") case 'Ђ' => Some("Đ")
    case 'Е' => Some("E") case 'Ж' => Some("Ž") case 'З' => Some("Z") case 'И' => Some("I") case 'Ј' => Some("J") case 'К' => Some("K")
    case 'Л' => Some("L") case 'Љ' => Some("LJ") case 'М' => Some("M") case 'Н' => Some("N") case 'Њ' => Some("NJ") case 'О' => Some("O")
    case 'П' => Some("P") case 'Р' => Some("R") case 'С' => Some("S") case 'Т' => Some("T") case 'Ћ' => Some("Ć") case 'У' => Some("U")
    case 'Ф' => Some("F") case 'Х' => Some("H") case 'Ц' => Some("C") case 'Ч' => Some("Č") case 'Џ' => Some("DŽ") case 'Ш' => Some("Š")
    case _ => None
  }

  /** A character of a table value: an ASCII letter or a Latin letter with a diacritic. */
  predicate IsLatinOutput(c: char)
  {
    'a' <= c <= 'z' || 'A' <= c <= 'Z' || '\U{0100}' <= c < '\U{0400}'
  }

  predicate InTable(c: char) { CyrillicToLatin(c).Some? }

  /** Every key is a letter of the Cyrillic block, and so not a Latin letter. */
  lemma TableKeys(c: char)
    ensures InTable(c) ==> '\U{0400}' <= c <= '\U{045F}' && !IsLatinOutput(c)
  {
  }

  /** Every value is one or two Latin letters. */
  lemma TableValues(c: char)
    ensures InTable(c) ==> var v := CyrillicToLatin(c).value;
      1 <= |v| <= 2 && forall i :: 0 <= i < |v| ==> IsLatinOutput(v[i])
  {
  }

  /** The table lookup with the source's fallback to the character itself. */
  function TransliterateChar(c: char): (r: string)
    ensures 1 <= |r| <= 2
  {
    TableValues(c);
    match CyrillicToLatin(c)
    case Some(latin) => latin
    case None => [c]
  }

  /** Transliterates `text` character by character. */
  function Transliterate(text: string): (r: string)
    ensures |text| <= |r| <= 2 * |text|
  {
    if text == [] then []
    else TransliterateChar(text[0]) + Transliterate(text[1..])
  }

  /** Transliteration works character by character, so it distributes over concatenation. */
  lemma {:induction false} TransliterateAppend(a: string, b: string)
    ensures Transliterate(a + b) == Transliterate(a) + Transliterate(b)
  {
    if a != [] {
      assert (a + b)[1..] == a[1..] + b;
      TransliterateAppend(a[1..], b);
      Regroup(TransliterateChar(a[0]), Transliterate(a[1..]), Transliterate(b));
    } else {
      assert a + b == b;
    }
  }

  /** Concatenation regrouped, stated on plain variables. */
  lemma Regroup(h: string, x: string, y: string)
    ensures h + (x + y) == (h + x) + y
  {
  }

  /** A string with no table letter in it is left unchanged. */
  lemma {:induction false} TransliterateUnmapped(s: string)
    requires forall i :: 0 <= i < |s| ==> !InTable(s[i])
    ensures Transliterate(s) == s
  {
    if s != [] {
      TransliterateUnmapped(s[1..]);
      assert s == [s[0]] + s[1..];
    }
  }

  /** Each output character is either an input character outside the table or a Latin letter. */
  lemma {:induction false} TransliterateOutput(s: string)
    ensures forall j :: 0 <= j < |Transliterate(s)| ==>
      IsLatinOutput(Transliterate(s)[j]) || (Transliterate(s)[j] in s && !InTable(Transliterate(s)[j]))
  {
    if s != [] {
      TableValues(s[0]);
      TransliterateOutput(s[1..]);
      var head, tail := TransliterateChar(s[0]), Transliterate(s[1..]);
      assert Transliterate(s) == head + tail;
      forall j | 0 <= j < |Transliterate(s)|
        ensures IsLatinOutput(Transliterate(s)[j]) || (Transliterate(s)[j] in s && !InTable(Transliterate(s)[j]))
      {
        if j >= |head| {
          assert Transliterate(s)[j] == tail[j - |head|];
          assert tail[j - |head|] in s[1..] ==> tail[j - |head|] in s;
        }
      }
    }
  }

  /** No table value holds a table key, so transliterating twice changes nothing more. */
  lemma TransliterateIdempotent(s: string)
    ensures Transliterate(Transliterate(s)) == Transliterate(s)
  {
    TransliterateOutput(s);
    forall c | IsLatinOutput(c) ensures !InTable(c) { TableKeys(c); }
    TransliterateUnmapped(Transliterate(s));
  }

  /** A character that is neither a table key nor a Latin letter appears in the output only if it was in the input. */
  lemma TransliterateKeepsOut(s: string, c: char)
    requires c !in s && !IsLatinOutput(c)
    ensures c !in Transliterate(s)
  {
    TransliterateOutput(s);
  }

  lemma TransliterateCons(c: char, s: string)
    ensures Transliterate([c] + s) == TransliterateChar(c) + Transliterate(s)
  {
    assert ([c] + s)[1..] == s;
  }

  /** A word starting with a digraph letter: the table has only the all-capital pair, so `Љубав` gives `LJubav`. */
  lemma DigraphTitleCase()
    ensures Transliterate("Љубав") == "LJubav"
  {
    SmallLetters();
    TransliterateCons('Љ', "убав");
  }

  lemma DigraphAllCaps()
    ensures Transliterate("ЉУБАВ") == "LJUBAV"
  {
    CapitalLetters();
    TransliterateCons('Љ', "УБАВ");
  }

  lemma SmallLetters()
    ensures Transliterate("убав") == "ubav"
  {
    SmallPair();
    TransliterateCons('б', "ав");
    TransliterateCons('у', "бав");
  }

  lemma CapitalLetters()
    ensures Transliterate("УБАВ") == "UBAV"
  {
    CapitalPair();
    TransliterateCons('Б', "АВ");
    TransliterateCons('У', "БАВ");
  }

  lemma SmallPair()
    ensures Transliterate("ав") == "av"
  {
    TransliterateCons('в', "");
    TransliterateCons('а', "в");
  }

  lemma CapitalPair()
    ensures Transliterate("АВ") == "AV"
  {
    TransliterateCons('В', "");
    TransliterateCons('А', "В");
  }
}
