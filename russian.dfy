/**
 * `russian` (src/Lesson4/List.kt): a number written out in Russian words.
 * The string-building function follows the Kotlin code; a reference
 * reading of the number as a sequence of `Word` tokens with numeric values
 * says what the words mean.
 */
module RussianNumerals {
  import opened Arith
  import opened Text
  import opened Wrappers

  const Units: seq<string> := ["", "один", "два", "три", "четыре", "пять", "шесть", "семь", "восемь", "девять"]
  const Teens: seq<string> := ["десять", "одиннадцать", "двенадцать", "тринадцать", "четырнадцать",
    "пятнадцать", "шестнадцать", "семнадцать", "восемнадцать", "девятнадцать"]
  const Tens: seq<string> := ["", "", "двадцать", "тридцать", "сорок", "пятьдесят",
    "шестьдесят", "семьдесят", "восемьдесят", "девяносто"]
  const Hundreds: seq<string> := ["", "сто", "двести", "триста", "четыреста", "пятьсот",
    "шестьсот", "семьсот", "восемьсот", "девятьсот"]
  /** The feminine unit words, used before "тысяча". */
  const ThousandsUnits: seq<string> := ["", "одна", "две", "три", "четыре", "пять", "шесть", "семь", "восемь", "девять"]

  // ---------------------------------------------------------------- the Kotlin functions

  /**
   * `convertThreeDigits`: hundreds, then tens and units of the last two
   * digits, feminine units when `isThousands`. The hundreds table has ten
   * entries, so a number of 1000 or more throws when it is indexed.
   */
  function ConvertThreeDigits(number: nat, isThousands: bool): (r: Result<string>)
    ensures r.Fail? <==> number >= 1000
    ensures r.Fail? ==> r.error == IndexOutOfBounds
    ensures r.Ok? ==> r.value == Join(Spellings(ThreeDigitWords(number, isThousands)), " ")
  {
    if number / 100 >= |Hundreds| then Fail(IndexOutOfBounds)
    else
      var hundreds := if number / 100 > 0 then [Hundreds[number / 100]] else [];
      ThreeDigitsSpelled(number, isThousands);
      Ok(Join(NonEmpty(hundreds + LastTwoText(number % 100, isThousands)), " "))
  }

  /** The `when` over the last two digits: nothing, a unit, a teen, or a ten and a unit. */
  function LastTwoText(lastTwo: nat, isThousands: bool): seq<string>
    requires lastTwo < 100
  {
    if lastTwo == 0 then []
    else if lastTwo < 10 then [if isThousands then ThousandsUnits[lastTwo] else Units[lastTwo]]
    else if lastTwo < 20 then [Teens[lastTwo - 10]]
    else
      [Tens[lastTwo / 10]] +
      (if lastTwo % 10 > 0 then [if isThousands then ThousandsUnits[lastTwo % 10] else Units[lastTwo % 10]] else [])
  }

  /** The form of "тысяча" that agrees with the count (`thousandWord`). */
  function ThousandWord(thousands: int): (w: string)
    ensures Spelled(w)
    ensures w == "тысяча" <==> thousands % 10 == 1 && thousands % 100 != 11
    ensures w == "тысячи" <==> 2 <= thousands % 10 <= 4 && !(12 <= thousands % 100 <= 14)
    ensures w == "тысяч" <==> !(thousands % 10 == 1 && thousands % 100 != 11) && !(2 <= thousands % 10 <= 4 && !(12 <= thousands % 100 <= 14))
  {
    var lastDigit := thousands % 10;
    var lastTwoDigits := thousands % 100;
    LastDigitOfLastTwo(thousands);
    if 11 <= lastTwoDigits <= 14 then "тысяч"
    else if lastDigit == 1 then "тысяча"
    else if 2 <= lastDigit <= 4 then "тысячи"
    else "тысяч"
  }

  lemma LastDigitOfLastTwo(x: int)
    ensures x % 100 % 10 == x % 10
  {
    var q := x / 100;
    assert x == q * 100 + x % 100;
    assert x % 100 == (x % 100 / 10) * 10 + x % 100 % 10;
    DivModOf(q * 10 + x % 100 / 10, x % 100 % 10, 10);
  }

  /**
   * `russian`: the thousands, when there are any, with the agreeing form of
   * "тысяча", then the last three digits unless they are zero (or `n` is 0);
   * empty words dropped, joined with spaces and trimmed. The thousands are
   * written by `convertThreeDigits` too, which throws from a million up.
   */
  function Russian(n: int): (r: Result<string>)
  {
    match ThousandsText(Quot(n, 1000))
    case Fail(e) => Fail(e)
    case Ok(parts) =>
      match UnitsText(n)
      case Fail(e) => Fail(e)
      case Ok(units) => Ok(Trim(Join(NonEmpty(parts + units), " ")))
  }

  /** The thousands block of `russian`: the group and the form of "тысяча", or nothing. */
  function ThousandsText(thousands: int): (r: Result<seq<string>>)
    ensures r.Fail? <==> thousands >= 1000
    ensures 0 < thousands < 1000 ==> r == Ok([Join(Spellings(ThreeDigitWords(thousands, true)), " "), ThousandWord(thousands)])
    ensures thousands <= 0 ==> r == Ok([])
  {
    if thousands > 0 then
      match ConvertThreeDigits(thousands, true)
      case Fail(e) => Fail(e)
      case Ok(text) =>
        ThreeDigitReading(thousands, true);
        SpelledJoin(ThreeDigitWords(thousands, true));
        Ok(if text != [] then [text, ThousandWord(thousands)] else [])
    else Ok([])
  }

  /** The units block of `russian`: the last three digits, unless they are zero and `n` is not. */
  function UnitsText(n: int): (r: Result<seq<string>>)
    ensures r.Ok?
    ensures n >= 0 && (n % 1000 > 0 || n == 0) ==> r == Ok([Join(Spellings(ThreeDigitWords(n % 1000, false)), " ")])
    ensures n >= 0 && n % 1000 == 0 && n != 0 ==> r == Ok([])
    ensures n < 0 ==> r == Ok([])
  {
    var unitsPart := Rem(n, 1000);
    if unitsPart > 0 || n == 0 then
      match ConvertThreeDigits(unitsPart, false)
      case Fail(e) => Fail(e)
      case Ok(text) => Ok([text])
    else Ok([])
  }

  // ---------------------------------------------------------------- the reference reading

  /** A word of a Russian numeral and the table entry it comes from. */
  datatype Word =
    | Unit(k: nat)
    | FeminineUnit(k: nat)
    | Teen(k: nat)
    | Ten(k: nat)
    | Hundred(k: nat)
    | Thousands(count: int)

  predicate WellFormed(w: Word) {
    match w
    case Unit(k) => 1 <= k <= 9
    case FeminineUnit(k) => 1 <= k <= 9
    case Teen(k) => k <= 9
    case Ten(k) => 2 <= k <= 9
    case Hundred(k) => 1 <= k <= 9
    case Thousands(_) => true
  }

  predicate AllWellFormed(ws: seq<Word>) {
    forall i :: 0 <= i < |ws| ==> WellFormed(ws[i])
  }

  function Spelling(w: Word): (s: string)
    requires WellFormed(w)
    ensures s != [] && !IsWhitespace(s[0]) && !IsWhitespace(s[|s| - 1])
  {
    match w
    case Unit(k) => UnitSpelled(k); Units[k]
    case FeminineUnit(k) => FeminineSpelled(k); ThousandsUnits[k]
    case Teen(k) => TeenSpelled(k); Teens[k]
    case Ten(k) => TenSpelled(k); Tens[k]
    case Hundred(k) => HundredSpelled(k); Hundreds[k]
    case Thousands(c) => ThousandWord(c)
  }

  predicate Spelled(s: string) {
    s != [] && !IsWhitespace(s[0]) && !IsWhitespace(s[|s| - 1])
  }

  lemma UnitSpelled(k: nat)
    requires 1 <= k <= 9
    ensures Spelled(Units[k])
  {
  }

  lemma FeminineSpelled(k: nat)
    requires 1 <= k <= 9
    ensures Spelled(ThousandsUnits[k])
  {
  }

  lemma TeenSpelled(k: nat)
    requires k <= 9
    ensures Spelled(Teens[k])
  {
  }

  lemma TenSpelled(k: nat)
    requires 2 <= k <= 9
    ensures Spelled(Tens[k])
  {
  }

  lemma HundredSpelled(k: nat)
    requires 1 <= k <= 9
    ensures Spelled(Hundreds[k])
  {
  }

  function Spellings(ws: seq<Word>): (r: seq<string>)
    requires AllWellFormed(ws)
    ensures |r| == |ws| && forall i :: 0 <= i < |ws| ==> r[i] == Spelling(ws[i])
  {
    if ws == [] then [] else [Spelling(ws[0])] + Spellings(ws[1..])
  }

  /** The number a word stands for; "тысяча" multiplies what came before by a thousand. */
  function WordValue(w: Word): int {
    match w
    case Unit(k) => k
    case FeminineUnit(k) => k
    case Teen(k) => 10 + k
    case Ten(k) => 10 * k
    case Hundred(k) => 100 * k
    case Thousands(_) => 0
  }

  /** Reading words from left to right. */
  function Reading(ws: seq<Word>): int {
    if ws == [] then 0
    else
      var last := ws[|ws| - 1];
      if last.Thousands? then Reading(ws[..|ws| - 1]) * 1000 else Reading(ws[..|ws| - 1]) + WordValue(last)
  }

  /** The words for `0 <= number < 1000` by its decimal digits: hundreds, then tens and units or a teen. */
  function ThreeDigitWords(number: nat, feminine: bool): (ws: seq<Word>)
    ensures AllWellFormed(ws)
    ensures forall i :: 0 <= i < |ws| ==> !ws[i].Thousands?
  {
    var h := number / 100;
    (if 1 <= h <= 9 then [Hundred(h)] else []) + TensWords(number / 10 % 10, number % 10, feminine)
  }

  /** The words for the tens digit `t` and units digit `u`. */
  function TensWords(t: nat, u: nat, feminine: bool): (ws: seq<Word>)
    requires t <= 9 && u <= 9
    ensures AllWellFormed(ws) && |ws| <= 2
    ensures forall i :: 0 <= i < |ws| ==> !ws[i].Thousands? && !ws[i].Hundred?
  {
    var unit := if feminine then FeminineUnit(u) else Unit(u);
    if t == 1 then [Teen(u)] else (if t >= 2 then [Ten(t)] else []) + (if u > 0 then [unit] else [])
  }

  /** The words of `russian(n)`. */
  function RussianWords(n: nat): (ws: seq<Word>)
    ensures AllWellFormed(ws)
  {
    (if n / 1000 > 0 then ThreeDigitWords(n / 1000, true) + [Thousands(n / 1000)] else []) +
    ThreeDigitWords(n % 1000, false)
  }

  // ---------------------------------------------------------------- properties

  lemma {:induction false} SpellingsAppend(a: seq<Word>, b: seq<Word>)
    requires AllWellFormed(a) && AllWellFormed(b)
    ensures AllWellFormed(a + b) && Spellings(a + b) == Spellings(a) + Spellings(b)
  {
    assert AllWellFormed(a + b);
    if a != [] {
      assert (a + b)[1..] == a[1..] + b;
      SpellingsAppend(a[1..], b);
    }
  }

  /** The strings `convertThreeDigits` collects are the spelling of the reference words, and none is empty. */
  lemma ThreeDigitsSpelled(number: nat, isThousands: bool)
    requires number < 1000
    ensures
      var hundreds := if number / 100 > 0 then [Hundreds[number / 100]] else [];
      NonEmpty(hundreds + LastTwoText(number % 100, isThousands)) == Spellings(ThreeDigitWords(number, isThousands))
  {
    var h := number / 100;
    LastTwoDigits(number);
    var hs: seq<Word> := if 1 <= h <= 9 then [Hundred(h)] else [];
    var ts := TensWords(number / 10 % 10, number % 10, isThousands);
    LastTwoSpelled(number % 100, isThousands);
    SpellingsAppend(hs, ts);
    var hundreds := if h > 0 then [Hundreds[h]] else [];
    assert hundreds == Spellings(hs);
    var all := Spellings(hs + ts);
    assert forall i :: 0 <= i < |all| ==> all[i] != [];
  }

  lemma LastTwoSpelled(lastTwo: nat, isThousands: bool)
    requires lastTwo < 100
    ensures LastTwoText(lastTwo, isThousands) == Spellings(TensWords(lastTwo / 10, lastTwo % 10, isThousands))
  {
    var t, u := lastTwo / 10, lastTwo % 10;
    var unit := if isThousands then FeminineUnit(u) else Unit(u);
    var unitText := if isThousands then ThousandsUnits[u] else Units[u];
    if lastTwo == 0 {
      assert TensWords(t, u, isThousands) == [];
    } else if lastTwo < 10 {
      assert t == 0 && u == lastTwo;
      assert TensWords(t, u, isThousands) == [unit];
      SpellingsOne(unit);
      assert LastTwoText(lastTwo, isThousands) == [unitText];
    } else if lastTwo < 20 {
      assert t == 1 && u == lastTwo - 10;
      assert TensWords(t, u, isThousands) == [Teen(u)];
      SpellingsOne(Teen(u));
    } else if u > 0 {
      assert TensWords(t, u, isThousands) == [Ten(t), unit];
      SpellingsTwo(Ten(t), unit);
      assert LastTwoText(lastTwo, isThousands) == [Tens[t], unitText];
    } else {
      assert TensWords(t, u, isThousands) == [Ten(t)];
      SpellingsOne(Ten(t));
      assert LastTwoText(lastTwo, isThousands) == [Tens[t]];
    }
  }

  lemma SpellingsOne(w: Word)
    requires WellFormed(w)
    ensures AllWellFormed([w]) && Spellings([w]) == [Spelling(w)]
  {
  }

  lemma SpellingsTwo(w: Word, v: Word)
    requires WellFormed(w) && WellFormed(v)
    ensures AllWellFormed([w, v]) && Spellings([w, v]) == [Spelling(w), Spelling(v)]
  {
    assert [w, v][1..] == [v];
  }

  lemma LastTwoDigits(number: nat)
    requires number < 1000
    ensures number % 100 / 10 == number / 10 % 10 && number % 100 % 10 == number % 10
    ensures number / 100 <= 9
  {
    LastDigitOfLastTwo(number);
    var q := number / 100;
    assert number == q * 100 + number % 100;
    assert number % 100 == (number % 100 / 10) * 10 + number % 100 % 10;
    DivModOf(q * 10 + number % 100 / 10, number % 100 % 10, 10);
  }

  /** Reading words that contain no "тысяча" after others adds their values. */
  lemma {:induction false} ReadingAppend(a: seq<Word>, b: seq<Word>)
    requires forall i :: 0 <= i < |b| ==> !b[i].Thousands?
    ensures Reading(a + b) == Reading(a) + Reading(b)
    decreases |b|
  {
    if b != [] {
      var b' := b[..|b| - 1];
      assert (a + b)[..|a + b| - 1] == a + b';
      assert (a + b)[|a + b| - 1] == b[|b| - 1];
      ReadingAppend(a, b');
      assert Reading(a + b) == Reading(a + b') + WordValue(b[|b| - 1]);
      assert Reading(b) == Reading(b') + WordValue(b[|b| - 1]);
    } else {
      assert a + b == a;
    }
  }

  lemma ReadingOne(w: Word)
    ensures Reading([w]) == if w.Thousands? then 0 else WordValue(w)
  {
    assert [w][..0] == [];
  }

  /** The words of a three-digit group read back as the group. */
  lemma ThreeDigitReading(number: nat, feminine: bool)
    requires number < 1000
    ensures Reading(ThreeDigitWords(number, feminine)) == number
    ensures ThreeDigitWords(number, feminine) == [] <==> number == 0
  {
    var h, t, u := number / 100, number / 10 % 10, number % 10;
    assert number == 100 * h + 10 * t + u;
    var hs: seq<Word> := if 1 <= h <= 9 then [Hundred(h)] else [];
    ReadingOne(Hundred(h));
    ReadingAppend(hs, TensWords(t, u, feminine));
    TensReading(t, u, feminine);
  }

  lemma TensReading(t: nat, u: nat, feminine: bool)
    requires t <= 9 && u <= 9
    ensures Reading(TensWords(t, u, feminine)) == 10 * t + u
    ensures TensWords(t, u, feminine) == [] <==> t == 0 && u == 0
  {
    var unit := if feminine then FeminineUnit(u) else Unit(u);
    if t == 1 {
      assert TensWords(t, u, feminine) == [Teen(u)];
      ReadingOne(Teen(u));
    } else if t == 0 && u == 0 {
      assert TensWords(t, u, feminine) == [];
    } else if t == 0 {
      assert TensWords(t, u, feminine) == [unit];
      ReadingOne(unit);
    } else if u == 0 {
      assert TensWords(t, u, feminine) == [Ten(t)];
      ReadingOne(Ten(t));
    } else {
      assert TensWords(t, u, feminine) == [Ten(t)] + [unit];
      ReadingOne(Ten(t));
      ReadingOne(unit);
      ReadingAppend([Ten(t)], [unit]);
    }
  }

  /** Feminine units after nothing but "тысяча": the thousands never use "один" or "два", the rest never "одна" or "две". */
  lemma Agreement(number: nat, feminine: bool)
    ensures forall w :: w in ThreeDigitWords(number, feminine) ==> (feminine ==> !w.Unit?) && (!feminine ==> !w.FeminineUnit?)
  {
  }

  /** Reading a thousands group followed by "тысяча" and a three-digit group. */
  lemma ReadingThousands(a: seq<Word>, c: int, b: seq<Word>)
    requires forall i :: 0 <= i < |b| ==> !b[i].Thousands?
    ensures Reading(a + [Thousands(c)] + b) == Reading(a) * 1000 + Reading(b)
  {
    ReadingAppend(a + [Thousands(c)], b);
    assert (a + [Thousands(c)])[..|a|] == a;
  }

  /** The words of `russian(n)` read back as `n`, for every `n` below a million. */
  lemma RussianReading(n: nat)
    requires n < 1000000
    ensures Reading(RussianWords(n)) == n
  {
    var q, r := n / 1000, n % 1000;
    assert n == q * 1000 + r && q < 1000;
    ThreeDigitReading(r, false);
    if q > 0 {
      ThreeDigitReading(q, true);
      ReadingThousands(ThreeDigitWords(q, true), q, ThreeDigitWords(r, false));
    } else {
      assert RussianWords(n) == ThreeDigitWords(r, false);
    }
  }

  /** `russian` fails exactly from a million up; otherwise it is the spelling of `RussianWords`. */
  lemma RussianSpelling(n: int)
    ensures Russian(n).Fail? <==> n >= 1000000
    ensures 0 <= n < 1000000 ==> Russian(n) == Ok(Join(Spellings(RussianWords(n)), " "))
    ensures n < 0 ==> Russian(n) == Ok("")
  {
    if n >= 1000000 {
      assert Quot(n, 1000) >= 1000;
      assert ThousandsText(Quot(n, 1000)).Fail?;
    } else if n >= 0 {
      var q, r := n / 1000, n % 1000;
      assert q < 1000;
      if q > 0 {
        RussianWithThousands(n);
      } else {
        RussianBelowThousand(n);
      }
    } else {
      assert Quot(n, 1000) <= 0;
      assert ThousandsText(Quot(n, 1000)) == Ok([]) && UnitsText(n) == Ok([]);
      assert Russian(n) == Ok(Trim(Join(NonEmpty([] + []), " ")));
    }
  }

  lemma RussianBelowThousand(n: nat)
    requires n < 1000
    ensures Russian(n) == Ok(Join(Spellings(RussianWords(n)), " "))
  {
    DivModOf(0, n, 1000);
    assert Quot(n, 1000) == 0 && n % 1000 == n;
    assert RussianWords(n) == ThreeDigitWords(n, false);
    var units := ThreeDigitWords(n, false);
    var text := Join(Spellings(units), " ");
    assert UnitsText(n) == Ok([text]);
    assert Russian(n) == Ok(Trim(Join(NonEmpty([] + [text]), " ")));
    ThreeDigitReading(n, false);
    SpelledJoin(units);
    if n > 0 {
      assert NonEmpty([] + [text]) == [text];
    } else {
      assert NonEmpty([] + [text]) == [];
    }
  }

  /** `russian` of a number with thousands is the spelling of its words. */
  lemma RussianWithThousands(n: nat)
    requires 1000 <= n < 1000000
    ensures Russian(n) == Ok(Join(Spellings(RussianWords(n)), " "))
  {
    var q, r := n / 1000, n % 1000;
    var words := ThreeDigitWords(q, true) + [Thousands(q)] + ThreeDigitWords(r, false);
    RussianUnfold(n, q, r);
    ThousandsJoin(q, r);
    SpelledJoin(words);
    assert RussianWords(n) == words;
  }

  /** `russian` of a number with thousands, with its two blocks spelled out. */
  lemma RussianUnfold(n: nat, q: nat, r: nat)
    requires 1000 <= n < 1000000 && q == n / 1000 && r == n % 1000
    ensures 0 < q < 1000
    ensures Russian(n) == Ok(Trim(Join(NonEmpty(
      [Join(Spellings(ThreeDigitWords(q, true)), " "), ThousandWord(q)]
      + (if r > 0 then [Join(Spellings(ThreeDigitWords(r, false)), " ")] else [])), " ")))
  {
    assert Quot(n, 1000) == q;
    var unitsList := if r > 0 then [Join(Spellings(ThreeDigitWords(r, false)), " ")] else [];
    assert UnitsText(n) == Ok(unitsList);
    var parts := [Join(Spellings(ThreeDigitWords(q, true)), " "), ThousandWord(q)];
    assert ThousandsText(q) == Ok(parts);
  }

  /** The two blocks of `russian`, joined, are all the words of the number, joined. */
  lemma ThousandsJoin(q: nat, r: nat)
    requires 0 < q < 1000 && r < 1000
    ensures var words := ThreeDigitWords(q, true) + [Thousands(q)] + ThreeDigitWords(r, false);
      AllWellFormed(words) &&
      Join(NonEmpty([Join(Spellings(ThreeDigitWords(q, true)), " "), ThousandWord(q)]
        + (if r > 0 then [Join(Spellings(ThreeDigitWords(r, false)), " ")] else [])), " ")
      == Join(Spellings(words), " ")
  {
    var tw, uw := ThreeDigitWords(q, true), ThreeDigitWords(r, false);
    var words := tw + [Thousands(q)] + uw;
    var thousands, word, units := Spellings(tw), ThousandWord(q), Spellings(uw);
    assert AllWellFormed(words) && Spellings(words) == thousands + [word] + units by {
      assert AllWellFormed([Thousands(q)]);
      SpellingsAppend(tw, [Thousands(q)]);
      SpellingsAppend(tw + [Thousands(q)], uw);
      assert Spellings([Thousands(q)]) == [word];
    }
    assert thousands != [] && (units != [] <==> r > 0) by {
      ThreeDigitReading(q, true);
      ThreeDigitReading(r, false);
    }
    assert Join(thousands, " ") != [] by {
      SpelledJoin(tw);
    }
    assert Join(units, " ") == Join(Spellings(ThreeDigitWords(r, false)), " ");
    JoinGroups(thousands, word, units);
  }

  /** Joining the joined groups is joining all their words, when every word is non-empty. */
  lemma JoinGroups(thousands: seq<string>, word: string, units: seq<string>)
    requires thousands != [] && word != []
    requires forall i :: 0 <= i < |units| ==> units[i] != []
    requires Join(thousands, " ") != []
    ensures var unitsList := if units != [] then [Join(units, " ")] else [];
      Join(NonEmpty([Join(thousands, " "), word] + unitsList), " ") == Join(thousands + [word] + units, " ")
  {
    var parts := [Join(thousands, " "), word];
    JoinAppend(thousands, [word], " ");
    assert Join(parts, " ") == Join(thousands + [word], " ");
    if units != [] {
      var unitsText := Join(units, " ");
      JoinFirst(units, " ");
      assert NonEmpty(parts + [unitsText]) == parts + [unitsText];
      JoinAppend(thousands + [word], units, " ");
      JoinAppend([Join(thousands, " ")], [word, unitsText], " ");
    } else {
      assert NonEmpty(parts + []) == parts;
      assert thousands + [word] + units == thousands + [word];
    }
  }

  /** The spelling of well-formed words, joined, is non-empty when there are words and unchanged by `trim()`. */
  lemma SpelledJoin(ws: seq<Word>)
    requires AllWellFormed(ws)
    ensures var j := Join(Spellings(ws), " "); (j == [] <==> ws == []) && Trim(j) == j
  {
    var parts := Spellings(ws);
    if ws != [] {
      JoinFirst(parts, " ");
      JoinLast(parts, " ");
    }
    TrimUnchanged(Join(parts, " "));
  }
}
