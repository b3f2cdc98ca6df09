/**
 * String parsing drills (src/Lesson6/Parse.kt): dates in words and in digits,
 * phone numbers, jump protocols, `+`/`-` expressions, repeated words and
 * Roman numerals. `computeDeviceCells` lives in module DeviceCells.
 *
 * Kotlin reports a malformed input either by a sentinel (`""` or `-1`) or by
 * throwing; a throw is a `Fail` of `Result`.
 */
module Parse {
  import opened Arith
  import opened Wrappers
  import opened Text
  import Task2
  import Lists

  // ================================================================ dates

  /** The genitive month names, January first. */
  const MonthNames: seq<string> := [
    "января", "февраля", "марта", "апреля", "мая", "июня",
    "июля", "августа", "сентября", "октября", "ноября", "декабря"
  ]

  /** `months[monthName]` in `dateStrToDigit`: the number of a genitive month name. */
  function MonthNumber(name: string): (m: Option<int>)
    ensures m.Some? <==> name in MonthNames
    ensures m.Some? ==> 1 <= m.value <= 12 && MonthNames[m.value - 1] == name
  {
    FindMonth(name, 0)
  }

  function FindMonth(name: string, k: nat): (m: Option<int>)
    requires k <= 12
    ensures m.Some? <==> name in MonthNames[k..]
    ensures m.Some? ==> k < m.value <= 12 && MonthNames[m.value - 1] == name
    decreases 12 - k
  {
    if k == 12 then None
    else
      assert MonthNames[k..] == [MonthNames[k]] + MonthNames[k + 1..];
      if MonthNames[k] == name then Some(k + 1) else FindMonth(name, k + 1)
  }

  /** Every month name is looked up as its own number: the names are distinct. */
  lemma MonthNumberOfName(month: int)
    requires 1 <= month <= 12
    ensures MonthNumber(MonthNames[month - 1]) == Some(month)
  {
    FindMonthOfName(0, month);
  }

  /** The scan from `k` passes over the other names and stops at the month's own. */
  lemma {:induction false} FindMonthOfName(k: nat, month: int)
    requires k < month <= 12
    ensures FindMonth(MonthNames[month - 1], k) == Some(month)
    decreases month - k
  {
    if k < month - 1 {
      MonthNamesDistinct(k, month - 1);
      FindMonthOfName(k + 1, month);
    }
  }


  lemma MonthNamesDistinct(i: int, j: int)
    requires 0 <= i < j < 12
    ensures MonthNames[i] != MonthNames[j]
  {
    var a, b := MonthNames[i], MonthNames[j];
    assert |a| != |b| || a[0] != b[0] || a[2] != b[2];
  }

  /** `isLeapYearCheck`: the same Gregorian rule as Lesson 2's `isLeapYear`. */
  function IsLeapYearCheck(year: int): (leap: bool)
    ensures leap == Task2.IsLeapYear(year)
  {
    Rem(year, 400) == 0 || (Rem(year, 4) == 0 && Rem(year, 100) != 0)
  }

  /** `isValidDate`: a positive year, a month 1..12 and a day within that month's length. */
  function IsValidDate(day: int, month: int, year: int): (valid: bool)
    ensures valid <==> year >= 1 && 1 <= month <= 12 && 1 <= day <= Task2.DaysInMonth(month, year).value
  {
    if year < 1 || !(1 <= month <= 12) || day < 1 then false
    else
      var daysInMonth :=
        if month in {1, 3, 5, 7, 8, 10, 12} then 31
        else if month in {4, 6, 9, 11} then 30
        else if IsLeapYearCheck(year) then 29 else 28;
      day <= daysInMonth
  }

  /** `"%02d.%02d.%d"` of a date. */
  function DigitForm(day: nat, month: nat, year: nat): string {
    TwoDigits(day) + "." + TwoDigits(month) + "." + NatToString(year)
  }

  /** `"$day ${months[month - 1]} $year"` of a date. */
  function WordForm(day: nat, month: int, year: nat): string
    requires 1 <= month <= 12
  {
    NatToString(day) + " " + MonthNames[month - 1] + " " + NatToString(year)
  }

  /**
   * `dateStrToDigit`: "15 июля 2016" becomes "15.07.2016". Exactly three
   * space-separated parts, an `Int` day and year, a known month name and a
   * valid date; anything else gives "".
   */
  function DateStrToDigit(str: string): (r: string)
    ensures var parts := Split(str, ' ');
      r != "" <==>
        |parts| == 3 && ToIntOrNull(parts[0]).Some? && ToIntOrNull(parts[2]).Some? && parts[1] in MonthNames
        && IsValidDate(ToIntOrNull(parts[0]).value, MonthNumber(parts[1]).value, ToIntOrNull(parts[2]).value)
    ensures var parts := Split(str, ' ');
      r != "" ==> r == DigitForm(ToIntOrNull(parts[0]).value, MonthNumber(parts[1]).value, ToIntOrNull(parts[2]).value)
  {
    var parts := Split(str, ' ');
    if |parts| != 3 then ""
    else
      match (ToIntOrNull(parts[0]), ToIntOrNull(parts[2]), MonthNumber(parts[1]))
      case (Some(day), Some(year), Some(month)) =>
        if IsValidDate(day, month, year) then
          var r := DigitForm(day, month, year);
          assert r[2] == '.';
          r
        else ""
      case _ => ""
  }

  /**
   * `dateDigitToStr`: "15.07.2016" becomes "15 июля 2016". Exactly three
   * dot-separated parts of lengths 1..2, 1..2 and 4, each an `Int`, forming a
   * valid date; anything else gives "".
   */
  function DateDigitToStr(digital: string): (r: string)
    ensures var parts := Split(digital, '.');
      r != "" <==>
        |parts| == 3 && 1 <= |parts[0]| <= 2 && 1 <= |parts[1]| <= 2 && |parts[2]| == 4
        && ToIntOrNull(parts[0]).Some? && ToIntOrNull(parts[1]).Some? && ToIntOrNull(parts[2]).Some?
        && IsValidDate(ToIntOrNull(parts[0]).value, ToIntOrNull(parts[1]).value, ToIntOrNull(parts[2]).value)
    ensures var parts := Split(digital, '.');
      r != "" ==> r == WordForm(ToIntOrNull(parts[0]).value, ToIntOrNull(parts[1]).value, ToIntOrNull(parts[2]).value)
  {
    var parts := Split(digital, '.');
    if |parts| != 3 then ""
    else if !(1 <= |parts[0]| <= 2) || !(1 <= |parts[1]| <= 2) || |parts[2]| != 4 then ""
    else
      match (ToIntOrNull(parts[0]), ToIntOrNull(parts[1]), ToIntOrNull(parts[2]))
      case (Some(day), Some(month), Some(year)) =>
        if IsValidDate(day, month, year) then
          var r := WordForm(day, month, year);
          assert r[..|NatToString(day)|] == NatToString(day);
          r
        else ""
      case _ => ""
  }

  /** A digit string (no sign) in range parses to its value. */
  lemma ParseDigitString(s: string, lo: int, hi: int)
    requires |s| >= 1 && AllDigits(s) && lo <= DigitsValue(s) <= hi
    ensures ParseInteger(s, lo, hi) == Some(DigitsValue(s))
  {
    assert IsDigit(s[0]);
  }

  /** The three-part string `a sep b sep c` splits back into `a`, `b`, `c`. */
  lemma SplitThree(a: string, b: string, c: string, sep: char)
    requires sep !in a && sep !in b && sep !in c
    ensures Split(a + [sep] + b + [sep] + c, sep) == [a, b, c]
  {
    SplitNoSep(c, sep);
    SplitPrefix(b, c, sep);
    SplitPrefix(a, b + [sep] + c, sep);
    assert a + [sep] + b + [sep] + c == a + [sep] + (b + [sep] + c);
  }

  lemma DigitsHaveNo(s: string, c: char)
    requires AllDigits(s) && !IsDigit(c)
    ensures c !in s
  {
  }

  /** Month names contain no separator. */
  lemma MonthNameNoSpace(month: int)
    requires 1 <= month <= 12
    ensures ' ' !in MonthNames[month - 1]
  {
    assert month in {1, 2, 3, 4, 5, 6, 7, 8, 9, 10, 11, 12};
  }

  /** For a valid date with an `Int` year, the word form converts to the digit form. */
  lemma WordFormToDigits(day: nat, month: int, year: nat)
    requires IsValidDate(day, month, year) && year <= IntMax
    ensures DateStrToDigit(WordForm(day, month, year)) == DigitForm(day, month, year)
  {
    var d, y := NatToString(day), NatToString(year);
    var name := MonthNames[month - 1];
    NatToStringValue(day);
    NatToStringValue(year);
    DigitsHaveNo(d, ' ');
    DigitsHaveNo(y, ' ');
    MonthNameNoSpace(month);
    SplitThree(d, name, y, ' ');
    assert WordForm(day, month, year) == d + [' '] + name + [' '] + y;
    ParseDigitString(d, IntMin, IntMax);
    ParseDigitString(y, IntMin, IntMax);
    MonthNumberOfName(month);
  }

  /** For a valid date with a four-digit year, the digit form converts back to the word form. */
  lemma DigitFormToWords(day: nat, month: int, year: nat)
    requires IsValidDate(day, month, year) && 1000 <= year <= 9999
    ensures DateDigitToStr(DigitForm(day, month, year)) == WordForm(day, month, year)
  {
    var dd, mm, y := TwoDigits(day), TwoDigits(month), NatToString(year);
    NatToStringValue(year);
    DigitsHaveNo(dd, '.');
    DigitsHaveNo(mm, '.');
    DigitsHaveNo(y, '.');
    SplitThree(dd, mm, y, '.');
    assert DigitForm(day, month, year) == dd + ['.'] + mm + ['.'] + y;
    ParseDigitString(dd, IntMin, IntMax);
    ParseDigitString(mm, IntMin, IntMax);
    ParseDigitString(y, IntMin, IntMax);
    FourDigitYear(year);
  }

  /** The two converters are inverse on valid dates with four-digit years. */
  lemma DateRoundTrip(day: nat, month: int, year: nat)
    requires IsValidDate(day, month, year) && 1000 <= year <= 9999
    ensures DateDigitToStr(DateStrToDigit(WordForm(day, month, year))) == WordForm(day, month, year)
  {
    WordFormToDigits(day, month, year);
    DigitFormToWords(day, month, year);
  }

  /** The decimal rendering of a year 1000..9999 has four digits. */
  lemma FourDigitYear(year: nat)
    requires 1000 <= year <= 9999
    ensures |NatToString(year)| == 4
  {
    var y := NatToString(year);
    NatToStringValue(year);
    DigitsBelowPow(y);
    if |y| < 4 {
      PowMonotone(10, |y|, 3);
    } else if |y| > 4 {
      DigitsAtLeastPow(y);
      PowMonotone(10, 4, |y| - 1);
    }
  }

  /** A digit string of length `k` has a value below `10^k`. */
  lemma {:induction false} DigitsBelowPow(s: string)
    requires AllDigits(s)
    ensures DigitsValue(s) < Pow(10, |s|)
  {
    if s != [] {
      DigitsBelowPow(s[..|s| - 1]);
    }
  }

  /** A digit string of length `k` without a leading zero has a value of at least `10^(k-1)`. */
  lemma {:induction false} DigitsAtLeastPow(s: string)
    requires AllDigits(s) && |s| >= 1 && s[0] != '0'
    ensures DigitsValue(s) >= Pow(10, |s| - 1)
  {
    if |s| > 1 {
      DigitsAtLeastPow(s[..|s| - 1]);
    }
  }

  // ================================================================ phone numbers

  /** The characters `flattenPhoneNumber` accepts: digits, `+`, space, `-` and brackets. */
  predicate PhoneChar(c: char) {
    c == '+' || IsDigit(c) || c == ' ' || c == '-' || c == '(' || c == ')'
  }

  /** The characters the first loop appends: `+` and digits, in order. */
  function Kept(s: string): (r: string)
    ensures |r| <= |s|
  {
    if s == [] then []
    else
      var c := s[|s| - 1];
      Kept(s[..|s| - 1]) + (if c == '+' || IsDigit(c) then [c] else [])
  }

  /** The first loop does not give up: every character is acceptable and a `+` comes before any kept character. */
  predicate FirstPassOk(s: string) {
    s == [] ||
      var c := s[|s| - 1];
      FirstPassOk(s[..|s| - 1]) && PhoneChar(c) && (c == '+' ==> Kept(s[..|s| - 1]) == [])
  }

  /** The characters `Regex("\\s")` matches. */
  predicate RegexSpace(c: char) { c == ' ' || '\t' <= c <= '\r' }

  /** `replace(Regex("\\s+"), "")`. */
  function RemoveSpaces(s: string): (r: string)
    ensures |r| <= |s|
    ensures forall i :: 0 <= i < |r| ==> !RegexSpace(r[i])
  {
    if s == [] then [] else (if RegexSpace(s[0]) then [] else [s[0]]) + RemoveSpaces(s[1..])
  }

  /** `"$a$b" in t`. */
  predicate HasPair(t: string, a: char, b: char) {
    exists k :: 0 <= k < |t| - 1 && t[k] == a && t[k + 1] == b
  }

  /** Empty brackets, or a `+` just inside a bracket. */
  predicate BadBrackets(t: string) {
    HasPair(t, '(', ')') || HasPair(t, '(', '+') || HasPair(t, '+', ')')
  }

  /** Open brackets minus closed brackets. */
  function Depth(s: string, open: char, close: char): int {
    if s == [] then 0
    else
      var c := s[|s| - 1];
      Depth(s[..|s| - 1], open, close) + (if c == open then 1 else if c == close then -1 else 0)
  }

  /** No prefix closes more brackets than it opens. */
  predicate NeverNegative(s: string, open: char, close: char) {
    s == [] || (NeverNegative(s[..|s| - 1], open, close) && Depth(s, open, close) >= 0)
  }

  /** Every bracket has its partner. */
  predicate Balanced(s: string, open: char, close: char) {
    NeverNegative(s, open, close) && Depth(s, open, close) == 0
  }

  /**
   * What `flattenPhoneNumber` returns: the `+` and digits of an acceptable
   * number, and "" for one with a foreign character, a misplaced `+`, an
   * empty bracket or a bracket next to `+`, or unpaired brackets.
   */
  function Flattened(phone: string): string {
    if FirstPassOk(phone) && !BadBrackets(RemoveSpaces(phone)) && Balanced(phone, '(', ')') then Kept(phone)
    else ""
  }

  lemma {:induction false} FirstPassPrefix(s: string, k: nat)
    requires k <= |s| && FirstPassOk(s)
    ensures FirstPassOk(s[..k])
    decreases |s| - k
  {
    if k < |s| {
      FirstPassPrefix(s[..|s| - 1], k);
      assert s[..|s| - 1][..k] == s[..k];
    } else {
      assert s[..k] == s;
    }
  }

  lemma {:induction false} NeverNegativePrefix(s: string, k: nat, open: char, close: char)
    requires k <= |s| && NeverNegative(s, open, close)
    ensures NeverNegative(s[..k], open, close)
    decreases |s| - k
  {
    if k < |s| {
      NeverNegativePrefix(s[..|s| - 1], k, open, close);
      assert s[..|s| - 1][..k] == s[..k];
    } else {
      assert s[..k] == s;
    }
  }

  /** `flattenPhoneNumber`. */
  method FlattenPhoneNumber(phone: string) returns (r: string)
    ensures r == Flattened(phone)
  {
    var result := "";
    var i := 0;
    while i < |phone|
      invariant 0 <= i <= |phone|
      invariant result == Kept(phone[..i]) && FirstPassOk(phone[..i])
    {
      var c := phone[i];
      assert phone[..i + 1][..i] == phone[..i] && phone[..i + 1][i] == c;
      if c == '+' {
        if result != [] {
          if FirstPassOk(phone) { FirstPassPrefix(phone, i + 1); }
          return "";
        }
        result := result + [c];
      } else if IsDigit(c) {
        result := result + [c];
      } else if !(c == ' ' || c == '-' || c == '(' || c == ')') {
        if FirstPassOk(phone) { FirstPassPrefix(phone, i + 1); }
        return "";
      }
      i := i + 1;
    }
    assert phone[..i] == phone;
    var temp := RemoveSpaces(phone);
    if BadBrackets(temp) {
      return "";
    }
    var bracketCount := 0;
    i := 0;
    while i < |phone|
      invariant 0 <= i <= |phone|
      invariant bracketCount == Depth(phone[..i], '(', ')') && NeverNegative(phone[..i], '(', ')')
    {
      var c := phone[i];
      assert phone[..i + 1][..i] == phone[..i] && phone[..i + 1][i] == c;
      if c == '(' {
        bracketCount := bracketCount + 1;
      } else if c == ')' {
        bracketCount := bracketCount - 1;
        if bracketCount < 0 {
          if NeverNegative(phone, '(', ')') { NeverNegativePrefix(phone, i + 1, '(', ')'); }
          return "";
        }
      }
      i := i + 1;
    }
    assert phone[..i] == phone;
    if bracketCount != 0 {
      return "";
    }
    return result;
  }

  /** A flattened number: digits, with possibly a `+` in front. */
  predicate FlatNumber(t: string) {
    forall i :: 0 <= i < |t| ==> IsDigit(t[i]) || (i == 0 && t[i] == '+')
  }

  lemma {:induction false} KeptIsFlat(s: string)
    requires FirstPassOk(s)
    ensures FlatNumber(Kept(s))
  {
    if s != [] {
      KeptIsFlat(s[..|s| - 1]);
    }
  }

  /** The result is empty or a flat number. */
  lemma FlattenedShape(phone: string)
    ensures Flattened(phone) == "" || FlatNumber(Flattened(phone))
  {
    if FirstPassOk(phone) { KeptIsFlat(phone); }
  }

  lemma {:induction false} FlatNumberPasses(t: string)
    requires FlatNumber(t)
    ensures FirstPassOk(t) && Kept(t) == t
    ensures Depth(t, '(', ')') == 0 && NeverNegative(t, '(', ')')
  {
    if t != [] {
      var p := t[..|t| - 1];
      assert FlatNumber(p) by {
        forall i | 0 <= i < |p| ensures IsDigit(p[i]) || (i == 0 && p[i] == '+') {
          assert p[i] == t[i];
        }
      }
      FlatNumberPasses(p);
      assert t == p + [t[|t| - 1]];
    }
  }

  lemma {:induction false} NoSpacesRemoved(t: string)
    requires forall i :: 0 <= i < |t| ==> !RegexSpace(t[i])
    ensures RemoveSpaces(t) == t
  {
    if t != [] {
      NoSpacesRemoved(t[1..]);
      assert [t[0]] + t[1..] == t;
    }
  }

  /** Flattening is idempotent: a flattened number flattens to itself. */
  lemma FlattenIdempotent(phone: string)
    ensures Flattened(Flattened(phone)) == Flattened(phone)
  {
    FlattenedShape(phone);
    var t := Flattened(phone);
    if t == "" {
      assert FirstPassOk(t) && Kept(t) == t;
    } else {
      FlatNumberPasses(t);
      NoSpacesRemoved(t);
      assert !HasPair(t, '(', ')') && !HasPair(t, '(', '+') && !HasPair(t, '+', ')');
    }
  }

  // ================================================================ jump protocols

  /** A long-jump token that is not a number: `-` (skipped) or `%` (foul). */
  predicate IsMark(p: string) { p == "-" || p == "%" }

  /** Every token is a mark or an `Int`. */
  predicate LongJumpsOk(parts: seq<string>) {
    forall i :: 0 <= i < |parts| ==> IsMark(parts[i]) || ToIntOrNull(parts[i]).Some?
  }

  /** The jump a token records, if it is a number. */
  predicate IsJump(p: string) { !IsMark(p) && ToIntOrNull(p).Some? }

  /** The running maximum of `bestLongJump`, from -1, over the numeric tokens. */
  function BestJump(parts: seq<string>): int {
    if parts == [] then -1
    else
      var best, p := BestJump(parts[..|parts| - 1]), parts[|parts| - 1];
      if IsJump(p) then Max(best, ToIntOrNull(p).value) else best
  }

  /** `BestJump` is -1 or the largest jump, and no jump exceeds it. */
  lemma {:induction false} BestJumpIsMax(parts: seq<string>)
    ensures BestJump(parts) >= -1
    ensures forall i :: 0 <= i < |parts| && IsJump(parts[i]) ==> ToIntOrNull(parts[i]).value <= BestJump(parts)
    ensures BestJump(parts) == -1 || exists i :: 0 <= i < |parts| && IsJump(parts[i]) && ToIntOrNull(parts[i]).value == BestJump(parts)
  {
    if parts != [] {
      var init := parts[..|parts| - 1];
      BestJumpIsMax(init);
      assert forall i :: 0 <= i < |init| ==> init[i] == parts[i];
    }
  }

  /**
   * `bestLongJump`: -1 when some token is neither a mark nor an `Int`;
   * otherwise the running maximum of the jumps from -1.
   */
  method BestLongJump(jumps: string) returns (r: int)
    ensures !LongJumpsOk(Split(jumps, ' ')) ==> r == -1
    ensures LongJumpsOk(Split(jumps, ' ')) ==> r == BestJump(Split(jumps, ' '))
  {
    r := BestOfJumps(Split(jumps, ' '));
  }

  /** The loop of `bestLongJump` over the tokens of the protocol. */
  method BestOfJumps(parts: seq<string>) returns (r: int)
    ensures !LongJumpsOk(parts) ==> r == -1
    ensures LongJumpsOk(parts) ==> r == BestJump(parts)
  {
    var maxJump := -1;
    for i := 0 to |parts|
      invariant forall j :: 0 <= j < i ==> IsMark(parts[j]) || ToIntOrNull(parts[j]).Some?
      invariant maxJump == BestJump(parts[..i])
    {
      var part := parts[i];
      BestJumpSnoc(parts, i);
      if !IsMark(part) {
        if ToIntOrNull(part).None? {
          return -1;
        }
        var jump := ToIntOrNull(part).value;
        if jump > maxJump {
          maxJump := jump;
        }
      }
    }
    assert parts[..|parts|] == parts;
    return maxJump;
  }

  /** One more token: `BestJump` of the longer prefix. */
  lemma BestJumpSnoc(parts: seq<string>, i: nat)
    requires i < |parts|
    ensures BestJump(parts[..i + 1]) == if IsJump(parts[i]) then Max(BestJump(parts[..i]), ToIntOrNull(parts[i]).value) else BestJump(parts[..i])
  {
    assert parts[..i + 1][..i] == parts[..i] && parts[..i + 1][i] == parts[i];
  }

  /** A high-jump attempt: `+` (cleared), `%` (failed) or `-` (skipped). */
  predicate AttemptChar(c: char) { c == '+' || c == '%' || c == '-' }

  /** The pair of tokens at `i`: an `Int` height and its attempts. */
  predicate HeightOk(parts: seq<string>, i: int)
    requires 0 <= i < |parts| - 1
  {
    ToIntOrNull(parts[i]).Some? && forall c :: c in parts[i + 1] ==> AttemptChar(c)
  }

  /** The height at `i` was cleared. */
  predicate Cleared(parts: seq<string>, i: int)
    requires 0 <= i < |parts| - 1
  {
    '+' in parts[i + 1]
  }

  /** An even number of tokens, forming height and attempt pairs. */
  predicate HighJumpsOk(parts: seq<string>) {
    |parts| % 2 == 0 && forall i :: 0 <= i < |parts| - 1 && i % 2 == 0 ==> HeightOk(parts, i)
  }

  /** The running maximum of `bestHighJump`, from -1, over the cleared heights of well-formed pairs. */
  function BestHeight(parts: seq<string>): int
    requires |parts| % 2 == 0
  {
    if parts == [] then -1
    else
      var best, i := BestHeight(parts[..|parts| - 2]), |parts| - 2;
      if HeightOk(parts, i) && Cleared(parts, i) then Max(best, ToIntOrNull(parts[i]).value) else best
  }

  /** The pair at `i` is well formed and its height was cleared. */
  predicate ClearedAt(parts: seq<string>, i: int)
    requires 0 <= i < |parts| - 1
  {
    i % 2 == 0 && HeightOk(parts, i) && Cleared(parts, i)
  }

  /** Dropping the last pair keeps every earlier pair. */
  lemma ClearedInit(parts: seq<string>, i: int)
    requires 2 <= |parts| && 0 <= i < |parts| - 3
    ensures parts[..|parts| - 2][i] == parts[i]
    ensures ClearedAt(parts[..|parts| - 2], i) == ClearedAt(parts, i)
  {
    var init := parts[..|parts| - 2];
    assert init[i] == parts[i] && init[i + 1] == parts[i + 1];
  }

  /** `BestHeight` is -1 or the largest cleared height, and no cleared height exceeds it. */
  lemma {:induction false} BestHeightIsMax(parts: seq<string>)
    requires |parts| % 2 == 0
    ensures BestHeight(parts) >= -1
    ensures forall i :: 0 <= i < |parts| - 1 && ClearedAt(parts, i) ==> ToIntOrNull(parts[i]).value <= BestHeight(parts)
  {
    if parts != [] {
      var init := parts[..|parts| - 2];
      EvenLess(|parts|);
      BestHeightIsMax(init);
      forall i | 0 <= i < |parts| - 1 && ClearedAt(parts, i)
        ensures ToIntOrNull(parts[i]).value <= BestHeight(parts)
      {
        if i < |parts| - 3 {
          ClearedInit(parts, i);
        } else {
          LastEven(i, |parts|);
        }
      }
    }
  }

  lemma EvenLess(n: int)
    requires n >= 2 && n % 2 == 0
    ensures (n - 2) % 2 == 0
  {
  }

  /** The only even index among the last three before an even length is the second to last. */
  lemma LastEven(i: int, n: int)
    requires i % 2 == 0 && n % 2 == 0 && n - 3 <= i < n - 1
    ensures i == n - 2
  {
  }

  /** A `BestHeight` other than -1 is the height of some cleared pair. */
  lemma {:induction false} BestHeightAttained(parts: seq<string>)
    requires |parts| % 2 == 0
    ensures BestHeight(parts) == -1 || exists i :: 0 <= i < |parts| - 1 && ClearedAt(parts, i) && ToIntOrNull(parts[i]).value == BestHeight(parts)
  {
    if parts != [] {
      var init := parts[..|parts| - 2];
      EvenLess(|parts|);
      BestHeightAttained(init);
      if BestHeight(parts) != -1 && BestHeight(parts) == BestHeight(init) {
        var i :| 0 <= i < |init| - 1 && ClearedAt(init, i) && ToIntOrNull(init[i]).value == BestHeight(init);
        ClearedInit(parts, i);
      }
    }
  }

  /** The pairs before `i` are the pairs of the prefix. */
  lemma HeightPrefix(parts: seq<string>, i: nat)
    requires i + 2 <= |parts| && i % 2 == 0
    ensures var next := parts[..i + 2];
      next[..i] == parts[..i] && HeightOk(next, i) == HeightOk(parts, i) && Cleared(next, i) == Cleared(parts, i)
  {
  }

  /**
   * `bestHighJump`: -1 for an odd number of tokens, a height that is not an
   * `Int` or an attempt outside `+%-`; otherwise the running maximum of the
   * cleared heights from -1.
   */
  method BestHighJump(jumps: string) returns (r: int)
    ensures !HighJumpsOk(Split(jumps, ' ')) ==> r == -1
    ensures HighJumpsOk(Split(jumps, ' ')) ==> r == BestHeight(Split(jumps, ' '))
  {
    var parts := Split(jumps, ' ');
    if |parts| % 2 != 0 {
      return -1;
    }
    r := BestCleared(parts);
  }

  /** The loop of `bestHighJump` over height and attempt pairs. */
  method BestCleared(parts: seq<string>) returns (r: int)
    requires |parts| % 2 == 0
    ensures !HighJumpsOk(parts) ==> r == -1
    ensures HighJumpsOk(parts) ==> r == BestHeight(parts)
  {
    var maxHeight := -1;
    var i := 0;
    ghost var pairs := 0;
    ghost var half := |parts| / 2;
    assert |parts| == 2 * half;
    while i < |parts|
      invariant 0 <= i <= |parts| && i == 2 * pairs
      invariant forall j :: 0 <= j < i && j % 2 == 0 ==> HeightOk(parts, j)
      invariant i % 2 == 0 && maxHeight == BestHeight(parts[..i])
    {
      assert i + 1 < |parts|;
      if ToIntOrNull(parts[i]).None? {
        assert !HeightOk(parts, i);
        return -1;
      }
      var height := ToIntOrNull(parts[i]).value;
      var attempts := parts[i + 1];
      var ok := AttemptsOk(attempts);
      if !ok {
        assert !HeightOk(parts, i);
        return -1;
      }
      BestHeightStep(parts, i, pairs);
      HeightsThrough(parts, i, pairs);
      if '+' in attempts {
        if height > maxHeight {
          maxHeight := height;
        }
      }
      i, pairs := i + 2, pairs + 1;
    }
    assert parts[..i] == parts;
    return maxHeight;
  }

  /** A well-formed pair at `i` extends the well-formed pairs before it. */
  lemma HeightsThrough(parts: seq<string>, i: nat, pairs: nat)
    requires i == 2 * pairs && i + 2 <= |parts| && HeightOk(parts, i)
    requires forall j :: 0 <= j < i && j % 2 == 0 ==> HeightOk(parts, j)
    ensures forall j :: 0 <= j < i + 2 && j % 2 == 0 ==> HeightOk(parts, j)
  {
    assert (i + 1) % 2 == 1 by {
      assert i + 1 == pairs * 2 + 1;
      DivModOf(pairs, 1, 2);
    }
  }

  /** One more pair: `BestHeight` of the longer prefix. */
  lemma BestHeightStep(parts: seq<string>, i: nat, pairs: nat)
    requires i == 2 * pairs && i + 2 <= |parts|
    ensures i % 2 == 0 && (i + 2) % 2 == 0
    ensures var v := ToIntOrNull(parts[i]);
      BestHeight(parts[..i + 2]) == if HeightOk(parts, i) && Cleared(parts, i) then Max(BestHeight(parts[..i]), v.value) else BestHeight(parts[..i])
  {
    HeightPrefix(parts, i);
  }

  /** The inner loop of `bestHighJump`: every attempt character is one of `+%-`. */
  method AttemptsOk(attempts: string) returns (ok: bool)
    ensures ok <==> forall c :: c in attempts ==> AttemptChar(c)
  {
    for k := 0 to |attempts|
      invariant forall m :: 0 <= m < k ==> AttemptChar(attempts[m])
    {
      if !AttemptChar(attempts[k]) {
        return false;
      }
    }
    return true;
  }

  // ================================================================ plus-minus expressions

  predicate IsOperator(p: string) { p == "+" || p == "-" }

  /** An `Int`, then any number of operator and `Int` pairs, as space-separated tokens. */
  predicate ExpressionOk(parts: seq<string>)
    decreases |parts|
  {
    if |parts| == 1 then ToIntOrNull(parts[0]).Some?
    else
      |parts| >= 3 && ExpressionOk(parts[..|parts| - 2])
      && IsOperator(parts[|parts| - 2]) && ToIntOrNull(parts[|parts| - 1]).Some?
  }

  /** The value of the expression, evaluated from left to right. */
  function Evaluate(parts: seq<string>): int
    requires ExpressionOk(parts)
    decreases |parts|
  {
    if |parts| == 1 then ToIntOrNull(parts[0]).value
    else
      var left := Evaluate(parts[..|parts| - 2]);
      var number := ToIntOrNull(parts[|parts| - 1]).value;
      if parts[|parts| - 2] == "+" then left + number else left - number
  }

  lemma {:induction false} ExpressionOdd(parts: seq<string>)
    requires ExpressionOk(parts)
    ensures |parts| % 2 == 1
    decreases |parts|
  {
    if |parts| > 1 {
      ExpressionOdd(parts[..|parts| - 2]);
    }
  }

  lemma {:induction false} ExpressionPrefix(parts: seq<string>, k: nat)
    requires ExpressionOk(parts) && 1 <= k <= |parts| && k % 2 == 1
    ensures ExpressionOk(parts[..k])
    decreases |parts|
  {
    ExpressionOdd(parts);
    if k < |parts| {
      ExpressionPrefix(parts[..|parts| - 2], k);
      assert parts[..|parts| - 2][..k] == parts[..k];
    } else {
      assert parts[..k] == parts;
    }
  }

  /** One more operator and operand extend a well-formed expression. */
  lemma ExpressionStep(parts: seq<string>, i: nat)
    requires 1 <= i && i + 1 < |parts| && ExpressionOk(parts[..i])
    requires IsOperator(parts[i]) && ToIntOrNull(parts[i + 1]).Some?
    ensures ExpressionOk(parts[..i + 2])
    ensures var number := ToIntOrNull(parts[i + 1]).value;
      Evaluate(parts[..i + 2]) == if parts[i] == "+" then Evaluate(parts[..i]) + number else Evaluate(parts[..i]) - number
  {
    var next := parts[..i + 2];
    assert next[..i] == parts[..i] && next[i] == parts[i] && next[i + 1] == parts[i + 1];
  }

  /** The loop of `plusMinus` throws at odd index `i` only for an ill-formed expression: a bad pair at `i`, ... */
  lemma ExpressionBadPair(parts: seq<string>, i: nat, pairs: nat)
    requires 1 <= i && i + 1 < |parts| && i == 2 * pairs + 1
    requires !IsOperator(parts[i]) || ToIntOrNull(parts[i + 1]).None?
    ensures !ExpressionOk(parts)
  {
    if ExpressionOk(parts) {
      assert (i + 2) % 2 == 1 by {
        assert i + 2 == (pairs + 1) * 2 + 1;
        DivModOf(pairs + 1, 1, 2);
      }
      ExpressionPrefix(parts, i + 2);
      assert false;
    }
  }

  /** ... or a missing last operand: an even number of tokens. */
  lemma ExpressionEven(parts: seq<string>, pairs: nat)
    requires |parts| == 2 * pairs + 2
    ensures !ExpressionOk(parts)
  {
    if ExpressionOk(parts) {
      ExpressionOdd(parts);
      assert false;
    }
  }

  /**
   * `plusMinus`: the value of a well-formed expression; IllegalArgumentException
   * for the empty string, a token that should be an `Int` and is not, an
   * operator other than `+` or `-`, or a missing last operand.
   */
  method PlusMinus(expression: string) returns (r: Result<int>)
    ensures r.Ok? <==> ExpressionOk(Split(expression, ' '))
    ensures r.Fail? ==> r.error == IllegalArgument
    ensures r.Ok? ==> r.value == Evaluate(Split(expression, ' '))
  {
    if expression == [] {
      assert Split(expression, ' ') == [""];
      return Fail(IllegalArgument);
    }
    r := EvaluateTokens(Split(expression, ' '));
  }

  /** The part of `plusMinus` after `split(" ")`: the first operand, then the loop over operator and operand pairs. */
  method EvaluateTokens(parts: seq<string>) returns (r: Result<int>)
    requires |parts| >= 1
    ensures r.Ok? <==> ExpressionOk(parts)
    ensures r.Fail? ==> r.error == IllegalArgument
    ensures r.Ok? ==> r.value == Evaluate(parts)
  {
    if ToIntOrNull(parts[0]).None? {
      if ExpressionOk(parts) { ExpressionPrefix(parts, 1); }
      return Fail(IllegalArgument);
    }
    var result := ToIntOrNull(parts[0]).value;
    assert ExpressionOk(parts[..1]);
    var i := 1;
    ghost var pairs := 0;
    while i < |parts|
      invariant 1 <= i <= |parts| && i == 2 * pairs + 1
      invariant ExpressionOk(parts[..i]) && result == Evaluate(parts[..i])
    {
      if i + 1 >= |parts| {
        ExpressionEven(parts, pairs);
        return Fail(IllegalArgument);
      }
      var operator, numberStr := parts[i], parts[i + 1];
      if !IsOperator(operator) || ToIntOrNull(numberStr).None? {
        ExpressionBadPair(parts, i, pairs);
        return Fail(IllegalArgument);
      }
      var number := ToIntOrNull(numberStr).value;
      ExpressionStep(parts, i);
      if operator == "+" {
        result := result + number;
      } else {
        result := result - number;
      }
      i, pairs := i + 2, pairs + 1;
    }
    assert parts[..i] == parts;
    return Ok(result);
  }

  // ================================================================ repeated words

  /** `equals(other, ignoreCase = true)` on Latin and Russian letters. */
  predicate EqualsIgnoreCase(a: string, b: string) { LowerString(a) == LowerString(b) }

  /** The index in `joinToString(" ")` where word `i` starts. */
  function Offset(words: seq<string>, i: nat): nat
    requires i <= |words|
  {
    if i == 0 then 0 else |words[0]| + 1 + Offset(words[1..], i - 1)
  }

  lemma {:induction false} OffsetStep(words: seq<string>, i: nat)
    requires i < |words|
    ensures Offset(words, i + 1) == Offset(words, i) + |words[i]| + 1
  {
    if i > 0 {
      OffsetStep(words[1..], i - 1);
    }
  }

  /** Repeated neighbours: word `i` and word `i + 1` agree ignoring case. */
  predicate RepeatAt(words: seq<string>, i: int)
    requires 0 <= i < |words| - 1
  {
    EqualsIgnoreCase(words[i], words[i + 1])
  }

  /**
   * `firstDuplicateIndex`: the index where the first word that is repeated
   * by its neighbour starts, or -1 when there is no such word.
   */
  method FirstDuplicateIndex(str: string) returns (r: int)
    ensures r == -1 ==> forall i :: 0 <= i < |Split(str, ' ')| - 1 ==> !RepeatAt(Split(str, ' '), i)
    ensures r != -1 ==> exists i :: (0 <= i < |Split(str, ' ')| - 1 && RepeatAt(Split(str, ' '), i)
      && r == Offset(Split(str, ' '), i) && forall j :: 0 <= j < i ==> !RepeatAt(Split(str, ' '), j))
  {
    var words := Split(str, ' ');
    if str == [] {
      assert words == [""];
      return -1;
    }
    var currentIndex := 0;
    for i := 0 to |words| - 1
      invariant currentIndex == Offset(words, i)
      invariant forall j :: 0 <= j < i ==> !RepeatAt(words, j)
    {
      if EqualsIgnoreCase(words[i], words[i + 1]) {
        assert RepeatAt(words, i);
        return currentIndex;
      }
      OffsetStep(words, i);
      currentIndex := currentIndex + |words[i]| + 1;
    }
    return -1;
  }

  /** Word `i` of a space-separated string starts at `Offset(words, i)` and is followed by a space. */
  lemma {:induction false} WordAtOffset(words: seq<string>, i: nat)
    requires i < |words|
    ensures var j, o := Join(words, " "), Offset(words, i);
      o + |words[i]| <= |j| && j[o..o + |words[i]|] == words[i]
      && (i + 1 < |words| ==> o + |words[i]| < |j| && j[o + |words[i]|] == ' ')
  {
    if |words| > 1 {
      var rest := Join(words[1..], " ");
      assert Join(words, " ") == words[0] + " " + rest;
      if i > 0 {
        WordAtOffset(words[1..], i - 1);
        assert words[1..][i - 1] == words[i];
        ShiftedWord(words[0] + " ", rest, Offset(words[1..], i - 1), words[i], i + 1 < |words|);
      } else {
        assert (words[0] + " " + rest)[..|words[0]|] == words[0];
      }
    }
  }

  /** A word at offset `o` of `b`, followed by a space when `spaced`, is at offset `|a| + o` of `a + b`. */
  lemma ShiftedWord(a: string, b: string, o: nat, w: string, spaced: bool)
    requires o + |w| <= |b| && b[o..o + |w|] == w
    requires spaced ==> o + |w| < |b| && b[o + |w|] == ' '
    ensures |a| + o + |w| <= |a + b| && (a + b)[|a| + o..|a| + o + |w|] == w
    ensures spaced ==> |a| + o + |w| < |a + b| && (a + b)[|a| + o + |w|] == ' '
  {
    assert (a + b)[|a|..] == b;
    assert (a + b)[|a| + o..|a| + o + |w|] == b[o..o + |w|];
  }

  /** The index `firstDuplicateIndex` reports is where the repeated word appears in the string. */
  lemma DuplicateInString(str: string, i: nat)
    requires i < |Split(str, ' ')| - 1
    ensures var words, o := Split(str, ' '), Offset(Split(str, ' '), i);
      o + |words[i]| < |str| && str[o..o + |words[i]|] == words[i] && str[o + |words[i]|] == ' '
  {
    SplitJoin(str, ' ');
    WordAtOffset(Split(str, ' '), i);
  }

  // ================================================================ Roman numerals

  /** `values[c]` in `fromRoman`. */
  function RomanDigit(c: char): (v: int)
    ensures v >= 0
    ensures v > 0 <==> c in "IVXLCDM"
  {
    match c
    case 'I' => 1
    case 'V' => 5
    case 'X' => 10
    case 'L' => 50
    case 'C' => 100
    case 'D' => 500
    case 'M' => 1000
    case _ => 0
  }

  /** The six subtraction pairs IV, IX, XL, XC, CD and CM. */
  predicate Subtractive(a: char, b: char) {
    (a == 'I' && (b == 'V' || b == 'X')) || (a == 'X' && (b == 'L' || b == 'C')) || (a == 'C' && (b == 'D' || b == 'M'))
  }

  function Plus(o: Option<int>, k: int): Option<int> {
    match o
    case None => None
    case Some(v) => Some(v + k)
  }

  /**
   * The value the main loop of `fromRoman` adds up, from the left: a
   * character before a larger one must form a subtraction pair, which
   * counts as the difference; every other character counts its value.
   */
  function Scan(s: string): Option<int>
    decreases |s|
  {
    if s == [] then Some(0)
    else if |s| >= 2 && RomanDigit(s[0]) < RomanDigit(s[1]) then
      if Subtractive(s[0], s[1]) then Plus(Scan(s[2..]), RomanDigit(s[1]) - RomanDigit(s[0])) else None
    else Plus(Scan(s[1..]), RomanDigit(s[0]))
  }

  /** The four characters from `k` on are equal. */
  predicate Run(s: string, k: int)
    requires 0 <= k < |s| - 3
  {
    s[k] == s[k + 1] && s[k] == s[k + 2] && s[k] == s[k + 3]
  }

  /** `roman.contains("$c$c$c$c")` for some `c`. */
  predicate FourInARow(s: string) {
    exists k :: 0 <= k < |s| - 3 && Run(s, k)
  }

  /** Every character is one of IVXLCDM. */
  predicate AllRoman(s: string) {
    forall i :: 0 <= i < |s| ==> RomanDigit(s[i]) > 0
  }

  /** `s.count { it == c }`. */
  function Count(s: string, c: char): nat {
    if s == [] then 0 else (if s[0] == c then 1 else 0) + Count(s[1..], c)
  }

  /** V, L or D more than once. */
  predicate RepeatedSingle(s: string) {
    Count(s, 'V') > 1 || Count(s, 'L') > 1 || Count(s, 'D') > 1
  }

  /** What `fromRoman` returns. */
  function RomanValue(roman: string): int {
    if roman == [] || !AllRoman(roman) then -1
    else
      match Scan(roman)
      case None => -1
      case Some(v) => if FourInARow(roman) || RepeatedSingle(roman) then -1 else v
  }

  lemma PlusPlus(o: Option<int>, a: int, b: int)
    ensures Plus(Plus(o, a), b) == Plus(o, a + b)
  {
  }

  /** `Scan` from `i` when the character at `i` is smaller than the next one. */
  lemma ScanPair(s: string, i: nat)
    requires i + 1 < |s| && RomanDigit(s[i]) < RomanDigit(s[i + 1])
    ensures Scan(s[i..]) ==
      if Subtractive(s[i], s[i + 1]) then Plus(Scan(s[i + 2..]), RomanDigit(s[i + 1]) - RomanDigit(s[i])) else None
  {
    var rest := s[i..];
    assert rest[0] == s[i] && rest[1] == s[i + 1] && rest[2..] == s[i + 2..];
  }

  /** `Scan` from `i` otherwise. */
  lemma ScanSingle(s: string, i: nat)
    requires i < |s| && !(i + 1 < |s| && RomanDigit(s[i]) < RomanDigit(s[i + 1]))
    ensures Scan(s[i..]) == Plus(Scan(s[i + 1..]), RomanDigit(s[i]))
  {
    var rest := s[i..];
    assert rest[0] == s[i] && rest[1..] == s[i + 1..];
    assert |rest| >= 2 ==> rest[1] == s[i + 1];
  }

  /** The main loop of `fromRoman`: `None` where it returns -1 for a wrong subtraction. */
  method ScanRoman(roman: string) returns (r: Option<int>)
    ensures r == Scan(roman)
  {
    var result := 0;
    var i := 0;
    assert roman[0..] == roman;
    while i < |roman|
      invariant 0 <= i <= |roman|
      invariant Scan(roman) == Plus(Scan(roman[i..]), result)
    {
      var currentValue := RomanDigit(roman[i]);
      if i + 1 < |roman| && currentValue < RomanDigit(roman[i + 1]) {
        ScanPair(roman, i);
        if !Subtractive(roman[i], roman[i + 1]) {
          return None;
        }
        var step := RomanDigit(roman[i + 1]) - currentValue;
        assert Scan(roman) == Plus(Plus(Scan(roman[i + 2..]), step), result);
        PlusPlus(Scan(roman[i + 2..]), step, result);
        result := result + step;
        i := i + 2;
      } else {
        ScanSingle(roman, i);
        assert Scan(roman) == Plus(Plus(Scan(roman[i + 1..]), currentValue), result);
        PlusPlus(Scan(roman[i + 1..]), currentValue, result);
        result := result + currentValue;
        i := i + 1;
      }
    }
    return Some(result);
  }

  /** `s.contains("$c$c$c$c")`. */
  predicate ContainsFour(s: string, c: char) {
    exists j :: 0 <= j < |s| - 3 && s[j] == c && s[j + 1] == c && s[j + 2] == c && s[j + 3] == c
  }

  /** The repetition check of `fromRoman`: some character of the numeral occurs four times in a row. */
  method HasFourInARow(roman: string) returns (b: bool)
    ensures b == FourInARow(roman)
  {
    for k := 0 to |roman|
      invariant forall m :: 0 <= m < k ==> !ContainsFour(roman, roman[m])
    {
      if ContainsFour(roman, roman[k]) {
        FourOfContains(roman, roman[k]);
        return true;
      }
    }
    FourOfNone(roman);
    return false;
  }

  lemma FourOfContains(s: string, c: char)
    requires ContainsFour(s, c)
    ensures FourInARow(s)
  {
    var j :| 0 <= j < |s| - 3 && s[j] == c && s[j + 1] == c && s[j + 2] == c && s[j + 3] == c;
    assert Run(s, j);
  }

  lemma FourOfNone(s: string)
    requires forall m :: 0 <= m < |s| ==> !ContainsFour(s, s[m])
    ensures !FourInARow(s)
  {
    forall j | 0 <= j < |s| - 3
      ensures !Run(s, j)
    {
      assert !ContainsFour(s, s[j]);
    }
  }

  /** The check for V, L and D in `fromRoman`. */
  method HasRepeatedSingle(roman: string) returns (b: bool)
    ensures b == RepeatedSingle(roman)
  {
    var limited := "VLD";
    for k := 0 to 3
      invariant forall j :: 0 <= j < k ==> Count(roman, limited[j]) <= 1
    {
      if Count(roman, limited[k]) > 1 {
        return true;
      }
    }
    assert limited[0] == 'V' && limited[1] == 'L' && limited[2] == 'D';
    return false;
  }

  /** `fromRoman`. */
  method FromRoman(roman: string) returns (r: int)
    ensures r == RomanValue(roman)
  {
    if roman == [] {
      return -1;
    }
    for k := 0 to |roman|
      invariant forall j :: 0 <= j < k ==> RomanDigit(roman[j]) > 0
    {
      if RomanDigit(roman[k]) == 0 {
        return -1;
      }
    }
    var result := ScanRoman(roman);
    if result.None? {
      return -1;
    }
    var four := HasFourInARow(roman);
    if four {
      return -1;
    }
    var single := HasRepeatedSingle(roman);
    if single {
      return -1;
    }
    return result.value;
  }

  // ---------------------------------------------------------------- agreement with `roman`

  /** Each of the 13 symbols `roman` emits, as `Scan` reads it. */
  lemma SymbolShape(k: nat)
    requires k < 13
    ensures var sym := Lists.RomanSymbols[k];
      (k % 2 == 0 ==> |sym| == 1 && RomanDigit(sym[0]) == Lists.RomanValues[k])
      && (k % 2 == 1 ==> |sym| == 2 && RomanDigit(sym[0]) < RomanDigit(sym[1]) && Subtractive(sym[0], sym[1])
                         && RomanDigit(sym[1]) - RomanDigit(sym[0]) == Lists.RomanValues[k])
  {
    assert k in {0, 1, 2, 3, 4, 5, 6, 7, 8, 9, 10, 11, 12};
  }

  /** A one-letter symbol is worth at least the first letter of any later symbol. */
  lemma SymbolLeads(k: nat, k2: nat)
    requires k % 2 == 0 && k <= k2 < 13
    ensures RomanDigit(Lists.RomanSymbols[k2][0]) <= Lists.RomanValues[k]
  {
    assert k in {0, 2, 4, 6, 8, 10, 12};
    assert k2 in {0, 1, 2, 3, 4, 5, 6, 7, 8, 9, 10, 11, 12};
  }

  lemma SpellStarts(ks: seq<nat>)
    requires ks != [] && forall j :: 0 <= j < |ks| ==> ks[j] < 13
    ensures var s := Lists.Spell(ks); s != [] && s[0] == Lists.RomanSymbols[ks[0]][0]
  {
    SymbolShape(ks[0]);
  }

  /**
   * `Scan` reads what the greedy loop of `roman` writes from symbol `i` on
   * as the number it started from: no subtraction is misread across symbols.
   */
  lemma {:induction false} ScanGreedy(n: int, i: nat)
    requires n >= 0 && i < 13
    ensures Scan(Lists.Spell(Lists.Greedy(n, i))) == Some(n)
    decreases 13 - i, n
  {
    var v := Lists.RomanValues[i];
    if n >= v {
      var rest := Lists.Greedy(n - v, i);
      var t := Lists.Spell(rest);
      ScanGreedy(n - v, i);
      assert Scan(Lists.RomanSymbols[i] + t) == Some(n) by {
        SymbolShape(i);
        if i % 2 == 0 && t != [] {
          SpellStarts(rest);
          SymbolLeads(i, rest[0]);
        }
        ScanSymbol(Lists.RomanSymbols[i], t, v, n - v, n);
      }
      assert Lists.Spell(Lists.Greedy(n, i)) == Lists.RomanSymbols[i] + t by {
        GreedyTake(n, i, n - v);
        assert ([i] + rest)[1..] == rest;
      }
    } else if i < 12 {
      ScanGreedy(n, i + 1);
      assert Lists.Greedy(n, i) == Lists.Greedy(n, i + 1);
    } else {
      assert n == 0;
      assert Lists.Greedy(n, i) == [];
    }
  }

  /**
   * A one-letter symbol not smaller than what follows counts its value, and
   * a subtraction pair counts the difference of its letters.
   */
  lemma ScanSymbol(sym: string, t: string, v: int, x: int, m: int)
    requires (|sym| == 1 && RomanDigit(sym[0]) == v && (t == [] || RomanDigit(t[0]) <= v))
      || (|sym| == 2 && RomanDigit(sym[0]) < RomanDigit(sym[1]) && Subtractive(sym[0], sym[1])
          && RomanDigit(sym[1]) - RomanDigit(sym[0]) == v)
    requires Scan(t) == Some(x) && m == v + x
    ensures Scan(sym + t) == Some(m)
  {
    if |sym| == 1 {
      ScanLetter(sym[0], t, x, m);
      assert sym == [sym[0]];
    } else {
      ScanSubtraction(sym[0], sym[1], t, x, m);
      assert sym == [sym[0], sym[1]];
    }
  }

  lemma ScanLetter(c: char, t: string, x: int, m: int)
    requires t == [] || RomanDigit(t[0]) <= RomanDigit(c)
    requires Scan(t) == Some(x) && m == RomanDigit(c) + x
    ensures Scan([c] + t) == Some(m)
  {
    var s := [c] + t;
    assert s[0] == c && s[1..] == t;
    assert |s| >= 2 ==> s[1] == t[0];
    assert Scan(s) == Plus(Scan(t), RomanDigit(c));
  }

  lemma ScanSubtraction(a: char, b: char, t: string, x: int, m: int)
    requires RomanDigit(a) < RomanDigit(b) && Subtractive(a, b)
    requires Scan(t) == Some(x) && m == RomanDigit(b) - RomanDigit(a) + x
    ensures Scan([a, b] + t) == Some(m)
  {
    var s := [a, b] + t;
    assert s[0] == a && s[1] == b && s[2..] == t;
    assert Scan(s) == Plus(Scan(t), RomanDigit(b) - RomanDigit(a));
  }

  /** `fromRoman`'s main loop reads what `roman(n)` writes as `n`. */
  lemma RomanScan(n: int)
    requires n >= 0
    ensures Scan(Lists.Spell(Lists.Greedy(n, 0))) == Some(n)
  {
    ScanGreedy(n, 0);
  }

  /** The greedy loop skips the symbols larger than what is left. */
  lemma {:induction false} GreedySkip(n: int, i: nat, j: nat)
    requires i <= j <= 13
    requires forall k :: i <= k < j ==> n < Lists.RomanValues[k]
    ensures Lists.Greedy(n, i) == Lists.Greedy(n, j)
    decreases j - i
  {
    if i < j {
      GreedySkip(n, i + 1, j);
    }
  }




  lemma GreedyOf23()
    ensures Lists.Greedy(23, 0) == [8, 8, 12, 12, 12]
  {
    GreedySkip(23, 0, 8);
    GreedyOf3At8();
    assert Lists.RomanValues[8] == 10;
    GreedyTake(13, 8, 3);
    GreedyTake(23, 8, 13);
  }

  /** A symbol not larger than what is left is taken. */
  lemma GreedyTake(n: int, i: nat, rest: int)
    requires i < 13 && n >= Lists.RomanValues[i] && rest == n - Lists.RomanValues[i]
    ensures Lists.Greedy(n, i) == [i] + Lists.Greedy(rest, i)
  {
  }

  lemma GreedyOf3At8()
    ensures Lists.Greedy(3, 8) == [12, 12, 12]
  {
    GreedySkip(3, 8, 12);
    GreedyOf3();
  }

  lemma GreedyOf3()
    ensures Lists.Greedy(3, 12) == [12, 12, 12]
  {
    assert Lists.Greedy(0, 12) == [];
  }

  lemma SpellXXIII()
    ensures Lists.Spell([8, 8, 12, 12, 12]) == "XXIII"
  {
    assert Lists.Spell([12]) == "I";
    assert Lists.Spell([12, 12]) == "I" + Lists.Spell([12]);
    assert Lists.Spell([12, 12, 12]) == "I" + Lists.Spell([12, 12]);
    assert Lists.Spell([8, 12, 12, 12]) == "X" + Lists.Spell([12, 12, 12]);
  }

  lemma SpellOf23()
    ensures Lists.Spell(Lists.Greedy(23, 0)) == "XXIII"
  {
    GreedyOf23();
    SpellXXIII();
  }

  lemma SpellOf44()
    ensures Lists.Spell(Lists.Greedy(44, 0)) == "XLIV"
  {
    GreedyOf44();
    SpellXLIV();
  }

  lemma GreedyOf44()
    ensures Lists.Greedy(44, 0) == [7, 11]
  {
    GreedySkip(44, 0, 7);
    GreedyOf4();
    assert Lists.RomanValues[7] == 40;
    GreedyTake(44, 7, 4);
  }

  lemma GreedyOf4()
    ensures Lists.Greedy(4, 7) == [11]
  {
    GreedySkip(4, 7, 11);
    assert Lists.Greedy(4, 11) == [11] + Lists.Greedy(0, 11);
    GreedyEmptyAt(11);
  }

  lemma GreedyEmptyAt(i: nat)
    requires 11 <= i <= 13
    ensures Lists.Greedy(0, i) == []
    decreases 13 - i
  {
    if i < 13 {
      GreedyEmptyAt(i + 1);
    }
  }

  lemma SpellXLIV()
    ensures Lists.Spell([7, 11]) == "XLIV"
  {
    assert Lists.Spell([11]) == "IV";
    assert [7, 11][1..] == [11];
  }

  lemma SpellOf100()
    ensures Lists.Spell(Lists.Greedy(100, 0)) == "C"
  {
    GreedySkip(100, 0, 4);
    assert Lists.Greedy(100, 0) == [4];
    assert Lists.Spell([4]) == "C";
  }

  /** The documented pair XXIII = 23, in both directions. */
  lemma RomanExample23()
    ensures Lists.Spell(Lists.Greedy(23, 0)) == "XXIII" && RomanValue("XXIII") == 23
  {
    SpellOf23();
    RomanRoundTrip(23);
  }


  // ---------------------------------------------------------------- roman(n), place by place

  /** `k` copies of `c`. */
  function Copies(c: char, k: nat): (r: string)
    ensures |r| == k && forall i :: 0 <= i < k ==> r[i] == c
  {
    if k == 0 then "" else [c] + Copies(c, k - 1)
  }

  /** How a decimal digit is written with the letters for one, five and ten of its place. */
  function DigitLetters(d: nat, one: char, five: char, ten: char): (r: string)
    requires d <= 9
    ensures r == [] <==> d == 0
    ensures r != [] ==> r[0] == one || r[0] == five
    ensures forall i :: 0 <= i < |r| ==> r[i] == one || r[i] == five || r[i] == ten
  {
    if d == 9 then [one, ten]
    else if d >= 5 then [five] + Copies(one, d - 5)
    else if d == 4 then [one, five]
    else Copies(one, d)
  }

  /** The four symbols of one decimal place with unit `u`: index `p` holds nine units, then five, four and one. */
  predicate PlaceSymbols(p: nat, u: int, one: char, five: char, ten: char) {
    p + 4 <= 13 && u > 0
    && Lists.RomanValues[p] == 9 * u && Lists.RomanSymbols[p] == [one, ten]
    && Lists.RomanValues[p + 1] == 5 * u && Lists.RomanSymbols[p + 1] == [five]
    && Lists.RomanValues[p + 2] == 4 * u && Lists.RomanSymbols[p + 2] == [one, five]
    && Lists.RomanValues[p + 3] == u && Lists.RomanSymbols[p + 3] == [one]
  }

  /** What `roman` appends for `n` from symbol index `i` on, as a string. */
  function Written(n: int, i: nat): string
    requires i <= 13
    decreases 13 - i, n
  {
    if i == 13 then ""
    else if n >= Lists.RomanValues[i] then Lists.RomanSymbols[i] + Written(n - Lists.RomanValues[i], i)
    else Written(n, i + 1)
  }

  /** `Written` spells the greedy choice of symbols. */
  lemma {:induction false} WrittenSpells(n: int, i: nat)
    requires i <= 13
    ensures Written(n, i) == Lists.Spell(Lists.Greedy(n, i))
    decreases 13 - i, n
  {
    if i < 13 {
      if n >= Lists.RomanValues[i] {
        WrittenSpells(n - Lists.RomanValues[i], i);
        var rest := Lists.Greedy(n - Lists.RomanValues[i], i);
        assert Lists.Greedy(n, i) == [i] + rest;
        assert ([i] + rest)[1..] == rest;
      } else {
        WrittenSpells(n, i + 1);
      }
    }
  }

  /** A symbol that fits is appended and its value taken off. */
  lemma WrittenTake(n: int, i: nat)
    requires i < 13 && n >= Lists.RomanValues[i]
    ensures Written(n, i) == Lists.RomanSymbols[i] + Written(n - Lists.RomanValues[i], i)
  {
  }

  /** A symbol larger than what is left is passed over. */
  lemma WrittenSkip(n: int, i: nat)
    requires i < 13 && n < Lists.RomanValues[i]
    ensures Written(n, i) == Written(n, i + 1)
  {
  }

  /** `k * u`, as `k` additions. */
  function Scaled(k: nat, u: int): (r: int)
    ensures u >= 0 ==> r >= 0
  {
    if k == 0 then 0 else u + Scaled(k - 1, u)
  }

  /** The symbol at `i`, worth `u`, is written `k` times for `k * u + r` with `r < u`. */
  lemma {:induction false} WrittenCopies(n: int, k: nat, u: int, r: int, i: nat, c: char)
    requires i < 13 && Lists.RomanValues[i] == u && Lists.RomanSymbols[i] == [c]
    requires 0 <= r < u && n == Scaled(k, u) + r
    ensures Written(n, i) == Copies(c, k) + Written(r, i + 1)
    decreases k
  {
    if k == 0 {
      WrittenSkip(r, i);
      assert Copies(c, 0) + Written(r, i + 1) == Written(r, i + 1);
    } else {
      assert n - u == Scaled(k - 1, u) + r;
      WrittenCopies(n - u, k - 1, u, r, i, c);
      WrittenCopy(n, k, u, r, i, c);
    }
  }

  /** One more copy of the symbol at `i` in front. */
  lemma WrittenCopy(n: int, k: nat, u: int, r: int, i: nat, c: char)
    requires i < 13 && Lists.RomanValues[i] == u && Lists.RomanSymbols[i] == [c]
    requires k > 0 && n >= u && Written(n - u, i) == Copies(c, k - 1) + Written(r, i + 1)
    ensures Written(n, i) == Copies(c, k) + Written(r, i + 1)
  {
    WrittenTake(n, i);
    assert Copies(c, k) == [c] + Copies(c, k - 1);
    ConcatAssociates([c], Copies(c, k - 1), Written(r, i + 1));
  }


  /** `Scaled` is multiplication. */
  lemma {:induction false} ScaledIsProduct(k: nat, u: int)
    ensures Scaled(k, u) == k * u
  {
    if k > 0 {
      ScaledIsProduct(k - 1, u);
      MulDistributes(k - 1, 1, u);
    }
  }

  /** Nine units: the one-letter before the ten-letter. */
  lemma WrittenNine(n: int, u: int, r: int, p: nat, one: char, five: char, ten: char)
    requires PlaceSymbols(p, u, one, five, ten) && 0 <= r < u && n == 9 * u + r
    ensures Written(n, p) == [one, ten] + Written(r, p + 4)
  {
    WrittenTake(n, p);
    WrittenSkip(r, p);
    WrittenSkip(r, p + 1);
    WrittenSkip(r, p + 2);
    WrittenSkip(r, p + 3);
  }

  /** Four units: the one-letter before the five-letter. */
  lemma WrittenFour(n: int, u: int, r: int, p: nat, one: char, five: char, ten: char)
    requires PlaceSymbols(p, u, one, five, ten) && 0 <= r < u && n == 4 * u + r
    ensures Written(n, p) == [one, five] + Written(r, p + 4)
  {
    WrittenSkip(n, p);
    WrittenSkip(n, p + 1);
    WrittenTake(n, p + 2);
    WrittenSkip(r, p + 2);
    WrittenSkip(r, p + 3);
  }

  /** Up to three units: that many one-letters. */
  lemma WrittenLow(n: int, k: nat, u: int, r: int, p: nat, one: char, five: char, ten: char)
    requires PlaceSymbols(p, u, one, five, ten) && k <= 3 && 0 <= r < u && n == Scaled(k, u) + r
    ensures Written(n, p) == Copies(one, k) + Written(r, p + 4)
  {
    assert n < 4 * u by {
      ScaledIsProduct(k, u);
      MulMonotone(k, 3, u);
    }
    WrittenSkip(n, p);
    WrittenSkip(n, p + 1);
    WrittenSkip(n, p + 2);
    WrittenCopies(n, k, u, r, p + 3, one);
  }

  /** Five to eight units: the five-letter, then the one-letters. */
  lemma WrittenHigh(n: int, k: nat, u: int, r: int, p: nat, one: char, five: char, ten: char)
    requires PlaceSymbols(p, u, one, five, ten) && k <= 3 && 0 <= r < u && n == 5 * u + Scaled(k, u) + r
    ensures Written(n, p) == [five] + Copies(one, k) + Written(r, p + 4)
  {
    assert n < 9 * u by {
      ScaledIsProduct(k, u);
      MulMonotone(k, 3, u);
    }
    WrittenSkip(n, p);
    WrittenTake(n, p + 1);
    WrittenLow(n - 5 * u, k, u, r, p, one, five, ten);
    ConcatAssociates([five], Copies(one, k), Written(r, p + 4));
  }

  /** One decimal place: the digit `d` of `d * u + r` is written by `DigitLetters`. */
  lemma WrittenPlace(n: int, d: nat, u: int, r: int, p: nat, one: char, five: char, ten: char)
    requires PlaceSymbols(p, u, one, five, ten) && d <= 9
    requires 0 <= r < u && n == d * u + r
    ensures Written(n, p) == DigitLetters(d, one, five, ten) + Written(r, p + 4)
  {
    if d == 9 {
      WrittenNine(n, u, r, p, one, five, ten);
    } else if d >= 5 {
      assert n == 5 * u + Scaled(d - 5, u) + r by {
        ScaledIsProduct(d - 5, u);
        MulDistributes(d - 5, 5, u);
      }
      WrittenHigh(n, d - 5, u, r, p, one, five, ten);
    } else if d == 4 {
      WrittenFour(n, u, r, p, one, five, ten);
    } else {
      ScaledIsProduct(d, u);
      WrittenLow(n, d, u, r, p, one, five, ten);
    }
  }

  /** Hundreds, tens and units each have a nine, a five, a four and a one symbol. */
  lemma RomanPlaceSymbols()
    ensures PlaceSymbols(1, 100, 'C', 'D', 'M')
    ensures PlaceSymbols(5, 10, 'X', 'L', 'C')
    ensures PlaceSymbols(9, 1, 'I', 'V', 'X')
  {
  }

  /** The last three decimal digits are the hundreds digit and the last two. */
  lemma HundredsSplit(n: int)
    requires n >= 0
    ensures n % 1000 == (n / 100 % 10) * 100 + n % 100
  {
    var q, r := n / 1000, n % 1000;
    assert r == (r / 100) * 100 + r % 100;
    assert n == (10 * q + r / 100) * 100 + r % 100;
    DivModOf(10 * q + r / 100, r % 100, 100);
    DivModOf(q, r / 100, 10);
  }

  /** The last two decimal digits are the tens digit and the last one. */
  lemma TensSplit(n: int)
    requires n >= 0
    ensures n % 100 == (n / 10 % 10) * 10 + n % 10
  {
    var q, r := n / 100, n % 100;
    assert r == (r / 10) * 10 + r % 10;
    assert n == (10 * q + r / 10) * 10 + r % 10;
    DivModOf(10 * q + r / 10, r % 10, 10);
    DivModOf(q, r / 10, 10);
  }

  /** A numeral below 4000 from its thousands, hundreds, tens and units digits. */
  function Places(a: nat, b: nat, c: nat, e: nat): string
    requires b <= 9 && c <= 9 && e <= 9
  {
    Copies('M', a) + DigitLetters(b, 'C', 'D', 'M') + DigitLetters(c, 'X', 'L', 'C') + DigitLetters(e, 'I', 'V', 'X')
  }

  /** `roman(n)` for `0 <= n <= 3999` writes the thousands as M's, then each decimal place with its own letters. */
  lemma RomanPlaces(n: int)
    requires 0 <= n <= 3999
    ensures Lists.Spell(Lists.Greedy(n, 0)) == Places(n / 1000, n / 100 % 10, n / 10 % 10, n % 10)
  {
    var m, h := Copies('M', n / 1000), DigitLetters(n / 100 % 10, 'C', 'D', 'M');
    var t, o := DigitLetters(n / 10 % 10, 'X', 'L', 'C'), DigitLetters(n % 10, 'I', 'V', 'X');
    WrittenSpells(n, 0);
    WrittenThousands(n);
    WrittenHundreds(n);
    WrittenTens(n);
    WrittenUnits(n);
    ConcatAssociates(m, h, t + o);
    ConcatAssociates(m + h, t, o);
  }

  lemma WrittenThousands(n: int)
    requires 0 <= n <= 3999
    ensures Written(n, 0) == Copies('M', n / 1000) + Written(n % 1000, 1)
  {
    assert n == Scaled(n / 1000, 1000) + n % 1000 by { ScaledIsProduct(n / 1000, 1000); }
    WrittenCopies(n, n / 1000, 1000, n % 1000, 0, 'M');
  }

  lemma WrittenHundreds(n: int)
    requires n >= 0
    ensures Written(n % 1000, 1) == DigitLetters(n / 100 % 10, 'C', 'D', 'M') + Written(n % 100, 5)
  {
    RomanPlaceSymbols();
    HundredsSplit(n);
    WrittenPlace(n % 1000, n / 100 % 10, 100, n % 100, 1, 'C', 'D', 'M');
  }

  lemma WrittenTens(n: int)
    requires n >= 0
    ensures Written(n % 100, 5) == DigitLetters(n / 10 % 10, 'X', 'L', 'C') + Written(n % 10, 9)
  {
    RomanPlaceSymbols();
    TensSplit(n);
    WrittenPlace(n % 100, n / 10 % 10, 10, n % 10, 5, 'X', 'L', 'C');
  }

  lemma WrittenUnits(n: int)
    requires n >= 0
    ensures Written(n % 10, 9) == DigitLetters(n % 10, 'I', 'V', 'X')
  {
    RomanPlaceSymbols();
    WrittenPlace(n % 10, n % 10, 1, 0, 9, 'I', 'V', 'X');
    assert Written(0, 13) == "";
  }

  /** `s.count { it == c }` over a concatenation. */
  lemma {:induction false} CountAppend(s: string, t: string, c: char)
    ensures Count(s + t, c) == Count(s, c) + Count(t, c)
  {
    if s == [] {
      assert s + t == t;
    } else {
      assert (s + t)[0] == s[0] && (s + t)[1..] == s[1..] + t;
      CountAppend(s[1..], t, c);
    }
  }

  /** A letter that does not occur is counted zero times. */
  lemma {:induction false} CountAbsent(s: string, c: char)
    requires forall i :: 0 <= i < |s| ==> s[i] != c
    ensures Count(s, c) == 0
  {
    if s != [] {
      CountAbsent(s[1..], c);
    }
  }

  /** The five-letter of a place occurs at most once in its digit. */
  lemma FiveOnce(d: nat, one: char, five: char, ten: char)
    requires d <= 9 && one != five && ten != five
    ensures Count(DigitLetters(d, one, five, ten), five) <= 1
  {
    var r := DigitLetters(d, one, five, ten);
    if d >= 5 && d != 9 {
      CountAbsent(Copies(one, d - 5), five);
      assert r[1..] == Copies(one, d - 5);
    } else if d == 4 {
      assert r == [one, five] && r[1..] == [five] && r[1..][1..] == [];
      assert Count(r[1..], five) == 1;
    } else {
      CountAbsent(r, five);
    }
  }

  /** Four equal letters in a row cannot straddle two strings when the second starts with a letter absent from the first. */
  lemma NoFourAcross(s: string, t: string)
    requires !FourInARow(s) && !FourInARow(t)
    requires t == [] || forall i :: 0 <= i < |s| ==> s[i] != t[0]
    ensures !FourInARow(s + t)
  {
    var st := s + t;
    forall k | 0 <= k < |st| - 3
      ensures !Run(st, k)
    {
      if k + 3 < |s| {
        assert st[k] == s[k] && st[k + 1] == s[k + 1] && st[k + 2] == s[k + 2] && st[k + 3] == s[k + 3];
        assert !Run(s, k);
      } else if k >= |s| {
        var j := k - |s|;
        assert st[k] == t[j] && st[k + 1] == t[j + 1] && st[k + 2] == t[j + 2] && st[k + 3] == t[j + 3];
        assert !Run(t, j);
      } else {
        assert st[|s|] == t[0] && st[|s| - 1] == s[|s| - 1];
      }
    }
  }

  /** No digit is written with four equal letters in a row. */
  lemma DigitNoFour(d: nat, one: char, five: char, ten: char)
    requires d <= 9 && one != five
    ensures !FourInARow(DigitLetters(d, one, five, ten))
  {
    var r := DigitLetters(d, one, five, ten);
    if |r| == 4 {
      assert d == 8 && r[0] == five && r[1] == one;
    }
  }

  /** Every letter of a place-by-place numeral is a Roman digit. */
  lemma PlacesAllRoman(a: nat, b: nat, c: nat, e: nat)
    requires b <= 9 && c <= 9 && e <= 9
    ensures AllRoman(Places(a, b, c, e))
  {
    var s := Places(a, b, c, e);
    forall i | 0 <= i < |s|
      ensures RomanDigit(s[i]) > 0
    {
      assert s[i] in "IVXLCDM";
    }
  }

  /** A place-by-place numeral with at most three thousands has no letter four times in a row. */
  lemma PlacesNoFour(a: nat, b: nat, c: nat, e: nat)
    requires a <= 3 && b <= 9 && c <= 9 && e <= 9
    ensures !FourInARow(Places(a, b, c, e))
  {
    var m, h := Copies('M', a), DigitLetters(b, 'C', 'D', 'M');
    var t, o := DigitLetters(c, 'X', 'L', 'C'), DigitLetters(e, 'I', 'V', 'X');
    DigitNoFour(b, 'C', 'D', 'M');
    DigitNoFour(c, 'X', 'L', 'C');
    DigitNoFour(e, 'I', 'V', 'X');
    NoFourAcross(m, h);
    NoFourAcross(m + h, t);
    NoFourAcross(m + h + t, o);
  }

  /** V, L and D each occur at most once in a place-by-place numeral. */
  lemma PlacesNoRepeat(a: nat, b: nat, c: nat, e: nat)
    requires b <= 9 && c <= 9 && e <= 9
    ensures !RepeatedSingle(Places(a, b, c, e))
  {
    var m, h := Copies('M', a), DigitLetters(b, 'C', 'D', 'M');
    var t, o := DigitLetters(c, 'X', 'L', 'C'), DigitLetters(e, 'I', 'V', 'X');
    CountAppend(m + h + t, o, 'V');
    CountAbsent(m + h + t, 'V');
    FiveOnce(e, 'I', 'V', 'X');
    CountAppend(m + h + t, o, 'L');
    CountAppend(m + h, t, 'L');
    CountAbsent(m + h, 'L');
    CountAbsent(o, 'L');
    FiveOnce(c, 'X', 'L', 'C');
    CountAppend(m + h + t, o, 'D');
    CountAppend(m + h, t, 'D');
    CountAppend(m, h, 'D');
    CountAbsent(m, 'D');
    CountAbsent(t, 'D');
    CountAbsent(o, 'D');
    FiveOnce(b, 'C', 'D', 'M');
  }

  /** `fromRoman(roman(n)) == n` for every `n` in 1..3999. */
  lemma RomanRoundTrip(n: int)
    requires 1 <= n <= 3999
    ensures RomanValue(Lists.Spell(Lists.Greedy(n, 0))) == n
  {
    var a, b, c, e := n / 1000, n / 100 % 10, n / 10 % 10, n % 10;
    RomanPlaces(n);
    var s := Places(a, b, c, e);
    assert s != [] by {
      assert n == a * 1000 + b * 100 + c * 10 + e by {
        HundredsSplit(n);
        TensSplit(n);
      }
      assert b != 0 ==> DigitLetters(b, 'C', 'D', 'M') != [];
      assert c != 0 ==> DigitLetters(c, 'X', 'L', 'C') != [];
      assert e != 0 ==> DigitLetters(e, 'I', 'V', 'X') != [];
    }
    PlacesAllRoman(a, b, c, e);
    PlacesNoFour(a, b, c, e);
    PlacesNoRepeat(a, b, c, e);
    RomanScan(n);
  }


  /** The documented pair XLIV = 44, in both directions. */
  lemma RomanExample44()
    ensures Lists.Spell(Lists.Greedy(44, 0)) == "XLIV" && RomanValue("XLIV") == 44
  {
    SpellOf44();
    RomanRoundTrip(44);
  }


  /** The documented pair C = 100, in both directions. */
  lemma RomanExample100()
    ensures Lists.Spell(Lists.Greedy(100, 0)) == "C" && RomanValue("C") == 100
  {
    SpellOf100();
    RomanRoundTrip(100);
  }
}
