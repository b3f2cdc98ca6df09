/**
 * The parts of Kotlin's `Char`, `String` and `Int` library that the exercises
 * rely on: character classes, `split`, `joinToString`, `trim`, `padStart`,
 * `Int.toString()` and `String.toIntOrNull()` / `toLongOrNull()`.
 *
 * Character classes are the ASCII (and, for letters and case, Russian Cyrillic)
 * subsets of Kotlin's Unicode predicates.
 */
module Text {
  import opened Wrappers
  import opened Arith

  const IntMin: int := -0x8000_0000
  const IntMax: int := 0x7FFF_FFFF
  const LongMin: int := -0x8000_0000_0000_0000
  const LongMax: int := 0x7FFF_FFFF_FFFF_FFFF

  /** The range of Kotlin's 32-bit `Int`. */
  predicate IsInt(n: int) { IntMin <= n <= IntMax }

  // ---------------------------------------------------------------- chars

  predicate IsDigit(c: char) { '0' <= c <= '9' }

  function DigitValue(c: char): (d: nat)
    requires IsDigit(c)
    ensures d < 10
  {
    c as int - '0' as int
  }

  function DigitChar(d: nat): (c: char)
    requires d < 10
    ensures IsDigit(c) && DigitValue(c) == d
  {
    ('0' as int + d) as char
  }

  predicate IsLatinUpper(c: char) { 'A' <= c <= 'Z' }
  predicate IsLatinLower(c: char) { 'a' <= c <= 'z' }
  predicate IsCyrillicUpper(c: char) { 'А' <= c <= 'Я' || c == 'Ё' }
  predicate IsCyrillicLower(c: char) { 'а' <= c <= 'я' || c == 'ё' }

  predicate IsLetter(c: char) {
    IsLatinUpper(c) || IsLatinLower(c) || IsCyrillicUpper(c) || IsCyrillicLower(c)
  }

  predicate IsWhitespace(c: char) {
    c == ' ' || '\t' <= c <= '\r' || '\U{1C}' <= c <= '\U{1F}'
  }

  /** `Char.lowercaseChar()` on Latin and Russian letters; other characters are unchanged. */
  function Lower(c: char): (r: char)
    ensures IsLetter(c) <==> IsLetter(r)
    ensures !IsLatinUpper(r) && !IsCyrillicUpper(r)
    ensures !IsLatinUpper(c) && !IsCyrillicUpper(c) ==> r == c
  {
    if IsLatinUpper(c) || 'А' <= c <= 'Я' then (c as int + 32) as char
    else if c == 'Ё' then 'ё'
    else c
  }

  function LowerString(s: string): (r: string)
    ensures |r| == |s| && forall i :: 0 <= i < |s| ==> r[i] == Lower(s[i])
  {
    if s == [] then [] else [Lower(s[0])] + LowerString(s[1..])
  }

  predicate AllDigits(s: string) { forall i :: 0 <= i < |s| ==> IsDigit(s[i]) }

  /** `CharSequence.isBlank()`: empty or only whitespace. */
  predicate IsBlank(s: string) { forall i :: 0 <= i < |s| ==> IsWhitespace(s[i]) }

  // ---------------------------------------------------------------- trimming

  function TrimStart(s: string): (r: string)
    ensures |r| <= |s| && r == s[|s| - |r|..]
    ensures r == [] || !IsWhitespace(r[0])
    ensures forall i :: 0 <= i < |s| - |r| ==> IsWhitespace(s[i])
  {
    if s != [] && IsWhitespace(s[0]) then
      var r := TrimStart(s[1..]);
      assert s[1..][|s| - 1 - |r|..] == s[|s| - |r|..];
      assert forall i :: 1 <= i < |s| - |r| ==> s[i] == s[1..][i - 1];
      r
    else s
  }

  function TrimEnd(s: string): (r: string)
    ensures |r| <= |s| && r == s[..|r|]
    ensures r == [] || !IsWhitespace(r[|r| - 1])
    ensures forall i :: |r| <= i < |s| ==> IsWhitespace(s[i])
  {
    if s != [] && IsWhitespace(s[|s| - 1]) then
      var r := TrimEnd(s[..|s| - 1]);
      assert s[..|s| - 1][..|r|] == s[..|r|];
      r
    else s
  }

  /** `String.trim()`: whitespace removed at both ends. */
  function Trim(s: string): string { TrimEnd(TrimStart(s)) }

  /** `CharSequence.trimEnd(c)`: every trailing `c` removed. */
  function TrimEndChar(s: string, c: char): (r: string)
    ensures |r| <= |s| && r == s[..|r|]
    ensures r == [] || r[|r| - 1] != c
    ensures forall i :: |r| <= i < |s| ==> s[i] == c
  {
    if s != [] && s[|s| - 1] == c then TrimEndChar(s[..|s| - 1], c) else s
  }

  /** `String.padStart(n, c)`. */
  function PadStart(s: string, n: nat, c: char): (r: string)
    ensures |r| == if |s| < n then n else |s|
    ensures r[|r| - |s|..] == s
    ensures forall i :: 0 <= i < |r| - |s| ==> r[i] == c
  {
    if |s| < n then seq(n - |s|, _ => c) + s else s
  }

  /** `String.replace(c.toString(), "")`: every occurrence of `c` removed. */
  function RemoveChar(s: string, c: char): (r: string)
    ensures |r| <= |s|
    ensures forall i :: 0 <= i < |r| ==> r[i] != c
  {
    if s == [] then [] else (if s[0] == c then [] else [s[0]]) + RemoveChar(s[1..], c)
  }

  // ---------------------------------------------------------------- split and join

  /**
   * `String.split(sep)` for a one-character separator: every occurrence splits,
   * empty parts are kept, and the empty string gives one empty part.
   */
  function Split(s: string, sep: char): (parts: seq<string>)
    ensures |parts| >= 1
    ensures forall p :: p in parts ==> sep !in p
  {
    if s == [] then [""]
    else
      var rest := Split(s[1..], sep);
      if s[0] == sep then [""] + rest
      else [[s[0]] + rest[0]] + rest[1..]
  }

  /** `joinToString(sep)`. */
  function Join(parts: seq<string>, sep: string): string {
    if parts == [] then ""
    else if |parts| == 1 then parts[0]
    else parts[0] + sep + Join(parts[1..], sep)
  }

  lemma {:induction false} JoinCons(p: string, parts: seq<string>, sep: string)
    requires parts != []
    ensures Join([p] + parts, sep) == p + sep + Join(parts, sep)
  {
    assert ([p] + parts)[1..] == parts;
  }

  /** Joining two non-empty lists is joining each and putting a separator between them. */
  lemma {:induction false} JoinAppend(a: seq<string>, b: seq<string>, sep: string)
    requires a != [] && b != []
    ensures Join(a + b, sep) == Join(a, sep) + sep + Join(b, sep)
  {
    if |a| == 1 {
      JoinCons(a[0], b, sep);
      assert [a[0]] + b == a + b;
    } else {
      JoinAppend(a[1..], b, sep);
      assert (a + b)[1..] == a[1..] + b;
    }
  }

  /** A join whose first part is not empty starts with that part's first character. */
  lemma JoinFirst(parts: seq<string>, sep: string)
    requires parts != [] && parts[0] != []
    ensures Join(parts, sep) != [] && Join(parts, sep)[0] == parts[0][0]
  {
  }

  /** A join whose last part is not empty ends with that part's last character. */
  lemma {:induction false} JoinLast(parts: seq<string>, sep: string)
    requires parts != [] && parts[|parts| - 1] != []
    ensures var j := Join(parts, sep); j != [] && j[|j| - 1] == parts[|parts| - 1][|parts[|parts| - 1]| - 1]
  {
    if |parts| > 1 {
      JoinLast(parts[1..], sep);
    }
  }

  /** `trim()` leaves a string without whitespace at its ends unchanged. */
  lemma TrimUnchanged(s: string)
    requires s == [] || (!IsWhitespace(s[0]) && !IsWhitespace(s[|s| - 1]))
    ensures Trim(s) == s
  {
    assert TrimStart(s) == s;
  }

  /** `filter { it.isNotEmpty() }`. */
  function NonEmpty(parts: seq<string>): (r: seq<string>)
    ensures forall i :: 0 <= i < |r| ==> r[i] != []
    ensures (forall i :: 0 <= i < |parts| ==> parts[i] != []) ==> r == parts
  {
    if parts == [] then [] else (if parts[0] == [] then [] else [parts[0]]) + NonEmpty(parts[1..])
  }

  /** Splitting and joining with the same separator give the original string back. */
  lemma {:induction false} SplitJoin(s: string, sep: char)
    ensures Join(Split(s, sep), [sep]) == s
  {
    if s != [] {
      SplitJoin(s[1..], sep);
      if s[0] == sep {
        SplitJoinSep(s, sep);
      } else {
        SplitJoinLetter(s, sep);
      }
    }
  }

  /** The step of `SplitJoin` for a first character that is the separator. */
  lemma SplitJoinSep(s: string, sep: char)
    requires s != [] && s[0] == sep
    requires Join(Split(s[1..], sep), [sep]) == s[1..]
    ensures Join(Split(s, sep), [sep]) == s
  {
    JoinCons("", Split(s[1..], sep), [sep]);
    assert [s[0]] + s[1..] == s;
  }

  /** The step of `SplitJoin` for a first character other than the separator. */
  lemma SplitJoinLetter(s: string, sep: char)
    requires s != [] && s[0] != sep
    requires Join(Split(s[1..], sep), [sep]) == s[1..]
    ensures Join(Split(s, sep), [sep]) == s
  {
    var rest := Split(s[1..], sep);
    assert Split(s, sep) == [[s[0]] + rest[0]] + rest[1..];
    JoinFirstLonger(s[0], rest, [sep]);
    assert [s[0]] + s[1..] == s;
  }

  /** Putting a character in front of the first part puts it in front of the joined text. */
  lemma JoinFirstLonger(c: char, parts: seq<string>, sep: string)
    requires parts != []
    ensures Join([[c] + parts[0]] + parts[1..], sep) == [c] + Join(parts, sep)
  {
    if |parts| > 1 {
      var tail := parts[1..];
      assert parts == [parts[0]] + tail;
      JoinCons(parts[0], tail, sep);
      JoinCons([c] + parts[0], tail, sep);
    }
  }

  /** Joining separator-free parts and splitting again gives the parts back. */
  lemma {:induction false} JoinSplit(parts: seq<string>, sep: char)
    requires |parts| >= 1
    requires forall p :: p in parts ==> sep !in p
    ensures Split(Join(parts, [sep]), sep) == parts
  {
    if |parts| == 1 {
      SplitNoSep(parts[0], sep);
    } else {
      JoinSplit(parts[1..], sep);
      SplitPrefix(parts[0], Join(parts[1..], [sep]), sep);
      assert parts == [parts[0]] + parts[1..];
    }
  }

  lemma {:induction false} SplitNoSep(s: string, sep: char)
    requires sep !in s
    ensures Split(s, sep) == [s]
  {
    if s != [] {
      SplitNoSep(s[1..], sep);
      assert [s[0]] + s[1..] == s;
    }
  }

  lemma {:induction false} SplitPrefix(p: string, t: string, sep: char)
    requires sep !in p
    ensures Split(p + [sep] + t, sep) == [p] + Split(t, sep)
  {
    if p == [] {
      assert p + [sep] + t == [sep] + t;
      assert ([sep] + t)[1..] == t;
    } else {
      var s := p + [sep] + t;
      assert s[1..] == p[1..] + [sep] + t;
      SplitPrefix(p[1..], t, sep);
      assert [p[0]] + p[1..] == p;
    }
  }

  // ---------------------------------------------------------------- decimal numerals

  /** The value of a string of decimal digits, most significant first. */
  function DigitsValue(s: string): (v: nat)
    requires AllDigits(s)
  {
    if s == [] then 0 else DigitsValue(s[..|s| - 1]) * 10 + DigitValue(s[|s| - 1])
  }

  /** Decimal digits of `n` without leading zeros, as `Int.toString()` prints a non-negative number. */
  function NatToString(n: nat): (s: string)
    ensures |s| >= 1 && AllDigits(s)
    ensures s[0] == '0' ==> n == 0
    ensures n < 10 <==> |s| == 1
  {
    if n < 10 then [DigitChar(n)] else NatToString(n / 10) + [DigitChar(n % 10)]
  }

  /** `Int.toString()`. */
  function IntToString(i: int): (s: string)
    ensures |s| >= 1
  {
    if i < 0 then "-" + NatToString(-i) else NatToString(i)
  }

  lemma {:induction false} NatToStringValue(n: nat)
    ensures DigitsValue(NatToString(n)) == n
  {
    if n >= 10 {
      NatToStringValue(n / 10);
      var s := NatToString(n);
      assert s[..|s| - 1] == NatToString(n / 10);
    }
  }

  lemma DigitsValueSnoc(s: string, c: char)
    requires AllDigits(s) && IsDigit(c)
    ensures DigitsValue(s + [c]) == DigitsValue(s) * 10 + DigitValue(c)
  {
    assert (s + [c])[..|s|] == s;
  }

  /** Equal-length digit strings with equal values are equal. */
  lemma {:induction false} DigitsValueUnique(s: string, t: string)
    requires AllDigits(s) && AllDigits(t) && |s| == |t|
    requires DigitsValue(s) == DigitsValue(t)
    ensures s == t
  {
    if s != [] {
      var n := |s| - 1;
      var vs, ds, vt, dt := DigitsValue(s[..n]), DigitValue(s[n]), DigitsValue(t[..n]), DigitValue(t[n]);
      assert DigitsValue(s) == vs * 10 + ds;
      assert DigitsValue(t) == vt * 10 + dt;
      DivModOf(vs, ds, 10);
      DivModOf(vt, dt, 10);
      assert vs == vt && ds == dt;
      DigitsValueUnique(s[..n], t[..n]);
      assert s == s[..n] + [s[n]] && t == t[..n] + [t[n]];
    }
  }

  /** The value of the first `k` digits is the whole value with the last `|s| - k` digits dropped. */
  lemma {:induction false} DigitsValuePrefix(s: string, k: nat)
    requires AllDigits(s) && k <= |s|
    ensures DigitsValue(s[..k]) == DigitsValue(s) / Pow(10, |s| - k)
    decreases |s| - k
  {
    if k == |s| {
      assert s[..k] == s;
    } else {
      var n := |s| - 1;
      DigitsValuePrefix(s[..n], k);
      assert s[..n][..k] == s[..k];
      DivModOf(DigitsValue(s[..n]), DigitValue(s[n]), 10);
      DivDiv(DigitsValue(s), 10, Pow(10, n - k));
      assert Pow(10, |s| - k) == 10 * Pow(10, n - k);
    }
  }

  /** A digit string without a leading zero has a positive value. */
  lemma {:induction false} DigitsValuePositive(s: string)
    requires AllDigits(s) && |s| >= 1 && s[0] != '0'
    ensures DigitsValue(s) >= 1
  {
    if |s| > 1 {
      DigitsValuePositive(s[..|s| - 1]);
    }
  }

  /** Digits followed by digits are digits. */
  lemma AllDigitsAppend(u: string, w: string)
    requires AllDigits(u) && AllDigits(w)
    ensures AllDigits(u + w)
  {
    forall i | 0 <= i < |u + w| ensures IsDigit((u + w)[i]) {
      if i >= |u| {
        assert (u + w)[i] == w[i - |u|];
      }
    }
  }

  /** One more digit on the right: the shifted left value keeps pace. */
  lemma ShiftStep(a: int, b: int, p: int, d: int)
    ensures (a * p + b) * 10 + d == a * (10 * p) + (b * 10 + d)
  {
  }

  /** The value of a concatenation: the left part shifted by the right part's length. */
  lemma {:induction false} DigitsValueAppend(u: string, w: string)
    requires AllDigits(u) && AllDigits(w)
    ensures AllDigits(u + w) && DigitsValue(u + w) == DigitsValue(u) * Pow(10, |w|) + DigitsValue(w)
    decreases |w|
  {
    AllDigitsAppend(u, w);
    if w == [] {
      assert u + w == u;
    } else {
      var n := |w| - 1;
      var rest := w[..n];
      var uw := u + w;
      assert uw[..|uw| - 1] == u + rest;
      assert uw[|uw| - 1] == w[n];
      DigitsValueAppend(u, rest);
      var a, b, p, d := DigitsValue(u), DigitsValue(rest), Pow(10, n), DigitValue(w[n]);
      assert DigitsValue(w) == b * 10 + d;
      assert DigitsValue(uw) == DigitsValue(u + rest) * 10 + d;
      ShiftStep(a, b, p, d);
      assert Pow(10, |w|) == 10 * p;
    }
  }

  /** A string of zeros has value zero. */
  lemma {:induction false} ZerosValue(z: string)
    requires forall i :: 0 <= i < |z| ==> z[i] == '0'
    ensures AllDigits(z) && DigitsValue(z) == 0
    decreases |z|
  {
    if z != [] {
      ZerosValue(z[..|z| - 1]);
    }
  }

  /** Padding with leading zeros keeps the value. */
  lemma PadStartValue(s: string, n: nat)
    requires AllDigits(s)
    ensures AllDigits(PadStart(s, n, '0')) && DigitsValue(PadStart(s, n, '0')) == DigitsValue(s)
  {
    var r := PadStart(s, n, '0');
    var z := r[..|r| - |s|];
    assert r == z + s;
    ZerosValue(z);
    DigitsValueAppend(z, s);
  }

  /** Dropping trailing zeros divides the value by ten to the number dropped. */
  lemma TrimZerosValue(s: string)
    requires AllDigits(s)
    ensures var r := TrimEndChar(s, '0');
      AllDigits(r) && DigitsValue(r) * Pow(10, |s| - |r|) == DigitsValue(s)
  {
    var r := TrimEndChar(s, '0');
    var z := s[|r|..];
    assert s == r + z;
    ZerosValue(z);
    DigitsValueAppend(r, z);
  }

  /** A digit string without a leading zero is at least ten to its length minus one. */
  lemma DigitsValueLower(s: string)
    requires AllDigits(s) && |s| >= 1 && s[0] != '0'
    ensures DigitsValue(s) >= Pow(10, |s| - 1)
  {
    var head := [s[0]];
    assert s == head + s[1..];
    DigitsValueAppend(head, s[1..]);
    assert head[..0] == [];
    MulMonotone(1, DigitsValue(head), Pow(10, |s| - 1));
  }

  /** A number below ten to the `k` is printed in at most `k` digits. */
  lemma NatToStringShort(n: nat, k: nat)
    requires k >= 1 && n < Pow(10, k)
    ensures |NatToString(n)| <= k
  {
    var s := NatToString(n);
    var m: nat := |s| - 1;
    if m >= k {
      PowMonotone(10, k, m);
      NatToStringValue(n);
      DigitsValueLower(s);
    }
  }

  /** Removing a character that does not occur changes nothing. */
  lemma {:induction false} RemoveCharAbsent(s: string, c: char)
    requires c !in s
    ensures RemoveChar(s, c) == s
    decreases |s|
  {
    if s != [] {
      RemoveCharAbsent(s[1..], c);
    }
  }

  /** The sequence in reverse order. */
  function Reverse<T>(s: seq<T>): (r: seq<T>)
    ensures |r| == |s| && forall i :: 0 <= i < |s| ==> r[i] == s[|s| - 1 - i]
  {
    if s == [] then [] else Reverse(s[1..]) + [s[0]]
  }

  /** Reversing `s + [x]` puts `x` first. */
  lemma ReverseSnoc<T>(s: seq<T>, x: T)
    ensures Reverse(s + [x]) == [x] + Reverse(s)
  {
    var r := [x] + Reverse(s);
    assert forall i :: 0 <= i < |r| ==> Reverse(s + [x])[i] == r[i];
  }

  /** Two-digit, zero-padded rendering used by `"%02d"`. */
  function TwoDigits(n: nat): (s: string)
    ensures |s| >= 2 && AllDigits(s)
    ensures n < 100 ==> |s| == 2 && DigitsValue(s) == n
  {
    NatToStringValue(n);
    var t := NatToString(n);
    if n < 10 then
      var r := "0" + t;
      assert r[..1] == "0";
      r
    else t
  }

  /**
   * `String.toIntOrNull()` / `toLongOrNull()` in decimal for the range
   * `lo..hi`: an optional `+` or `-`, then at least one digit.
   */
  function ParseInteger(s: string, lo: int, hi: int): (r: Option<int>)
    ensures r.Some? ==> lo <= r.value <= hi
    ensures r.Some? ==> |s| >= 1 && AllDigits(if s[0] == '-' || s[0] == '+' then s[1..] else s)
  {
    if |s| == 0 then None
    else
      var body := if s[0] == '-' || s[0] == '+' then s[1..] else s;
      if body == [] || !AllDigits(body) then None
      else
        var v: int := if s[0] == '-' then -(DigitsValue(body) as int) else DigitsValue(body);
        if lo <= v <= hi then Some(v) else None
  }

  function ToIntOrNull(s: string): Option<int> { ParseInteger(s, IntMin, IntMax) }

  function ToLongOrNull(s: string): Option<int> { ParseInteger(s, LongMin, LongMax) }

  /** `String.toInt()`: as `toIntOrNull`, throwing NumberFormatException instead of null. */
  function ToInt(s: string): (r: Result<int>)
    ensures r.Fail? ==> r.error == NumberFormat
  {
    match ToIntOrNull(s)
    case Some(v) => Ok(v)
    case None => Fail(NumberFormat)
  }

  lemma {:induction false} ParseNatString(n: nat, lo: int, hi: int)
    requires lo <= n <= hi
    ensures ParseInteger(NatToString(n), lo, hi) == Some(n)
  {
    var s := NatToString(n);
    assert IsDigit(s[0]);
    NatToStringValue(n);
  }

  /** A minus sign before digits parses as the negated value of the digits when that is in range. */
  lemma ParseMinusDigits(body: string, lo: int, hi: int)
    requires body != [] && AllDigits(body) && lo <= -(DigitsValue(body) as int) <= hi
    ensures ParseInteger("-" + body, lo, hi) == Some(-(DigitsValue(body) as int))
  {
    var s := "-" + body;
    assert s[0] == '-' && s[1..] == body;
  }

  lemma {:induction false} ParseNegString(i: int, lo: int, hi: int)
    requires i < 0 && lo <= i <= hi
    ensures ParseInteger(IntToString(i), lo, hi) == Some(i)
  {
    var n: nat := -i;
    NatToStringValue(n);
    ParseMinusDigits(NatToString(n), lo, hi);
    assert IntToString(i) == "-" + NatToString(n);
  }

  /** Printing an `Int` and parsing it back gives the same number. */
  lemma {:induction false} IntToStringRoundTrip(i: int)
    requires IsInt(i)
    ensures ToIntOrNull(IntToString(i)) == Some(i)
  {
    if i < 0 { ParseNegString(i, IntMin, IntMax); } else { ParseNatString(i, IntMin, IntMax); }
  }

  /** The same for a `Long`. */
  lemma {:induction false} LongToStringRoundTrip(i: int)
    requires LongMin <= i <= LongMax
    ensures ToLongOrNull(IntToString(i)) == Some(i)
  {
    if i < 0 { ParseNegString(i, LongMin, LongMax); } else { ParseNatString(i, LongMin, LongMax); }
  }

  /** Concatenation regroups freely. */
  lemma ConcatAssociates<T>(a: seq<T>, b: seq<T>, c: seq<T>)
    ensures a + (b + c) == (a + b) + c
  {
  }
}
