# Home-work-SOAP exercises in Dafny

This project models the Kotlin exercises of the Home-work-SOAP repository and
proves what each one promises. Every core file is a Dafny module.

- Objects whose fields the Kotlin code updates in place are classes:
  `OpenHashSets.OpenHashSet`, `Maps.MutableStringMap`, `PhoneBooks.PhoneBook`,
  `TrainTimeTables.TrainTimeTable`, `Matrix.MatrixImpl`, `Graphs.Graph`, the
  recursive-descent `Regex.Parser` and the `StringBuilder` that `Html` writes into.
  Their methods carry `modifies` clauses and state the new state in full.
- Immutable Kotlin values (`Rational`, `FixedPointNumber`, `HexPoint`, `Square`,
  `Time`, `Train`, the expression tree of `Regex`) are datatypes, and their
  operations are functions.
- Most Kotlin loops are methods with loop invariants. Their `ensures` tie the result to a
  specification function, and lemmas prove what the exercise promises about that function.
  Two loops are recursive functions instead: the companion `gcd` loop of `Rational`
  (`Rationals.Gcd`, through `Loop.EuclidGcd`) and the order check in `Train`'s `init`
  (`TrainTimeTables.MakeTrain` with the lemma `InOrderSorted`).
- Expression code is written as functions and lemmas.

The modelling conventions are the same for every module:

- Kotlin `Int` and `Long` are unbounded `int`s. Their wrap-around is not modelled, except by
  `Regex.Calculate`, which wraps `Int` results through `Regex.Wrap`.
- Kotlin's truncating `/` and `%` are `Arith.Quot` and `Arith.Rem`.
- A Kotlin exception is a `Result` whose failure names the exception class (`Wrappers.Exception`).
- A Kotlin map whose iteration order can show in the result is a sequence of entries, or gets its
  iteration order as a parameter. A map that is only looked up is a Dafny `map`.
- Character classes (`isDigit`, `isLetter`, `lowercase`) cover ASCII and Cyrillic (module `Text`).

## Model

| member | source | states |
|---|---|---|
| OpenHashSets.HomeSlot | src/Lesson12/OpenHashSet.kt:43-45 | the home slot `(hashCode and 0x7FFFFFFF) % capacity` lies in `[0, capacity)` |
| OpenHashSets.Probe | src/Lesson12/OpenHashSet.kt:94-96 | the k-th slot of linear probing from the home slot is an index of the table |
| OpenHashSets.Offset | src/Lesson12/OpenHashSet.kt:94-96 | every slot is reached by exactly one probe count below `capacity` (with `OffsetOfProbe`) |
| OpenHashSets.OffsetOfProbe | src/Lesson12/OpenHashSet.kt:94-96 | the probe count of the k-th probed slot is k |
| OpenHashSets.ProbeNext | src/Lesson12/OpenHashSet.kt:94-96 | `(i + 1) % capacity` from the k-th probed slot is the (k+1)-th |
| OpenHashSets.FirstStop | src/Lesson12/OpenHashSet.kt:70-97 | the first probe that meets an empty slot or the element; every earlier probe meets neither |
| OpenHashSets.FirstStopIs | src/Lesson12/OpenHashSet.kt:70-97 | any probe count with no stop before it and a stop at it is `FirstStop` |
| OpenHashSets.FirstDeleted | src/Lesson12/OpenHashSet.kt:78-82 | the first tombstone on the probe path before a bound; none comes earlier |
| OpenHashSets.FindSlot | src/Lesson12/OpenHashSet.kt:59-101 | `findIndex`: -2 for a full table or a scan of all slots without an empty one; otherwise a slot holding the element, empty, or a tombstone |
| OpenHashSets.FindSlotAtStop | src/Lesson12/OpenHashSet.kt:59-101 | at the first stop, `findIndex` returns the element's slot, or the earliest tombstone seen before the empty slot, or the empty slot; -2 when no stop comes within `capacity` probes |
| OpenHashSets.OccupantsMember | src/Lesson12/OpenHashSet.kt:224-233 | a value is among the occupants iff some slot holds it |
| OpenHashSets.OccupantsInsert | src/Lesson12/OpenHashSet.kt:122-124 | filling a free slot adds one occupant |
| OpenHashSets.OccupantsDelete | src/Lesson12/OpenHashSet.kt:199-201 | turning an occupied slot into a tombstone removes one occupant |
| OpenHashSets.UniqueDistinct | src/Lesson12/OpenHashSet.kt:224-233 | when no two slots hold equal values, the occupants are distinct |
| OpenHashSets.DistinctCard | src/Lesson12/OpenHashSet.kt:28-33 | a list without repeats has as many elements as its set |
| OpenHashSets.ScanAbsent | src/Lesson12/OpenHashSet.kt:143-154 | tombstones never end a search: when the probe path meets an empty slot (or ends) without the element, the element is nowhere in the table |
| OpenHashSets.FindSlotPlacement | src/Lesson12/OpenHashSet.kt:108-125 | a slot `findIndex` returns that does not hold the element is free, every probe before it is occupied, and the element is absent |
| OpenHashSets.OpenHashSet.Home | src/Lesson12/OpenHashSet.kt:43-45 | the element's home slot lies in the table |
| OpenHashSets.OpenHashSet.constructor | src/Lesson12/OpenHashSet.kt:14-28 | every slot empty, size 0; the capacity must be at least 2 because `hash2` divides by `capacity - 1` |
| OpenHashSets.OpenHashSet.SizeIsCardinality | src/Lesson12/OpenHashSet.kt:28-33 | `size` equals the number of elements held |
| OpenHashSets.OpenHashSet.Member | src/Lesson12/OpenHashSet.kt:136-170 | an element is in the set iff some slot holds it |
| OpenHashSets.OpenHashSet.Size | src/Lesson12/OpenHashSet.kt:33 | `size` is the number of elements and never exceeds `capacity` |
| OpenHashSets.OpenHashSet.IsEmpty | src/Lesson12/OpenHashSet.kt:38 | true iff the set holds nothing |
| OpenHashSets.OpenHashSet.FindIndex | src/Lesson12/OpenHashSet.kt:59-101 | the probing loop returns `FindSlot` of the current array |
| OpenHashSets.OpenHashSet.Contains | src/Lesson12/OpenHashSet.kt:136-170 | true iff the element is in the set (the scan skips tombstones and stops at the first empty slot) |
| OpenHashSets.OpenHashSet.Add | src/Lesson12/OpenHashSet.kt:108-131 | adds iff there is room, the element is absent and an empty slot exists; a successful add writes `findIndex`'s slot and increments size; otherwise nothing changes; the invariants are kept |
| OpenHashSets.OpenHashSet.Remove | src/Lesson12/OpenHashSet.kt:176-209 | removes iff present: the element's slot becomes a tombstone, never empty, and size drops by one; an absent element changes nothing |
| OpenHashSets.OpenHashSet.Clear | src/Lesson12/OpenHashSet.kt:214-219 | every slot empty, size 0 |
| OpenHashSets.OpenHashSet.ToList | src/Lesson12/OpenHashSet.kt:224-233 | the occupants in slot order: `size` elements, no repeats, exactly the set's values |
| OpenHashSets.OpenHashSet.Equals | src/Lesson12/OpenHashSet.kt:239-257 | true iff same object or equal sizes and every element of `other` is contained; equivalently, equal value sets |
| OpenHashSets.OccupantsBound | src/Lesson12/OpenHashSet.kt:108-109 | there are at most `capacity` occupants, and `capacity` of them fill every slot |
| OpenHashSets.FullScanNoEmpty | src/Lesson12/OpenHashSet.kt:100-114 | a scan of all `capacity` slots without a stop means there is no empty slot, even if a tombstone was passed |
| OpenHashSets.InsertKeepsInvariant | src/Lesson12/OpenHashSet.kt:122-123 | writing an absent element into a free slot keeps all stored values distinct |
| OpenHashSets.InsertFindable | src/Lesson12/OpenHashSet.kt:122-123 | writing at the end of a path of occupied slots keeps every element findable from its home slot |
| OpenHashSets.DeleteKeepsInvariant | src/Lesson12/OpenHashSet.kt:199-201 | a tombstone keeps values distinct and later elements of the cluster findable |
| OpenHashSets.InsertValues | src/Lesson12/OpenHashSet.kt:122-123 | the values after an insert are the old values plus the element |
| OpenHashSets.DeleteValues | src/Lesson12/OpenHashSet.kt:199-201 | the values after a delete are the old values minus the element |
| Simple.Seconds | src/Lesson1/Simple.kt:7-9 | for a valid clock time, the result splits back into the hours, minutes and seconds (so 8:20:35 is 30035) |
| Simple.ThirdDigit | src/Lesson1/Simple.kt:54-56 | the hundreds digit of `abs(n)`, with the sign of `n` (Kotlin's truncating `/` and `%`) |
| Simple.TravelMinutes | src/Lesson1/Simple.kt:65-69 | arrival minutes minus departure minutes, negative exactly when the arrival clock time is earlier (across midnight) |
| Simple.NumberRevert | src/Lesson1/Simple.kt:89-94 | on 0..999 the three decimal digits in reverse order |
| Simple.NumberRevertInvolution | src/Lesson1/Simple.kt:89-94 | reverting twice gives back any number in 0..999 |
| Task1.AgeWord | src/Lesson2/Task1.kt:7-17 | "лет" for a last-two-digit 11..14, "год" for last digit 1, "года" for 2..4, "лет" otherwise; each word with its exact condition |
| Task1.LastDigits | src/Lesson2/Task1.kt:8-9 | Kotlin's `age % 10` and `age % 100` are the decimal last digits for non-negative ages and non-positive for negative ones |
| Task1.AgeDescription | src/Lesson2/Task1.kt:7-17 | the age and a space, then `год` exactly when the last digit is 1 but the last two are not 11, `года` exactly when the last digit is 2-4 but the last two are not 12-14, and `лет` exactly otherwise |
| Task1.WhichRookThreatens | src/Lesson2/Task1.kt:73-87 | in 0..3; bit 1 iff rook 1 shares a row or column with the king, bit 2 likewise for rook 2 |
| Task1.RookOrBishopThreatens | src/Lesson2/Task1.kt:99-116 | in 0..3; bit 1 iff the rook shares a row or column, bit 2 iff the bishop shares a diagonal |
| Task1.SegmentLength | src/Lesson2/Task1.kt:156-167 | -1 iff the segments share no point; otherwise the common points are exactly an interval of that length |
| Task1.SegmentLengthSymmetric | src/Lesson2/Task1.kt:156-167 | swapping the two segments gives the same length |
| Task2.IsNumberHappy | src/Lesson2/Task2.kt:7-14 | for a four-digit number, true iff the first two digits and the last two digits have equal sums |
| Task2.FourDigits | src/Lesson2/Task2.kt:7-14 | the four decimal characters of a four-digit number are its thousands, hundreds, tens and units |
| Task2.QueenThreatens | src/Lesson2/Task2.kt:23-31 | true iff the queens share a row, a column or a diagonal |
| Task2.QueenThreatensSymmetric | src/Lesson2/Task2.kt:23-31 | swapping the queens gives the same answer |
| Task2.IsLeapYear | src/Lesson2/Task2.kt:51-53 | the Gregorian rule |
| Task2.LeapRule | src/Lesson2/Task2.kt:51-53 | the Kotlin test with truncating `%` is the Gregorian rule for every year, negative ones too |
| Task2.LeapCycle | src/Lesson2/Task2.kt:51-53 | the rule repeats every 400 years |
| Task2.DaysInMonth | src/Lesson2/Task2.kt:39-46 | IllegalArgument outside 1..12; otherwise 28..31, with 29 exactly for February of a leap year, 28 for other Februaries and 30 for April, June, September and November |
| Task2.YearLength | src/Lesson2/Task2.kt:39-46 | the twelve months add up to 365 days, or 366 in a leap year |
| Task2.Sort3 | src/Lesson2/Task2.kt:88 | `listOf(a, b, c).sorted()`: ascending, and a permutation of the input |
| Task2.BrickPasses | src/Lesson2/Task2.kt:82-92 | true iff some face of the brick fits the hole in one of its two orientations |
| Task2.BrickPassesSymmetric | src/Lesson2/Task2.kt:82-92 | permuting the brick's sides or swapping the hole's sides does not change the answer |
| Loop.DigitNumber | src/Lesson3/Loop.kt:12-24 | the number of decimal digits of `abs(n)`, 1 for 0 |
| Loop.Revert | src/Lesson3/Loop.kt:153-164 | the decimal digits of `abs(n)` read backwards, with the sign of `n` (so 100 becomes 1) |
| Loop.ReverseDigits | src/Lesson3/Loop.kt:156-163 | the reversal loop turns the digit string of a number into the value of that string reversed |
| Loop.IsPalindrome | src/Lesson3/Loop.kt:175-177 | true exactly when the decimal rendering of `abs(n)` reads the same backwards |
| Loop.PalindromeDigits | src/Lesson3/Loop.kt:175-177 | `n == revert(n)` holds exactly when the digits of `abs(n)` form a palindrome |
| Loop.HasDifferentDigits | src/Lesson3/Loop.kt:187-201 | true exactly when some digit of `abs(n)` differs from its last digit; false for 0 and for repdigits |
| Loop.DigitsDiffer | src/Lesson3/Loop.kt:190-200 | the digit-comparing loop finds a digit unlike the last one exactly when one exists |
| Loop.Fib | src/Lesson3/Loop.kt:32-46 | the loop computes the Fibonacci number with fib(1) = fib(2) = 1 (and 1 below 1) |
| Loop.FibonacciRecurrence | src/Lesson3/Loop.kt:30-46 | fib(n + 2) = fib(n) + fib(n + 1) for n >= 1 |
| Loop.MinDivisor | src/Lesson3/Loop.kt:53-60 | for n >= 2 the least divisor of n that is at least 2; n itself below 2 |
| Loop.MaxDivisor | src/Lesson3/Loop.kt:67-74 | for n >= 2 the greatest divisor of n below n; 1 below 2 |
| Loop.EuclidGcd | src/Lesson3/Loop.kt:122-133 | Euclid's remainder recursion yields a common divisor, zero only when both inputs are zero |
| Loop.GcdGreatest | src/Lesson3/Loop.kt:122-133 | every common divisor divides the computed gcd |
| Loop.Gcd | src/Lesson3/Loop.kt:122-133 | the loop on absolute values computes Euclid's gcd of `abs(a)` and `abs(b)` |
| Loop.Lcm | src/Lesson3/Loop.kt:114-117 | throws the division-by-zero error exactly when both are zero; otherwise a common multiple of m and n that is the least positive one when neither is zero, and 0 when one of them is |
| Loop.LcmMultiple | src/Lesson3/Loop.kt:114-117 | `x * y / g` is a multiple of both x and y whenever g divides both |
| Loop.IsCoPrime | src/Lesson3/Loop.kt:142-144 | true exactly when no integer above 1 divides both numbers |
| Loop.CoPrimeDivisors | src/Lesson3/Loop.kt:142-144 | gcd 1 is equivalent to having no common divisor above 1 |
| Loop.DigitsPrefix | src/Lesson3/Loop.kt:262-301 | the digit string of the first k terms is a prefix of that of the first m terms, for k <= m |
| Loop.DropRightDigits | src/Lesson3/Loop.kt:292-294 | the dividing loop removes `count` decimal digits from the right |
| Loop.SquareSequenceDigit | src/Lesson3/Loop.kt:268-301 | for n >= 1 the n-th digit of 149162536..., the squares written one after another; 0 for n <= 0 |
| Loop.FibSequenceDigit | src/Lesson3/Loop.kt:312-350 | for n >= 1 the digit at the mirror image of position n within the Fibonacci number that covers position n; 1 for n <= 0 |
| Loop.FibSequenceDigitFixed | src/Lesson3/Loop.kt:312-350 | with the target digit found by dropping the digits to its right: for n >= 1 digit n of 1123581321..., the Fibonacci numbers written one after another; 0 for n <= 0 |
| Loop.FibSequenceDigitNine | src/Lesson3/Loop.kt:332-345 | position 9 of 1123581321... holds 2, while the loop as written answers 1 there |
| Lists.DotSymmetric | src/Lesson4/List.kt:53-59 | the scalar product is symmetric |
| Lists.DotPrefix | src/Lesson4/List.kt:53-59 | only the first `a.size` entries of `b` take part in `times(a, b)` |
| Lists.Times | src/Lesson4/List.kt:53-59 | the scalar product of `a` with the first `a.size` entries of `b`; an index error when `b` is shorter than `a` |
| Lists.Polynom | src/Lesson4/List.kt:69-77 | the running power loop yields Horner's value of the coefficient list, 0 for the empty list |
| Lists.HornerIsPowerSum | src/Lesson4/List.kt:69-77 | that value is p0 + p1*x + ... + pN*x^N |
| Lists.Accumulate | src/Lesson4/List.kt:89-98 | every entry is replaced, in place, by the sum of itself and all entries before it; the empty list is unchanged |
| Lists.Factorize | src/Lesson4/List.kt:107-121 | for n > 1 a non-decreasing list of primes whose product is n; empty for n <= 1 |
| Lists.FactorizeToString | src/Lesson4/List.kt:130-132 | the prime factorization joined with `*` |
| Lists.Numerals | src/Lesson4/List.kt:130-132 | each factor rendered in decimal, in order |
| Lists.BaseDigits | src/Lesson4/List.kt:141-153 | the digits of n in the base, each in 0..base-1, no leading zero, and their positional value is n |
| Lists.Convert | src/Lesson4/List.kt:141-153 | the remainder loop plus reversal yields the base digits of n (`[0]` for 0), the empty list for negative n |
| Lists.Decimal | src/Lesson4/List.kt:188-194 | the positional value of the digit list in the base |
| Lists.Render | src/Lesson4/List.kt:166-179 | one character of `0..9a..z` per digit, in order |
| Lists.Indexes | src/Lesson4/List.kt:208-218 | one alphabet position per character, in order |
| Lists.RenderReverse | src/Lesson4/List.kt:166-179 | rendering commutes with reversal, so building the string backwards and reversing it is sound |
| Lists.ConvertToString | src/Lesson4/List.kt:166-179 | the base digits of n written with `0..9a..z` (`"0"` for 0), the empty string for negative n |
| Lists.DecimalFromString | src/Lesson4/List.kt:208-218 | the positional value of the alphabet positions of the characters |
| Lists.AlphabetIndex | src/Lesson4/List.kt:208-218 | looking a digit character up gives back its digit |
| Lists.ConvertToStringRoundTrip | src/Lesson4/List.kt:166-218 | `decimalFromString(convertToString(n, base), base) == n` for n >= 0 and 1 < base < 37 |
| Lists.Greedy | src/Lesson4/List.kt:228-243 | the greedy choice of Roman symbols uses only symbols from the current one onward |
| Lists.GreedySum | src/Lesson4/List.kt:228-243 | the chosen symbols' values add up to n for n >= 0 |
| Lists.GreedyDescending | src/Lesson4/List.kt:228-243 | the chosen symbols come in order of non-increasing value |
| Lists.GreedyNonPositive | src/Lesson4/List.kt:228-243 | nothing is chosen for n <= 0 |
| Lists.Roman | src/Lesson4/List.kt:228-243 | the nested loops spell the greedy symbol choice for n |
| RussianNumerals.ConvertThreeDigits | src/Lesson4/List.kt:263-287 | throws an index error exactly from 1000 up; otherwise the spoken words of the number below a thousand, feminine units for the thousands group |
| RussianNumerals.ThousandWord | src/Lesson4/List.kt:299-307 | "тысяча" after a last digit 1 except 11, "тысячи" after 2..4 except 12..14, "тысяч" otherwise |
| RussianNumerals.ThousandsText | src/Lesson4/List.kt:292-311 | fails exactly when the thousands group reaches 1000; otherwise its words and the agreeing form of "тысяча", or nothing when there are no thousands |
| RussianNumerals.UnitsText | src/Lesson4/List.kt:314-317 | the words of the last three digits unless they are zero and n is not 0 |
| RussianNumerals.ThreeDigitWords | src/Lesson4/List.kt:263-287 | the word list of a group contains no thousands marker and only well-formed words |
| RussianNumerals.ThreeDigitReading | src/Lesson4/List.kt:263-287 | reading the words of a group back gives the group, and the list is empty only for 0 |
| RussianNumerals.TensReading | src/Lesson4/List.kt:273-284 | the tens-and-units words read back as `10 * t + u` |
| RussianNumerals.Agreement | src/Lesson4/List.kt:276-281 | the thousands group uses only feminine unit words and the units group only masculine ones |
| RussianNumerals.RussianReading | src/Lesson4/List.kt:252-320 | for 0 <= n < 1000000 the word list that `russian` spells reads back as n |
| RussianNumerals.RussianSpelling | src/Lesson4/List.kt:252-320 | `russian` throws exactly from one million up; below that it is the word list joined with single spaces; negative n gives the empty string |
| Parse.MonthNumber | src/Lesson6/Parse.kt:13-28 | the month's number 1..12 exactly for the twelve Russian genitive month names, with that name at that position |
| Parse.MonthNumberOfName | src/Lesson6/Parse.kt:13-18 | looking up the name of month m gives back m |
| Parse.MonthNamesDistinct | src/Lesson6/Parse.kt:50-53 | the twelve month names are pairwise different |
| Parse.IsLeapYearCheck | src/Lesson6/Parse.kt:97-99 | agrees with the Gregorian leap-year rule of `isLeapYear` |
| Parse.IsValidDate | src/Lesson6/Parse.kt:78-91 | true exactly for year >= 1, month 1..12 and day 1..days of that month |
| Parse.DateStrToDigit | src/Lesson6/Parse.kt:12-37 | "" unless the text is three space-separated parts with an integer day, a month name and an integer year forming a valid date; otherwise `dd.mm.y` with two-digit day and month |
| Parse.DateDigitToStr | src/Lesson6/Parse.kt:49-73 | "" unless the text is three dot-separated integers of lengths 1-2, 1-2 and 4 forming a valid date; otherwise day, month name and year separated by spaces |
| Parse.WordFormToDigits | src/Lesson6/Parse.kt:12-37 | any valid date written in words converts to its digit form |
| Parse.DigitFormToWords | src/Lesson6/Parse.kt:49-73 | any valid date with a four-digit year written in digits converts to its word form |
| Parse.DateRoundTrip | src/Lesson6/Parse.kt:12-73 | converting words to digits and back gives the words again |
| Parse.FlattenPhoneNumber | src/Lesson6/Parse.kt:115-155 | the loops compute the flattening: "" for a forbidden character, an empty or unbalanced bracket pair, otherwise the number without spaces, dashes and brackets |
| Parse.FlattenedShape | src/Lesson6/Parse.kt:115-155 | a flattened number is empty or an optional `+` followed by digits |
| Parse.FlattenIdempotent | src/Lesson6/Parse.kt:115-155 | flattening a flattened number changes nothing |
| Parse.BestJumpIsMax | src/Lesson6/Parse.kt:167-188 | the best jump is at least every jump length in the list and is one of them, or -1 when there is none |
| Parse.BestLongJump | src/Lesson6/Parse.kt:167-188 | -1 when some part is neither a mark nor an integer; otherwise the best jump |
| Parse.BestOfJumps | src/Lesson6/Parse.kt:171-185 | the scanning loop returns -1 on a bad part and the best jump otherwise |
| Parse.BestHeightIsMax | src/Lesson6/Parse.kt:201-229 | the best height is at least every height attempted with a `+` |
| Parse.BestHeightAttained | src/Lesson6/Parse.kt:201-229 | the best height is -1 or one of the heights cleared with a `+` |
| Parse.BestHighJump | src/Lesson6/Parse.kt:201-229 | -1 for an odd number of parts or a bad height or attempt string; otherwise the greatest cleared height, or -1 |
| Parse.BestCleared | src/Lesson6/Parse.kt:207-226 | the pairwise loop returns -1 on a bad pair and the best cleared height otherwise |
| Parse.AttemptsOk | src/Lesson6/Parse.kt:213-215 | true exactly when every attempt character is `+`, `%` or `-` |
| Parse.ExpressionOdd | src/Lesson6/Parse.kt:240-273 | a well-formed expression has an odd number of parts |
| Parse.PlusMinus | src/Lesson6/Parse.kt:240-273 | throws IllegalArgument exactly when the parts do not alternate number, sign, number, ...; otherwise the left-to-right sum |
| Parse.EvaluateTokens | src/Lesson6/Parse.kt:246-270 | the token loop fails exactly on a malformed expression and otherwise yields its value |
| Parse.FirstDuplicateIndex | src/Lesson6/Parse.kt:284-298 | -1 when no word equals the next one up to case; otherwise the offset of the first such word, where it stands in the text followed by a space |
| Parse.RomanDigit | src/Lesson6/Parse.kt:355-364 | positive exactly for the seven Roman letters |
| Parse.ScanRoman | src/Lesson6/Parse.kt:366-397 | the pairwise scan yields the value with subtractive pairs, or nothing on an invalid letter or pair |
| Parse.HasFourInARow | src/Lesson6/Parse.kt:400-404 | true exactly when some letter occurs four times in a row |
| Parse.HasRepeatedSingle | src/Lesson6/Parse.kt:407-411 | true exactly when V, L or D occurs more than once |
| Parse.FromRoman | src/Lesson6/Parse.kt:352-414 | -1 for the empty string, non-Roman letters, four in a row, a repeated V, L or D or a bad subtraction; otherwise the value |
| Parse.ScanGreedy | src/Lesson6/Parse.kt:352-414 | scanning the greedy Roman spelling of n from any symbol gives back n |
| Parse.RomanScan | src/Lesson6/Parse.kt:366-397 | the pairwise scan of `fromRoman` reads what `roman(n)` writes as n, for every n >= 0 |
| Parse.RomanExample23 | src/Lesson6/Parse.kt:348 | 23 is written XXIII and read back as 23 |
| Parse.RomanExample44 | src/Lesson6/Parse.kt:348 | 44 is written XLIV and read back as 44 |
| Parse.RomanExample100 | src/Lesson6/Parse.kt:348 | 100 is written C and read back as 100 |
| Parse.FindMonth | src/Lesson6/Parse.kt:13-28 | the month lookup finds a name exactly when it is one of the remaining month names, and then gives that name's month number |
| Parse.FindMonthOfName | src/Lesson6/Parse.kt:13-18 | looking up the name of month m from any earlier position gives m |
| Parse.FourOfContains | src/Lesson6/Parse.kt:400-404 | a text containing `cccc` for some letter c has four equal letters in a row |
| Parse.FourOfNone | src/Lesson6/Parse.kt:400-404 | when no letter of the text occurs as `cccc`, no letter occurs four times in a row |
| Parse.Copies | src/Lesson4/List.kt:236-239 | k copies of a symbol: length k, every character that symbol |
| Parse.DigitLetters | src/Lesson4/List.kt:229-240 | a decimal digit is written with its place's one, five and ten letters only, is empty exactly for 0, and starts with the one or the five letter |
| Parse.WrittenSpells | src/Lesson4/List.kt:235-240 | the place-by-place spelling is exactly what the greedy loop of `roman` writes |
| Parse.ScaledIsProduct | src/Lesson4/List.kt:236-239 | k repeated subtractions of a value remove k times that value |
| Parse.WrittenPlace | src/Lesson4/List.kt:235-240 | the greedy loop writes the digit d of `d*u + r` with that place's letters and then goes on with the remainder r |
| Parse.RomanPlaceSymbols | src/Lesson4/List.kt:229-230 | the hundreds, tens and units each have a nine, five, four and one symbol in the table |
| Parse.HundredsSplit | src/Lesson4/List.kt:229-230 | the last three decimal digits are the hundreds digit and the last two |
| Parse.RomanPlaces | src/Lesson4/List.kt:228-243 | `roman(n)` for 0..3999 writes the thousands as M's and then each decimal place with its own letters |
| Parse.FiveOnce | src/Lesson6/Parse.kt:407-411 | the five-letter of a place occurs at most once in its digit's spelling |
| Parse.NoFourAcross | src/Lesson6/Parse.kt:400-404 | four equal letters cannot straddle two texts when the second starts with a letter absent from the first |
| Parse.DigitNoFour | src/Lesson6/Parse.kt:400-404 | no digit's spelling has four equal letters in a row |
| Parse.PlacesAllRoman | src/Lesson6/Parse.kt:362-364 | every letter of a place-by-place numeral passes the letter check |
| Parse.PlacesNoFour | src/Lesson6/Parse.kt:400-404 | a place-by-place numeral with at most three thousands passes the four-in-a-row check |
| Parse.PlacesNoRepeat | src/Lesson6/Parse.kt:407-411 | V, L and D each occur at most once in a place-by-place numeral |
| Parse.RomanRoundTrip | src/Lesson6/Parse.kt:352-414 | `fromRoman(roman(n)) == n` for every n in 1..3999 |
| DeviceCells.CloseFrom | src/Lesson6/Parse.kt:427-428 | the search for the matching `]` stops at the first position where the bracket depth returns to the given level |
| DeviceCells.OpenFrom | src/Lesson6/Parse.kt:429-430 | the backward search for the matching `[` stops at the last position where the depth was the given level |
| DeviceCells.CloseFromFinds | src/Lesson6/Parse.kt:427-428 | that search finds exactly the first such position |
| DeviceCells.OpenFromFinds | src/Lesson6/Parse.kt:429-430 | the backward search finds exactly the last such position |
| DeviceCells.OpenThenClose | src/Lesson6/Parse.kt:484-494 | in a balanced program every `[` has a matching `]` whose matching `[` is the first one again |
| DeviceCells.CloseThenOpen | src/Lesson6/Parse.kt:484-494 | in a balanced program every `]` has an earlier matching `[` whose matching `]` is the first one again |
| DeviceCells.MatchBrackets | src/Lesson6/Parse.kt:481-494 | the stack loop throws IllegalArgument exactly when some prefix has more `]` than `[`; otherwise every recorded pair is a matching bracket pair in both directions, every `]` is recorded, and every bracket is when the program is balanced |
| DeviceCells.MatchCharacter | src/Lesson6/Parse.kt:485-493 | one step of that loop keeps the stack and the recorded pairs consistent with the prefix read so far |
| DeviceCells.MatchDone | src/Lesson6/Parse.kt:484-494 | after the last character the recorded pairs are exactly the matching brackets |
| DeviceCells.Step | src/Lesson6/Parse.kt:498-538 | one command counts as executed, keeps the tape length and moves to a command index within the program |
| DeviceCells.Run | src/Lesson6/Parse.kt:497-539 | the execution loop keeps the tape length and stops only at the program's end or after `limit` commands |
| DeviceCells.DeviceOutcome | src/Lesson6/Parse.kt:452-542 | a result is produced only for a program of allowed characters with balanced brackets, and it has `cells` entries |
| DeviceCells.RunOverSpaces | src/Lesson6/Parse.kt:535-538 | spaces only advance the command index and count as executed |
| DeviceCells.SpacesUseTheLimit | src/Lesson6/Parse.kt:436-438 | a program whose first `limit` commands are spaces leaves the tape all zeros |
| DeviceCells.RunOffRight | src/Lesson6/Parse.kt:499-505 | moving right past the last cell throws IllegalState |
| DeviceCells.WalkingOffTheTape | src/Lesson6/Parse.kt:445 | starting at `cells / 2` and moving right `cells - cells / 2` times leaves the tape and throws IllegalState |
| DeviceCells.ComputeDeviceCells | src/Lesson6/Parse.kt:452-542 | the method's checks and loops compute the outcome function: IllegalArgument for bad characters or unpaired brackets, IllegalState when the sensor leaves the tape, otherwise the tape |
| DeviceCells.Execute | src/Lesson6/Parse.kt:497-541 | the execution loop computes `Run` from the given start state |
| DeviceCells.ExecuteCommand | src/Lesson6/Parse.kt:498-537 | the command dispatch computes `Step` |
| Maps.StudentsWith | src/Lesson5/Map.kt:12-20 | the students listed under a grade are exactly those with that grade, and the list is empty exactly when nobody has it |
| Maps.BuildGrades | src/Lesson5/Map.kt:12-20 | the keys are exactly the grades that occur, and each grade lists its students in iteration order |
| Maps.AddStudent | src/Lesson5/Map.kt:15-17 | one `getOrPut(...).add` step keeps the grouping correct for the entries seen so far |
| Maps.GradesPartition | src/Lesson5/Map.kt:12-20 | each student appears under their own grade and under no other |
| Maps.ContainsIn | src/Lesson5/Map.kt:32-39 | true exactly when every key of `a` is in `b` with the same value |
| Maps.SubmapOrder | src/Lesson5/Map.kt:32-39 | that containment is reflexive, transitive and antisymmetric |
| Maps.SubtractOf | src/Lesson5/Map.kt:55-67 | the mutable map afterwards holds its old entries minus those that `b` holds with the same value |
| Maps.KeysToRemove | src/Lesson5/Map.kt:56-62 | the keys collected are exactly those of `a` whose value `b` holds too |
| Maps.SubtractSpec | src/Lesson5/Map.kt:55-67 | the result is contained in `a`, shares no entry with `b`, and a key of `a` is dropped exactly when `b` has the same entry |
| Maps.SubtractSelf | src/Lesson5/Map.kt:52-53 | subtracting a map from itself leaves it empty |
| Maps.Dedup | src/Lesson5/Map.kt:77 | `toSet` keeps exactly the elements and drops repetitions |
| Maps.KeepIn | src/Lesson5/Map.kt:77 | `intersect` keeps exactly the common elements |
| Maps.WhoAreInBoth | src/Lesson5/Map.kt:76-78 | exactly the people in both lists, each once |
| Maps.MergePhoneBooks | src/Lesson5/Map.kt:97-116 | the keys of both books; each value the distinct numbers, `mapA`'s first, joined with ", " |
| Maps.MergeValue | src/Lesson5/Map.kt:104-112 | the value built for one key is the merged value |
| Maps.MergedKeepsNumbers | src/Lesson5/Map.kt:97-116 | `mapA`'s number starts the merged value, `mapB`'s ends it, and they are joined only when they differ |
| Maps.MergedSelf | src/Lesson5/Map.kt:89 | merging a book with itself keeps every number once |
| Maps.IndexOf | src/Lesson5/Map.kt:187 | the first index of the element, -1 exactly when it is absent |
| Maps.CanBuildFrom | src/Lesson5/Map.kt:183-195 | true exactly when the lower-cased word needs no letter more often than the lower-cased characters supply it |
| Maps.TakeAway | src/Lesson5/Map.kt:186-192 | the removal loop succeeds exactly when the word's letters form a sub-multiset of the characters |
| Maps.ExtractRepeats | src/Lesson5/Map.kt:209-226 | exactly the elements occurring more than once, each with its number of occurrences |
| Maps.CountAll | src/Lesson5/Map.kt:214-216 | every element that occurs, with its number of occurrences |
| Maps.InsertCharSorted | src/Lesson5/Map.kt:245 | inserting a letter into a sorted word keeps it sorted and adds just that letter |
| Maps.SortChars | src/Lesson5/Map.kt:245 | the letters sorted: a sorted permutation |
| Maps.SortedUnique | src/Lesson5/Map.kt:245 | two sorted words with the same letters are equal |
| Maps.NormalizeAnagrams | src/Lesson5/Map.kt:232-245 | two words normalise alike exactly when their lower-cased letters are a permutation of each other |
| Maps.HasAnagrams | src/Lesson5/Map.kt:240-254 | true exactly when two different positions of the list hold anagrams |
| Maps.SeenBefore | src/Lesson5/Map.kt:241-253 | the set-based loop finds a repeated normal form exactly when one exists |
| Maps.FindSumOfTwo | src/Lesson5/Map.kt:345-358 | (-1, -1) exactly when no two positions add up to `number`; otherwise such a pair whose second index is the least possible, paired with the last earlier index that completes it |
| Knapsack.Trace | src/Lesson5/Map.kt:405-416 | the traceback decides, for each of the first i treasures, whether it is taken |
| Knapsack.BestGrows | src/Lesson5/Map.kt:396-400 | allowing one more treasure never lowers the best value |
| Knapsack.SelSnoc | src/Lesson5/Map.kt:386 | extending a choice by one treasure adds its weight and value exactly when it is taken |
| Knapsack.TraceLast | src/Lesson5/Map.kt:409-415 | a treasure is taken only when it fits the remaining capacity, and the traceback continues from the capacity that remains |
| Knapsack.TakesValue | src/Lesson5/Map.kt:396-400 | when the table entry changes, the treasure's value plus the best for the smaller capacity is the entry |
| Knapsack.TraceFits | src/Lesson5/Map.kt:405-416 | the treasures the traceback picks weigh at most the capacity |
| Knapsack.TraceValue | src/Lesson5/Map.kt:386-416 | the treasures the traceback picks are worth exactly the table's best value |
| Knapsack.WeightNonNegative | src/Lesson5/Map.kt:381-419 | with non-negative weights every choice weighs at least 0 |
| Knapsack.BestIsOptimal | src/Lesson5/Map.kt:386-402 | every choice among the first n treasures that fits the capacity is worth at most the table entry |
| Knapsack.PackingIsOptimal | src/Lesson5/Map.kt:366-367 | the picked treasures fit the rucksack and no fitting choice is worth more |
| Knapsack.BagPacking | src/Lesson5/Map.kt:381-419 | NegativeArraySize for a capacity below -1; for -1 the empty set with no treasures and an index error otherwise; an index error for a negative weight; otherwise the names the traceback picks |
| Knapsack.FillTable | src/Lesson5/Map.kt:390-402 | the fill succeeds exactly when capacity is -1 or no weight is negative, and then every table entry is the best value of the recurrence |
| Knapsack.FillRow | src/Lesson5/Map.kt:395-401 | one row is filled by the recurrence from the row before it, failing exactly on a negative weight, and the other rows are untouched |
| Knapsack.TraceBack | src/Lesson5/Map.kt:405-416 | from a correct table the loop collects the names of the treasures the traceback takes |
| Knapsack.PickedStep | src/Lesson5/Map.kt:408-416 | one downward step adds the treasure's name exactly when it is taken |
| Handshakes.GatheredAdd | src/Lesson5/Map.kt:314-316 | gathering the acquaintances of one more friend adds exactly that friend's set |
| Handshakes.ReachesDirect | src/Lesson5/Map.kt:259-262 | a direct acquaintance is reached by one handshake |
| Handshakes.ReachesTrans | src/Lesson5/Map.kt:259-262 | handshake chains compose |
| Handshakes.ClosedIsComplete | src/Lesson5/Map.kt:259-262 | a sound result that contains the direct acquaintances, is closed under acquaintance and lists nobody as knowing themselves names everyone reachable by handshakes, apart from oneself |
| Handshakes.WalkKnown | src/Lesson5/Map.kt:259-262 | in such a result every handshake chain from a person ends at someone that person already lists |
| Handshakes.VisitPerson | src/Lesson5/Map.kt:311-318 | one person's turn yields that person's acquaintances plus theirs, without the person |
| Handshakes.VisitKeeps | src/Lesson5/Map.kt:311-318 | a turn keeps the result sound and containing the direct acquaintances, removes the person, and loses nobody else |
| Handshakes.VisitBounded | src/Lesson5/Map.kt:311-318 | a turn names only people that occur in the input |
| Handshakes.VisitSettles | src/Lesson5/Map.kt:311-318 | a turn only adds others and removes the person themselves |
| Handshakes.SettlesTrans | src/Lesson5/Map.kt:309-323 | that settling relation composes across turns and passes |
| Handshakes.SettlesStays | src/Lesson5/Map.kt:309-323 | once a pass has changed the result, later turns never bring it back |
| Handshakes.SettledPending | src/Lesson5/Map.kt:309-323 | settling never raises the number of pending pairs, and any change lowers it |
| Handshakes.VisitGrows | src/Lesson5/Map.kt:312-321 | for a person not listing themselves, the size test of line 319 detects exactly a change |
| Handshakes.PassState | src/Lesson5/Map.kt:311-322 | a pass keeps the set of people |
| Handshakes.Pass | src/Lesson5/Map.kt:310-322 | the pass loop applies the turns in iteration order and reports whether a set grew and whether one changed |
| Handshakes.Turn | src/Lesson5/Map.kt:312-321 | one turn replaces just that person's set and updates the two flags |
| Handshakes.PassStep | src/Lesson5/Map.kt:311-322 | each step of a pass is one turn |
| Handshakes.PassKeeps | src/Lesson5/Map.kt:309-323 | a pass keeps the result sound and containing the direct acquaintances |
| Handshakes.PassBounded | src/Lesson5/Map.kt:309-323 | a pass names only people of the input |
| Handshakes.PassSettles | src/Lesson5/Map.kt:309-323 | a pass settles the result, and a reported change is a real one |
| Handshakes.GrewChanged | src/Lesson5/Map.kt:319-321 | growth is a change |
| Handshakes.PassRemovesSelf | src/Lesson5/Map.kt:318 | after a pass over distinct people nobody visited lists themselves |
| Handshakes.PassKeepsNoSelf | src/Lesson5/Map.kt:318-321 | once nobody lists themselves, growth and change coincide |
| Handshakes.PassIdle | src/Lesson5/Map.kt:309-323 | a pass that changes nothing leaves every turn idle |
| Handshakes.IdleIsClosed | src/Lesson5/Map.kt:309-323 | a result on which every turn is idle is closed and lists nobody as knowing themselves |
| Handshakes.CollectPeople | src/Lesson5/Map.kt:294-298 | everyone who occurs as a key or in a set of acquaintances |
| Handshakes.InitResult | src/Lesson5/Map.kt:301-305 | every person with their direct acquaintances, empty for those without a key |
| Handshakes.InitialSound | src/Lesson5/Map.kt:301-305 | the initial result is sound and holds the direct acquaintances, and nobody knows themselves in it exactly when nobody does in the input |
| Handshakes.PassFacts | src/Lesson5/Map.kt:309-323 | a whole pass: soundness kept, self-acquaintance removed, pending pairs lowered by a change, and an unchanged result is closed |
| Handshakes.PropagateHandshakes | src/Lesson5/Map.kt:290-326 | keys are the people, acquaintances are all reachable and include the direct ones, nobody lists themselves; complete when the input has no self-acquaintance; and a first pass that grows nothing ends the loop |
| Handshakes.PropagateHandshakesFixed | src/Lesson5/Map.kt:290-326 | with the loop driven by change instead of growth, the result names exactly everyone reachable by handshakes, for every input |
| Handshakes.SelfLoopsFirstPass | src/Lesson5/Map.kt:309-323 | on the four-person input of the finding the first pass grows nothing and leaves `a` with `b` and `c` |
| Handshakes.SelfHandshakeStopsEarly | src/Lesson5/Map.kt:309-323 | that input stops after one pass although `a` reaches `d` |
| Bfs.DistanceUnique | src/Lesson8/task3/Graph.kt:22-29 | a vertex has one distance from the start: two numbers that both satisfy `IsDistance` are equal |
| Bfs.DistanceIsShortest | src/Lesson8/task3/Graph.kt:22-29 | for every path from the start to the target, the distance is non-negative, so -1 only when no path exists, and at most the path's number of steps |
| Bfs.ShortestPathExists | src/Lesson8/task3/Graph.kt:22-29 | a non-negative distance `d` is the length of some path of exactly `d` steps |
| Bfs.PathWithin | src/Lesson8/task3/Graph.kt:22-29 | a path of `n` steps ends within `n` steps of its first vertex |
| Bfs.WithinPath | src/Lesson8/task3/Graph.kt:22-29 | every vertex within `k` steps is the end of a path of at most `k` steps from the start |
| Bfs.LevelZero | src/Lesson8/task3/Graph.kt:34-35 | the start is the only vertex recorded at distance 0 |
| Bfs.Discover | src/Lesson8/task3/Graph.kt:40-44 | a neighbour not yet visited is recorded one step beyond the vertex being expanded and appended to the queue, and the search invariant holds for the next neighbour |
| Bfs.Skip | src/Lesson8/task3/Graph.kt:41 | a neighbour already visited changes nothing and the invariant holds for the next neighbour |
| Bfs.ExpandDone | src/Lesson8/task3/Graph.kt:36-45 | once all neighbours of the dequeued vertex are visited, that vertex counts as expanded and the queue invariant holds again |
| Bfs.CoversNext | src/Lesson8/task3/Graph.kt:36-45 | when the head of the queue is one level further, every vertex at that level has been visited (the queue is in level order) |
| Bfs.Exhausted | src/Lesson8/task3/Graph.kt:36-46 | when the queue is empty, every vertex reachable from the start was visited and the target is not reachable |
| Bfs.Unreachable | src/Lesson8/task3/Graph.kt:46 | an emptied queue means the distance is -1 |
| Bfs.Distance | src/Lesson8/task3/Graph.kt:32-47 | the breadth-first search returns the length of a shortest path from start to finish, or -1 when there is none; the same search is `knightMoveNumber`'s |
| Bfs.ParentsAdd | src/Lesson8/task2/Chess.kt:473-477 | recording the expanded square as the parent of a newly visited one keeps every parent one level closer to the start and adjacent to its child |
| Bfs.ExpandWithParents | src/Lesson8/task2/Chess.kt:466-479 | the inner loop of `knightTrajectory` visits every successor of the dequeued square, records a parent for each new one and keeps the search invariant |
| Bfs.WalkBack | src/Lesson8/task2/Chess.kt:455-463 | following parents from the target to the start and reversing gives a path from start to target of exactly `dist[target] + 1` squares, which is a shortest one |
| Bfs.Trajectory | src/Lesson8/task2/Chess.kt:429-483 | the search with parents returns an empty list only when the target is unreachable; otherwise a path from start to target whose number of steps is the distance |
| Chess.InsideBoard | src/Lesson8/task2/Chess.kt:13 | `inside` holds exactly for the 64 squares `a1`..`h8` of the board |
| Chess.Notation | src/Lesson8/task2/Chess.kt:22-26 | "" exactly for a square off the board; otherwise two characters, the column letter `a`..`h` and the row digit, which encode the square's column and row |
| Chess.SquareOf | src/Lesson8/task2/Chess.kt:36-50 | succeeds exactly on two characters `a`..`h` and `1`..`8`, otherwise `IllegalArgumentException`; the square is on the board and its notation is the input |
| Chess.NotationRoundTrip | src/Lesson8/task2/Chess.kt:22-50 | `square(notation(sq)) == sq` for every square on the board |
| Chess.RookMoveNumber | src/Lesson8/task2/Chess.kt:75-85 | `IllegalArgumentException` exactly for a square off the board; otherwise 0 iff the squares are equal, 1 iff they share a line, else 2 |
| Chess.RookMoveNumberIsLeast | src/Lesson8/task2/Chess.kt:52-74 | no rook path between the squares has fewer moves than `rookMoveNumber` |
| Chess.ColumnWalk | src/Lesson8/task2/Chess.kt:113-118 | the `n` squares of the column from `sq` in direction `dir`, the i-th `i * dir` rows away |
| Chess.RowWalk | src/Lesson8/task2/Chess.kt:123-128 | the `n` squares of the row from `sq` in direction `dir`, the i-th `i * dir` columns away |
| Chess.Step | src/Lesson8/task2/Chess.kt:113 | the step is 1 or -1 |
| Chess.RookTrajectory | src/Lesson8/task2/Chess.kt:101-140 | as written: `[start]` for equal squares; every square of a shared column or row between the two; otherwise `start`, the turn square `(start.column, end.row)` and `end` |
| Chess.RookWalkIsPath | src/Lesson8/task2/Chess.kt:101-140 | the trajectory as written is a rook path from `start` to `end` |
| Chess.RookTrajectoryNotFastest | src/Lesson8/task2/Chess.kt:98 | the documented `rookTrajectory(Square(3, 5), Square(8, 5))` needs one move, but the code lists six squares |
| Chess.RookTrajectoryFixed | src/Lesson8/task2/Chess.kt:87-100 | a rook path from `start` to `end` with exactly `rookMoveNumber` moves, as the documentation asks |
| Chess.BishopMoveNumber | src/Lesson8/task2/Chess.kt:165-183 | `IllegalArgumentException` exactly for a square off the board; otherwise 0 iff equal squares, -1 iff different colours, 1 iff on a shared diagonal, else 2 |
| Chess.BishopPathColour | src/Lesson8/task2/Chess.kt:142-164 | every bishop path ends on the colour it started on |
| Chess.BishopMoveColour | src/Lesson8/task2/Chess.kt:142-164 | one bishop move keeps the colour |
| Chess.SameColour | src/Lesson8/task2/Chess.kt:247-260 | two squares of one colour have coordinate sums that differ by an even number `2 k` |
| Chess.BishopMoveNumberIsLeast | src/Lesson8/task2/Chess.kt:142-164 | no bishop path is shorter than `bishopMoveNumber`, and none exists when it is -1 |
| Chess.BishopIntermediatePoints | src/Lesson8/task2/Chess.kt:247-260 | for squares of one colour the truncating halving is exact: the first candidate is on the diagonal through `start` and the anti-diagonal through `end`, the second the other way round |
| Chess.IntermediateOnDiagonals | src/Lesson8/task2/Chess.kt:247-260 | each of the two candidate turning squares lies on a diagonal through `start` and one through `end` |
| Chess.IntermediateCoordinates | src/Lesson8/task2/Chess.kt:247-260 | the candidates are `end` shifted by `(k, k)` and `start` shifted by `(-k, -k)`, with `2 k` the difference of the coordinate sums |
| Chess.HalfOf | src/Lesson8/task2/Chess.kt:253-257 | Kotlin's truncating `/ 2` halves an even number exactly |
| Chess.IntermediateInside | src/Lesson8/task2/Chess.kt:247-260 | for squares of one colour, at least one candidate is on the board |
| Chess.TwoBishopMoves | src/Lesson8/task2/Chess.kt:203-242 | start, a candidate and end, each pair on a diagonal, form a bishop path |
| Chess.BishopTrajectory | src/Lesson8/task2/Chess.kt:203-242 | `IllegalArgumentException` exactly off the board; empty iff the colours differ; otherwise a bishop path from `start` to `end` with `bishopMoveNumber` moves |
| Chess.ViaIntermediate | src/Lesson8/task2/Chess.kt:228-239 | off a shared diagonal, the first candidate on the board gives a two-move bishop path |
| Chess.KingMoveNumber | src/Lesson8/task2/Chess.kt:282-291 | `IllegalArgumentException` exactly off the board; otherwise `max(abs(dc), abs(dr))`, 0 iff the squares are equal |
| Chess.KingMoveNumberIsLeast | src/Lesson8/task2/Chess.kt:262-281 | no king path is shorter than `max(abs(dc), abs(dr))` |
| Chess.Toward | src/Lesson8/task2/Chess.kt:319-329 | one coordinate of a king step gets one closer to the target, or stays when it is already there |
| Chess.KingTrajectory | src/Lesson8/task2/Chess.kt:307-336 | `IllegalArgumentException` exactly off the board; otherwise a king path from `start` to `end` of `kingMoveNumber + 1` squares |
| Chess.Targets | src/Lesson8/task2/Chess.kt:391-403 | every listed target of the knight's jumps is on the board |
| Chess.TargetsHas | src/Lesson8/task2/Chess.kt:391-403 | the on-board square of every jump is listed |
| Chess.TargetsFrom | src/Lesson8/task2/Chess.kt:391-403 | every listed square is the square of one of the jumps |
| Chess.KnightMovesAreKnightMoves | src/Lesson8/task2/Chess.kt:378-381 | the successor list of a square holds exactly the squares a knight move away |
| Chess.JumpIndex | src/Lesson8/task2/Chess.kt:378-381 | every jump of two squares one way and one the other is among the eight listed jumps |
| Chess.JumpShape | src/Lesson8/task2/Chess.kt:378-381 | each listed jump goes two squares one way and one the other |
| Chess.BoardClosed | src/Lesson8/task2/Chess.kt:394 | knight moves never leave the board, so the search stays within its 64 squares |
| Chess.KnightMoveNumber | src/Lesson8/task2/Chess.kt:361-407 | `IllegalArgumentException` exactly off the board; otherwise the least number of knight moves from `start` to `end`, or -1 when there is none |
| Chess.KnightTrajectory | src/Lesson8/task2/Chess.kt:429-483 | `IllegalArgumentException` exactly off the board; otherwise a shortest knight path from `start` to `end` (`[start]` for equal squares), or empty only when `end` is unreachable |
| Graphs.ClosedGraph | src/Lesson8/task3/Graph.kt:15-20 | every neighbour of a known vertex is a known vertex, so the searches stay among the graph's vertices |
| Graphs.AddOnce | src/Lesson8/task3/Graph.kt:16-17 | `MutableSet.add` on a neighbour list: the result holds `x` and exactly the old members besides |
| Graphs.AddOnceNoRepeats | src/Lesson8/task3/Graph.kt:16-17 | adding to a list without repeats keeps it without repeats |
| Graphs.Connected | src/Lesson8/task3/Graph.kt:15-20 | connecting two vertices keeps the set of vertex names |
| Graphs.ConnectedEdges | src/Lesson8/task3/Graph.kt:15-20 | after `connect(a, b)` each is the other's neighbour and no other edge is added; the edge relation stays symmetric and without repeats |
| Graphs.DfsFromPath | src/Lesson8/task3/Graph.kt:59-67 | a result of the depth-first search is the number of edges of some path from `start` to `finish` |
| Graphs.DfsAmongPath | src/Lesson8/task3/Graph.kt:61-65 | the minimum over the unvisited neighbours comes from one of them, with a path of that length from it |
| Graphs.DfsAmongAtMost | src/Lesson8/task3/Graph.kt:61-65 | the minimum over the neighbours is at most the result of any unvisited neighbour |
| Graphs.DfsFromAtMost | src/Lesson8/task3/Graph.kt:59-67 | the search finds a result no longer than any simple path from `start` to `finish` that avoids the visited vertices |
| Graphs.ShortestIsSimple | src/Lesson8/task3/Graph.kt:22-29 | a path as long as the distance repeats no vertex |
| Graphs.DfsIsDistance | src/Lesson8/task3/Graph.kt:49-57 | the depth-first search from `start` with nothing visited yields the distance, -1 when `finish` is unreachable |
| Graphs.DfsFoundIsDistance | src/Lesson8/task3/Graph.kt:59-67 | every result the depth-first search finds is the distance |
| Graphs.ShortestFound | src/Lesson8/task3/Graph.kt:59-67 | a vertex at distance `d` is found with a result of at most `d` |
| Graphs.ReachableFound | src/Lesson8/task3/Graph.kt:59-67 | every reachable vertex is found |
| Graphs.LeastLevel | src/Lesson8/task3/Graph.kt:22-29 | a vertex within `k` steps has a distance, and it is at most `k` |
| Graphs.Graph.constructor | src/Lesson8/task3/Graph.kt:7 | a new graph has no vertices |
| Graphs.Graph.AddVertex | src/Lesson8/task3/Graph.kt:11-13 | the name is mapped to an empty neighbour list and nothing else changes |
| Graphs.Graph.Connect | src/Lesson8/task3/Graph.kt:9-20 | `IllegalArgumentException` exactly when a name is unknown, and then nothing changes; otherwise the adjacency becomes `Connected(old, first, second)` |
| Graphs.Graph.BreadthFirst | src/Lesson8/task3/Graph.kt:30-47 | `IllegalArgumentException` exactly for an unknown name; otherwise the number of edges of a shortest path, or -1 when there is none |
| Graphs.Graph.DepthFirst | src/Lesson8/task3/Graph.kt:57-67 | `IllegalArgumentException` exactly for an unknown name; otherwise the same distance as the breadth-first search |
| Graphs.DepthFirstIsBreadthFirst | src/Lesson8/task3/Graph.kt:22-57 | the two searches return the same number for every pair of known vertices |
| PhoneBooks.ValidName | src/Lesson12/PhoneBook.kt:27-30 | a name is valid exactly when it holds a letter; the not-blank test adds nothing, since a letter is never blank |
| PhoneBooks.ValidPhone | src/Lesson12/PhoneBook.kt:35-40 | a phone is valid exactly when it is non-empty and every character is a digit or one of `+ * # -`; the not-blank test only excludes the empty text |
| PhoneBooks.Without | src/Lesson12/PhoneBook.kt:75-77 | the reverse map restricted to the phones outside `gone`, every remaining owner unchanged |
| PhoneBooks.OneOwner | src/Lesson12/PhoneBook.kt:92-116 | in a book kept with its inverse, no phone belongs to two people |
| PhoneBooks.InverseUnique | src/Lesson12/PhoneBook.kt:207-223 | the book determines its reverse map |
| PhoneBooks.RemovePhones | src/Lesson12/PhoneBook.kt:75-77 | the loop of `removeHuman` leaves the reverse map without exactly the person's phones |
| PhoneBooks.AddPersonInverse | src/Lesson12/PhoneBook.kt:48-59 | adding a person with no phones keeps the reverse map the inverse of the book |
| PhoneBooks.RemovePersonInverse | src/Lesson12/PhoneBook.kt:67-83 | removing a person and their phones keeps the reverse map the inverse |
| PhoneBooks.AddPhoneInverse | src/Lesson12/PhoneBook.kt:92-116 | adding an unowned phone to a person and to the reverse map keeps the inverse |
| PhoneBooks.RemovePhoneInverse | src/Lesson12/PhoneBook.kt:124-144 | removing a person's phone from both maps keeps the inverse |
| PhoneBooks.PhoneBook.constructor | src/Lesson12/PhoneBook.kt:16-22 | a new book is empty and valid |
| PhoneBooks.PhoneBook.AddHuman | src/Lesson12/PhoneBook.kt:48-59 | true exactly for a valid name not yet present, which is then added with no phones; the reverse map does not change |
| PhoneBooks.PhoneBook.RemoveHuman | src/Lesson12/PhoneBook.kt:67-83 | true exactly for a valid name present; the person goes and each of their phones leaves the reverse map |
| PhoneBooks.PhoneBook.AddPhone | src/Lesson12/PhoneBook.kt:92-116 | true exactly for a valid known name and a valid phone nobody owns; the phone is added to the person and to the reverse map |
| PhoneBooks.PhoneBook.RemovePhone | src/Lesson12/PhoneBook.kt:124-144 | true exactly when the person owns the phone; it leaves both maps and the person stays |
| PhoneBooks.PhoneBook.Phones | src/Lesson12/PhoneBook.kt:150-156 | exactly the phones whose owner is `name`; empty for an unknown name |
| PhoneBooks.PhoneBook.HumanByPhone | src/Lesson12/PhoneBook.kt:162-168 | an owner exactly when someone owns the phone, and that person's phones hold it |
| PhoneBooks.PhoneBook.AllHumans | src/Lesson12/PhoneBook.kt:173-175 | exactly the names in the book |
| PhoneBooks.PhoneBook.AllPhones | src/Lesson12/PhoneBook.kt:180-182 | exactly the phones that some person owns |
| PhoneBooks.PhoneBook.HumansCount | src/Lesson12/PhoneBook.kt:195 | the number of people |
| PhoneBooks.PhoneBook.PhonesCount | src/Lesson12/PhoneBook.kt:200 | the number of owned phones |
| PhoneBooks.PhoneBook.Clear | src/Lesson12/PhoneBook.kt:187-190 | both maps become empty |
| PhoneBooks.PhoneBook.Equals | src/Lesson12/PhoneBook.kt:207-223 | true exactly when both books map the same people to the same phone sets, whatever the order of insertion |
| PhoneBooks.EqualBooksEqualReverse | src/Lesson12/PhoneBook.kt:207-223 | two valid books with equal people and phones also have equal reverse maps, so `equals` compares the whole state |
| TrainTimeTables.MakeTime | src/Lesson12/TrainTimeTable.kt:6-9 | a time is built exactly when the hour is in 0..23 and the minute in 0..59; otherwise an IllegalArgument failure |
| TrainTimeTables.Minutes | src/Lesson12/TrainTimeTable.kt:14 | a valid time's `totalMinutes` is a minute of the day in 0..1439 from which its hour and minute are recovered by `/ 60` and `% 60` |
| TrainTimeTables.MinutesOfDay | src/Lesson12/TrainTimeTable.kt:14 | a valid time is a minute of the day in 0..1439, and two valid times share a minute count only when they are equal |
| TrainTimeTables.Compare | src/Lesson12/TrainTimeTable.kt:19-21 | the comparison is -1, 0 or 1, zero exactly for equal times and negative exactly when the first is earlier in the day |
| TrainTimeTables.DaySplit | src/Lesson12/TrainTimeTable.kt:25-26 | the hour and minute that `plus` computes from a non-negative total are its position within the day |
| TrainTimeTables.Plus | src/Lesson12/TrainTimeTable.kt:23-28 | a result is a valid time and a failure is the `Time` constructor's IllegalArgument; a non-negative total always succeeds and wraps around midnight |
| TrainTimeTables.PlusBackward | src/Lesson12/TrainTimeTable.kt:23-28 | a negative total is rejected by the `Time` constructor unless it is a whole number of days, and then gives midnight |
| TrainTimeTables.PlusWithinDay | src/Lesson12/TrainTimeTable.kt:23-28 | within one day, `plus` splits the total into its hour and minute |
| TrainTimeTables.Difference | src/Lesson12/TrainTimeTable.kt:30-32 | the difference of two times is less than a day either way, negative exactly when `compareTo` is, and zero exactly for the same time |
| TrainTimeTables.MinusMinutes | src/Lesson12/TrainTimeTable.kt:34-36 | going back within the day gives the time that many minutes earlier; going back past midnight fails unless the total is a whole number of days |
| TrainTimeTables.TimeOfMinutes | src/Lesson12/TrainTimeTable.kt:14 | a valid time is recovered from its minute count |
| TrainTimeTables.DifferenceRoundTrip | src/Lesson12/TrainTimeTable.kt:30-32 | adding the difference `a - b` to `b` gives back `a` |
| TrainTimeTables.PlusMinusRoundTrip | src/Lesson12/TrainTimeTable.kt:34-36 | within one day, subtracting the minutes just added restores the original time |
| TrainTimeTables.InOrderSorted | src/Lesson12/TrainTimeTable.kt:60-64 | the neighbour-by-neighbour order check in `Train`'s constructor holds exactly when every pair of stops is in time order |
| TrainTimeTables.FirstAbove | src/Lesson12/TrainTimeTable.kt:85 | the index of the first element with a larger key: every earlier key is no larger, and the element there, if any, is larger |
| TrainTimeTables.InsertBy | src/Lesson12/TrainTimeTable.kt:84-91 | the insertion holds the old elements and the new one, each as often as before plus the new one once |
| TrainTimeTables.InsertSorted | src/Lesson12/TrainTimeTable.kt:84-91 | inserting before the first larger key keeps a time-ordered list time-ordered |
| TrainTimeTables.InsertAt | src/Lesson12/TrainTimeTable.kt:84-91 | the elements before the insertion point are unchanged, the new element sits there, and the rest are shifted by one |
| TrainTimeTables.InsertAtEnd | src/Lesson12/TrainTimeTable.kt:87-88 | an element whose key is no smaller than any other is appended at the end |
| TrainTimeTables.SortBy | src/Lesson12/TrainTimeTable.kt:110 | the sort returns a time-ordered permutation of its input |
| TrainTimeTables.SortedUnchanged | src/Lesson12/TrainTimeTable.kt:110 | sorting an already ordered list leaves it unchanged |
| TrainTimeTables.SortedPrefix | src/Lesson12/TrainTimeTable.kt:60-64 | a prefix of an ordered list is ordered and no key in it exceeds the next element's |
| TrainTimeTables.UpdateMultiset | src/Lesson12/TrainTimeTable.kt:106-107 | replacing one stop exchanges exactly that stop for the new one in the multiset of stops |
| TrainTimeTables.MakeTrain | src/Lesson12/TrainTimeTable.kt:57-65 | a train is built exactly when it has stops and they are in time order; otherwise an IllegalArgument failure |
| TrainTimeTables.Departure | src/Lesson12/TrainTimeTable.kt:67 | `firstStop` is one of the train's stops, and in a time-ordered train no stop is earlier |
| TrainTimeTables.Arrival | src/Lesson12/TrainTimeTable.kt:68 | `lastStop` is one of the train's stops, and in a time-ordered train no stop is later |
| TrainTimeTables.HasStop | src/Lesson12/TrainTimeTable.kt:70 | `hasStop` holds exactly when `indexOfFirst` on the name finds a stop |
| TrainTimeTables.IndexOfName | src/Lesson12/TrainTimeTable.kt:78 | the index of the first stop with that name, or -1 exactly when no stop has it |
| TrainTimeTables.GetStopTime | src/Lesson12/TrainTimeTable.kt:72-74 | a time is returned exactly when the train has that stop, and it is the time of one of the train's stops of that name |
| TrainTimeTables.IsIntermediateStop | src/Lesson12/TrainTimeTable.kt:76-80 | true exactly when the first stop with that name stands strictly between the first and the last stop |
| TrainTimeTables.WithStopAdded | src/Lesson12/TrainTimeTable.kt:82-94 | adding a stop gives a valid train of the same name whose stops are the old ones plus the new stop |
| TrainTimeTables.DropName | src/Lesson12/TrainTimeTable.kt:98 | the stops kept are exactly those without that name; the list shrinks when a stop has that name, and a first stop of another name stays first |
| TrainTimeTables.DropSorted | src/Lesson12/TrainTimeTable.kt:98 | dropping stops keeps the rest in time order |
| TrainTimeTables.WithStopRemoved | src/Lesson12/TrainTimeTable.kt:96-100 | removal succeeds exactly for an intermediate stop, giving a valid, shorter train with the same first stop and without any stop of that name |
| TrainTimeTables.WithStopUpdated | src/Lesson12/TrainTimeTable.kt:102-112 | an update succeeds exactly when the train has the stop, and the new valid train holds the first such stop exchanged for the new one |
| TrainTimeTables.ResortedValid | src/Lesson12/TrainTimeTable.kt:106-111 | replacing a stop and sorting again gives a valid train with exactly that one stop exchanged |
| TrainTimeTables.FitsBetween | src/Lesson12/TrainTimeTable.kt:135-150 | for a stop of a name the valid train lacks, `validateStopTime` accepts exactly a time strictly between departure and arrival that no stop of the train has |
| TrainTimeTables.AddIntermediate | src/Lesson12/TrainTimeTable.kt:230-248 | the intermediate-station branches of `addStop` leave a valid train of the same name |
| TrainTimeTables.AddStopAsWritten | src/Lesson12/TrainTimeTable.kt:204-250 | `addStop` on one train, with its departure and arrival checks made after the stops are sorted again, leaves a valid train of the same name |
| TrainTimeTables.DepartureCheckNeverFails | src/Lesson12/TrainTimeTable.kt:209-217 | the departure branch as written accepts every new time for a base station the train has |
| TrainTimeTables.DepartureMovedPastStop | src/Lesson12/TrainTimeTable.kt:209-217 | a departure moved past the second stop is accepted, and the second stop then becomes the first |
| TrainTimeTables.UpdatedDepartureFirst | src/Lesson12/TrainTimeTable.kt:102-112 | updating the first stop to a time after the strictly earliest second stop puts that second stop first |
| TrainTimeTables.SecondLeast | src/Lesson12/TrainTimeTable.kt:110 | with the first stop moved past a strictly earliest second stop, that second stop is the strictly earliest |
| TrainTimeTables.DepartureMovedExample | src/Lesson12/TrainTimeTable.kt:209-217 | a train from the base at 8:00 via 9:00 to 11:00 accepts a departure at 10:00 and then starts at the 9:00 stop |
| TrainTimeTables.LeastFirst | src/Lesson12/TrainTimeTable.kt:110 | a sorted permutation starts with the element whose key is strictly the least |
| TrainTimeTables.AddStopChecked | src/Lesson12/TrainTimeTable.kt:204-250 | `addStop` on one train with the departure and arrival checks made before the stops are sorted again leaves a valid train of the same name |
| TrainTimeTables.UpdateInPlace | src/Lesson12/TrainTimeTable.kt:102-112 | a stop replaced without breaking the time order leaves every other stop where it was |
| TrainTimeTables.DepartureStaysFirst | src/Lesson12/TrainTimeTable.kt:209-217 | with the checks in place, a new departure time is accepted exactly when it is no later than the second stop, and then only the first stop changes |
| TrainTimeTables.ArrivalStaysLast | src/Lesson12/TrainTimeTable.kt:220-228 | with the checks in place, a new arrival time is accepted exactly when it is no earlier than the stop before it, and then only the last stop changes |
| TrainTimeTables.NewStopIsIntermediate | src/Lesson12/TrainTimeTable.kt:241-248 | a stop reported as new had a name the train lacked, and it lands strictly between the departure and the arrival |
| TrainTimeTables.InsertedIntermediate | src/Lesson12/TrainTimeTable.kt:135-146 | a new stop that fits between departure and arrival is inserted as an intermediate stop |
| TrainTimeTables.BadStopTimeRefused | src/Lesson12/TrainTimeTable.kt:135-146 | an intermediate stop before the departure, after the arrival, or at another stop's time is an IllegalArgument failure |
| TrainTimeTables.TrainTimeTable.constructor | src/Lesson12/TrainTimeTable.kt:128-130 | a new timetable has the given base station and no trains |
| TrainTimeTables.TrainTimeTable.AddTrain | src/Lesson12/TrainTimeTable.kt:158-172 | a known name changes nothing and answers false; an arrival before the departure fails; otherwise the two-stop train is stored and the answer is true |
| TrainTimeTables.TrainTimeTable.RemoveTrain | src/Lesson12/TrainTimeTable.kt:182-184 | the train is removed, and the answer is whether it was there |
| TrainTimeTables.TrainTimeTable.AddStop | src/Lesson12/TrainTimeTable.kt:204-250 | an unknown train fails and changes nothing; otherwise the outcome of `addStop` as written on that train (`AddStopAsWritten`, checks after the re-sort) is stored, or its failure leaves the table unchanged; a departure moved past the first intermediate stop is therefore accepted and stored re-sorted |
| TrainTimeTables.TrainTimeTable.RemoveStop | src/Lesson12/TrainTimeTable.kt:262-277 | a stop is removed exactly when it is an intermediate stop of a known train other than the base and the destination; otherwise nothing changes |
| TrainTimeTables.TrainTimeTable.Collect | src/Lesson12/TrainTimeTable.kt:292-298 | the trains accepted by the filter, each exactly once |
| TrainTimeTables.TrainTimeTable.AllTrains | src/Lesson12/TrainTimeTable.kt:282-284 | every train exactly once, ordered by departure time |
| TrainTimeTables.TrainTimeTable.TrainsTo | src/Lesson12/TrainTimeTable.kt:291-303 | exactly the trains leaving no earlier than the given time that stop at the destination, each once, ordered by their time there |
| TrainTimeTables.TrainTimeTable.GetTrain | src/Lesson12/TrainTimeTable.kt:308 | a train is returned exactly when the name is known, and it is the stored train, a valid train of that name |
| TrainTimeTables.TrainTimeTable.GetTrainStops | src/Lesson12/TrainTimeTable.kt:313 | stops are returned exactly when the name is known, and they are the stored train's stops, non-empty and in time order |
| TrainTimeTables.TrainTimeTable.Size | src/Lesson12/TrainTimeTable.kt:325 | zero exactly for an empty table; with every train filed under its own name, the number of distinct trains |
| TrainTimeTables.NamedCount | src/Lesson12/TrainTimeTable.kt:325 | a map that files each train under its own name holds as many trains as names |
| TrainTimeTables.TrainTimeTable.Clear | src/Lesson12/TrainTimeTable.kt:318-320 | the table is left empty |
| TrainTimeTables.TrainTimeTable.IsEmpty | src/Lesson12/TrainTimeTable.kt:330 | the table is empty exactly when it holds no train |
| TrainTimeTables.TrainTimeTable.Equals | src/Lesson12/TrainTimeTable.kt:337-354 | two tables are equal exactly when they have the same base station and the same trains under the same names |
| TrainTimeTables.Distinct | src/Lesson12/TrainTimeTable.kt:282-284 | a permutation of a list without repeats holds the same elements and has no repeats |
| TrainTimeTables.SingleCount | src/Lesson12/TrainTimeTable.kt:282-284 | an element of a list without repeats occurs in it at most once |
| Matrix.Values | src/Lesson9/task1/Matrix.kt:167-172 | the values of a list of cells exist exactly when no cell is empty, and then they are the cells' contents in order |
| Matrix.MatrixImpl.Filled | src/Lesson9/task1/Matrix.kt:64-72 | a new matrix of the given positive size with every cell holding the initial value |
| Matrix.MatrixImpl.Empty | src/Lesson9/task1/Matrix.kt:77-85 | a new matrix of the given positive size with every cell empty |
| Matrix.MatrixImpl.Get | src/Lesson9/task1/Matrix.kt:90-101 | IndexOutOfBounds exactly outside the matrix, NoSuchElement exactly for an empty cell inside it, otherwise the cell's value |
| Matrix.MatrixImpl.GetCell | src/Lesson9/task1/Matrix.kt:103-105 | reading by cell answers as reading by row and column |
| Matrix.MatrixImpl.Set | src/Lesson9/task1/Matrix.kt:107-110 | inside the matrix the cell then reads back the value and every other cell is unchanged; outside, IndexOutOfBounds and nothing changes |
| Matrix.MatrixImpl.SetCell | src/Lesson9/task1/Matrix.kt:112-114 | writing by cell behaves as writing by row and column |
| Matrix.MatrixImpl.RowCells | src/Lesson9/task1/Matrix.kt:167-172 | the cells of one row, left to right |
| Matrix.MatrixImpl.ColumnCells | src/Lesson9/task1/Matrix.kt:177-182 | the cells of one column, top to bottom |
| Matrix.MatrixImpl.GetRow | src/Lesson9/task1/Matrix.kt:167-172 | IndexOutOfBounds exactly for a row outside the matrix, NoSuchElement exactly when one of its cells is empty, otherwise the values each cell reads back |
| Matrix.MatrixImpl.GetColumn | src/Lesson9/task1/Matrix.kt:177-182 | IndexOutOfBounds exactly for a column outside the matrix, NoSuchElement exactly when one of its cells is empty, otherwise the values each cell reads back |
| Matrix.MatrixImpl.Fill | src/Lesson9/task1/Matrix.kt:187-193 | afterwards every cell holds the value |
| Matrix.MatrixImpl.Transpose | src/Lesson9/task1/Matrix.kt:198-210 | IllegalState with nothing changed exactly for a non-square matrix; otherwise cell (i, j) holds what (j, i) held |
| Matrix.MatrixImpl.Copy | src/Lesson9/task1/Matrix.kt:215-223 | a new matrix with its own storage, of the same size and with the same cells |
| Matrix.MatrixImpl.Equals | src/Lesson9/task1/Matrix.kt:138-150 | two matrices are equal exactly when they have the same size and the same content in every cell, empty cells included |
| Matrix.CreateMatrix | src/Lesson9/task1/Matrix.kt:42-47 | IllegalArgument exactly when a dimension is not positive; otherwise a new full matrix whose every cell reads back the given value |
| Matrix.CreateEmptyMatrix | src/Lesson9/task1/Matrix.kt:77-85 | IllegalArgument exactly when a dimension is not positive; otherwise a new matrix whose every cell reads NoSuchElement |
| Matrix.TransposeTwice | src/Lesson9/task1/Matrix.kt:198-210 | transposing a square matrix twice restores every cell |
| Matrix.CopyThenSet | src/Lesson9/task1/Matrix.kt:215-223 | a copy equals its original, and a later write to the copy leaves the original unchanged |
| Matrix.CreateIdentityMatrix | src/Lesson9/task1/Matrix.kt:229-235 | IllegalArgument exactly for a non-positive size; otherwise a new square matrix with 1 on the diagonal and 0 elsewhere |
| Matrix.CreateSequenceMatrix | src/Lesson9/task1/Matrix.kt:240-249 | IllegalArgument exactly when a dimension is not positive; otherwise cell (i, j) holds `start + i * width + j` |
| Matrix.RowTimesColumn | src/Lesson9/task1/Matrix.kt:265-268 | the sum of row i of a times column j of b, or NoSuchElement exactly when one of the cells read is empty |
| Matrix.ProductRow | src/Lesson9/task1/Matrix.kt:264-270 | row i of the result holds the row's products and every other row is unchanged, or NoSuchElement exactly when a cell read is empty |
| Matrix.MultiplyMatrices | src/Lesson9/task1/Matrix.kt:254-274 | IllegalArgument exactly when the widths and heights do not match, NoSuchElement exactly when a cell of either matrix is empty, otherwise a new matrix with the sum of products in every cell |
| Matrix.AddMatrices | src/Lesson9/task1/Matrix.kt:279-293 | IllegalArgument exactly when the dimensions differ, NoSuchElement exactly when a cell of either matrix is empty, otherwise a new matrix holding the cell-wise sum |
| Matrices.RingStartClosed | src/Lesson9/task2/Matrices.kt:27-55 | the numbers used before ring k of the spiral are the cells outside the inner block, `h·w - (h-2k)(w-2k)` |
| Matrices.RingOffsetRange | src/Lesson9/task2/Matrices.kt:27-55 | the place of a cell on its ring is smaller than the ring's size |
| Matrices.RingSizeAtMost | src/Lesson9/task2/Matrices.kt:27-55 | a ring has at least one cell and no more than the block it surrounds |
| Matrices.SpiralNumberRange | src/Lesson9/task2/Matrices.kt:15-58 | every spiral number lies in `1..height·width` |
| Matrices.RingStartGrows | src/Lesson9/task2/Matrices.kt:27-55 | a deeper ring starts after the whole of every ring before it |
| Matrices.RingOffsetInjective | src/Lesson9/task2/Matrices.kt:27-55 | two different cells of one ring have different places on it |
| Matrices.SpiralNumberInjective | src/Lesson9/task2/Matrices.kt:15-58 | two different cells get different spiral numbers, so the spiral numbers each cell once |
| Matrices.RingSides | src/Lesson9/task2/Matrices.kt:29-54 | the cells of ring k are exactly those on its four sides |
| Matrices.LastRing | src/Lesson9/task2/Matrices.kt:27 | when a ring is one row or one column thick, no cell lies deeper |
| Matrices.SpiralTop | src/Lesson9/task2/Matrices.kt:29-32 | the top-row loop numbers its cells with their spiral numbers and leaves every other cell unchanged |
| Matrices.SpiralRight | src/Lesson9/task2/Matrices.kt:35-38 | the right-column loop numbers its cells with their spiral numbers and leaves every other cell unchanged |
| Matrices.SpiralBottom | src/Lesson9/task2/Matrices.kt:41-46 | the bottom-row loop numbers its cells with their spiral numbers and leaves every other cell unchanged |
| Matrices.SpiralLeft | src/Lesson9/task2/Matrices.kt:49-54 | the left-column loop numbers its cells with their spiral numbers and leaves every other cell unchanged |
| Matrices.SpiralTurn | src/Lesson9/task2/Matrices.kt:27-55 | one turn of the loop completes ring k, and either moves the bounds in by one or ends the loop after the last ring |
| Matrices.GenerateSpiral | src/Lesson9/task2/Matrices.kt:15-58 | IllegalArgument exactly for a non-positive size; otherwise every cell holds its spiral number |
| Matrices.RectangleLevelIsRing | src/Lesson9/task2/Matrices.kt:81-92 | a cell's value is k exactly when it lies on the k-th perimeter from the outside |
| Matrices.GenerateRectangles | src/Lesson9/task2/Matrices.kt:74-96 | IllegalArgument exactly for a non-positive size; otherwise every cell holds the number of its perimeter |
| Matrices.CellsBeforeGrows | src/Lesson9/task2/Matrices.kt:120-133 | every anti-diagonal of the matrix holds at least one cell |
| Matrices.CellsBeforeNextRow | src/Lesson9/task2/Matrices.kt:120-133 | one more row adds one cell to every anti-diagonal from the new row on |
| Matrices.CellsBeforeAll | src/Lesson9/task2/Matrices.kt:120 | the anti-diagonals together hold all `height·width` cells |
| Matrices.OneRowDiagonals | src/Lesson9/task2/Matrices.kt:120-133 | in a single row every anti-diagonal holds one cell |
| Matrices.SnakeNumberRange | src/Lesson9/task2/Matrices.kt:111-136 | every snake number lies in `1..height·width` |
| Matrices.SnakeNumberInjective | src/Lesson9/task2/Matrices.kt:111-136 | two different cells get different snake numbers |
| Matrices.GenerateSnake | src/Lesson9/task2/Matrices.kt:111-136 | IllegalArgument exactly for a non-positive size; otherwise every cell holds its snake number |
| Matrices.Rotate | src/Lesson9/task2/Matrices.kt:149-164 | IllegalArgument exactly for a non-square matrix; otherwise a new matrix turned a quarter clockwise |
| Matrices.RotateFour | src/Lesson9/task2/Matrices.kt:149-164 | four quarter turns give back the original matrix |
| Matrices.DirectionSumIsNeighbourSum | src/Lesson9/task2/Matrices.kt:233-248 | the eight offsets reach each existing neighbour of a cell exactly once |
| Matrices.SingleCellHasNoNeighbours | src/Lesson9/task2/Matrices.kt:228-230 | the special case for a 1×1 matrix agrees with the general sum |
| Matrices.NeighbourSumAt | src/Lesson9/task2/Matrices.kt:241-248 | the loop over the offsets sums the existing neighbours of one cell |
| Matrices.SumNeighbours | src/Lesson9/task2/Matrices.kt:225-254 | every cell of the result is the sum of the existing neighbours of the same cell |
| Matrices.IncreasingAppend | src/Lesson9/task2/Matrices.kt:285 | appending a number larger than all others keeps the list increasing |
| Matrices.RowIsZero | src/Lesson9/task2/Matrices.kt:277-283 | the row loop with its early exit answers whether the row is all zeros |
| Matrices.ColumnIsZero | src/Lesson9/task2/Matrices.kt:291-297 | the column loop with its early exit answers whether the column is all zeros |
| Matrices.FindHoles | src/Lesson9/task2/Matrices.kt:271-304 | the row list holds exactly the all-zero rows and the column list exactly the all-zero columns, each in increasing order |
| Matrices.BlockSumEitherWay | src/Lesson9/task2/Matrices.kt:331-335 | summing a block by rows or by columns gives the same total |
| Matrices.ZeroRowsByColumns | src/Lesson9/task2/Matrices.kt:331-335 | a block with no rows sums to 0 |
| Matrices.ZeroColumnsByRows | src/Lesson9/task2/Matrices.kt:331-335 | a block with no columns sums to 0 |
| Matrices.BlockSumRecurrence | src/Lesson9/task2/Matrices.kt:331-335 | a block sum is its corner cell plus the two blocks one shorter, minus the block they share |
| Matrices.BlockSumTo | src/Lesson9/task2/Matrices.kt:330-336 | the two inner loops sum the block from the top-left corner to the cell |
| Matrices.SumSubMatrix | src/Lesson9/task2/Matrices.kt:325-341 | every cell of the result is the sum of the block from the top-left corner down to it |
| Matrices.UnaryMinus | src/Lesson9/task2/Matrices.kt:349-359 | every cell of the result is the negation of the same cell |
| Matrices.NegateTwice | src/Lesson9/task2/Matrices.kt:349-359 | negating twice gives back the original values |
| Matrices.RowValuesHas | src/Lesson9/task2/Matrices.kt:188-192 | each cell of the row contributes its value to the row's set |
| Matrices.OneToHas | src/Lesson9/task2/Matrices.kt:183 | the expected set holds exactly the numbers from 1 to n |
| Matrices.RowValuesAtMost | src/Lesson9/task2/Matrices.kt:188-192 | n cells hold at most n different values |
| Matrices.RowValuesFewer | src/Lesson9/task2/Matrices.kt:188-192 | two equal cells among n leave fewer than n values |
| Matrices.LatinRowsDistinct | src/Lesson9/task2/Matrices.kt:179-206 | in a Latin square the cells of a row are pairwise different |
| Matrices.OneToSize | src/Lesson9/task2/Matrices.kt:183 | the expected set has n elements |
| Matrices.RowIsComplete | src/Lesson9/task2/Matrices.kt:187-193 | the row loop with its early exit on a value outside `1..n` answers whether the row's values are exactly `1..n` |
| Matrices.ColumnIsComplete | src/Lesson9/task2/Matrices.kt:198-202 | the column loop answers whether the column's values are exactly `1..n` |
| Matrices.IsLatinSquare | src/Lesson9/task2/Matrices.kt:179-206 | true exactly when the matrix is square and every row and every column holds each of `1..n` |
| Matrices.FitsAt | src/Lesson9/task2/Matrices.kt:415-430 | the two inner loops answer whether the key fits the lock at that shift |
| Matrices.CanOpenLock | src/Lesson9/task2/Matrices.kt:411-439 | the first shift in row-major order at which the key fits, or `(false, -1, -1)` exactly when it fits at none |
| Matrices.Board | src/Lesson9/task2/Matrices.kt:475-479 | a 4×4 matrix read row by row, cell (i, j) at entry `4i + j` |
| Matrices.FirstIndex | src/Lesson9/task2/Matrices.kt:485-494 | the first entry equal to the value in row-major order, or -1 exactly when there is none |
| Matrices.Start | src/Lesson9/task2/Matrices.kt:482-494 | the starting position keeps the game's invariant |
| Matrices.Step | src/Lesson9/task2/Matrices.kt:497-537 | a refused move is IllegalState, and an accepted one keeps the game's invariant |
| Matrices.Play | src/Lesson9/task2/Matrices.kt:497-537 | playing the moves in turn keeps the invariant, or is IllegalState |
| Matrices.StepKeepsTiles | src/Lesson9/task2/Matrices.kt:530-532 | a move swaps two entries, so the tiles on the board stay the same |
| Matrices.SwapKeepsMultiset | src/Lesson9/task2/Matrices.kt:530-532 | exchanging two entries keeps the multiset of the board |
| Matrices.StepBack | src/Lesson9/task2/Matrices.kt:497-537 | moving the same tile again undoes a move when that tile occurs once on the board |
| Matrices.PlayRefusedStays | src/Lesson9/task2/Matrices.kt:497-537 | once a move is refused, the whole game is refused |
| Matrices.Find | src/Lesson9/task2/Matrices.kt:506-515 | the search finds the first cell, row by row, holding the tile |
| Matrices.SetTile | src/Lesson9/task2/Matrices.kt:531-532 | writing a cell of the board changes exactly entry `4·row + col` |
| Matrices.MakeMove | src/Lesson9/task2/Matrices.kt:497-537 | one pass of the move loop succeeds exactly when the move is allowed, and then leaves the position `Step` describes |
| Matrices.FifteenGameMoves | src/Lesson9/task2/Matrices.kt:468-540 | IllegalArgument exactly for a matrix that is not 4×4; otherwise IllegalState exactly when a move is refused, else a new matrix holding the position after all the moves |
| Rationals.Gcd | src/Lesson11/Rational.kt:52-61 | the companion `gcd` divides `abs(a)` and `abs(b)`, every common divisor divides it, and it is 0 only for two zeros |
| Rationals.GcdScale | src/Lesson11/Rational.kt:52-61 | multiplying both arguments by k multiplies their gcd by k |
| Rationals.CancelLeft | src/Lesson11/Rational.kt:45-50 | a common positive factor cancels |
| Rationals.ReducedCoprime | src/Lesson11/Rational.kt:45-50 | dividing two numbers by their gcd leaves a coprime pair |
| Rationals.DividesMultiple | src/Lesson11/Rational.kt:45-50 | d divides every multiple of d |
| Rationals.EuclidLemma | src/Lesson11/Rational.kt:6-7 | a divisor of `n·k` coprime to n divides k, so lowest terms are unique |
| Rationals.DividesBound | src/Lesson11/Rational.kt:6-7 | between positive numbers a divisor is no larger than what it divides |
| Rationals.AbsTimes | src/Lesson11/Rational.kt:45-50 | the magnitude of a product with a positive factor is the product of magnitudes |
| Rationals.QuotExact | src/Lesson11/Rational.kt:49 | Kotlin's truncating division is exact when the divisor's magnitude divides |
| Rationals.NormalizeFacts | src/Lesson11/Rational.kt:45-50 | dividing both parts by the gcd carrying the denominator's sign gives a lowest-terms fraction with a positive denominator and the same value |
| Rationals.QuotientsValue | src/Lesson11/Rational.kt:48-49 | exact division of both parts by a common divisor with the denominator's sign keeps the value and makes the denominator positive |
| Rationals.QuotientsCoprime | src/Lesson11/Rational.kt:47-49 | dividing by the gcd, with either sign, leaves coprime quotients |
| Rationals.CreateNormalized | src/Lesson11/Rational.kt:45-50 | ArithmeticException exactly for a zero denominator; otherwise the lowest-terms fraction with a positive denominator equal to `num / den` |
| Rationals.MemberGcd | src/Lesson11/Rational.kt:33-39 | the private tail-recursive `gcd` computes what Euclid's loop of the companion object computes |
| Rationals.New | src/Lesson11/Rational.kt:99-112 | the public constructor normalises exactly as `createNormalized` does |
| Rationals.FromInt | src/Lesson11/Rational.kt:117 | the constructor from an integer gives `i/1` in lowest terms |
| Rationals.SameFractionTrans | src/Lesson11/Rational.kt:251-255 | equality of fractions by cross-multiplication is transitive through a non-zero denominator |
| Rationals.SameValueSame | src/Lesson11/Rational.kt:251-255 | two normalised fractions of the same value are the same pair |
| Rationals.EqualsIffSameValue | src/Lesson11/Rational.kt:251-255 | field-wise `equals` on normalised fractions is equality of value |
| Rationals.TwoFourthsIsOneHalf | src/Lesson11/Rational.kt:99-112 | `Rational(2, 4)` and `Rational(1, 2)` are both `1/2` |
| Rationals.NormalizeIdentity | src/Lesson11/Rational.kt:45-50 | normalising a normalised pair changes nothing |
| Rationals.ZeroUnique | src/Lesson11/Rational.kt:66 | zero has the single representation `0/1` |
| Rationals.AbsoluteValue | src/Lesson11/Rational.kt:138 | `abs()` is `abs(n)/d`, already in lowest terms |
| Rationals.Neg | src/Lesson11/Rational.kt:199 | unary minus is `-n/d`, already in lowest terms |
| Rationals.Reciprocal | src/Lesson11/Rational.kt:143 | ArithmeticException exactly for zero; otherwise the normalised `d/n` |
| Rationals.ReciprocalInvolution | src/Lesson11/Rational.kt:143 | taking the reciprocal twice gives the fraction back |
| Rationals.ProductNonZero | src/Lesson11/Rational.kt:225-226 | a product is zero exactly when a factor is |
| Rationals.Plus | src/Lesson11/Rational.kt:186-189 | the sum is normalised and has the value `(n1·d2 + d1·n2)/(d1·d2)` |
| Rationals.Minus | src/Lesson11/Rational.kt:204 | the difference is normalised and has the value `(n1·d2 - d1·n2)/(d1·d2)` |
| Rationals.Times | src/Lesson11/Rational.kt:214-215 | the product is normalised and has the value `(n1·n2)/(d1·d2)` |
| Rationals.Div | src/Lesson11/Rational.kt:225-226 | ArithmeticException exactly when dividing by zero; otherwise the normalised `(n1·d2)/(d1·n2)` |
| Rationals.PlusCommutes | src/Lesson11/Rational.kt:186-189 | addition does not depend on the order of its operands |
| Rationals.PlusZero | src/Lesson11/Rational.kt:186-189 | zero is neutral for addition |
| Rationals.MinusSelf | src/Lesson11/Rational.kt:204 | `a - a` is `ZERO` |
| Rationals.TimesCommutes | src/Lesson11/Rational.kt:214-215 | multiplication does not depend on the order of its operands |
| Rationals.DivUndoesTimes | src/Lesson11/Rational.kt:225-226 | division undoes multiplication by a non-zero fraction |
| Rationals.PowerOf | src/Lesson11/Rational.kt:148-162 | a power that succeeds is normalised; one that fails is an ArithmeticException |
| Rationals.Power | src/Lesson11/Rational.kt:148-162 | the `repeat` loop and the recursion through `reciprocal` compute `PowerOf` |
| Rationals.PowerValue | src/Lesson11/Rational.kt:148-162 | the zeroth power is `ONE`; a negative power of zero is exactly the failing case; otherwise the power has the value `(n/d)^exp` |
| Rationals.IsInteger | src/Lesson11/Rational.kt:167 | a fraction in lowest terms is an integer exactly when its denominator divides its numerator |
| Rationals.LowestTermsWhole | src/Lesson11/Rational.kt:167 | in lowest terms with a positive denominator, the denominator divides the numerator only when it is 1 |
| Rationals.TruncatedParts | src/Lesson11/Rational.kt:172 | Kotlin's `/` rounds toward zero: below the quotient for non-negative or exact dividends, above it otherwise |
| Rationals.Floor | src/Lesson11/Rational.kt:172 | the truncated quotient: the floor for a non-negative or whole value, the ceiling for a negative non-integer |
| Rationals.FloorFixed | src/Lesson11/Rational.kt:169-172 | the largest integer not above the value |
| Rationals.FloorOfMinusSevenThirds | src/Lesson11/Rational.kt:172 | `Rational(-7, 3).floor()` is -2 as written, -3 when corrected |
| Rationals.Ceil | src/Lesson11/Rational.kt:177-181 | the smallest integer not below the value |
| Rationals.SignMatch | src/Lesson11/Rational.kt:275-278 | equal products with positive factors have the same sign |
| Rationals.CompareTo | src/Lesson11/Rational.kt:275-278 | the sign of the result orders the fractions by value, and it is zero exactly for equal ones |
| Rationals.MinusSign | src/Lesson11/Rational.kt:275-278 | the numerator of `a - b` has the sign of `n1·d2 - n2·d1` |
| Rationals.Parse | src/Lesson11/Rational.kt:76-93 | a parsed fraction is normalised; a failure is a NumberFormatException, or an ArithmeticException only for a two-part text |
| Rationals.IntToStringShape | src/Lesson11/Rational.kt:266-270 | an integer's text starts with a sign or digit, ends with a digit and has no `/` |
| Rationals.ParseWhole | src/Lesson11/Rational.kt:79-83 | parsing an integer's text gives that integer |
| Rationals.SplitFraction | src/Lesson11/Rational.kt:77 | `"n/d"` trims to itself and splits into the two numbers' texts |
| Rationals.ParseFraction | src/Lesson11/Rational.kt:84-90 | parsing `"n/d"` normalises the pair, failing exactly for `d == 0` |
| Rationals.ToString | src/Lesson11/Rational.kt:266-270 | the text holds a `/` exactly when the denominator is not 1, and starts with `-` exactly for a negative numerator |
| Rationals.ParseToString | src/Lesson11/Rational.kt:266-270 | `parse` reads back what `toString` writes |
| FixedPoint.Pow10 | src/Lesson11/FixedPointNumber.kt:110-124 | the powers `10^0` to `10^9`; IllegalArgument exactly for any other power |
| FixedPoint.Scale | src/Lesson11/FixedPointNumber.kt:110-124 | for a power in range, `10^power`, which is positive |
| FixedPoint.ScaledAtLift | src/Lesson11/FixedPointNumber.kt:131-133 | rescaling to a higher precision multiplies by the power of ten between them |
| FixedPoint.Cancel | src/Lesson11/FixedPointNumber.kt:229-235 | a positive common factor cancels |
| FixedPoint.ScaleOrder | src/Lesson11/FixedPointNumber.kt:240-246 | a positive factor keeps order |
| FixedPoint.RoundingUnique | src/Lesson11/FixedPointNumber.kt:134-139 | only one integer is the quotient rounded half away from zero |
| FixedPoint.RoundingScaled | src/Lesson11/FixedPointNumber.kt:134-139 | scaling dividend and divisor alike does not change the rounded quotient |
| FixedPoint.PowTenEven | src/Lesson11/FixedPointNumber.kt:137 | powers of ten from `10^1` on are even, so half the factor is exact |
| FixedPoint.RescaleTo | src/Lesson11/FixedPointNumber.kt:129-142 | exact multiplication to a higher precision; to a lower one, the value rounded half away from zero |
| FixedPoint.RoundDown | src/Lesson11/FixedPointNumber.kt:136-138 | `(scaledValue ± factor/2) / factor` with truncating division rounds half away from zero |
| FixedPoint.FromInt | src/Lesson11/FixedPointNumber.kt:101-105 | the integer at precision zero |
| FixedPoint.Plus | src/Lesson11/FixedPointNumber.kt:150-156 | the exact sum at the larger precision |
| FixedPoint.Neg | src/Lesson11/FixedPointNumber.kt:161-163 | the negated value at every precision from its own on |
| FixedPoint.Minus | src/Lesson11/FixedPointNumber.kt:168-174 | the exact difference at the larger precision |
| FixedPoint.MinusIsPlusNeg | src/Lesson11/FixedPointNumber.kt:168-174 | subtraction is addition of the negation |
| FixedPoint.PlusValue | src/Lesson11/FixedPointNumber.kt:150-156 | the sum holds the exact sum of the values at every precision from the result's on |
| FixedPoint.PlusCommutes | src/Lesson11/FixedPointNumber.kt:150-156 | addition does not depend on the order of its operands |
| FixedPoint.Times | src/Lesson11/FixedPointNumber.kt:179-197 | at the larger precision, the exact product divided by `10^min(p1, p2)` with truncation toward zero |
| FixedPoint.TimesCommutes | src/Lesson11/FixedPointNumber.kt:179-197 | multiplication does not depend on the order of its operands |
| FixedPoint.TimesOne | src/Lesson11/FixedPointNumber.kt:179-197 | multiplying by the integer one changes nothing |
| FixedPoint.Equals | src/Lesson11/FixedPointNumber.kt:229-235 | two numbers are equal exactly when their values agree at nine fraction digits, whatever their precisions |
| FixedPoint.EqualsIffSameValue | src/Lesson11/FixedPointNumber.kt:229-235 | two numbers are equal exactly when their values agree at any common precision |
| FixedPoint.EqualsTransitive | src/Lesson11/FixedPointNumber.kt:229-235 | equality is transitive across precisions |
| FixedPoint.OnePointFiveEqualsOnePointFifty | src/Lesson11/FixedPointNumber.kt:229-235 | `1.5` and `1.50` are equal numbers |
| FixedPoint.CompareTo | src/Lesson11/FixedPointNumber.kt:240-246 | the result is -1, 0 or 1, zero exactly for equal numbers |
| FixedPoint.CompareToValue | src/Lesson11/FixedPointNumber.kt:240-246 | the comparison orders numbers by value at any common precision |
| FixedPoint.CompareToAntisymmetric | src/Lesson11/FixedPointNumber.kt:240-246 | swapping the operands negates the comparison |
| FixedPoint.HashKey | src/Lesson11/FixedPointNumber.kt:278-282 | up to six fraction digits the hashed `Long` is the scaled value itself, whatever the precision; beyond six it is the value rounded half away from zero to six digits |
| FixedPoint.HashKeyBreaksEquals | src/Lesson11/FixedPointNumber.kt:278-282 | the equal numbers `1.5` and `1.50` get the different hash keys 15 and 150 |
| FixedPoint.HashKeyFixedRounds | src/Lesson11/FixedPointNumber.kt:278-282 | rescaled always to six digits, the key is the value rounded at any precision from 6 on |
| FixedPoint.HashKeyFixedAgrees | src/Lesson11/FixedPointNumber.kt:278-282 | with the fixed standard precision, equal numbers have equal hash keys |
| FixedPoint.SplitHasSep | src/Lesson11/FixedPointNumber.kt:50 | a text containing the separator splits into at least two parts |
| FixedPoint.Scan | src/Lesson11/FixedPointNumber.kt:42-56 | the checks of the String constructor: a failure is a NumberFormatException; success gives signed digits and at most nine fraction digits |
| FixedPoint.Combine | src/Lesson11/FixedPointNumber.kt:58-68 | as written, the precision is the number of fraction digits and the result is a valid number |
| FixedPoint.CombineFixed | src/Lesson11/FixedPointNumber.kt:58-68 | with the sign taken from the text, the precision is the number of fraction digits and the result is a valid number |
| FixedPoint.FromString | src/Lesson11/FixedPointNumber.kt:41-78 | the String constructor as written fails exactly when the checks fail, otherwise combines the parts as written |
| FixedPoint.FromStringFixed | src/Lesson11/FixedPointNumber.kt:41-78 | the corrected String constructor fails exactly when the checks fail, otherwise combines the parts with the text's sign |
| FixedPoint.CombineDiffers | src/Lesson11/FixedPointNumber.kt:64-68 | the two combinations differ exactly for a negative zero integer part with a non-zero fraction |
| FixedPoint.FromStringDiffers | src/Lesson11/FixedPointNumber.kt:41-78 | the two readings of a text differ exactly when it has a negative zero integer part and a non-zero fraction |
| FixedPoint.ScanFraction | src/Lesson11/FixedPointNumber.kt:42-56 | a trimmed text of signed digits, `.` and fraction digits, nine digits at most, passes the checks |
| FixedPoint.ScanWhole | src/Lesson11/FixedPointNumber.kt:69-72 | a trimmed text of signed digits without `.`, nine digits at most, passes the checks |
| FixedPoint.NegativeZeroTrimmed | src/Lesson11/FixedPointNumber.kt:42 | `"-0.<digits>"` has nothing to trim |
| FixedPoint.NegativeZeroSplit | src/Lesson11/FixedPointNumber.kt:50-52 | `"-0.<digits>"` splits into `"-0"` and the digits |
| FixedPoint.ScanNegativeZero | src/Lesson11/FixedPointNumber.kt:42-56 | `"-0.<digits>"` passes the checks with integer part `"-0"` |
| FixedPoint.MinusZeroValue | src/Lesson11/FixedPointNumber.kt:61 | `"-0"` is signed digits of value zero |
| FixedPoint.MinusZeroCombined | src/Lesson11/FixedPointNumber.kt:64-68 | for a negative zero integer part the as-written combination adds the fraction and the corrected one subtracts it |
| FixedPoint.NegativeZeroReadPositive | src/Lesson11/FixedPointNumber.kt:61-68 | `"-0.5"` and the like are read as positive as written, as negative when corrected |
| FixedPoint.FractionTextValue | src/Lesson11/FixedPointNumber.kt:261-263 | the printed fraction has no trailing zero, at most `precision` digits, and scaled back is the remainder |
| FixedPoint.DigitsNoSign | src/Lesson11/FixedPointNumber.kt:44 | digits contain neither a sign nor a point |
| FixedPoint.MinusDigitsShape | src/Lesson11/FixedPointNumber.kt:256 | a minus sign before digits gives signed digits that start with the sign and end with a digit |
| FixedPoint.MinusDigitsValue | src/Lesson11/FixedPointNumber.kt:256 | signed digits with a minus sign read as the negated digits' value |
| FixedPoint.SignedTextShape | src/Lesson11/FixedPointNumber.kt:256-267 | a printed integer part is signed digits starting with its sign and ending with a digit |
| FixedPoint.SignedTextValue | src/Lesson11/FixedPointNumber.kt:256-267 | a printed integer part reads back as the signed value of its digits |
| FixedPoint.NegativeTextValue | src/Lesson11/FixedPointNumber.kt:256 | the same for a negative number |
| FixedPoint.PositiveTextValue | src/Lesson11/FixedPointNumber.kt:256 | the same for a number that is not negative |
| FixedPoint.IntegerPartValue | src/Lesson11/FixedPointNumber.kt:257-258 | the integer part is the magnitude divided by `10^precision` |
| FixedPoint.ToString | src/Lesson11/FixedPointNumber.kt:251-269 | the text is non-empty and starts with `-` exactly for a negative number |
| FixedPoint.ToStringPoint | src/Lesson11/FixedPointNumber.kt:251-269 | the text holds a `.` exactly when the number is not whole at its precision |
| FixedPoint.ToStringInteger | src/Lesson11/FixedPointNumber.kt:252-254 | at precision zero the text is the sign and the digits of the magnitude |
| FixedPoint.ToStringWhole | src/Lesson11/FixedPointNumber.kt:264-265 | when the fraction prints empty the text is the signed integer part alone |
| FixedPoint.ToStringWithFraction | src/Lesson11/FixedPointNumber.kt:266-267 | otherwise the text is the signed integer part, `.` and the fraction |
| FixedPoint.FractionDigitsValue | src/Lesson11/FixedPointNumber.kt:259-263 | the printed fraction, scaled back to the precision, is the remainder |
| FixedPoint.FractionDigitsShape | src/Lesson11/FixedPointNumber.kt:261-263 | the printed fraction is at most `precision` digits |
| FixedPoint.Untrimmed | src/Lesson11/FixedPointNumber.kt:42 | a text that starts with no whitespace and ends with a digit is its own trim |
| FixedPoint.ReadSigned | src/Lesson11/FixedPointNumber.kt:69-77 | signed digits without `.` read back at precision zero |
| FixedPoint.ReadWhole | src/Lesson11/FixedPointNumber.kt:69-77 | a printed whole number reads back at precision zero |
| FixedPoint.SplitAtPoint | src/Lesson11/FixedPointNumber.kt:50-52 | a text without `.`, then `.` and digits splits into those two parts |
| FixedPoint.SignedFractionText | src/Lesson11/FixedPointNumber.kt:42-52 | signed digits, `.` and fraction digits have nothing to trim and split at the `.` |
| FixedPoint.ScanSigned | src/Lesson11/FixedPointNumber.kt:42-56 | signed digits, `.` and fraction digits, nine digits at most, pass the checks |
| FixedPoint.ReadingWhole | src/Lesson11/FixedPointNumber.kt:251-268 | without a fraction the printed number is the signed whole number at precision zero |
| FixedPoint.CombineSigned | src/Lesson11/FixedPointNumber.kt:58-68 | the corrected combination puts the fraction on the side of the sign |
| FixedPoint.ReadSignedFraction | src/Lesson11/FixedPointNumber.kt:41-68 | signed digits, `.` and fraction digits are read by the corrected combination |
| FixedPoint.ReadIntegerAndFraction | src/Lesson11/FixedPointNumber.kt:41-68 | a printed integer part, `.` and fraction digits read back as the number they stand for |
| FixedPoint.ReadPrintedFraction | src/Lesson11/FixedPointNumber.kt:41-68 | a printed text with a fraction reads back as the number it stands for |
| FixedPoint.RoundTripInteger | src/Lesson11/FixedPointNumber.kt:252-254 | at precision zero the text reads back as the number itself |
| FixedPoint.ReadingScaled | src/Lesson11/FixedPointNumber.kt:58-68 | the number a printed text stands for, brought to a precision q |
| FixedPoint.Recombine | src/Lesson11/FixedPointNumber.kt:256-259 | quotient and remainder of the magnitude, put back together with the sign, give the scaled value |
| FixedPoint.RecombineReading | src/Lesson11/FixedPointNumber.kt:256-268 | the number a printed text stands for is the scaled value when the text holds its quotient and remainder |
| FixedPoint.RoundTripValue | src/Lesson11/FixedPointNumber.kt:251-268 | the number read back, brought to the original precision, is the original scaled value |
| FixedPoint.RoundTripNoFraction | src/Lesson11/FixedPointNumber.kt:264-265 | a text without a fraction reads back as an equal number |
| FixedPoint.RoundTripWithFraction | src/Lesson11/FixedPointNumber.kt:266-267 | a text with a fraction reads back as an equal number at the fraction's precision |
| FixedPoint.ToStringRoundTrip | src/Lesson11/FixedPointNumber.kt:251-268 | printing a number and reading it back with the corrected String constructor gives an equal number whenever the text has at most nine digits |
| Hex.Dist | src/Lesson8/task1/Hex.kt:16-23 | the distance is zero exactly for equal points and bounds all three cube-coordinate differences |
| Hex.DistSymmetric | src/Lesson8/task1/Hex.kt:16-23 | the distance does not depend on the order of the points |
| Hex.DistAtMost | src/Lesson8/task1/Hex.kt:16-23 | a bound on all three coordinate differences bounds the distance |
| Hex.DistTriangle | src/Lesson8/task1/Hex.kt:12-23 | the distance obeys the triangle inequality |
| Hex.DistOne | src/Lesson8/task1/Hex.kt:12-23 | a point is at distance one exactly when it is one of the six neighbouring offsets |
| Hex.HexagonDistance | src/Lesson8/task1/Hex.kt:46-55 | the distance between hexagons is non-negative and zero exactly when the centres are no further apart than the sum of the radii |
| Hex.HexagonDistanceSymmetric | src/Lesson8/task1/Hex.kt:46-55 | the distance between hexagons does not depend on their order |
| Hex.Contains | src/Lesson8/task1/Hex.kt:62-64 | a point is inside exactly when the one-hex hexagon at it is at distance 0 from the hexagon; the centre is inside exactly when the radius is not negative |
| Hex.HexagonDistanceBelow | src/Lesson8/task1/Hex.kt:38-55 | no point of one hexagon is closer to a point of the other than the distance between the hexagons |
| Hex.HexagonsMeet | src/Lesson8/task1/Hex.kt:38-55 | two hexagons with a common point are at distance 0 |
| Hex.IsValid | src/Lesson8/task1/Hex.kt:79-92 | a segment is valid exactly when it has positive length and runs along one of the three axes |
| Hex.ValidReversed | src/Lesson8/task1/Hex.kt:79-92 | a segment and its reverse are valid together |
| Hex.SegmentDirection | src/Lesson8/task1/Hex.kt:101-118 | the direction is INCORRECT exactly for an invalid segment, and it is never UP_RIGHT or DOWN_LEFT |
| Hex.SegmentEquals | src/Lesson8/task1/Hex.kt:120-121 | two segments are equal exactly when they have the same multiset of ends |
| Hex.SegmentEqualsEquivalence | src/Lesson8/task1/Hex.kt:120-121 | segment equality is an equivalence relation and a segment equals its reverse |
| Hex.SegmentHash | src/Lesson8/task1/Hex.kt:123-125 | every segment equal to the given one has the same sum of end hashes, so the hash agrees with `equals` |
| Hex.EqualSegmentsHashAlike | src/Lesson8/task1/Hex.kt:123-125 | equal segments have equal hashes, whatever the hash of hexes |
| Hex.EqualSegmentsValidAlike | src/Lesson8/task1/Hex.kt:120-121 | equal segments are valid together |
| Hex.Opposite | src/Lesson8/task1/Hex.kt:147-155 | the opposite is INCORRECT exactly for INCORRECT, and differs from every other direction |
| Hex.OppositeInvolution | src/Lesson8/task1/Hex.kt:147-155 | the opposite of the opposite is the direction itself |
| Hex.DirectionReversed | src/Lesson8/task1/Hex.kt:101-155 | reversing a segment gives the opposite direction |
| Hex.Ordinal | src/Lesson8/task1/Hex.kt:132-139 | the ordinals are 0 to 6, with 6 for INCORRECT alone |
| Hex.FromOrdinal | src/Lesson8/task1/Hex.kt:170-173 | `values()[i]` has ordinal i |
| Hex.Next | src/Lesson8/task1/Hex.kt:167-174 | IllegalArgument exactly for INCORRECT; otherwise the next of the six directions, cyclically |
| Hex.NextTimesOrdinal | src/Lesson8/task1/Hex.kt:167-174 | turning n times moves n places on among the six directions |
| Hex.ModSixShift | src/Lesson8/task1/Hex.kt:173 | one step on and n - 1 further is n steps on, modulo 6 |
| Hex.ModSixMultiple | src/Lesson8/task1/Hex.kt:173 | adding a multiple of 6 changes nothing modulo 6 |
| Hex.NextSixTimes | src/Lesson8/task1/Hex.kt:167-174 | any multiple of six turns gives the direction back |
| Hex.OrdinalInjective | src/Lesson8/task1/Hex.kt:132-139 | different directions have different ordinals |
| Hex.NextExamples | src/Lesson8/task1/Hex.kt:163 | RIGHT turns to UP_RIGHT, UP_LEFT to LEFT and LEFT to DOWN_LEFT |
| Hex.IsParallel | src/Lesson8/task1/Hex.kt:182-185 | INCORRECT is parallel to nothing |
| Hex.ParallelSymmetric | src/Lesson8/task1/Hex.kt:182-185 | parallelism does not depend on the order of the directions |
| Hex.ParallelOpposite | src/Lesson8/task1/Hex.kt:182-185 | a direction and its opposite are parallel to the same directions |
| Hex.Move | src/Lesson8/task1/Hex.kt:201-218 | IllegalArgument exactly for INCORRECT; a negative distance moves the opposite way |
| Hex.MoveZero | src/Lesson8/task1/Hex.kt:193 | a move by zero gives the same point |
| Hex.MoveBack | src/Lesson8/task1/Hex.kt:194-218 | a move by k and then by -k in the same direction returns to the start |
| Hex.MoveDisagreesWithDocumentation | src/Lesson8/task1/Hex.kt:196-218 | the documented moves of 35 UP_LEFT by 2 and 45 DOWN_LEFT by 4 do not hold as written, and a unit UP_RIGHT move goes two hexes away |
| Hex.DirectionDisagreesWithMove | src/Lesson8/task1/Hex.kt:101-218 | the segment from (0, 0) to (1, -1) runs DOWN_RIGHT, yet a DOWN_RIGHT move from its begin by its length misses its end |
| Hex.MoveFixed | src/Lesson8/task1/Hex.kt:188-218 | with the documented unit steps, IllegalArgument exactly for INCORRECT, and otherwise the point moved is exactly `abs(distance)` away |
| Hex.SegmentDirectionFixed | src/Lesson8/task1/Hex.kt:94-118 | the corrected direction is INCORRECT exactly for an invalid segment |
| Hex.MoveFixedExamples | src/Lesson8/task1/Hex.kt:196-199 | the three documented moves hold with the corrected steps |
| Hex.MoveAlongSegment | src/Lesson8/task1/Hex.kt:94-218 | with the corrections, moving from a valid segment's begin in its direction by its length reaches its end |
| Hex.NextRotates | src/Lesson8/task1/Hex.kt:157-174 | with the corrected steps, `next` turns the step by 60 degrees |
| Hex.OppositeFixed | src/Lesson8/task1/Hex.kt:141-155 | with the corrected steps, the opposite direction is the opposite step |
| Hex.ColumnNext | src/Lesson8/task1/Hex.kt:297-302 | the inner loop adds one candidate, kept when it is on the ring |
| Hex.SquareNext | src/Lesson8/task1/Hex.kt:296-303 | the outer loop adds one column of candidates |
| Hex.ColumnMembers | src/Lesson8/task1/Hex.kt:297-302 | the candidates of one column are exactly its hexes below the bound, on the ring when asked |
| Hex.SquareMembers | src/Lesson8/task1/Hex.kt:296-303 | the candidates of the first columns are exactly the hexes in that part of the square |
| Hex.CandidateMembers | src/Lesson8/task1/Hex.kt:296-303 | the candidates are the hexes at most r away along x and along y, on the ring exactly those at distance r |
| Hex.RingMembers | src/Lesson8/task1/Hex.kt:296-303 | the candidates on the ring are exactly the hexes at distance r |
| Hex.CollectCandidates | src/Lesson8/task1/Hex.kt:296-303 | the nested loops collect exactly the candidates, in the order visited |
| Hex.FirstOnBorder | src/Lesson8/task1/Hex.kt:306-307 | the first centre found is one with b and c at distance r, and none is found only when no centre has them both |
| Hex.FirstOnBorderStep | src/Lesson8/task1/Hex.kt:306-322 | looking one centre further keeps an earlier find or takes this centre when it qualifies |
| Hex.BorderHexagon | src/Lesson8/task1/Hex.kt:306-322 | a hexagon found for one radius has that radius |
| Hex.FirstFoundFrom | src/Lesson8/task1/Hex.kt:290-323 | what is kept was found at some radius below the bound |
| Hex.FirstFoundLeast | src/Lesson8/task1/Hex.kt:290-323 | a radius that finds a hexagon bounds the radius kept |
| Hex.FirstFoundNext | src/Lesson8/task1/Hex.kt:290-323 | one radius more keeps an earlier find or takes this radius's |
| Hex.FirstFoundStays | src/Lesson8/task1/Hex.kt:316 | once a hexagon is kept, later radii do not replace it |
| Hex.ScanBorder | src/Lesson8/task1/Hex.kt:306-322 | the scan over the centres of one radius keeps the best hexagon so far or takes the first whose border holds the three points |
| Hex.BorderStep | src/Lesson8/task1/Hex.kt:307-320 | one centre replaces the best hexagon only when all three points lie on its border and nothing smaller is kept |
| Hex.ScanRing | src/Lesson8/task1/Hex.kt:291-322 | one radius of the search: the ring's centres and the scan over them |
| Hex.HexagonByThreePoints | src/Lesson8/task1/Hex.kt:277-326 | three equal points give radius 0; otherwise the search result over the radii up to twice the largest distance |
| Hex.SearchRadii | src/Lesson8/task1/Hex.kt:290-323 | the radius loop finds the first hexagon at the smallest radius searched |
| Hex.BorderFromCenter | src/Lesson8/task1/Hex.kt:312-314 | points at distance r from a centre are r away measured from it |
| Hex.RingHexagonOnBorder | src/Lesson8/task1/Hex.kt:306-322 | the hexagon found on one ring has all three points on its border |
| Hex.RingHexagonFound | src/Lesson8/task1/Hex.kt:306-322 | a centre with all three points at distance r gives a hexagon of radius r |
| Hex.FoundOnBorder | src/Lesson8/task1/Hex.kt:290-323 | every hexagon the search finds has all three points on its border |
| Hex.FoundLeast | src/Lesson8/task1/Hex.kt:290-323 | the search finds a hexagon no larger than any radius whose ring holds a centre |
| Hex.FoundSmallest | src/Lesson8/task1/Hex.kt:265-269 | whenever a hexagon of a searched radius has the three points on its border, the search finds one of the smallest radius |
| Hex.ThroughOnBorder | src/Lesson8/task1/Hex.kt:265-326 | a hexagon through three points has all three exactly its radius from its centre |
| Hex.LowestIsLeast | src/Lesson8/task1/Hex.kt:353-358 | the lowest coordinate is no larger than any and is that of one of the hexes |
| Hex.HighestIsGreatest | src/Lesson8/task1/Hex.kt:353-358 | the highest coordinate is no smaller than any and is that of one of the hexes |
| Hex.ExtremesNext | src/Lesson8/task1/Hex.kt:353-358 | one hex more updates the minimum and maximum |
| Hex.BoundingBox | src/Lesson8/task1/Hex.kt:348-358 | the loop from `Int.MAX_VALUE` and `Int.MIN_VALUE` computes the bounding box of the hexes |
| Hex.FirstContaining | src/Lesson8/task1/Hex.kt:379-390 | the first centre found has a hexagon of radius r containing every hex, and none is found only when no centre has |
| Hex.FirstContainingStep | src/Lesson8/task1/Hex.kt:379-390 | looking one centre further keeps an earlier find or takes this centre when it qualifies |
| Hex.ContainingHexagon | src/Lesson8/task1/Hex.kt:379-390 | a hexagon found for one radius has that radius |
| Hex.ScanCenters | src/Lesson8/task1/Hex.kt:379-390 | the scan over the centres of one radius keeps the best hexagon so far or takes the first that contains every hex |
| Hex.ScanSquare | src/Lesson8/task1/Hex.kt:367-391 | one radius extends the search by that radius, and a hexagon kept has a radius no larger |
| Hex.FoundContainingStays | src/Lesson8/task1/Hex.kt:387 | once a hexagon is kept, further radii do not change it |
| Hex.SquareStep | src/Lesson8/task1/Hex.kt:366-397 | one radius of the loop, and the loop stops exactly once the radius exceeds that of the hexagon found, with the final answer already in hand |
| Hex.SearchSquares | src/Lesson8/task1/Hex.kt:366-397 | the radius loop with its early exit gives the result of searching every radius up to the limit |
| Hex.CornerContainsAll | src/Lesson8/task1/Hex.kt:364 | every hex lies in the hexagon of the limiting radius around the corner of the bounding box |
| Hex.CenterNearCorner | src/Lesson8/task1/Hex.kt:370-376 | the centre of a hexagon containing every hex is within its radius of the corner along x and y |
| Hex.SquareHexagonContains | src/Lesson8/task1/Hex.kt:379-390 | a hexagon found for a radius contains every hex |
| Hex.SquareHexagonFound | src/Lesson8/task1/Hex.kt:371-390 | a hexagon containing every hex, centred in the square of its radius, is found at its radius |
| Hex.FoundContainingAll | src/Lesson8/task1/Hex.kt:366-397 | what the search keeps contains every hex and has a radius below the bound |
| Hex.FoundContainingLeast | src/Lesson8/task1/Hex.kt:366-397 | any hexagon containing every hex centred in the square of its radius bounds the radius the search keeps |
| Hex.FoundContainingBeats | src/Lesson8/task1/Hex.kt:366-397 | the hexagon kept is no larger than any containing hexagon centred in the square of its radius |
| Hex.SquareSearchSmallest | src/Lesson8/task1/Hex.kt:329-336 | when the largest radius searched suffices, the search keeps a hexagon no larger than any hexagon containing every hex |
| Hex.SquareSearchContains | src/Lesson8/task1/Hex.kt:366-399 | when the largest radius searched suffices, the search keeps a hexagon containing every hex |
| Hex.SingleHexagon | src/Lesson8/task1/Hex.kt:343-345 | a single hex lies in the hexagon of radius 0 around it, the smallest possible |
| Hex.BoxSearch | src/Lesson8/task1/Hex.kt:347-399 | the bounding box and the search around its corner always find a hexagon of the smallest radius containing every hex |
| Hex.MinContainingHexagon | src/Lesson8/task1/Hex.kt:338-400 | IllegalArgument exactly for no hexes, radius 0 for one, otherwise a hexagon of the smallest radius containing them all |
| Regex.DigitRun | src/Lesson10/task1/Regex.kt:180-183 | the run of digits at the start of a text: all digits, and stopped by a non-digit or the end |
| Regex.Tokens | src/Lesson10/task1/Regex.kt:168-196 | a failure is an IllegalArgumentException; success gives tokens that are each a digit run or one operator character |
| Regex.TokensStep | src/Lesson10/task1/Regex.kt:172-193 | a space is skipped, and any other allowed character starts exactly one token before tokenizing resumes |
| Regex.ReadNumber | src/Lesson10/task1/Regex.kt:179-183 | the inner loop reads exactly the run of digits at i |
| Regex.Tokenize | src/Lesson10/task1/Regex.kt:168-196 | the loop computes `Tokens` of the whole text |
| Regex.TokensFailIff | src/Lesson10/task1/Regex.kt:187-191 | tokenizing fails exactly when some character is neither a space, a digit nor an operator |
| Regex.DigitRunAppend | src/Lesson10/task1/Regex.kt:180 | appending text does not lengthen a digit run that ends before it |
| Regex.TokensAppend | src/Lesson10/task1/Regex.kt:168-196 | tokenizing two texts in turn gives the tokens of each, unless a digit run crosses the boundary |
| Regex.FirstTokenAppend | src/Lesson10/task1/Regex.kt:168-196 | the first token of `a + b` is the first token of `a` when no digit run crosses the boundary |
| Regex.SliceAppend | src/Lesson10/task1/Regex.kt:168-196 | slicing a concatenation within its first part slices that part |
| Regex.AppendBoth | src/Lesson10/task1/Regex.kt:184-188 | appending a token and then the rest equals joining the tokens read so far with the rest |
| Regex.PrependBoth | src/Lesson10/task1/Regex.kt:184-188 | prepending a token distributes over joining two token lists |
| Regex.TokensOfDigits | src/Lesson10/task1/Regex.kt:178-186 | an unbroken run of digits is a single token |
| Regex.ConcatPrepend | src/Lesson10/task1/Regex.kt:168-196 | writing out a token list starting with t starts with t |
| Regex.RemoveSpacesAppend | src/Lesson10/task1/Regex.kt:174-177 | removing spaces distributes over concatenation |
| Regex.TokensConcat | src/Lesson10/task1/Regex.kt:168-196 | the tokens written one after another are the input without its spaces |
| Regex.OperationOf | src/Lesson10/task1/Regex.kt:126 | the operation a token names, which prints back as that token |
| Regex.OpSymbol | src/Lesson10/task1/Regex.kt:207-213 | each operation prints as one operator character other than `x` and the parentheses |
| Regex.OpSymbolNamesOperation | src/Lesson10/task1/Regex.kt:126 | the printed symbol of an operation names that operation |
| Regex.ExpressionAt | src/Lesson10/task1/Regex.kt:29-42 | a successful `parseExpression` consumes at least one token and stays within the tokens |
| Regex.ExpressionTail | src/Lesson10/task1/Regex.kt:31-41 | the loop of `parseExpression` never moves backwards or past the end |
| Regex.ItemAt | src/Lesson10/task1/Regex.kt:44-57 | a successful `parseItem` consumes at least one token and stays within the tokens |
| Regex.ItemTail | src/Lesson10/task1/Regex.kt:46-56 | the loop of `parseItem` never moves backwards or past the end |
| Regex.FactorAt | src/Lesson10/task1/Regex.kt:59-83 | a successful `parseFactor` consumes at least one token and stays within the tokens |
| Regex.Parser.constructor | src/Lesson10/task1/Regex.kt:20-21 | a new parser holds the tokens and starts at position 0 |
| Regex.Parser.Parse | src/Lesson10/task1/Regex.kt:23-27 | the method gives the result of the recursive definition from the current position |
| Regex.Parser.ParseExpression | src/Lesson10/task1/Regex.kt:29-42 | the method agrees with `ExpressionAt` on the tree and on the position it leaves |
| Regex.Parser.ParseItem | src/Lesson10/task1/Regex.kt:44-57 | the method agrees with `ItemAt` on the tree and on the position it leaves |
| Regex.Parser.ParseFactor | src/Lesson10/task1/Regex.kt:59-83 | the method agrees with `FactorAt` on the tree and on the position it leaves |
| Regex.ParseExpression | src/Lesson10/task1/Regex.kt:159-163 | tokenizing and parsing a text gives `ExpressionOf` it |
| Regex.ExprToString | src/Lesson10/task1/Regex.kt:201-217 | the printed text is non-empty and uses only characters the tokenizer accepts |
| Regex.IntToStringAllowed | src/Lesson10/task1/Regex.kt:204 | a printed integer uses only characters the tokenizer accepts |
| Regex.TokensOfOperator | src/Lesson10/task1/Regex.kt:187-190 | one operator character is one token |
| Regex.OpenTokens | src/Lesson10/task1/Regex.kt:214 | `(l op ` tokenizes as the parenthesis, the tokens of l and the operator |
| Regex.BinaryTokens | src/Lesson10/task1/Regex.kt:206-215 | a binary node prints as the tokens of its parts between the operator and the parentheses |
| Regex.ExprToStringTokens | src/Lesson10/task1/Regex.kt:201-217 | tokenizing what `exprToString` prints gives the token list of the tree |
| Regex.TokensAtSplit | src/Lesson10/task1/Regex.kt:20-21 | tokens that stand at p split into two parts standing one after the other |
| Regex.TokensAtOne | src/Lesson10/task1/Regex.kt:20-21 | a single token standing at p is the token there |
| Regex.NumberToken | src/Lesson10/task1/Regex.kt:71 | a printed non-negative number is read back as that number and is no other kind of token |
| Regex.FactorAtVariable | src/Lesson10/task1/Regex.kt:62 | `x` is read as the variable |
| Regex.FactorAtNumber | src/Lesson10/task1/Regex.kt:70-81 | a number not followed by `^` is read as a constant |
| Regex.FactorAtMinus | src/Lesson10/task1/Regex.kt:63 | `-` negates the following factor |
| Regex.FactorAtParen | src/Lesson10/task1/Regex.kt:64-69 | `(` reads an expression and then the closing parenthesis |
| Regex.FactorAtPower | src/Lesson10/task1/Regex.kt:73-78 | a number followed by `^` is raised to the following factor |
| Regex.ItemAtFactor | src/Lesson10/task1/Regex.kt:44-45 | `parseItem` starts with one factor and goes on with its loop |
| Regex.ItemTailStop | src/Lesson10/task1/Regex.kt:53 | the loop of `parseItem` stops at a token that is not `*` or `/` |
| Regex.ItemTailStep | src/Lesson10/task1/Regex.kt:48-52 | `*` or `/` joins the next factor to the item so far, grouped to the left |
| Regex.ExpressionAtItem | src/Lesson10/task1/Regex.kt:29-30 | `parseExpression` starts with one item and goes on with its loop |
| Regex.ExpressionTailStop | src/Lesson10/task1/Regex.kt:38 | the loop of `parseExpression` stops at a token that is not `+` or `-` |
| Regex.ExpressionTailStep | src/Lesson10/task1/Regex.kt:33-37 | `+` or `-` joins the next item to the expression so far, grouped to the left |
| Regex.ExpressionOfFactor | src/Lesson10/task1/Regex.kt:29-57 | a factor followed by a token neither loop reads is a whole item and a whole expression |
| Regex.PowerThenClose | src/Lesson10/task1/Regex.kt:73-78 | in `n ^ r)` the power is read inside the factor |
| Regex.ItemThenClose | src/Lesson10/task1/Regex.kt:44-57 | in `l * r)` or `l / r)` the operation is read by the loop of `parseItem` |
| Regex.SumThenClose | src/Lesson10/task1/Regex.kt:29-42 | in `l + r)` or `l - r)` the operation is read by the loop of `parseExpression` |
| Regex.NegateLayout | src/Lesson10/task1/Regex.kt:205 | where the parts of a printed negation stand among the tokens |
| Regex.ParenLayout | src/Lesson10/task1/Regex.kt:64-66 | the body of a parenthesised group stands right after the `(` |
| Regex.BinaryLayout | src/Lesson10/task1/Regex.kt:214 | where the parts of a printed binary node stand among the tokens |
| Regex.FactorParses | src/Lesson10/task1/Regex.kt:59-83 | the printed tokens of a tree, read as a factor, give the tree back |
| Regex.NegateParses | src/Lesson10/task1/Regex.kt:63 | the printed tokens of a negation, read as a factor, give the negation back |
| Regex.ParenthesisedParses | src/Lesson10/task1/Regex.kt:64-69 | the printed tokens of a binary node, read as a factor, give the node back |
| Regex.ParenParses | src/Lesson10/task1/Regex.kt:29-42 | the printed tokens of a tree, read as an expression that stops before a non-operator, give the tree back |
| Regex.BinaryParses | src/Lesson10/task1/Regex.kt:29-83 | the tokens of `l op r)` read as an expression give the binary node |
| Regex.PowerParses | src/Lesson10/task1/Regex.kt:73-78 | the tokens of `n ^ r)` read as an expression give the power node |
| Regex.OperatorParses | src/Lesson10/task1/Regex.kt:29-57 | the tokens of `l op r)` for an operation other than `^` read as an expression give the node |
| Regex.ParseTokensRoundTrip | src/Lesson10/task1/Regex.kt:23-83 | a printable tree's tokens parse back to the tree |
| Regex.RoundTrip | src/Lesson10/task1/Regex.kt:159-217 | `parseExpression(exprToString(e)) == e` for every printable tree |
| Regex.ThreeLayout | src/Lesson10/task1/Regex.kt:29-57 | where the three operands and two operations of `a op1 b op2 c` stand among the tokens |
| Regex.TokensAtPrefix | src/Lesson10/task1/Regex.kt:20-21 | the two halves of a concatenated token list stand one after the other |
| Regex.ItemOfFactor | src/Lesson10/task1/Regex.kt:44-57 | a factor followed by `+`, `-` or the end is a whole item |
| Regex.SumSum | src/Lesson10/task1/Regex.kt:29-42 | in `a + b + c` both operations are read by the loop of `parseExpression`, the first grouped first |
| Regex.ProductSum | src/Lesson10/task1/Regex.kt:29-57 | in `a * b + c` the product is one item of the sum |
| Regex.SumProduct | src/Lesson10/task1/Regex.kt:29-57 | in `a + b * c` the product is the right item of the sum |
| Regex.ProductProduct | src/Lesson10/task1/Regex.kt:44-57 | in `a * b * c` both operations are read by the loop of `parseItem`, the first grouped first |
| Regex.ExpressionOfItem | src/Lesson10/task1/Regex.kt:29-42 | an item that takes every token is the whole expression |
| Regex.ThreeOperands | src/Lesson10/task1/Regex.kt:29-57 | in `a op1 b op2 c` the tighter operation is grouped first, and of two alike the left one |
| Regex.FactorsOfThree | src/Lesson10/task1/Regex.kt:29-57 | the three operands of `a op1 b op2 c` each parse as a factor in their places |
| Regex.FactorFailure | src/Lesson10/task1/Regex.kt:29-60 | a factor that fails makes the item, the expression and the whole parse fail the same way |
| Regex.NegationBindsTightly | src/Lesson10/task1/Regex.kt:63 | in `-a op b` the minus sign negates the factor a only |
| Regex.NegatedOperand | src/Lesson10/task1/Regex.kt:29-63 | a negated factor followed by an operation and a factor parses as the operation on the negation |
| Regex.PowerRightAssociative | src/Lesson10/task1/Regex.kt:73-78 | `n ^ m ^ c` is read from the right |
| Regex.LeftoverTokensFail | src/Lesson10/task1/Regex.kt:23-27 | IllegalState when tokens remain that neither loop reads |
| Regex.ParenthesisUnclosed | src/Lesson10/task1/Regex.kt:64-66 | an opening parenthesis never closed reads past the end, an IndexOutOfBounds failure |
| Regex.ParenthesisWrongCloser | src/Lesson10/task1/Regex.kt:64-69 | another token than `)` where the group ends is an IllegalState failure |
| Regex.Wrap | src/Lesson10/task1/Regex.kt:138-140 | a Kotlin `Int` result is the exact result modulo 2^32, and unchanged when it is in range |
| Regex.Saturate | src/Lesson10/task1/Regex.kt:150 | `Double.toInt()` of a whole number is the `Int` nearest to it |
| Regex.Apply | src/Lesson10/task1/Regex.kt:137-152 | ArithmeticException exactly for division by zero and a negative exponent; `+`, `-`, `*` wrap around; `/` truncates toward zero; an exact power in range is returned as is |
| Regex.QuotBound | src/Lesson10/task1/Regex.kt:144 | the quotient of two `Int`s is an `Int`, except `Int.MIN_VALUE / -1` |
| Regex.DivAtMost | src/Lesson10/task1/Regex.kt:144 | dividing by a positive number does not increase a natural number |
| Regex.DivMonotone | src/Lesson10/task1/Regex.kt:144 | dividing by at least 2 gives at most half |
| Regex.Calculate | src/Lesson10/task1/Regex.kt:132-154 | every failure of `calculate` is an ArithmeticException |
| Regex.CongruentWitness | src/Lesson10/task1/Regex.kt:138-140 | congruence modulo 2^32 has a witness multiple |
| Regex.CongruentOf | src/Lesson10/task1/Regex.kt:138-140 | a multiple of 2^32 apart is congruent |
| Regex.CongruentSum | src/Lesson10/task1/Regex.kt:138-139 | congruence is kept by addition and subtraction |
| Regex.CongruentProduct | src/Lesson10/task1/Regex.kt:140 | congruence is kept by multiplication |
| Regex.CalculateRingOnly | src/Lesson10/task1/Regex.kt:132-140 | without `/` and `^` the evaluation never throws and is the exact value modulo 2^32 |
| Regex.NegateCongruent | src/Lesson10/task1/Regex.kt:136 | wrapped negation keeps congruence |
| Regex.ApplyCongruent | src/Lesson10/task1/Regex.kt:138-140 | `+`, `-` and `*` never throw and keep congruence |
| Regex.CongruentTransitive | src/Lesson10/task1/Regex.kt:138-140 | congruence modulo 2^32 is transitive |
| Regex.CalculateNegateTwice | src/Lesson10/task1/Regex.kt:136 | negating twice gives the value back, `Int.MIN_VALUE` included |
| Regex.CalculateIgnoresVariable | src/Lesson10/task1/Regex.kt:132-154 | a tree without `x` has the same value, or the same failure, whatever `x` is |
| Html.StringBuilder.constructor | src/Lesson10/task2/Html.kt:20 | a new builder holds the empty text |
| Html.StringBuilder.Append | src/Lesson10/task2/Html.kt:46-48 | appending adds the given text at the end and changes nothing before it |
| Html.AppendItems | src/Lesson10/task2/Html.kt:24-28 | the loop writes `<li>item</li>` for every item, in order, after what the builder held |
| Html.BuildListPage | src/Lesson10/task2/Html.kt:19-33 | the page is `<html><body>`, the optional heading, the list's opening tag, the items, its closing tag and `</body></html>` |
| Html.GenerateListHtml | src/Lesson10/task2/Html.kt:19-33 | the result is the ordered-list page of the items (read back by `ListHtmlRoundTrip`) |
| Html.GenerateUnorderedListHtml | src/Lesson10/task2/Html.kt:98-112 | the result is the same page with `<ul>` in place of `<ol>` |
| Html.GenerateListWithTitleHtml | src/Lesson10/task2/Html.kt:117-132 | the result is the ordered-list page with `<h1>title</h1>` first in the body |
| Html.GenerateUnorderedListWithTitleHtml | src/Lesson10/task2/Html.kt:137-152 | the result is the unordered-list page with `<h1>title</h1>` first in the body |
| Html.AppendNestedItems | src/Lesson10/task2/Html.kt:162-175 | the loop writes every main item with its sub-list, in order |
| Html.GenerateNestedListHtml | src/Lesson10/task2/Html.kt:157-180 | the result is the nested-list page (without sub-items it is the plain list, by `NestedWithoutSubLists`) |
| Html.AppendNestedItem | src/Lesson10/task2/Html.kt:163-174 | one main item: its text, then a `<ul>` of its sub-items only when there are any, inside `<li>`…`</li>` |
| Html.OpenPage | src/Lesson10/task2/Html.kt:83-89 | a fresh builder holding `<html><body>` and the opening text |
| Html.ClosePage | src/Lesson10/task2/Html.kt:35-43 | the closing text, `</body>` and `</html>` are added at the end |
| Html.AppendDescriptions | src/Lesson10/task2/Html.kt:190-193 | the loop writes `<dt>term</dt><dd>description</dd>` for each pair, in order |
| Html.GenerateDescriptionListHtml | src/Lesson10/task2/Html.kt:185-198 | the result is the page with a `<dl>` of the pairs |
| Html.AppendStyledItem | src/Lesson10/task2/Html.kt:210-211 | one `<li>` carrying ` class="…"` only when the item class is not empty |
| Html.AppendStyledItems | src/Lesson10/task2/Html.kt:209-212 | the loop writes every styled item, in order |
| Html.GenerateStyledListHtml | src/Lesson10/task2/Html.kt:203-217 | the result is the styled page (without classes it is the plain ordered list, by `StyledWithoutClasses`) |
| Html.TextLength | src/Lesson10/task2/Html.kt:78-80 | the length of the text before the first `<`: that prefix has no `<` and is followed by `<` or the end |
| Html.ItemsCons | src/Lesson10/task2/Html.kt:24-28 | the first item's `<li>…</li>` comes first in the written items |
| Html.DecodeItemsRoundTrip | src/Lesson10/task2/Html.kt:24-28 | items holding no `<` are read back exactly from the text the loop writes |
| Html.ListHtmlRoundTrip | src/Lesson10/task2/Html.kt:19-33 | the page of items without `<` gives back exactly those items in that order |
| Html.ListHtmlFrame | src/Lesson10/task2/Html.kt:19-33 | the page is `<html><body><ol>`, the items, and `</ol></body></html>` |
| Html.ListHtmlInjective | src/Lesson10/task2/Html.kt:19-33 | two lists of items without `<` that give the same page are the same list |
| Html.ItemsAreNotEscaped | src/Lesson10/task2/Html.kt:77-81 | item text is written unescaped: the item `a</li><li>b` gives the same page as the items `a` and `b` |
| Html.TitleAfterBody | src/Lesson10/task2/Html.kt:121 | the title variants insert `<h1>title</h1>` right after `<html><body>` and change nothing else |
| Html.MainTexts | src/Lesson10/task2/Html.kt:162 | one text per main item, in order: the text of that item |
| Html.NestedWithoutSubLists | src/Lesson10/task2/Html.kt:165 | when no main item has sub-items the nested page equals the plain ordered list of the main texts |
| Html.NestedItemsFlat | src/Lesson10/task2/Html.kt:162-175 | without sub-items the nested items are written exactly as plain items |
| Html.StyledWithoutClasses | src/Lesson10/task2/Html.kt:207-210 | with both classes empty the styled page equals the plain ordered list |
| Html.StyledItemsPlain | src/Lesson10/task2/Html.kt:210-211 | with an empty item class each styled item is a plain `<li>` |
| Html.DescriptionsCons | src/Lesson10/task2/Html.kt:190-193 | the first pair's `<dt>`/`<dd>` comes first in the written descriptions |

## Left out

- Kotlin `Int` and `Long` wrap-around are not modelled, except by `Regex.Calculate`, which wraps `Int` through `Regex.Wrap`. Elsewhere arithmetic is on unbounded integers, so a result that would overflow in Kotlin is the mathematical one.
- FixedPoint.RescaleTo: gives the exact scaled value, where Kotlin's `Long` product `scaledValue * pow10(...)` (src/Lesson11/FixedPointNumber.kt:131-133) wraps past ±2^63.
- FixedPoint.Plus: gives the exact sum, where Kotlin's `Long` `+` (src/Lesson11/FixedPointNumber.kt:155) wraps past ±2^63.
- FixedPoint.Minus: gives the exact difference, where Kotlin's `Long` `-` (src/Lesson11/FixedPointNumber.kt:173) wraps past ±2^63.
- FixedPoint.Times: gives the exact truncated product, where Kotlin's `(multiplication / divisor).toLong()` (src/Lesson11/FixedPointNumber.kt:193-194) keeps only the low 64 bits. For example, 10^10 at precision 0 times itself is 10^20 in the model and 7766279631452241920 in Kotlin.
- Floating-point code: `sin`/`cos` (src/Lesson3/Loop.kt), `abs`/`mean`/`center` (src/Lesson4/List.kt), `averageStockPrice`/`findCheapestStuff` (src/Lesson5/Map.kt), `mostExpensive` (src/Lesson6/Parse.kt) and the `Double` exercises of src/Lesson1/Simple.kt and src/Lesson2. `Double` arithmetic has no exact Dafny counterpart.
- `collatzSteps` (src/Lesson3/Loop.kt:92-106): whether its loop terminates is the open Collatz problem, so no total Dafny method can model it.
- File I/O (src/Lesson7/Files.kt), the `main` demonstration functions and `String.format` beyond the `%02d` day and month of `dateStrToDigit`.
- `hashCode` implementations: element hashes are a constructor parameter of `OpenHashSet`, and the set's own `hashCode` depends on slot order.
- `OpenHashSets.OpenHashSet.constructor`: requires a capacity of at least 2, because `hash2` divides by `capacity - 1` on every probing call; `hash2`'s value itself is never used and is not modelled.
- The iteration order of a Kotlin `HashMap` or `HashSet` is not specified; where it shows in a result (`buildGrades`, `propagateHandshakes`) it is the order of a sequence of entries or an explicit `order` parameter.
- Unicode: `isDigit`, `isLetter`, `isWhitespace` and `lowercase` cover ASCII and the basic Cyrillic letters only.
- Lists.Convert: requires `base > 1` as its documentation states; Kotlin divides by zero for base 0 and loops forever for base 1.
- Lists.ConvertToString: requires `1 < base < 37` as its documentation states; larger bases index past the digit alphabet.
- `OpenHashSet<T>` admits a nullable `T` and compares elements with Kotlin `equals`; the model has no null element and compares with Dafny `==`, which for the element types used is structural equality.
- `Rational`: `toDouble` and `toFloat` (floating point); `hashCode`; the `Int` overloads of `+`, `-`, `*`, `/` and the `Int` comparison helpers (src/Lesson11/Rational.kt:194-231 and 284-298), which only wrap their `Int` argument with the one-argument constructor (`Rationals.FromInt`) and call the `Rational` operation; `toInt` is the same expression as `floor` and is `Rationals.Floor`.
- `FixedPointNumber`: the `Double` constructor, `div` and `toDouble` compute through `Double`. `times` takes its `Double` branch only when the two precisions sum to more than 18, which no number of at most 9 fraction digits reaches, so `FixedPoint.Times` models the exact `BigInteger` branch.
- `Hex`: `pathBetweenHexes` (src/Lesson8/task1/Hex.kt:238-260) steps along a line with `Double` rounding; the `toString` methods of the point, hexagon and segment are not modelled.
- Hex.HexagonByThreePoints: requires the largest searched radius to fit in a Kotlin `Int` (`MaxThroughRadius < IntMax`); beyond it the Kotlin loop bounds overflow.
- Hex.MinContainingHexagon: requires the search square around the points to fit in a Kotlin `Int` (`SquareSearchFits`), for the same reason.
- `PhoneBook`: `hashCode` and `toString` are not modelled.
- Graphs.Graph.AddVertex: adding a name that is already present gives it an empty neighbour list, as Kotlin's `vertices[name] = Vertex(name)` does. The model does not capture what the other vertices keep: their neighbour sets still hold the OLD `Vertex` object, with its old `neighbors` (src/Lesson8/task3/Graph.kt:3-5, 11-13). Kotlin's `bfs` and `dfs` still follow the old edges through that object, while the model looks neighbours up by name and sees the new, empty list. For example, with edges a–v–b and then `addVertex("v")`, Kotlin's `bfs("a", "b")` is 2 and the model's `BreadthFirst` gives -1.
- `TrainTimeTable`: `Time.isBefore`, `isAfter` and `isSame` are `Compare` below, above or equal to zero and have no members of their own; `Time.toString`, the timetable's `hashCode` and `toString` are not modelled.
- TrainTimeTables.TrainTimeTable.AllTrains: `trains()` lists trains with equal departure times in the insertion order of Kotlin's `LinkedHashMap`; the model's map has no insertion order, and its contract leaves the order among equal departures open.
- TrainTimeTables.SortBy: Kotlin's `sortedBy` is a stable sort; the model uses a stable insertion sort, and that any two stable sorts give the same list is not proved.
- `Matrix`: `toString` and `hashCode` are not modelled; `equals` is modelled for a `MatrixImpl` argument, and the `other !is MatrixImpl` branch that answers false is not. The element type of `MatrixImpl<E>` is any type with equality.
- Matrices (every operation that reads a matrix argument): requires every cell of the argument to be written (`Full`); Kotlin's `get` throws NoSuchElementException when one of them reads an empty cell, and that exception is not modelled for these operations.
- `times` on `Matrix<Int>` (src/Lesson9/task2/Matrices.kt:369-389) has the same checks and loops as `multiplyMatrices` (src/Lesson9/task1/Matrix.kt:253-274) and is modelled once, by `Matrix.MultiplyMatrices`.
- `Regex`: `parseExponentiation` and `parsePrimary` (src/Lesson10/task1/Regex.kt:93-124) are never called by `parse` and are not modelled. The tokenizer's inner loop uses `isDigit`, which also accepts non-ASCII digits; the model accepts ASCII digits only. The exception messages are not modelled, only the exception classes.
- Regex.Calculate: its own contract states only that a failure is an ArithmeticException; what it computes is stated by the lemmas beside it. `POW` goes through `Double.pow` and `toInt`, modelled as the exact power clamped to the `Int` range (`Regex.Saturate`), which agrees with the `Double` result only while that result is exact.
- Regex.RoundTrip: holds for trees whose constants are not negative and whose powers have a constant base (`Printable`); `-5` prints as `-5` and parses back as `Negate(5)`, and the parser reads `^` only after a number.
- `Html`: the builder classes `HTML`, `HTMLBody`, `HTMLList` and `HTMLItem` and their lambdas are inlined into the methods that append to the one `StringBuilder`; `main` and its `validateHtml` are not modelled.

## Findings

| source | as written | input that shows it | evidently intended | confidence | as-written member | corrected member |
|---|---|---|---|---|---|---|
| src/Lesson5/Map.kt:312-321 | the fixpoint loop repeats only while some set grew in size during a pass | distinct `a`, `b`, `c`, `d` with `a` knowing `a` and `b`, `b` knowing `b` and `c`, `c` knowing `d`, `d` knowing nobody, visited in that order: after one pass `a` holds `b`, `c` and `b` holds `c`, `d`, no set grew because each lost itself, and the loop stops although `a` reaches `d` | repeat while any set changed, so that every person ends with everyone reachable by handshakes | not executed | Handshakes.SelfHandshakeStopsEarly | Handshakes.PropagateHandshakesFixed |
| src/Lesson11/Rational.kt:172 | `floor()` is the `Int` quotient `numerator / denominator`, which truncates toward zero | `Rational(-7, 3).floor()` gives -2, which lies above -7/3 | the largest integer not above the value, -3 | not executed | Rationals.FloorOfMinusSevenThirds | Rationals.FloorFixed |
| src/Lesson11/FixedPointNumber.kt:64-68 | the String constructor takes the sign from the integer part read as a `Long`, `integer >= 0` | `"-0.5"`: the integer part `-0` reads as 0, so the fraction is added and the number is +0.5 | the sign of the text's minus sign, giving -0.5, so that reading what `toString` prints gives the number back | not executed | FixedPoint.NegativeZeroReadPositive | FixedPoint.ToStringRoundTrip |
| src/Lesson11/FixedPointNumber.kt:278-282 | `hashCode` rescales to `min(precision, 6)` before hashing | 1.5 at precision 1 and 1.50 at precision 2 are equal, but hash the `Long`s 15 and 150 | rescale every number to the one standard precision 6, so that equal numbers have equal hashes | not executed | FixedPoint.HashKeyBreaksEquals | FixedPoint.HashKeyFixedAgrees |
| src/Lesson8/task1/Hex.kt:209-217 | `move` steps UP_RIGHT by `(+d, +d)`, UP_LEFT by `(0, +d)`, DOWN_LEFT by `(-d, -d)` and DOWN_RIGHT by `(0, -d)` | the documented `35` moved UP_LEFT by 2 gives `55` instead of `53`, and a move UP_RIGHT by one lands two hexes away | the unit steps of the hexagonal grid, so that a move by d lands at distance d and the documented examples hold | not executed | Hex.MoveDisagreesWithDocumentation | Hex.MoveFixed |
| src/Lesson8/task1/Hex.kt:101-118 | `direction` names `(0, +)` UP_LEFT and `(+, -)` DOWN_RIGHT, and never answers UP_RIGHT or DOWN_LEFT for a valid segment | the valid segment from `(0, 0)` to `(1, -1)` is DOWN_RIGHT, but moving DOWN_RIGHT by its length from its begin reaches `(0, -1)` | the direction whose unit step runs along the segment, so that moving from the begin in that direction by the length reaches the end | not executed | Hex.DirectionDisagreesWithMove | Hex.MoveAlongSegment |
| src/Lesson8/task2/Chess.kt:110-129 | for a shared column or row `rookTrajectory` lists every square between start and end | `rookTrajectory(Square(3, 5), Square(8, 5))` has six squares, where the documentation gives the one-move trajectory `[Square(3, 5), Square(8, 5)]` | the fastest trajectory: one square per rook move | not executed | Chess.RookTrajectoryNotFastest | Chess.RookTrajectoryFixed |
| src/Lesson3/Loop.kt:332-345 | having found the Fibonacci number that holds position n, `fibSequenceDigit` drops `targetPos` digits from the right, which picks the digit mirrored within that number | position 9 of 1123581321... lies on the 2 of 21, and the code answers 1 | digit n of the Fibonacci numbers written one after another, 2 for position 9 | not executed | Loop.FibSequenceDigitNine | Loop.FibSequenceDigitFixed |
| src/Lesson12/TrainTimeTable.kt:209-228 | `addStop` checks the departure and the arrival on the stops after `withStopUpdated` has sorted them again, where the checks always hold | base at 8:00, stops at 9:00 and 11:00, and the departure moved to 10:00: accepted, and the 9:00 stop becomes the train's first stop | IllegalArgumentException for a departure after the first intermediate stop or an arrival before the last one, keeping the base station first and the destination last | not executed | TrainTimeTables.DepartureMovedExample | TrainTimeTables.DepartureStaysFirst |
