/**
 * Map and set drills (src/Lesson5/Map.kt). A Kotlin map whose iteration
 * order shows in the result is a sequence of entries in insertion order with
 * distinct keys; a map that is only looked up, or iterated where the order
 * cannot show, is a Dafny `map`. `bagPacking` and `propagateHandshakes` are
 * in modules Knapsack and Handshakes.
 */
module Maps {
  import opened Text

  // ============================================================ buildGrades

  /** The entries of a Kotlin map: no key occurs twice. */
  predicate DistinctKeys<K(==), V>(e: seq<(K, V)>) {
    forall i, j :: 0 <= i < j < |e| ==> e[i].0 != e[j].0
  }

  /** The grades that occur in `grades`. */
  function GradeSet(grades: seq<(string, int)>): set<int> {
    set i | 0 <= i < |grades| :: grades[i].1
  }

  lemma GradeSetSnoc(init: seq<(string, int)>, last: (string, int))
    ensures GradeSet(init + [last]) == GradeSet(init) + {last.1}
  {
    var grades := init + [last];
    assert grades[|init|] == last;
    forall g | g in GradeSet(grades) ensures g in GradeSet(init) + {last.1} {
      var i :| 0 <= i < |grades| && grades[i].1 == g;
      if i < |init| { assert init[i] == grades[i]; }
    }
    forall g | g in GradeSet(init) ensures g in GradeSet(grades) {
      var i :| 0 <= i < |init| && init[i].1 == g;
      assert grades[i] == init[i];
    }
  }

  /** The students with grade `g`, in iteration order. */
  function StudentsWith(grades: seq<(string, int)>, g: int): (r: seq<string>)
    ensures forall s :: s in r <==> (s, g) in grades
    ensures r == [] <==> g !in GradeSet(grades)
  {
    if grades == [] then []
    else
      var init, last := grades[..|grades| - 1], grades[|grades| - 1];
      assert grades == init + [last];
      GradeSetSnoc(init, last);
      StudentsWith(init, g) + (if last.1 == g then [last.0] else [])
  }

  /**
   * `buildGrades`: every grade that occurs is a key, and its list holds the
   * students with that grade in iteration order.
   */
  method BuildGrades(grades: seq<(string, int)>) returns (result: map<int, seq<string>>)
    ensures result.Keys == GradeSet(grades)
    ensures forall g :: g in result ==> result[g] == StudentsWith(grades, g)
  {
    result := map[];
    for i := 0 to |grades|
      invariant Grouped(grades[..i], result)
    {
      result := AddStudent(grades[..i], grades[i], result);
      assert grades[..i] + [grades[i]] == grades[..i + 1];
    }
    assert grades[..|grades|] == grades;
  }

  /** `result` groups the students of `grades` by grade. */
  predicate Grouped(grades: seq<(string, int)>, result: map<int, seq<string>>) {
    result.Keys == GradeSet(grades) &&
    forall g :: g in result ==> result[g] == StudentsWith(grades, g)
  }

  /** One step of `buildGrades`: `getOrPut(grade) { mutableListOf() }.add(student)`. */
  method AddStudent(done: seq<(string, int)>, entry: (string, int), result: map<int, seq<string>>)
    returns (next: map<int, seq<string>>)
    requires Grouped(done, result)
    ensures Grouped(done + [entry], next)
  {
    var student, grade := entry.0, entry.1;
    var list := if grade in result then result[grade] else [];
    next := result[grade := list + [student]];
    assert (done + [entry])[..|done|] == done;
    GradeSetSnoc(done, entry);
  }

  /** Each student of a map with distinct keys is in exactly the list for their grade. */
  lemma GradesPartition(grades: seq<(string, int)>, student: string, grade: int)
    requires DistinctKeys(grades) && (student, grade) in grades
    ensures student in StudentsWith(grades, grade)
    ensures forall g :: g != grade ==> student !in StudentsWith(grades, g)
  {
  }

  // ============================================================ containsIn

  /** Every key of `a` is in `b` with the same value. */
  predicate Submap(a: map<string, string>, b: map<string, string>) {
    forall k :: k in a ==> k in b && b[k] == a[k]
  }

  /** `containsIn(a, b)`: false at the first entry of `a` that `b` lacks or maps elsewhere. */
  method ContainsIn(a: map<string, string>, b: map<string, string>) returns (r: bool)
    ensures r <==> Submap(a, b)
  {
    var keys := a.Keys;
    while keys != {}
      invariant keys <= a.Keys
      invariant forall k :: k in a && k !in keys ==> k in b && b[k] == a[k]
      decreases keys
    {
      var key :| key in keys;
      if !(key in b && b[key] == a[key]) {
        return false;
      }
      keys := keys - {key};
    }
    return true;
  }

  /** `containsIn` is a partial order on maps. */
  lemma SubmapOrder(a: map<string, string>, b: map<string, string>, c: map<string, string>)
    ensures Submap(a, a)
    ensures Submap(a, b) && Submap(b, c) ==> Submap(a, c)
    ensures Submap(a, b) && Submap(b, a) ==> a == b
  {
    if Submap(a, b) && Submap(b, a) {
      assert a.Keys == b.Keys;
    }
  }

  // ============================================================ subtractOf

  /** A Kotlin `MutableMap<String, String>` passed to a function that changes it. */
  class MutableStringMap {
    var contents: map<string, string>

    constructor (contents: map<string, string>)
      ensures this.contents == contents
    {
      this.contents := contents;
    }
  }

  /** `a` without the entries that `b` also has, key and value alike. */
  function Subtract(a: map<string, string>, b: map<string, string>): map<string, string> {
    map k | k in a && !(k in b && b[k] == a[k]) :: a[k]
  }

  /**
   * `subtractOf(a, b)`: collect the keys whose entry `b` repeats, then remove
   * them from `a`.
   */
  method SubtractOf(a: MutableStringMap, b: map<string, string>)
    modifies a
    ensures a.contents == Subtract(old(a.contents), b)
  {
    var toRemove := KeysToRemove(a.contents, b);
    ghost var original := a.contents;
    for j := 0 to |toRemove|
      invariant a.contents == map k | k in original && k !in toRemove[..j] :: original[k]
    {
      a.contents := a.contents - {toRemove[j]};
      assert toRemove[..j + 1] == toRemove[..j] + [toRemove[j]];
    }
    assert toRemove[..|toRemove|] == toRemove;
  }

  /** The first loop of `subtractOf`: the keys whose entry `b` repeats. */
  method KeysToRemove(a: map<string, string>, b: map<string, string>) returns (toRemove: seq<string>)
    ensures forall k :: k in toRemove <==> k in a && k in b && b[k] == a[k]
  {
    toRemove := [];
    var keys := a.Keys;
    while keys != {}
      invariant keys <= a.Keys
      invariant forall k :: k in toRemove <==> k in a && k !in keys && k in b && b[k] == a[k]
      decreases keys
    {
      var key :| key in keys;
      if key in b && b[key] == a[key] {
        toRemove := toRemove + [key];
      }
      keys := keys - {key};
    }
  }

  /**
   * What `subtractOf` leaves is contained in the original map and shares no
   * entry with `b`; an entry is removed exactly when `b` repeats it.
   */
  lemma SubtractSpec(a: map<string, string>, b: map<string, string>)
    ensures Submap(Subtract(a, b), a)
    ensures forall k :: k in Subtract(a, b) ==> !(k in b && b[k] == Subtract(a, b)[k])
    ensures forall k :: k in a ==> (k !in Subtract(a, b) <==> k in b && b[k] == a[k])
  {
  }

  /** Subtracting a map from itself empties it. */
  lemma SubtractSelf(a: map<string, string>)
    ensures Subtract(a, a) == map[]
  {
    assert Subtract(a, a).Keys == {};
  }

  // ============================================================ whoAreInBoth

  predicate NoDuplicates<T(==)>(s: seq<T>) {
    forall i, j :: 0 <= i < j < |s| ==> s[i] != s[j]
  }

  /** `toSet()` on a list: the first occurrences, in order. */
  function Dedup(s: seq<string>): (r: seq<string>)
    ensures forall x :: x in r <==> x in s
    ensures NoDuplicates(r)
  {
    if s == [] then []
    else
      var init, last := s[..|s| - 1], s[|s| - 1];
      assert s == init + [last];
      Dedup(init) + (if last in init then [] else [last])
  }

  /** The elements of `s` that `t` contains, in order. */
  function KeepIn(s: seq<string>, t: seq<string>): (r: seq<string>)
    ensures forall x :: x in r <==> x in s && x in t
    ensures NoDuplicates(s) ==> NoDuplicates(r)
  {
    if s == [] then []
    else
      assert s == [s[0]] + s[1..];
      (if s[0] in t then [s[0]] else []) + KeepIn(s[1..], t)
  }

  /**
   * `whoAreInBoth`: `a.toSet().intersect(b.toSet())`, the people in both
   * lists, each once, in the order they first appear in `a`.
   */
  function WhoAreInBoth(a: seq<string>, b: seq<string>): (r: seq<string>)
    ensures forall x :: x in r <==> x in a && x in b
    ensures NoDuplicates(r)
  {
    KeepIn(Dedup(a), b)
  }

  // ============================================================ mergePhoneBooks

  /**
   * `mergePhoneBooks`: for every key of either book, the distinct values
   * joined by ", ", the one of `mapA` first.
   */
  method MergePhoneBooks(mapA: map<string, string>, mapB: map<string, string>)
    returns (result: map<string, string>)
    ensures result.Keys == mapA.Keys + mapB.Keys
    ensures forall k :: k in result ==> result[k] == Merged(mapA, mapB, k)
  {
    result := map[];
    var allKeys := mapA.Keys + mapB.Keys;
    var keys := allKeys;
    while keys != {}
      invariant keys <= allKeys
      invariant result.Keys == allKeys - keys
      invariant forall k :: k in result ==> result[k] == Merged(mapA, mapB, k)
      decreases keys
    {
      var key :| key in keys;
      var value := MergeValue(mapA, mapB, key);
      result := result[key := value];
      keys := keys - {key};
    }
  }

  /** One key of `mergePhoneBooks`: its values, each once, joined by ", ". */
  method MergeValue(mapA: map<string, string>, mapB: map<string, string>, key: string)
    returns (value: string)
    requires key in mapA || key in mapB
    ensures value == Merged(mapA, mapB, key)
  {
    var values: seq<string> := [];
    if key in mapA {
      values := AddDistinct(values, mapA[key]);
    }
    if key in mapB {
      values := AddDistinct(values, mapB[key]);
    }
    if |values| == 2 {
      assert values[1..] == [values[1]];
      assert Join(values, ", ") == values[0] + ", " + values[1];
    }
    value := Join(values, ", ");
  }

  /** `MutableSet.add` on an insertion-ordered set of strings. */
  function AddDistinct(values: seq<string>, v: string): seq<string> {
    if v in values then values else values + [v]
  }

  /** The merged value of one key of `mergePhoneBooks`, in closed form. */
  function Merged(mapA: map<string, string>, mapB: map<string, string>, k: string): string {
    if k in mapA && k in mapB && mapA[k] != mapB[k] then mapA[k] + ", " + mapB[k]
    else if k in mapA then mapA[k]
    else if k in mapB then mapB[k]
    else ""
  }

  /** Merging keeps every number of both books: the first book's leads, the second's ends it. */
  lemma MergedKeepsNumbers(mapA: map<string, string>, mapB: map<string, string>, k: string)
    ensures k in mapA ==> mapA[k] <= Merged(mapA, mapB, k)
    ensures k in mapB ==> exists p :: p + mapB[k] == Merged(mapA, mapB, k)
    ensures k !in mapB || k !in mapA || mapA[k] == mapB[k] ==>
      Merged(mapA, mapB, k) == (if k in mapA then mapA[k] else if k in mapB then mapB[k] else "")
  {
    if k in mapB {
      if k in mapA && mapA[k] != mapB[k] {
        assert (mapA[k] + ", ") + mapB[k] == Merged(mapA, mapB, k);
      } else {
        assert [] + mapB[k] == Merged(mapA, mapB, k);
      }
    }
  }

  /** A book merged with itself is unchanged. */
  lemma MergedSelf(book: map<string, string>, k: string)
    requires k in book
    ensures Merged(book, book, k) == book[k]
  {
  }

  // ============================================================ canBuildFrom

  /** `List.indexOf`: the first index of `x`, or -1. */
  function IndexOf<T(==)>(s: seq<T>, x: T): (r: int)
    ensures -1 <= r < |s|
    ensures r == -1 <==> x !in s
    ensures r >= 0 ==> s[r] == x && x !in s[..r]
  {
    if s == [] then -1
    else if s[0] == x then 0
    else
      var r := IndexOf(s[1..], x);
      assert s == [s[0]] + s[1..];
      if r == -1 then -1
      else
        assert s[..r + 1] == [s[0]] + s[1..][..r];
        r + 1
  }

  /**
   * `canBuildFrom(chars, word)`: every letter of the lower-cased word takes
   * one matching lower-cased character away. It succeeds exactly when the
   * word's letters form a sub-multiset of the characters.
   */
  method CanBuildFrom(chars: seq<char>, word: string) returns (r: bool)
    ensures r <==> multiset(LowerString(word)) <= multiset(LowerString(chars))
  {
    r := TakeAway(LowerString(chars), LowerString(word));
  }

  /** The loop of `canBuildFrom`, on the lower-cased characters and word. */
  method TakeAway(chars: seq<char>, w: seq<char>) returns (r: bool)
    ensures r <==> multiset(w) <= multiset(chars)
  {
    var availableChars := chars;
    for i := 0 to |w|
      invariant multiset(availableChars) + multiset(w[..i]) == multiset(chars)
    {
      var c := w[i];
      var index := IndexOf(availableChars, c);
      assert w[..i + 1] == w[..i] + [c];
      if index == -1 {
        assert multiset(w[..i + 1])[c] > multiset(chars)[c];
        assert w == w[..i + 1] + w[i + 1..];
        assert multiset(w[..i + 1]) <= multiset(w);
        return false;
      }
      assert availableChars == availableChars[..index] + [c] + availableChars[index + 1..];
      availableChars := availableChars[..index] + availableChars[index + 1..];
    }
    assert w[..|w|] == w;
    return true;
  }

  // ============================================================ extractRepeats

  /**
   * `extractRepeats`: count every element, then keep those counted more than
   * once; the result maps exactly the repeated elements to their counts.
   */
  method ExtractRepeats(list: seq<string>) returns (result: map<string, int>)
    ensures forall x :: x in result <==> multiset(list)[x] > 1
    ensures forall x :: x in result ==> result[x] == multiset(list)[x]
  {
    var counts := CountAll(list);
    result := map[];
    var keys := counts.Keys;
    while keys != {}
      invariant keys <= counts.Keys
      invariant forall x :: x in result <==> x in counts && x !in keys && counts[x] > 1
      invariant forall x :: x in result ==> result[x] == counts[x]
      decreases keys
    {
      var item :| item in keys;
      if counts[item] > 1 {
        result := result[item := counts[item]];
      }
      keys := keys - {item};
    }
  }

  /** The counting loop of `extractRepeats`: `getOrDefault(item, 0) + 1` per element. */
  method CountAll(list: seq<string>) returns (counts: map<string, int>)
    ensures forall x :: x in counts <==> multiset(list)[x] > 0
    ensures forall x :: x in counts ==> counts[x] == multiset(list)[x]
  {
    counts := map[];
    for i := 0 to |list|
      invariant forall x :: x in counts <==> multiset(list[..i])[x] > 0
      invariant forall x :: x in counts ==> counts[x] == multiset(list[..i])[x]
    {
      var item := list[i];
      assert list[..i + 1] == list[..i] + [item];
      counts := counts[item := (if item in counts then counts[item] else 0) + 1];
    }
    assert list[..|list|] == list;
  }

  // ============================================================ hasAnagrams

  predicate SortedChars(s: seq<char>) {
    forall i, j :: 0 <= i < j < |s| ==> s[i] <= s[j]
  }

  lemma SortedCons(h: char, s: seq<char>)
    requires SortedChars(s) && (s != [] ==> h <= s[0])
    ensures SortedChars([h] + s)
  {
    forall i, j | 0 <= i < j < |[h] + s|
      ensures ([h] + s)[i] <= ([h] + s)[j]
    {
      if i == 0 && j > 1 { assert s[0] <= s[j - 1]; }
    }
  }

  /** Insertion into a sorted sequence of characters. */
  function InsertChar(c: char, s: seq<char>): (r: seq<char>)
    ensures |r| == |s| + 1
  {
    if s == [] || c <= s[0] then [c] + s
    else [s[0]] + InsertChar(c, s[1..])
  }

  /** Inserting keeps a sequence sorted and adds exactly the one character. */
  lemma {:induction false} InsertCharSorted(c: char, s: seq<char>)
    requires SortedChars(s)
    ensures SortedChars(InsertChar(c, s))
    ensures multiset(InsertChar(c, s)) == multiset(s) + multiset{c}
    ensures InsertChar(c, s)[0] == c || (s != [] && InsertChar(c, s)[0] == s[0])
  {
    if s == [] || c <= s[0] {
      SortedCons(c, s);
    } else {
      assert s == [s[0]] + s[1..];
      var rest := InsertChar(c, s[1..]);
      InsertCharSorted(c, s[1..]);
      assert s[0] <= rest[0] by {
        if rest[0] != c { assert rest[0] == s[1..][0] == s[1]; }
      }
      SortedCons(s[0], rest);
    }
  }

  /** `sorted()` on the characters of a string. */
  function SortChars(s: seq<char>): (r: seq<char>)
    ensures SortedChars(r) && multiset(r) == multiset(s)
  {
    if s == [] then []
    else
      assert s == [s[0]] + s[1..];
      InsertCharSorted(s[0], SortChars(s[1..]));
      InsertChar(s[0], SortChars(s[1..]))
  }

  /** The head of a sorted non-empty sequence is its least element. */
  lemma SortedHead(x: seq<char>, c: char)
    requires SortedChars(x) && c in multiset(x)
    ensures x[0] <= c
  {
    var k :| 0 <= k < |x| && x[k] == c;
    assert k == 0 || x[0] <= x[k];
  }

  lemma MultisetCancel(m: multiset<char>, a: multiset<char>, b: multiset<char>)
    requires m + a == m + b
    ensures a == b
  {
    assert forall c :: a[c] == (m + a)[c] - m[c];
  }

  /** A sorted arrangement of a multiset of characters is unique. */
  lemma {:induction false} SortedUnique(x: seq<char>, y: seq<char>)
    requires SortedChars(x) && SortedChars(y) && multiset(x) == multiset(y)
    ensures x == y
  {
    if x != [] {
      assert x[0] in multiset(x);
      assert |y| == |multiset(y)| == |multiset(x)| == |x|;
      assert y[0] in multiset(y);
      SortedHead(y, x[0]);
      SortedHead(x, y[0]);
      assert x == [x[0]] + x[1..] && y == [y[0]] + y[1..];
      var head := x[0];
      assert head == y[0];
      assert multiset(x) == multiset{head} + multiset(x[1..]);
      assert multiset(y) == multiset{head} + multiset(y[1..]);
      MultisetCancel(multiset{head}, multiset(x[1..]), multiset(y[1..]));
      assert SortedChars(x[1..]) && SortedChars(y[1..]);
      SortedUnique(x[1..], y[1..]);
    }
  }

  /** The normal form `hasAnagrams` compares: the sorted lower-cased letters. */
  function Normalize(word: string): string {
    SortChars(LowerString(word))
  }

  /** Two words are anagrams when, lower-cased, they are permutations of each other. */
  predicate Anagrams(a: string, b: string) {
    multiset(LowerString(a)) == multiset(LowerString(b))
  }

  /** Equal normal forms are exactly anagrams. */
  lemma NormalizeAnagrams(a: string, b: string)
    ensures Normalize(a) == Normalize(b) <==> Anagrams(a, b)
  {
    if Anagrams(a, b) {
      SortedUnique(Normalize(a), Normalize(b));
    }
  }

  /** `hasAnagrams`: true exactly when two of the words are anagrams. */
  method HasAnagrams(words: seq<string>) returns (r: bool)
    ensures r <==> exists i, j :: 0 <= i < j < |words| && Anagrams(words[i], words[j])
  {
    r := SeenBefore(words, Normalize);
    if r {
      var i, j :| 0 <= i < j < |words| && Normalize(words[i]) == Normalize(words[j]);
      NormalizeAnagrams(words[i], words[j]);
    } else {
      forall i, j | 0 <= i < j < |words|
        ensures !Anagrams(words[i], words[j])
      {
        NormalizeAnagrams(words[i], words[j]);
      }
    }
  }

  /**
   * The loop of `hasAnagrams`, with the normal form as `normalize`: true at
   * the first word whose normal form is already in the set of those seen.
   */
  method SeenBefore(words: seq<string>, normalize: string -> string) returns (r: bool)
    ensures r <==> exists i, j :: 0 <= i < j < |words| && normalize(words[i]) == normalize(words[j])
  {
    var normalizedWords: set<string> := {};
    for k := 0 to |words|
      invariant forall i :: 0 <= i < k ==> normalize(words[i]) in normalizedWords
      invariant forall n :: n in normalizedWords ==> exists i :: 0 <= i < k && normalize(words[i]) == n
      invariant forall i, j :: 0 <= i < j < k ==> normalize(words[i]) != normalize(words[j])
    {
      var normalized := normalize(words[k]);
      if normalized in normalizedWords {
        return true;
      }
      normalizedWords := normalizedWords + {normalized};
    }
    return false;
  }

  // ============================================================ findSumOfTwo

  /** Positions `i < j` of `list` whose values add up to `number`. */
  predicate SumPair(list: seq<int>, number: int, i: int, j: int) {
    0 <= i < j < |list| && list[i] + list[j] == number
  }

  /**
   * `findSumOfTwo`: (-1, -1) exactly when no two positions add up to
   * `number`; otherwise such a pair, in increasing order. The second index
   * is the least that completes a pair, and since `seen` keeps the last
   * index of each value, the first is the latest partner before it.
   */
  method FindSumOfTwo(list: seq<int>, number: int) returns (r: (int, int))
    ensures r == (-1, -1) <==> forall i, j :: !SumPair(list, number, i, j)
    ensures r != (-1, -1) ==> SumPair(list, number, r.0, r.1)
    ensures r != (-1, -1) ==> forall i, j :: SumPair(list, number, i, j) ==> r.1 <= j
    ensures r != (-1, -1) ==> forall i :: r.0 < i < r.1 ==> list[i] + list[r.1] != number
  {
    var seen: map<int, int> := map[];
    for index := 0 to |list|
      invariant forall v :: v in seen <==> v in list[..index]
      invariant forall v :: v in seen ==>
        0 <= seen[v] < index && list[seen[v]] == v &&
        forall i :: seen[v] < i < index ==> list[i] != v
      invariant forall i, j :: j < index ==> !SumPair(list, number, i, j)
    {
      var value := list[index];
      var complement := number - value;
      if complement in seen {
        var firstIndex := seen[complement];
        assert SumPair(list, number, firstIndex, index);
        return if firstIndex < index then (firstIndex, index) else (index, firstIndex);
      }
      forall i | 0 <= i < index
        ensures list[i] + value != number
      {
        assert list[i] in list[..index];
      }
      assert list[..index + 1] == list[..index] + [value];
      seen := seen[value := index];
    }
    return (-1, -1);
  }
}
