/**
 * `PhoneBook` (Lesson 12): people, each with a set of phone numbers, and the
 * reverse map from a phone number to the person who owns it.
 *
 * The two maps are the Kotlin fields `phoneBook` and `reversePhoneBook`; the
 * per-person `MutableSet` becomes a `set` value that the methods replace.
 */
module PhoneBooks {
  import opened Wrappers
  import opened Text

  /** `isValidName`: not blank and holding a letter, which is just holding a letter, since a letter is never blank. */
  function ValidName(name: string): (b: bool)
    ensures b <==> exists i :: 0 <= i < |name| && IsLetter(name[i])
  {
    LetterNotBlank(name);
    !IsBlank(name) && exists i :: 0 <= i < |name| && IsLetter(name[i])
  }

  lemma LetterNotBlank(s: string)
    ensures (exists i :: 0 <= i < |s| && IsLetter(s[i])) ==> !IsBlank(s)
  {
    if exists i :: 0 <= i < |s| && IsLetter(s[i]) {
      var i :| 0 <= i < |s| && IsLetter(s[i]);
      assert !IsWhitespace(s[i]);
    }
  }

  /** A character allowed in a phone number: a digit or one of `+ * # -`. */
  predicate IsPhoneChar(c: char) {
    IsDigit(c) || c == '+' || c == '*' || c == '#' || c == '-'
  }

  /**
   * `isValidPhone`: not blank and made of allowed characters only, which is
   * non-empty and made of them, since no allowed character is blank.
   */
  function ValidPhone(phone: string): (b: bool)
    ensures b <==> |phone| > 0 && forall i :: 0 <= i < |phone| ==> IsPhoneChar(phone[i])
  {
    AllowedNotBlank(phone);
    !IsBlank(phone) && forall i :: 0 <= i < |phone| ==> IsPhoneChar(phone[i])
  }

  lemma AllowedNotBlank(s: string)
    ensures |s| > 0 && (forall i :: 0 <= i < |s| ==> IsPhoneChar(s[i])) ==> !IsBlank(s)
  {
    if |s| > 0 && forall i :: 0 <= i < |s| ==> IsPhoneChar(s[i]) {
      assert IsPhoneChar(s[0]) && !IsWhitespace(s[0]);
    }
  }

  /** `reversePhoneBook` with the phones in `gone` removed. */
  function Without(reverse: map<string, string>, gone: set<string>): (r: map<string, string>)
    ensures forall p :: p in r <==> p in reverse && p !in gone
    ensures forall p :: p in r ==> r[p] == reverse[p]
  {
    map p | p in reverse && p !in gone :: reverse[p]
  }

  /** The reverse map is the inverse of the book: `reverse[p] == n` exactly when `p` is one of `n`'s phones. */
  ghost predicate Inverse(book: map<string, set<string>>, reverse: map<string, string>) {
    && (forall p :: p in reverse ==> reverse[p] in book && p in book[reverse[p]])
    && (forall n, p :: n in book && p in book[n] ==> p in reverse && reverse[p] == n)
  }

  /** In a book with an inverse, no phone belongs to two people. */
  lemma OneOwner(book: map<string, set<string>>, reverse: map<string, string>, a: string, b: string, p: string)
    requires Inverse(book, reverse)
    requires a in book && b in book && p in book[a] && p in book[b]
    ensures a == b
  {
    assert reverse[p] == a && reverse[p] == b;
  }

  /** The book determines its inverse: two books with the same people and phones have the same reverse map. */
  lemma InverseUnique(book: map<string, set<string>>, r1: map<string, string>, r2: map<string, string>)
    requires Inverse(book, r1) && Inverse(book, r2)
    ensures r1 == r2
  {
    forall p | p in r1 ensures p in r2 && r2[p] == r1[p] {
      assert r1[p] in book && p in book[r1[p]];
    }
    forall p | p in r2 ensures p in r1 {
      assert r2[p] in book && p in book[r2[p]];
    }
  }

  /** The loop of `removeHuman`: each phone in `phones` is removed from the reverse map in turn. */
  method RemovePhones(reverse: map<string, string>, phones: set<string>) returns (r: map<string, string>)
    ensures r == Without(reverse, phones)
  {
    r := reverse;
    var remaining := phones;
    while remaining != {}
      invariant remaining <= phones
      invariant r == Without(reverse, phones - remaining)
      decreases remaining
    {
      var phone :| phone in remaining;
      r := r - {phone};
      remaining := remaining - {phone};
    }
  }

  lemma AddPersonInverse(book: map<string, set<string>>, reverse: map<string, string>, name: string)
    requires Inverse(book, reverse) && name !in book
    ensures Inverse(book[name := {}], reverse)
  {
  }

  lemma RemovePersonInverse(book: map<string, set<string>>, reverse: map<string, string>, name: string)
    requires Inverse(book, reverse) && name in book
    ensures Inverse(book - {name}, Without(reverse, book[name]))
  {
    var book', reverse' := book - {name}, Without(reverse, book[name]);
    forall p | p in reverse' ensures reverse'[p] in book' && p in book'[reverse'[p]] {
      assert reverse[p] in book && p in book[reverse[p]];
    }
    forall n, p | n in book' && p in book'[n] ensures p in reverse' && reverse'[p] == n {
      assert reverse[p] == n && n != name;
    }
  }

  lemma AddPhoneInverse(book: map<string, set<string>>, reverse: map<string, string>, name: string, phone: string)
    requires Inverse(book, reverse) && name in book && phone !in reverse
    ensures Inverse(book[name := book[name] + {phone}], reverse[phone := name])
  {
    var book', reverse' := book[name := book[name] + {phone}], reverse[phone := name];
    forall p | p in reverse' ensures reverse'[p] in book' && p in book'[reverse'[p]] {
      if p != phone {
        assert reverse[p] in book && p in book[reverse[p]];
      }
    }
  }

  lemma RemovePhoneInverse(book: map<string, set<string>>, reverse: map<string, string>, name: string, phone: string)
    requires Inverse(book, reverse) && name in book && phone in book[name]
    ensures Inverse(book[name := book[name] - {phone}], reverse - {phone})
  {
    var book', reverse' := book[name := book[name] - {phone}], reverse - {phone};
    forall p | p in reverse' ensures reverse'[p] in book' && p in book'[reverse'[p]] {
      assert reverse[p] in book && p in book[reverse[p]];
    }
    forall n, p | n in book' && p in book'[n] ensures p in reverse' && reverse'[p] == n {
      assert p in book[n] && reverse[p] == n;
      assert reverse[phone] == name;
    }
  }

  class PhoneBook {
    /** `phoneBook`: each person's phone numbers. */
    var book: map<string, set<string>>
    /** `reversePhoneBook`: the owner of each phone number. */
    var reverse: map<string, string>

    ghost predicate Valid()
      reads this
    {
      && (forall n :: n in book ==> ValidName(n))
      && (forall p :: p in reverse ==> ValidPhone(p))
      && Inverse(book, reverse)
    }

    constructor ()
      ensures Valid() && book == map[] && reverse == map[]
    {
      book := map[];
      reverse := map[];
    }

    /** `addHuman`: a valid new name is added with no phones. */
    method AddHuman(name: string) returns (added: bool)
      requires Valid()
      modifies this
      ensures Valid()
      ensures added <==> ValidName(name) && name !in old(book)
      ensures book == if added then old(book)[name := {}] else old(book)
      ensures reverse == old(reverse)
    {
      if !ValidName(name) {
        return false;
      }
      if name in book {
        added := false;
      } else {
        AddPersonInverse(book, reverse, name);
        book := book[name := {}];
        added := true;
      }
    }

    /** `removeHuman`: the person goes, and each of their phones leaves the reverse map. */
    method RemoveHuman(name: string) returns (removed: bool)
      requires Valid()
      modifies this
      ensures Valid()
      ensures removed <==> ValidName(name) && name in old(book)
      ensures book == if removed then old(book) - {name} else old(book)
      ensures reverse == if removed then Without(old(reverse), old(book)[name]) else old(reverse)
    {
      if !ValidName(name) {
        return false;
      }
      if name !in book {
        return false;
      }
      reverse := RemovePhones(reverse, book[name]);
      RemovePersonInverse(book, old(reverse), name);
      book := book - {name};
      removed := true;
    }

    /** `addPhone`: a valid phone that nobody owns is added to a known person. */
    method AddPhone(name: string, phone: string) returns (added: bool)
      requires Valid()
      modifies this
      ensures Valid()
      ensures added <==> ValidName(name) && ValidPhone(phone) && name in old(book) && phone !in old(reverse)
      ensures book == if added then old(book)[name := old(book)[name] + {phone}] else old(book)
      ensures reverse == if added then old(reverse)[phone := name] else old(reverse)
    {
      if !ValidName(name) || !ValidPhone(phone) {
        return false;
      }
      if name !in book {
        return false;
      }
      var phones := book[name];
      if phone in reverse && reverse[phone] != name {
        return false;
      }
      if phone in phones {
        return false;
      }
      assert phone !in reverse;
      AddPhoneInverse(book, reverse, name, phone);
      book := book[name := phones + {phone}];
      reverse := reverse[phone := name];
      added := true;
    }

    /** `removePhone`: a phone of the person leaves both maps; the person stays. */
    method RemovePhone(name: string, phone: string) returns (removed: bool)
      requires Valid()
      modifies this
      ensures Valid()
      ensures removed <==> ValidName(name) && ValidPhone(phone) && name in old(book) && phone in old(book)[name]
      ensures book == if removed then old(book)[name := old(book)[name] - {phone}] else old(book)
      ensures reverse == if removed then old(reverse) - {phone} else old(reverse)
    {
      if !ValidName(name) || !ValidPhone(phone) {
        return false;
      }
      if name !in book {
        return false;
      }
      var phones := book[name];
      if phone !in phones {
        return false;
      }
      RemovePhoneInverse(book, reverse, name, phone);
      book := book[name := phones - {phone}];
      reverse := reverse - {phone};
      removed := true;
    }

    /** `phones`: the numbers whose owner is `name`; empty for an unknown or invalid name. */
    function Phones(name: string): (r: set<string>)
      reads this
      requires Valid()
      ensures forall p :: p in r <==> p in reverse && reverse[p] == name
      ensures name !in book ==> r == {}
    {
      if !ValidName(name) then {}
      else if name in book then book[name]
      else {}
    }

    /** `humanByPhone`: the owner of `phone`, and none for an unknown number. */
    function HumanByPhone(phone: string): (r: Option<string>)
      reads this
      requires Valid()
      ensures r.Some? <==> exists n :: n in book && phone in book[n]
      ensures r.Some? ==> phone in Phones(r.value)
    {
      if !ValidPhone(phone) then None
      else if phone in reverse then Some(reverse[phone])
      else None
    }

    /** `allHumans`. */
    function AllHumans(): (r: set<string>)
      reads this
      requires Valid()
      ensures forall n :: n in r <==> n in book
    {
      book.Keys
    }

    /** `allPhones`: every number that some person owns. */
    function AllPhones(): (r: set<string>)
      reads this
      requires Valid()
      ensures forall p :: p in r <==> exists n :: n in book && p in book[n]
    {
      reverse.Keys
    }

    /** `humansCount`. */
    function HumansCount(): (k: nat)
      reads this
      requires Valid()
      ensures k == |AllHumans()|
    {
      |book|
    }

    /** `phonesCount`: the number of owned phones. */
    function PhonesCount(): (k: nat)
      reads this
      requires Valid()
      ensures k == |AllPhones()|
    {
      |reverse|
    }

    /** `clear`. */
    method Clear()
      modifies this
      ensures Valid() && book == map[] && reverse == map[]
    {
      book := map[];
      reverse := map[];
    }

    /**
     * `equals`: the same people, each with the same phones, whatever the
     * order of insertion.
     */
    method Equals(other: PhoneBook) returns (r: bool)
      requires Valid() && other.Valid()
      ensures r <==> book == other.book
    {
      if this == other {
        return true;
      }
      if book.Keys != other.book.Keys {
        return false;
      }
      var rest := book.Keys;
      while rest != {}
        invariant rest <= book.Keys
        invariant forall n :: n in book && n !in rest ==> book[n] == other.book[n]
        decreases rest
      {
        var name :| name in rest;
        if book[name] != other.book[name] {
          return false;
        }
        rest := rest - {name};
      }
      r := true;
    }
  }

  /** Equal books have equal reverse maps, so `equals` compares the whole state. */
  lemma EqualBooksEqualReverse(a: PhoneBook, b: PhoneBook)
    requires a.Valid() && b.Valid() && a.book == b.book
    ensures a.reverse == b.reverse
  {
    InverseUnique(a.book, a.reverse, b.reverse);
  }
}
