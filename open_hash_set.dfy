/**
 * `OpenHashSet<T>` (Lesson 12): a fixed-capacity hash set with open addressing
 * and linear probing. Every slot of the backing array is empty, a tombstone
 * left by `remove`, or holds an element.
 *
 * The element hash (`hashCode()` in Kotlin) is a function given to the
 * constructor; the home slot is `(hashCode and 0x7FFFFFFF) % capacity`.
 */
module OpenHashSets {

  datatype Slot<T> = Empty | Deleted | Occupied(value: T)

  // ------------------------------------------------------------ probing arithmetic

  /** `hash`: the home slot of an element with hash code `h`. */
  function HomeSlot(h: bv32, capacity: nat): (i: nat)
    requires capacity > 0
    ensures i < capacity
  {
    ((h & 0x7FFF_FFFF) as int) % capacity
  }

  /** The slot visited by the `k`-th probe from home slot `h`: `(h + k) % n`. */
  function Probe(h: nat, k: nat, n: nat): (i: nat)
    requires h < n && k <= n
    ensures i < n
  {
    if h + k < n then h + k else h + k - n
  }

  /** The probe offset at which slot `j` is reached from home slot `h`. */
  function Offset(h: nat, j: nat, n: nat): (d: nat)
    requires h < n && j < n
    ensures d < n && Probe(h, d, n) == j
  {
    if h <= j then j - h else j + n - h
  }

  lemma OffsetOfProbe(h: nat, k: nat, n: nat)
    requires h < n && k < n
    ensures Offset(h, Probe(h, k, n), n) == k
  {
  }

  /** The source's step `(i + 1) % capacity` moves to the next probe. */
  lemma ProbeNext(h: nat, k: nat, n: nat)
    requires h < n && k < n
    ensures (Probe(h, k, n) + 1) % n == Probe(h, k + 1, n)
  {
    var p := Probe(h, k, n);
    if p + 1 < n {
      assert (p + 1) % n == p + 1;
    } else {
      assert p + 1 == n;
      assert (p + 1) % n == 0;
    }
  }

  // ------------------------------------------------------------ the slot array

  /** A probe for `e` ends at an empty slot or at a slot holding `e`. */
  predicate Stops<T(==)>(slot: Slot<T>, e: T) {
    slot == Empty || slot == Occupied(e)
  }

  /** The earliest offset, from `k` on, at which a probe for `e` stops; `|s|` if none. */
  function FirstStop<T(==)>(s: seq<Slot<T>>, e: T, h: nat, k: nat): (r: nat)
    requires h < |s| && k <= |s|
    ensures k <= r <= |s|
    ensures r < |s| ==> Stops(s[Probe(h, r, |s|)], e)
    ensures forall j :: k <= j < r ==> !Stops(s[Probe(h, j, |s|)], e)
    decreases |s| - k
  {
    if k == |s| then k
    else if Stops(s[Probe(h, k, |s|)], e) then k
    else FirstStop(s, e, h, k + 1)
  }

  lemma {:induction false} FirstStopIs<T>(s: seq<Slot<T>>, e: T, h: nat, i: nat, k: nat)
    requires h < |s| && i <= k <= |s|
    requires forall j :: i <= j < k ==> !Stops(s[Probe(h, j, |s|)], e)
    requires k < |s| ==> Stops(s[Probe(h, k, |s|)], e)
    ensures FirstStop(s, e, h, i) == k
    decreases k - i
  {
    if i < k {
      FirstStopIs(s, e, h, i + 1, k);
    }
  }

  /** The earliest offset below `stop` whose slot is a tombstone; `stop` if none. */
  function FirstDeleted<T>(s: seq<Slot<T>>, h: nat, stop: nat): (r: nat)
    requires h < |s| && stop <= |s|
    ensures r <= stop
    ensures r < stop ==> s[Probe(h, r, |s|)] == Deleted
    ensures forall j :: 0 <= j < r ==> s[Probe(h, j, |s|)] != Deleted
  {
    if stop == 0 then 0
    else
      var d := FirstDeleted(s, h, stop - 1);
      if d < stop - 1 then d
      else if s[Probe(h, stop - 1, |s|)] == Deleted then stop - 1
      else stop
  }

  /**
   * `findIndex`: -2 when the table is full or the scan meets neither an empty
   * slot nor `e`; the slot of `e` when the scan meets it; otherwise the first
   * tombstone passed before the empty slot, or that empty slot.
   */
  function FindSlot<T(==)>(s: seq<Slot<T>>, size: int, e: T, h: nat): (r: int)
    requires h < |s|
    ensures r == -2 || 0 <= r < |s|
    ensures r >= 0 ==> s[r] == Occupied(e) || s[r] == Empty || s[r] == Deleted
  {
    if size >= |s| then -2
    else
      var k := FirstStop(s, e, h, 0);
      if k == |s| then -2
      else if s[Probe(h, k, |s|)] == Empty then
        var d := FirstDeleted(s, h, k);
        if d < k then Probe(h, d, |s|) else Probe(h, k, |s|)
      else Probe(h, k, |s|)
  }

  /** The slot of the first tombstone among the first `k` probes, or -1 (`firstDeletedIndex`). */
  function TombstoneSlot<T>(s: seq<Slot<T>>, h: nat, k: nat): int
    requires h < |s| && k <= |s|
  {
    var d := FirstDeleted(s, h, k);
    if d < k then Probe(h, d, |s|) else -1
  }

  lemma FindSlotAtStop<T>(s: seq<Slot<T>>, size: int, e: T, h: nat, k: nat)
    requires h < |s| && size < |s| && k <= |s|
    requires forall j :: 0 <= j < k ==> !Stops(s[Probe(h, j, |s|)], e)
    requires k < |s| ==> Stops(s[Probe(h, k, |s|)], e)
    ensures FindSlot(s, size, e, h) ==
      if k == |s| then -2
      else if s[Probe(h, k, |s|)] == Empty then
        (if TombstoneSlot(s, h, k) != -1 then TombstoneSlot(s, h, k) else Probe(h, k, |s|))
      else Probe(h, k, |s|)
  {
    FirstStopIs(s, e, h, 0, k);
  }

  /** The stored elements in slot order (`toList`). */
  function Occupants<T>(s: seq<Slot<T>>): seq<T> {
    if s == [] then []
    else
      var last := s[|s| - 1];
      Occupants(s[..|s| - 1]) + (if last.Occupied? then [last.value] else [])
  }

  /** No two occupied slots hold equal elements. */
  predicate Unique<T(==)>(s: seq<Slot<T>>) {
    forall i, j :: 0 <= i < |s| && 0 <= j < |s| && i != j && s[i].Occupied? && s[j].Occupied? ==>
      s[i].value != s[j].value
  }

  /** No empty slot lies on the first `d` probes from `h`. */
  predicate PathClear<T>(s: seq<Slot<T>>, h: nat, d: nat)
    requires h < |s| && d <= |s|
  {
    forall k :: 0 <= k < d ==> s[Probe(h, k, |s|)] != Empty
  }

  /** Every element is reachable from its home slot without crossing an empty slot. */
  predicate Findable<T>(s: seq<Slot<T>>, hash: T -> bv32) {
    forall j :: 0 <= j < |s| && s[j].Occupied? ==>
      PathClear(s, HomeSlot(hash(s[j].value), |s|), Offset(HomeSlot(hash(s[j].value), |s|), j, |s|))
  }

  predicate Distinct<T(==)>(xs: seq<T>) {
    forall a, b :: 0 <= a < b < |xs| ==> xs[a] != xs[b]
  }

  // ------------------------------------------------------------ lemmas on slot arrays

  lemma {:induction false} OccupantsMember<T>(s: seq<Slot<T>>, v: T)
    ensures v in Occupants(s) <==> exists j :: 0 <= j < |s| && s[j] == Occupied(v)
  {
    if s != [] {
      var init := s[..|s| - 1];
      OccupantsMember(init, v);
      if v in Occupants(s) && v !in Occupants(init) {
        assert s[|s| - 1] == Occupied(v);
      }
      if exists j :: 0 <= j < |s| && s[j] == Occupied(v) {
        var j :| 0 <= j < |s| && s[j] == Occupied(v);
        if j < |s| - 1 {
          assert init[j] == Occupied(v);
        }
      }
    }
  }

  lemma {:induction false} OccupantsOfEmpty<T>(s: seq<Slot<T>>)
    requires forall i :: 0 <= i < |s| ==> s[i] == Empty
    ensures Occupants(s) == []
  {
    if s != [] {
      OccupantsOfEmpty(s[..|s| - 1]);
    }
  }

  /** Writing an element over a free slot adds exactly one occupant. */
  lemma {:induction false} OccupantsInsert<T>(s: seq<Slot<T>>, t: nat, v: T)
    requires t < |s| && !s[t].Occupied?
    ensures |Occupants(s[t := Occupied(v)])| == |Occupants(s)| + 1
  {
    var s' := s[t := Occupied(v)];
    if t == |s| - 1 {
      assert s'[..|s'| - 1] == s[..|s| - 1];
    } else {
      assert s'[..|s'| - 1] == s[..|s| - 1][t := Occupied(v)];
      OccupantsInsert(s[..|s| - 1], t, v);
    }
  }

  /** Turning an occupied slot into a tombstone removes exactly one occupant. */
  lemma {:induction false} OccupantsDelete<T>(s: seq<Slot<T>>, t: nat)
    requires t < |s| && s[t].Occupied?
    ensures |Occupants(s[t := Deleted])| == |Occupants(s)| - 1
  {
    var s' := s[t := Deleted];
    if t == |s| - 1 {
      assert s'[..|s'| - 1] == s[..|s| - 1];
    } else {
      assert s'[..|s'| - 1] == s[..|s| - 1][t := Deleted];
      OccupantsDelete(s[..|s| - 1], t);
    }
  }

  lemma {:induction false} UniqueDistinct<T>(s: seq<Slot<T>>)
    requires Unique(s)
    ensures Distinct(Occupants(s))
  {
    if s != [] {
      var init := s[..|s| - 1];
      assert Unique(init) by {
        forall i, j | 0 <= i < |init| && 0 <= j < |init| && i != j && init[i].Occupied? && init[j].Occupied?
          ensures init[i].value != init[j].value
        {
          assert s[i] == init[i] && s[j] == init[j];
        }
      }
      UniqueDistinct(init);
      var last := s[|s| - 1];
      if last.Occupied? {
        forall j | 0 <= j < |init| ensures init[j] != Occupied(last.value) {
          assert s[j] == init[j];
        }
        OccupantsMember(init, last.value);
        DistinctSnoc(Occupants(init), last.value);
      }
    }
  }

  lemma DistinctSnoc<T>(xs: seq<T>, v: T)
    requires Distinct(xs) && v !in xs
    ensures Distinct(xs + [v])
  {
    var ys := xs + [v];
    forall a, b | 0 <= a < b < |ys| ensures ys[a] != ys[b] {
      if b == |xs| {
        assert ys[a] == xs[a];
      } else {
        assert ys[a] == xs[a] && ys[b] == xs[b];
      }
    }
  }

  /** A duplicate-free list has as many elements as its set. */
  lemma {:induction false} DistinctCard<T>(xs: seq<T>)
    requires Distinct(xs)
    ensures |set x | x in xs| == |xs|
  {
    if xs != [] {
      var init := xs[..|xs| - 1];
      var v := xs[|xs| - 1];
      assert Distinct(init) by {
        forall a, b | 0 <= a < b < |init| ensures init[a] != init[b] {
          assert init[a] == xs[a] && init[b] == xs[b];
        }
      }
      DistinctCard(init);
      assert xs == init + [v];
      assert (set x | x in xs) == (set x | x in init) + {v};
      forall a | 0 <= a < |init| ensures init[a] != v {
        assert init[a] == xs[a];
      }
    }
  }

  /**
   * Search correctness: a probe for `e` that passes no stop before offset `k`
   * and then meets an empty slot, or runs through all slots, proves that `e`
   * is not stored anywhere.
   */
  lemma ScanAbsent<T>(s: seq<Slot<T>>, hash: T -> bv32, e: T, k: nat)
    requires |s| > 0 && Findable(s, hash) && k <= |s|
    requires forall j :: 0 <= j < k ==> !Stops(s[Probe(HomeSlot(hash(e), |s|), j, |s|)], e)
    requires k < |s| ==> s[Probe(HomeSlot(hash(e), |s|), k, |s|)] == Empty
    ensures forall j :: 0 <= j < |s| ==> s[j] != Occupied(e)
  {
    var h := HomeSlot(hash(e), |s|);
    forall j | 0 <= j < |s| ensures s[j] != Occupied(e) {
      var d := Offset(h, j, |s|);
      assert s[j] == Occupied(e) ==> PathClear(s, h, d);
      if d < k {
        assert !Stops(s[Probe(h, d, |s|)], e);
      } else if d > k {
        assert s[Probe(h, k, |s|)] == Empty;
      }
    }
  }

  /** The slot `FindSlot` picks for an absent element: every earlier probe passes a full slot. */
  lemma FindSlotPlacement<T>(s: seq<Slot<T>>, size: int, hash: T -> bv32, e: T)
    requires |s| > 0 && Findable(s, hash)
    requires FindSlot(s, size, e, HomeSlot(hash(e), |s|)) >= 0
    requires s[FindSlot(s, size, e, HomeSlot(hash(e), |s|))] != Occupied(e)
    ensures forall j :: 0 <= j < |s| ==> s[j] != Occupied(e)
    ensures var h := HomeSlot(hash(e), |s|);
            var t := FindSlot(s, size, e, h);
            (s[t] == Empty || s[t] == Deleted) &&
            PathClear(s, h, Offset(h, t, |s|)) &&
            forall j :: 0 <= j < Offset(h, t, |s|) ==> s[Probe(h, j, |s|)].Occupied?
  {
    var h := HomeSlot(hash(e), |s|);
    var k := FirstStop(s, e, h, 0);
    ScanAbsent(s, hash, e, k);
    var d := FirstDeleted(s, h, k);
    if d < k {
      OffsetOfProbe(h, d, |s|);
    } else {
      OffsetOfProbe(h, k, |s|);
    }
  }

  // ------------------------------------------------------------ the class

  class OpenHashSet<T(==)> {
    const capacity: nat
    const hashCode: T -> bv32
    const elements: array<Slot<T>>
    var size: nat

    ghost predicate Valid()
      reads this, elements
    {
      capacity >= 2 &&
      elements.Length == capacity &&
      size == |Occupants(elements[..])| &&
      Unique(elements[..]) &&
      Findable(elements[..], hashCode)
    }

    /** The abstract set of stored elements. */
    ghost function Values(): set<T>
      reads this, elements
    {
      set v | v in Occupants(elements[..])
    }

    /** `hash`. */
    function Home(e: T): (i: nat)
      requires capacity > 0
      ensures i < capacity
    {
      HomeSlot(hashCode(e), capacity)
    }

    constructor (capacity: nat, hashCode: T -> bv32)
      requires capacity >= 2
      ensures Valid() && fresh(elements)
      ensures this.capacity == capacity && this.hashCode == hashCode
      ensures size == 0 && Values() == {}
      ensures forall i :: 0 <= i < capacity ==> elements[i] == Empty
    {
      this.capacity := capacity;
      this.hashCode := hashCode;
      elements := new Slot<T>[capacity](_ => Empty);
      size := 0;
      new;
      OccupantsOfEmpty(elements[..]);
    }

    /** The number of stored elements is the number of distinct elements. */
    lemma SizeIsCardinality()
      requires Valid()
      ensures size == |Values()|
    {
      UniqueDistinct(elements[..]);
      DistinctCard(Occupants(elements[..]));
    }

    lemma Member(v: T)
      requires Valid()
      ensures v in Values() <==> exists j :: 0 <= j < capacity && elements[j] == Occupied(v)
    {
      OccupantsMember(elements[..], v);
      if exists j :: 0 <= j < capacity && elements[j] == Occupied(v) {
        var j :| 0 <= j < capacity && elements[j] == Occupied(v);
        assert elements[..][j] == Occupied(v);
      }
    }

    /** `size`. */
    function Size(): (n: nat)
      reads this, elements
      requires Valid()
      ensures n == |Values()| && n <= capacity
    {
      SizeIsCardinality();
      OccupantsBound(elements[..]);
      size
    }

    /** `isEmpty()`. */
    function IsEmpty(): (b: bool)
      reads this, elements
      requires Valid()
      ensures b <==> Values() == {}
    {
      SizeIsCardinality();
      size == 0
    }

    /** `findIndex`. */
    method FindIndex(e: T) returns (index: int)
      requires Valid()
      ensures index == FindSlot(elements[..], size, e, Home(e))
    {
      ghost var s := elements[..];
      if size >= capacity {
        return -2;
      }
      var initial := Home(e);
      var current := initial;
      var firstDeleted := -1;
      var attempts := 0;
      while attempts < capacity
        invariant 0 <= attempts <= capacity == |s|
        invariant current == Probe(initial, attempts, capacity)
        invariant forall j :: 0 <= j < attempts ==> !Stops(s[Probe(initial, j, capacity)], e)
        invariant firstDeleted == TombstoneSlot(s, initial, attempts)
      {
        var slot := elements[current];
        if slot == Empty {
          FindSlotAtStop(s, size, e, initial, attempts);
          index := if firstDeleted != -1 then firstDeleted else current;
          return;
        } else if slot == Deleted {
          if firstDeleted == -1 {
            firstDeleted := current;
          }
        } else if slot == Occupied(e) {
          FindSlotAtStop(s, size, e, initial, attempts);
          return current;
        }
        ProbeNext(initial, attempts, capacity);
        current := (current + 1) % capacity;
        attempts := attempts + 1;
      }
      FindSlotAtStop(s, size, e, initial, capacity);
      return -2;
    }

    /** `contains`. */
    method Contains(e: T) returns (found: bool)
      requires Valid()
      ensures found <==> e in Values()
    {
      ghost var s := elements[..];
      var initial := Home(e);
      var current := initial;
      var attempts := 0;
      while attempts < capacity
        invariant 0 <= attempts <= capacity
        invariant current == Probe(initial, attempts, capacity)
        invariant forall j :: 0 <= j < attempts ==> !Stops(s[Probe(initial, j, capacity)], e)
      {
        var slot := elements[current];
        if slot == Empty {
          ScanAbsent(s, hashCode, e, attempts);
          Member(e);
          return false;
        } else if slot == Occupied(e) {
          Member(e);
          return true;
        }
        ProbeNext(initial, attempts, capacity);
        current := (current + 1) % capacity;
        attempts := attempts + 1;
      }
      ScanAbsent(s, hashCode, e, capacity);
      Member(e);
      return false;
    }

    /** `add`. */
    method Add(e: T) returns (added: bool)
      requires Valid()
      modifies this, elements
      ensures Valid()
      ensures added <==> old(size) < capacity && e !in old(Values()) && Empty in old(elements[..])
      ensures added ==> size == old(size) + 1
      ensures added ==>
        var t := FindSlot(old(elements[..]), old(size), e, Home(e));
        0 <= t < capacity && elements[..] == old(elements[..])[t := Occupied(e)]
      ensures !added ==> size == old(size) && elements[..] == old(elements[..])
      ensures Values() == if added then old(Values()) + {e} else old(Values())
    {
      ghost var s := elements[..];
      Member(e);
      if size >= capacity {
        OccupantsBound(s);
        NoRoomNoEmpty(s);
        return false;
      }
      var index := FindIndex(e);
      if index == -2 {
        var k := FirstStop(s, e, Home(e), 0);
        assert k == capacity;
        ScanAbsent(s, hashCode, e, k);
        FullScanNoEmpty(s, e, Home(e));
        return false;
      }
      if elements[index] == Occupied(e) {
        return false;
      }
      FindSlotPlacement(s, size, hashCode, e);
      OccupantsInsert(s, index, e);
      elements[index] := Occupied(e);
      size := size + 1;
      InsertKeepsInvariant(s, index, e);
      InsertFindable(s, index, e, hashCode);
      EmptyExists(s, e, Home(e));
      assert elements[..] == s[index := Occupied(e)];
      InsertValues(s, index, e, elements[..]);
      added := true;
    }

    /** `remove`. */
    method Remove(e: T) returns (removed: bool)
      requires Valid()
      modifies this, elements
      ensures Valid()
      ensures removed <==> e in old(Values())
      ensures Values() == old(Values()) - {e}
      ensures removed ==>
        size == old(size) - 1 &&
        exists j :: 0 <= j < capacity && old(elements[..])[j] == Occupied(e) &&
                    elements[..] == old(elements[..])[j := Deleted]
      ensures !removed ==> size == old(size) && elements[..] == old(elements[..])
    {
      ghost var s := elements[..];
      Member(e);
      var initial := Home(e);
      var current := initial;
      var attempts := 0;
      while attempts < capacity
        invariant 0 <= attempts <= capacity
        invariant current == Probe(initial, attempts, capacity)
        invariant forall j :: 0 <= j < attempts ==> !Stops(s[Probe(initial, j, capacity)], e)
        invariant elements[..] == s && size == old(size)
      {
        var slot := elements[current];
        if slot == Empty {
          ScanAbsent(s, hashCode, e, attempts);
          return false;
        } else if slot == Occupied(e) {
          OccupantsDelete(s, current);
          elements[current] := Deleted;
          size := size - 1;
          assert elements[..] == s[current := Deleted];
          DeleteKeepsInvariant(s, current, hashCode);
          DeleteValues(s, current, elements[..]);
          return true;
        }
        ProbeNext(initial, attempts, capacity);
        current := (current + 1) % capacity;
        attempts := attempts + 1;
      }
      ScanAbsent(s, hashCode, e, capacity);
      return false;
    }

    /** `clear`. */
    method Clear()
      requires Valid()
      modifies this, elements
      ensures Valid() && size == 0 && Values() == {}
      ensures forall i :: 0 <= i < capacity ==> elements[i] == Empty
    {
      var i := 0;
      while i < elements.Length
        invariant 0 <= i <= elements.Length
        invariant forall j :: 0 <= j < i ==> elements[j] == Empty
      {
        elements[i] := Empty;
        i := i + 1;
      }
      size := 0;
      OccupantsOfEmpty(elements[..]);
    }

    /** `toList`: the elements in slot order, each once. */
    method ToList() returns (list: seq<T>)
      requires Valid()
      ensures list == Occupants(elements[..])
      ensures |list| == size && Distinct(list)
      ensures forall v :: v in list <==> v in Values()
    {
      list := [];
      var i := 0;
      while i < elements.Length
        invariant 0 <= i <= elements.Length
        invariant list == Occupants(elements[..i])
      {
        assert elements[..i + 1][..i] == elements[..i];
        if elements[i].Occupied? {
          list := list + [elements[i].value];
        }
        i := i + 1;
      }
      assert elements[..i] == elements[..];
      UniqueDistinct(elements[..]);
    }

    /**
     * `equals`: the same object, or the same size and every element of
     * `other` contained in this set; for valid sets, exactly set equality.
     */
    method Equals(other: OpenHashSet<T>) returns (eq: bool)
      requires Valid() && other.Valid()
      ensures eq <==> this == other || (size == other.size && other.Values() <= Values())
      ensures eq <==> Values() == other.Values()
    {
      SizeIsCardinality();
      other.SizeIsCardinality();
      if this == other {
        return true;
      }
      if size != other.size {
        return false;
      }
      ghost var os := other.elements[..];
      var i := 0;
      while i < other.elements.Length
        invariant 0 <= i <= other.elements.Length
        invariant forall j :: 0 <= j < i && os[j].Occupied? ==> os[j].value in Values()
      {
        var slot := other.elements[i];
        if slot.Occupied? {
          var c := Contains(slot.value);
          if !c {
            other.Member(slot.value);
            return false;
          }
        }
        i := i + 1;
      }
      forall v | v in other.Values() ensures v in Values() {
        other.Member(v);
      }
      SubsetSameCard(other.Values(), Values());
      eq := true;
    }
  }

  // ------------------------------------------------------------ invariant preservation

  lemma {:induction false} OccupantsBound<T>(s: seq<Slot<T>>)
    ensures |Occupants(s)| <= |s|
    ensures |Occupants(s)| == |s| ==> forall i :: 0 <= i < |s| ==> s[i].Occupied?
  {
    if s != [] {
      OccupantsBound(s[..|s| - 1]);
      if |Occupants(s)| == |s| {
        forall i | 0 <= i < |s| ensures s[i].Occupied? {
          if i < |s| - 1 {
            assert s[..|s| - 1][i] == s[i];
          }
        }
      }
    }
  }

  /** A table with as many elements as slots has no empty slot. */
  lemma NoRoomNoEmpty<T>(s: seq<Slot<T>>)
    requires |Occupants(s)| >= |s|
    ensures Empty !in s
  {
    OccupantsBound(s);
  }

  /** A scan that passes every slot without stopping passes no empty slot. */
  lemma FullScanNoEmpty<T>(s: seq<Slot<T>>, e: T, h: nat)
    requires h < |s| && FirstStop(s, e, h, 0) == |s|
    ensures Empty !in s
  {
    forall j | 0 <= j < |s| ensures s[j] != Empty {
      var d := Offset(h, j, |s|);
      assert !Stops(s[Probe(h, d, |s|)], e);
    }
  }

  lemma EmptyExists<T>(s: seq<Slot<T>>, e: T, h: nat)
    requires h < |s| && FirstStop(s, e, h, 0) < |s|
    requires s[Probe(h, FirstStop(s, e, h, 0), |s|)] == Empty
    ensures Empty in s
  {
  }

  lemma InsertKeepsInvariant<T>(s: seq<Slot<T>>, t: nat, e: T)
    requires t < |s| && Unique(s)
    requires forall j :: 0 <= j < |s| ==> s[j] != Occupied(e)
    requires !s[t].Occupied?
    ensures Unique(s[t := Occupied(e)])
  {
  }

  lemma InsertFindable<T>(s: seq<Slot<T>>, t: nat, e: T, hash: T -> bv32)
    requires t < |s| && Findable(s, hash) && !s[t].Occupied?
    requires PathClear(s, HomeSlot(hash(e), |s|), Offset(HomeSlot(hash(e), |s|), t, |s|))
    ensures Findable(s[t := Occupied(e)], hash)
  {
    var s' := s[t := Occupied(e)];
    forall j | 0 <= j < |s'| && s'[j].Occupied?
      ensures PathClear(s', HomeSlot(hash(s'[j].value), |s'|), Offset(HomeSlot(hash(s'[j].value), |s'|), j, |s'|))
    {
      var h := HomeSlot(hash(s'[j].value), |s'|);
      var d := Offset(h, j, |s'|);
      assert PathClear(s, h, d);
      forall k | 0 <= k < d ensures s'[Probe(h, k, |s'|)] != Empty {
        assert s[Probe(h, k, |s|)] != Empty;
      }
    }
  }

  lemma DeleteKeepsInvariant<T>(s: seq<Slot<T>>, t: nat, hash: T -> bv32)
    requires t < |s| && Unique(s) && Findable(s, hash)
    ensures Unique(s[t := Deleted]) && Findable(s[t := Deleted], hash)
  {
    var s' := s[t := Deleted];
    forall j | 0 <= j < |s'| && s'[j].Occupied?
      ensures PathClear(s', HomeSlot(hash(s'[j].value), |s'|), Offset(HomeSlot(hash(s'[j].value), |s'|), j, |s'|))
    {
      var h := HomeSlot(hash(s'[j].value), |s'|);
      var d := Offset(h, j, |s'|);
      assert s[j] == s'[j];
      assert PathClear(s, h, d);
      forall k | 0 <= k < d ensures s'[Probe(h, k, |s'|)] != Empty {
        assert s[Probe(h, k, |s|)] != Empty;
      }
    }
  }

  lemma InsertValues<T>(s: seq<Slot<T>>, t: nat, e: T, s': seq<Slot<T>>)
    requires t < |s| && !s[t].Occupied? && s' == s[t := Occupied(e)]
    ensures (set v | v in Occupants(s')) == (set v | v in Occupants(s)) + {e}
  {
    forall v ensures v in Occupants(s') <==> v in Occupants(s) || v == e {
      OccupantsMember(s, v);
      OccupantsMember(s', v);
      if v in Occupants(s) {
        var j :| 0 <= j < |s| && s[j] == Occupied(v);
        assert s'[j] == Occupied(v);
      }
      if v in Occupants(s') && v != e {
        var j :| 0 <= j < |s'| && s'[j] == Occupied(v);
        assert s[j] == Occupied(v);
      }
      if v == e {
        assert s'[t] == Occupied(e);
      }
    }
    SetOfAddition(Occupants(s), Occupants(s'), e);
  }

  lemma SetOfAddition<T>(xs: seq<T>, ys: seq<T>, e: T)
    requires forall v :: v in ys <==> v in xs || v == e
    ensures (set v | v in ys) == (set v | v in xs) + {e}
  {
  }

  /** Deleting the only slot that holds `s[t].value` removes exactly that value. */
  lemma DeleteValues<T>(s: seq<Slot<T>>, t: nat, s': seq<Slot<T>>)
    requires t < |s| && s[t].Occupied? && s' == s[t := Deleted]
    requires forall j :: 0 <= j < |s| && j != t && s[j].Occupied? ==> s[j].value != s[t].value
    ensures (set v | v in Occupants(s')) == (set v | v in Occupants(s)) - {s[t].value}
  {
    var gone := s[t].value;
    forall v ensures v in Occupants(s') <==> v in Occupants(s) && v != gone {
      OccupantsMember(s, v);
      OccupantsMember(s', v);
      if v in Occupants(s) && v != gone {
        var j :| 0 <= j < |s| && s[j] == Occupied(v);
        assert s'[j] == Occupied(v);
      }
      if v in Occupants(s') {
        var j :| 0 <= j < |s'| && s'[j] == Occupied(v);
        assert j != t && s[j] == Occupied(v);
      }
    }
    SetOfRemoval(Occupants(s), Occupants(s'), gone);
  }

  lemma SetOfRemoval<T>(xs: seq<T>, ys: seq<T>, gone: T)
    requires forall v :: v in ys <==> v in xs && v != gone
    ensures (set v | v in ys) == (set v | v in xs) - {gone}
  {
  }

  lemma SubsetSameCard<T>(a: set<T>, b: set<T>)
    requires a <= b && |a| == |b|
    ensures a == b
  {
    assert b * a == a;
    assert |b - a| == |b| - |b * a| == 0;
    assert b - a == {};
    forall x | x in b ensures x in a {
      assert x !in b - a;
    }
  }
}
