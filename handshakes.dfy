/**
 * `propagateHandshakes` (src/Lesson5/Map.kt): everyone's acquaintances,
 * direct or through a chain of handshakes. The result starts as a copy of
 * the direct acquaintances of everyone who appears in the book; a pass visits
 * every person in the map's iteration order, adds the acquaintances of each
 * of their acquaintances and removes the person; passes repeat until one
 * reports no change.
 */
module Handshakes {
  /** Who knows whom: a Kotlin `Map<String, Set<String>>`. */
  type Book = map<string, set<string>>

  /** `friends[p]`, or nobody when `p` is not a key. */
  function Friends(friends: Book, p: string): set<string> {
    if p in friends then friends[p] else {}
  }

  /** Everyone who appears in the book, as a key or in a set of acquaintances. */
  function People(friends: Book): set<string> {
    friends.Keys + Gathered(friends, friends.Keys)
  }

  /** The acquaintances of the acquaintances in `fs`. */
  function Gathered(r: Book, fs: set<string>): set<string> {
    set f, q | f in fs && f in r && q in r[f] :: q
  }

  lemma GatheredAdd(r: Book, fs: set<string>, f: string)
    ensures Gathered(r, fs + {f}) == Gathered(r, fs) + (if f in r then r[f] else {})
  {
  }

  /** Whether anybody in the book knows themselves. */
  predicate NoSelfHandshakes(friends: Book) {
    forall p :: p in friends ==> p !in friends[p]
  }

  /** A chain of one or more handshakes. */
  ghost predicate Walk(friends: Book, w: seq<string>) {
    |w| >= 2 && forall i :: 0 <= i < |w| - 1 ==> w[i + 1] in Friends(friends, w[i])
  }

  /** `q` can be reached from `p` by one or more handshakes. */
  ghost predicate Reaches(friends: Book, p: string, q: string) {
    exists w :: Walk(friends, w) && w[0] == p && w[|w| - 1] == q
  }

  lemma ReachesDirect(friends: Book, p: string, q: string)
    requires q in Friends(friends, p)
    ensures Reaches(friends, p, q)
  {
    assert Walk(friends, [p, q]);
  }

  lemma ReachesTrans(friends: Book, p: string, f: string, q: string)
    requires Reaches(friends, p, f) && Reaches(friends, f, q)
    ensures Reaches(friends, p, q)
  {
    var u :| Walk(friends, u) && u[0] == p && u[|u| - 1] == f;
    var v :| Walk(friends, v) && v[0] == f && v[|v| - 1] == q;
    var w := u + v[1..];
    forall i | 0 <= i < |w| - 1
      ensures w[i + 1] in Friends(friends, w[i])
    {
      if i < |u| - 1 {
        assert w[i] == u[i] && w[i + 1] == u[i + 1];
      } else {
        assert w[i] == v[i - |u| + 1] && w[i + 1] == v[i - |u| + 2];
      }
    }
    assert Walk(friends, w);
  }

  // ------------------------------------------------------------ the result's invariants

  /** The result's keys are everyone, each set is within everyone and reachable. */
  ghost predicate Sound(friends: Book, r: Book) {
    Bounded(friends, r) &&
    forall p, q :: p in r && q in r[p] ==> Reaches(friends, p, q)
  }

  /** The result's keys are everyone, and each set is within everyone. */
  predicate Bounded(friends: Book, r: Book) {
    r.Keys == People(friends) &&
    forall p :: p in r ==> r[p] <= People(friends)
  }

  /** Every direct acquaintance other than the person is in their set. */
  predicate Direct(friends: Book, r: Book) {
    forall p :: p in r ==> Friends(friends, p) - {p} <= r[p]
  }

  /** Nobody is in their own set. */
  predicate NoSelf(r: Book) {
    forall p :: p in r ==> p !in r[p]
  }

  /** Whoever a person knows, the person knows everyone they know (but themselves). */
  predicate Closed(r: Book) {
    forall p, f :: p in r && f in r[p] && f in r ==> r[f] - {p} <= r[p]
  }

  /** The set the source promises: everyone reachable, but the person. */
  ghost predicate Complete(friends: Book, r: Book) {
    forall p, q :: p in r ==> (q in r[p] <==> q != p && Reaches(friends, p, q))
  }

  /** A sound, direct, closed result without self-acquaintance is the promised one. */
  lemma ClosedIsComplete(friends: Book, r: Book)
    requires Sound(friends, r) && Direct(friends, r) && Closed(r) && NoSelf(r)
    ensures Complete(friends, r)
  {
    forall p, q | p in r && q != p && Reaches(friends, p, q)
      ensures q in r[p]
    {
      var w :| Walk(friends, w) && w[0] == p && w[|w| - 1] == q;
      WalkKnown(friends, r, w, 0);
    }
  }

  /** Along a chain, each person on it knows its end (or is the end). */
  lemma {:induction false} WalkKnown(friends: Book, r: Book, w: seq<string>, j: nat)
    requires Sound(friends, r) && Direct(friends, r) && Closed(r)
    requires Walk(friends, w) && j < |w| && w[0] in r
    ensures w[j] in r
    ensures w[|w| - 1] == w[j] || w[|w| - 1] in r[w[j]]
    decreases |w| - j
  {
    var q := w[|w| - 1];
    if j > 0 {
      assert w[j] in Friends(friends, w[j - 1]);
      assert w[j] in People(friends) by {
        if w[j - 1] !in friends { assert false; }
      }
    }
    if j < |w| - 1 {
      WalkKnown(friends, r, w, j + 1);
      var a, b := w[j], w[j + 1];
      assert b in Friends(friends, a);
      if b != a {
        assert b in r[a];
        if q != b {
          assert q in r[b];
          assert r[b] - {a} <= r[a];
        }
      }
    }
  }

  // ------------------------------------------------------------ one person's turn

  /**
   * One person's turn: their set grows by the sets of everyone in it, and
   * loses the person. (When the person is in their own set, Kotlin adds the
   * set to itself; adding the copy in `r` has the same effect.)
   */
  function Visited(r: Book, p: string): set<string>
    requires p in r
  {
    (r[p] + Gathered(r, r[p])) - {p}
  }

  /** The loop over `knows.toList()`: the snapshot of the person's set at the start of the turn. */
  method VisitPerson(result: Book, person: string) returns (knows: set<string>)
    requires person in result
    ensures knows == Visited(result, person)
  {
    knows := result[person];
    var snapshot := knows;
    var remaining := snapshot;
    while remaining != {}
      invariant remaining <= snapshot
      invariant knows == snapshot + Gathered(result, snapshot - remaining)
      decreases remaining
    {
      var friend :| friend in remaining;
      GatheredAdd(result, snapshot - remaining, friend);
      if friend in result {
        knows := knows + result[friend];
      }
      assert snapshot - (remaining - {friend}) == (snapshot - remaining) + {friend};
      remaining := remaining - {friend};
    }
    assert snapshot - remaining == snapshot;
    knows := knows - {person};
  }

  /** A turn keeps the result sound and direct, and leaves the person out of their set. */
  lemma VisitKeeps(friends: Book, r: Book, p: string)
    requires Sound(friends, r) && Direct(friends, r) && p in r
    ensures Sound(friends, r[p := Visited(r, p)]) && Direct(friends, r[p := Visited(r, p)])
    ensures p !in Visited(r, p) && r[p] - {p} <= Visited(r, p)
  {
    var s := r[p := Visited(r, p)];
    forall q | q in Visited(r, p)
      ensures Reaches(friends, p, q) && q in People(friends)
    {
      if q !in r[p] {
        var f :| f in r[p] && f in r && q in r[f];
        ReachesTrans(friends, p, f, q);
      }
    }
    assert s.Keys == r.Keys;
  }

  /** A turn keeps the result within everyone, and leaves the person out of their set. */
  lemma VisitBounded(friends: Book, r: Book, p: string)
    requires Bounded(friends, r) && p in r
    ensures Bounded(friends, r[p := Visited(r, p)])
    ensures p !in Visited(r, p) && r[p] - {p} <= Visited(r, p)
  {
    assert Visited(r, p) <= People(friends);
    assert r[p := Visited(r, p)].Keys == r.Keys;
  }

  /**
   * `s` is at least as settled as `r`: nobody loses an acquaintance other
   * than themselves, and nobody comes back into their own set.
   */
  predicate Settles(r: Book, s: Book) {
    s.Keys == r.Keys &&
    forall p :: p in r ==> r[p] - {p} <= s[p] && (p in s[p] ==> p in r[p])
  }

  lemma VisitSettles(r: Book, p: string)
    requires p in r
    ensures Settles(r, r[p := Visited(r, p)])
  {
  }

  lemma SettlesTrans(a: Book, b: Book, c: Book)
    requires Settles(a, b) && Settles(b, c)
    ensures Settles(a, c)
  {
  }

  /** Once a set has moved on, a settling step cannot bring it back. */
  lemma SettlesStays(r: Book, prev: Book, next: Book)
    requires Settles(r, prev) && Settles(prev, next) && prev != r
    ensures next != r
  {
    assert prev.Keys == r.Keys;
    var p :| p in r && prev[p] != r[p];
    var q :| (q in prev[p]) != (q in r[p]);
    if q == p {
      assert p !in next[p] && p in r[p];
    } else {
      assert q in next[p] && q !in r[p];
    }
  }

  /**
   * What is still to settle: pairs (p, q) of another person p does not know
   * yet, and (p, p) while p is in their own set.
   */
  ghost function Pending(r: Book): set<(string, string)> {
    set p, q | p in r && q in r && (q == p <==> q in r[p]) :: (p, q)
  }

  /** Settling never adds a pending pair, and removes one when something changed. */
  lemma SettledPending(r: Book, s: Book)
    requires Settles(r, s) && forall p :: p in s ==> s[p] <= s.Keys
    ensures Pending(s) <= Pending(r)
    ensures s != r ==> Pending(s) < Pending(r)
  {
    if s != r {
      var p :| p in r && s[p] != r[p];
      if q :| q in s[p] && q !in r[p] {
        assert (p, q) in Pending(r) && (p, q) !in Pending(s);
      } else {
        assert p in r[p] && p !in s[p];
        assert (p, p) in Pending(r) && (p, p) !in Pending(s);
      }
    }
  }

  /** Without self-acquaintance, a turn changes the set exactly when it grows. */
  lemma VisitGrows(r: Book, p: string)
    requires p in r && p !in r[p]
    ensures |Visited(r, p)| > |r[p]| <==> Visited(r, p) != r[p]
  {
    var v := Visited(r, p);
    assert r[p] <= v;
    if v != r[p] {
      var q :| q in v && q !in r[p];
      var grown := r[p] + {q};
      assert v == grown + (v - grown);
      assert |v| == |grown| + |v - grown|;
      assert |grown| == |r[p]| + 1;
    }
  }

  // ------------------------------------------------------------ a pass

  predicate Visits(order: seq<string>, r: Book) {
    forall i :: 0 <= i < |order| ==> order[i] in r
  }

  /** The result after the first `k` turns of a pass over `order`. */
  function PassState(r: Book, order: seq<string>, k: nat): (s: Book)
    requires k <= |order| && Visits(order, r)
    ensures s.Keys == r.Keys
  {
    if k == 0 then r
    else
      var prev := PassState(r, order, k - 1);
      prev[order[k - 1] := Visited(prev, order[k - 1])]
  }

  /** Whether one of the first `k` turns made a set larger: the source's test. */
  function PassGrew(r: Book, order: seq<string>, k: nat): bool
    requires k <= |order| && Visits(order, r)
  {
    if k == 0 then false
    else
      var prev := PassState(r, order, k - 1);
      PassGrew(r, order, k - 1) || |Visited(prev, order[k - 1])| > |prev[order[k - 1]]|
  }

  /** Whether one of the first `k` turns changed a set. */
  function PassChanged(r: Book, order: seq<string>, k: nat): bool
    requires k <= |order| && Visits(order, r)
  {
    if k == 0 then false
    else
      var prev := PassState(r, order, k - 1);
      PassChanged(r, order, k - 1) || Visited(prev, order[k - 1]) != prev[order[k - 1]]
  }

  /**
   * One pass of the do-while loop: every person's turn, in iteration order.
   * `grew` is the source's `changed` flag; `changed` records whether a set
   * changed at all.
   */
  method Pass(result: Book, order: seq<string>) returns (next: Book, grew: bool, changed: bool)
    requires Visits(order, result)
    ensures next == PassState(result, order, |order|)
    ensures grew == PassGrew(result, order, |order|)
    ensures changed == PassChanged(result, order, |order|)
  {
    next, grew, changed := result, false, false;
    for k := 0 to |order|
      invariant next == PassState(result, order, k)
      invariant grew == PassGrew(result, order, k)
      invariant changed == PassChanged(result, order, k)
    {
      PassStep(result, order, k);
      next, grew, changed := Turn(next, order[k], grew, changed);
    }
  }

  /** One turn of the pass, with the source's size test and the test for any change. */
  method Turn(result: Book, person: string, grewBefore: bool, changedBefore: bool)
    returns (next: Book, grew: bool, changed: bool)
    requires person in result
    ensures next == result[person := Visited(result, person)]
    ensures grew == (grewBefore || |Visited(result, person)| > |result[person]|)
    ensures changed == (changedBefore || Visited(result, person) != result[person])
  {
    var currentSize := |result[person]|;
    var before := result[person];
    var knows := VisitPerson(result, person);
    next := result[person := knows];
    grew, changed := grewBefore, changedBefore;
    if |knows| > currentSize {
      grew := true;
    }
    if knows != before {
      changed := true;
    }
  }

  /** One more turn of a pass. */
  lemma PassStep(r: Book, order: seq<string>, k: nat)
    requires k < |order| && Visits(order, r)
    ensures PassState(r, order, k + 1) ==
      PassState(r, order, k)[order[k] := Visited(PassState(r, order, k), order[k])]
    ensures PassGrew(r, order, k + 1) ==
      (PassGrew(r, order, k) || |Visited(PassState(r, order, k), order[k])| > |PassState(r, order, k)[order[k]]|)
    ensures PassChanged(r, order, k + 1) ==
      (PassChanged(r, order, k) || Visited(PassState(r, order, k), order[k]) != PassState(r, order, k)[order[k]])
  {
  }

  /** A pass keeps the result sound and direct. */
  lemma {:induction false} PassKeeps(friends: Book, r: Book, order: seq<string>, k: nat)
    requires k <= |order| && Visits(order, r) && Sound(friends, r) && Direct(friends, r)
    ensures Sound(friends, PassState(r, order, k)) && Direct(friends, PassState(r, order, k))
  {
    if k > 0 {
      PassKeeps(friends, r, order, k - 1);
      VisitKeeps(friends, PassState(r, order, k - 1), order[k - 1]);
    }
  }

  /** A pass keeps the result within everyone. */
  lemma {:induction false} PassBounded(friends: Book, r: Book, order: seq<string>, k: nat)
    requires k <= |order| && Visits(order, r) && Bounded(friends, r)
    ensures Bounded(friends, PassState(r, order, k))
  {
    if k > 0 {
      PassBounded(friends, r, order, k - 1);
      VisitBounded(friends, PassState(r, order, k - 1), order[k - 1]);
    }
  }

  /** A pass only settles, and a pass that changed a set ends elsewhere than it began. */
  lemma {:induction false} PassSettles(r: Book, order: seq<string>, k: nat)
    requires k <= |order| && Visits(order, r)
    ensures Settles(r, PassState(r, order, k))
    ensures PassChanged(r, order, k) ==> PassState(r, order, k) != r
  {
    if k > 0 {
      PassSettles(r, order, k - 1);
      var prev := PassState(r, order, k - 1);
      VisitSettles(prev, order[k - 1]);
      SettlesTrans(r, prev, PassState(r, order, k));
      if prev != r {
        SettlesStays(r, prev, PassState(r, order, k));
      }
    }
  }

  /** A set that grew has changed. */
  lemma {:induction false} GrewChanged(r: Book, order: seq<string>, k: nat)
    requires k <= |order| && Visits(order, r)
    ensures PassGrew(r, order, k) ==> PassChanged(r, order, k)
  {
    if k > 0 {
      GrewChanged(r, order, k - 1);
    }
  }

  /** After the turns of `order[..k]`, each of those people is out of their own set. */
  lemma {:induction false} PassRemovesSelf(r: Book, order: seq<string>, k: nat)
    requires k <= |order| && Visits(order, r)
    requires forall i, j :: 0 <= i < j < |order| ==> order[i] != order[j]
    ensures forall i :: 0 <= i < k ==> order[i] !in PassState(r, order, k)[order[i]]
  {
    if k > 0 {
      PassRemovesSelf(r, order, k - 1);
    }
  }

  /** Without self-acquaintance, the source's test sees every change. */
  lemma {:induction false} PassKeepsNoSelf(r: Book, order: seq<string>, k: nat)
    requires k <= |order| && Visits(order, r) && NoSelf(r)
    ensures NoSelf(PassState(r, order, k))
    ensures PassGrew(r, order, k) == PassChanged(r, order, k)
  {
    if k > 0 {
      PassKeepsNoSelf(r, order, k - 1);
      VisitGrows(PassState(r, order, k - 1), order[k - 1]);
    }
  }

  /** A pass that changes nothing leaves the result as it was, and every turn was idle. */
  lemma {:induction false} PassIdle(r: Book, order: seq<string>, k: nat)
    requires k <= |order| && Visits(order, r) && !PassChanged(r, order, k)
    ensures PassState(r, order, k) == r
    ensures forall i :: 0 <= i < k ==> Visited(r, order[i]) == r[order[i]]
  {
    if k > 0 {
      PassIdle(r, order, k - 1);
    }
  }

  /** A result on which every turn is idle is closed and free of self-acquaintance. */
  lemma IdleIsClosed(r: Book, order: seq<string>)
    requires Visits(order, r) && forall p :: p in r ==> p in order
    requires forall i :: 0 <= i < |order| ==> Visited(r, order[i]) == r[order[i]]
    ensures Closed(r) && NoSelf(r)
  {
    forall p | p in r
      ensures Visited(r, p) == r[p]
    {
      var i :| 0 <= i < |order| && order[i] == p;
    }
    forall p, f | p in r && f in r[p] && f in r
      ensures r[f] - {p} <= r[p]
    {
      assert r[f] <= Gathered(r, r[p]);
    }
  }

  // ------------------------------------------------------------ the whole function

  /** The loops over `friends.keys` and `friends.values` that collect `allPeople`. */
  method CollectPeople(friends: Book) returns (allPeople: set<string>)
    ensures allPeople == People(friends)
  {
    allPeople := friends.Keys;
    var keys := friends.Keys;
    while keys != {}
      invariant keys <= friends.Keys
      invariant allPeople == friends.Keys + Gathered(friends, friends.Keys - keys)
      decreases keys
    {
      var p :| p in keys;
      GatheredAdd(friends, friends.Keys - keys, p);
      assert friends.Keys - (keys - {p}) == (friends.Keys - keys) + {p};
      allPeople := allPeople + friends[p];
      keys := keys - {p};
    }
    assert friends.Keys - keys == friends.Keys;
  }

  /** The result before the first pass: everyone with their direct acquaintances. */
  function Initial(friends: Book): Book {
    map p | p in People(friends) :: Friends(friends, p)
  }

  /** The loop over `allPeople` that fills the result with the direct acquaintances. */
  method InitResult(friends: Book, allPeople: set<string>) returns (result: Book)
    requires allPeople == People(friends)
    ensures result == Initial(friends)
  {
    result := map[];
    var remaining := allPeople;
    while remaining != {}
      invariant remaining <= allPeople
      invariant result.Keys == allPeople - remaining
      invariant forall p :: p in result ==> result[p] == Friends(friends, p)
      decreases remaining
    {
      var person :| person in remaining;
      result := result[person := Friends(friends, person)];
      remaining := remaining - {person};
    }
  }

  /** The first result is sound and direct, and free of self-acquaintance when the book is. */
  lemma InitialSound(friends: Book)
    ensures Sound(friends, Initial(friends)) && Direct(friends, Initial(friends))
    ensures NoSelfHandshakes(friends) <==> NoSelf(Initial(friends))
  {
    var r := Initial(friends);
    forall p, q | p in r && q in r[p]
      ensures Reaches(friends, p, q) && q in People(friends)
    {
      ReachesDirect(friends, p, q);
      assert q in Gathered(friends, friends.Keys);
    }
    assert r.Keys == People(friends);
  }

  /** `allPeople` in its iteration order: everyone once. */
  predicate ListsEveryone(friends: Book, order: seq<string>) {
    (forall i, j :: 0 <= i < j < |order| ==> order[i] != order[j]) &&
    (forall i :: 0 <= i < |order| ==> order[i] in People(friends)) &&
    forall p :: p in People(friends) ==> p in order
  }

  /**
   * One pass as the source runs it: afterwards the result is still sound and
   * direct, nobody is in their own set, and the pass settled the result.
   */
  lemma PassFacts(friends: Book, r: Book, order: seq<string>)
    requires ListsEveryone(friends, order) && Sound(friends, r) && Direct(friends, r)
    ensures Visits(order, r)
    ensures Sound(friends, PassState(r, order, |order|)) && Direct(friends, PassState(r, order, |order|))
    ensures NoSelf(PassState(r, order, |order|))
    ensures PassGrew(r, order, |order|) ==> PassChanged(r, order, |order|)
    ensures PassState(r, order, |order|) != r ==> Pending(PassState(r, order, |order|)) < Pending(r)
    ensures Pending(PassState(r, order, |order|)) <= Pending(r)
    ensures PassChanged(r, order, |order|) ==> PassState(r, order, |order|) != r
    ensures NoSelf(r) ==> PassGrew(r, order, |order|) == PassChanged(r, order, |order|)
    ensures !PassChanged(r, order, |order|) ==> PassState(r, order, |order|) == r && Closed(r) && NoSelf(r)
  {
    var n := |order|;
    assert Visits(order, r);
    PassKeeps(friends, r, order, n);
    var s := PassState(r, order, n);
    PassRemovesSelf(r, order, n);
    forall p | p in s
      ensures p !in s[p]
    {
      var i :| 0 <= i < n && order[i] == p;
    }
    GrewChanged(r, order, n);
    PassSettles(r, order, n);
    SettledPending(r, s);
    if NoSelf(r) {
      PassKeepsNoSelf(r, order, n);
    }
    if !PassChanged(r, order, n) {
      PassIdle(r, order, n);
      IdleIsClosed(r, order);
    }
  }

  /**
   * `propagateHandshakes(friends)` as written, with `order` the iteration
   * order of `allPeople`. The passes stop when no set grew. The result holds
   * everyone, only reachable people, all direct acquaintances and nobody in
   * their own set; it is the promised one when nobody knows themselves. When
   * the first pass grows no set, the result is what that pass left.
   */
  method PropagateHandshakes(friends: Book, order: seq<string>) returns (result: Book)
    requires ListsEveryone(friends, order)
    ensures result.Keys == People(friends)
    ensures Sound(friends, result) && Direct(friends, result) && NoSelf(result)
    ensures NoSelfHandshakes(friends) ==> Complete(friends, result)
    ensures !PassGrew(Initial(friends), order, |order|) ==>
      result == PassState(Initial(friends), order, |order|)
  {
    var allPeople := CollectPeople(friends);
    result := InitResult(friends, allPeople);
    InitialSound(friends);
    var grew := true;
    var first := true;
    while grew
      invariant Sound(friends, result) && Direct(friends, result)
      invariant NoSelfHandshakes(friends) ==> NoSelf(result)
      invariant first ==> grew && result == Initial(friends)
      invariant !grew ==> NoSelf(result)
      invariant !grew && NoSelfHandshakes(friends) ==> Closed(result)
      invariant !first && !PassGrew(Initial(friends), order, |order|) ==>
        !grew && result == PassState(Initial(friends), order, |order|)
      decreases Pending(result), grew
    {
      ghost var before := result;
      PassFacts(friends, before, order);
      var changed;
      result, grew, changed := Pass(result, order);
      if !grew && NoSelfHandshakes(friends) {
        assert result == before;
      }
      first := false;
    }
    if NoSelfHandshakes(friends) {
      ClosedIsComplete(friends, result);
    }
  }

  /**
   * The intended function: passes repeat while a set changes, which the
   * source's size test misses when a person is in their own set. The
   * result is everyone's set of people reachable by handshakes, but themselves.
   */
  method PropagateHandshakesFixed(friends: Book, order: seq<string>) returns (result: Book)
    requires ListsEveryone(friends, order)
    ensures result.Keys == People(friends)
    ensures Complete(friends, result)
  {
    var allPeople := CollectPeople(friends);
    result := InitResult(friends, allPeople);
    InitialSound(friends);
    var changed := true;
    while changed
      invariant Sound(friends, result) && Direct(friends, result)
      invariant !changed ==> Closed(result) && NoSelf(result)
      decreases Pending(result), changed
    {
      ghost var before := result;
      PassFacts(friends, before, order);
      var grew;
      result, grew, changed := Pass(result, order);
    }
    ClosedIsComplete(friends, result);
  }

  // ------------------------------------------------------------ the size test misses a change

  /** A book where `a` and `b` know themselves: `a` knows `b`, `b` knows `c`, `c` knows `d`. */
  function SelfLoops(a: string, b: string, c: string, d: string): Book {
    map[a := {a, b}, b := {b, c}, c := {d}, d := {}]
  }

  lemma GatheredPair(r: Book, a: string, b: string)
    ensures Gathered(r, {a, b}) == Friends(r, a) + Friends(r, b)
  {
    GatheredAdd(r, {}, a);
    assert {a} == {} + {a};
    GatheredAdd(r, {a}, b);
    assert {a, b} == {a} + {b};
  }

  /** Everyone in the example is a key, so the first result is the book. */
  lemma SelfLoopsInitial(a: string, b: string, c: string, d: string)
    ensures People(SelfLoops(a, b, c, d)) == SelfLoops(a, b, c, d).Keys
    ensures Initial(SelfLoops(a, b, c, d)) == SelfLoops(a, b, c, d)
  {
    var f := SelfLoops(a, b, c, d);
    assert Gathered(f, f.Keys) <= f.Keys;
  }

  /** The turn of a person who knows themselves and one other person `y`. */
  lemma TurnOfSelfLoop(r: Book, x: string, y: string)
    requires x in r && r[x] == {x, y} && x != y && x !in Friends(r, y)
    ensures Visited(r, x) == {y} + Friends(r, y)
  {
    GatheredPair(r, x, y);
  }

  /** The turn of a person who knows only `y`, who knows nobody. */
  lemma TurnOfLeaf(r: Book, x: string, y: string)
    requires x in r && r[x] == {y} && x != y && Friends(r, y) == {}
    ensures Visited(r, x) == {y}
  {
    GatheredPair(r, y, y);
    assert {y, y} == {y};
  }

  /** The four turns of the first pass: `a` ends up knowing `b` and `c` only, and no set grew. */
  lemma SelfLoopsFirstPass(a: string, b: string, c: string, d: string)
    requires a != b && a != c && a != d && b != c && b != d && c != d
    ensures Visits([a, b, c, d], SelfLoops(a, b, c, d))
    ensures PassState(SelfLoops(a, b, c, d), [a, b, c, d], 4)[a] == {b, c}
    ensures !PassGrew(SelfLoops(a, b, c, d), [a, b, c, d], 4)
  {
    var r0 := SelfLoops(a, b, c, d);
    var order := [a, b, c, d];
    assert Visits(order, r0);
    assert order[0] == a && order[1] == b && order[2] == c && order[3] == d;
    TurnOfSelfLoop(r0, a, b);
    assert {b} + {b, c} == {b, c};
    PassStep(r0, order, 0);
    var s1 := PassState(r0, order, 1);
    assert s1[a] == {b, c} && s1[b] == {b, c} && s1[c] == {d} && s1[d] == {};
    assert !PassGrew(r0, order, 1);
    TurnOfSelfLoop(s1, b, c);
    PassStep(r0, order, 1);
    var s2 := PassState(r0, order, 2);
    assert s2[a] == {b, c} && s2[b] == {c, d} && s2[c] == {d} && s2[d] == {};
    assert |{c, d}| == |{b, c}|;
    assert !PassGrew(r0, order, 2);
    TurnOfLeaf(s2, c, d);
    PassStep(r0, order, 2);
    var s3 := PassState(r0, order, 3);
    assert s3[a] == {b, c} && s3[d] == {};
    assert !PassGrew(r0, order, 3);
    PassStep(r0, order, 3);
  }

  /**
   * With `a` and `b` in their own sets, the first pass changes `a`'s and
   * `b`'s sets without growing them, so the source stops after it, and `a`
   * never learns of `d`, whom `a` reaches through `b` and `c`.
   */
  lemma SelfHandshakeStopsEarly(a: string, b: string, c: string, d: string)
    requires a != b && a != c && a != d && b != c && b != d && c != d
    ensures ListsEveryone(SelfLoops(a, b, c, d), [a, b, c, d])
    ensures !PassGrew(Initial(SelfLoops(a, b, c, d)), [a, b, c, d], 4)
    ensures d !in PassState(Initial(SelfLoops(a, b, c, d)), [a, b, c, d], 4)[a]
    ensures Reaches(SelfLoops(a, b, c, d), a, d)
    ensures !Complete(SelfLoops(a, b, c, d), PassState(Initial(SelfLoops(a, b, c, d)), [a, b, c, d], 4))
  {
    SelfLoopsInitial(a, b, c, d);
    SelfLoopsFirstPass(a, b, c, d);
    var f := SelfLoops(a, b, c, d);
    ReachesDirect(f, a, b);
    ReachesDirect(f, b, c);
    ReachesDirect(f, c, d);
    ReachesTrans(f, a, b, c);
    ReachesTrans(f, a, c, d);
    assert a in PassState(f, [a, b, c, d], 4);
  }
}
