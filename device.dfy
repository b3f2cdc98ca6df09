/**
 * The conveyor device of `computeDeviceCells` (src/Lesson6/Parse.kt): a tape
 * of `cells` integers, a sensor over one of them, and a program over the
 * commands `> < + - [ ]` and space. `[` and `]` jump to the command after
 * their partner bracket, like a while loop.
 *
 * The partner of a bracket is specified here by bracket depths (the first
 * later position where the depth falls back, the last earlier position at the
 * same depth); the Kotlin code finds it with a stack, and `MatchBrackets`
 * is proved to compute exactly these partners.
 */
module DeviceCells {
  import opened Wrappers
  import opened Arith

  predicate Allowed(c: char) {
    c == '>' || c == '<' || c == '+' || c == '-' || c == '[' || c == ']' || c == ' '
  }

  predicate AllAllowed(s: string) {
    forall i :: 0 <= i < |s| ==> Allowed(s[i])
  }

  predicate IsBracket(c: char) { c == '[' || c == ']' }

  function Delta(c: char): (r: int)
    ensures -1 <= r <= 1
  {
    if c == '[' then 1 else if c == ']' then -1 else 0
  }

  /** The bracket depth after the first `k` characters: opened minus closed. */
  function DepthAt(s: string, k: nat): int
    requires k <= |s|
  {
    if k == 0 then 0 else DepthAt(s, k - 1) + Delta(s[k - 1])
  }

  /** No prefix closes more brackets than it opened. */
  predicate NeverNegative(s: string) {
    forall k :: 0 <= k <= |s| ==> DepthAt(s, k) >= 0
  }

  /** The brackets pair up: the second validation of `computeDeviceCells`. */
  predicate Balanced(s: string) {
    NeverNegative(s) && DepthAt(s, |s|) == 0
  }

  // ------------------------------------------------------------ partners

  /**
   * The least `r >= j` at which the depth after position `r` is `d`, or
   * `|s|` when there is none.
   */
  function CloseFrom(s: string, d: int, j: nat): (r: nat)
    requires j <= |s|
    ensures j <= r <= |s|
    ensures r < |s| ==> DepthAt(s, r + 1) == d
    decreases |s| - j
  {
    if j == |s| then |s|
    else if DepthAt(s, j + 1) == d then j
    else CloseFrom(s, d, j + 1)
  }

  /**
   * The greatest `r <= j` at which the depth before position `r` is `e`, or
   * -1 when there is none.
   */
  function OpenFrom(s: string, e: int, j: int): (r: int)
    requires -1 <= j <= |s|
    ensures -1 <= r <= j
    ensures r >= 0 ==> DepthAt(s, r) == e
    decreases j + 1
  {
    if j < 0 then -1
    else if DepthAt(s, j) == e then j
    else OpenFrom(s, e, j - 1)
  }

  /** No position the search for `d` passes over has depth `d`. */
  lemma {:induction false} CloseFromSkips(s: string, d: int, j: nat)
    requires j <= |s|
    ensures forall k :: j < k <= CloseFrom(s, d, j) ==> DepthAt(s, k) != d
    decreases |s| - j
  {
    if j < |s| && DepthAt(s, j + 1) != d {
      CloseFromSkips(s, d, j + 1);
    }
  }

  /** No position the backward search for `e` passes over has depth `e`. */
  lemma {:induction false} OpenFromSkips(s: string, e: int, j: int)
    requires -1 <= j <= |s|
    ensures forall k :: OpenFrom(s, e, j) < k <= j ==> DepthAt(s, k) != e
    decreases j + 1
  {
    if j >= 0 && DepthAt(s, j) != e {
      OpenFromSkips(s, e, j - 1);
    }
  }

  /** The partner of the `[` at `i`: where the depth first returns to its level. */
  function Close(s: string, i: nat): nat
    requires i < |s|
  {
    CloseFrom(s, DepthAt(s, i), i)
  }

  /** The partner of the `]` at `i`: the last earlier position at its level. */
  function Open(s: string, i: nat): int
    requires i < |s|
  {
    OpenFrom(s, DepthAt(s, i + 1), i)
  }

  lemma {:induction false} CloseFromFinds(s: string, d: int, j: nat, i: nat)
    requires j <= i < |s|
    requires DepthAt(s, i + 1) == d
    requires forall k :: j < k <= i ==> DepthAt(s, k) != d
    ensures CloseFrom(s, d, j) == i
    decreases i - j
  {
    if j < i {
      assert DepthAt(s, j + 1) != d;
      CloseFromFinds(s, d, j + 1, i);
    }
  }

  lemma {:induction false} OpenFromFinds(s: string, e: int, p: nat, j: nat)
    requires p <= j <= |s|
    requires DepthAt(s, p) == e
    requires forall k :: p < k <= j ==> DepthAt(s, k) != e
    ensures OpenFrom(s, e, j) == p
    decreases j - p
  {
    if p < j {
      assert DepthAt(s, j) != e;
      OpenFromFinds(s, e, p, j - 1);
    }
  }

  /** The search for a closing level succeeds once the depth is above it and ends at or below it. */
  lemma {:induction false} CloseFromExists(s: string, d: int, j: nat)
    requires j <= |s|
    requires DepthAt(s, j) > d >= DepthAt(s, |s|)
    ensures CloseFrom(s, d, j) < |s|
    decreases |s| - j
  {
    assert j < |s|;
    if DepthAt(s, j + 1) != d {
      CloseFromExists(s, d, j + 1);
    }
  }

  /** The search for an opening level succeeds once the depth is above it and started at zero. */
  lemma {:induction false} OpenFromExists(s: string, e: int, j: nat)
    requires j <= |s|
    requires DepthAt(s, j) > e >= 0
    ensures OpenFrom(s, e, j) >= 0
    decreases j
  {
    assert j > 0;
    if DepthAt(s, j - 1) != e {
      OpenFromExists(s, e, j - 1);
    }
  }

  /** A depth that never meets `d` on `(a, b]` stays on the side it started. */
  lemma {:induction false} AboveUntil(s: string, d: int, a: nat, b: nat)
    requires a <= b <= |s|
    requires DepthAt(s, a) > d
    requires forall k :: a < k <= b ==> DepthAt(s, k) != d
    ensures forall k :: a <= k <= b ==> DepthAt(s, k) > d
    decreases b - a
  {
    if a < b {
      assert DepthAt(s, a + 1) != d;
      AboveUntil(s, d, a + 1, b);
    }
  }

  /** The same, walking down from `b`. */
  lemma {:induction false} AboveDownTo(s: string, e: int, a: nat, b: nat)
    requires a <= b <= |s|
    requires DepthAt(s, b) > e
    requires forall k :: a < k <= b ==> DepthAt(s, k) != e
    ensures forall k :: a < k <= b ==> DepthAt(s, k) > e
    decreases b - a
  {
    if a < b {
      if a + 1 < b {
        AboveDownTo(s, e, a + 1, b);
        assert DepthAt(s, a + 2) > e;
        assert DepthAt(s, a + 1) != e;
      }
    }
  }

  /**
   * In a balanced program every `[` has a partner `]`, and that bracket's
   * partner is the `[` again.
   */
  lemma OpenThenClose(s: string, i: nat)
    requires i < |s| && s[i] == '[' && Balanced(s)
    ensures Close(s, i) < |s| && s[Close(s, i)] == ']'
    ensures Open(s, Close(s, i)) == i
  {
    var d := DepthAt(s, i);
    assert DepthAt(s, i + 1) == d + 1;
    assert CloseFrom(s, d, i) == CloseFrom(s, d, i + 1);
    CloseFromExists(s, d, i + 1);
    var j := Close(s, i);
    CloseFromSkips(s, d, i + 1);
    assert i < j < |s| && DepthAt(s, j + 1) == d;
    AboveUntil(s, d, i + 1, j);
    assert DepthAt(s, j) > d;
    assert s[j] == ']';
    OpenFromFinds(s, d, i, j);
  }

  /**
   * In a balanced program every `]` has a partner `[`, and that bracket's
   * partner is the `]` again.
   */
  lemma CloseThenOpen(s: string, j: nat)
    requires j < |s| && s[j] == ']' && Balanced(s)
    ensures 0 <= Open(s, j) < j && s[Open(s, j)] == '['
    ensures Close(s, Open(s, j)) == j
  {
    var e := DepthAt(s, j + 1);
    assert DepthAt(s, j) == e + 1;
    OpenFromExists(s, e, j);
    var p := Open(s, j);
    OpenFromSkips(s, e, j);
    assert 0 <= p < j && DepthAt(s, p) == e;
    AboveDownTo(s, e, p, j);
    assert DepthAt(s, p + 1) > e;
    assert s[p] == '[';
    CloseFromFinds(s, e, p, j);
  }

  // ------------------------------------------------------- bracket pairs

  /** `bracketPairs` agrees with the partner functions on every key below `upTo`. */
  predicate PairsSound(s: string, pairs: map<int, int>, upTo: nat)
    requires upTo <= |s|
  {
    forall q :: q in pairs ==>
      0 <= q < upTo && 0 <= pairs[q] < upTo && IsBracket(s[q]) &&
      (s[q] == '[' ==> pairs[q] == Close(s, q)) &&
      (s[q] == ']' ==> pairs[q] == Open(s, q))
  }

  /** Every bracket has its partner in `pairs`. */
  predicate PairsComplete(s: string, pairs: map<int, int>) {
    forall q :: 0 <= q < |s| && IsBracket(s[q]) ==> q in pairs
  }

  /**
   * The stack pass of `computeDeviceCells`: a `]` with an empty stack throws
   * IllegalArgumentException; otherwise it pops its `[` and records both
   * directions. It fails exactly when some prefix closes too many brackets,
   * every entry is the partner of its key, every `]` gets an entry, and in a
   * balanced program so does every `[`.
   */
  method MatchBrackets(s: string) returns (r: Result<map<int, int>>)
    ensures r.Fail? <==> !NeverNegative(s)
    ensures r.Fail? ==> r.error == IllegalArgument
    ensures r.Ok? ==> PairsSound(s, r.value, |s|)
    ensures r.Ok? ==> forall q :: 0 <= q < |s| && s[q] == ']' ==> q in r.value
    ensures r.Ok? && DepthAt(s, |s|) == 0 ==> PairsComplete(s, r.value)
  {
    var pairs: map<int, int> := map[];
    var stack: seq<nat> := [];
    var i := 0;
    while i < |s|
      invariant 0 <= i <= |s|
      invariant MatchedSoFar(s, stack, pairs, i)
    {
      var next := MatchCharacter(s, stack, pairs, i);
      if next.Fail? {
        return Fail(next.error);
      }
      stack, pairs := next.value.0, next.value.1;
      i := i + 1;
    }
    MatchDone(s, stack, pairs);
    r := Ok(pairs);
  }

  /** The `when (commands[i])` of the stack pass, on the stack and the pairs so far. */
  method MatchCharacter(s: string, stack: seq<nat>, pairs: map<int, int>, i: nat)
    returns (r: Result<(seq<nat>, map<int, int>)>)
    requires i < |s| && MatchedSoFar(s, stack, pairs, i)
    ensures r.Fail? ==> r.error == IllegalArgument && !NeverNegative(s)
    ensures r.Ok? ==> MatchedSoFar(s, r.value.0, r.value.1, i + 1)
  {
    if s[i] == '[' {
      MatchPush(s, stack, pairs, i);
      return Ok((stack + [i], pairs));
    } else if s[i] == ']' {
      if |stack| == 0 {
        MatchUnderflow(s, stack, pairs, i);
        return Fail(IllegalArgument);
      }
      var openIndex := stack[|stack| - 1];
      MatchPop(s, stack, pairs, i);
      return Ok((stack[..|stack| - 1], pairs[openIndex := i][i := openIndex]));
    }
    MatchOther(s, stack, pairs, i);
    return Ok((stack, pairs));
  }

  /** The state of the stack pass after the first `i` characters. */
  predicate MatchedSoFar(s: string, stack: seq<nat>, pairs: map<int, int>, i: nat)
    requires i <= |s|
  {
    (forall k :: 0 <= k <= i ==> DepthAt(s, k) >= 0) &&
    Stacked(s, stack, i) && Paired(s, stack, pairs, i)
  }

  lemma MatchDone(s: string, stack: seq<nat>, pairs: map<int, int>)
    requires MatchedSoFar(s, stack, pairs, |s|)
    ensures NeverNegative(s) && PairsSound(s, pairs, |s|)
    ensures forall q :: 0 <= q < |s| && s[q] == ']' ==> q in pairs
    ensures DepthAt(s, |s|) == 0 ==> PairsComplete(s, pairs)
  {
    assert |stack| == DepthAt(s, |s|);
  }

  /**
   * The stack after the first `i` characters holds, level by level, the `[`
   * still open: the one at level `d` was opened at depth `d` and the depth
   * has stayed above `d` since.
   */
  predicate Stacked(s: string, stack: seq<nat>, i: nat)
    requires i <= |s|
  {
    |stack| == DepthAt(s, i) &&
    (forall d :: 0 <= d < |stack| ==>
      0 <= stack[d] < i && s[stack[d]] == '[' && DepthAt(s, stack[d]) == d) &&
    (forall d, k :: 0 <= d < |stack| && stack[d] < k <= i ==> DepthAt(s, k) > d)
  }

  /**
   * After the first `i` characters every `]` and every `[` no longer on the
   * stack is in `pairs` with its partner.
   */
  predicate Paired(s: string, stack: seq<nat>, pairs: map<int, int>, i: nat)
    requires i <= |s|
  {
    PairsSound(s, pairs, i) &&
    (forall q :: 0 <= q < i && s[q] == ']' ==> q in pairs) &&
    (forall q :: 0 <= q < i && s[q] == '[' && q !in pairs ==> q in stack)
  }

  /** A `[` is pushed. */
  lemma MatchPush(s: string, stack: seq<nat>, pairs: map<int, int>, i: nat)
    requires i < |s| && s[i] == '[' && MatchedSoFar(s, stack, pairs, i)
    ensures MatchedSoFar(s, stack + [i], pairs, i + 1)
  {
    StackPush(s, stack, i);
    PairedPush(s, stack, pairs, i);
  }

  /** A `]` on an empty stack: this prefix closes one bracket too many. */
  lemma MatchUnderflow(s: string, stack: seq<nat>, pairs: map<int, int>, i: nat)
    requires i < |s| && s[i] == ']' && |stack| == 0 && MatchedSoFar(s, stack, pairs, i)
    ensures !NeverNegative(s)
  {
    assert DepthAt(s, i + 1) < 0;
  }

  /** A `]` pops its `[` and both are recorded. */
  lemma MatchPop(s: string, stack: seq<nat>, pairs: map<int, int>, i: nat)
    requires i < |s| && s[i] == ']' && |stack| > 0 && MatchedSoFar(s, stack, pairs, i)
    ensures var p := stack[|stack| - 1];
      MatchedSoFar(s, stack[..|stack| - 1], pairs[p := i][i := p], i + 1)
  {
    StackPop(s, stack, i);
    PairedPop(s, stack, pairs, i);
  }

  /** Any other character changes nothing. */
  lemma MatchOther(s: string, stack: seq<nat>, pairs: map<int, int>, i: nat)
    requires i < |s| && s[i] != '[' && s[i] != ']' && MatchedSoFar(s, stack, pairs, i)
    ensures MatchedSoFar(s, stack, pairs, i + 1)
  {
    StackOther(s, stack, i);
    PairedOther(s, stack, pairs, i);
  }

  lemma PairsSoundWiden(s: string, pairs: map<int, int>, i: nat)
    requires i < |s| && PairsSound(s, pairs, i)
    ensures PairsSound(s, pairs, i + 1)
  {
  }

  lemma StackPush(s: string, stack: seq<nat>, i: nat)
    requires i < |s| && s[i] == '[' && Stacked(s, stack, i)
    ensures Stacked(s, stack + [i], i + 1)
  {
    var st := stack + [i];
    assert DepthAt(s, i + 1) == |stack| + 1;
    forall d, k | 0 <= d < |st| && st[d] < k <= i + 1
      ensures DepthAt(s, k) > d
    {
      if k == i + 1 {
        assert DepthAt(s, k) == |stack| + 1;
      }
    }
  }

  lemma StackOther(s: string, stack: seq<nat>, i: nat)
    requires i < |s| && s[i] != '[' && s[i] != ']' && Stacked(s, stack, i)
    ensures Stacked(s, stack, i + 1)
  {
    assert DepthAt(s, i + 1) == |stack|;
    forall d, k | 0 <= d < |stack| && stack[d] < k <= i + 1
      ensures DepthAt(s, k) > d
    {
      if k == i + 1 {
        assert DepthAt(s, k) == |stack|;
      }
    }
  }

  /** Popping at a `]`: the popped `[` and this `]` are each other's partners. */
  lemma StackPop(s: string, stack: seq<nat>, i: nat)
    requires i < |s| && s[i] == ']' && |stack| > 0 && Stacked(s, stack, i)
    ensures Stacked(s, stack[..|stack| - 1], i + 1)
    ensures var p := stack[|stack| - 1];
      p < i && s[p] == '[' && Close(s, p) == i && Open(s, i) == p
  {
    var top := |stack| - 1;
    var p, rest := stack[top], stack[..top];
    assert DepthAt(s, i + 1) == top;
    assert forall k :: p < k <= i ==> DepthAt(s, k) > top;
    CloseFromFinds(s, top, p, i);
    OpenFromFinds(s, top, p, i);
    forall d, k | 0 <= d < |rest| && rest[d] < k <= i + 1
      ensures DepthAt(s, k) > d
    {
      assert rest[d] == stack[d];
      if k == i + 1 {
        assert DepthAt(s, k) == top;
      }
    }
  }

  lemma PairedPush(s: string, stack: seq<nat>, pairs: map<int, int>, i: nat)
    requires i < |s| && s[i] == '[' && Paired(s, stack, pairs, i)
    ensures Paired(s, stack + [i], pairs, i + 1)
  {
    PairsSoundWiden(s, pairs, i);
    var st := stack + [i];
    forall q | 0 <= q < i + 1 && s[q] == '[' && q !in pairs
      ensures q in st
    {
      if q < i {
        assert q in stack;
      } else {
        assert st[|stack|] == q;
      }
    }
  }

  lemma PairedOther(s: string, stack: seq<nat>, pairs: map<int, int>, i: nat)
    requires i < |s| && s[i] != '[' && s[i] != ']' && Paired(s, stack, pairs, i)
    ensures Paired(s, stack, pairs, i + 1)
  {
    PairsSoundWiden(s, pairs, i);
  }

  lemma PairedPop(s: string, stack: seq<nat>, pairs: map<int, int>, i: nat)
    requires i < |s| && s[i] == ']' && |stack| > 0 && Paired(s, stack, pairs, i)
    requires var p := stack[|stack| - 1];
      p < i && s[p] == '[' && Close(s, p) == i && Open(s, i) == p
    ensures var p := stack[|stack| - 1];
      Paired(s, stack[..|stack| - 1], pairs[p := i][i := p], i + 1)
  {
    var top := |stack| - 1;
    var p, rest := stack[top], stack[..top];
    var pairs' := pairs[p := i][i := p];
    PairsSoundWiden(s, pairs, i);
    assert PairsSound(s, pairs', i + 1);
    forall q | 0 <= q < i + 1 && s[q] == '[' && q !in pairs'
      ensures q in rest
    {
      assert q in stack && q != p;
      var d :| 0 <= d < |stack| && stack[d] == q;
      assert d < top && rest[d] == q;
    }
  }

  // ------------------------------------------------------------ execution

  /** The device between commands: tape, sensor, next command, commands executed. */
  datatype Device = Device(memory: seq<int>, pointer: int, index: nat, executed: nat)

  /**
   * One command of the execution loop. Moving the sensor off the tape throws
   * IllegalStateException; touching the cell under a sensor that is not over
   * the tape (only possible on an empty tape) throws IndexOutOfBoundsException;
   * a jump to a bracket without a partner is the `!!` on a missing map key.
   * Every command that does not throw counts as executed, spaces and
   * untaken jumps included.
   */
  function Step(s: string, dv: Device): (r: Result<Device>)
    requires dv.index < |s|
    ensures r.Ok? ==> r.value.executed == dv.executed + 1
    ensures r.Ok? ==> |r.value.memory| == |dv.memory| && r.value.index <= |s|
  {
    var c, m, p, i, n := s[dv.index], dv.memory, dv.pointer, dv.index, dv.executed + 1;
    if c == '>' || c == '<' then
      var p' := if c == '>' then p + 1 else p - 1;
      if p' >= |m| || p' < 0 then Fail(IllegalState) else Ok(Device(m, p', i + 1, n))
    else if c == ' ' then Ok(Device(m, p, i + 1, n))
    else if !Allowed(c) then Fail(IllegalArgument)
    else if !(0 <= p < |m|) then Fail(IndexOutOfBounds)
    else if c == '+' then Ok(Device(m[p := m[p] + 1], p, i + 1, n))
    else if c == '-' then Ok(Device(m[p := m[p] - 1], p, i + 1, n))
    else if c == '[' then
      if m[p] != 0 then Ok(Device(m, p, i + 1, n))
      else if Close(s, i) < |s| then Ok(Device(m, p, Close(s, i) + 1, n))
      else Fail(NullPointer)
    else
      if m[p] == 0 then Ok(Device(m, p, i + 1, n))
      else if Open(s, i) >= 0 then Ok(Device(m, p, Open(s, i) + 1, n))
      else Fail(NullPointer)
  }

  /**
   * The execution loop from `dv`: it stops after the last command or once
   * `limit` commands have executed, whichever comes first, and the tape
   * keeps its length.
   */
  function Run(s: string, limit: int, dv: Device): (r: Result<Device>)
    requires dv.index <= |s|
    ensures r.Ok? ==> |r.value.memory| == |dv.memory|
    ensures r.Ok? ==> r.value.index >= |s| || r.value.executed >= limit
    ensures r.Ok? ==> r.value.executed <= Max(limit, dv.executed)
    decreases limit - dv.executed
  {
    if dv.index >= |s| || dv.executed >= limit then Ok(dv)
    else match Step(s, dv)
      case Fail(e) => Fail(e)
      case Ok(next) => Run(s, limit, next)
  }

  function Zeros(n: nat): (z: seq<int>)
    ensures |z| == n && forall i :: 0 <= i < n ==> z[i] == 0
  {
    seq(n, _ => 0)
  }

  /**
   * `computeDeviceCells(cells, commands, limit)`: a bad character or an
   * unpaired bracket throws IllegalArgumentException before anything runs,
   * a negative size throws it when the tape is allocated, and otherwise the
   * tape after running from all zeros with the sensor at `cells / 2`.
   */
  function DeviceOutcome(cells: int, commands: string, limit: int): (r: Result<seq<int>>)
    ensures r.Ok? ==> |r.value| == cells
    ensures r.Ok? ==> AllAllowed(commands) && Balanced(commands)
  {
    if !AllAllowed(commands) || !Balanced(commands) then Fail(IllegalArgument)
    else if cells < 0 then Fail(IllegalArgument)
    else match Run(commands, limit, Device(Zeros(cells), cells / 2, 0, 0))
      case Fail(e) => Fail(e)
      case Ok(dv) => Ok(dv.memory)
  }

  function Repeat(c: char, n: nat): (r: string)
    ensures |r| == n && forall i :: 0 <= i < n ==> r[i] == c
  {
    seq(n, _ => c)
  }

  /** Spaces execute one at a time and leave the device as it was. */
  lemma {:induction false} RunOverSpaces(s: string, limit: int, m: seq<int>, p: int, i: nat)
    requires i <= limit <= |s|
    requires forall j :: i <= j < limit ==> s[j] == ' '
    ensures Run(s, limit, Device(m, p, i, i)) == Ok(Device(m, p, limit, limit))
    decreases limit - i
  {
    if i < limit {
      assert Step(s, Device(m, p, i, i)) == Ok(Device(m, p, i + 1, i + 1));
      RunOverSpaces(s, limit, m, p, i + 1);
    }
  }

  /**
   * Spaces count towards the limit: behind `k` spaces, a limit of at most
   * `k` runs no other command and the tape stays all zeros.
   */
  lemma SpacesUseTheLimit(cells: nat, k: nat, t: string, limit: nat)
    requires limit <= k
    requires AllAllowed(Repeat(' ', k) + t) && Balanced(Repeat(' ', k) + t)
    ensures DeviceOutcome(cells, Repeat(' ', k) + t, limit) == Ok(Zeros(cells))
  {
    var s := Repeat(' ', k) + t;
    RunOverSpaces(s, limit, Zeros(cells), cells / 2, 0);
  }

  /** Moving right from `p` with `n` cells ahead of the sensor leaves the tape. */
  lemma {:induction false} RunOffRight(s: string, limit: int, m: seq<int>, p: int, i: nat, n: nat)
    requires i < n <= |s| && n <= limit
    requires forall j :: i <= j < n ==> s[j] == '>'
    requires 0 <= p && p + (n - i) == |m|
    ensures Run(s, limit, Device(m, p, i, i)) == Fail(IllegalState)
    decreases n - i
  {
    if i + 1 < n {
      assert Step(s, Device(m, p, i, i)) == Ok(Device(m, p + 1, i + 1, i + 1));
      RunOffRight(s, limit, m, p + 1, i + 1, n);
    }
  }

  /**
   * Leaving the tape throws IllegalStateException: from the start cell
   * `cells / 2`, `cells - cells / 2` steps right walk off the tape.
   */
  lemma WalkingOffTheTape(cells: nat, t: string, limit: int)
    requires cells > 0 && limit >= cells - cells / 2
    requires var s := Repeat('>', cells - cells / 2) + t; AllAllowed(s) && Balanced(s)
    ensures DeviceOutcome(cells, Repeat('>', cells - cells / 2) + t, limit) == Fail(IllegalState)
  {
    var n := cells - cells / 2;
    var s := Repeat('>', n) + t;
    assert forall j :: 0 <= j < n ==> s[j] == '>';
    RunOffRight(s, limit, Zeros(cells), cells / 2, 0, n);
  }

  /** `computeDeviceCells`: the two validation passes, the stack pass and the loop. */
  method ComputeDeviceCells(cells: int, commands: string, limit: int) returns (r: Result<seq<int>>)
    ensures r == DeviceOutcome(cells, commands, limit)
  {
    var k := 0;
    while k < |commands|
      invariant 0 <= k <= |commands|
      invariant forall j :: 0 <= j < k ==> Allowed(commands[j])
    {
      if !Allowed(commands[k]) {
        return Fail(IllegalArgument);
      }
      k := k + 1;
    }
    var bracketCount := 0;
    k := 0;
    while k < |commands|
      invariant 0 <= k <= |commands|
      invariant bracketCount == DepthAt(commands, k)
      invariant forall j :: 0 <= j <= k ==> DepthAt(commands, j) >= 0
    {
      if commands[k] == '[' {
        bracketCount := bracketCount + 1;
      } else if commands[k] == ']' {
        bracketCount := bracketCount - 1;
        if bracketCount < 0 {
          assert DepthAt(commands, k + 1) < 0;
          return Fail(IllegalArgument);
        }
      }
      k := k + 1;
    }
    if bracketCount != 0 {
      return Fail(IllegalArgument);
    }
    if cells < 0 {
      return Fail(IllegalArgument);
    }
    var memory := Zeros(cells);
    var matched := MatchBrackets(commands);
    if matched.Fail? {
      assert false;
    }
    r := Execute(commands, matched.value, memory, cells / 2, limit);
  }

  /** The execution loop of `computeDeviceCells` over a complete, sound `bracketPairs`. */
  method Execute(commands: string, pairs: map<int, int>, memory0: seq<int>, pointer0: int, limit: int)
    returns (r: Result<seq<int>>)
    requires PairsSound(commands, pairs, |commands|) && PairsComplete(commands, pairs)
    ensures r == (match Run(commands, limit, Device(memory0, pointer0, 0, 0))
                  case Fail(e) => Fail(e)
                  case Ok(dv) => Ok(dv.memory))
  {
    var memory, pointer, commandIndex, commandsExecuted := memory0, pointer0, 0, 0;
    ghost var start := Device(memory0, pointer0, 0, 0);
    while commandIndex < |commands| && commandsExecuted < limit
      invariant 0 <= commandIndex <= |commands|
      invariant Run(commands, limit, Device(memory, pointer, commandIndex, commandsExecuted))
             == Run(commands, limit, start)
      decreases limit - commandsExecuted
    {
      var next := ExecuteCommand(commands, pairs, memory, pointer, commandIndex);
      ghost var before := Device(memory, pointer, commandIndex, commandsExecuted);
      if next.Fail? {
        RunFails(commands, limit, before);
        return Fail(next.error);
      }
      memory, pointer, commandIndex := next.value.memory, next.value.pointer, next.value.index;
      commandsExecuted := commandsExecuted + 1;
      RunAdvances(commands, limit, before);
    }
    r := Ok(memory);
  }

  /** A bracket's entry in a sound and complete table is its partner, which lies inside the program. */
  lemma PairedJump(s: string, pairs: map<int, int>, i: nat)
    requires i < |s| && IsBracket(s[i])
    requires PairsSound(s, pairs, |s|) && PairsComplete(s, pairs)
    ensures i in pairs
    ensures s[i] == '[' ==> pairs[i] == Close(s, i) && Close(s, i) < |s|
    ensures s[i] == ']' ==> pairs[i] == Open(s, i) && Open(s, i) >= 0
  {
  }

  /**
   * The `when (commands[commandIndex])` of the execution loop: the new tape,
   * sensor and next command, or the exception the command throws.
   */
  method ExecuteCommand(commands: string, pairs: map<int, int>, memory: seq<int>, pointer: int,
                        commandIndex: nat)
    returns (r: Result<Device>)
    requires commandIndex < |commands|
    requires PairsSound(commands, pairs, |commands|) && PairsComplete(commands, pairs)
    ensures r == Step(commands, Device(memory, pointer, commandIndex, 0))
  {
    var cells := |memory|;
    var command := commands[commandIndex];
    if command == '>' || command == '<' {
      var p := if command == '>' then pointer + 1 else pointer - 1;
      if p >= cells || p < 0 {
        return Fail(IllegalState);
      }
      return Ok(Device(memory, p, commandIndex + 1, 1));
    } else if command == ' ' {
      return Ok(Device(memory, pointer, commandIndex + 1, 1));
    } else if !Allowed(command) {
      return Fail(IllegalArgument);
    } else if !(0 <= pointer < cells) {
      return Fail(IndexOutOfBounds);
    } else if command == '+' {
      return Ok(Device(memory[pointer := memory[pointer] + 1], pointer, commandIndex + 1, 1));
    } else if command == '-' {
      return Ok(Device(memory[pointer := memory[pointer] - 1], pointer, commandIndex + 1, 1));
    } else if command == '[' {
      if memory[pointer] == 0 {
        PairedJump(commands, pairs, commandIndex);
        return Ok(Device(memory, pointer, pairs[commandIndex] + 1, 1));
      }
      return Ok(Device(memory, pointer, commandIndex + 1, 1));
    } else {
      if memory[pointer] != 0 {
        PairedJump(commands, pairs, commandIndex);
        return Ok(Device(memory, pointer, pairs[commandIndex] + 1, 1));
      }
      return Ok(Device(memory, pointer, commandIndex + 1, 1));
    }
  }

  /** The step ignores the count of executed commands, apart from adding one. */
  lemma StepCount(s: string, dv: Device)
    requires dv.index < |s|
    ensures var r, r0 := Step(s, dv), Step(s, dv.(executed := 0));
      r.Fail? == r0.Fail? &&
      (r.Fail? ==> r.error == r0.error) &&
      (r.Ok? ==> r.value == r0.value.(executed := dv.executed + 1))
  {
  }

  lemma RunFails(s: string, limit: int, dv: Device)
    requires dv.index < |s| && dv.executed < limit
    requires Step(s, dv.(executed := 0)).Fail?
    ensures Run(s, limit, dv) == Fail(Step(s, dv.(executed := 0)).error)
  {
    StepCount(s, dv);
  }

  lemma RunAdvances(s: string, limit: int, dv: Device)
    requires dv.index < |s| && dv.executed < limit
    requires Step(s, dv.(executed := 0)).Ok?
    ensures var next := Step(s, dv.(executed := 0)).value.(executed := dv.executed + 1);
      next.index <= |s| && Run(s, limit, dv) == Run(s, limit, next)
  {
    StepCount(s, dv);
  }
}
