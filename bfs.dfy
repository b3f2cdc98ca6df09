/**
 * Breadth-first search over a graph given by its adjacency function, as the
 * Kotlin knight search and `Graph.bfs` run it: a FIFO queue, a map from every
 * discovered vertex to its distance (or to its parent), a vertex expanded
 * when it leaves the queue, and the search stopping as soon as the target
 * leaves the queue.
 *
 * Distances are specified by `Within(adj, s, k)`, the vertices reachable
 * from `s` in at most `k` steps; `IsDistance` says that a number is the
 * length of a shortest path, or -1 when there is none.
 */
module Bfs {
  import Text
  import opened Wrappers

  // ---------------------------------------------------------------- reachability

  ghost function Successors<T>(adj: T -> seq<T>, w: set<T>): set<T>
  {
    set u, v | u in w && v in adj(u) :: v
  }

  /** The vertices reachable from `s` by at most `k` steps along `adj`. */
  ghost function Within<T>(adj: T -> seq<T>, s: T, k: nat): set<T>
  {
    if k == 0 then {s} else Within(adj, s, k - 1) + Successors(adj, Within(adj, s, k - 1))
  }

  /** `v` is reachable in `k` steps and not in fewer. */
  ghost predicate AtLevel<T>(adj: T -> seq<T>, s: T, v: T, k: nat)
  {
    v in Within(adj, s, k) && (k == 0 || v !in Within(adj, s, k - 1))
  }

  /** `d` is the least number of steps from `s` to `t`, or -1 when `t` cannot be reached. */
  ghost predicate IsDistance<T>(adj: T -> seq<T>, s: T, t: T, d: int)
  {
    if d < 0 then d == -1 && forall k: nat :: t !in Within(adj, s, k)
    else AtLevel(adj, s, t, d)
  }

  /** Consecutive vertices of `p` are joined by an edge. */
  ghost predicate IsPath<T>(adj: T -> seq<T>, p: seq<T>)
  {
    forall i :: 0 <= i < |p| - 1 ==> p[i + 1] in adj(p[i])
  }

  /** Every edge out of `nodes` stays in `nodes`. */
  ghost predicate Closed<T>(adj: T -> seq<T>, nodes: set<T>)
  {
    forall v, w :: v in nodes && w in adj(v) ==> w in nodes
  }

  lemma {:induction false} WithinMonotone<T>(adj: T -> seq<T>, s: T, j: nat, k: nat)
    requires j <= k
    ensures Within(adj, s, j) <= Within(adj, s, k)
  {
    if j < k {
      WithinMonotone(adj, s, j, k - 1);
    }
  }

  /** A vertex at level `k` that is reachable within `j` steps has `k <= j`. */
  lemma LevelAtMost<T>(adj: T -> seq<T>, s: T, v: T, k: nat, j: nat)
    requires AtLevel(adj, s, v, k) && v in Within(adj, s, j)
    ensures k <= j
  {
    if j < k {
      WithinMonotone(adj, s, j, k - 1);
    }
  }

  /** A vertex has one distance. */
  lemma DistanceUnique<T>(adj: T -> seq<T>, s: T, t: T, d1: int, d2: int)
    requires IsDistance(adj, s, t, d1) && IsDistance(adj, s, t, d2)
    ensures d1 == d2
  {
    if d1 >= 0 {
      assert t in Within(adj, s, d1);
    }
    if d2 >= 0 {
      assert t in Within(adj, s, d2);
    }
    if d1 >= 0 && d2 >= 0 {
      LevelAtMost(adj, s, t, d1, d2);
      LevelAtMost(adj, s, t, d2, d1);
    }
  }

  /** A path of `n` steps from `p[0]` ends within `n` steps of it. */
  lemma {:induction false} PathWithin<T>(adj: T -> seq<T>, p: seq<T>)
    requires |p| > 0 && IsPath(adj, p)
    ensures p[|p| - 1] in Within(adj, p[0], |p| - 1)
  {
    if |p| > 1 {
      var q := p[..|p| - 1];
      assert IsPath(adj, q) by {
        forall i | 0 <= i < |q| - 1 ensures q[i + 1] in adj(q[i]) {
          assert q[i] == p[i] && q[i + 1] == p[i + 1];
        }
      }
      PathWithin(adj, q);
      assert p[|p| - 1] in adj(q[|q| - 1]);
      assert p[|p| - 1] in Successors(adj, Within(adj, p[0], |p| - 2));
    }
  }

  /** The distance is a lower bound on the length of every path, and -1 means that no path exists. */
  lemma DistanceIsShortest<T>(adj: T -> seq<T>, s: T, t: T, d: int, p: seq<T>)
    requires IsDistance(adj, s, t, d)
    requires |p| > 0 && IsPath(adj, p) && p[0] == s && p[|p| - 1] == t
    ensures d >= 0 && |p| - 1 >= d
  {
    PathWithin(adj, p);
    if d >= 0 {
      LevelAtMost(adj, s, t, d, |p| - 1);
    }
  }

  /** Every vertex within `k` steps is the end of a path of at most `k` steps. */
  lemma {:induction false} WithinPath<T>(adj: T -> seq<T>, s: T, k: nat, t: T) returns (p: seq<T>)
    requires t in Within(adj, s, k)
    ensures 0 < |p| <= k + 1 && IsPath(adj, p) && p[0] == s && p[|p| - 1] == t
  {
    if k == 0 {
      p := [s];
    } else if t in Within(adj, s, k - 1) {
      p := WithinPath(adj, s, k - 1, t);
    } else {
      var u :| u in Within(adj, s, k - 1) && t in adj(u);
      var q := WithinPath(adj, s, k - 1, u);
      p := q + [t];
      assert IsPath(adj, p) by {
        forall i | 0 <= i < |p| - 1 ensures p[i + 1] in adj(p[i]) {
          if i < |q| - 1 {
            assert p[i] == q[i] && p[i + 1] == q[i + 1];
          }
        }
      }
    }
  }

  /** A vertex at a nonnegative distance `d` is the end of a path of exactly `d` steps. */
  lemma ShortestPathExists<T>(adj: T -> seq<T>, s: T, t: T, d: int) returns (p: seq<T>)
    requires IsDistance(adj, s, t, d) && d >= 0
    ensures |p| == d + 1 && IsPath(adj, p) && p[0] == s && p[|p| - 1] == t
  {
    p := WithinPath(adj, s, d, t);
    DistanceIsShortest(adj, s, t, d, p);
  }

  // ---------------------------------------------------------------- search invariants

  /** Every discovered vertex is mapped to its level, the start to 0. */
  ghost predicate Levels<T>(adj: T -> seq<T>, s: T, dist: map<T, nat>)
  {
    s in dist && dist[s] == 0 && forall v {:trigger dist[v]} :: v in dist ==> AtLevel(adj, s, v, dist[v])
  }

  /** The queue holds discovered vertices in nondecreasing level order. */
  ghost predicate Ordered<T>(dist: map<T, nat>, queue: seq<T>)
  {
    && (forall i :: 0 <= i < |queue| ==> queue[i] in dist)
    && (forall i, j :: 0 <= i < j < |queue| ==> dist[queue[i]] <= dist[queue[j]])
  }

  /** Every level in the queue is `lo` or `lo + 1`. */
  ghost predicate Spread<T>(dist: map<T, nat>, queue: seq<T>, lo: nat)
  {
    forall j :: 0 <= j < |queue| ==> queue[j] in dist && lo <= dist[queue[j]] <= lo + 1
  }

  /** Every successor of an expanded vertex is discovered. */
  ghost predicate Expanded<T>(adj: T -> seq<T>, dist: map<T, nat>, done: set<T>)
  {
    forall v, w {:trigger w in adj(v), v in done} :: v in done && w in adj(v) ==> w in dist
  }

  /** Every discovered vertex is expanded or waiting in the queue. */
  ghost predicate Accounted<T>(dist: map<T, nat>, done: set<T>, queue: seq<T>)
  {
    forall v {:trigger v in dist} :: v in dist ==> v in done || v in queue
  }

  /** Every vertex within `k` steps is discovered. */
  ghost predicate Covers<T>(adj: T -> seq<T>, s: T, k: nat, dist: map<T, nat>)
  {
    forall v :: v in Within(adj, s, k) ==> v in dist
  }

  /**
   * The state at the head of the search loop. `dist` maps every discovered
   * vertex to its level, `queue` holds the discovered vertices not yet
   * expanded in nondecreasing level order spanning at most two levels,
   * `done` holds the expanded ones, the target has not been expanded, and
   * every vertex no farther than the head of the queue is discovered.
   */
  ghost predicate Searching<T>(adj: T -> seq<T>, s: T, finish: T, nodes: set<T>,
                               dist: map<T, nat>, queue: seq<T>, done: set<T>)
  {
    && dist.Keys <= nodes
    && Levels(adj, s, dist)
    && Ordered(dist, queue)
    && Expanded(adj, dist, done)
    && Accounted(dist, done, queue)
    && finish !in done
    && (queue != [] ==> Spread(dist, queue, dist[queue[0]]) && Covers(adj, s, dist[queue[0]], dist))
  }

  /**
   * The state inside the expansion of `next`, at level `lvl`, after its first
   * `i` successors have been looked at.
   */
  ghost predicate Expanding<T>(adj: T -> seq<T>, s: T, finish: T, nodes: set<T>,
                               dist: map<T, nat>, queue: seq<T>, done: set<T>,
                               next: T, lvl: nat, i: nat)
  {
    && dist.Keys <= nodes
    && Levels(adj, s, dist)
    && Ordered(dist, queue)
    && Spread(dist, queue, lvl)
    && Expanded(adj, dist, done)
    && next in dist && dist[next] == lvl
    && i <= |adj(next)| && (forall k :: 0 <= k < i ==> adj(next)[k] in dist)
    && Accounted(dist, done + {next}, queue)
    && finish !in done && next != finish
    && Covers(adj, s, lvl, dist)
  }

  lemma SearchStart<T>(adj: T -> seq<T>, s: T, finish: T, nodes: set<T>)
    requires s in nodes
    ensures Searching(adj, s, finish, nodes, map[s := 0], [s], {})
  {
  }

  lemma OrderedTail<T>(dist: map<T, nat>, queue: seq<T>)
    requires Ordered(dist, queue) && queue != []
    requires Spread(dist, queue, dist[queue[0]])
    ensures Ordered(dist, queue[1..]) && Spread(dist, queue[1..], dist[queue[0]])
  {
    var q := queue[1..];
    forall i, j | 0 <= i < j < |q| ensures dist[q[i]] <= dist[q[j]] {
      assert q[i] == queue[i + 1] && q[j] == queue[j + 1];
    }
  }

  lemma AccountedTail<T>(dist: map<T, nat>, done: set<T>, queue: seq<T>)
    requires Accounted(dist, done, queue) && queue != []
    ensures Accounted(dist, done + {queue[0]}, queue[1..])
  {
    assert queue == [queue[0]] + queue[1..];
  }

  /** Taking the head `next` of the queue, when it is not the target, starts its expansion. */
  lemma ExpandStart<T>(adj: T -> seq<T>, s: T, finish: T, nodes: set<T>,
                       dist: map<T, nat>, queue: seq<T>, done: set<T>)
    requires Searching(adj, s, finish, nodes, dist, queue, done)
    requires queue != [] && queue[0] != finish
    ensures Expanding(adj, s, finish, nodes, dist, queue[1..], done, queue[0], dist[queue[0]], 0)
  {
    OrderedTail(dist, queue);
    AccountedTail(dist, done, queue);
  }

  lemma LevelsAdd<T>(adj: T -> seq<T>, s: T, dist: map<T, nat>, w: T, k: nat)
    requires Levels(adj, s, dist) && w !in dist && AtLevel(adj, s, w, k)
    ensures Levels(adj, s, dist[w := k])
  {
  }

  lemma OrderedSnoc<T>(dist: map<T, nat>, queue: seq<T>, lvl: nat, w: T)
    requires Ordered(dist, queue) && Spread(dist, queue, lvl) && w !in dist
    ensures Ordered(dist[w := lvl + 1], queue + [w]) && Spread(dist[w := lvl + 1], queue + [w], lvl)
  {
    var dist', queue' := dist[w := lvl + 1], queue + [w];
    forall i | 0 <= i < |queue'| ensures queue'[i] in dist' && lvl <= dist'[queue'[i]] <= lvl + 1 {
      if i < |queue| {
        assert queue'[i] == queue[i];
      }
    }
    forall i, j | 0 <= i < j < |queue'| ensures dist'[queue'[i]] <= dist'[queue'[j]] {
      assert queue'[i] == queue[i];
      if j < |queue| {
        assert queue'[j] == queue[j];
      }
    }
  }

  lemma ExpandedGrow<T>(adj: T -> seq<T>, dist: map<T, nat>, dist': map<T, nat>, done: set<T>)
    requires Expanded(adj, dist, done) && dist.Keys <= dist'.Keys
    ensures Expanded(adj, dist', done)
  {
  }

  lemma CoversGrow<T>(adj: T -> seq<T>, s: T, k: nat, dist: map<T, nat>, dist': map<T, nat>)
    requires Covers(adj, s, k, dist) && dist.Keys <= dist'.Keys
    ensures Covers(adj, s, k, dist')
  {
  }

  lemma AccountedSnoc<T>(dist: map<T, nat>, done: set<T>, queue: seq<T>, w: T, k: nat)
    requires Accounted(dist, done, queue)
    ensures Accounted(dist[w := k], done, queue + [w])
  {
    assert w == (queue + [w])[|queue|];
    forall v | v in dist && v in queue ensures v in queue + [w] {
      var j :| 0 <= j < |queue| && queue[j] == v;
      assert (queue + [w])[j] == v;
    }
  }

  /** A successor of `next` at level `lvl` that is not discovered yet lies at level `lvl + 1`. */
  lemma NewLevel<T>(adj: T -> seq<T>, s: T, dist: map<T, nat>, next: T, lvl: nat, w: T)
    requires AtLevel(adj, s, next, lvl) && Covers(adj, s, lvl, dist)
    requires w in adj(next) && w !in dist
    ensures AtLevel(adj, s, w, lvl + 1)
  {
    assert next in Within(adj, s, lvl);
    assert w in Successors(adj, Within(adj, s, lvl));
  }

  /** A newly discovered successor `w` of `next`, at level `lvl + 1`, keeps the level invariants. */
  lemma DiscoverLevels<T>(adj: T -> seq<T>, s: T, dist: map<T, nat>, queue: seq<T>, next: T, lvl: nat, w: T)
    requires Levels(adj, s, dist) && Ordered(dist, queue) && Spread(dist, queue, lvl)
    requires AtLevel(adj, s, next, lvl) && Covers(adj, s, lvl, dist)
    requires w in adj(next) && w !in dist
    ensures Levels(adj, s, dist[w := lvl + 1])
    ensures Ordered(dist[w := lvl + 1], queue + [w]) && Spread(dist[w := lvl + 1], queue + [w], lvl)
    ensures Covers(adj, s, lvl, dist[w := lvl + 1])
  {
    NewLevel(adj, s, dist, next, lvl, w);
    LevelsAdd(adj, s, dist, w, lvl + 1);
    OrderedSnoc(dist, queue, lvl, w);
    CoversGrow(adj, s, lvl, dist, dist[w := lvl + 1]);
  }

  /** Discovering a successor of `next` records it one level below `next` at the back of the queue. */
  lemma Discover<T>(adj: T -> seq<T>, s: T, finish: T, nodes: set<T>,
                    dist: map<T, nat>, queue: seq<T>, done: set<T>,
                    next: T, lvl: nat, i: nat)
    requires Closed(adj, nodes)
    requires Expanding(adj, s, finish, nodes, dist, queue, done, next, lvl, i)
    requires i < |adj(next)| && adj(next)[i] !in dist
    ensures adj(next)[i] in nodes
    ensures Expanding(adj, s, finish, nodes, dist[adj(next)[i] := lvl + 1],
                      queue + [adj(next)[i]], done, next, lvl, i + 1)
  {
    var w := adj(next)[i];
    assert w in nodes by {
      assert next in nodes && w in adj(next);
    }
    DiscoverLevels(adj, s, dist, queue, next, lvl, w);
    ExpandedGrow(adj, dist, dist[w := lvl + 1], done);
    AccountedSnoc(dist, done + {next}, queue, w, lvl + 1);
    assert forall k :: 0 <= k < i + 1 ==> adj(next)[k] in dist[w := lvl + 1];
  }

  /** A successor of `next` that is already discovered changes nothing. */
  lemma Skip<T>(adj: T -> seq<T>, s: T, finish: T, nodes: set<T>,
                dist: map<T, nat>, queue: seq<T>, done: set<T>,
                next: T, lvl: nat, i: nat)
    requires Expanding(adj, s, finish, nodes, dist, queue, done, next, lvl, i)
    requires i < |adj(next)| && adj(next)[i] in dist
    ensures Expanding(adj, s, finish, nodes, dist, queue, done, next, lvl, i + 1)
  {
  }

  /**
   * When the head of the queue is one level beyond `lvl`, every vertex at
   * that level is discovered: its predecessor at level `lvl` is no longer
   * in the queue, so it has been expanded.
   */
  lemma CoversNext<T>(adj: T -> seq<T>, s: T, dist: map<T, nat>, queue: seq<T>, done: set<T>, lvl: nat)
    requires Levels(adj, s, dist) && Ordered(dist, queue) && Covers(adj, s, lvl, dist)
    requires Expanded(adj, dist, done) && Accounted(dist, done, queue)
    requires queue != [] && dist[queue[0]] == lvl + 1
    ensures Covers(adj, s, lvl + 1, dist)
  {
    forall v | v in Within(adj, s, lvl + 1) ensures v in dist {
      if v !in Within(adj, s, lvl) {
        var u :| u in Within(adj, s, lvl) && v in adj(u);
        LevelAtMost(adj, s, u, dist[u], lvl);
        assert u !in queue;
      }
    }
  }

  /** Once every successor of `next` is discovered, `next` is expanded and the next head may be taken. */
  lemma ExpandDone<T>(adj: T -> seq<T>, s: T, finish: T, nodes: set<T>,
                      dist: map<T, nat>, queue: seq<T>, done: set<T>,
                      next: T, lvl: nat)
    requires Expanding(adj, s, finish, nodes, dist, queue, done, next, lvl, |adj(next)|)
    ensures Searching(adj, s, finish, nodes, dist, queue, done + {next})
  {
    var done' := done + {next};
    assert Expanded(adj, dist, done') by {
      forall w | w in adj(next) ensures w in dist {
        var k :| 0 <= k < |adj(next)| && adj(next)[k] == w;
      }
    }
    if queue != [] {
      var h := dist[queue[0]];
      assert lvl <= h <= lvl + 1;
      if h == lvl {
        assert Covers(adj, s, h, dist);
      } else {
        CoversNext(adj, s, dist, queue, done', lvl);
        assert Covers(adj, s, h, dist);
        assert Spread(dist, queue, h) by {
          forall j | 0 <= j < |queue| ensures h <= dist[queue[j]] {
            if j > 0 {
              assert dist[queue[0]] <= dist[queue[j]];
            }
          }
        }
      }
    }
  }

  /** With the queue empty, every reachable vertex has been discovered, and the target was not. */
  lemma {:induction false} Exhausted<T>(adj: T -> seq<T>, s: T, finish: T, nodes: set<T>,
                                       dist: map<T, nat>, done: set<T>, k: nat)
    requires Searching(adj, s, finish, nodes, dist, [], done)
    ensures Covers(adj, s, k, dist) && finish !in Within(adj, s, k)
  {
    if k > 0 {
      Exhausted(adj, s, finish, nodes, dist, done, k - 1);
      forall v | v in Successors(adj, Within(adj, s, k - 1)) ensures v in dist {
        var u :| u in Within(adj, s, k - 1) && v in adj(u);
        assert u in done;
      }
    }
  }

  lemma Unreachable<T>(adj: T -> seq<T>, s: T, finish: T, nodes: set<T>,
                       dist: map<T, nat>, done: set<T>)
    requires Searching(adj, s, finish, nodes, dist, [], done)
    ensures IsDistance(adj, s, finish, -1)
  {
    forall k: nat ensures finish !in Within(adj, s, k) {
      Exhausted(adj, s, finish, nodes, dist, done, k);
    }
  }

  /** Adding one new member of `nodes` to `seen` leaves one fewer undiscovered node. */
  lemma DiscoverCount<T>(nodes: set<T>, seen: set<T>, w: T)
    requires w in nodes && w !in seen
    ensures |nodes - (seen + {w})| == |nodes - seen| - 1
  {
    assert nodes - seen == (nodes - (seen + {w})) + {w};
  }

  // ---------------------------------------------------------------- parents

  /**
   * Every discovered vertex other than the start has a parent one level
   * closer to the start, with an edge from the parent to it.
   */
  ghost predicate Parents<T>(adj: T -> seq<T>, s: T, dist: map<T, nat>, parent: map<T, T>)
  {
    && parent.Keys == dist.Keys - {s}
    && forall v {:trigger parent[v]} :: v in parent ==>
         parent[v] in dist && dist[v] == dist[parent[v]] + 1 && v in adj(parent[v])
  }

  lemma ParentsStart<T>(adj: T -> seq<T>, s: T)
    ensures Parents(adj, s, map[s := 0], map[])
  {
  }

  /** Discovering `w` from `next` at level `lvl` records `next` as its parent. */
  lemma ParentsAdd<T>(adj: T -> seq<T>, s: T, dist: map<T, nat>, parent: map<T, T>, next: T, lvl: nat, w: T)
    requires Parents(adj, s, dist, parent) && next in dist && dist[next] == lvl
    requires w in adj(next) && w !in dist && w != s
    ensures Parents(adj, s, dist[w := lvl + 1], parent[w := next])
  {
    var dist', parent' := dist[w := lvl + 1], parent[w := next];
    assert parent'.Keys == dist'.Keys - {s};
    forall v | v in parent'
      ensures parent'[v] in dist' && dist'[v] == dist'[parent'[v]] + 1 && v in adj(parent'[v])
    {
      if v != w {
        assert parent'[v] == parent[v] && parent[v] != w;
      }
    }
  }

  /** The start is the only vertex at level 0. */
  lemma LevelZero<T>(adj: T -> seq<T>, s: T, dist: map<T, nat>, v: T)
    requires Levels(adj, s, dist) && v in dist && dist[v] == 0
    ensures v == s
  {
    assert AtLevel(adj, s, v, dist[v]);
  }

  // ---------------------------------------------------------------- the searches

  /**
   * The distance search (`knightMoveNumber`, `Graph.bfs`): the number of
   * steps from `start` to `finish`, or -1 when `finish` cannot be reached.
   * `nodes` is any finite set of vertices closed under `adj`; it bounds the
   * search.
   */
  method Distance<T(==)>(adj: T -> seq<T>, start: T, finish: T, ghost nodes: set<T>) returns (d: int)
    requires start in nodes && Closed(adj, nodes)
    ensures IsDistance(adj, start, finish, d)
  {
    var queue := [start];
    var dist: map<T, nat> := map[start := 0];
    ghost var done: set<T> := {};
    SearchStart(adj, start, finish, nodes);
    while queue != []
      invariant Searching(adj, start, finish, nodes, dist, queue, done)
      decreases 2 * |nodes - dist.Keys| + |queue|
    {
      var next := queue[0];
      ghost var before := 2 * |nodes - dist.Keys| + |queue|;
      var lvl := dist[next];
      if next == finish {
        return lvl;
      }
      ExpandStart(adj, start, finish, nodes, dist, queue, done);
      queue := queue[1..];
      var neighbors := adj(next);
      var i := 0;
      while i < |neighbors|
        invariant neighbors == adj(next)
        invariant Expanding(adj, start, finish, nodes, dist, queue, done, next, lvl, i)
        invariant 2 * |nodes - dist.Keys| + |queue| < before
      {
        var w := neighbors[i];
        if w !in dist {
          Discover(adj, start, finish, nodes, dist, queue, done, next, lvl, i);
          DiscoverCount(nodes, dist.Keys, w);
          dist := dist[w := lvl + 1];
          queue := queue + [w];
        } else {
          Skip(adj, start, finish, nodes, dist, queue, done, next, lvl, i);
        }
        i := i + 1;
      }
      ExpandDone(adj, start, finish, nodes, dist, queue, done, next, lvl);
      done := done + {next};
    }
    Unreachable(adj, start, finish, nodes, dist, done);
    d := -1;
  }

  /**
   * The trajectory search (`knightTrajectory`): the same search recording
   * each discovered vertex's parent in `parent` and the discovered vertices
   * in `visited`, followed by the walk back from the target along the
   * parents. The result is a shortest path from `start` to `finish`, or
   * empty when `finish` cannot be reached.
   */
  method Trajectory<T(==)>(adj: T -> seq<T>, start: T, finish: T, ghost nodes: set<T>) returns (path: seq<T>)
    requires start in nodes && Closed(adj, nodes)
    ensures path == [] ==> IsDistance(adj, start, finish, -1)
    ensures path != [] ==> && IsPath(adj, path) && path[0] == start && path[|path| - 1] == finish
                           && IsDistance(adj, start, finish, |path| - 1)
  {
    if start == finish {
      return [start];
    }
    var queue := [start];
    var visited := {start};
    var parent: map<T, T> := map[];
    ghost var dist: map<T, nat> := map[start := 0];
    ghost var done: set<T> := {};
    SearchStart(adj, start, finish, nodes);
    ParentsStart(adj, start);
    while queue != []
      invariant Searching(adj, start, finish, nodes, dist, queue, done)
      invariant visited == dist.Keys && Parents(adj, start, dist, parent)
      decreases 2 * |nodes - dist.Keys| + |queue|
    {
      var current := queue[0];
      ghost var before := 2 * |nodes - dist.Keys| + |queue|;
      ghost var lvl := dist[current];
      if current == finish {
        path := WalkBack(adj, start, finish, dist, parent);
        return;
      }
      ExpandStart(adj, start, finish, nodes, dist, queue, done);
      queue, visited, parent, dist := ExpandWithParents(adj, start, finish, nodes, dist, queue[1..], done,
                                                        current, lvl, visited, parent);
      ExpandDone(adj, start, finish, nodes, dist, queue, done, current, lvl);
      done := done + {current};
    }
    Unreachable(adj, start, finish, nodes, dist, done);
    path := [];
  }

  /**
   * The reconstruction loop of `knightTrajectory`: from the target, follow
   * the parents until a vertex without one, then reverse the collected list.
   */
  method WalkBack<T(==)>(adj: T -> seq<T>, start: T, finish: T, ghost dist: map<T, nat>, parent: map<T, T>)
      returns (path: seq<T>)
    requires Levels(adj, start, dist) && Parents(adj, start, dist, parent) && finish in dist
    ensures IsPath(adj, path) && |path| == dist[finish] + 1 && path[0] == start && path[|path| - 1] == finish
    ensures IsDistance(adj, start, finish, |path| - 1)
  {
    var collected: seq<T> := [];
    var node: Option<T> := Some(finish);
    ghost var tail: seq<T> := [];
    while node.Some?
      invariant Text.Reverse(collected) == tail && IsPath(adj, tail)
      invariant tail != [] ==> tail[|tail| - 1] == finish
      invariant node.Some? ==> node.value in dist && dist[node.value] + |tail| == dist[finish]
      invariant node.Some? && tail != [] ==> tail[0] in adj(node.value)
      invariant node.Some? && tail == [] ==> node.value == finish
      invariant node.None? ==> tail != [] && tail[0] == start && |tail| == dist[finish] + 1
      decreases if node.Some? then dist[node.value] + 1 else 0
    {
      var v := node.value;
      Text.ReverseSnoc(collected, v);
      assert IsPath(adj, [v] + tail) by {
        forall i | 0 <= i < |tail| ensures ([v] + tail)[i + 1] in adj(([v] + tail)[i]) {
          if i > 0 {
            assert ([v] + tail)[i] == tail[i - 1] && ([v] + tail)[i + 1] == tail[i];
          }
        }
      }
      collected := collected + [v];
      tail := [v] + tail;
      if v in parent {
        node := Some(parent[v]);
      } else {
        LevelZero(adj, start, dist, v);
        node := None;
      }
    }
    path := Text.Reverse(collected);
    assert AtLevel(adj, start, finish, dist[finish]);
  }

  /** The inner loop of `knightTrajectory`: discover the successors of `current`, recording their parent. */
  method ExpandWithParents<T(==)>(adj: T -> seq<T>, ghost start: T, ghost finish: T, ghost nodes: set<T>,
                                  ghost dist0: map<T, nat>, queue0: seq<T>, ghost done: set<T>,
                                  current: T, ghost lvl: nat, visited0: set<T>, parent0: map<T, T>)
      returns (queue: seq<T>, visited: set<T>, parent: map<T, T>, ghost dist: map<T, nat>)
    requires Closed(adj, nodes)
    requires Expanding(adj, start, finish, nodes, dist0, queue0, done, current, lvl, 0)
    requires visited0 == dist0.Keys && Parents(adj, start, dist0, parent0)
    ensures Expanding(adj, start, finish, nodes, dist, queue, done, current, lvl, |adj(current)|)
    ensures visited == dist.Keys && Parents(adj, start, dist, parent)
    ensures 2 * |nodes - dist.Keys| + |queue| <= 2 * |nodes - dist0.Keys| + |queue0|
  {
    queue, visited, parent, dist := queue0, visited0, parent0, dist0;
    var moves := adj(current);
    var i := 0;
    while i < |moves|
      invariant moves == adj(current)
      invariant Expanding(adj, start, finish, nodes, dist, queue, done, current, lvl, i)
      invariant visited == dist.Keys && Parents(adj, start, dist, parent)
      invariant 2 * |nodes - dist.Keys| + |queue| <= 2 * |nodes - dist0.Keys| + |queue0|
    {
      var next := moves[i];
      if next !in visited {
        Discover(adj, start, finish, nodes, dist, queue, done, current, lvl, i);
        DiscoverCount(nodes, dist.Keys, next);
        ParentsAdd(adj, start, dist, parent, current, lvl, next);
        visited := visited + {next};
        queue := queue + [next];
        parent := parent[next := current];
        dist := dist[next := lvl + 1];
      } else {
        Skip(adj, start, finish, nodes, dist, queue, done, current, lvl, i);
      }
      i := i + 1;
    }
  }
}
