/**
 * `Graph` (src/Lesson8/task3/Graph.kt): an undirected graph of named
 * vertices with two distance searches, breadth-first (`bfs`) and
 * depth-first over simple paths (`dfs`).
 *
 * A vertex is known by its name: Kotlin's `Vertex` is a data class whose
 * only constructor property is `name`, so equality and hashing ignore the
 * neighbour set. The model keeps, for every name, its neighbours in
 * insertion order (Kotlin's `mutableSetOf` is insertion-ordered and holds
 * each name once).
 */
module Graphs {
  import opened Wrappers
  import Bfs

  /** Each vertex name with its neighbours' names, in insertion order. */
  type Adjacency = map<string, seq<string>>

  /** Neighbour lists hold only known names, each at most once. */
  ghost predicate WellFormed(m: Adjacency) {
    forall v :: v in m ==> forall w :: w in m[v] ==> w in m
  }

  ghost predicate NoRepeats(m: Adjacency) {
    forall v :: v in m ==> forall i, j :: 0 <= i < j < |m[v]| ==> m[v][i] != m[v][j]
  }

  /** The edges of the graph as the searches follow them. */
  function Edges(m: Adjacency): string -> seq<string> {
    v => if v in m then m[v] else []
  }

  /** The vertices of the graph are closed under its edges. */
  lemma ClosedGraph(m: Adjacency)
    requires WellFormed(m)
    ensures Bfs.Closed(Edges(m), m.Keys)
  {
  }

  /** Kotlin `MutableSet.add`: append `x` unless it is already there. */
  function AddOnce(l: seq<string>, x: string): (r: seq<string>)
    ensures x in r && forall y :: y in r <==> y in l || y == x
  {
    if x in l then l else l + [x]
  }

  lemma AddOnceNoRepeats(l: seq<string>, x: string)
    requires forall i, j :: 0 <= i < j < |l| ==> l[i] != l[j]
    ensures var r := AddOnce(l, x); forall i, j :: 0 <= i < j < |r| ==> r[i] != r[j]
  {
  }

  /** `connect(first, second)` on the lists: each is added to the other's neighbours. */
  function Connected(m: Adjacency, a: string, b: string): (m': Adjacency)
    requires a in m && b in m
    ensures m'.Keys == m.Keys
  {
    var m1 := m[a := AddOnce(m[a], b)];
    m1[b := AddOnce(m1[b], a)]
  }

  /**
   * Connecting two known vertices makes each a neighbour of the other, adds
   * no other edge and keeps the lists well formed: edges are undirected.
   */
  lemma ConnectedEdges(m: Adjacency, a: string, b: string)
    requires a in m && b in m && WellFormed(m) && NoRepeats(m)
    ensures var m' := Connected(m, a, b);
      && WellFormed(m') && NoRepeats(m')
      && b in m'[a] && a in m'[b]
      && (forall v, w :: v in m ==> (w in m'[v] <==> w in m[v] || (v == a && w == b) || (v == b && w == a)))
  {
    var m1 := m[a := AddOnce(m[a], b)];
    AddOnceNoRepeats(m[a], b);
    AddOnceNoRepeats(m1[b], a);
  }

  // ---------------------------------------------------------------- depth-first search

  /**
   * Kotlin's private `dfs(start, finish, visited)`: 0 when `start` is
   * `finish`; otherwise one more than the least result over the neighbours
   * of `start` outside `visited`, each searched with `visited + start`, and
   * null when none of them reaches `finish`.
   */
  function DfsFrom(m: Adjacency, s: string, f: string, visited: set<string>): Option<nat>
    requires WellFormed(m) && s in m && visited <= m.Keys
    decreases m.Keys - visited, if s in visited then 1 else 0, |m[s]| + 1
  {
    if s == f then Some(0)
    else match DfsAmong(m, m[s], f, visited, s)
      case None => None
      case Some(x) => Some(x + 1)
  }

  /** `filter { it !in visited }.mapNotNull { dfs(it, finish, visited + start) }.minOrNull()` over the list `ns`. */
  function DfsAmong(m: Adjacency, ns: seq<string>, f: string, visited: set<string>, s: string): Option<nat>
    requires WellFormed(m) && s in m && visited <= m.Keys && forall w :: w in ns ==> w in m
    decreases m.Keys - visited, if s in visited then 1 else 0, |ns|
  {
    if ns == [] then None
    else
      var rest := DfsAmong(m, ns[1..], f, visited, s);
      if ns[0] in visited then rest
      else
        assert s !in visited ==> m.Keys - (visited + {s}) < m.Keys - visited;
        match DfsFrom(m, ns[0], f, visited + {s})
        case None => rest
        case Some(x) => if rest.Some? && rest.value < x then rest else Some(x)
  }

  /** A result of the depth-first search is the length of a path from `s` to `f`. */
  lemma {:induction false} DfsFromPath(m: Adjacency, s: string, f: string, visited: set<string>) returns (p: seq<string>)
    requires WellFormed(m) && s in m && visited <= m.Keys && DfsFrom(m, s, f, visited).Some?
    ensures |p| == DfsFrom(m, s, f, visited).value + 1 && Bfs.IsPath(Edges(m), p) && p[0] == s && p[|p| - 1] == f
    decreases m.Keys - visited, if s in visited then 1 else 0, |m[s]| + 1
  {
    if s == f {
      p := [s];
    } else {
      var q := DfsAmongPath(m, m[s], f, visited, s);
      p := [s] + q;
      assert Bfs.IsPath(Edges(m), p) by {
        forall i | 0 <= i < |p| - 1 ensures p[i + 1] in Edges(m)(p[i]) {
          if i > 0 {
            assert p[i] == q[i - 1] && p[i + 1] == q[i];
          }
        }
      }
    }
  }

  /** A result of the search over a list comes from a neighbour in the list, and is the length of a path from it. */
  lemma {:induction false} DfsAmongPath(m: Adjacency, ns: seq<string>, f: string, visited: set<string>, s: string)
      returns (p: seq<string>)
    requires WellFormed(m) && s in m && visited <= m.Keys && forall w :: w in ns ==> w in m
    requires DfsAmong(m, ns, f, visited, s).Some?
    ensures |p| == DfsAmong(m, ns, f, visited, s).value + 1 && Bfs.IsPath(Edges(m), p) && p[0] in ns && p[|p| - 1] == f
    decreases m.Keys - visited, if s in visited then 1 else 0, |ns|
  {
    var rest := DfsAmong(m, ns[1..], f, visited, s);
    if ns[0] in visited {
      p := DfsAmongPath(m, ns[1..], f, visited, s);
    } else {
      assert s !in visited ==> m.Keys - (visited + {s}) < m.Keys - visited;
      var here := DfsFrom(m, ns[0], f, visited + {s});
      if here.Some? && !(rest.Some? && rest.value < here.value) {
        p := DfsFromPath(m, ns[0], f, visited + {s});
      } else {
        p := DfsAmongPath(m, ns[1..], f, visited, s);
      }
    }
  }

  /** `p` has no repeated vertex. */
  ghost predicate Simple(p: seq<string>) {
    forall i, j :: 0 <= i < j < |p| ==> p[i] != p[j]
  }

  /** No vertex of `p` after the first is in `visited`. */
  ghost predicate Avoids(p: seq<string>, visited: set<string>) {
    forall i :: 1 <= i < |p| ==> p[i] !in visited
  }

  /** The search over a list finds at most the result of any neighbour in it outside `visited`. */
  lemma {:induction false} DfsAmongAtMost(m: Adjacency, ns: seq<string>, f: string, visited: set<string>, s: string, k: nat)
    requires WellFormed(m) && s in m && visited <= m.Keys && forall w :: w in ns ==> w in m
    requires k < |ns| && ns[k] !in visited && DfsFrom(m, ns[k], f, visited + {s}).Some?
    ensures DfsAmong(m, ns, f, visited, s).Some?
    ensures DfsAmong(m, ns, f, visited, s).value <= DfsFrom(m, ns[k], f, visited + {s}).value
    decreases k
  {
    if k > 0 {
      DfsAmongAtMost(m, ns[1..], f, visited, s, k - 1);
    }
  }

  /** The depth-first search finds a result no longer than any simple path from `s` to `f` avoiding `visited`. */
  lemma {:induction false} DfsFromAtMost(m: Adjacency, s: string, f: string, visited: set<string>, p: seq<string>)
    requires WellFormed(m) && s in m && visited <= m.Keys
    requires |p| > 0 && Bfs.IsPath(Edges(m), p) && p[0] == s && p[|p| - 1] == f && Simple(p) && Avoids(p, visited)
    ensures DfsFrom(m, s, f, visited).Some? && DfsFrom(m, s, f, visited).value <= |p| - 1
    decreases |p|
  {
    if s != f {
      var q := p[1..];
      assert q[0] in m[s];
      assert Simple(q) && Avoids(q, visited + {s}) by {
        forall i | 1 <= i < |q| ensures q[i] !in visited + {s} {
          assert q[i] == p[i + 1] && p[0] == s;
        }
      }
      assert Bfs.IsPath(Edges(m), q) by {
        forall i | 0 <= i < |q| - 1 ensures q[i + 1] in Edges(m)(q[i]) {
          assert q[i] == p[i + 1] && q[i + 1] == p[i + 2];
        }
      }
      DfsFromAtMost(m, q[0], f, visited + {s}, q);
      var k :| 0 <= k < |m[s]| && m[s][k] == q[0];
      DfsAmongAtMost(m, m[s], f, visited, s, k);
    }
  }

  /** A path whose length is the distance repeats no vertex: cutting out a loop would give a shorter one. */
  lemma ShortestIsSimple(adj: string -> seq<string>, s: string, t: string, p: seq<string>)
    requires |p| > 0 && Bfs.IsPath(adj, p) && p[0] == s && p[|p| - 1] == t && Bfs.IsDistance(adj, s, t, |p| - 1)
    ensures Simple(p)
  {
    forall i, j | 0 <= i < j < |p| ensures p[i] != p[j] {
      if p[i] == p[j] {
        var short := p[..i] + p[j..];
        assert Bfs.IsPath(adj, short) by {
          forall k | 0 <= k < |short| - 1 ensures short[k + 1] in adj(short[k]) {
            if k < i - 1 {
              assert short[k] == p[k] && short[k + 1] == p[k + 1];
            } else if k == i - 1 {
              assert short[k] == p[i - 1] && short[k + 1] == p[j];
              assert p[i] in adj(p[i - 1]);
            } else {
              assert short[k] == p[k + j - i] && short[k + 1] == p[k + j - i + 1];
            }
          }
        }
        assert short[0] == s && short[|short| - 1] == t;
        Bfs.DistanceIsShortest(adj, s, t, |p| - 1, short);
      }
    }
  }

  /** The depth-first search from `s` with nothing visited yields exactly the breadth-first distance. */
  lemma DfsIsDistance(m: Adjacency, s: string, f: string)
    requires WellFormed(m) && s in m
    ensures var r := DfsFrom(m, s, f, {});
      Bfs.IsDistance(Edges(m), s, f, if r.Some? then r.value else -1)
  {
    if DfsFrom(m, s, f, {}).Some? {
      DfsFoundIsDistance(m, s, f);
    } else {
      forall k: nat ensures f !in Bfs.Within(Edges(m), s, k) {
        if f in Bfs.Within(Edges(m), s, k) {
          ReachableFound(m, s, f, k);
        }
      }
    }
  }

  /** A result of the depth-first search is the distance: no path is shorter, and it is found for a shortest one. */
  lemma DfsFoundIsDistance(m: Adjacency, s: string, f: string)
    requires WellFormed(m) && s in m && DfsFrom(m, s, f, {}).Some?
    ensures Bfs.IsDistance(Edges(m), s, f, DfsFrom(m, s, f, {}).value)
  {
    var adj := Edges(m);
    var p := DfsFromPath(m, s, f, {});
    Bfs.PathWithin(adj, p);
    var d := LeastLevel(adj, s, f, |p| - 1);
    ShortestFound(m, s, f, d);
    Bfs.DistanceIsShortest(adj, s, f, d, p);
  }

  /** A vertex at distance `d` is found by the depth-first search, with a result of at most `d`. */
  lemma ShortestFound(m: Adjacency, s: string, f: string, d: nat)
    requires WellFormed(m) && s in m && Bfs.IsDistance(Edges(m), s, f, d)
    ensures DfsFrom(m, s, f, {}).Some? && DfsFrom(m, s, f, {}).value <= d
  {
    var shortest := Bfs.ShortestPathExists(Edges(m), s, f, d);
    ShortestIsSimple(Edges(m), s, f, shortest);
    DfsFromAtMost(m, s, f, {}, shortest);
  }

  /** A vertex reachable from `s` is found by the depth-first search. */
  lemma ReachableFound(m: Adjacency, s: string, f: string, k: nat)
    requires WellFormed(m) && s in m && f in Bfs.Within(Edges(m), s, k)
    ensures DfsFrom(m, s, f, {}).Some?
  {
    var d := LeastLevel(Edges(m), s, f, k);
    ShortestFound(m, s, f, d);
  }

  /** A vertex within `k` steps has a distance of at most `k`. */
  lemma {:induction false} LeastLevel(adj: string -> seq<string>, s: string, t: string, k: nat) returns (d: nat)
    requires t in Bfs.Within(adj, s, k)
    ensures d <= k && Bfs.IsDistance(adj, s, t, d)
  {
    if k == 0 || t !in Bfs.Within(adj, s, k - 1) {
      d := k;
    } else {
      d := LeastLevel(adj, s, t, k - 1);
    }
  }

  // ---------------------------------------------------------------- the graph

  class Graph {
    /** `vertices`: every name with its neighbours' names. */
    var vertices: Adjacency

    ghost predicate Valid()
      reads this
    {
      WellFormed(vertices) && NoRepeats(vertices)
    }

    constructor ()
      ensures Valid() && vertices == map[]
    {
      vertices := map[];
    }

    /**
     * `addVertex(name)`: the name with no neighbours. For a name already
     * present the entry is replaced (see README, "Left out").
     */
    method AddVertex(name: string)
      requires Valid()
      modifies this
      ensures Valid() && vertices == old(vertices)[name := []]
    {
      vertices := vertices[name := []];
    }

    /** `connect(first, second)`: IllegalArgumentException for an unknown name; otherwise each becomes the other's neighbour. */
    method Connect(first: string, second: string) returns (r: Result<()>)
      requires Valid()
      modifies this
      ensures Valid()
      ensures r.Fail? <==> first !in old(vertices) || second !in old(vertices)
      ensures r.Fail? ==> r.error == IllegalArgument && vertices == old(vertices)
      ensures r.Ok? ==> vertices == Connected(old(vertices), first, second)
    {
      if first !in vertices || second !in vertices {
        return Fail(IllegalArgument);
      }
      ConnectedEdges(vertices, first, second);
      var a := vertices[first];
      vertices := vertices[first := AddOnce(a, second)];
      var b := vertices[second];
      vertices := vertices[second := AddOnce(b, first)];
      return Ok(());
    }

    /**
     * `bfs(start, finish)`: IllegalArgumentException for an unknown name;
     * otherwise the breadth-first search from `start`, which returns the
     * number of edges of a shortest path to `finish`, 0 when they are the
     * same vertex and -1 when `finish` cannot be reached.
     */
    method BreadthFirst(start: string, finish: string) returns (r: Result<int>)
      requires Valid()
      ensures r.Fail? <==> start !in vertices || finish !in vertices
      ensures r.Fail? ==> r.error == IllegalArgument
      ensures r.Ok? ==> Bfs.IsDistance(Edges(vertices), start, finish, r.value)
    {
      if start !in vertices || finish !in vertices {
        return Fail(IllegalArgument);
      }
      ClosedGraph(vertices);
      var d := Bfs.Distance(Edges(vertices), start, finish, vertices.Keys);
      return Ok(d);
    }

    /**
     * `dfs(start, finish)`: IllegalArgumentException for an unknown name;
     * otherwise the depth-first search over simple paths, or -1 when it finds
     * none. Its result is the same distance as the breadth-first search.
     */
    function DepthFirst(start: string, finish: string): (r: Result<int>)
      reads this
      requires Valid()
      ensures r.Fail? <==> start !in vertices || finish !in vertices
      ensures r.Fail? ==> r.error == IllegalArgument
      ensures r.Ok? ==> Bfs.IsDistance(Edges(vertices), start, finish, r.value)
    {
      if start !in vertices || finish !in vertices then Fail(IllegalArgument)
      else
        DfsIsDistance(vertices, start, finish);
        match DfsFrom(vertices, start, finish, {})
        case None => Ok(-1)
        case Some(d) => Ok(d)
    }
  }

  /** The two searches agree on every pair of known vertices. */
  lemma DepthFirstIsBreadthFirst(m: Adjacency, start: string, finish: string, d1: int, d2: int)
    requires WellFormed(m) && start in m
    requires Bfs.IsDistance(Edges(m), start, finish, d1)
    requires d2 == if DfsFrom(m, start, finish, {}).Some? then DfsFrom(m, start, finish, {}).value else -1
    ensures d1 == d2
  {
    DfsIsDistance(m, start, finish);
    Bfs.DistanceUnique(Edges(m), start, finish, d1, d2);
  }
}
