/** The dependency graph the registry keeps: each registered key's declared dependency list,
    and the reverse index from a key to the keys that declared it as a dependency
    (`dependants` in DefaultResourceManager.java). */
module DependencyGraph {
  import opened ResourceKeys

  type Key = ResourceKey

  /** A graph over keys: the declared dependency lists, or the index rows of dependants.
      An index row is kept in the order its keys were first added; the source keeps it as
      a hash set, whose iteration order it leaves unspecified. */
  type Graph = map<Key, seq<Key>>

  /** The index row of `k`, in iteration order; a missing row reads as empty
      (`getDependants`). */
  function RowSeq(rows: Graph, k: Key): seq<Key>
  {
    if k in rows then rows[k] else []
  }

  /** The keys of the index row of `k`. */
  function Row(rows: Graph, k: Key): set<Key>
  {
    set j | j in RowSeq(rows, k)
  }

  /** The keys one index step away from some key of `s`. */
  function Step(rows: Graph, s: set<Key>): set<Key>
  {
    set k, j | k in s && j in Row(rows, k) :: j
  }

  /** Every key that occurs in some row. */
  function Universe(rows: Graph): set<Key>
  {
    set k, j | k in rows && j in rows[k] :: j
  }

  /** The keys reachable from `key` in one to `n` index steps. */
  function Reach(rows: Graph, key: Key, n: nat): set<Key>
  {
    if n == 0 then {} else Row(rows, key) + Step(rows, Reach(rows, key, n - 1))
  }

  /** All transitive dependants of `key`: the keys reachable from it in one or more steps. */
  ghost function Dependants(rows: Graph, key: Key): set<Key>
  {
    Reach(rows, key, |Universe(rows)|)
  }

  lemma StepUnion(rows: Graph, a: set<Key>, b: set<Key>)
    ensures Step(rows, a + b) == Step(rows, a) + Step(rows, b)
  {
  }

  lemma StepMono(rows: Graph, a: set<Key>, b: set<Key>)
    requires a <= b
    ensures Step(rows, a) <= Step(rows, b)
  {
  }

  lemma StepInUniverse(rows: Graph, s: set<Key>)
    ensures Step(rows, s) <= Universe(rows)
    ensures forall k :: Row(rows, k) <= Universe(rows)
  {
  }

  /** Reachability only grows with the number of steps allowed. */
  lemma {:induction false} ReachMono(rows: Graph, key: Key, m: nat, n: nat)
    requires m <= n
    ensures Reach(rows, key, m) <= Reach(rows, key, n)
    decreases n
  {
    if m < n {
      ReachMono(rows, key, m, n - 1);
      if n - 1 > 0 {
        ReachMono(rows, key, n - 2, n - 1);
        StepMono(rows, Reach(rows, key, n - 2), Reach(rows, key, n - 1));
      }
    }
  }

  /** Once one more step adds nothing, no number of further steps adds anything. */
  lemma {:induction false} ReachStable(rows: Graph, key: Key, t: nat, m: nat)
    requires Reach(rows, key, t + 1) == Reach(rows, key, t)
    requires t <= m
    ensures Reach(rows, key, m) == Reach(rows, key, t)
    decreases m - t
  {
    if t < m {
      ReachStable(rows, key, t, m - 1);
    }
  }

  /** Every key reachable from `key` occurs in some row. */
  lemma ReachInUniverse(rows: Graph, key: Key, n: nat)
    ensures Reach(rows, key, n) <= Universe(rows)
  {
    if n > 0 {
      StepInUniverse(rows, Reach(rows, key, n - 1));
    }
  }

  /** One more breadth-first round: the keys first reached in `t + 2` steps are the
      successors of those first reached in `t + 1` steps, less those reached before. */
  lemma ReachNext(rows: Graph, key: Key, t: nat)
    requires Reach(rows, key, t) <= Reach(rows, key, t + 1)
    ensures Reach(rows, key, t + 2) - Reach(rows, key, t + 1)
         == Step(rows, Reach(rows, key, t + 1) - Reach(rows, key, t)) - Reach(rows, key, t + 1)
  {
    var a := Reach(rows, key, t);
    var b := Reach(rows, key, t + 1);
    assert b == a + (b - a);
    StepUnion(rows, a, b - a);
  }

  /** A proper subset has fewer elements. */
  lemma CardLess(a: set<Key>, b: set<Key>)
    requires a < b
    ensures |a| < |b|
  {
    assert b == a + (b - a);
    assert b - a != {};
    var x :| x in b - a;
    assert |b - a| >= |{x}| by {
      assert {x} <= b - a;
      CardMono({x}, b - a);
    }
  }

  /** A subset has no more elements than its superset. */
  lemma {:induction false} CardMono(a: set<Key>, b: set<Key>)
    requires a <= b
    ensures |a| <= |b|
  {
    assert b == a + (b - a);
  }

  /** The breadth-first walk of `getAllDependants`: the keys of `current` join `seen`, and
      the walk goes on with the keys one index step from `current` that are not seen yet,
      until a round finds nothing new. */
  ghost function Walk(rows: Graph, seen: set<Key>, current: set<Key>): set<Key>
    requires seen + current <= Universe(rows) && seen !! current
    decreases |Universe(rows) - seen|
  {
    if current == {} then seen
    else
      var seen' := seen + current;
      WalkShrinks(rows, seen, current);
      Walk(rows, seen', Step(rows, current) - seen')
  }

  /** Each round of the walk leaves fewer unseen keys, and stays within the universe. */
  lemma WalkShrinks(rows: Graph, seen: set<Key>, current: set<Key>)
    requires seen + current <= Universe(rows) && seen !! current && current != {}
    ensures |Universe(rows) - (seen + current)| < |Universe(rows) - seen|
    ensures seen + current + (Step(rows, current) - (seen + current)) <= Universe(rows)
  {
    var k :| k in current;
    assert k in Universe(rows) - seen && k !in Universe(rows) - (seen + current);
    CardLess(Universe(rows) - (seen + current), Universe(rows) - seen);
    StepInUniverse(rows, current);
  }

  /** A round of the walk that finds keys goes on from them. */
  lemma WalkUnfold(rows: Graph, seen: set<Key>, current: set<Key>)
    requires seen + current <= Universe(rows) && seen !! current && current != {}
    ensures seen + current + (Step(rows, current) - (seen + current)) <= Universe(rows)
    ensures Walk(rows, seen, current) == Walk(rows, seen + current, Step(rows, current) - (seen + current))
  {
    WalkShrinks(rows, seen, current);
  }

  /** One round of the walk from the keys reached in up to t steps that finds new keys:
      it goes on from the keys reached in up to t + 1 steps. */
  lemma WalkRoundOn(rows: Graph, key: Key, t: nat, seen: set<Key>, next: set<Key>, after: set<Key>)
    requires seen == Reach(rows, key, t) && next == Reach(rows, key, t + 1) && after == Reach(rows, key, t + 2)
    requires seen <= next <= Universe(rows) && next != seen
    ensures after <= Universe(rows)
    ensures Walk(rows, seen, next - seen) == Walk(rows, next, after - next)
  {
    var current := next - seen;
    assert seen + current == next;
    assert after - next == Step(rows, current) - next by {
      ReachNext(rows, key, t);
    }
    ReachInUniverse(rows, key, t + 2);
    WalkUnfold(rows, seen, current);
  }

  /** The walk started after t rounds, from the keys reached in up to t steps and the
      frontier first reached in t + 1, ends with every transitive dependant of `key`. */
  lemma {:induction false} WalkReaches(rows: Graph, key: Key, t: nat)
    requires t <= |Reach(rows, key, t)|
    ensures Reach(rows, key, t + 1) <= Universe(rows) && Reach(rows, key, t) <= Reach(rows, key, t + 1)
    ensures Walk(rows, Reach(rows, key, t), Reach(rows, key, t + 1) - Reach(rows, key, t)) == Dependants(rows, key)
    decreases |Universe(rows)| - t, 1
  {
    ReachMono(rows, key, t, t + 1);
    ReachInUniverse(rows, key, t + 1);
    if Reach(rows, key, t + 1) == Reach(rows, key, t) {
      assert Reach(rows, key, t + 1) - Reach(rows, key, t) == {};
      CardMono(Reach(rows, key, t), Universe(rows));
      ReachStable(rows, key, t, |Universe(rows)|);
    } else {
      WalkReachesOn(rows, key, t);
    }
  }

  /** The case of `WalkReaches` where the round finds new keys: the walk goes on after
      t + 1 rounds. */
  lemma {:induction false} WalkReachesOn(rows: Graph, key: Key, t: nat)
    requires t <= |Reach(rows, key, t)|
    requires Reach(rows, key, t) <= Reach(rows, key, t + 1) <= Universe(rows)
    requires Reach(rows, key, t + 1) != Reach(rows, key, t)
    ensures Walk(rows, Reach(rows, key, t), Reach(rows, key, t + 1) - Reach(rows, key, t)) == Dependants(rows, key)
    decreases |Universe(rows)| - t, 0
  {
    var seen, next := Reach(rows, key, t), Reach(rows, key, t + 1);
    CardLess(seen, next);
    CardMono(next, Universe(rows));
    WalkRoundOn(rows, key, t, seen, next, Reach(rows, key, t + 2));
    WalkReaches(rows, key, t + 1);
  }

  /** A row ranking: every key of a row ranks below the key whose row it is. Such a ranking
      exists exactly when the index has no cycle. */
  ghost predicate RowsRanked(rows: Graph, rank: map<Key, nat>)
  {
    forall k | k in rows :: k in rank && forall j | j in rows[k] :: j in rank && rank[j] < rank[k]
  }

  /** `key` and everything the recursive close of `key` visits through the index rows. */
  ghost function Downstream(rows: Graph, rank: map<Key, nat>, key: Key): set<Key>
    requires RowsRanked(rows, rank)
    decreases if key in rows then rank[key] + 1 else 0
  {
    {key} + set d, x | d in Row(rows, key) && x in Downstream(rows, rank, d) :: x
  }

  /** The keys visited from some key of `s`. */
  ghost function DownstreamOf(rows: Graph, rank: map<Key, nat>, s: set<Key>): set<Key>
    requires RowsRanked(rows, rank)
  {
    set d, x | d in s && x in Downstream(rows, rank, d) :: x
  }

  lemma DownstreamUnfold(rows: Graph, rank: map<Key, nat>, key: Key)
    requires RowsRanked(rows, rank)
    ensures Downstream(rows, rank, key) == {key} + DownstreamOf(rows, rank, Row(rows, key))
  {
  }

  lemma DownstreamOfAdd(rows: Graph, rank: map<Key, nat>, s: set<Key>, d: Key)
    requires RowsRanked(rows, rank)
    ensures DownstreamOf(rows, rank, s + {d}) == DownstreamOf(rows, rank, s) + Downstream(rows, rank, d)
  {
  }

  /** Everything below a key ranks strictly lower than it. */
  lemma {:induction false} DownstreamRank(rows: Graph, rank: map<Key, nat>, key: Key, x: Key)
    requires RowsRanked(rows, rank)
    requires x in Downstream(rows, rank, key) && x != key
    ensures key in rank && x in rank && rank[x] < rank[key]
    decreases if key in rows then rank[key] + 1 else 0
  {
    var d :| d in Row(rows, key) && x in Downstream(rows, rank, d);
    if x != d {
      DownstreamRank(rows, rank, d, x);
    }
  }

  /** A key is not below any key of its own row. */
  lemma DownstreamOfRowExcludes(rows: Graph, rank: map<Key, nat>, key: Key)
    requires RowsRanked(rows, rank)
    ensures key !in DownstreamOf(rows, rank, Row(rows, key))
  {
    if key in DownstreamOf(rows, rank, Row(rows, key)) {
      var d :| d in Row(rows, key) && key in Downstream(rows, rank, d);
      DownstreamRank(rows, rank, d, key);
      assert false;
    }
  }

  /** The visited set is closed under index steps. */
  lemma {:induction false} DownstreamClosed(rows: Graph, rank: map<Key, nat>, key: Key, y: Key)
    requires RowsRanked(rows, rank)
    requires y in Downstream(rows, rank, key)
    ensures Row(rows, y) <= Downstream(rows, rank, key)
    decreases if key in rows then rank[key] + 1 else 0
  {
    if y != key {
      var d :| d in Row(rows, key) && y in Downstream(rows, rank, d);
      DownstreamClosed(rows, rank, d, y);
      DownstreamOfRow(rows, rank, key, d);
    } else {
      forall j | j in Row(rows, key)
        ensures j in Downstream(rows, rank, key)
      {
        assert j in Downstream(rows, rank, j);
      }
    }
  }

  lemma DownstreamOfRow(rows: Graph, rank: map<Key, nat>, key: Key, d: Key)
    requires RowsRanked(rows, rank)
    requires d in Row(rows, key)
    ensures Downstream(rows, rank, d) <= Downstream(rows, rank, key)
  {
  }

  /** A set closed under the rows and holding `key` holds every transitive dependant. */
  lemma {:induction false} ReachInClosed(rows: Graph, key: Key, n: nat, s: set<Key>)
    requires key in s && ClosedUnder(rows, s)
    ensures Reach(rows, key, n) <= s
  {
    if n > 0 {
      ReachInClosed(rows, key, n - 1, s);
      forall j | j in Step(rows, Reach(rows, key, n - 1))
        ensures j in s
      {
        var y :| y in Reach(rows, key, n - 1) && j in Row(rows, y);
      }
    }
  }

  /** What the close of `key` visits is closed under the rows. */
  lemma DownstreamClosedUnder(rows: Graph, rank: map<Key, nat>, key: Key)
    requires RowsRanked(rows, rank)
    ensures key in Downstream(rows, rank, key)
    ensures ClosedUnder(rows, Downstream(rows, rank, key))
  {
    forall y, j | y in Downstream(rows, rank, key) && y in rows && j in rows[y]
      ensures j in Downstream(rows, rank, key)
    {
      DownstreamClosed(rows, rank, key, y);
      assert j in Row(rows, y);
    }
  }

  /** Every transitive dependant is visited by the recursive close. */
  lemma ReachInDownstream(rows: Graph, rank: map<Key, nat>, key: Key, n: nat)
    requires RowsRanked(rows, rank)
    ensures Reach(rows, key, n) <= Downstream(rows, rank, key)
  {
    DownstreamClosedUnder(rows, rank, key);
    ReachInClosed(rows, key, n, Downstream(rows, rank, key));
  }

  /** A dependency ranking: every registered dependency ranks below the key declaring it.
      Such a ranking exists exactly when the registered part of the graph has no cycle. */
  ghost predicate DepsRanked(deps: Graph, rank: map<Key, nat>)
  {
    forall k | k in deps ::
      k in rank && forall d | d in deps[k] && d in deps :: d in rank && rank[d] < rank[k]
  }

  /** `key` and everything the recursive open of `key` visits through declared dependencies;
      an unregistered key is visited but not followed. */
  ghost function Needs(deps: Graph, rank: map<Key, nat>, key: Key): set<Key>
    requires DepsRanked(deps, rank)
    decreases if key in deps then rank[key] + 1 else 0
  {
    {key} + if key in deps then (set d, x | d in deps[key] && x in Needs(deps, rank, d) :: x) else {}
  }

  lemma NeedsOfDependency(deps: Graph, rank: map<Key, nat>, key: Key, d: Key)
    requires DepsRanked(deps, rank)
    requires key in deps && d in deps[key]
    ensures Needs(deps, rank, d) <= Needs(deps, rank, key)
  {
  }

  /** Every registered key visited from `key` ranks no higher than `key`. */
  lemma {:induction false} NeedsRank(deps: Graph, rank: map<Key, nat>, key: Key, x: Key)
    requires DepsRanked(deps, rank)
    requires x in Needs(deps, rank, key) && x in deps
    ensures key in deps && rank[x] <= rank[key]
    decreases if key in deps then rank[key] + 1 else 0
  {
    if x != key {
      var d :| d in deps[key] && x in Needs(deps, rank, d);
      NeedsRank(deps, rank, d, x);
    }
  }

  /** A registered key is not visited again below one of its own dependencies. */
  lemma NeedsOfDependencyExcludes(deps: Graph, rank: map<Key, nat>, key: Key, d: Key)
    requires DepsRanked(deps, rank)
    requires key in deps && d in deps[key]
    ensures key !in Needs(deps, rank, d)
  {
    if key in Needs(deps, rank, d) {
      NeedsRank(deps, rank, d, key);
      assert false;
    }
  }

  /** No key of `s` with an entry in `g` has a successor in `g` outside `s`. */
  ghost predicate ClosedUnder(g: Graph, s: set<Key>)
  {
    forall k, d | k in s && k in g && d in g[k] :: d in s
  }

  /** The keys of `s` that have no entry in `g` or rank below `r`. */
  ghost function Lower(g: Graph, rank: map<Key, nat>, s: set<Key>, r: nat): set<Key>
  {
    set k | k in s && (k !in g || (k in rank && rank[k] < r))
  }

  /** Cutting a dependency-closed set at a rank leaves it dependency-closed. */
  lemma LowerClosed(deps: Graph, rank: map<Key, nat>, s: set<Key>, r: nat)
    requires DepsRanked(deps, rank) && ClosedUnder(deps, s)
    ensures Lower(deps, rank, s, r) <= s
    ensures ClosedUnder(deps, Lower(deps, rank, s, r))
  {
  }

  /** What the open of a key visited from `key` visits, the open of `key` visits too. */
  lemma {:induction false} NeedsTransitive(deps: Graph, rank: map<Key, nat>, key: Key, x: Key)
    requires DepsRanked(deps, rank)
    requires x in Needs(deps, rank, key)
    ensures Needs(deps, rank, x) <= Needs(deps, rank, key)
    decreases if key in deps then rank[key] + 1 else 0
  {
    if x != key {
      var d :| d in deps[key] && x in Needs(deps, rank, d);
      NeedsTransitive(deps, rank, d, x);
      NeedsOfDependency(deps, rank, key, d);
    }
  }

  /** The keys the open of `key` visits form a dependency-closed set holding `key`. */
  lemma NeedsClosed(deps: Graph, rank: map<Key, nat>, key: Key)
    requires DepsRanked(deps, rank)
    ensures key in Needs(deps, rank, key)
    ensures ClosedUnder(deps, Needs(deps, rank, key))
  {
    forall k, d | k in Needs(deps, rank, key) && k in deps && d in deps[k]
      ensures d in Needs(deps, rank, key)
    {
      NeedsTransitive(deps, rank, key, k);
      NeedsOfDependency(deps, rank, k, d);
      assert d in Needs(deps, rank, d);
    }
  }

  /** ... and the least such set: every dependency-closed set holding `key` holds them. */
  lemma {:induction false} NeedsLeast(deps: Graph, rank: map<Key, nat>, key: Key, s: set<Key>)
    requires DepsRanked(deps, rank)
    requires key in s && ClosedUnder(deps, s)
    ensures Needs(deps, rank, key) <= s
    decreases if key in deps then rank[key] + 1 else 0
  {
    forall x | x in Needs(deps, rank, key) ensures x in s {
      if x != key {
        var d :| d in deps[key] && x in Needs(deps, rank, d);
        NeedsLeast(deps, rank, d, s);
      }
    }
  }

  /** A row ranking ranks the rows as a dependency ranking would. */
  lemma RowsRankedAsDeps(rows: Graph, rank: map<Key, nat>)
    requires RowsRanked(rows, rank)
    ensures DepsRanked(rows, rank)
  {
  }

  /** ... and the least such set: every set closed under the rows and holding `key` holds
      everything the close of `key` visits. */
  lemma {:induction false} DownstreamLeast(rows: Graph, rank: map<Key, nat>, key: Key, s: set<Key>)
    requires RowsRanked(rows, rank)
    requires key in s && ClosedUnder(rows, s)
    ensures Downstream(rows, rank, key) <= s
    decreases if key in rows then rank[key] + 1 else 0
  {
    forall x | x in Downstream(rows, rank, key) ensures x in s {
      if x != key {
        var d :| d in Row(rows, key) && x in Downstream(rows, rank, d);
        DownstreamLeast(rows, rank, d, s);
      }
    }
  }

  /** The keys that the closes of keys[i..] visit. */
  ghost function DownstreamFrom(rows: Graph, rank: map<Key, nat>, keys: seq<Key>, i: nat): set<Key>
    requires RowsRanked(rows, rank)
  {
    set j, x | i <= j < |keys| && x in Downstream(rows, rank, keys[j]) :: x
  }

  lemma DownstreamFromStep(rows: Graph, rank: map<Key, nat>, keys: seq<Key>, i: nat)
    requires RowsRanked(rows, rank) && i < |keys|
    ensures DownstreamFrom(rows, rank, keys, i) ==
            Downstream(rows, rank, keys[i]) + DownstreamFrom(rows, rank, keys, i + 1)
  {
  }

  /** The close of `key` visits the key and what the closes of its row visit, which does not
      include the key itself. */
  lemma DownstreamSplit(rows: Graph, rank: map<Key, nat>, key: Key)
    requires RowsRanked(rows, rank)
    ensures Downstream(rows, rank, key) == {key} + DownstreamFrom(rows, rank, RowSeq(rows, key), 0)
    ensures key !in DownstreamFrom(rows, rank, RowSeq(rows, key), 0)
  {
    var row := RowSeq(rows, key);
    assert DownstreamFrom(rows, rank, row, 0) == DownstreamOf(rows, rank, Row(rows, key)) by {
      forall x | x in DownstreamOf(rows, rank, Row(rows, key))
        ensures x in DownstreamFrom(rows, rank, row, 0)
      {
        var d :| d in Row(rows, key) && x in Downstream(rows, rank, d);
        var j :| 0 <= j < |row| && row[j] == d;
      }
    }
    DownstreamUnfold(rows, rank, key);
    DownstreamOfRowExcludes(rows, rank, key);
  }

  /** Every key of `keys` with a row ranks below `bound - 1`, so that the close of each
      terminates before a loop bounded by `bound` does. */
  ghost predicate RankedBelow(rows: Graph, rank: map<Key, nat>, keys: seq<Key>, bound: nat)
  {
    forall j | j in keys :: 0 < bound && (j in rows ==> j in rank && rank[j] + 1 < bound)
  }

  /** A bound above every rank, plus one. */
  ghost function Ceiling(rank: map<Key, nat>): (bound: nat)
    ensures 0 < bound && forall k | k in rank :: rank[k] + 1 < bound
    decreases |rank.Keys|
  {
    if rank == map[] then 1
    else
      var k :| k in rank;
      var rest := rank - {k};
      assert rest.Keys == rank.Keys - {k};
      var b := Ceiling(rest);
      assert forall j | j in rank :: j == k || j in rest;
      if b > rank[k] + 1 then b else rank[k] + 2
  }

  /** Under a row ranking, every list of keys ranks below the ceiling. */
  lemma CeilingBounds(rows: Graph, rank: map<Key, nat>, keys: seq<Key>)
    requires RowsRanked(rows, rank)
    ensures RankedBelow(rows, rank, keys, Ceiling(rank))
  {
  }

  /** The closes of a list of keys visit at least those keys. */
  lemma DownstreamFromCovers(rows: Graph, rank: map<Key, nat>, keys: seq<Key>)
    requires RowsRanked(rows, rank)
    ensures forall j | 0 <= j < |keys| :: keys[j] in DownstreamFrom(rows, rank, keys, 0)
  {
    forall j | 0 <= j < |keys| ensures keys[j] in DownstreamFrom(rows, rank, keys, 0) {
      DownstreamClosedUnder(rows, rank, keys[j]);
    }
  }
}
