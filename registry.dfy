/** DefaultResourceManager.java: a registry of resources that are opened dependencies first
    and closed dependants first. */
module Registry {
  import opened Wrappers
  import opened Values
  import opened ResourceKeys
  import opened Failures
  import opened DependencyGraph
  import opened Lifecycle
  import opened Opening
  import opened Closing

  /** The keys of `keys`, in order, whose slot is open (`open`) or empty (`!open`). */
  function Filter(keys: seq<Key>, s: Slots, open: bool): seq<Key>
    requires Elems(keys) <= s.Keys
  {
    if keys == [] then []
    else (if s[keys[0]].Some? == open then [keys[0]] else []) + Filter(keys[1..], s, open)
  }

  lemma {:induction false} FilterMembers(keys: seq<Key>, s: Slots, open: bool)
    requires Elems(keys) <= s.Keys
    ensures forall x :: x in Filter(keys, s, open) <==> x in keys && s[x].Some? == open
  {
    if keys != [] {
      FilterMembers(keys[1..], s, open);
      assert forall x :: x in keys <==> x == keys[0] || x in keys[1..];
    }
  }

  lemma {:induction false} FilterAppend(keys: seq<Key>, x: Key, s: Slots, open: bool)
    requires Elems(keys + [x]) <= s.Keys
    ensures Filter(keys + [x], s, open) == Filter(keys, s, open) + (if s[x].Some? == open then [x] else [])
  {
    var ks := keys + [x];
    if keys == [] {
      assert ks == [x] && ks[1..] == [];
    } else {
      assert ks[0] == keys[0] && ks[1..] == keys[1..] + [x];
      assert Elems(keys[1..] + [x]) <= s.Keys by {
        assert forall y | y in keys[1..] + [x] :: y in ks;
      }
      FilterAppend(keys[1..], x, s, open);
      var head := if s[keys[0]].Some? == open then [keys[0]] else [];
      var tail := if s[x].Some? == open then [x] else [];
      assert Filter(ks, s, open) == head + Filter(keys[1..] + [x], s, open);
      assert Filter(keys, s, open) == head + Filter(keys[1..], s, open);
      assert head + (Filter(keys[1..], s, open) + tail) == (head + Filter(keys[1..], s, open)) + tail;
    }
  }

  /** Each key goes to exactly one of the two filters. */
  lemma {:induction false} FilterSplits(keys: seq<Key>, s: Slots)
    requires Elems(keys) <= s.Keys
    ensures |Filter(keys, s, true)| + |Filter(keys, s, false)| == |keys|
  {
    if keys != [] {
      FilterSplits(keys[1..], s);
    }
  }

  lemma {:induction false} FilterDistinct(keys: seq<Key>, s: Slots, open: bool)
    requires Elems(keys) <= s.Keys && Distinct(keys)
    ensures Distinct(Filter(keys, s, open))
  {
    if keys != [] {
      FilterDistinct(keys[1..], s, open);
      FilterMembers(keys[1..], s, open);
      assert keys[0] !in keys[1..];
    }
  }

  /** A sequence without repetitions has as many elements as its set of elements. */
  lemma {:induction false} DistinctCard(s: seq<Key>)
    requires Distinct(s)
    ensures |Elems(s)| == |s|
  {
    if s != [] {
      DistinctCard(s[1..]);
      assert Elems(s) == Elems(s[1..]) + {s[0]};
      assert s[0] !in Elems(s[1..]);
    }
  }

  /** `s` without the keys of `gone`, order kept: what removal from a LinkedHashMap does to
      the key order. */
  function Without(s: seq<Key>, gone: set<Key>): seq<Key>
  {
    if s == [] then []
    else if s[0] in gone then Without(s[1..], gone)
    else [s[0]] + Without(s[1..], gone)
  }

  /** Removal keeps exactly the other keys, and repeats none. */
  lemma {:induction false} WithoutKeeps(s: seq<Key>, gone: set<Key>)
    ensures Elems(Without(s, gone)) == Elems(s) - gone
    ensures Distinct(s) ==> Distinct(Without(s, gone))
  {
    if s != [] {
      var rest := Without(s[1..], gone);
      WithoutKeeps(s[1..], gone);
      assert Elems(s) == {s[0]} + Elems(s[1..]);
      if s[0] !in gone {
        var r := [s[0]] + rest;
        assert Elems(r) == {s[0]} + Elems(rest);
        if Distinct(s) {
          assert s[0] !in Elems(s[1..]);
          forall i, j | 0 <= i < j < |r| ensures r[i] != r[j] {
            assert r[j] == rest[j - 1] && r[j] in Elems(rest);
            if i > 0 {
              assert r[i] == rest[i - 1];
            }
          }
        }
      }
    }
  }

  lemma {:induction false} WithoutNothing(s: seq<Key>)
    ensures Without(s, {}) == s
  {
    if s != [] {
      WithoutNothing(s[1..]);
    }
  }

  lemma {:induction false} WithoutTwice(s: seq<Key>, a: set<Key>, b: set<Key>)
    ensures Without(Without(s, a), b) == Without(s, a + b)
  {
    if s != [] {
      WithoutTwice(s[1..], a, b);
    }
  }

  /** The index after `key` was added, by `register`, to the row of each dependency in
      turn: a row that already holds `key` is left alone, a missing row is created. */
  function Indexed(index: Graph, key: Key, dependencies: seq<Key>): Graph
  {
    if dependencies == [] then index
    else
      var before := Indexed(index, key, dependencies[..|dependencies| - 1]);
      var d := dependencies[|dependencies| - 1];
      var row := RowSeq(before, d);
      if key in row then before else before[d := row + [key]]
  }

  /** Registration creates the missing rows of the dependencies. */
  lemma {:induction false} IndexedKeys(index: Graph, key: Key, dependencies: seq<Key>)
    ensures Indexed(index, key, dependencies).Keys == index.Keys + Elems(dependencies)
  {
    if dependencies != [] {
      var ds := dependencies[..|dependencies| - 1];
      IndexedKeys(index, key, ds);
      assert dependencies == ds + [dependencies[|dependencies| - 1]];
      assert Elems(dependencies) == Elems(ds) + {dependencies[|dependencies| - 1]};
    }
  }

  /** Registration adds `key` once, at the end, to the row of each dependency that did not
      hold it, and changes no other row. */
  lemma {:induction false} IndexedRow(index: Graph, key: Key, dependencies: seq<Key>, k: Key)
    ensures RowSeq(Indexed(index, key, dependencies), k) ==
      RowSeq(index, k) + (if k in dependencies && key !in RowSeq(index, k) then [key] else [])
  {
    if dependencies != [] {
      var ds := dependencies[..|dependencies| - 1];
      IndexedRow(index, key, ds, k);
      assert dependencies == ds + [dependencies[|dependencies| - 1]];
      assert k in dependencies <==> k in ds || k == dependencies[|dependencies| - 1];
    }
  }

  /** Registration keeps the index rows free of repetitions. */
  lemma IndexedDistinct(index: Graph, key: Key, dependencies: seq<Key>)
    requires forall k | k in index :: Distinct(index[k])
    ensures var r := Indexed(index, key, dependencies); forall k | k in r :: Distinct(r[k])
  {
    var r := Indexed(index, key, dependencies);
    forall k | k in r ensures Distinct(r[k]) {
      IndexedRow(index, key, dependencies, k);
      assert RowSeq(r, k) == r[k];
    }
  }

  /** `addOrThrow`: in aggressive mode a closing failure is collected after the earlier
      ones; otherwise it is rethrown at once and the list is left as it was. */
  function AddOrThrow(exceptions: seq<Failure>, e: Failure, add: bool): (r: Result<seq<Failure>, Failure>)
    ensures r.Ok? <==> add
    ensures r.Ok? ==> |r.value| == |exceptions| + 1 && r.value[..|exceptions|] == exceptions && r.value[|exceptions|] == e
    ensures r.Err? ==> r.error == e
  {
    if add then Ok(exceptions + [e]) else Err(e)
  }

  /** A failure that is not a missing key goes through `addOrThrow`. */
  function Collect(exceptions: seq<Failure>, c: Outcome<Failure>, add: bool): (r: Result<seq<Failure>, Failure>)
    requires c.Fail? ==> c.error.NotFound? || c.error.ClosingFailed?
    requires AllClosingFailures(exceptions)
    ensures r.Ok? ==> AllClosingFailures(r.value)
    ensures r.Err? <==> c.Fail? && (c.error.NotFound? || !add)
    ensures r.Err? ==> r.error == c.error
    ensures r.Ok? ==> r.value == if c.Fail? then exceptions + [c.error] else exceptions
  {
    if c.Pass? then Ok(exceptions)
    else if c.error.NotFound? then Err(c.error)
    else AddOrThrow(exceptions, c.error, add)
  }

  /** `allDependants.addAll(currentDependants)`: the keys of `s`, in some order, appended
      after `all`. */
  method AddAll(all: seq<Key>, s: set<Key>) returns (r: seq<Key>)
    requires Distinct(all) && Elems(all) !! s
    ensures Distinct(r) && Elems(r) == Elems(all) + s
  {
    r := all;
    var rest := s;
    while rest != {}
      invariant Distinct(r) && Elems(r) !! rest && Elems(r) + rest == Elems(all) + s
      decreases |rest|
    {
      var k :| k in rest;
      DistinctSnoc(r, k);
      r := r + [k];
      rest := rest - {k};
    }
  }

  /** Appending a key that is not there yet keeps a sequence free of repetitions. */
  lemma DistinctSnoc(s: seq<Key>, k: Key)
    requires Distinct(s) && k !in Elems(s)
    ensures Distinct(s + [k]) && Elems(s + [k]) == Elems(s) + {k}
  {
    assert forall i | 0 <= i < |s| :: (s + [k])[i] == s[i];
  }

  class DefaultResourceManager {
    /** The registered keys in insertion order: the key order of `entries`. */
    var order: seq<Key>
    /** The declared dependencies of each registered key (`Entry.dependecies`). */
    var deps: Graph
    /** The closer of each registered key (`Entry.closer`). */
    var closer: map<Key, Closer>
    /** The resource slot of each registered key (`Entry.resource`). */
    var slot: Slots
    /** `dependants`: a key to the keys that declared it as a dependency, each once. */
    var index: Graph
    /** Every factory and closer invocation, in order. */
    ghost var log: seq<Event>

    /** The entries agree with each other: the order lists each registered key once, and
        every registered key has a closer and a slot; and no index row repeats a key. */
    ghost predicate Valid()
      reads this`order, this`deps, this`closer, this`slot, this`index
    {
      Shaped() && slot.Keys == deps.Keys
    }

    /** The parts of `Valid` that opening and closing leave alone. */
    ghost predicate Shaped()
      reads this`order, this`deps, this`closer, this`index
    {
      Distinct(order) && Elems(order) == deps.Keys && closer.Keys == deps.Keys && RowsDistinct()
    }

    /** Each index row is a set: it holds each key at most once. */
    ghost predicate RowsDistinct()
      reads this`index
    {
      forall k | k in index :: Distinct(index[k])
    }

    constructor ()
      ensures Valid()
      ensures order == [] && deps == map[] && closer == map[] && slot == map[] && index == map[] && log == []
    {
      order, deps, closer, slot, index, log := [], map[], map[], map[], map[], [];
    }

    /** The keys, among those in `closeFails`, whose closer throws; a no-op closer never does. */
    function Failing(closeFails: set<Key>): (f: set<Key>)
      reads this`closer
      ensures forall k :: k in f <==> k in closeFails && k in closer && closer[k] != NoOpCloser
    {
      set k | k in closeFails && k in closer && closer[k] != NoOpCloser
    }

    // -------------------------------------------------------------------------------------
    // Registration

    /** `checkCycle`, as written: the breadth-first walk looks up the entry of `key` itself
        rather than of each dependency, and `key` is not yet registered when `register`
        calls it, so only a key listed among its own dependencies is reported. */
    method CheckCycle(key: Key, dependencies: seq<Key>) returns (cyclic: bool)
      ensures cyclic <==> key in dependencies || (dependencies != [] && key in deps && key in deps[key])
    {
      var current := Elems(dependencies);
      var all := current;
      ghost var round := 0;
      while current != {}
        invariant round <= 2
        invariant round == 0 ==> current == all == Elems(dependencies)
        invariant round >= 1 ==> key !in dependencies && dependencies != []
        invariant round == 1 ==> all == Elems(dependencies) + current
        invariant round == 1 ==> current == if key in deps then Elems(deps[key]) - Elems(dependencies) else {}
        invariant round == 1 && key in deps && key in deps[key] ==> key in current
        invariant round == 2 ==> current == {} && !(key in deps && key in deps[key])
        decreases 2 - round
      {
        var next: set<Key> := {};
        var rest := current;
        while rest != {}
          invariant rest <= current
          invariant key !in current - rest
          invariant next == if key in deps && rest != current then Elems(deps[key]) else {}
          decreases |rest|
        {
          var dependency :| dependency in rest;
          if dependency == key {
            return true;
          }
          var entry := if key in deps then Some(deps[key]) else None;
          if entry.Some? {
            next := next + Elems(entry.value);
          }
          rest := rest - {dependency};
        }
        next := next - all;
        all := all + next;
        current := next;
        round := round + 1;
      }
      if dependencies != [] {
        assert dependencies[0] in Elems(dependencies);
      }
      return false;
    }

    /** `register`: a registered key is refused before anything else is checked; then a key
        among its own dependencies is refused; otherwise the key is appended, unopened, to
        the order, and added to the index row of each dependency unless it is already
        there, rows being created on demand. Dependencies need not be registered. A refused
        registration changes nothing. */
    method Register(key: Key, c: Closer, dependencies: seq<Key>) returns (r: Outcome<Failure>)
      requires Valid()
      modifies this`order, this`deps, this`closer, this`slot, this`index
      ensures Valid()
      ensures key in old(deps) ==> r == Fail(Duplicate)
      ensures key !in old(deps) ==> (r == Fail(Cyclic) <==> key in dependencies)
      ensures key !in old(deps) && key !in dependencies ==> r == Pass
      ensures r.Fail? ==> r.error.Duplicate? || r.error.Cyclic?
      ensures r.Fail? ==>
        order == old(order) && deps == old(deps) && closer == old(closer) && slot == old(slot) && index == old(index)
      ensures r.Pass? ==>
        key !in old(deps) && order == old(order) + [key] && deps == old(deps)[key := dependencies] &&
        closer == old(closer)[key := c] && slot == old(slot)[key := None]
      ensures r.Pass? ==> index == Indexed(old(index), key, dependencies)
    {
      if key in deps {
        return Fail(Duplicate);
      }
      var cyclic := CheckCycle(key, dependencies);
      if cyclic {
        return Fail(Cyclic);
      }
      assert Elems(order + [key]) == Elems(order) + {key};
      order := order + [key];
      deps := deps[key := dependencies];
      closer := closer[key := c];
      slot := slot[key := None];
      AddDependant(key, dependencies);
      r := Pass;
    }

    /** The loop of `register` that adds `key` to the index row of each dependency, as
        `Indexed` describes it. */
    method AddDependant(key: Key, dependencies: seq<Key>)
      requires RowsDistinct()
      modifies this`index
      ensures RowsDistinct()
      ensures index == Indexed(old(index), key, dependencies)
    {
      var i := 0;
      while i < |dependencies|
        invariant 0 <= i <= |dependencies|
        invariant index == Indexed(old(index), key, dependencies[..i])
      {
        var dependency := dependencies[i];
        var row := RowSeq(index, dependency);
        if key !in row {
          index := index[dependency := row + [key]];
        }
        assert dependencies[..i + 1][..i] == dependencies[..i];
        i := i + 1;
      }
      assert dependencies[..i] == dependencies;
      IndexedDistinct(old(index), key, dependencies);
    }

    /** The `register` overloads without a closer: the closer is an `AutoResourceCloser`. */
    method RegisterWithAutoCloser(key: Key, dependencies: seq<Key>) returns (r: Outcome<Failure>)
      requires Valid()
      modifies this`order, this`deps, this`closer, this`slot, this`index
      ensures Valid()
      ensures key in old(deps) ==> r == Fail(Duplicate)
      ensures key !in old(deps) ==> (r == Fail(Cyclic) <==> key in dependencies)
      ensures r.Fail? ==>
        order == old(order) && deps == old(deps) && closer == old(closer) && slot == old(slot) && index == old(index)
      ensures r.Pass? ==>
        order == old(order) + [key] && deps == old(deps)[key := dependencies] &&
        closer == old(closer)[key := AutoCloser] && slot == old(slot)[key := None]
      ensures r.Pass? ==> index == Indexed(old(index), key, dependencies)
    {
      r := Register(key, AutoCloser, dependencies);
    }

    // -------------------------------------------------------------------------------------
    // Opening

    /** `Entry.get`, as `FetchRun` describes it. */
    method EntryGet(key: Key, create: Key -> Creation) returns (r: Result<Option<Value>, Failure>)
      requires Valid() && key in slot
      modifies this`slot, this`log
      ensures Valid()
      ensures Run(slot, log, r) == FetchRun(old(slot), old(log), key, create)
    {
      if slot[key].None? {
        log := log + [FactoryRan(key)];
        match create(key) {
          case Created(v) =>
            slot := slot[key := Some(v)];
          case ReturnedNull =>
          case Threw =>
            return Err(OpeningFailed(key));
        }
      }
      r := Ok(slot[key]);
    }

    /** `open`, as `OpenRun` describes it. `create` gives what each factory does during this
        call; `rank` witnesses that the registered dependencies have no cycle, without which
        the source recurses until the stack overflows. */
    method Open(key: Key, create: Key -> Creation, ghost rank: map<Key, nat>)
      returns (r: Result<Option<Value>, Failure>)
      requires Valid() && DepsRanked(deps, rank)
      modifies this`slot, this`log
      decreases if key in deps then rank[key] + 1 else 0, 2
      ensures Valid()
      ensures Run(slot, log, r) == OpenRun(deps, rank, create, old(slot), old(log), key)
    {
      if key !in deps {
        return Err(NotFound);
      }
      if slot[key].Some? {
        return Ok(slot[key]);
      }
      var rd := OpenDependencies(key, create, rank);
      if rd.Fail? {
        return Err(rd.error);
      }
      r := EntryGet(key, create);
    }

    /** The loop of `open` over the declared dependencies of `key`, as `DepsRun` describes
        it. */
    method OpenDependencies(key: Key, create: Key -> Creation, ghost rank: map<Key, nat>)
      returns (r: Outcome<Failure>)
      requires Valid() && DepsRanked(deps, rank) && key in deps
      modifies this`slot, this`log
      decreases rank[key] + 1, 1
      ensures Valid()
      ensures Run(slot, log, r) == DepsRun(deps, rank, create, old(slot), old(log), key, 0)
    {
      var dependencies := deps[key];
      ghost var graph := deps;
      ghost var goal := DepsRun(graph, rank, create, slot, log, key, 0);
      var i := 0;
      while i < |dependencies|
        invariant 0 <= i <= |dependencies| && Valid() && deps == graph
        invariant goal == DepsRun(graph, rank, create, slot, log, key, i)
      {
        var o := OpenStep(key, i, create, rank, goal);
        if o.Err? {
          return Fail(o.error);
        }
        i := i + 1;
      }
      r := Pass;
    }

    /** One turn of that loop: the i-th dependency is opened by a nested call, and a
        failure ends the loop; `goal` is what the whole loop does. */
    method OpenStep(key: Key, i: nat, create: Key -> Creation, ghost rank: map<Key, nat>,
                    ghost goal: Run<Outcome<Failure>>)
      returns (o: Result<Option<Value>, Failure>)
      requires Valid() && DepsRanked(deps, rank) && key in deps && i < |deps[key]|
      requires goal == DepsRun(deps, rank, create, slot, log, key, i)
      modifies this`slot, this`log
      decreases rank[key] + 1, 0
      ensures Valid()
      ensures o.Err? ==> goal == Run(slot, log, Fail(o.error))
      ensures o.Ok? ==> goal == DepsRun(deps, rank, create, slot, log, key, i + 1)
    {
      ghost var s1, log1 := slot, log;
      o := Open(deps[key][i], create, rank);
      DepsGoesOn(deps, rank, create, s1, log1, key, i);
    }

    // -------------------------------------------------------------------------------------
    // Closing

    /** `Entry.close`, as `ReleaseRun` describes it, for the keys of `closeFails` whose
        closer throws. */
    method EntryClose(key: Key, closeFails: set<Key>) returns (r: Outcome<Failure>)
      requires Valid() && key in slot
      modifies this`slot, this`log
      ensures Valid()
      ensures Run(slot, log, r) == ReleaseRun(old(slot), old(log), key, Failing(closeFails))
    {
      if slot[key].Some? {
        log := log + [CloserRan(key)];
        if key in closeFails && closer[key] != NoOpCloser {
          return Fail(ClosingFailed(key, []));
        }
        slot := slot[key := None];
      }
      r := Pass;
    }

    /** One turn of the loop `close` runs over the index row of a key and `closeAll` over
        the registered keys: keys[i] is closed by a nested call and its outcome goes through
        `addOrThrow`. A missing key, or a strict failure, ends the loop with that failure;
        otherwise the loop goes on with the failure, if any, collected after `acc`. `goal`
        is what the rest of the loop yields, as `EachRun` describes it. */
    method CloseStep(keys: seq<Key>, ghost bound: nat, i: nat, acc: seq<Failure>, aggressive: bool,
                     closeFails: set<Key>, ghost rank: map<Key, nat>, ghost goal: Run<Result<seq<Failure>, Failure>>)
      returns (next: Result<seq<Failure>, Failure>)
      requires Valid() && RowsRanked(index, rank) && RankedBelow(index, rank, keys, bound)
      requires i < |keys| && AllClosingFailures(acc)
      requires goal == EachRun(index, rank, Failing(closeFails), slot, log, keys, bound, aggressive, i, acc)
      modifies this`slot, this`log
      decreases bound, 0
      ensures Valid()
      ensures next.Ok? ==> AllClosingFailures(next.value)
      ensures next.Ok? ==>
        goal == EachRun(index, rank, Failing(closeFails), slot, log, keys, bound, aggressive, i + 1, next.value)
      ensures next.Err? ==> goal == Run(slot, log, next)
    {
      ghost var s1, log1 := slot, log;
      var c := Close(keys[i], aggressive, closeFails, rank);
      next := Collect(acc, c, aggressive);
      EachGoesOn(index, rank, Failing(closeFails), s1, log1, keys, bound, aggressive, i, acc);
      EachStops(index, rank, Failing(closeFails), s1, log1, keys, bound, aggressive, i, acc);
    }

    /** The whole of that loop, as `EachRun` describes it: each closing failure goes
        through `addOrThrow`. */
    method CloseEach(keys: seq<Key>, ghost bound: nat, aggressive: bool, closeFails: set<Key>,
                     ghost rank: map<Key, nat>) returns (d: Result<seq<Failure>, Failure>)
      requires Valid() && RowsRanked(index, rank) && RankedBelow(index, rank, keys, bound)
      modifies this`slot, this`log
      decreases bound, 1
      ensures Valid()
      ensures Run(slot, log, d) == EachRun(index, rank, Failing(closeFails), old(slot), old(log), keys, bound, aggressive, 0, [])
    {
      ghost var goal := EachRun(index, rank, Failing(closeFails), slot, log, keys, bound, aggressive, 0, []);
      var exceptions: seq<Failure> := [];
      var i := 0;
      while i < |keys|
        invariant 0 <= i <= |keys| && Valid() && AllClosingFailures(exceptions)
        invariant goal == EachRun(index, rank, Failing(closeFails), slot, log, keys, bound, aggressive, i, exceptions)
      {
        var next := CloseStep(keys, bound, i, exceptions, aggressive, closeFails, rank, goal);
        if next.Err? {
          return next;
        }
        exceptions := next.value;
        i := i + 1;
      }
      d := Ok(exceptions);
    }

    /** What `close` does after its loop: the key's own entry is closed, its failure goes
        through `addOrThrow`, and the collected failures are thrown by `throwIfAny`, as
        `Finish` describes it. */
    method CloseOwn(key: Key, exceptions: seq<Failure>, aggressive: bool, closeFails: set<Key>)
      returns (r: Outcome<Failure>)
      requires Valid() && AllClosingFailures(exceptions)
      modifies this`slot, this`log
      ensures Valid()
      ensures Run(slot, log, r) == Finish(Run(old(slot), old(log), Ok(exceptions)), key, Failing(closeFails), aggressive)
    {
      if key !in deps {
        return Fail(NotFound);
      }
      var e := EntryClose(key, closeFails);
      var all := exceptions;
      if e.Fail? {
        var added := AddOrThrow(exceptions, e.error, aggressive);
        if added.Err? {
          return Fail(added.error);
        }
        all := added.value;
      } else {
        assert all == exceptions + [];
      }
      r := RaiseIfAny(all);
    }

    /** `close(key, aggressive)`, as `CloseRun` describes it: the dependants in the index row
        of `key` are closed first, each by a nested call, then the key's own entry, and the
        collected failures are thrown by `throwIfAny`. `rank` witnesses that the index has
        no cycle. */
    method Close(key: Key, aggressive: bool, closeFails: set<Key>, ghost rank: map<Key, nat>)
      returns (r: Outcome<Failure>)
      requires Valid() && RowsRanked(index, rank)
      modifies this`slot, this`log
      decreases if key in index then rank[key] + 1 else 0, 2
      ensures Valid()
      ensures Run(slot, log, r) == CloseRun(index, rank, Failing(closeFails), old(slot), old(log), key, aggressive)
    {
      ghost var bound := if key in index then rank[key] + 1 else 0;
      var dependants := RowSeq(index, key);
      assert RankedBelow(index, rank, dependants, bound);
      ghost var goal := CloseRun(index, rank, Failing(closeFails), slot, log, key, aggressive);
      assert goal == Finish(EachRun(index, rank, Failing(closeFails), slot, log, dependants, bound, aggressive, 0, []),
                            key, Failing(closeFails), aggressive);
      var d := CloseEach(dependants, bound, aggressive, closeFails, rank);
      if d.Err? {
        return Fail(d.error);
      }
      r := CloseOwn(key, d.value, aggressive, closeFails);
    }

    /** `closeAll(aggressive)`, as `CloseAllRun` describes it: every registered key is
        closed in insertion order. */
    method CloseAll(aggressive: bool, closeFails: set<Key>, ghost rank: map<Key, nat>) returns (r: Outcome<Failure>)
      requires Valid() && RowsRanked(index, rank)
      modifies this`slot, this`log
      ensures Valid()
      ensures Run(slot, log, r) == CloseAllRun(index, rank, Failing(closeFails), old(slot), old(log), order, aggressive)
    {
      CeilingBounds(index, rank, order);
      var d := CloseEach(order, Ceiling(rank), aggressive, closeFails, rank);
      if d.Err? {
        return Fail(d.error);
      }
      r := RaiseIfAny(d.value);
    }

    /** The one-argument `close`: not aggressive. On success the key and all of its
        transitive dependants are registered and closed; a closing failure is the first
        closer that threw, whose slot is left open. */
    method CloseStrict(key: Key, closeFails: set<Key>, ghost rank: map<Key, nat>) returns (r: Outcome<Failure>)
      requires Valid() && RowsRanked(index, rank)
      modifies this`slot, this`log
      ensures Valid()
      ensures Run(slot, log, r) == CloseRun(index, rank, Failing(closeFails), old(slot), old(log), key, false)
      ensures r.Pass? ==> forall x | x in {key} + Dependants(index, key) :: x in slot && slot[x].None?
      ensures r.Fail? && r.error.ClosingFailed? ==>
        var k := r.error.key;
        k in Downstream(index, rank, key) && k in Failing(closeFails) && k in old(slot) && slot[k] == old(slot)[k] != None
    {
      ghost var s0, log0 := slot, log;
      r := Close(key, false, closeFails, rank);
      Closing.CloseStrict(index, rank, Failing(closeFails), s0, log0, key);
      DownstreamClosedUnder(index, rank, key);
      ReachInDownstream(index, rank, key, |Universe(index)|);
    }

    /** The no-argument `closeAll`: not aggressive. On success every registered key is
        closed. */
    method CloseAllStrict(closeFails: set<Key>, ghost rank: map<Key, nat>) returns (r: Outcome<Failure>)
      requires Valid() && RowsRanked(index, rank)
      modifies this`slot, this`log
      ensures Valid()
      ensures Run(slot, log, r) == CloseAllRun(index, rank, Failing(closeFails), old(slot), old(log), order, false)
      ensures r.Pass? ==> forall k | k in slot :: slot[k].None?
    {
      ghost var s0, log0 := slot, log;
      r := CloseAll(false, closeFails, rank);
      Closing.CloseAllStrict(index, rank, Failing(closeFails), s0, log0, order);
    }

    /** `clear`: a strict `closeAll`, after which, unless it threw, every registration is
        dropped. A failed `clear` removes nothing. */
    method Clear(closeFails: set<Key>, ghost rank: map<Key, nat>) returns (r: Outcome<Failure>)
      requires Valid() && RowsRanked(index, rank)
      modifies this
      ensures Valid()
      ensures var c := CloseAllRun(old(index), rank, old(Failing(closeFails)), old(slot), old(log), old(order), false);
        r == c.result && log == c.log &&
        (r.Fail? ==> order == old(order) && deps == old(deps) && closer == old(closer) &&
                     index == old(index) && slot == c.slots) &&
        (r.Pass? ==> (forall k | k in c.slots :: c.slots[k].None?) &&
                     order == [] && deps == map[] && closer == map[] && slot == map[] && index == map[])
    {
      r := CloseAllStrict(closeFails, rank);
      if r.Pass? {
        Forget();
      }
    }

    /** The end of a successful `clear`: the entries and the index are emptied. */
    method Forget()
      modifies this`order, this`deps, this`closer, this`slot, this`index
      ensures Valid()
      ensures order == [] && deps == map[] && closer == map[] && slot == map[] && index == map[]
    {
      order, deps, closer, slot, index := [], map[], map[], map[], map[];
    }

    // -------------------------------------------------------------------------------------
    // Removal

    /** The inner loop of `getAllDependants`: the `getDependants` set of each key of
        `current`, gathered into one set. */
    method DependantsOf(current: set<Key>) returns (next: set<Key>)
      ensures next == Step(index, current)
    {
      next := {};
      var rest := current;
      ghost var done: set<Key> := {};
      while rest != {}
        invariant done + rest == current && done !! rest
        invariant next == Step(index, done)
        decreases |rest|
      {
        var k :| k in rest;
        assert Step(index, done + {k}) == next + Row(index, k) by {
          StepUnion(index, done, {k});
        }
        next := next + Row(index, k);
        done := done + {k};
        rest := rest - {k};
      }
    }

    /** One pass of the `getAllDependants` loop: `current` is appended to `all`, and the
        next round holds the keys one index step from `current` that are not in `all` yet. */
    method DependantsRound(all: seq<Key>, current: set<Key>) returns (all': seq<Key>, next: set<Key>)
      requires Distinct(all) && Elems(all) !! current
      ensures Distinct(all') && Elems(all') == Elems(all) + current
      ensures next == Step(index, current) - Elems(all')
    {
      all' := AddAll(all, current);
      var found := DependantsOf(current);
      next := found - Elems(all');
    }

    /** `getAllDependants`: the walk `Walk` describes, which lists every transitive
        dependant of `key` once. */
    method GetAllDependants(key: Key) returns (all: seq<Key>)
      ensures Distinct(all) && Elems(all) == Dependants(index, key)
    {
      all := [];
      var current := Row(index, key);
      WalkReaches(index, key, 0);
      assert Reach(index, key, 1) - Reach(index, key, 0) == current;
      ghost var goal := Walk(index, {}, current);
      while current != {}
        invariant Distinct(all) && Elems(all) + current <= Universe(index) && Elems(all) !! current
        invariant goal == Walk(index, Elems(all), current)
        decreases |Universe(index) - Elems(all)|
      {
        WalkShrinks(index, Elems(all), current);
        all, current := DependantsRound(all, current);
      }
    }

    /** `remove(key, removeDependants)`: a strict close of `key` first; if it throws,
        nothing is removed and the resources are kept. Otherwise the key's slot is read
        after that close, so the value returned is always empty; with `removeDependants`
        every transitive dependant is deleted, then the key itself, each with its own index
        row. The deleted keys stay in the index rows of other keys. */
    method Remove(key: Key, removeDependants: bool, closeFails: set<Key>, ghost rank: map<Key, nat>)
      returns (r: Result<Option<Value>, Failure>)
      requires Valid() && RowsRanked(index, rank)
      modifies this
      ensures Valid()
      ensures var c := old(CloseRun(index, rank, Failing(closeFails), slot, log, key, false));
        log == c.log &&
        (c.result.Fail? ==>
           r == Err(c.result.error) && slot == c.slots && order == old(order) && deps == old(deps) &&
           closer == old(closer) && index == old(index))
      ensures var c := old(CloseRun(index, rank, Failing(closeFails), slot, log, key, false));
        var gone := if removeDependants then {key} + old(Dependants(index, key)) else {key};
        c.result.Pass? ==>
          r == Ok(None) && Pruned(old(order), old(deps), old(closer), c.slots, old(index), gone) &&
          forall k | k in gone :: k in c.slots && c.slots[k].None?
    {
      ghost var run := CloseRun(index, rank, Failing(closeFails), slot, log, key, false);
      var c := CloseStrict(key, closeFails, rank);
      assert Run(slot, log, c) == run;
      if c.Fail? {
        return Err(c.error);
      }
      var resource := slot[key];
      Delete(key, removeDependants);
      r := Ok(resource);
    }

    /** The deleting half of `remove`: with `removeDependants` every transitive dependant
        is deleted first, then `key` itself. */
    method Delete(key: Key, removeDependants: bool)
      requires Valid()
      modifies this`order, this`deps, this`closer, this`slot, this`index
      ensures Valid()
      ensures Pruned(old(order), old(deps), old(closer), old(slot), old(index),
                     if removeDependants then {key} + old(Dependants(index, key)) else {key})
    {
      if removeDependants {
        var all := GetAllDependants(key);
        RemoveEach(all);
        Unregister(key);
        PrunedTwice(old(order), old(deps), old(closer), old(slot), old(index), Elems(all), {key});
        assert Elems(all) + {key} == {key} + Dependants(old(index), key);
      } else {
        Unregister(key);
      }
    }

    /** The keys of `gone` deleted from the entries and the index, starting from the given
        fields; the key order of the other entries is kept. */
    ghost predicate Pruned(order0: seq<Key>, deps0: Graph, closer0: map<Key, Closer>, slot0: Slots, index0: Graph,
                           gone: set<Key>)
      reads this
    {
      order == Without(order0, gone) && deps == deps0 - gone && closer == closer0 - gone &&
      slot == slot0 - gone && index == index0 - gone
    }

    /** Deleting one set of keys and then another deletes both. */
    lemma PrunedTwice(order0: seq<Key>, deps0: Graph, closer0: map<Key, Closer>, slot0: Slots, index0: Graph,
                      a: set<Key>, b: set<Key>)
      requires order == Without(Without(order0, a), b) && deps == deps0 - a - b && closer == closer0 - a - b &&
        slot == slot0 - a - b && index == index0 - a - b
      ensures Pruned(order0, deps0, closer0, slot0, index0, a + b)
    {
      WithoutTwice(order0, a, b);
    }

    /** Deleting no keys changes nothing. */
    lemma PrunedNothing()
      ensures Pruned(order, deps, closer, slot, index, {})
    {
      WithoutNothing(order);
      assert deps - {} == deps && closer - {} == closer && slot - {} == slot && index - {} == index;
    }

    /** `entries.remove(d)` and `dependants.remove(d)`: the entry of `d` and its own index
        row are deleted. */
    method Unregister(d: Key)
      requires Valid()
      modifies this`order, this`deps, this`closer, this`slot, this`index
      ensures Valid()
      ensures order == Without(old(order), {d}) && deps == old(deps) - {d} && closer == old(closer) - {d} &&
        slot == old(slot) - {d} && index == old(index) - {d}
    {
      WithoutKeeps(order, {d});
      order := Without(order, {d});
      deps := deps - {d};
      closer := closer - {d};
      slot := slot - {d};
      index := index - {d};
    }

    /** The loop of `remove` over the transitive dependants: each is deleted in turn. */
    method RemoveEach(all: seq<Key>)
      requires Valid()
      modifies this`order, this`deps, this`closer, this`slot, this`index
      ensures Valid()
      ensures Pruned(old(order), old(deps), old(closer), old(slot), old(index), Elems(all))
    {
      ghost var order0, deps0, closer0, slot0, index0 := order, deps, closer, slot, index;
      var i := 0;
      ghost var gone: set<Key> := {};
      PrunedNothing();
      while i < |all|
        invariant 0 <= i <= |all| && Valid() && gone == Elems(all[..i])
        invariant order == Without(order0, gone) && deps == deps0 - gone && closer == closer0 - gone &&
                  slot == slot0 - gone && index == index0 - gone
      {
        Unregister(all[i]);
        PrunedTwice(order0, deps0, closer0, slot0, index0, gone, {all[i]});
        assert Elems(all[..i + 1]) == gone + {all[i]} by {
          assert all[..i + 1] == all[..i] + [all[i]];
        }
        gone := gone + {all[i]};
        i := i + 1;
      }
      assert all[..i] == all;
    }

    /** The one-argument `remove`: the dependants stay registered. */
    method RemoveKeepingDependants(key: Key, closeFails: set<Key>, ghost rank: map<Key, nat>)
      returns (r: Result<Option<Value>, Failure>)
      requires Valid() && RowsRanked(index, rank)
      modifies this
      ensures Valid()
      ensures var c := old(CloseRun(index, rank, Failing(closeFails), slot, log, key, false));
        log == c.log &&
        (c.result.Fail? ==>
           r == Err(c.result.error) && slot == c.slots && order == old(order) && deps == old(deps) &&
           closer == old(closer) && index == old(index)) &&
        (c.result.Pass? ==>
           r == Ok(None) && Pruned(old(order), old(deps), old(closer), c.slots, old(index), {key}))
    {
      r := Remove(key, false, closeFails, rank);
    }

    // -------------------------------------------------------------------------------------
    // Queries

    /** `size`: the number of registered keys. */
    function Size(): (n: nat)
      reads this
      requires Valid()
      ensures n == |deps.Keys|
    {
      DistinctCard(order);
      |order|
    }

    /** `isEmpty`. */
    function IsEmpty(): (b: bool)
      reads this
      requires Valid()
      ensures b <==> Size() == 0
      ensures b <==> deps == map[]
    {
      assert order != [] ==> order[0] in deps;
      order == []
    }

    /** `keySet`: the registered keys, each once, in insertion order. */
    function KeySet(): (ks: seq<Key>)
      reads this
      requires Valid()
      ensures ks == order
      ensures Distinct(ks) && Elems(ks) == deps.Keys && |ks| == Size()
    {
      order
    }

    /** `containsKey`. */
    function ContainsKey(key: Key): (b: bool)
      reads this
      requires Valid()
      ensures b <==> key in KeySet()
    {
      key in deps
    }

    /** The open keys, in insertion order. */
    function OpenKeys(): seq<Key>
      reads this
      requires Valid()
    {
      Filter(order, slot, true)
    }

    /** The registered keys that are not open, in insertion order. */
    function ClosedKeys(): seq<Key>
      reads this
      requires Valid()
    {
      Filter(order, slot, false)
    }

    /** The open and the closed keys split the registered keys: every registered key is in
        exactly one of them, and neither repeats a key. */
    lemma KeySetPartition()
      requires Valid()
      ensures forall k :: k in OpenKeys() <==> k in KeySet() && slot[k].Some?
      ensures forall k :: k in ClosedKeys() <==> k in KeySet() && slot[k].None?
      ensures Distinct(OpenKeys()) && Distinct(ClosedKeys())
      ensures |OpenKeys()| + |ClosedKeys()| == Size()
    {
      FilterMembers(order, slot, true);
      FilterMembers(order, slot, false);
      FilterDistinct(order, slot, true);
      FilterDistinct(order, slot, false);
      FilterSplits(order, slot);
    }

    /** `get`: the resource of an open key; null for a key that is unregistered or not
        open. It never fails. */
    function Get(key: Key): (r: Option<Value>)
      reads this
      requires Valid()
      ensures r.Some? <==> key in OpenKeys()
      ensures r.Some? ==> key in slot && r == slot[key]
    {
      FilterMembers(order, slot, true);
      if key in slot then slot[key] else None
    }

    /** `isOpen`: fails for an unregistered key. */
    function IsOpen(key: Key): (r: Result<bool, Failure>)
      reads this
      requires Valid()
      ensures r.Err? <==> !ContainsKey(key)
      ensures r.Err? ==> r.error == NotFound
      ensures r.Ok? ==> (r.value <==> key in OpenKeys()) && (!r.value <==> key in ClosedKeys())
    {
      FilterMembers(order, slot, true);
      FilterMembers(order, slot, false);
      if key !in deps then Err(NotFound) else Ok(slot[key].Some?)
    }

    /** `openKeySet`. */
    method OpenKeySet() returns (ks: seq<Key>)
      requires Valid()
      ensures ks == OpenKeys()
    {
      ks := [];
      var i := 0;
      while i < |order|
        invariant 0 <= i <= |order|
        invariant ks == Filter(order[..i], slot, true)
      {
        FilterAppend(order[..i], order[i], slot, true);
        assert order[..i + 1] == order[..i] + [order[i]];
        if slot[order[i]].Some? {
          ks := ks + [order[i]];
        }
        i := i + 1;
      }
      assert order[..i] == order;
    }

    /** `closedKeySet`. */
    method ClosedKeySet() returns (ks: seq<Key>)
      requires Valid()
      ensures ks == ClosedKeys()
    {
      ks := [];
      var i := 0;
      while i < |order|
        invariant 0 <= i <= |order|
        invariant ks == Filter(order[..i], slot, false)
      {
        FilterAppend(order[..i], order[i], slot, false);
        assert order[..i + 1] == order[..i] + [order[i]];
        if slot[order[i]].None? {
          ks := ks + [order[i]];
        }
        i := i + 1;
      }
      assert order[..i] == order;
    }

    /** `countOpen`: the number of open keys. */
    method CountOpen() returns (n: nat)
      requires Valid()
      ensures n == |OpenKeys()|
      ensures n <= Size()
    {
      n := 0;
      var i := 0;
      while i < |order|
        invariant 0 <= i <= |order|
        invariant n == |Filter(order[..i], slot, true)|
      {
        FilterAppend(order[..i], order[i], slot, true);
        assert order[..i + 1] == order[..i] + [order[i]];
        if slot[order[i]].Some? {
          n := n + 1;
        }
        i := i + 1;
      }
      assert order[..i] == order;
      KeySetPartition();
    }

    /** `hasOpen`: some registered key is open. */
    method HasOpen() returns (b: bool)
      requires Valid()
      ensures b <==> OpenKeys() != []
    {
      var i := 0;
      while i < |order|
        invariant 0 <= i <= |order|
        invariant Filter(order[..i], slot, true) == []
      {
        FilterAppend(order[..i], order[i], slot, true);
        assert order[..i + 1] == order[..i] + [order[i]];
        if slot[order[i]].Some? {
          FilterMembers(order, slot, true);
          assert order[i] in OpenKeys();
          return true;
        }
        i := i + 1;
      }
      assert order[..i] == order;
      return false;
    }
  }
}
