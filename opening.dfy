/** The recursive `open` of DefaultResourceManager.java as functions from the slots and the
    event log before the call to the slots, the log and the outcome after it, with what the
    call promises proved by induction over a dependency ranking. */
module Opening {
  import opened Wrappers
  import opened Values
  import opened Failures
  import opened DependencyGraph
  import opened Lifecycle

  /** `Entry.get`: an empty slot runs the key's factory; a returned object is stored, a
      returned null leaves the slot empty, and a throwing factory is reported as an opening
      failure of the key, with the slot left empty. An occupied slot is returned as it is. */
  ghost function FetchRun(s: Slots, log: seq<Event>, key: Key, create: Key -> Creation)
    : (r: Run<Result<Option<Value>, Failure>>)
    requires key in s
    ensures r.slots.Keys == s.Keys && log <= r.log
    ensures r.result.Ok? ==> r.result.value == r.slots[key]
    ensures r.result.Err? ==> r.result.error == OpeningFailed(key) && create(key).Threw? && r.slots[key].None?
  {
    if s[key].Some? then Run(s, log, Ok(s[key]))
    else
      match create(key)
      case Created(v) => Run(s[key := Some(v)], log + [FactoryRan(key)], Ok(Some(v)))
      case ReturnedNull => Run(s, log + [FactoryRan(key)], Ok(None))
      case Threw => Run(s, log + [FactoryRan(key)], Err(OpeningFailed(key)))
  }

  /** `open`: an unregistered key is not found; an open key is returned as it is; otherwise
      the declared dependencies are opened in turn and then the key's own entry is fetched. */
  ghost function OpenRun(deps: Graph, rank: map<Key, nat>, create: Key -> Creation, s: Slots, log: seq<Event>, key: Key)
    : (r: Run<Result<Option<Value>, Failure>>)
    requires DepsRanked(deps, rank)
    ensures r.slots.Keys == s.Keys && log <= r.log
    decreases if key in deps then rank[key] + 1 else 0, 1, 0
  {
    if key !in deps || key !in s then Run(s, log, Err(NotFound))
    else if s[key].Some? then Run(s, log, Ok(s[key]))
    else
      var d := DepsRun(deps, rank, create, s, log, key, 0);
      if d.result.Fail? then Run(d.slots, d.log, Err(d.result.error))
      else FetchRun(d.slots, d.log, key, create)
  }

  /** The loop of `open` over the declared dependencies of `key` from position `i` on, in
      declaration order, stopping at the first failure. */
  ghost function DepsRun(deps: Graph, rank: map<Key, nat>, create: Key -> Creation, s: Slots, log: seq<Event>,
                         key: Key, i: nat): (r: Run<Outcome<Failure>>)
    requires DepsRanked(deps, rank) && key in deps && i <= |deps[key]|
    ensures r.slots.Keys == s.Keys && log <= r.log
    decreases rank[key] + 1, 0, |deps[key]| - i
  {
    if i == |deps[key]| then Run(s, log, Pass)
    else
      var o := OpenRun(deps, rank, create, s, log, deps[key][i]);
      if o.result.Err? then Run(o.slots, o.log, Fail(o.result.error))
      else
        var r := DepsRun(deps, rank, create, o.slots, o.log, key, i + 1);
        assert r.log[..|log|] == r.log[..|o.log|][..|log|];
        r
  }

  /** A turn of the dependency loop: the i-th dependency is opened, and the loop ends with
      its failure or goes on from the state that open left. */
  lemma DepsGoesOn(deps: Graph, rank: map<Key, nat>, create: Key -> Creation, s: Slots, log: seq<Event>,
                   key: Key, i: nat)
    requires DepsRanked(deps, rank) && key in deps && i < |deps[key]|
    ensures var o := OpenRun(deps, rank, create, s, log, deps[key][i]);
      DepsRun(deps, rank, create, s, log, key, i) ==
        if o.result.Err? then Run(o.slots, o.log, Fail(o.result.error))
        else DepsRun(deps, rank, create, o.slots, o.log, key, i + 1)
  {
  }

  /** What an open promises about the slots and the log, for any set `within` that holds
      `key` and is closed under the dependency lists: slots are only filled, only within
      `within`, each with what its factory created, only once its dependencies are ready,
      and each after its factory ran; a success returns the key's slot, now open unless its
      factory returned null, and a failure leaves the key's slot empty. */
  lemma {:induction false} OpenPromises(deps: Graph, rank: map<Key, nat>, create: Key -> Creation, s: Slots,
                                        log: seq<Event>, key: Key, within: set<Key>)
    requires DepsRanked(deps, rank) && s.Keys == deps.Keys
    requires key in within && ClosedUnder(deps, within)
    decreases if key in deps then rank[key] + 1 else 0, 1, 0, 0
    ensures var r := OpenRun(deps, rank, create, s, log, key);
      OpenedSoFar(s, r.slots, r.log, |log|, within, deps, create)
    ensures var r := OpenRun(deps, rank, create, s, log, key);
      r.result.Ok? ==>
        key in s && r.result.value == r.slots[key] && (r.slots[key].Some? || create(key).ReturnedNull?) &&
        (s[key].Some? || (Logged(r.log, |log|, |r.log|, FactoryRan(key)) && !create(key).Threw?))
    ensures var r := OpenRun(deps, rank, create, s, log, key);
      r.result.Err? && key in s ==> r.slots[key].None?
  {
    if key in deps && s[key].None? {
      var lower := Lower(deps, rank, within, rank[key]);
      LowerClosed(deps, rank, within, rank[key]);
      assert key !in lower;
      DepsPromises(deps, rank, create, s, log, key, 0, lower);
      var d := DepsRun(deps, rank, create, s, log, key, 0);
      if d.result.Fail? {
        OnlyOpenedTrans(s, d.slots, d.slots, lower, {}, within, create);
      } else {
        var r := FetchRun(d.slots, d.log, key, create);
        OpenFinish(s, d.slots, r.slots, d.log, r.log, |log|, key, lower, within, deps, create);
      }
    } else {
      OpenedNothing(s, log, within, deps, create, []);
    }
  }

  /** The dependency loop from position `i` fills slots only within `within` when it holds
      the remaining dependencies, and on success settles each of them. */
  lemma {:induction false} DepsPromises(deps: Graph, rank: map<Key, nat>, create: Key -> Creation, s: Slots,
                                        log: seq<Event>, key: Key, i: nat, within: set<Key>)
    requires DepsRanked(deps, rank) && s.Keys == deps.Keys
    requires key in deps && i <= |deps[key]|
    requires ClosedUnder(deps, within) && forall j | i <= j < |deps[key]| :: deps[key][j] in within
    decreases rank[key] + 1, 0, |deps[key]| - i, 1
    ensures var r := DepsRun(deps, rank, create, s, log, key, i);
      OpenedSoFar(s, r.slots, r.log, |log|, within, deps, create) &&
      (r.result.Pass? ==> Settled(s, r.slots, r.log, |log|, deps[key], i, create))
  {
    if i < |deps[key]| {
      DepsPromisesStep(deps, rank, create, s, log, key, i, within);
    } else {
      OpenedNothing(s, log, within, deps, create, deps[key]);
    }
  }

  /** The step of `DepsPromises`: the dependency at position `i` opened, then the rest. */
  lemma {:induction false} DepsPromisesStep(deps: Graph, rank: map<Key, nat>, create: Key -> Creation, s: Slots,
                                            log: seq<Event>, key: Key, i: nat, within: set<Key>)
    requires DepsRanked(deps, rank) && s.Keys == deps.Keys
    requires key in deps && i < |deps[key]|
    requires ClosedUnder(deps, within) && forall j | i <= j < |deps[key]| :: deps[key][j] in within
    decreases rank[key] + 1, 0, |deps[key]| - i, 0
    ensures var r := DepsRun(deps, rank, create, s, log, key, i);
      OpenedSoFar(s, r.slots, r.log, |log|, within, deps, create) &&
      (r.result.Pass? ==> Settled(s, r.slots, r.log, |log|, deps[key], i, create))
  {
    var d := deps[key][i];
    OpenPromises(deps, rank, create, s, log, d, within);
    var o := OpenRun(deps, rank, create, s, log, d);
    if o.result.Ok? {
      DepsPromises(deps, rank, create, o.slots, o.log, key, i + 1, within);
      var r := DepsRun(deps, rank, create, o.slots, o.log, key, i + 1);
      DepsStep(s, o, r, |log|, within, deps[key], i, deps, create);
    }
  }

  /** One dependency opened by a nested call, followed by the rest of the loop, keeps the
      loop's promises. */
  lemma DepsStep(s: Slots, o: Run<Result<Option<Value>, Failure>>, r: Run<Outcome<Failure>>, start: nat,
                 within: set<Key>, keys: seq<Key>, i: nat, deps: Graph, create: Key -> Creation)
    requires OpenedSoFar(s, o.slots, o.log, start, within, deps, create)
    requires OpenedSoFar(o.slots, r.slots, r.log, |o.log|, within, deps, create)
    requires start <= |o.log| && o.log <= r.log
    requires i < |keys|
    requires keys[i] in o.slots && (o.slots[keys[i]].Some? || create(keys[i]).ReturnedNull?)
    requires s[keys[i]].Some? || (Logged(o.log, start, |o.log|, FactoryRan(keys[i])) && !create(keys[i]).Threw?)
    requires r.result.Pass? ==> Settled(o.slots, r.slots, r.log, |o.log|, keys, i + 1, create)
    ensures OpenedSoFar(s, r.slots, r.log, start, within, deps, create)
    ensures r.result.Pass? ==> Settled(s, r.slots, r.log, start, keys, i, create)
  {
    ComposeOpens(s, o.slots, r.slots, o.log, r.log, start, within, within, deps, create);
    assert within + within == within;
    if r.result.Pass? {
      SettledPrepend(s, o.slots, r.slots, o.log, r.log, start, within, within, keys, i, create);
    }
  }

  /** An open fails only when some key it visits is unregistered, or when the factory of a
      registered key it visits throws, that key's slot then being left empty. */
  lemma {:induction false} OpenFailures(deps: Graph, rank: map<Key, nat>, create: Key -> Creation, s: Slots,
                                        log: seq<Event>, key: Key, within: set<Key>)
    requires DepsRanked(deps, rank) && s.Keys == deps.Keys
    requires key in within && ClosedUnder(deps, within)
    decreases if key in deps then rank[key] + 1 else 0, 1, 0
    ensures var r := OpenRun(deps, rank, create, s, log, key);
      r.result.Err? ==> r.result.error.NotFound? || r.result.error.OpeningFailed?
    ensures var r := OpenRun(deps, rank, create, s, log, key);
      r.result == Err(NotFound) ==> exists k :: k in within && k !in deps
    ensures var r := OpenRun(deps, rank, create, s, log, key);
      r.result.Err? && r.result.error.OpeningFailed? ==>
        var k := r.result.error.key;
        k in within && k in r.slots && create(k).Threw? && r.slots[k].None?
  {
    if key in deps && s[key].None? {
      DepsFailures(deps, rank, create, s, log, key, 0, within);
    }
  }

  lemma {:induction false} DepsFailures(deps: Graph, rank: map<Key, nat>, create: Key -> Creation, s: Slots,
                                        log: seq<Event>, key: Key, i: nat, within: set<Key>)
    requires DepsRanked(deps, rank) && s.Keys == deps.Keys
    requires key in deps && i <= |deps[key]|
    requires ClosedUnder(deps, within) && forall j | i <= j < |deps[key]| :: deps[key][j] in within
    decreases rank[key] + 1, 0, |deps[key]| - i
    ensures var r := DepsRun(deps, rank, create, s, log, key, i);
      r.result.Fail? ==> r.result.error.NotFound? || r.result.error.OpeningFailed?
    ensures var r := DepsRun(deps, rank, create, s, log, key, i);
      r.result == Fail(NotFound) ==> exists k :: k in within && k !in deps
    ensures var r := DepsRun(deps, rank, create, s, log, key, i);
      r.result.Fail? && r.result.error.OpeningFailed? ==>
        var k := r.result.error.key;
        k in within && k in r.slots && create(k).Threw? && r.slots[k].None?
  {
    if i < |deps[key]| {
      var d := deps[key][i];
      OpenFailures(deps, rank, create, s, log, d, within);
      var o := OpenRun(deps, rank, create, s, log, d);
      if o.result.Ok? {
        DepsFailures(deps, rank, create, o.slots, o.log, key, i + 1, within);
      }
    }
  }

  /** The keys an open visits: it fills slots only among the key and its transitive
      dependencies, and a failure names one of them. */
  lemma OpenStaysWithinNeeds(deps: Graph, rank: map<Key, nat>, create: Key -> Creation, s: Slots,
                             log: seq<Event>, key: Key)
    requires DepsRanked(deps, rank) && s.Keys == deps.Keys
    ensures var r := OpenRun(deps, rank, create, s, log, key);
      OnlyOpened(s, r.slots, Needs(deps, rank, key), create)
    ensures var r := OpenRun(deps, rank, create, s, log, key);
      r.result == Err(NotFound) ==> exists k :: k in Needs(deps, rank, key) && k !in deps
    ensures var r := OpenRun(deps, rank, create, s, log, key);
      r.result.Err? && r.result.error.OpeningFailed? ==> r.result.error.key in Needs(deps, rank, key)
  {
    NeedsClosed(deps, rank, key);
    OpenPromises(deps, rank, create, s, log, key, Needs(deps, rank, key));
    OpenFailures(deps, rank, create, s, log, key, Needs(deps, rank, key));
  }

  /** Every open key has each declared dependency registered and open, or with a factory
      that returns null. */
  ghost predicate Consistent(s: Slots, deps: Graph, create: Key -> Creation)
  {
    forall k | k in s && k in deps && s[k].Some? ::
      forall d | d in deps[k] :: d in s && (s[d].Some? || create(d).ReturnedNull?)
  }

  /** An open keeps the slots consistent. */
  lemma OpenKeepsConsistent(deps: Graph, rank: map<Key, nat>, create: Key -> Creation, s: Slots,
                            log: seq<Event>, key: Key)
    requires DepsRanked(deps, rank) && s.Keys == deps.Keys
    requires Consistent(s, deps, create)
    ensures Consistent(OpenRun(deps, rank, create, s, log, key).slots, deps, create)
  {
    NeedsClosed(deps, rank, key);
    OpenPromises(deps, rank, create, s, log, key, Needs(deps, rank, key));
    var r := OpenRun(deps, rank, create, s, log, key);
    forall k, d | k in r.slots && k in deps && r.slots[k].Some? && d in deps[k]
      ensures d in r.slots && (r.slots[d].Some? || create(d).ReturnedNull?)
    {
      if s[k].Some? {
        assert d in s && (s[d].Some? || create(d).ReturnedNull?);
      }
    }
  }

  /** With factories that never return null, an open key of consistent slots has all of
      its transitive dependencies registered and open: a successful open leaves the whole
      dependency tree of the key open. */
  lemma {:induction false} ConsistentNeedsOpen(deps: Graph, rank: map<Key, nat>, create: Key -> Creation,
                                               s: Slots, key: Key)
    requires DepsRanked(deps, rank) && s.Keys == deps.Keys && Consistent(s, deps, create)
    requires forall k :: !create(k).ReturnedNull?
    requires key in s && s[key].Some?
    ensures forall x | x in Needs(deps, rank, key) :: x in s && s[x].Some?
    decreases if key in deps then rank[key] + 1 else 0
  {
    forall x | x in Needs(deps, rank, key) ensures x in s && s[x].Some? {
      if x != key {
        var d :| d in deps[key] && x in Needs(deps, rank, d);
        assert !create(d).ReturnedNull?;
        ConsistentNeedsOpen(deps, rank, create, s, d);
      }
    }
  }
}
