/** `PropertiesConfigLoader` (PropertiesConfigLoader.java): it registers one entry per item
    definition with the registry, and each `reload` merges the properties of its suppliers,
    extracts the items, validates them and, when items were loaded before, closes every
    item whose value changed before the new items take effect. */
module ConfigLoader {
  import opened Wrappers
  import opened Values
  import opened ResourceKeys
  import opened Failures
  import opened DependencyGraph
  import opened Lifecycle
  import opened Opening
  import opened Closing
  import opened ConfigExceptions
  import opened ConfigItems
  import opened Registry

  /** What one supplier's `get` gave at a reload: a map whose values may be null (`None`),
      or the exception it threw. Property names are the keys' `toString`. */
  type Supplied = Result<map<string, Option<string>>, Thrown>

  /** The items, by key, that a load extracts. */
  type Items = map<Key, Value>

  /** What `reload` throws: a configuration exception, or an exception of the registry's
      `close`, which passes through unchanged. */
  datatype ReloadFailure = Config(thrown: Thrown) | Registry(failure: Failure)

  // ---------------------------------------------------------------------------------------
  // Merging the suppliers' properties (`loadProperties`)

  /** The entries of a supplied map whose value is not null. */
  function NonNull(m: map<string, Option<string>>): (r: Properties)
    ensures forall n :: n in r <==> n in m && m[n].Some?
    ensures forall n | n in r :: r[n] == m[n].value
  {
    map n | n in m && m[n].Some? :: m[n].value
  }

  /** The properties merged from the first `n` suppliers in list order, a later supplier
      overriding an earlier one; the first supplier that throws ends the merge. */
  function Merged(supplied: seq<Supplied>, n: nat): Result<Properties, Thrown>
    requires n <= |supplied|
  {
    if n == 0 then Ok(map[])
    else
      match Merged(supplied, n - 1)
      case Err(e) => Err(e)
      case Ok(p) =>
        if supplied[n - 1].Err? then Err(supplied[n - 1].error) else Ok(p + NonNull(supplied[n - 1].value))
  }

  /** Supplier `i` gave a non-null value for `name`. */
  predicate Supplies(supplied: seq<Supplied>, i: nat, name: string)
    requires i < |supplied|
  {
    supplied[i].Ok? && name in supplied[i].value && supplied[i].value[name].Some?
  }

  /** The merge fails exactly when some supplier throws, with the exception of the first one
      that does. */
  lemma {:induction false} MergedFails(supplied: seq<Supplied>, n: nat)
    requires n <= |supplied|
    ensures Merged(supplied, n).Ok? <==> forall i | 0 <= i < n :: supplied[i].Ok?
    ensures Merged(supplied, n).Err? ==> exists i | 0 <= i < n ::
      supplied[i] == Err(Merged(supplied, n).error) && forall j | 0 <= j < i :: supplied[j].Ok?
  {
    if n > 0 {
      MergedFails(supplied, n - 1);
      if Merged(supplied, n - 1).Ok? && supplied[n - 1].Err? {
        assert supplied[n - 1] == Err(Merged(supplied, n).error);
      }
    }
  }

  /** A merged property comes from some supplier, and has the value of the last supplier
      that gave a non-null value for it. */
  lemma {:induction false} MergedNames(supplied: seq<Supplied>, n: nat)
    requires n <= |supplied| && Merged(supplied, n).Ok?
    ensures forall name :: name in Merged(supplied, n).value <==> exists i | 0 <= i < n :: Supplies(supplied, i, name)
  {
    if n > 0 {
      MergedNames(supplied, n - 1);
      var p := Merged(supplied, n - 1).value;
      var q := NonNull(supplied[n - 1].value);
      assert Merged(supplied, n).value == p + q;
      forall name ensures name in p + q <==> exists i | 0 <= i < n :: Supplies(supplied, i, name) {
        if name in q {
          assert Supplies(supplied, n - 1, name);
        }
        if exists i | 0 <= i < n :: Supplies(supplied, i, name) {
          var i :| 0 <= i < n && Supplies(supplied, i, name);
          if i == n - 1 {
            assert name in q;
          }
        }
      }
    }
  }

  lemma {:induction false} MergedLaterWins(supplied: seq<Supplied>, n: nat, i: nat, name: string)
    requires n <= |supplied| && Merged(supplied, n).Ok? && i < n && Supplies(supplied, i, name)
    requires forall j | i < j < n :: !Supplies(supplied, j, name)
    ensures name in Merged(supplied, n).value && Merged(supplied, n).value[name] == supplied[i].value[name].value
  {
    var p := Merged(supplied, n - 1).value;
    var q := NonNull(supplied[n - 1].value);
    assert Merged(supplied, n).value == p + q;
    if i < n - 1 {
      MergedLaterWins(supplied, n - 1, i, name);
      assert !Supplies(supplied, n - 1, name);
      assert name !in q;
    } else {
      assert name in q;
    }
  }

  /** A failed merge stays failed whatever later suppliers give. */
  lemma {:induction false} MergedStaysFailed(supplied: seq<Supplied>, i: nat, n: nat)
    requires i <= n <= |supplied| && Merged(supplied, i).Err?
    ensures Merged(supplied, n) == Merged(supplied, i)
    decreases n - i
  {
    if i < n {
      MergedStaysFailed(supplied, i, n - 1);
    }
  }

  /** The inner loop of `loadProperties`: each entry of one supplied map whose value is not
      null is put, overriding what earlier suppliers gave. */
  method PutAll(base: Properties, m: map<string, Option<string>>) returns (result: Properties)
    ensures result == base + NonNull(m)
  {
    result := base;
    var rest := m.Keys;
    while rest != {}
      invariant rest <= m.Keys
      invariant forall n :: n in result <==> n in base || (n in m && m[n].Some? && n !in rest)
      invariant forall n | n in result ::
        result[n] == if n in m && m[n].Some? && n !in rest then m[n].value else base[n]
      decreases |rest|
    {
      var name :| name in rest;
      var value := m[name];
      if value.Some? {
        result := result[name := value.value];
      }
      rest := rest - {name};
    }
  }

  /** `loadProperties`, as `Merged` describes it. */
  method LoadProperties(supplied: seq<Supplied>) returns (r: Result<Properties, Thrown>)
    ensures r == Merged(supplied, |supplied|)
  {
    var result: Properties := map[];
    var i := 0;
    while i < |supplied|
      invariant 0 <= i <= |supplied| && Merged(supplied, i) == Ok(result)
    {
      if supplied[i].Err? {
        MergedStaysFailed(supplied, i + 1, |supplied|);
        return Err(supplied[i].error);
      }
      result := PutAll(result, supplied[i].value);
      i := i + 1;
    }
    r := Ok(result);
  }

  // ---------------------------------------------------------------------------------------
  // Extracting the items (`loadWithAnyException`, `load`)

  /** The key of each definition, in definition order. */
  function KeysOf(definitions: seq<Definition>): (keys: seq<Key>)
    ensures |keys| == |definitions| && forall i | 0 <= i < |definitions| :: keys[i] == definitions[i].key
  {
    seq(|definitions|, i requires 0 <= i < |definitions| => definitions[i].key)
  }

  /** What each definition's `extractValue` gives for the properties `p`. */
  ghost function Outcomes(definitions: seq<Definition>, p: Properties): (r: seq<Result<Value, Thrown>>)
    ensures |r| == |definitions| && forall i | 0 <= i < |definitions| :: r[i] == ExtractValue(definitions[i], p)
  {
    seq(|definitions|, i requires 0 <= i < |definitions| => ExtractValue(definitions[i], p))
  }

  /** The items the first `n` extractions put under their keys in turn, a later definition
      of the same key overriding an earlier one; the first extraction that throws ends the
      load. */
  function Extracted(keys: seq<Key>, outcomes: seq<Result<Value, Thrown>>, n: nat): Result<Items, Thrown>
    requires n <= |keys| == |outcomes|
  {
    if n == 0 then Ok(map[])
    else
      var before := Extracted(keys, outcomes, n - 1);
      if before.Err? then before
      else if outcomes[n - 1].Err? then Err(outcomes[n - 1].error)
      else Ok(before.value[keys[n - 1] := outcomes[n - 1].value])
  }

  /** The load fails exactly when some extraction throws, with the exception of the first
      one that does. */
  lemma {:induction false} ExtractedFails(keys: seq<Key>, outcomes: seq<Result<Value, Thrown>>, n: nat)
    requires n <= |keys| == |outcomes|
    ensures Extracted(keys, outcomes, n).Ok? <==> forall i | 0 <= i < n :: outcomes[i].Ok?
    ensures Extracted(keys, outcomes, n).Err? ==> exists i | 0 <= i < n ::
      outcomes[i] == Err(Extracted(keys, outcomes, n).error) && forall j | 0 <= j < i :: outcomes[j].Ok?
  {
    if n > 0 {
      ExtractedFails(keys, outcomes, n - 1);
      if Extracted(keys, outcomes, n - 1).Ok? && outcomes[n - 1].Err? {
        assert outcomes[n - 1] == Err(Extracted(keys, outcomes, n).error);
      }
    }
  }

  /** A successful load holds an item for exactly the defined keys. */
  lemma {:induction false} ExtractedKeys(keys: seq<Key>, outcomes: seq<Result<Value, Thrown>>, n: nat)
    requires n <= |keys| == |outcomes| && Extracted(keys, outcomes, n).Ok?
    ensures forall k :: k in Extracted(keys, outcomes, n).value <==> k in keys[..n]
  {
    if n > 0 {
      ExtractedKeys(keys, outcomes, n - 1);
      assert keys[..n] == keys[..n - 1] + [keys[n - 1]];
    }
  }

  /** A key's item is the one extracted by the last definition of that key. */
  lemma {:induction false} ExtractedLastWins(keys: seq<Key>, outcomes: seq<Result<Value, Thrown>>, n: nat, i: nat)
    requires n <= |keys| == |outcomes| && i < n && Extracted(keys, outcomes, n).Ok?
    requires forall j | i < j < n :: keys[j] != keys[i]
    ensures outcomes[i].Ok? && keys[i] in Extracted(keys, outcomes, n).value
    ensures Extracted(keys, outcomes, n).value[keys[i]] == outcomes[i].value
  {
    if i < n - 1 {
      ExtractedLastWins(keys, outcomes, n - 1, i);
    }
  }

  /** A failed load stays failed whatever later definitions give. */
  lemma {:induction false} ExtractedStaysFailed(keys: seq<Key>, outcomes: seq<Result<Value, Thrown>>, i: nat, n: nat)
    requires i <= n <= |keys| == |outcomes| && Extracted(keys, outcomes, i).Err?
    ensures Extracted(keys, outcomes, n) == Extracted(keys, outcomes, i)
    decreases n - i
  {
    if i < n {
      ExtractedStaysFailed(keys, outcomes, i, n - 1);
    }
  }

  /** `load`: the properties are merged and the items extracted; an exception other than an
      IllegalArgumentException or an IOException is wrapped in an IOException. */
  ghost function LoadRun(definitions: seq<Definition>, supplied: seq<Supplied>): (r: Result<Items, Thrown>)
    ensures r.Err? ==> r.error.IllegalArgument? || r.error.IOFailure?
  {
    match Merged(supplied, |supplied|)
    case Err(e) => Err(Wrap(e))
    case Ok(p) =>
      match Extracted(KeysOf(definitions), Outcomes(definitions, p), |definitions|)
      case Err(e) => Err(Wrap(e))
      case Ok(items) => Ok(items)
  }

  /** The first half of `reload`: load, then validate, wrapping the validator's exception as
      `load` wraps its own. */
  ghost function Validated(definitions: seq<Definition>, supplied: seq<Supplied>, validate: Items -> Outcome<Thrown>)
    : (r: Result<Items, Thrown>)
    ensures r.Err? ==> r.error.IllegalArgument? || r.error.IOFailure?
  {
    match LoadRun(definitions, supplied)
    case Err(e) => Err(e)
    case Ok(items) =>
      match validate(items)
      case Fail(e) => Err(Wrap(e))
      case Pass => Ok(items)
  }

  // ---------------------------------------------------------------------------------------
  // The keys a reload closes (`closeChangedConfigItems`)

  /** `get` on a map, null for a missing key. */
  function Lookup(items: Items, k: Key): Option<Value>
  {
    if k in items then Some(items[k]) else None
  }

  /** The key of each definition, in definition order, whose new item is not
      `Objects.equals` to the loaded one. */
  function Changed(definitions: seq<Definition>, newItems: Items, oldItems: Items): seq<Key>
  {
    if definitions == [] then []
    else
      var k := definitions[0].key;
      (if Lookup(newItems, k) != Lookup(oldItems, k) then [k] else []) + Changed(definitions[1..], newItems, oldItems)
  }

  /** Exactly the keys of definitions whose item changed are closed, each no more often than
      it is defined; when nothing changed nothing is closed. */
  lemma {:induction false} ChangedExactly(definitions: seq<Definition>, newItems: Items, oldItems: Items)
    ensures forall k :: k in Changed(definitions, newItems, oldItems) <==>
      exists i | 0 <= i < |definitions| :: definitions[i].key == k && Lookup(newItems, k) != Lookup(oldItems, k)
    ensures |Changed(definitions, newItems, oldItems)| <= |definitions|
    ensures newItems == oldItems ==> Changed(definitions, newItems, oldItems) == []
  {
    if definitions != [] {
      ChangedExactly(definitions[1..], newItems, oldItems);
      forall k ensures k in Changed(definitions, newItems, oldItems) <==>
        exists i | 0 <= i < |definitions| :: definitions[i].key == k && Lookup(newItems, k) != Lookup(oldItems, k)
      {
        if exists i | 0 <= i < |definitions| :: definitions[i].key == k && Lookup(newItems, k) != Lookup(oldItems, k) {
          var i :| 0 <= i < |definitions| && definitions[i].key == k && Lookup(newItems, k) != Lookup(oldItems, k);
          if i > 0 {
            assert definitions[1..][i - 1] == definitions[i];
          }
        }
      }
    }
  }

  /** Strict `close` applied to each key in turn, stopping at the first exception. */
  ghost function ClosesRun(rows: Graph, rank: map<Key, nat>, failing: set<Key>, s: Slots, log: seq<Event>,
                           keys: seq<Key>): (r: Run<Outcome<Failure>>)
    requires RowsRanked(rows, rank)
    ensures r.slots.Keys == s.Keys
    decreases |keys|
  {
    if keys == [] then Run(s, log, Pass)
    else
      var c := CloseRun(rows, rank, failing, s, log, keys[0], false);
      if c.result.Fail? then c else ClosesRun(rows, rank, failing, c.slots, c.log, keys[1..])
  }

  /** Slots that were empty stay empty. */
  ghost predicate EmptyStaysEmpty(s0: Slots, s: Slots)
  {
    s.Keys == s0.Keys && forall k | k in s0 && s0[k].None? :: s[k].None?
  }

  /** A close empties slots and never fills one. */
  lemma CloseKeepsEmpty(rows: Graph, rank: map<Key, nat>, failing: set<Key>, s: Slots, log: seq<Event>, key: Key)
    requires RowsRanked(rows, rank)
    ensures EmptyStaysEmpty(s, CloseRun(rows, rank, failing, s, log, key, false).slots)
  {
    CloseVisits(rows, rank, failing, s, log, key, false);
    var t := CloseRun(rows, rank, failing, s, log, key, false).slots;
    assert OnlyClosed(s, t, Downstream(rows, rank, key), failing);
  }

  lemma EmptyStaysClosed(s: Slots, t: Slots, visited: set<Key>)
    requires EmptyStaysEmpty(s, t) && AllClosed(s, visited)
    ensures AllClosed(t, visited)
  {
  }

  /** After closes that all succeeded, every key closed and every transitive dependant of
      it is registered and closed. */
  lemma {:induction false} ClosesLeaveClosed(rows: Graph, rank: map<Key, nat>, failing: set<Key>, s: Slots,
                                             log: seq<Event>, keys: seq<Key>)
    requires RowsRanked(rows, rank)
    ensures var r := ClosesRun(rows, rank, failing, s, log, keys);
      EmptyStaysEmpty(s, r.slots) &&
      (r.result.Pass? ==> forall j | 0 <= j < |keys| :: AllClosed(r.slots, Downstream(rows, rank, keys[j])))
    decreases |keys|
  {
    if keys != [] {
      var c := CloseRun(rows, rank, failing, s, log, keys[0], false);
      CloseKeepsEmpty(rows, rank, failing, s, log, keys[0]);
      if c.result.Pass? {
        Closing.CloseStrict(rows, rank, failing, s, log, keys[0]);
        ClosesLeaveClosed(rows, rank, failing, c.slots, c.log, keys[1..]);
        var r := ClosesRun(rows, rank, failing, c.slots, c.log, keys[1..]);
        assert ClosesRun(rows, rank, failing, s, log, keys) == r;
        EmptyStaysClosed(c.slots, r.slots, Downstream(rows, rank, keys[0]));
        if r.result.Pass? {
          forall j | 0 < j < |keys| ensures AllClosed(r.slots, Downstream(rows, rank, keys[j])) {
            assert keys[1..][j - 1] == keys[j];
          }
        }
      }
    }
  }

  /** A turn of the loop over the definitions: a definition whose item is unchanged closes
      nothing, a changed one closes its key and the loop goes on unless that failed. */
  lemma ClosesGoesOn(rows: Graph, rank: map<Key, nat>, failing: set<Key>, s: Slots, log: seq<Event>,
                     definitions: seq<Definition>, i: nat, newItems: Items, oldItems: Items)
    requires RowsRanked(rows, rank) && i < |definitions|
    ensures var k := definitions[i].key;
      var rest := ClosesRun(rows, rank, failing, s, log, Changed(definitions[i..], newItems, oldItems));
      if Lookup(newItems, k) == Lookup(oldItems, k) then
        rest == ClosesRun(rows, rank, failing, s, log, Changed(definitions[i + 1..], newItems, oldItems))
      else
        var c := CloseRun(rows, rank, failing, s, log, k, false);
        rest == if c.result.Fail? then c
                else ClosesRun(rows, rank, failing, c.slots, c.log, Changed(definitions[i + 1..], newItems, oldItems))
  {
    ChangedStep(definitions, i, newItems, oldItems);
    var k := definitions[i].key;
    var keys := Changed(definitions[i..], newItems, oldItems);
    var later := Changed(definitions[i + 1..], newItems, oldItems);
    if Lookup(newItems, k) == Lookup(oldItems, k) {
      assert keys == later;
    } else {
      assert keys == [k] + later;
      assert keys != [] && keys[0] == k && keys[1..] == later;
      var c := CloseRun(rows, rank, failing, s, log, k, false);
      assert ClosesRun(rows, rank, failing, s, log, keys) ==
             if c.result.Fail? then c else ClosesRun(rows, rank, failing, c.slots, c.log, later);
    }
  }

  lemma ChangedStep(definitions: seq<Definition>, i: nat, newItems: Items, oldItems: Items)
    requires i < |definitions|
    ensures var k := definitions[i].key;
      Changed(definitions[i..], newItems, oldItems) ==
        (if Lookup(newItems, k) != Lookup(oldItems, k) then [k] else []) + Changed(definitions[i + 1..], newItems, oldItems)
  {
    assert definitions[i..][1..] == definitions[i + 1..];
    assert definitions[i..][0] == definitions[i];
  }

  // ---------------------------------------------------------------------------------------
  // Opening an item

  /** The entry of an item has no dependencies, so opening it, when it is closed, is
      calling its factory: a factory that throws makes the open fail for that key and
      leaves it closed, one that returns an item opens the key with it. */
  lemma OpenItem(deps: Graph, rank: map<Key, nat>, create: Key -> Creation, s: Slots, log: seq<Event>, key: Key)
    requires DepsRanked(deps, rank) && key in deps && deps[key] == [] && key in s && s[key].None?
    ensures create(key).Threw? ==>
      OpenRun(deps, rank, create, s, log, key).result == Err(OpeningFailed(key)) &&
      OpenRun(deps, rank, create, s, log, key).slots == s
    ensures create(key).Created? ==>
      OpenRun(deps, rank, create, s, log, key).result == Ok(Some(create(key).value)) &&
      OpenRun(deps, rank, create, s, log, key).slots == s[key := Some(create(key).value)]
  {
    assert DepsRun(deps, rank, create, s, log, key, 0) == Run(s, log, Pass);
  }

  // ---------------------------------------------------------------------------------------
  // Registration of the definitions

  /** `keys` registered, in turn, into `m` with the value `v`. */
  function Put<V>(m: map<Key, V>, keys: seq<Key>, v: V): map<Key, V>
  {
    if keys == [] then m
    else Put(m, keys[..|keys| - 1], v)[keys[|keys| - 1] := v]
  }

  /** Registering `keys` adds exactly them, each with the value `v`. */
  lemma {:induction false} PutKeys<V>(m: map<Key, V>, keys: seq<Key>, v: V)
    ensures Put(m, keys, v).Keys == m.Keys + Elems(keys)
    ensures forall k | k in Elems(keys) :: Put(m, keys, v)[k] == v
    ensures forall k | k in m && k !in Elems(keys) :: Put(m, keys, v)[k] == m[k]
  {
    if keys != [] {
      var init := keys[..|keys| - 1];
      PutKeys(m, init, v);
      assert keys == init + [keys[|keys| - 1]];
      assert Elems(keys) == Elems(init) + {keys[|keys| - 1]};
    }
  }

  lemma PutStep<V>(m: map<Key, V>, keys: seq<Key>, i: nat, v: V)
    requires i < |keys|
    ensures Put(m, keys[..i + 1], v) == Put(m, keys[..i], v)[keys[i] := v]
  {
    assert keys[..i + 1][..i] == keys[..i];
  }

  /** Key `m` is registered neither before the registrations started nor by an earlier
      definition. */
  predicate Fresh(keys: seq<Key>, registered: set<Key>, m: nat)
    requires m < |keys|
  {
    keys[m] !in registered && forall a | 0 <= a < m :: keys[a] != keys[m]
  }

  lemma FreshKey(keys: seq<Key>, registered: set<Key>, m: nat)
    requires m < |keys|
    ensures Fresh(keys, registered, m) <==> keys[m] !in registered + Elems(keys[..m])
  {
    if !Fresh(keys, registered, m) && keys[m] !in registered {
      var a :| 0 <= a < m && keys[a] == keys[m];
      assert keys[..m][a] == keys[m];
    }
  }

  /** The position of the first key of keys[i..] that is already registered or repeats an
      earlier key, or |keys| when there is none. */
  function FirstClash(keys: seq<Key>, registered: set<Key>, i: nat): (j: nat)
    requires i <= |keys|
    ensures i <= j <= |keys|
    ensures forall m | i <= m < j :: Fresh(keys, registered, m)
    ensures j < |keys| ==> !Fresh(keys, registered, j)
    decreases |keys| - i
  {
    if i == |keys| || !Fresh(keys, registered, i) then i
    else FirstClash(keys, registered, i + 1)
  }

  /** Registration goes through exactly when the keys are distinct and none is registered
      yet. */
  lemma NoClash(keys: seq<Key>, registered: set<Key>)
    ensures FirstClash(keys, registered, 0) == |keys| <==> Distinct(keys) && Elems(keys) !! registered
  {
    var j := FirstClash(keys, registered, 0);
    if j == |keys| {
      forall a, b | 0 <= a < b < |keys| ensures keys[a] != keys[b] {
        assert Fresh(keys, registered, b);
      }
      forall x | x in Elems(keys) ensures x !in registered {
        var m :| 0 <= m < |keys| && keys[m] == x;
        assert Fresh(keys, registered, m);
      }
    } else {
      assert !Fresh(keys, registered, j);
      assert keys[j] in Elems(keys);
      if keys[j] !in registered {
        var a :| 0 <= a < j && keys[a] == keys[j];
        assert !Distinct(keys);
      }
    }
  }

  /** The registration state of a manager: its key order, its entries' dependencies,
      closers and slots, and its index of dependants. */
  datatype Entries = Entries(order: seq<Key>, deps: Graph, closer: map<Key, Closer>, slot: Slots, index: Graph)

  ghost function EntriesOf(m: DefaultResourceManager): Entries
    reads m
  {
    Entries(m.order, m.deps, m.closer, m.slot, m.index)
  }

  /** `keys` registered in turn, each with no dependencies, a no-op closer and an empty
      slot; the index is left as it is, since no key depends on anything. */
  function Registered(e: Entries, keys: seq<Key>): Entries
  {
    Entries(e.order + keys, Put(e.deps, keys, []), Put(e.closer, keys, NoOpCloser), Put(e.slot, keys, None), e.index)
  }

  /** Registering one more key extends the registration of the keys before it. */
  lemma RegisteredStep(e: Entries, keys: seq<Key>, i: nat)
    requires i < |keys|
    ensures Registered(Registered(e, keys[..i]), [keys[i]]) == Registered(e, keys[..i + 1])
  {
    var before := Registered(e, keys[..i]);
    assert keys[..i + 1] == keys[..i] + [keys[i]];
    PutStep(e.deps, keys, i, []);
    PutStep(e.closer, keys, i, NoOpCloser);
    PutStep(e.slot, keys, i, None);
    assert Put(before.deps, [keys[i]], []) == before.deps[keys[i] := []];
    assert Put(before.closer, [keys[i]], NoOpCloser) == before.closer[keys[i] := NoOpCloser];
    assert Put(before.slot, [keys[i]], None) == before.slot[keys[i] := None];
  }

  /** `registerDefinitionsToResourceManager` from position `i` of `keys` on: each key is
      registered in turn, and the first one that is already registered ends the loop with
      a duplicate-key failure. */
  ghost function RegisterFrom(e: Entries, keys: seq<Key>, i: nat): (Entries, Outcome<Failure>)
    requires i <= |keys|
    decreases |keys| - i
  {
    if i == |keys| then (e, Pass)
    else if keys[i] in e.deps then (e, Fail(Duplicate))
    else RegisterFrom(Registered(e, [keys[i]]), keys, i + 1)
  }

  /** The registration loop registers exactly the keys before the first clash, and fails
      with a duplicate key exactly when there is a clash. */
  lemma {:induction false} RegisterFromClash(e: Entries, keys: seq<Key>, i: nat)
    requires i <= |keys| && forall m | 0 <= m < i :: Fresh(keys, e.deps.Keys, m)
    decreases |keys| - i
    ensures var j := FirstClash(keys, e.deps.Keys, i);
      RegisterFrom(Registered(e, keys[..i]), keys, i) ==
        (Registered(e, keys[..j]), if j == |keys| then Pass else Fail(Duplicate))
  {
    var here := Registered(e, keys[..i]);
    RegisteredEntries(e, keys[..i]);
    if i == |keys| {
      assert keys[..i] == keys;
    } else if keys[i] in here.deps {
      FreshKey(keys, e.deps.Keys, i);
      assert !Fresh(keys, e.deps.Keys, i);
    } else {
      FreshKey(keys, e.deps.Keys, i);
      RegisteredStep(e, keys, i);
      RegisterFromClash(e, keys, i + 1);
    }
  }

  /** Registering the keys of the definitions registers those before the first key that is
      registered already or defined twice, and fails with a duplicate key exactly when there
      is such a key. */
  lemma Registration(e: Entries, keys: seq<Key>)
    ensures var j := FirstClash(keys, e.deps.Keys, 0);
      RegisterFrom(e, keys, 0) == (Registered(e, keys[..j]), if j == |keys| then Pass else Fail(Duplicate))
    ensures RegisterFrom(e, keys, 0).1.Pass? <==> Distinct(keys) && Elems(keys) !! e.deps.Keys
  {
    assert keys[..0] == [];
    assert Registered(e, []) == e;
    RegisterFromClash(e, keys, 0);
    NoClash(keys, e.deps.Keys);
  }

  /** Registration adds exactly the registered keys, each with an empty entry, and leaves
      the entries already there alone. */
  lemma RegisteredEntries(e: Entries, keys: seq<Key>)
    ensures var r := Registered(e, keys);
      r.deps.Keys == e.deps.Keys + Elems(keys) && r.closer.Keys == e.closer.Keys + Elems(keys) &&
      r.slot.Keys == e.slot.Keys + Elems(keys) && r.order == e.order + keys && r.index == e.index &&
      (forall k | k in Elems(keys) :: r.deps[k] == [] && r.closer[k] == NoOpCloser && r.slot[k] == None) &&
      (forall k | k in e.deps && k !in Elems(keys) :: r.deps[k] == e.deps[k])
  {
    PutKeys(e.deps, keys, []);
    PutKeys(e.closer, keys, NoOpCloser);
    PutKeys(e.slot, keys, None);
  }

  /** The validator of the three-argument constructor accepts everything. */
  function AcceptAll(items: Items): Outcome<Thrown>
  {
    Pass
  }

  class PropertiesConfigLoader {
    const manager: DefaultResourceManager
    const definitions: seq<Definition>
    const validate: Items -> Outcome<Thrown>
    /** `loadedConfigItems`: `None` until the first successful reload. */
    var loaded: Option<Items>

    constructor (manager: DefaultResourceManager, definitions: seq<Definition>, validate: Items -> Outcome<Thrown>)
      ensures this.manager == manager && this.definitions == definitions && this.validate == validate
      ensures loaded == None
    {
      this.manager := manager;
      this.definitions := definitions;
      this.validate := validate;
      loaded := None;
    }

    /** The constructor without a validator. */
    constructor WithoutValidator(manager: DefaultResourceManager, definitions: seq<Definition>)
      ensures this.manager == manager && this.definitions == definitions && this.validate == AcceptAll
      ensures loaded == None
    {
      this.manager := manager;
      this.definitions := definitions;
      this.validate := AcceptAll;
      loaded := None;
    }

    /** The factory registered for every item: before the first successful reload it throws
      an IllegalStateException; afterwards it returns the loaded item of its key, or null
      for a key that has none. */
    function Factory(): (create: Key -> Creation)
      reads this
      ensures loaded.None? ==> forall k :: create(k) == Threw
      ensures loaded.Some? ==> forall k | k in loaded.value :: create(k) == Created(loaded.value[k])
      ensures loaded.Some? ==> forall k | k !in loaded.value :: create(k) == ReturnedNull
    {
      var items := loaded;
      (k: Key) => if items.None? then Threw else if k in items.value then Created(items.value[k]) else ReturnedNull
    }

    /** `registerDefinitionsToResourceManager`, which the constructors run, as `RegisterFrom`
        describes it. */
    method RegisterDefinitions() returns (r: Outcome<Failure>)
      requires manager.Valid()
      modifies manager`order, manager`deps, manager`closer, manager`slot, manager`index
      ensures manager.Valid()
      ensures (EntriesOf(manager), r) == RegisterFrom(old(EntriesOf(manager)), KeysOf(definitions), 0)
    {
      ghost var keys := KeysOf(definitions);
      ghost var goal := RegisterFrom(EntriesOf(manager), keys, 0);
      var i := 0;
      while i < |definitions|
        invariant 0 <= i <= |definitions| && manager.Valid()
        invariant goal == RegisterFrom(EntriesOf(manager), keys, i)
      {
        var registered := RegisterOne(definitions[i].key);
        if registered.Fail? {
          return registered;
        }
        i := i + 1;
      }
      r := Pass;
    }

    /** One turn of the registration loop: `register` with no dependencies and a no-op
        closer, which fails only for a key that is already registered. */
    method RegisterOne(key: Key) returns (r: Outcome<Failure>)
      requires manager.Valid()
      modifies manager`order, manager`deps, manager`closer, manager`slot, manager`index
      ensures manager.Valid()
      ensures key in old(manager.deps) ==> r == Fail(Duplicate) && EntriesOf(manager) == old(EntriesOf(manager))
      ensures key !in old(manager.deps) ==> r == Pass && EntriesOf(manager) == Registered(old(EntriesOf(manager)), [key])
    {
      r := manager.Register(key, NoOpCloser, []);
      assert Put(old(manager.deps), [key], []) == old(manager.deps)[key := []];
      assert Put(old(manager.closer), [key], NoOpCloser) == old(manager.closer)[key := NoOpCloser];
      assert Put(old(manager.slot), [key], None) == old(manager.slot)[key := None];
    }

    /** `closeChangedConfigItems`: the key of each definition whose item changed is closed
        with the one-argument `close`, in definition order, stopping at the first
        exception. */
    method CloseChangedConfigItems(newItems: Items, closeFails: set<Key>, ghost rank: map<Key, nat>)
      returns (r: Outcome<Failure>)
      requires loaded.Some? && manager.Valid() && RowsRanked(manager.index, rank)
      modifies manager`slot, manager`log
      ensures manager.Valid()
      ensures Run(manager.slot, manager.log, r) ==
        ClosesRun(manager.index, rank, manager.Failing(closeFails), old(manager.slot), old(manager.log),
                  Changed(definitions, newItems, loaded.value))
    {
      var oldItems := loaded.value;
      ghost var failing := manager.Failing(closeFails);
      ghost var goal := ClosesRun(manager.index, rank, failing, manager.slot, manager.log, Changed(definitions, newItems, oldItems));
      assert definitions[0..] == definitions;
      var i := 0;
      while i < |definitions|
        invariant 0 <= i <= |definitions| && manager.Valid()
        invariant goal == ClosesRun(manager.index, rank, failing, manager.slot, manager.log,
                                    Changed(definitions[i..], newItems, oldItems))
      {
        var c := CloseIfChanged(i, newItems, oldItems, closeFails, rank, goal);
        if c.Fail? {
          return c;
        }
        i := i + 1;
      }
      r := Pass;
    }

    /** One turn of `closeChangedConfigItems`: the key of definition `i` is closed when its
        item changed; the loop ends when that close fails. */
    method CloseIfChanged(i: nat, newItems: Items, oldItems: Items, closeFails: set<Key>, ghost rank: map<Key, nat>,
                          ghost goal: Run<Outcome<Failure>>) returns (c: Outcome<Failure>)
      requires i < |definitions| && manager.Valid() && RowsRanked(manager.index, rank)
      requires goal == ClosesRun(manager.index, rank, manager.Failing(closeFails), manager.slot, manager.log,
                                 Changed(definitions[i..], newItems, oldItems))
      modifies manager`slot, manager`log
      ensures manager.Valid()
      ensures c.Fail? ==> goal == Run(manager.slot, manager.log, c)
      ensures c.Pass? ==> goal == ClosesRun(manager.index, rank, manager.Failing(closeFails), manager.slot, manager.log,
                                            Changed(definitions[i + 1..], newItems, oldItems))
    {
      var key := definitions[i].key;
      ClosesGoesOn(manager.index, rank, manager.Failing(closeFails), manager.slot, manager.log, definitions, i, newItems, oldItems);
      c := Pass;
      if Lookup(newItems, key) != Lookup(oldItems, key) {
        c := manager.CloseStrict(key, closeFails, rank);
      }
    }

    /** `load`, as `LoadRun` describes it. */
    method Load(supplied: seq<Supplied>) returns (r: Result<Items, Thrown>)
      ensures r == LoadRun(definitions, supplied)
    {
      var properties := LoadProperties(supplied);
      if properties.Err? {
        return Err(Wrap(properties.error));
      }
      ghost var keys, outcomes := KeysOf(definitions), Outcomes(definitions, properties.value);
      var result: Items := map[];
      var i := 0;
      while i < |definitions|
        invariant 0 <= i <= |definitions| && Extracted(keys, outcomes, i) == Ok(result)
      {
        var value := Extract(definitions[i], properties.value);
        assert value == outcomes[i];
        if value.Err? {
          ExtractedStaysFailed(keys, outcomes, i + 1, |definitions|);
          return Err(Wrap(value.error));
        }
        result := result[definitions[i].key := value.value];
        i := i + 1;
      }
      r := Ok(result);
    }

    /** `reload`: the items are loaded and validated; a failure there changes nothing. The
        first successful reload only stores the items; a later one first closes each item
        whose value changed, and stores the new items only when every close returned
        normally. */
    method Reload(supplied: seq<Supplied>, closeFails: set<Key>, ghost rank: map<Key, nat>)
      returns (r: Outcome<ReloadFailure>)
      requires manager.Valid() && RowsRanked(manager.index, rank)
      modifies this`loaded, manager`slot, manager`log
      ensures manager.Valid()
      ensures var v := Validated(definitions, supplied, validate);
        v.Err? ==> r == Fail(Config(v.error)) && loaded == old(loaded) &&
                   manager.slot == old(manager.slot) && manager.log == old(manager.log)
      ensures var v := Validated(definitions, supplied, validate);
        v.Ok? && old(loaded).None? ==> r == Pass && loaded == Some(v.value) &&
                                        manager.slot == old(manager.slot) && manager.log == old(manager.log)
      ensures var v := Validated(definitions, supplied, validate);
        v.Ok? && old(loaded).Some? ==>
          var c := ClosesRun(manager.index, rank, manager.Failing(closeFails), old(manager.slot), old(manager.log),
                             Changed(definitions, v.value, old(loaded).value));
          manager.slot == c.slots && manager.log == c.log &&
          (c.result.Pass? ==> r == Pass && loaded == Some(v.value)) &&
          (c.result.Fail? ==> r == Fail(Registry(c.result.error)) && loaded == old(loaded))
    {
      var items := Load(supplied);
      if items.Err? {
        return Fail(Config(items.error));
      }
      var check := validate(items.value);
      if check.Fail? {
        return Fail(Config(Wrap(check.error)));
      }
      if loaded.Some? {
        var c := CloseChangedConfigItems(items.value, closeFails, rank);
        if c.Fail? {
          return Fail(Registry(c.error));
        }
      }
      loaded := Some(items.value);
      r := Pass;
    }
  }
}
