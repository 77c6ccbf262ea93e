/** The recursive `close` and `closeAll` of DefaultResourceManager.java as functions from
    the slots and the event log before the call to the slots, the log and the outcome
    after it, with what the calls promise proved by induction over a row ranking. */
module Closing {
  import opened Wrappers
  import opened Failures
  import opened DependencyGraph
  import opened Lifecycle

  /** `Entry.close`: an empty slot is left alone; otherwise the closer runs, and the slot is
      emptied unless the closer throws, which is reported as a closing failure of the key
      with nothing suppressed. `failing` holds the keys whose closer throws. */
  ghost function ReleaseRun(s: Slots, log: seq<Event>, key: Key, failing: set<Key>): (r: Run<Outcome<Failure>>)
    requires key in s
    ensures r.slots.Keys == s.Keys && log <= r.log
    ensures r.result.Fail? ==>
      r.result.error == ClosingFailed(key, []) && key in failing && s[key].Some? && r.slots == s
  {
    if s[key].None? then Run(s, log, Pass)
    else if key in failing then Run(s, log + [CloserRan(key)], Fail(ClosingFailed(key, [])))
    else Run(s[key := None], log + [CloserRan(key)], Pass)
  }

  /** `close(key, aggressive)`: the dependants in the index row of `key` are closed first,
      then the key's own entry; an unregistered key is not found. In strict mode the first
      closing failure is rethrown as it is; in aggressive mode closing failures are
      collected and thrown together by `throwIfAny`. A key that is not found always ends
      the call. */
  ghost function CloseRun(rows: Graph, rank: map<Key, nat>, failing: set<Key>, s: Slots, log: seq<Event>,
                          key: Key, aggressive: bool): (r: Run<Outcome<Failure>>)
    requires RowsRanked(rows, rank)
    ensures r.slots.Keys == s.Keys && log <= r.log
    ensures r.result.Fail? ==> r.result.error.NotFound? || r.result.error.ClosingFailed?
    ensures r.result.Pass? ==> key in s
    decreases if key in rows then rank[key] + 1 else 0, 1, 0
  {
    var bound := if key in rows then rank[key] + 1 else 0;
    var d := EachRun(rows, rank, failing, s, log, RowSeq(rows, key), bound, aggressive, 0, []);
    var r := Finish(d, key, failing, aggressive);
    assert r.log[..|log|] == r.log[..|d.log|][..|log|];
    r
  }

  /** What `close` does once the loop over the row of `key` ended with `d`: a loop failure
      is rethrown, an unregistered key is not found, and otherwise the key's own entry is
      closed; a strict call rethrows the entry's failure, an aggressive one adds it to the
      failures collected by the loop and throws them together. */
  ghost function Finish(d: Run<Result<seq<Failure>, Failure>>, key: Key, failing: set<Key>, aggressive: bool)
    : (r: Run<Outcome<Failure>>)
    requires d.result.Ok? ==> AllClosingFailures(d.result.value)
    requires d.result.Err? ==> d.result.error.NotFound? || d.result.error.ClosingFailed?
    ensures r.slots.Keys == d.slots.Keys && d.log <= r.log
    ensures r.result.Fail? ==> r.result.error.NotFound? || r.result.error.ClosingFailed?
    ensures r.result.Pass? ==> key in d.slots
  {
    if d.result.Err? then Run(d.slots, d.log, Fail(d.result.error))
    else if key !in d.slots then Run(d.slots, d.log, Fail(NotFound))
    else
      var e := ReleaseRun(d.slots, d.log, key, failing);
      if e.result.Fail? && !aggressive then e
      else Run(e.slots, e.log, ThrowIfAny(d.result.value + if e.result.Fail? then [e.result.error] else []))
  }

  /** The loop that closes each key of keys[i..] in turn, as `close` does over the index
      row of a key and `closeAll` over the registered keys: a closing failure is collected
      after `acc` in aggressive mode and ends the loop otherwise; a key that is not found
      ends the loop in both modes. */
  ghost function EachRun(rows: Graph, rank: map<Key, nat>, failing: set<Key>, s: Slots, log: seq<Event>,
                         keys: seq<Key>, bound: nat, aggressive: bool, i: nat, acc: seq<Failure>)
    : (r: Run<Result<seq<Failure>, Failure>>)
    requires RowsRanked(rows, rank) && RankedBelow(rows, rank, keys, bound)
    requires i <= |keys| && AllClosingFailures(acc)
    ensures r.slots.Keys == s.Keys && log <= r.log
    ensures r.result.Ok? ==> AllClosingFailures(r.result.value)
    ensures r.result.Err? ==> r.result.error.NotFound? || (!aggressive && r.result.error.ClosingFailed?)
    decreases bound, 0, |keys| - i
  {
    if i == |keys| then Run(s, log, Ok(acc))
    else
      var c := CloseRun(rows, rank, failing, s, log, keys[i], aggressive);
      if c.result.Fail? && (c.result.error.NotFound? || !aggressive) then Run(c.slots, c.log, Err(c.result.error))
      else
        var acc' := if c.result.Fail? then acc + [c.result.error] else acc;
        var r := EachRun(rows, rank, failing, c.slots, c.log, keys, bound, aggressive, i + 1, acc');
        assert r.log[..|log|] == r.log[..|c.log|][..|log|];
        r
  }

  /** `closeAll(aggressive)`: every key of `keys` (the registered keys, in registration
      order) is closed in turn, and the collected failures are thrown by `throwIfAny`. */
  ghost function CloseAllRun(rows: Graph, rank: map<Key, nat>, failing: set<Key>, s: Slots, log: seq<Event>,
                             keys: seq<Key>, aggressive: bool): (r: Run<Outcome<Failure>>)
    requires RowsRanked(rows, rank)
    ensures r.slots.Keys == s.Keys && log <= r.log
    ensures r.result.Fail? ==> r.result.error.NotFound? || r.result.error.ClosingFailed?
  {
    CeilingBounds(rows, rank, keys);
    var d := EachRun(rows, rank, failing, s, log, keys, Ceiling(rank), aggressive, 0, []);
    if d.result.Err? then Run(d.slots, d.log, Fail(d.result.error))
    else Run(d.slots, d.log, ThrowIfAny(d.result.value))
  }

  // ---------------------------------------------------------------------------------------
  // Which slots a close empties, and in which order its closers run

  /** For any set `within` that holds `key` and is closed under the index rows: a close only
      empties slots within `within`, never one whose closer fails, and each after its
      closer ran, once every dependant of its key was handled; when the call goes on past
      the key (it succeeds, or collects a closing failure) the key itself is handled. */
  lemma {:induction false} ClosePromises(rows: Graph, rank: map<Key, nat>, failing: set<Key>, s: Slots,
                                         log: seq<Event>, key: Key, aggressive: bool, within: set<Key>)
    requires RowsRanked(rows, rank)
    requires key in within && ClosedUnder(rows, within)
    decreases if key in rows then rank[key] + 1 else 0, 1, 0, 0
    ensures var r := CloseRun(rows, rank, failing, s, log, key, aggressive);
      ClosedSoFar(s, r.slots, r.log, |log|, within, failing, rows) &&
      (r.result.Pass? || (aggressive && r.result.error.ClosingFailed?) ==> Handled(s, r.log, |log|, key))
  {
    var bound := if key in rows then rank[key] + 1 else 0;
    var row := RowSeq(rows, key);
    var d := EachRun(rows, rank, failing, s, log, row, bound, aggressive, 0, []);
    assert ClosedSoFar(s, d.slots, d.log, |log|, within, failing, rows) &&
           (d.result.Ok? ==> forall j | 0 <= j < |row| :: Handled(s, d.log, |log|, row[j])) by {
      EachPromises(rows, rank, failing, s, log, row, bound, aggressive, 0, [], within);
    }
    if d.result.Ok? && key in d.slots {
      var e := ReleaseRun(d.slots, d.log, key, failing);
      forall j | j in Row(rows, key) ensures Handled(s, d.log, |log|, j) {
        var q :| 0 <= q < |row| && row[q] == j;
      }
      CloseFinish(s, d.slots, e.slots, d.log, e.log, |log|, key, within, failing, rows);
    }
  }

  lemma {:induction false} EachPromises(rows: Graph, rank: map<Key, nat>, failing: set<Key>, s: Slots,
                                        log: seq<Event>, keys: seq<Key>, bound: nat, aggressive: bool,
                                        i: nat, acc: seq<Failure>, within: set<Key>)
    requires RowsRanked(rows, rank) && RankedBelow(rows, rank, keys, bound)
    requires i <= |keys| && AllClosingFailures(acc)
    requires ClosedUnder(rows, within) && forall j | i <= j < |keys| :: keys[j] in within
    decreases bound, 0, |keys| - i, 2
    ensures var r := EachRun(rows, rank, failing, s, log, keys, bound, aggressive, i, acc);
      ClosedSoFar(s, r.slots, r.log, |log|, within, failing, rows) &&
      (r.result.Ok? ==> forall j | i <= j < |keys| :: Handled(s, r.log, |log|, keys[j]))
  {
    if i < |keys| {
      EachPromisesStep(rows, rank, failing, s, log, keys, bound, aggressive, i, acc, within);
    } else {
      ClosedNothing(s, log, within, failing, rows);
    }
  }

  lemma {:induction false} EachPromisesStep(rows: Graph, rank: map<Key, nat>, failing: set<Key>, s: Slots,
                                            log: seq<Event>, keys: seq<Key>, bound: nat, aggressive: bool,
                                            i: nat, acc: seq<Failure>, within: set<Key>)
    requires RowsRanked(rows, rank) && RankedBelow(rows, rank, keys, bound)
    requires i < |keys| && AllClosingFailures(acc)
    requires ClosedUnder(rows, within) && forall j | i <= j < |keys| :: keys[j] in within
    decreases bound, 0, |keys| - i, 1
    ensures var r := EachRun(rows, rank, failing, s, log, keys, bound, aggressive, i, acc);
      ClosedSoFar(s, r.slots, r.log, |log|, within, failing, rows) &&
      (r.result.Ok? ==> forall j | i <= j < |keys| :: Handled(s, r.log, |log|, keys[j]))
  {
    var c := CloseRun(rows, rank, failing, s, log, keys[i], aggressive);
    if c.result.Fail? && (c.result.error.NotFound? || !aggressive) {
      ClosePromises(rows, rank, failing, s, log, keys[i], aggressive, within);
      EachStops(rows, rank, failing, s, log, keys, bound, aggressive, i, acc);
    } else {
      EachPromisesOn(rows, rank, failing, s, log, keys, bound, aggressive, i, acc, within);
    }
  }

  lemma {:induction false} EachPromisesOn(rows: Graph, rank: map<Key, nat>, failing: set<Key>, s: Slots,
                                          log: seq<Event>, keys: seq<Key>, bound: nat, aggressive: bool,
                                          i: nat, acc: seq<Failure>, within: set<Key>)
    requires RowsRanked(rows, rank) && RankedBelow(rows, rank, keys, bound)
    requires i < |keys| && AllClosingFailures(acc)
    requires ClosedUnder(rows, within) && forall j | i <= j < |keys| :: keys[j] in within
    requires var c := CloseRun(rows, rank, failing, s, log, keys[i], aggressive);
      !(c.result.Fail? && (c.result.error.NotFound? || !aggressive))
    decreases bound, 0, |keys| - i, 0
    ensures var r := EachRun(rows, rank, failing, s, log, keys, bound, aggressive, i, acc);
      ClosedSoFar(s, r.slots, r.log, |log|, within, failing, rows) &&
      (r.result.Ok? ==> forall j | i <= j < |keys| :: Handled(s, r.log, |log|, keys[j]))
  {
    var c := CloseRun(rows, rank, failing, s, log, keys[i], aggressive);
    var acc' := if c.result.Fail? then acc + [c.result.error] else acc;
    var r := EachRun(rows, rank, failing, c.slots, c.log, keys, bound, aggressive, i + 1, acc');
    EachGoesOn(rows, rank, failing, s, log, keys, bound, aggressive, i, acc);
    assert EachRun(rows, rank, failing, s, log, keys, bound, aggressive, i, acc) == r;
    ClosePromises(rows, rank, failing, s, log, keys[i], aggressive, within);
    assert Handled(s, c.log, |log|, keys[i]);
    EachPromises(rows, rank, failing, c.slots, c.log, keys, bound, aggressive, i + 1, acc', within);
    EachStep(s, c.slots, r.slots, c.log, r.log, |log|, within, failing, rows, keys, i, r.result.Ok?);
  }

  /** One key closed by a nested call, followed by the rest of the loop, keeps the loop's
      promises. */
  lemma EachStep(s0: Slots, s1: Slots, s2: Slots, log1: seq<Event>, log2: seq<Event>, start: nat,
                 within: set<Key>, failing: set<Key>, rows: Graph, keys: seq<Key>, i: nat, ok: bool)
    requires ClosedSoFar(s0, s1, log1, start, within, failing, rows)
    requires ClosedSoFar(s1, s2, log2, |log1|, within, failing, rows)
    requires start <= |log1| && log1 <= log2
    requires s1.Keys == s0.Keys && i < |keys|
    requires Handled(s0, log1, start, keys[i])
    requires ok ==> forall j | i + 1 <= j < |keys| :: Handled(s1, log2, |log1|, keys[j])
    ensures ClosedSoFar(s0, s2, log2, start, within, failing, rows)
    ensures ok ==> forall j | i <= j < |keys| :: Handled(s0, log2, start, keys[j])
  {
    ComposeCloses(s0, s1, s2, log1, log2, start, within, within, failing, rows);
    assert within + within == within;
    if ok {
      forall j | i <= j < |keys| ensures Handled(s0, log2, start, keys[j]) {
        var k := keys[j];
        if j == i {
          if s0[k].Some? {
            LoggedWiden(log1, log2, start, |log1|, start, |log2|, CloserRan(k));
          }
        } else {
          LiftHandled(s0, s1, log1, log2, start, k);
        }
      }
    }
  }

  /** A close, or a loop of closes, fails with a key not found only when some key it visits
      is unregistered. */
  lemma {:induction false} CloseNotFound(rows: Graph, rank: map<Key, nat>, failing: set<Key>, s: Slots,
                                         log: seq<Event>, key: Key, aggressive: bool, within: set<Key>)
    requires RowsRanked(rows, rank)
    requires key in within && ClosedUnder(rows, within)
    decreases if key in rows then rank[key] + 1 else 0, 1, 0
    ensures CloseRun(rows, rank, failing, s, log, key, aggressive).result == Fail(NotFound) ==>
      exists k :: k in within && k !in s
  {
    var bound := if key in rows then rank[key] + 1 else 0;
    EachNotFound(rows, rank, failing, s, log, RowSeq(rows, key), bound, aggressive, 0, [], within);
  }

  lemma {:induction false} EachNotFound(rows: Graph, rank: map<Key, nat>, failing: set<Key>, s: Slots,
                                        log: seq<Event>, keys: seq<Key>, bound: nat, aggressive: bool,
                                        i: nat, acc: seq<Failure>, within: set<Key>)
    requires RowsRanked(rows, rank) && RankedBelow(rows, rank, keys, bound)
    requires i <= |keys| && AllClosingFailures(acc)
    requires ClosedUnder(rows, within) && forall j | i <= j < |keys| :: keys[j] in within
    decreases bound, 0, |keys| - i
    ensures EachRun(rows, rank, failing, s, log, keys, bound, aggressive, i, acc).result == Err(NotFound) ==>
      exists k :: k in within && k !in s
  {
    if i < |keys| {
      CloseNotFound(rows, rank, failing, s, log, keys[i], aggressive, within);
      var c := CloseRun(rows, rank, failing, s, log, keys[i], aggressive);
      if !(c.result.Fail? && (c.result.error.NotFound? || !aggressive)) {
        var acc' := if c.result.Fail? then acc + [c.result.error] else acc;
        EachNotFound(rows, rank, failing, c.slots, c.log, keys, bound, aggressive, i + 1, acc', within);
      }
    }
  }

  // ---------------------------------------------------------------------------------------
  // Strict mode

  /** The keys a close may touch: the key (or the loop's keys) and every key in some row,
      a set closed under the rows. */
  ghost function Scope(rows: Graph, keys: seq<Key>): set<Key>
  {
    Universe(rows) + set j | j in keys
  }

  lemma ScopeClosed(rows: Graph, keys: seq<Key>)
    ensures ClosedUnder(rows, Scope(rows, keys))
    ensures forall j | 0 <= j < |keys| :: keys[j] in Scope(rows, keys)
  {
  }

  /** Every key of `visited` is registered and closed in `slots`. */
  ghost predicate AllClosed(slots: Slots, visited: set<Key>)
  {
    forall x | x in visited :: x in slots && slots[x].None?
  }

  /** `e` is the first closer failure of a strict close that started from `s` at log
      position `start` and visited `visited`: nothing is suppressed, and its key is a
      visited one whose closer fails, open before and still open after, and whose closer
      is the last one that ran. */
  ghost predicate FirstFailure(s: Slots, start: nat, slots: Slots, log: seq<Event>, e: Failure,
                               visited: set<Key>, failing: set<Key>)
  {
    e.ClosingFailed? && e == ClosingFailed(e.key, []) && e.key in visited * failing &&
    e.key in s.Keys * slots.Keys && s[e.key].Some? && slots[e.key] == s[e.key] &&
    start < |log| && log[|log| - 1] == CloserRan(e.key)
  }

  /** A strict close from `s` at log position `start` that visited `visited` closed all of
      them when it succeeded, and failed only at the first closer that threw. */
  ghost predicate StrictClose(s: Slots, start: nat, r: Run<Outcome<Failure>>, visited: set<Key>,
                              failing: set<Key>)
  {
    (r.result.Pass? ==> AllClosed(r.slots, visited)) &&
    (r.result.Fail? && r.result.error.ClosingFailed? ==>
       FirstFailure(s, start, r.slots, r.log, r.result.error, visited, failing))
  }

  /** The same for a strict loop, which collects nothing. */
  ghost predicate StrictEach(s: Slots, start: nat, r: Run<Result<seq<Failure>, Failure>>, visited: set<Key>,
                             failing: set<Key>)
  {
    (r.result.Ok? ==> r.result.value == [] && AllClosed(r.slots, visited)) &&
    (r.result.Err? && r.result.error.ClosingFailed? ==>
       FirstFailure(s, start, r.slots, r.log, r.result.error, visited, failing))
  }

  /** In strict mode a successful close leaves the key and every key it visits closed, and
      a closing failure is the first closer that threw among the keys it visits. */
  lemma {:induction false} CloseStrict(rows: Graph, rank: map<Key, nat>, failing: set<Key>, s: Slots,
                                       log: seq<Event>, key: Key)
    requires RowsRanked(rows, rank)
    decreases if key in rows then rank[key] + 1 else 0, 1, 0
    ensures StrictClose(s, |log|, CloseRun(rows, rank, failing, s, log, key, false), Downstream(rows, rank, key), failing)
  {
    var bound := if key in rows then rank[key] + 1 else 0;
    var row := RowSeq(rows, key);
    var below := DownstreamFrom(rows, rank, row, 0);
    var d := EachRun(rows, rank, failing, s, log, row, bound, false, 0, []);
    assert StrictClose(s, |log|, Finish(d, key, failing, false), Downstream(rows, rank, key), failing) by {
      EachStrict(rows, rank, failing, s, log, row, bound, 0);
      assert OnlyClosed(s, d.slots, Scope(rows, row), failing) by {
        ScopeClosed(rows, row);
        EachPromises(rows, rank, failing, s, log, row, bound, false, 0, [], Scope(rows, row));
      }
      assert Downstream(rows, rank, key) == {key} + below by {
        DownstreamSplit(rows, rank, key);
      }
      StrictFinish(s, |log|, d, key, below, Scope(rows, row), failing);
    }
    assert CloseRun(rows, rank, failing, s, log, key, false) == Finish(d, key, failing, false);
  }

  /** Closing the key's own entry after the loop over its row keeps the strict promises. */
  lemma StrictFinish(s: Slots, start: nat, d: Run<Result<seq<Failure>, Failure>>,
                     key: Key, below: set<Key>, scope: set<Key>, failing: set<Key>)
    requires d.result.Err? ==> d.result.error.NotFound? || d.result.error.ClosingFailed?
    requires StrictEach(s, start, d, below, failing)
    requires OnlyClosed(s, d.slots, scope, failing) && start <= |d.log|
    ensures StrictClose(s, start, Finish(d, key, failing, false), {key} + below, failing)
  {
    if d.result.Ok? {
      assert d.result.value + [] == [];
    }
  }

  lemma {:induction false} EachStrict(rows: Graph, rank: map<Key, nat>, failing: set<Key>, s: Slots,
                                      log: seq<Event>, keys: seq<Key>, bound: nat, i: nat)
    requires RowsRanked(rows, rank) && RankedBelow(rows, rank, keys, bound) && i <= |keys|
    decreases bound, 0, |keys| - i, 2
    ensures StrictEach(s, |log|, EachRun(rows, rank, failing, s, log, keys, bound, false, i, []),
                       DownstreamFrom(rows, rank, keys, i), failing)
  {
    if i < |keys| {
      EachStrictStep(rows, rank, failing, s, log, keys, bound, i);
    } else {
      assert DownstreamFrom(rows, rank, keys, i) == {};
    }
  }

  lemma {:induction false} EachStrictStep(rows: Graph, rank: map<Key, nat>, failing: set<Key>, s: Slots,
                                          log: seq<Event>, keys: seq<Key>, bound: nat, i: nat)
    requires RowsRanked(rows, rank) && RankedBelow(rows, rank, keys, bound) && i < |keys|
    decreases bound, 0, |keys| - i, 1
    ensures StrictEach(s, |log|, EachRun(rows, rank, failing, s, log, keys, bound, false, i, []),
                       DownstreamFrom(rows, rank, keys, i), failing)
  {
    var c := CloseRun(rows, rank, failing, s, log, keys[i], false);
    DownstreamFromStep(rows, rank, keys, i);
    CloseStrict(rows, rank, failing, s, log, keys[i]);
    if c.result.Pass? {
      EachStrictOn(rows, rank, failing, s, log, keys, bound, i);
    } else {
      EachStops(rows, rank, failing, s, log, keys, bound, false, i, []);
      StrictStop(s, |log|, c, Downstream(rows, rank, keys[i]), DownstreamFrom(rows, rank, keys, i + 1), failing);
    }
  }

  lemma {:induction false} EachStrictOn(rows: Graph, rank: map<Key, nat>, failing: set<Key>, s: Slots,
                                        log: seq<Event>, keys: seq<Key>, bound: nat, i: nat)
    requires RowsRanked(rows, rank) && RankedBelow(rows, rank, keys, bound) && i < |keys|
    requires CloseRun(rows, rank, failing, s, log, keys[i], false).result.Pass?
    decreases bound, 0, |keys| - i, 0
    ensures StrictEach(s, |log|, EachRun(rows, rank, failing, s, log, keys, bound, false, i, []),
                       Downstream(rows, rank, keys[i]) + DownstreamFrom(rows, rank, keys, i + 1), failing)
  {
    var c := CloseRun(rows, rank, failing, s, log, keys[i], false);
    var r := EachRun(rows, rank, failing, c.slots, c.log, keys, bound, false, i + 1, []);
    var scope := Scope(rows, keys);
    ScopeClosed(rows, keys);
    CloseStrict(rows, rank, failing, s, log, keys[i]);
    ClosePromises(rows, rank, failing, s, log, keys[i], false, scope);
    EachPromises(rows, rank, failing, c.slots, c.log, keys, bound, false, i + 1, [], scope);
    EachStrict(rows, rank, failing, c.slots, c.log, keys, bound, i + 1);
    EachGoesOn(rows, rank, failing, s, log, keys, bound, false, i, []);
    StrictStep(s, |log|, c, r, Downstream(rows, rank, keys[i]), DownstreamFrom(rows, rank, keys, i + 1), scope, failing, rows);
  }

  /** A nested strict call that fails ends the loop with its failure, which is the first
      one among the keys the whole loop visits. */
  lemma StrictStop(s: Slots, start: nat, c: Run<Outcome<Failure>>, a: set<Key>, b: set<Key>, failing: set<Key>)
    requires c.result.Fail? && StrictClose(s, start, c, a, failing)
    ensures StrictEach(s, start, Run(c.slots, c.log, Err(c.result.error)), a + b, failing)
  {
  }

  /** One key closed by a nested strict call, followed by the rest of the loop, keeps the
      strict loop's promises. */
  lemma StrictStep(s: Slots, start: nat, c: Run<Outcome<Failure>>, r: Run<Result<seq<Failure>, Failure>>,
                   a: set<Key>, b: set<Key>, scope: set<Key>, failing: set<Key>, rows: Graph)
    requires c.slots.Keys == s.Keys && start <= |c.log| && c.log <= r.log
    requires c.result.Pass? && StrictClose(s, start, c, a, failing)
    requires ClosedSoFar(s, c.slots, c.log, start, scope, failing, rows)
    requires ClosedSoFar(c.slots, r.slots, r.log, |c.log|, scope, failing, rows)
    requires StrictEach(c.slots, |c.log|, r, b, failing)
    ensures StrictEach(s, start, r, a + b, failing)
  {
  }

  // ---------------------------------------------------------------------------------------
  // Aggressive mode

  /** From `s0` to `s` exactly the keys of `visited` were attempted, and nothing else
      changed. */
  ghost predicate Swept(s0: Slots, s: Slots, visited: set<Key>, failing: set<Key>)
  {
    OnlyClosed(s0, s, visited, failing) && Attempted(s0, s, visited, failing)
  }

  /** An aggressive close from `s` that found every key visited the keys of `visited` and
      attempted each of them; it failed exactly when some of them was open with a failing
      closer, and the failure reports exactly those keys. */
  ghost predicate SweptClose(s: Slots, r: Run<Outcome<Failure>>, visited: set<Key>, failing: set<Key>)
  {
    r.result != Fail(NotFound) ==>
      Swept(s, r.slots, visited, failing) &&
      (r.result.Pass? <==> FailingOpen(s, visited, failing) == {}) &&
      (r.result.Fail? ==> FailedKeys(r.result.error) == FailingOpen(s, visited, failing))
  }

  /** An aggressive loop from `s` that found every key attempted the keys of `visited`, and
      collected after `acc` failures reporting exactly those of them that were open with a
      failing closer. */
  ghost predicate SweptEach(s: Slots, r: Run<Result<seq<Failure>, Failure>>, visited: set<Key>,
                            failing: set<Key>, acc: seq<Failure>)
  {
    r.result.Ok? ==>
      Swept(s, r.slots, visited, failing) &&
      AllFailedKeys(r.result.value) == AllFailedKeys(acc) + FailingOpen(s, visited, failing)
  }

  /** In aggressive mode a close that finds every key it visits attempts each of them: a
      key is closed afterwards unless its closer fails, in which case its slot is as
      before. The call fails exactly when some visited key was open with a failing closer,
      and the failure then reports exactly those keys. */
  lemma {:induction false} CloseAggressive(rows: Graph, rank: map<Key, nat>, failing: set<Key>, s: Slots,
                                           log: seq<Event>, key: Key)
    requires RowsRanked(rows, rank)
    decreases if key in rows then rank[key] + 1 else 0, 1, 0
    ensures SweptClose(s, CloseRun(rows, rank, failing, s, log, key, true), Downstream(rows, rank, key), failing)
  {
    var bound := if key in rows then rank[key] + 1 else 0;
    var row := RowSeq(rows, key);
    var below := DownstreamFrom(rows, rank, row, 0);
    var d := EachRun(rows, rank, failing, s, log, row, bound, true, 0, []);
    assert SweptClose(s, Finish(d, key, failing, true), Downstream(rows, rank, key), failing) by {
      EachAggressive(rows, rank, failing, s, log, row, bound, 0, []);
      assert Downstream(rows, rank, key) == {key} + below && key !in below by {
        DownstreamSplit(rows, rank, key);
      }
      assert AllFailedKeys([]) == {};
      AggressiveFinish(s, d, key, below, failing);
    }
    assert CloseRun(rows, rank, failing, s, log, key, true) == Finish(d, key, failing, true);
  }

  /** Closing the key's own entry after its dependants were attempted completes the
      attempt. */
  lemma AggressiveFinish(s: Slots, d: Run<Result<seq<Failure>, Failure>>, key: Key, below: set<Key>,
                         failing: set<Key>)
    requires d.result.Err? ==> d.result.error.NotFound?
    requires d.result.Ok? ==> AllClosingFailures(d.result.value)
    requires SweptEach(s, d, below, failing, [])
    requires AllFailedKeys([]) == {}
    requires key !in below && d.slots.Keys == s.Keys
    ensures SweptClose(s, Finish(d, key, failing, true), {key} + below, failing)
  {
    if d.result.Ok? && key in d.slots {
      var e := ReleaseRun(d.slots, d.log, key, failing);
      ReleaseAttempt(s, d.slots, d.result.value, e.slots, e.result, key, below, failing);
    }
  }

  /** The failures a loop collected, followed by the failure of the key's own closer if it
      fails, report exactly the visited keys that were open with a failing closer. */
  lemma ReleaseAttempt(s: Slots, s1: Slots, collected: seq<Failure>, s2: Slots, release: Outcome<Failure>,
                       key: Key, below: set<Key>, failing: set<Key>)
    requires AllClosingFailures(collected) && Swept(s, s1, below, failing)
    requires AllFailedKeys(collected) == FailingOpen(s, below, failing)
    requires key !in below && key in s1 && s1.Keys == s.Keys
    requires s2 == if s1[key].Some? && key !in failing then s1[key := None] else s1
    requires release.Fail? <==> s1[key].Some? && key in failing
    requires release.Fail? ==> release.error == ClosingFailed(key, [])
    ensures var fs := collected + if release.Fail? then [release.error] else [];
      AllClosingFailures(fs) && Swept(s, s2, {key} + below, failing) &&
      (fs == [] <==> FailingOpen(s, {key} + below, failing) == {}) &&
      AllFailedKeys(fs) == FailingOpen(s, {key} + below, failing)
  {
    var fs := collected + if release.Fail? then [release.error] else [];
    assert s1[key] == s[key];
    if release.Fail? {
      AllFailedKeysAppend(collected, release.error);
      assert FailedKeys(release.error) == {key};
    } else {
      assert fs == collected;
    }
    assert FailingOpen(s, {key} + below, failing) ==
           FailingOpen(s, below, failing) + FailingOpen(s, {key}, failing);
    SomeFailedKey(fs);
  }

  lemma {:induction false} EachAggressive(rows: Graph, rank: map<Key, nat>, failing: set<Key>, s: Slots,
                                          log: seq<Event>, keys: seq<Key>, bound: nat, i: nat, acc: seq<Failure>)
    requires RowsRanked(rows, rank) && RankedBelow(rows, rank, keys, bound)
    requires i <= |keys| && AllClosingFailures(acc)
    decreases bound, 0, |keys| - i, 2
    ensures SweptEach(s, EachRun(rows, rank, failing, s, log, keys, bound, true, i, acc),
                      DownstreamFrom(rows, rank, keys, i), failing, acc)
  {
    if i < |keys| {
      EachAggressiveStep(rows, rank, failing, s, log, keys, bound, i, acc);
    } else {
      assert DownstreamFrom(rows, rank, keys, i) == {};
    }
  }

  lemma {:induction false} EachAggressiveStep(rows: Graph, rank: map<Key, nat>, failing: set<Key>, s: Slots,
                                              log: seq<Event>, keys: seq<Key>, bound: nat, i: nat, acc: seq<Failure>)
    requires RowsRanked(rows, rank) && RankedBelow(rows, rank, keys, bound)
    requires i < |keys| && AllClosingFailures(acc)
    decreases bound, 0, |keys| - i, 1
    ensures SweptEach(s, EachRun(rows, rank, failing, s, log, keys, bound, true, i, acc),
                      DownstreamFrom(rows, rank, keys, i), failing, acc)
  {
    var c := CloseRun(rows, rank, failing, s, log, keys[i], true);
    DownstreamFromStep(rows, rank, keys, i);
    if c.result == Fail(NotFound) {
      EachStops(rows, rank, failing, s, log, keys, bound, true, i, acc);
    } else {
      EachAggressiveOn(rows, rank, failing, s, log, keys, bound, i, acc);
    }
  }

  lemma {:induction false} EachAggressiveOn(rows: Graph, rank: map<Key, nat>, failing: set<Key>, s: Slots,
                                            log: seq<Event>, keys: seq<Key>, bound: nat, i: nat, acc: seq<Failure>)
    requires RowsRanked(rows, rank) && RankedBelow(rows, rank, keys, bound)
    requires i < |keys| && AllClosingFailures(acc)
    requires CloseRun(rows, rank, failing, s, log, keys[i], true).result != Fail(NotFound)
    decreases bound, 0, |keys| - i, 0
    ensures SweptEach(s, EachRun(rows, rank, failing, s, log, keys, bound, true, i, acc),
                      Downstream(rows, rank, keys[i]) + DownstreamFrom(rows, rank, keys, i + 1), failing, acc)
  {
    var c := CloseRun(rows, rank, failing, s, log, keys[i], true);
    var acc' := if c.result.Fail? then acc + [c.result.error] else acc;
    var r := EachRun(rows, rank, failing, c.slots, c.log, keys, bound, true, i + 1, acc');
    EachGoesOn(rows, rank, failing, s, log, keys, bound, true, i, acc);
    assert EachRun(rows, rank, failing, s, log, keys, bound, true, i, acc) == r;
    CloseAggressive(rows, rank, failing, s, log, keys[i]);
    EachAggressive(rows, rank, failing, c.slots, c.log, keys, bound, i + 1, acc');
    AggressiveStep(s, c, r, acc, acc', Downstream(rows, rank, keys[i]), DownstreamFrom(rows, rank, keys, i + 1), failing);
  }

  /** A loop step whose close neither fails strictly nor misses a key goes on with the
      next key, from the state the close left and with its failure collected. */
  lemma EachGoesOn(rows: Graph, rank: map<Key, nat>, failing: set<Key>, s: Slots, log: seq<Event>,
                   keys: seq<Key>, bound: nat, aggressive: bool, i: nat, acc: seq<Failure>)
    requires RowsRanked(rows, rank) && RankedBelow(rows, rank, keys, bound)
    requires i < |keys| && AllClosingFailures(acc)
    ensures var c := CloseRun(rows, rank, failing, s, log, keys[i], aggressive);
      !(c.result.Fail? && (c.result.error.NotFound? || !aggressive)) ==>
        var acc' := if c.result.Fail? then acc + [c.result.error] else acc;
        EachRun(rows, rank, failing, s, log, keys, bound, aggressive, i, acc)
          == EachRun(rows, rank, failing, c.slots, c.log, keys, bound, aggressive, i + 1, acc')
  {}

  /** A loop step whose close misses a key, or fails in strict mode, ends the loop with
      that failure. */
  lemma EachStops(rows: Graph, rank: map<Key, nat>, failing: set<Key>, s: Slots, log: seq<Event>,
                  keys: seq<Key>, bound: nat, aggressive: bool, i: nat, acc: seq<Failure>)
    requires RowsRanked(rows, rank) && RankedBelow(rows, rank, keys, bound)
    requires i < |keys| && AllClosingFailures(acc)
    ensures var c := CloseRun(rows, rank, failing, s, log, keys[i], aggressive);
      c.result.Fail? && (c.result.error.NotFound? || !aggressive) ==>
        EachRun(rows, rank, failing, s, log, keys, bound, aggressive, i, acc)
          == Run(c.slots, c.log, Err(c.result.error))
  {}

  /** One key attempted by a nested aggressive call, followed by the rest of the loop, keeps
      the aggressive loop's promises. */
  lemma AggressiveStep(s: Slots, c: Run<Outcome<Failure>>, r: Run<Result<seq<Failure>, Failure>>,
                       acc: seq<Failure>, acc': seq<Failure>, a: set<Key>, b: set<Key>, failing: set<Key>)
    requires c.result != Fail(NotFound) && SweptClose(s, c, a, failing)
    requires acc' == if c.result.Fail? then acc + [c.result.error] else acc
    requires SweptEach(c.slots, r, b, failing, acc')
    ensures SweptEach(s, r, a + b, failing, acc)
  {
    if r.result.Ok? {
      ComposeAttempts(s, c.slots, r.slots, a, b, failing);
      if c.result.Fail? {
        AllFailedKeysAppend(acc, c.result.error);
      }
    }
  }

  // ---------------------------------------------------------------------------------------
  // Consequences for `close` and `closeAll`

  /** A close empties slots only among the keys it visits, and runs each closer only after
      the closers of the dependants in its key's row. */
  lemma CloseVisits(rows: Graph, rank: map<Key, nat>, failing: set<Key>, s: Slots, log: seq<Event>,
                    key: Key, aggressive: bool)
    requires RowsRanked(rows, rank)
    ensures var r := CloseRun(rows, rank, failing, s, log, key, aggressive);
      ClosedSoFar(s, r.slots, r.log, |log|, Downstream(rows, rank, key), failing, rows)
  {
    DownstreamClosedUnder(rows, rank, key);
    ClosePromises(rows, rank, failing, s, log, key, aggressive, Downstream(rows, rank, key));
  }

  /** When the key and every key in some row are registered, a close never reports a key
      not found. */
  lemma CloseFindsAll(rows: Graph, rank: map<Key, nat>, failing: set<Key>, s: Slots, log: seq<Event>,
                      key: Key, aggressive: bool)
    requires RowsRanked(rows, rank)
    requires key in s && Universe(rows) <= s.Keys
    ensures CloseRun(rows, rank, failing, s, log, key, aggressive).result != Fail(NotFound)
  {
    ScopeClosed(rows, [key]);
    CloseNotFound(rows, rank, failing, s, log, key, aggressive, Scope(rows, [key]));
  }

  /** `closeAll` empties slots only among the keys it visits, in dependants-first order. */
  lemma CloseAllVisits(rows: Graph, rank: map<Key, nat>, failing: set<Key>, s: Slots, log: seq<Event>,
                       keys: seq<Key>, aggressive: bool)
    requires RowsRanked(rows, rank)
    ensures var r := CloseAllRun(rows, rank, failing, s, log, keys, aggressive);
      ClosedSoFar(s, r.slots, r.log, |log|, Scope(rows, keys), failing, rows)
  {
    CeilingBounds(rows, rank, keys);
    ScopeClosed(rows, keys);
    EachPromises(rows, rank, failing, s, log, keys, Ceiling(rank), aggressive, 0, [], Scope(rows, keys));
  }

  /** When every key of the loop and every key in some row are registered, `closeAll` never
      reports a key not found. */
  lemma CloseAllFindsAll(rows: Graph, rank: map<Key, nat>, failing: set<Key>, s: Slots, log: seq<Event>,
                         keys: seq<Key>, aggressive: bool)
    requires RowsRanked(rows, rank)
    requires (forall j | 0 <= j < |keys| :: keys[j] in s) && Universe(rows) <= s.Keys
    ensures CloseAllRun(rows, rank, failing, s, log, keys, aggressive).result != Fail(NotFound)
  {
    CeilingBounds(rows, rank, keys);
    ScopeClosed(rows, keys);
    EachNotFound(rows, rank, failing, s, log, keys, Ceiling(rank), aggressive, 0, [], Scope(rows, keys));
  }

  /** Strict `closeAll`: on success every key of the loop, and everything its closes visit,
      is closed; a closing failure is the first closer that threw. */
  lemma CloseAllStrict(rows: Graph, rank: map<Key, nat>, failing: set<Key>, s: Slots, log: seq<Event>,
                       keys: seq<Key>)
    requires RowsRanked(rows, rank)
    ensures var visited := DownstreamFrom(rows, rank, keys, 0);
      (forall j | 0 <= j < |keys| :: keys[j] in visited) &&
      StrictClose(s, |log|, CloseAllRun(rows, rank, failing, s, log, keys, false), visited, failing)
  {
    CeilingBounds(rows, rank, keys);
    DownstreamFromCovers(rows, rank, keys);
    EachStrict(rows, rank, failing, s, log, keys, Ceiling(rank), 0);
  }

  /** Aggressive `closeAll` attempts every key of the loop and everything their closes
      visit, and fails exactly when one of them was open with a failing closer, reporting
      exactly those keys. */
  lemma CloseAllAggressive(rows: Graph, rank: map<Key, nat>, failing: set<Key>, s: Slots, log: seq<Event>,
                           keys: seq<Key>)
    requires RowsRanked(rows, rank)
    ensures var visited := DownstreamFrom(rows, rank, keys, 0);
      (forall j | 0 <= j < |keys| :: keys[j] in visited) &&
      SweptClose(s, CloseAllRun(rows, rank, failing, s, log, keys, true), visited, failing)
  {
    CeilingBounds(rows, rank, keys);
    DownstreamFromCovers(rows, rank, keys);
    var visited := DownstreamFrom(rows, rank, keys, 0);
    var d := EachRun(rows, rank, failing, s, log, keys, Ceiling(rank), true, 0, []);
    assert SweptEach(s, d, visited, failing, []) by {
      EachAggressive(rows, rank, failing, s, log, keys, Ceiling(rank), 0, []);
    }
    if d.result.Ok? {
      assert AllFailedKeys(d.result.value) == FailingOpen(s, visited, failing) by {
        assert AllFailedKeys([]) == {};
      }
      SomeFailedKey(d.result.value);
    }
  }
}
