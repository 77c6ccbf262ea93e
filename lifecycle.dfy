/** Resource slots, the factory and closer outcomes, and the event log of the registry:
    the vocabulary in which the contracts of DefaultResourceManager.java are stated, with
    the lemmas that compose one recursive open or close out of its nested calls. */
module Lifecycle {
  import opened Wrappers
  import opened Values
  import opened ResourceKeys
  import opened DependencyGraph

  /** The closer given at registration. `NoOpCloser` is a closer with an empty body, which
      cannot throw; the others may. */
  datatype Closer = AutoCloser | NoOpCloser | CustomCloser(id: nat)

  /** What a factory does when it is called: returns an object, returns null, or throws. */
  datatype Creation = Created(value: Value) | ReturnedNull | Threw

  /** A factory or a closer being invoked. */
  datatype Event = FactoryRan(key: Key) | CloserRan(key: Key)

  /** The resource slot of every registered key: `None` is an entry whose resource is null. */
  type Slots = map<Key, Option<Value>>

  /** The outcome of an operation on the slots: the slots and the event log after it, and
      what it returned or threw. */
  datatype Run<T> = Run(slots: Slots, log: seq<Event>, result: T)

  predicate Distinct(s: seq<Key>)
  {
    forall i, j | 0 <= i < j < |s| :: s[i] != s[j]
  }

  function Elems(s: seq<Key>): set<Key>
  {
    set x | x in s
  }

  /** `e` occurs in `log` at some position in [from, to). */
  ghost predicate Logged(log: seq<Event>, from: nat, to: nat, e: Event)
  {
    exists q :: from <= q < to && q < |log| && log[q] == e
  }

  lemma LoggedWiden(log: seq<Event>, log2: seq<Event>, from: nat, to: nat, from2: nat, to2: nat, e: Event)
    requires Logged(log, from, to, e)
    requires to <= |log| && log <= log2
    requires from2 <= from && to <= to2
    ensures Logged(log2, from2, to2, e)
  {
    var q :| from <= q < to && q < |log| && log[q] == e;
    assert log2[q] == log[q];
  }

  // ---------------------------------------------------------------------------------------
  // Opening

  /** From `s0` to `s` slots were only filled, only within `within`, and each with the
      object its factory created. */
  ghost predicate OnlyOpened(s0: Slots, s: Slots, within: set<Key>, create: Key -> Creation)
  {
    s.Keys == s0.Keys &&
    forall k | k in s ::
      s[k] == s0[k] ||
      (k in within && s0[k].None? && create(k).Created? && s[k] == Some(create(k).value))
  }

  /** Every key opened from `s0` to `s` has each declared dependency registered and, in `s`,
      open or with a factory that returned null. */
  ghost predicate NewlyOpenedReady(s0: Slots, s: Slots, deps: Graph, create: Key -> Creation)
  {
    forall k | k in s && k in s0 && k in deps && s0[k].None? && s[k].Some? ::
      forall d | d in deps[k] :: d in s && (s[d].Some? || create(d).ReturnedNull?)
  }

  /** Every key opened from `s0` to `s` had its factory run in log[start..]. */
  ghost predicate NewlyOpenedLogged(s0: Slots, s: Slots, log: seq<Event>, start: nat)
  {
    forall k | k in s && k in s0 && s0[k].None? && s[k].Some? :: Logged(log, start, |log|, FactoryRan(k))
  }

  /** Each factory run in log[start..] came after every dependency of its key was registered
      and either open in `s0` or had its own factory run, without throwing, earlier on. */
  ghost predicate FactoriesAfterDependencies(log: seq<Event>, start: nat, s0: Slots,
                                             deps: Graph, create: Key -> Creation)
  {
    forall p | start <= p < |log| && log[p].FactoryRan? && log[p].key in deps ::
      forall d | d in deps[log[p].key] ::
        d in s0 && (s0[d].Some? || (Logged(log, start, p, FactoryRan(d)) && !create(d).Threw?))
  }

  lemma OnlyOpenedTrans(s0: Slots, s1: Slots, s2: Slots, a: set<Key>, b: set<Key>, c: set<Key>, create: Key -> Creation)
    requires OnlyOpened(s0, s1, a, create) && OnlyOpened(s1, s2, b, create)
    requires a + b <= c
    ensures OnlyOpened(s0, s2, c, create)
  {
  }

  /** The facts about one finished nested open, lifted to the whole call. */
  lemma ComposeOpens(s0: Slots, s1: Slots, s2: Slots, log1: seq<Event>, log2: seq<Event>, start: nat,
                     a: set<Key>, b: set<Key>, deps: Graph, create: Key -> Creation)
    requires OnlyOpened(s0, s1, a, create) && OnlyOpened(s1, s2, b, create)
    requires NewlyOpenedReady(s0, s1, deps, create) && NewlyOpenedReady(s1, s2, deps, create)
    requires NewlyOpenedLogged(s0, s1, log1, start) && NewlyOpenedLogged(s1, s2, log2, |log1|)
    requires FactoriesAfterDependencies(log1, start, s0, deps, create)
    requires FactoriesAfterDependencies(log2, |log1|, s1, deps, create)
    requires start <= |log1| && log1 <= log2
    ensures OnlyOpened(s0, s2, a + b, create)
    ensures NewlyOpenedReady(s0, s2, deps, create)
    ensures NewlyOpenedLogged(s0, s2, log2, start)
    ensures FactoriesAfterDependencies(log2, start, s0, deps, create)
  {
    var mid := |log1|;
    forall k | k in s2 && k in s0 && k in deps && s0[k].None? && s2[k].Some?
      ensures forall d | d in deps[k] :: d in s2 && (s2[d].Some? || create(d).ReturnedNull?)
    {
      if s1[k].Some? {
        forall d | d in deps[k] ensures d in s2 && (s2[d].Some? || create(d).ReturnedNull?) {
          assert d in s1;
        }
      }
    }
    forall k | k in s2 && k in s0 && s0[k].None? && s2[k].Some?
      ensures Logged(log2, start, |log2|, FactoryRan(k))
    {
      if s1[k].Some? {
        LoggedWiden(log1, log2, start, mid, start, |log2|, FactoryRan(k));
      } else {
        LoggedWiden(log2, log2, mid, |log2|, start, |log2|, FactoryRan(k));
      }
    }
    forall p | start <= p < |log2| && log2[p].FactoryRan? && log2[p].key in deps
      ensures forall d | d in deps[log2[p].key] ::
        d in s0 && (s0[d].Some? || (Logged(log2, start, p, FactoryRan(d)) && !create(d).Threw?))
    {
      var k := log2[p].key;
      forall d | d in deps[k]
        ensures d in s0 && (s0[d].Some? || (Logged(log2, start, p, FactoryRan(d)) && !create(d).Threw?))
      {
        if p < mid {
          assert log1[p] == log2[p];
          if s0[d].None? {
            LoggedWiden(log1, log2, start, p, start, p, FactoryRan(d));
          }
        } else if s0[d].None? {
          if s1[d].Some? {
            LoggedWiden(log1, log2, start, mid, start, p, FactoryRan(d));
          } else {
            LoggedWiden(log2, log2, mid, p, start, p, FactoryRan(d));
          }
        }
      }
    }
  }

  /** The dependencies in `keys` from position `from` on are settled for the key being
      opened: each is registered, open or with a factory that returned null, and was open in
      `s0` or had its factory run, without throwing, in log[start..]. */
  ghost predicate Settled(s0: Slots, s: Slots, log: seq<Event>, start: nat, keys: seq<Key>, from: nat,
                          create: Key -> Creation)
  {
    forall j | from <= j < |keys| ::
      keys[j] in s && keys[j] in s0 && (s[keys[j]].Some? || create(keys[j]).ReturnedNull?) &&
      (s0[keys[j]].Some? || (Logged(log, start, |log|, FactoryRan(keys[j])) && !create(keys[j]).Threw?))
  }

  /** All that a recursive open promises about the slots and the log, from `s0` and log
      position `start`, with slots filled only within `within`. */
  ghost predicate OpenedSoFar(s0: Slots, s: Slots, log: seq<Event>, start: nat, within: set<Key>,
                              deps: Graph, create: Key -> Creation)
  {
    OnlyOpened(s0, s, within, create) && NewlyOpenedReady(s0, s, deps, create) &&
    NewlyOpenedLogged(s0, s, log, start) && FactoriesAfterDependencies(log, start, s0, deps, create)
  }

  /** Doing nothing keeps every promise of an open. */
  lemma OpenedNothing(s: Slots, log: seq<Event>, within: set<Key>, deps: Graph, create: Key -> Creation,
                      keys: seq<Key>)
    ensures OpenedSoFar(s, s, log, |log|, within, deps, create)
    ensures Settled(s, s, log, |log|, keys, |keys|, create)
  {
  }

  /** The dependency at position `i`, settled by a nested open, before the later ones were
      settled by the rest of the loop, is settled for the whole loop. */
  lemma SettledPrepend(s0: Slots, s1: Slots, s2: Slots, log1: seq<Event>, log2: seq<Event>, start: nat,
                       a: set<Key>, b: set<Key>, keys: seq<Key>, i: nat, create: Key -> Creation)
    requires OnlyOpened(s0, s1, a, create) && NewlyOpenedLogged(s0, s1, log1, start)
    requires OnlyOpened(s1, s2, b, create)
    requires start <= |log1| && log1 <= log2
    requires i < |keys|
    requires keys[i] in s1 && (s1[keys[i]].Some? || create(keys[i]).ReturnedNull?)
    requires s0[keys[i]].Some? || (Logged(log1, start, |log1|, FactoryRan(keys[i])) && !create(keys[i]).Threw?)
    requires Settled(s1, s2, log2, |log1|, keys, i + 1, create)
    ensures Settled(s0, s2, log2, start, keys, i, create)
  {
    forall j | i <= j < |keys|
      ensures keys[j] in s2 && keys[j] in s0 && (s2[keys[j]].Some? || create(keys[j]).ReturnedNull?) &&
              (s0[keys[j]].Some? || (Logged(log2, start, |log2|, FactoryRan(keys[j])) && !create(keys[j]).Threw?))
    {
      var x := keys[j];
      if j == i {
        if s0[x].None? {
          LoggedWiden(log1, log2, start, |log1|, start, |log2|, FactoryRan(x));
        }
      } else if s0[x].None? {
        if s1[x].Some? {
          LoggedWiden(log1, log2, start, |log1|, start, |log2|, FactoryRan(x));
        } else {
          LoggedWiden(log2, log2, |log1|, |log2|, start, |log2|, FactoryRan(x));
        }
      }
    }
  }

  /** Running the key's own factory once all of its dependencies are settled keeps the
      whole call's promises. */
  lemma OpenFinish(s0: Slots, s2: Slots, s3: Slots, log2: seq<Event>, log3: seq<Event>, start: nat,
                   key: Key, below: set<Key>, needs: set<Key>, deps: Graph, create: Key -> Creation)
    requires key in deps && key in s0 && s0[key].None? && key !in below && below + {key} <= needs
    requires OpenedSoFar(s0, s2, log2, start, below, deps, create)
    requires Settled(s0, s2, log2, start, deps[key], 0, create)
    requires start <= |log2| && log3 == log2 + [FactoryRan(key)]
    requires s3 == if create(key).Created? then s2[key := Some(create(key).value)] else s2
    ensures OpenedSoFar(s0, s3, log3, start, needs, deps, create)
    ensures Logged(log3, start, |log3|, FactoryRan(key))
  {
    assert log2 <= log3;
    assert log3[|log2|] == FactoryRan(key);
    forall k | k in s3 && k in s0 && s0[k].None? && s3[k].Some?
      ensures Logged(log3, start, |log3|, FactoryRan(k))
    {
      if k != key {
        LoggedWiden(log2, log3, start, |log2|, start, |log3|, FactoryRan(k));
      }
    }
    forall k | k in s3 && k in s0 && k in deps && s0[k].None? && s3[k].Some?
      ensures forall d | d in deps[k] :: d in s3 && (s3[d].Some? || create(d).ReturnedNull?)
    {
      if k != key {
        forall d | d in deps[k] ensures d in s3 && (s3[d].Some? || create(d).ReturnedNull?) {
          assert d in s2;
        }
      }
    }
    forall p | start <= p < |log3| && log3[p].FactoryRan? && log3[p].key in deps
      ensures forall d | d in deps[log3[p].key] ::
        d in s0 && (s0[d].Some? || (Logged(log3, start, p, FactoryRan(d)) && !create(d).Threw?))
    {
      forall d | d in deps[log3[p].key] && s0[d].None?
        ensures Logged(log3, start, p, FactoryRan(d))
      {
        if p < |log2| {
          assert log3[p] == log2[p];
          LoggedWiden(log2, log3, start, p, start, p, FactoryRan(d));
        } else {
          assert d in deps[key];
          LoggedWiden(log2, log3, start, |log2|, start, p, FactoryRan(d));
        }
      }
    }
  }

  // ---------------------------------------------------------------------------------------
  // Closing

  /** From `s0` to `s` slots were only emptied, only within `within`, and only for keys
      whose closer does not fail: a failing closer leaves its resource in place. */
  ghost predicate OnlyClosed(s0: Slots, s: Slots, within: set<Key>, failing: set<Key>)
  {
    s.Keys == s0.Keys &&
    forall k | k in s ::
      s[k] == s0[k] || (k in within && k !in failing && s0[k].Some? && s[k].None?)
  }

  /** Every key of `within` is registered and its closer was attempted: it is empty in `s`
      unless its closer fails, in which case its slot is as in `s0`. */
  ghost predicate Attempted(s0: Slots, s: Slots, within: set<Key>, failing: set<Key>)
  {
    forall k | k in within :: k in s && k in s0 && s[k] == (if k in failing then s0[k] else None)
  }

  /** The keys of `within` that are open in `s` and whose closer fails. */
  function FailingOpen(s: Slots, within: set<Key>, failing: set<Key>): set<Key>
  {
    set k | k in within && k in failing && k in s && s[k].Some?
  }

  /** Every key closed from `s0` to `s` had its closer run in log[start..]. */
  ghost predicate NewlyClosedLogged(s0: Slots, s: Slots, log: seq<Event>, start: nat)
  {
    forall k | k in s && k in s0 && s0[k].Some? && s[k].None? :: Logged(log, start, |log|, CloserRan(k))
  }

  /** Each closer run in log[start..] came after every dependant in its key's index row was
      registered and either closed in `s0` or had its own closer run earlier on. */
  ghost predicate ClosersAfterDependants(log: seq<Event>, start: nat, s0: Slots, rows: Graph)
  {
    forall p | start <= p < |log| && log[p].CloserRan? ::
      forall j | j in Row(rows, log[p].key) ::
        j in s0 && (s0[j].None? || Logged(log, start, p, CloserRan(j)))
  }

  /** The facts about one finished nested close, lifted to the whole call. */
  lemma ComposeCloses(s0: Slots, s1: Slots, s2: Slots, log1: seq<Event>, log2: seq<Event>, start: nat,
                      a: set<Key>, b: set<Key>, failing: set<Key>, rows: Graph)
    requires OnlyClosed(s0, s1, a, failing) && OnlyClosed(s1, s2, b, failing)
    requires NewlyClosedLogged(s0, s1, log1, start) && NewlyClosedLogged(s1, s2, log2, |log1|)
    requires ClosersAfterDependants(log1, start, s0, rows)
    requires ClosersAfterDependants(log2, |log1|, s1, rows)
    requires start <= |log1| && log1 <= log2
    ensures OnlyClosed(s0, s2, a + b, failing)
    ensures NewlyClosedLogged(s0, s2, log2, start)
    ensures ClosersAfterDependants(log2, start, s0, rows)
    ensures forall k | k in failing && k in s0 :: s2[k] == s0[k]
  {
    var mid := |log1|;
    forall k | k in s2 && k in s0 && s0[k].Some? && s2[k].None?
      ensures Logged(log2, start, |log2|, CloserRan(k))
    {
      if s1[k].None? {
        LoggedWiden(log1, log2, start, mid, start, |log2|, CloserRan(k));
      } else {
        LoggedWiden(log2, log2, mid, |log2|, start, |log2|, CloserRan(k));
      }
    }
    forall p | start <= p < |log2| && log2[p].CloserRan?
      ensures forall j | j in Row(rows, log2[p].key) ::
        j in s0 && (s0[j].None? || Logged(log2, start, p, CloserRan(j)))
    {
      var k := log2[p].key;
      forall j | j in Row(rows, k)
        ensures j in s0 && (s0[j].None? || Logged(log2, start, p, CloserRan(j)))
      {
        if p < mid {
          assert log1[p] == log2[p];
          if s0[j].Some? {
            LoggedWiden(log1, log2, start, p, start, p, CloserRan(j));
          }
        } else if s0[j].Some? {
          if s1[j].None? {
            LoggedWiden(log1, log2, start, mid, start, p, CloserRan(j));
          } else {
            LoggedWiden(log2, log2, mid, p, start, p, CloserRan(j));
          }
        }
      }
    }
  }

  /** A key that a nested close reports as closed, or as handled, is handled for the whole
      call. */
  lemma LiftHandled(s0: Slots, s1: Slots, log1: seq<Event>, log2: seq<Event>, start: nat, k: Key)
    requires NewlyClosedLogged(s0, s1, log1, start)
    requires s1.Keys == s0.Keys && k in s1
    requires s1[k].None? || Logged(log2, |log1|, |log2|, CloserRan(k))
    requires start <= |log1| && log1 <= log2
    requires forall x | x in s1 :: s1[x] == s0[x] || s1[x].None?
    ensures s0[k].None? || Logged(log2, start, |log2|, CloserRan(k))
  {
    if s0[k].Some? {
      if s1[k].None? {
        LoggedWiden(log1, log2, start, |log1|, start, |log2|, CloserRan(k));
      } else {
        LoggedWiden(log2, log2, |log1|, |log2|, start, |log2|, CloserRan(k));
      }
    }
  }

  /** In aggressive mode: after attempting the keys of `a` and then those of `b`, the keys
      of `a + b` are attempted, and the failing open keys are those of both parts. */
  lemma ComposeAttempts(s0: Slots, s1: Slots, s2: Slots, a: set<Key>, b: set<Key>, failing: set<Key>)
    requires OnlyClosed(s0, s1, a, failing) && OnlyClosed(s1, s2, b, failing)
    requires Attempted(s0, s1, a, failing) && Attempted(s1, s2, b, failing)
    ensures Attempted(s0, s2, a + b, failing)
    ensures FailingOpen(s1, b, failing) == FailingOpen(s0, b, failing)
    ensures FailingOpen(s0, a + b, failing) == FailingOpen(s0, a, failing) + FailingOpen(s0, b, failing)
  {
  }

  lemma OnlyClosedWeaken(s0: Slots, s: Slots, a: set<Key>, b: set<Key>, failing: set<Key>)
    requires OnlyClosed(s0, s, a, failing) && a <= b
    ensures OnlyClosed(s0, s, b, failing)
  {
  }

  /** All that a recursive close promises about the slots and the log, from `s0` and log
      position `start`, with slots emptied only within `within`. */
  ghost predicate ClosedSoFar(s0: Slots, s: Slots, log: seq<Event>, start: nat, within: set<Key>,
                              failing: set<Key>, rows: Graph)
  {
    OnlyClosed(s0, s, within, failing) && NewlyClosedLogged(s0, s, log, start) &&
    ClosersAfterDependants(log, start, s0, rows)
  }

  /** Doing nothing keeps every promise of a close. */
  lemma ClosedNothing(s: Slots, log: seq<Event>, within: set<Key>, failing: set<Key>, rows: Graph)
    ensures ClosedSoFar(s, s, log, |log|, within, failing, rows)
  {
  }

  /** `k` was closed in `s0` or had its closer run in log[start..]. */
  ghost predicate Handled(s0: Slots, log: seq<Event>, start: nat, k: Key)
  {
    k in s0 && (s0[k].None? || Logged(log, start, |log|, CloserRan(k)))
  }

  /** Running the key's own closer once every dependant in its row is handled keeps the
      whole call's promises, and handles the key. */
  lemma CloseFinish(s0: Slots, s2: Slots, s3: Slots, log2: seq<Event>, log3: seq<Event>, start: nat,
                    key: Key, within: set<Key>, failing: set<Key>, rows: Graph)
    requires key in within && key in s2
    requires ClosedSoFar(s0, s2, log2, start, within, failing, rows)
    requires start <= |log2|
    requires forall j | j in Row(rows, key) :: Handled(s0, log2, start, j)
    requires s2[key].None? ==> s3 == s2 && log3 == log2
    requires s2[key].Some? ==>
      log3 == log2 + [CloserRan(key)] && s3 == (if key in failing then s2 else s2[key := None])
    ensures ClosedSoFar(s0, s3, log3, start, within, failing, rows)
    ensures Handled(s0, log3, start, key)
  {
    if s2[key].Some? {
      assert log2 <= log3;
      assert log3[|log2|] == CloserRan(key);
      forall k | k in s3 && k in s0 && s0[k].Some? && s3[k].None?
        ensures Logged(log3, start, |log3|, CloserRan(k))
      {
        if k != key {
          LoggedWiden(log2, log3, start, |log2|, start, |log3|, CloserRan(k));
        }
      }
      forall p | start <= p < |log3| && log3[p].CloserRan?
        ensures forall j | j in Row(rows, log3[p].key) ::
          j in s0 && (s0[j].None? || Logged(log3, start, p, CloserRan(j)))
      {
        forall j | j in Row(rows, log3[p].key) && s0[j].Some?
          ensures Logged(log3, start, p, CloserRan(j))
        {
          if p < |log2| {
            assert log3[p] == log2[p];
            LoggedWiden(log2, log3, start, p, start, p, CloserRan(j));
          } else {
            assert log3[p].key == key;
            LoggedWiden(log2, log3, start, |log2|, start, p, CloserRan(j));
          }
        }
      }
      if s0[key].Some? {
        assert Logged(log3, start, |log3|, CloserRan(key)) by {
          assert log3[|log2|] == CloserRan(key);
        }
      }
    } else if s0[key].Some? {
      assert Logged(log2, start, |log2|, CloserRan(key));
    }
  }
}
