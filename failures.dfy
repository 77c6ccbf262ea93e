/** The exceptions the registry throws, as one datatype, and the aggregation of closing
    failures that `throwIfAny` performs (DefaultResourceManager.java). */
module Failures {
  import opened ResourceKeys
  import opened Wrappers

  datatype Failure =
    | NotFound                                  // NoSuchElementException: key not registered
    | Duplicate                                 // DuplicateKeyException
    | Cyclic                                    // CyclicDependencyException
    | OpeningFailed(key: ResourceKey)           // the factory of `key` threw
    | ClosingFailed(key: ResourceKey, suppressed: seq<Failure>)  // the closer of `key` threw

  /** Every key whose closer failure is reported by `f`, the primary one and, recursively,
      the suppressed ones. */
  function FailedKeys(f: Failure): set<ResourceKey>
  {
    match f
    case ClosingFailed(k, sup) =>
      {k} + set i, x | 0 <= i < |sup| && x in FailedKeys(sup[i]) :: x
    case _ => {}
  }

  /** The keys reported by a list of failures. */
  function AllFailedKeys(fs: seq<Failure>): set<ResourceKey>
  {
    set i, x | 0 <= i < |fs| && x in FailedKeys(fs[i]) :: x
  }

  predicate AllClosingFailures(fs: seq<Failure>)
  {
    forall i :: 0 <= i < |fs| ==> fs[i].ClosingFailed?
  }

  /** `throwIfAny`: nothing to throw for an empty list; otherwise the last failure is thrown,
      with every earlier one appended to its suppressed list, in list order. No failure is
      dropped and the thrown one is tagged with the key of the last failure. */
  function ThrowIfAny(fs: seq<Failure>): (r: Outcome<Failure>)
    requires AllClosingFailures(fs)
    ensures r.Pass? <==> fs == []
    ensures r.Fail? ==> r.error.ClosingFailed? && r.error.key == fs[|fs| - 1].key
    ensures r.Fail? ==> FailedKeys(r.error) == AllFailedKeys(fs)
  {
    if fs == [] then Pass
    else
      var last := fs[|fs| - 1];
      var thrown := ClosingFailed(last.key, last.suppressed + fs[..|fs| - 1]);
      AggregateKeys(last, fs[..|fs| - 1]);
      assert fs == fs[..|fs| - 1] + [last];
      AllFailedKeysAppend(fs[..|fs| - 1], last);
      Fail(thrown)
  }

  /** `throwIfAny` as the source runs it: the last failure is taken off the list and each
      earlier one is added to its suppressed list in turn. */
  method RaiseIfAny(exceptions: seq<Failure>) returns (r: Outcome<Failure>)
    requires AllClosingFailures(exceptions)
    ensures r == ThrowIfAny(exceptions)
  {
    if exceptions == [] {
      return Pass;
    }
    var last := exceptions[|exceptions| - 1];
    var rest := exceptions[..|exceptions| - 1];
    var suppressed := last.suppressed;
    var i := 0;
    while i < |rest|
      invariant 0 <= i <= |rest|
      invariant suppressed == last.suppressed + rest[..i]
    {
      suppressed := suppressed + [rest[i]];
      assert rest[..i + 1] == rest[..i] + [rest[i]];
      i := i + 1;
    }
    assert rest[..i] == rest;
    r := Fail(ClosingFailed(last.key, suppressed));
  }

  /** Appending failures to the suppressed list of a closing failure adds exactly their keys. */
  lemma AggregateKeys(last: Failure, earlier: seq<Failure>)
    requires last.ClosingFailed?
    ensures FailedKeys(ClosingFailed(last.key, last.suppressed + earlier))
         == FailedKeys(last) + AllFailedKeys(earlier)
  {
    assert FailedKeys(last) == {last.key} + AllFailedKeys(last.suppressed);
    assert FailedKeys(ClosingFailed(last.key, last.suppressed + earlier))
        == {last.key} + AllFailedKeys(last.suppressed + earlier);
    AllFailedKeysConcat(last.suppressed, earlier);
  }

  lemma AllFailedKeysConcat(fs: seq<Failure>, gs: seq<Failure>)
    ensures AllFailedKeys(fs + gs) == AllFailedKeys(fs) + AllFailedKeys(gs)
  {
    var hs := fs + gs;
    forall x | x in AllFailedKeys(hs) ensures x in AllFailedKeys(fs) + AllFailedKeys(gs) {
      var i :| 0 <= i < |hs| && x in FailedKeys(hs[i]);
      if i < |fs| {
        assert hs[i] == fs[i];
      } else {
        assert hs[i] == gs[i - |fs|];
      }
    }
    forall x | x in AllFailedKeys(fs) + AllFailedKeys(gs) ensures x in AllFailedKeys(hs) {
      if x in AllFailedKeys(fs) {
        var i :| 0 <= i < |fs| && x in FailedKeys(fs[i]);
        assert hs[i] == fs[i];
      } else {
        var i :| 0 <= i < |gs| && x in FailedKeys(gs[i]);
        assert hs[|fs| + i] == gs[i];
      }
    }
  }

  lemma AllFailedKeysAppend(fs: seq<Failure>, f: Failure)
    ensures AllFailedKeys(fs + [f]) == AllFailedKeys(fs) + FailedKeys(f)
  {
    var gs := fs + [f];
    forall x | x in AllFailedKeys(gs) ensures x in AllFailedKeys(fs) + FailedKeys(f) {
      var i :| 0 <= i < |gs| && x in FailedKeys(gs[i]);
      if i < |fs| {
        assert gs[i] == fs[i];
      }
    }
    forall x | x in AllFailedKeys(fs) + FailedKeys(f) ensures x in AllFailedKeys(gs) {
      if x in AllFailedKeys(fs) {
        var i :| 0 <= i < |fs| && x in FailedKeys(fs[i]);
        assert gs[i] == fs[i];
      } else {
        assert gs[|fs|] == f;
      }
    }
  }

  /** A non-empty list of closing failures reports at least the key of its first one. */
  lemma SomeFailedKey(fs: seq<Failure>)
    requires AllClosingFailures(fs)
    ensures fs != [] ==> fs[0].key in AllFailedKeys(fs)
  {
    if fs != [] {
      assert fs[0].key in FailedKeys(fs[0]);
    }
  }
}
