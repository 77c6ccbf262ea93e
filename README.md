# resource-manager, modelled in Dafny

This project models the core of the Java library `resource-manager`
(package `hu.webarticum.resourcemanager`): a registry of lazily opened resources with
declared dependencies, and the properties-based configuration layer that feeds it.

- **Registry** (`DefaultResourceManager`, class `Registry.DefaultResourceManager`). Its
  state is the key order of `entries` (`order`), each entry's dependency list (`deps`),
  closer (`closer`) and resource slot (`slot`), and the reverse index of dependants
  (`index`). A ghost event log records every factory and closer invocation. Methods
  change these fields in place: `register`, recursive `open` (dependencies first),
  recursive `close` (dependants first, strict or aggressive), `closeAll`, `remove`
  (optionally with the transitive dependants found by a breadth-first walk), `clear`,
  and the queries. Each recursive operation is specified by a ghost function from the
  slots and log before the call to the slots, log and outcome after it. Examples are
  `Opening.OpenRun` and `Closing.CloseRun`. The methods are proved equal to these
  functions. The lemmas of modules `Opening` and `Closing` then prove what the
  operations promise:
  - opening fills only the slots of the key's transitive dependencies, each after its
    own dependencies;
  - a strict close either closes the key and every transitive dependant, or stops at
    the first closer that threw;
  - an aggressive close attempts every visited key, and reports exactly the failing
    ones through the suppressed list of the thrown failure;
  - a close runs each closer only after the closers of the dependants in that key's
    index row.
- **Keys** (`ResourceKey`, module `ResourceKeys`). A key is a name and a type tag, with
  structural equality, Java's 32-bit `hashCode` (over the name's UTF-16 code units,
  wrapping around) and `toString`.
- **Failures** (module `Failures`). One datatype covers the exceptions: not found,
  duplicate key, cyclic dependency, opening failed (with its key) and closing failed
  (with its key and suppressed failures).
- **Configuration** (`PropertiesConfigLoader`, class
  `ConfigLoader.PropertiesConfigLoader`). It registers one entry per item definition.
  It merges the maps of its suppliers, extracts the items and validates them. On each
  later reload it closes, with a strict `close`, every item whose value changed. Items
  are either simple (`SimpleConfigItemDefinition`: one property through a parser) or
  sub-property maps (`SubPropertiesConfigItemDefinition`: the properties under a
  prefix). These are modelled in module `ConfigItems`, with `BooleanValueParser` in
  `BooleanParser` and `PropertiesUtil.buildFrom` in `PropertiesUtil`.

Factories and closers are oracles. A factory is `create: Key -> Creation`: it returns an
object, returns null, or throws. `closeFails` is the set of keys whose closer throws,
and a no-op closer never throws. Open and close take a ghost `rank` that ranks the
dependency lists or the index rows. Such a rank exists exactly when the graph has no
cycle.

Where the library's documentation and its code disagree, the model follows the code:

- `checkCycle` looks up the entry of the key being registered instead of each
  dependency's. That key is not registered yet, so only a key listed among its own
  dependencies is rejected. A cycle can still be closed through a forward-declared
  dependency. `Registry.DefaultResourceManager.CheckCycle` states this exact condition,
  and the recursive operations therefore need the `rank` precondition.
- `open` returns null when the key's factory returns null, although the interface says
  it never does. `Opening.FetchRun` leaves the slot empty and returns `None`.
- `remove` reads the slot after closing it, so it returns null whenever it succeeds.
- `remove` deletes only the removed keys' own index rows. The removed keys stay in the
  rows of their dependencies, and a later close of such a dependency reports a missing
  key. `Closing.CloseNotFound` states when that failure happens.

## Model

| member | source | states |
|---|---|---|
| ResourceKeys.Equals | src/main/java/hu/webarticum/resourcemanager/resource/ResourceKey.java:62-68 | keys are `equals` exactly when name and type tag agree, which is structural equality; the same name with different types gives distinct keys |
| ResourceKeys.HashCodeSameName | src/main/java/hu/webarticum/resourcemanager/resource/ResourceKey.java:76-78 | for keys with the same name, `hashCode` agrees exactly when the types' class hashes agree as 32-bit values, so the name's part of the wrapped sum cancels |
| ResourceKeys.HashCollision | src/main/java/hu/webarticum/resourcemanager/resource/ResourceKey.java:62-78 | the hash does not determine the key: names "Aa" and "BB" of one type give keys that are not `equals` but have the same `hashCode` |
| ResourceKeys.SupplementaryHash | src/main/java/hu/webarticum/resourcemanager/resource/ResourceKey.java:77 | the name's hash is taken over UTF-16 code units, so U+1F600 counts as the surrogates 0xD83D and 0xDE00 |
| ResourceKeys.ToStringLayout | src/main/java/hu/webarticum/resourcemanager/resource/ResourceKey.java:88-90 | `toString` is the name, a colon, then the type's name, and nothing else |
| ResourceKeys.ToStringDeterminesParts | src/main/java/hu/webarticum/resourcemanager/resource/ResourceKey.java:88-90 | for names without a colon, equal display forms mean equal names and equal type names |
| Failures.ThrowIfAny | src/main/java/hu/webarticum/resourcemanager/resource/DefaultResourceManager.java:166-174 | an empty list throws nothing; otherwise the thrown failure carries the last failure's key, and it reports exactly the keys of every listed failure, so none is dropped |
| Failures.RaiseIfAny | src/main/java/hu/webarticum/resourcemanager/resource/DefaultResourceManager.java:166-174 | the loop that takes the last failure off and adds the earlier ones as suppressed computes `ThrowIfAny` |
| Failures.AggregateKeys | src/main/java/hu/webarticum/resourcemanager/resource/DefaultResourceManager.java:169-171 | adding failures to the suppressed list adds exactly their keys to what the thrown failure reports |
| Registry.AddOrThrow | src/main/java/hu/webarticum/resourcemanager/resource/DefaultResourceManager.java:154-164 | in aggressive mode the failure is appended after the earlier ones, which are kept; otherwise it is rethrown at once and the list is unchanged |
| Registry.Collect | src/main/java/hu/webarticum/resourcemanager/resource/DefaultResourceManager.java:121-127 | only a closing failure is caught: a missing key always ends the loop, and a closing failure ends it exactly in strict mode; otherwise the failure is collected in order |
| Registry.IndexedKeys | src/main/java/hu/webarticum/resourcemanager/resource/DefaultResourceManager.java:67-69 | registration creates the missing index row of every declared dependency, registered or not, and no other row |
| Registry.IndexedRow | src/main/java/hu/webarticum/resourcemanager/resource/DefaultResourceManager.java:67-69 | each dependency's row gains the new key once, at its end, unless the key is already there; every other row is unchanged |
| Registry.IndexedDistinct | src/main/java/hu/webarticum/resourcemanager/resource/DefaultResourceManager.java:68 | index rows never repeat a key, as the source's hash sets do not |
| Registry.WithoutKeeps | src/main/java/hu/webarticum/resourcemanager/resource/DefaultResourceManager.java:190-194 | deleting keys from the insertion order keeps exactly the other keys, without repeats |
| Registry.WithoutTwice | src/main/java/hu/webarticum/resourcemanager/resource/DefaultResourceManager.java:188-195 | deleting one set of keys and then another deletes their union |
| Registry.AddAll | src/main/java/hu/webarticum/resourcemanager/resource/DefaultResourceManager.java:211 | appending a set of new keys to a repetition-free list gives a repetition-free list of both |
| Registry.FilterMembers | src/main/java/hu/webarticum/resourcemanager/resource/DefaultResourceManager.java:253-273 | the open (or closed) keys of a list are exactly its keys whose slot is open (or empty) |
| Registry.FilterSplits | src/main/java/hu/webarticum/resourcemanager/resource/DefaultResourceManager.java:242-273 | every listed key is counted either as open or as closed, never both |
| Registry.FilterDistinct | src/main/java/hu/webarticum/resourcemanager/resource/DefaultResourceManager.java:253-273 | filtering a repetition-free list gives a repetition-free list |
| Registry.DefaultResourceManager.constructor | src/main/java/hu/webarticum/resourcemanager/resource/DefaultResourceManager.java:31-42 | a new manager has no entries, no index rows and an empty log |
| Registry.DefaultResourceManager.Failing | src/main/java/hu/webarticum/resourcemanager/resource/DefaultResourceManager.java:341-347 | a closer throws exactly for the keys in `closeFails` that are registered with a closer other than the no-op one |
| Registry.DefaultResourceManager.CheckCycle | src/main/java/hu/webarticum/resourcemanager/resource/DefaultResourceManager.java:283-301 | as written, a cycle is reported exactly when the key is among its dependencies, or when the key is already registered with itself among its own dependencies |
| Registry.DefaultResourceManager.Register | src/main/java/hu/webarticum/resourcemanager/resource/DefaultResourceManager.java:56-70 | a registered key fails as a duplicate before any other check; then a key among its own dependencies fails as cyclic; a refused registration changes nothing; a successful one appends the key, unopened, to the order and indexes it under every dependency |
| Registry.DefaultResourceManager.AddDependant | src/main/java/hu/webarticum/resourcemanager/resource/DefaultResourceManager.java:67-69 | the loop over the dependencies builds the index that `Indexed` describes and keeps rows free of repeats |
| Registry.DefaultResourceManager.RegisterWithAutoCloser | src/main/java/hu/webarticum/resourcemanager/resource/ResourceManager.java:65-71 | the overloads without a closer register with the auto-closing closer, with the same outcomes as `register` |
| Registry.DefaultResourceManager.EntryGet | src/main/java/hu/webarticum/resourcemanager/resource/DefaultResourceManager.java:330-339 | `Entry.get` does what `Opening.FetchRun` describes: the factory runs only for an empty slot, its object is stored, a null leaves the slot empty, and a throw is an opening failure of the key |
| Registry.DefaultResourceManager.Open | src/main/java/hu/webarticum/resourcemanager/resource/DefaultResourceManager.java:101-111 | `open` changes the slots and the log and returns exactly as `Opening.OpenRun` describes, and keeps `Valid()`: the key order lists each entry once, every entry has a dependency list, a closer and a slot, and index rows do not repeat keys |
| Registry.DefaultResourceManager.OpenDependencies | src/main/java/hu/webarticum/resourcemanager/resource/DefaultResourceManager.java:107-109 | the loop opens the declared dependencies in order and stops at the first failure, as `Opening.DepsRun` describes |
| Registry.DefaultResourceManager.OpenStep | src/main/java/hu/webarticum/resourcemanager/resource/DefaultResourceManager.java:108 | one nested open of a dependency either ends the loop with its failure or leaves the rest of the loop to do |
| Registry.DefaultResourceManager.EntryClose | src/main/java/hu/webarticum/resourcemanager/resource/DefaultResourceManager.java:341-350 | `Entry.close` does what `Closing.ReleaseRun` describes: an empty slot is left alone, a throwing closer leaves the slot occupied and reports the key, otherwise the slot is emptied |
| Registry.DefaultResourceManager.CloseStep | src/main/java/hu/webarticum/resourcemanager/resource/DefaultResourceManager.java:121-126 | one nested close of a dependant followed by `addOrThrow` either ends the loop with a failure or leaves the rest of the loop to do |
| Registry.DefaultResourceManager.CloseEach | src/main/java/hu/webarticum/resourcemanager/resource/DefaultResourceManager.java:120-127 | the loop over a list of keys closes each in turn and collects or rethrows failures as `Closing.EachRun` describes |
| Registry.DefaultResourceManager.CloseOwn | src/main/java/hu/webarticum/resourcemanager/resource/DefaultResourceManager.java:128-133 | after the loop, a missing key is reported; otherwise the key's own entry is closed, its failure goes through `addOrThrow`, and the collected failures through `throwIfAny` |
| Registry.DefaultResourceManager.Close | src/main/java/hu/webarticum/resourcemanager/resource/DefaultResourceManager.java:118-134 | `close(key, aggressive)` changes the slots and the log and returns exactly as `Closing.CloseRun` describes |
| Registry.DefaultResourceManager.CloseAll | src/main/java/hu/webarticum/resourcemanager/resource/DefaultResourceManager.java:141-152 | `closeAll(aggressive)` closes every registered key in insertion order, as `Closing.CloseAllRun` describes |
| Registry.DefaultResourceManager.CloseStrict | src/main/java/hu/webarticum/resourcemanager/resource/ResourceManager.java:141-154 | a one-argument `close` that returns normally leaves the key and every transitive dependant registered and closed; a closing failure names a visited key whose closer throws, and that key's slot is still open |
| Registry.DefaultResourceManager.CloseAllStrict | src/main/java/hu/webarticum/resourcemanager/resource/ResourceManager.java:172-179 | a one-argument `closeAll` that returns normally leaves every registered key closed |
| Registry.DefaultResourceManager.Clear | src/main/java/hu/webarticum/resourcemanager/resource/DefaultResourceManager.java:200-205 | `clear` is a strict `closeAll`; if it throws, every entry and index row is kept; otherwise every key was closed and the manager is empty |
| Registry.DefaultResourceManager.Forget | src/main/java/hu/webarticum/resourcemanager/resource/DefaultResourceManager.java:203-204 | emptying the entries and the index leaves an empty, consistent manager |
| Registry.DefaultResourceManager.DependantsOf | src/main/java/hu/webarticum/resourcemanager/resource/DefaultResourceManager.java:213-215 | the inner loop gathers exactly the keys one index step from the current keys |
| Registry.DefaultResourceManager.DependantsRound | src/main/java/hu/webarticum/resourcemanager/resource/DefaultResourceManager.java:211-217 | a round appends the current keys without repeats, and the next round holds the keys one step further that were not seen |
| Registry.DefaultResourceManager.GetAllDependants | src/main/java/hu/webarticum/resourcemanager/resource/DefaultResourceManager.java:207-220 | the breadth-first walk terminates and lists every transitive dependant of the key exactly once |
| Registry.DefaultResourceManager.Remove | src/main/java/hu/webarticum/resourcemanager/resource/DefaultResourceManager.java:181-198 | a strict close comes first; if it fails, nothing is removed and the resources are kept; otherwise null is returned, and the key is deleted with its index row, together with every transitive dependant when asked, all of them closed; other rows are left alone |
| Registry.DefaultResourceManager.Delete | src/main/java/hu/webarticum/resourcemanager/resource/DefaultResourceManager.java:187-195 | with `removeDependants` the transitive dependants are deleted and then the key; without it only the key |
| Registry.DefaultResourceManager.Unregister | src/main/java/hu/webarticum/resourcemanager/resource/DefaultResourceManager.java:194-195 | one key's entry and its own index row are deleted and nothing else changes |
| Registry.DefaultResourceManager.RemoveEach | src/main/java/hu/webarticum/resourcemanager/resource/DefaultResourceManager.java:188-192 | the loop deletes exactly the listed keys, their entries and their own index rows |
| Registry.DefaultResourceManager.RemoveKeepingDependants | src/main/java/hu/webarticum/resourcemanager/resource/ResourceManager.java:191-205 | the one-argument `remove` deletes only the key, and its dependants stay registered |
| Registry.DefaultResourceManager.Size | src/main/java/hu/webarticum/resourcemanager/resource/DefaultResourceManager.java:77-80 | `size` is the number of registered keys |
| Registry.DefaultResourceManager.IsEmpty | src/main/java/hu/webarticum/resourcemanager/resource/DefaultResourceManager.java:72-75 | `isEmpty` holds exactly when `size` is 0, that is when nothing is registered |
| Registry.DefaultResourceManager.KeySet | src/main/java/hu/webarticum/resourcemanager/resource/DefaultResourceManager.java:82-85 | `keySet` is the registered keys in insertion order, each once, and has `size` elements |
| Registry.DefaultResourceManager.ContainsKey | src/main/java/hu/webarticum/resourcemanager/resource/DefaultResourceManager.java:87-90 | `containsKey` holds exactly for the keys of `keySet` |
| Registry.DefaultResourceManager.KeySetPartition | src/main/java/hu/webarticum/resourcemanager/resource/ResourceManager.java:253-265 | the open and the closed keys split `keySet`: each registered key is in exactly one, neither repeats a key, and their sizes add up to `size` |
| Registry.DefaultResourceManager.Get | src/main/java/hu/webarticum/resourcemanager/resource/DefaultResourceManager.java:92-99 | `get` never fails; it returns a resource exactly for the open keys, and null for unregistered or unopened ones |
| Registry.DefaultResourceManager.IsOpen | src/main/java/hu/webarticum/resourcemanager/resource/DefaultResourceManager.java:227-230 | `isOpen` fails with a missing key exactly for an unregistered key; otherwise it holds exactly for open keys |
| Registry.DefaultResourceManager.OpenKeySet | src/main/java/hu/webarticum/resourcemanager/resource/DefaultResourceManager.java:253-262 | `openKeySet` returns the open keys in insertion order |
| Registry.DefaultResourceManager.ClosedKeySet | src/main/java/hu/webarticum/resourcemanager/resource/DefaultResourceManager.java:264-273 | `closedKeySet` returns the closed keys in insertion order |
| Registry.DefaultResourceManager.CountOpen | src/main/java/hu/webarticum/resourcemanager/resource/DefaultResourceManager.java:242-251 | `countOpen` is the number of open keys, at most `size` |
| Registry.DefaultResourceManager.HasOpen | src/main/java/hu/webarticum/resourcemanager/resource/DefaultResourceManager.java:232-240 | `hasOpen` holds exactly when some key is open |
| Opening.FetchRun | src/main/java/hu/webarticum/resourcemanager/resource/DefaultResourceManager.java:330-339 | `Entry.get` returns the key's slot after the call; a throwing factory is an opening failure of that key and leaves its slot empty |
| Opening.OpenRun | src/main/java/hu/webarticum/resourcemanager/resource/DefaultResourceManager.java:101-111 | `open` keeps the set of slots and only extends the log |
| Opening.DepsRun | src/main/java/hu/webarticum/resourcemanager/resource/DefaultResourceManager.java:107-109 | the dependency loop keeps the set of slots and only extends the log |
| Opening.DepsGoesOn | src/main/java/hu/webarticum/resourcemanager/resource/DefaultResourceManager.java:107-109 | a turn of the dependency loop ends it with the nested open's failure or goes on from the state that open left |
| Opening.OpenPromises | src/main/java/hu/webarticum/resourcemanager/resource/DefaultResourceManager.java:101-111 | an open fills slots only within any dependency-closed set holding the key, each with what its factory created, after its factory ran and once its dependencies are ready; success returns the key's slot; failure leaves the key closed |
| Opening.DepsPromises | src/main/java/hu/webarticum/resourcemanager/resource/DefaultResourceManager.java:107-109 | the dependency loop keeps those promises and, on success, leaves every dependency registered and open, or with a factory that returned null |
| Opening.OpenFailures | src/main/java/hu/webarticum/resourcemanager/resource/ResourceManager.java:128-139 | an open fails only with a missing key, when some visited key is unregistered, or with an opening failure naming a visited key whose factory threw and whose slot is empty |
| Opening.DepsFailures | src/main/java/hu/webarticum/resourcemanager/resource/DefaultResourceManager.java:107-109 | the dependency loop fails only in those two ways |
| Opening.OpenStaysWithinNeeds | src/main/java/hu/webarticum/resourcemanager/resource/DefaultResourceManager.java:101-111 | an open fills slots only among the key and its transitive dependencies, and a failure names one of them |
| Opening.OpenKeepsConsistent | src/main/java/hu/webarticum/resourcemanager/resource/ResourceManager.java:8-12 | if every open key has each dependency registered and open (or with a factory that returned null) before an open, the same holds after it |
| Opening.ConsistentNeedsOpen | src/main/java/hu/webarticum/resourcemanager/resource/ResourceManager.java:128-139 | with factories that never return null, an open key of consistent slots has its whole transitive dependency tree registered and open |
| Closing.ReleaseRun | src/main/java/hu/webarticum/resourcemanager/resource/DefaultResourceManager.java:341-350 | `Entry.close` fails only for an open key whose closer throws, with no slot changed and nothing suppressed |
| Closing.CloseRun | src/main/java/hu/webarticum/resourcemanager/resource/DefaultResourceManager.java:118-134 | `close` keeps the set of slots, only extends the log, fails only with a missing key or a closing failure, and succeeds only for a registered key |
| Closing.Finish | src/main/java/hu/webarticum/resourcemanager/resource/DefaultResourceManager.java:128-133 | the end of `close` succeeds only for a registered key and fails only with a missing key or a closing failure |
| Closing.EachRun | src/main/java/hu/webarticum/resourcemanager/resource/DefaultResourceManager.java:120-127 | the loop collects only closing failures, and stops only with a missing key or, in strict mode, a closing failure |
| Closing.CloseAllRun | src/main/java/hu/webarticum/resourcemanager/resource/DefaultResourceManager.java:141-152 | `closeAll` keeps the set of slots and fails only with a missing key or a closing failure |
| Closing.EachGoesOn | src/main/java/hu/webarticum/resourcemanager/resource/DefaultResourceManager.java:121-126 | a close that neither misses a key nor fails strictly lets the loop go on from the state it left, with its failure collected |
| Closing.EachStops | src/main/java/hu/webarticum/resourcemanager/resource/DefaultResourceManager.java:121-126 | a close that misses a key, or fails in strict mode, ends the loop with that failure |
| Closing.ClosePromises | src/main/java/hu/webarticum/resourcemanager/resource/DefaultResourceManager.java:118-134 | a close empties slots only within any row-closed set holding the key, never one whose closer throws, and each only after its closer ran once every dependant in its row was handled |
| Closing.EachPromises | src/main/java/hu/webarticum/resourcemanager/resource/DefaultResourceManager.java:120-127 | the loop keeps those promises and, on success, handles each of its keys |
| Closing.EachStep | src/main/java/hu/webarticum/resourcemanager/resource/DefaultResourceManager.java:120-127 | one nested close followed by the rest of the loop keeps the loop's promises |
| Closing.CloseNotFound | src/main/java/hu/webarticum/resourcemanager/resource/DefaultResourceManager.java:275-280 | a close reports a missing key only when some key it visits is unregistered |
| Closing.EachNotFound | src/main/java/hu/webarticum/resourcemanager/resource/DefaultResourceManager.java:120-127 | the loop reports a missing key only in that case |
| Closing.CloseStrict | src/main/java/hu/webarticum/resourcemanager/resource/DefaultResourceManager.java:119-134 | a strict close that succeeds leaves every visited key closed; a strict failure is the first closer that threw among the visited keys, whose slot is still open |
| Closing.StrictFinish | src/main/java/hu/webarticum/resourcemanager/resource/DefaultResourceManager.java:128-133 | closing the key's own entry after a strict loop keeps the strict promises |
| Closing.EachStrict | src/main/java/hu/webarticum/resourcemanager/resource/DefaultResourceManager.java:120-127 | a strict loop keeps the strict promises over everything its closes visit |
| Closing.CloseAggressive | src/main/java/hu/webarticum/resourcemanager/resource/DefaultResourceManager.java:119-134 | an aggressive close that finds every key attempts each visited key; it fails exactly when some visited key was open with a throwing closer, and the failure reports exactly those keys |
| Closing.ReleaseAttempt | src/main/java/hu/webarticum/resourcemanager/resource/DefaultResourceManager.java:128-133 | after the loop, the failures collected plus the key's own closer failure report exactly the visited keys that were open with a throwing closer |
| Closing.EachAggressive | src/main/java/hu/webarticum/resourcemanager/resource/DefaultResourceManager.java:120-127 | an aggressive loop attempts every key its closes visit and collects exactly their failures |
| Closing.CloseVisits | src/main/java/hu/webarticum/resourcemanager/resource/ResourceManager.java:8-12 | a close empties slots only among the key and its transitive dependants, dependants first |
| Closing.CloseFindsAll | src/main/java/hu/webarticum/resourcemanager/resource/DefaultResourceManager.java:129 | when every key in the index is registered, a close of a registered key never reports a missing key |
| Closing.CloseAllVisits | src/main/java/hu/webarticum/resourcemanager/resource/DefaultResourceManager.java:141-152 | `closeAll` empties slots only among the keys it visits, dependants first |
| Closing.CloseAllFindsAll | src/main/java/hu/webarticum/resourcemanager/resource/DefaultResourceManager.java:141-152 | `closeAll` never reports a missing key when every key it visits is registered |
| Closing.CloseAllStrict | src/main/java/hu/webarticum/resourcemanager/resource/ResourceManager.java:172-179 | a strict `closeAll` that succeeds leaves every key closed; its failure is the first closer that threw |
| Closing.CloseAllAggressive | src/main/java/hu/webarticum/resourcemanager/resource/ResourceManager.java:181-189 | an aggressive `closeAll` attempts every key and fails exactly when one was open with a throwing closer, reporting exactly those keys |
| DependencyGraph.WalkShrinks | src/main/java/hu/webarticum/resourcemanager/resource/DefaultResourceManager.java:210-218 | each round of the breadth-first walk leaves fewer unseen keys, so the walk ends |
| DependencyGraph.WalkReaches | src/main/java/hu/webarticum/resourcemanager/resource/DefaultResourceManager.java:207-220 | the breadth-first walk from a key's index row ends with exactly its transitive dependants |
| DependencyGraph.DownstreamClosedUnder | src/main/java/hu/webarticum/resourcemanager/resource/DefaultResourceManager.java:119-127 | the keys a recursive close visits include the key and are closed under the index rows |
| DependencyGraph.ReachInDownstream | src/main/java/hu/webarticum/resourcemanager/resource/DefaultResourceManager.java:119-127 | every transitive dependant is visited by the recursive close |
| DependencyGraph.DownstreamLeast | src/main/java/hu/webarticum/resourcemanager/resource/DefaultResourceManager.java:119-127 | every set closed under the index rows that holds the key holds every visited key |
| DependencyGraph.NeedsClosed | src/main/java/hu/webarticum/resourcemanager/resource/DefaultResourceManager.java:102-110 | the keys a recursive open visits include the key and are closed under the dependency lists |
| DependencyGraph.NeedsLeast | src/main/java/hu/webarticum/resourcemanager/resource/DefaultResourceManager.java:102-110 | every dependency-closed set that holds the key holds every visited key |
| DependencyGraph.DownstreamSplit | src/main/java/hu/webarticum/resourcemanager/resource/DefaultResourceManager.java:119-134 | a close visits the key and what the closes of its row visit, and the key is not among the latter |
| PropertiesUtil.BuildFrom | src/main/java/hu/webarticum/resourcemanager/common/PropertiesUtil.java:82-92 | `buildFrom` puts floor(n / 2) pairs into fresh properties, in order |
| PropertiesUtil.PairsKeys | src/main/java/hu/webarticum/resourcemanager/common/PropertiesUtil.java:85-89 | the keys are exactly the arguments at even positions that belong to a pair |
| PropertiesUtil.PairsLastWins | src/main/java/hu/webarticum/resourcemanager/common/PropertiesUtil.java:89 | a key keeps the value of its last pair |
| PropertiesUtil.PairsPrefix | src/main/java/hu/webarticum/resourcemanager/common/PropertiesUtil.java:84 | only the paired arguments matter |
| PropertiesUtil.TrailingArgumentIgnored | src/main/java/hu/webarticum/resourcemanager/common/PropertiesUtil.java:84 | a trailing unpaired argument is ignored |
| PropertiesUtil.NoPairs | src/main/java/hu/webarticum/resourcemanager/common/PropertiesUtil.java:82-92 | fewer than two arguments give empty properties |
| BooleanParser.MatchesTrue | src/main/java/hu/webarticum/resourcemanager/config/BooleanValueParser.java:15-16 | the true pattern matches exactly the values whose lower-case form is "true", "1", "yes" or "on" |
| BooleanParser.MatchesFalse | src/main/java/hu/webarticum/resourcemanager/config/BooleanValueParser.java:18-19 | the false pattern matches exactly the values whose lower-case form is "", "false", "0", "no" or "off" |
| BooleanParser.ParseWords | src/main/java/hu/webarticum/resourcemanager/config/BooleanValueParser.java:23-32 | `parse` gives true, false or an IllegalArgumentException, each exactly for its own set of words in any ASCII letter case |
| BooleanParser.PatternsDisjoint | src/main/java/hu/webarticum/resourcemanager/config/BooleanValueParser.java:15-19 | no value matches both patterns, so trying the true pattern first decides nothing |
| BooleanParser.ParseIgnoresCase | src/main/java/hu/webarticum/resourcemanager/config/BooleanValueParser.java:15-19 | the result does not depend on the case of ASCII letters |
| BooleanParser.ExtraCharactersRejected | src/main/java/hu/webarticum/resourcemanager/config/BooleanValueParser.java:24-26 | the whole value must match: "on " and "yess" are rejected |
| BooleanParser.MixedCaseAccepted | src/main/java/hu/webarticum/resourcemanager/config/BooleanValueParser.java:24-27 | "On" parses to true and "NO" to false |
| ConfigItems.BooleanValue | src/main/java/hu/webarticum/resourcemanager/config/BooleanValueParser.java:23-32 | the boolean value parser gives a boolean value exactly when `parse` succeeds, and an IllegalArgumentException otherwise |
| ConfigItems.SimpleOutcome | src/main/java/hu/webarticum/resourcemanager/config/SimpleConfigItemDefinition.java:34-43 | a missing property is an IllegalArgumentException whatever the parser does; a present one gives exactly the parser's result for its value, exception included |
| ConfigItems.SimpleReadsOneProperty | src/main/java/hu/webarticum/resourcemanager/config/SimpleConfigItemDefinition.java:35 | properties that agree on the one named property give the same result |
| ConfigItems.StrippedMembers | src/main/java/hu/webarticum/resourcemanager/config/SubPropertiesConfigItemDefinition.java:37-38 | a sub-name is produced exactly when the prefix followed by it is a property name; the test is case-sensitive |
| ConfigItems.SubPropertiesOf | src/main/java/hu/webarticum/resourcemanager/config/SubPropertiesConfigItemDefinition.java:33-43 | the result holds every property under the prefix, with the prefix cut off and the value unchanged, and nothing else |
| ConfigItems.ExtractSubProperties | src/main/java/hu/webarticum/resourcemanager/config/SubPropertiesConfigItemDefinition.java:33-43 | the loop over the entries builds exactly that map |
| ConfigItems.StrippedCard | src/main/java/hu/webarticum/resourcemanager/config/SubPropertiesConfigItemDefinition.java:37-38 | stripping a common prefix loses no name |
| ConfigItems.SubPropertiesCount | src/main/java/hu/webarticum/resourcemanager/config/SubPropertiesConfigItemDefinition.java:35-41 | the result has one entry per property name starting with the prefix |
| ConfigItems.SubPropertiesEdges | src/main/java/hu/webarticum/resourcemanager/config/SubPropertiesConfigItemDefinition.java:38 | a property named exactly as the prefix appears under the empty name; with no match the result is empty |
| ConfigItems.ExtractValue | src/main/java/hu/webarticum/resourcemanager/config/PropertiesConfigItemDefinition.java:28 | a sub-properties item never throws; a simple item behaves as `SimpleOutcome` states |
| ConfigItems.Extract | src/main/java/hu/webarticum/resourcemanager/config/PropertiesConfigItemDefinition.java:28 | the dispatch to the definition's own kind computes `ExtractValue` |
| ConfigExceptions.Wrap | src/main/java/hu/webarticum/resourcemanager/config/PropertiesConfigLoader.java:104-112 | an IllegalArgumentException or an IOException passes through unchanged, and anything else becomes an IOException |
| ConfigLoader.NonNull | src/main/java/hu/webarticum/resourcemanager/config/PropertiesConfigLoader.java:126-131 | entries with a null value are skipped and the others kept with their value |
| ConfigLoader.MergedFails | src/main/java/hu/webarticum/resourcemanager/config/PropertiesConfigLoader.java:123-135 | merging fails exactly when some supplier throws, with the exception of the first one that does |
| ConfigLoader.MergedNames | src/main/java/hu/webarticum/resourcemanager/config/PropertiesConfigLoader.java:125-132 | a merged property is exactly a name some supplier gave a non-null value |
| ConfigLoader.MergedLaterWins | src/main/java/hu/webarticum/resourcemanager/config/PropertiesConfigLoader.java:130 | a merged property has the value of the last supplier that gave it a non-null value |
| ConfigLoader.MergedStaysFailed | src/main/java/hu/webarticum/resourcemanager/config/PropertiesConfigLoader.java:125-126 | a throwing supplier ends the merge whatever later suppliers give |
| ConfigLoader.PutAll | src/main/java/hu/webarticum/resourcemanager/config/PropertiesConfigLoader.java:126-132 | the inner loop overrides the earlier properties with the non-null entries of one supplier |
| ConfigLoader.LoadProperties | src/main/java/hu/webarticum/resourcemanager/config/PropertiesConfigLoader.java:123-135 | `loadProperties` computes the merge |
| ConfigLoader.ExtractedFails | src/main/java/hu/webarticum/resourcemanager/config/PropertiesConfigLoader.java:114-121 | extraction fails exactly when some definition throws, with the first exception |
| ConfigLoader.ExtractedKeys | src/main/java/hu/webarticum/resourcemanager/config/PropertiesConfigLoader.java:117-119 | a successful load holds an item for exactly the defined keys |
| ConfigLoader.ExtractedLastWins | src/main/java/hu/webarticum/resourcemanager/config/PropertiesConfigLoader.java:118 | a key's item comes from the last definition of that key |
| ConfigLoader.ExtractedStaysFailed | src/main/java/hu/webarticum/resourcemanager/config/PropertiesConfigLoader.java:117-118 | a throwing definition ends the load whatever later definitions give |
| ConfigLoader.LoadRun | src/main/java/hu/webarticum/resourcemanager/config/PropertiesConfigLoader.java:104-121 | `load` throws only an IllegalArgumentException or an IOException |
| ConfigLoader.Validated | src/main/java/hu/webarticum/resourcemanager/config/PropertiesConfigLoader.java:80-88 | load then validate throws only an IllegalArgumentException or an IOException |
| ConfigLoader.ChangedExactly | src/main/java/hu/webarticum/resourcemanager/config/PropertiesConfigLoader.java:95-102 | the keys closed are exactly those of definitions whose new item is not equal to the loaded one; when no item changed nothing is closed |
| ConfigLoader.ClosesRun | src/main/java/hu/webarticum/resourcemanager/config/PropertiesConfigLoader.java:95-102 | strict closes in turn keep the set of slots |
| ConfigLoader.ClosesLeaveClosed | src/main/java/hu/webarticum/resourcemanager/config/PropertiesConfigLoader.java:95-102 | when every close returns normally, each changed key and all its transitive dependants are registered and closed, and no slot is filled |
| ConfigLoader.ClosesGoesOn | src/main/java/hu/webarticum/resourcemanager/config/PropertiesConfigLoader.java:96-100 | an unchanged definition closes nothing; a changed one closes its key, and the loop goes on unless that close threw |
| ConfigLoader.OpenItem | src/main/java/hu/webarticum/resourcemanager/config/PropertiesConfigLoader.java:61-66 | opening a closed item key runs its factory: before the first reload the open fails with that key, and afterwards the key opens with the loaded item |
| ConfigLoader.NoClash | src/main/java/hu/webarticum/resourcemanager/config/PropertiesConfigLoader.java:58-70 | no definition hits a registered or repeated key exactly when the keys are distinct and none is registered yet |
| ConfigLoader.RegisterFromClash | src/main/java/hu/webarticum/resourcemanager/config/PropertiesConfigLoader.java:58-70 | the registration loop registers exactly the keys before the first clash, and fails as a duplicate exactly when there is one |
| ConfigLoader.Registration | src/main/java/hu/webarticum/resourcemanager/config/PropertiesConfigLoader.java:58-70 | registering the definitions succeeds exactly when their keys are distinct and none is registered, and otherwise registers those before the first clash |
| ConfigLoader.RegisteredEntries | src/main/java/hu/webarticum/resourcemanager/config/PropertiesConfigLoader.java:61-67 | each registered item key gets an entry without dependencies, with the no-op closer and an empty slot, and other entries and the index are unchanged |
| ConfigLoader.PropertiesConfigLoader.constructor | src/main/java/hu/webarticum/resourcemanager/config/PropertiesConfigLoader.java:45-56 | the loader keeps its manager, definitions and validator, and starts with no loaded items |
| ConfigLoader.PropertiesConfigLoader.WithoutValidator | src/main/java/hu/webarticum/resourcemanager/config/PropertiesConfigLoader.java:37-43 | the constructor without a validator accepts every item map |
| ConfigLoader.PropertiesConfigLoader.Factory | src/main/java/hu/webarticum/resourcemanager/config/PropertiesConfigLoader.java:61-66 | the factory throws before the first successful reload; afterwards it returns the loaded item of its key, or null for a key without one |
| ConfigLoader.PropertiesConfigLoader.RegisterDefinitions | src/main/java/hu/webarticum/resourcemanager/config/PropertiesConfigLoader.java:58-70 | the registration loop changes the manager's entries as `RegisterFrom` describes |
| ConfigLoader.PropertiesConfigLoader.RegisterOne | src/main/java/hu/webarticum/resourcemanager/config/PropertiesConfigLoader.java:60-67 | one registration fails only as a duplicate, changing nothing, and otherwise adds one empty entry |
| ConfigLoader.PropertiesConfigLoader.CloseChangedConfigItems | src/main/java/hu/webarticum/resourcemanager/config/PropertiesConfigLoader.java:95-102 | the loop closes the changed keys in definition order with a strict close, stopping at the first exception |
| ConfigLoader.PropertiesConfigLoader.CloseIfChanged | src/main/java/hu/webarticum/resourcemanager/config/PropertiesConfigLoader.java:97-100 | one definition's key is closed only when its item changed, and a failure ends the loop |
| ConfigLoader.PropertiesConfigLoader.Load | src/main/java/hu/webarticum/resourcemanager/config/PropertiesConfigLoader.java:104-121 | `load` computes `LoadRun` |
| ConfigLoader.PropertiesConfigLoader.Reload | src/main/java/hu/webarticum/resourcemanager/config/PropertiesConfigLoader.java:79-93 | a failed load or validation changes nothing; the first successful reload closes nothing and stores the items; a later one closes the changed keys and stores the new items only when every close returned normally |

## Left out

- `synchronized`: every operation is modelled as a sequential call, and locking is not modelled.
- Factories and closers are oracles fixed for one call. A factory or closer that calls back into the manager is not modelled. A closer that throws once within an aggressive call throws again there.
- Resource objects and `AutoResourceCloser` calling `AutoCloseable.close` are foreign code. A resource is an abstract `Values.Value`, and an auto closer is one that may throw.
- Generic types, `CastUtil` casts, `getLabel` and the manager's `toString` have no behaviour beyond the key's type tag, and are not modelled.
- Exception messages and cause chains are not kept. A failure keeps only its key and suppressed list.
- `PropertiesUtil.loadBundled`, `loadFile` and `loadUrl`, and the suppliers' sources, are I/O. A supplier's `get` is given as a map or an exception, with property names already turned into strings.
- Null values are not modelled: a `ValueParser` that returns null, which would store a null item that the item factory then returns; a null argument to `PropertiesUtil.buildFrom`, where `Properties.put` throws a NullPointerException; and a key with a null name, whose `equals` and `hashCode` throw. Parsers return a value or an exception, arguments and names are strings.
- `ValueParsers` are thin wrappers over the JDK and floating point. Parsers are function parameters, and only `BooleanValueParser` is modelled.
- Registry.DefaultResourceManager.Open: it needs a ghost `rank` that orders the dependency lists. The source recurses without a visited set, and on a cycle it fails with a stack overflow, which is not modelled.
- Registry.DefaultResourceManager.Close: it needs a ghost `rank` that orders the index rows, for the same reason. The same holds for `CloseAll`, `CloseStrict`, `CloseAllStrict`, `Clear`, `Remove` and `ConfigLoader.PropertiesConfigLoader.Reload`.
- Registry.DefaultResourceManager.CloseEach: index rows are visited in the order their keys were first added, which is one order the source's hash sets may use. The properties proved are stated over sets of keys, but they are proved for this order only.
- Opening.ConsistentNeedsOpen: it assumes factories never return null. A factory that returns null leaves its key unopened, and the source then carries on opening.
- ResourceKeys.ToStringDeterminesParts: it holds only for names without a colon. The class loader of the type is not shown at all.
- ConfigLoader.PropertiesConfigLoader.constructor: the registration of the definitions that the Java constructor runs is the separate method `RegisterDefinitions`. A registration failure, which in Java means no loader is created, is its outcome.
