/** The two kinds of configuration item: `SimpleConfigItemDefinition` parses one property
    (SimpleConfigItemDefinition.java) and `SubPropertiesConfigItemDefinition` collects the
    properties under a name prefix (SubPropertiesConfigItemDefinition.java). */
module ConfigItems {
  import opened Wrappers
  import opened Values
  import opened ResourceKeys
  import opened ConfigExceptions
  import BooleanParser

  /** Low-level properties: property name to textual value. */
  type Properties = map<string, string>

  /** A `ValueParser`: a value, or the exception `parse` throws. */
  type Parser = string -> Result<Value, Thrown>

  /** A configuration item definition; `key` is what `getKey` returns. */
  datatype Definition =
    | Simple(key: ResourceKey, propertyName: string, parser: Parser)
    | SubProperties(key: ResourceKey, prefix: string)

  /** `BooleanValueParser` as a `ValueParser<Boolean>`. */
  function BooleanValue(value: string): (r: Result<Value, Thrown>)
    ensures r.Ok? <==> BooleanParser.Parse(value).Ok?
    ensures r.Ok? ==> r.value == Bool(BooleanParser.Parse(value).value)
    ensures r.Err? ==> r.error == IllegalArgument
  {
    match BooleanParser.Parse(value)
    case Ok(b) => Ok(Bool(b))
    case Err(e) => Err(e)
  }

  // ---------------------------------------------------------------------------------------
  // Simple items

  /** `SimpleConfigItemDefinition.extractValue`: a missing property is an
      IllegalArgumentException, and the parser is not called; otherwise the parser's result
      or exception is the item's. */
  function ExtractSimple(propertyName: string, parser: Parser, properties: Properties): Result<Value, Thrown>
  {
    if propertyName !in properties then Err(IllegalArgument)
    else parser(properties[propertyName])
  }

  /** A missing property is reported whatever the parser does, and a present one gives
      exactly what the parser gives for its value, its exception included. */
  lemma SimpleOutcome(propertyName: string, parser: Parser, properties: Properties)
    ensures propertyName !in properties ==> ExtractSimple(propertyName, parser, properties) == Err(IllegalArgument)
    ensures propertyName in properties ==>
      ExtractSimple(propertyName, parser, properties) == parser(properties[propertyName])
  {
  }

  /** Only the named property is consulted: properties that agree on it give the same
      result. */
  lemma SimpleReadsOneProperty(propertyName: string, parser: Parser, p: Properties, q: Properties)
    requires propertyName in p <==> propertyName in q
    requires propertyName in p ==> p[propertyName] == q[propertyName]
    ensures ExtractSimple(propertyName, parser, p) == ExtractSimple(propertyName, parser, q)
  {
  }

  // ---------------------------------------------------------------------------------------
  // Sub-property items

  /** The names in `names` that start with `prefix`, case-sensitively, with the prefix cut
      off. */
  function Stripped(prefix: string, names: set<string>): set<string>
  {
    set n | n in names && prefix <= n :: n[|prefix|..]
  }

  /** A name comes out of stripping exactly when the prefix followed by it went in. */
  lemma StrippedMembers(prefix: string, names: set<string>)
    ensures forall s :: s in Stripped(prefix, names) <==> prefix + s in names
  {
    forall s ensures s in Stripped(prefix, names) <==> prefix + s in names {
      if prefix + s in names {
        assert (prefix + s)[|prefix|..] == s;
      }
      if s in Stripped(prefix, names) {
        var n :| n in names && prefix <= n && n[|prefix|..] == s;
        assert n == prefix + s;
      }
    }
  }

  /** `r` holds every property whose name starts with `prefix`, under its name without the
      prefix, and nothing else. */
  ghost predicate IsSubProperties(prefix: string, properties: Properties, r: Properties)
  {
    (forall s :: s in r <==> prefix + s in properties) &&
    (forall s | s in r :: r[s] == properties[prefix + s])
  }

  /** Such a map exists: the stripped names, each with its property's value. */
  lemma SubPropertiesExist(prefix: string, properties: Properties)
    ensures exists r :: IsSubProperties(prefix, properties, r)
  {
    StrippedMembers(prefix, properties.Keys);
    var r := map s | s in Stripped(prefix, properties.Keys) :: properties[prefix + s];
    assert IsSubProperties(prefix, properties, r);
  }

  /** The sub-properties under `prefix`; two maps that both have the defining property agree
      on every key, so this is the one such map. */
  ghost function SubPropertiesOf(prefix: string, properties: Properties): (r: Properties)
    ensures IsSubProperties(prefix, properties, r)
  {
    SubPropertiesExist(prefix, properties);
    var r :| IsSubProperties(prefix, properties, r);
    r
  }

  /** `SubPropertiesConfigItemDefinition.extractValue`: the loop over the entries that puts
      each matching one, under its stripped name, into a fresh map. */
  method ExtractSubProperties(prefix: string, properties: Properties) returns (result: Properties)
    ensures result == SubPropertiesOf(prefix, properties)
  {
    result := map[];
    var rest := properties.Keys;
    while rest != {}
      invariant rest <= properties.Keys
      invariant forall s :: s in result <==> prefix + s in properties && prefix + s !in rest
      invariant forall s | s in result :: result[s] == properties[prefix + s]
      decreases |rest|
    {
      var propertyName :| propertyName in rest;
      if prefix <= propertyName {
        var subName := propertyName[|prefix|..];
        assert prefix + subName == propertyName;
        forall s | prefix + s == propertyName ensures s == subName {
          assert (prefix + s)[|prefix|..] == s;
        }
        result := result[subName := properties[propertyName]];
      } else {
        forall s ensures prefix + s != propertyName {
          assert prefix <= prefix + s;
        }
      }
      rest := rest - {propertyName};
    }
  }

  /** Stripping a common prefix loses no name: as many names come out as went in. */
  lemma {:induction false} StrippedCard(prefix: string, names: set<string>)
    requires forall n | n in names :: prefix <= n
    ensures |Stripped(prefix, names)| == |names|
    decreases |names|
  {
    if names != {} {
      var n :| n in names;
      var rest := names - {n};
      StrippedCard(prefix, rest);
      StrippedMembers(prefix, rest);
      StrippedMembers(prefix, names);
      assert n == prefix + n[|prefix|..];
      assert Stripped(prefix, names) == Stripped(prefix, rest) + {n[|prefix|..]};
      assert n[|prefix|..] !in Stripped(prefix, rest);
    }
  }

  /** The item has one entry per property whose name starts with the prefix. */
  lemma SubPropertiesCount(prefix: string, properties: Properties)
    ensures |SubPropertiesOf(prefix, properties)| == |set n | n in properties && prefix <= n|
  {
    var matching := set n | n in properties && prefix <= n;
    StrippedCard(prefix, matching);
    StrippedMembers(prefix, matching);
    var r := SubPropertiesOf(prefix, properties);
    assert r.Keys == Stripped(prefix, matching);
  }

  /** A property named exactly as the prefix appears under the empty name; with no property
      under the prefix the item is empty. */
  lemma SubPropertiesEdges(prefix: string, properties: Properties)
    ensures prefix in properties ==> "" in SubPropertiesOf(prefix, properties)
    ensures prefix in properties ==> SubPropertiesOf(prefix, properties)[""] == properties[prefix]
    ensures (forall n | n in properties :: !(prefix <= n)) ==> SubPropertiesOf(prefix, properties) == map[]
  {
    assert prefix + "" == prefix;
    var r := SubPropertiesOf(prefix, properties);
    if forall n | n in properties :: !(prefix <= n) {
      assert r.Keys == {};
    }
  }

  // ---------------------------------------------------------------------------------------
  // Either kind

  /** `extractValue` of either kind; a sub-property item never throws. */
  ghost function ExtractValue(d: Definition, properties: Properties): (r: Result<Value, Thrown>)
    ensures d.SubProperties? ==> r.Ok? && r.value.StringMap? && IsSubProperties(d.prefix, properties, r.value.entries)
    ensures d.Simple? && d.propertyName !in properties ==> r == Err(IllegalArgument)
    ensures d.Simple? && d.propertyName in properties ==> r == d.parser(properties[d.propertyName])
  {
    if d.Simple? then ExtractSimple(d.propertyName, d.parser, properties)
    else Ok(StringMap(SubPropertiesOf(d.prefix, properties)))
  }

  /** The dispatch of `extractValue` to the definition's own kind. */
  method Extract(d: Definition, properties: Properties) returns (r: Result<Value, Thrown>)
    ensures r == ExtractValue(d, properties)
  {
    if d.Simple? {
      r := ExtractSimple(d.propertyName, d.parser, properties);
    } else {
      var entries := ExtractSubProperties(d.prefix, properties);
      r := Ok(StringMap(entries));
    }
  }
}
