/** Keys that address registered resources (ResourceKey.java). */
module ResourceKeys {

  /** A Java class object. The JVM has one class object per (defining class loader,
      binary name) pair, so two tags are the same object exactly when both parts agree. */
  datatype TypeTag = TypeTag(loader: nat, name: string)

  /** An immutable (name, resource type) pair. Both fields are fixed when the key is built. */
  datatype ResourceKey = ResourceKey(name: string, resourceType: TypeTag)

  /** `equals`: the names are equal and the resource types are the identical class object.
      It coincides with structural equality, so maps keyed by `ResourceKey` behave as the
      source's hash maps do. */
  function Equals(a: ResourceKey, b: ResourceKey): (r: bool)
    ensures r <==> a == b
  {
    a.name == b.name && a.resourceType == b.resourceType
  }

  /** Java `int` arithmetic wraps around modulo 2^32; a hash is kept as its residue. */
  const Modulus: int := 0x1_0000_0000

  /** The UTF-16 code units of one character: itself below U+10000, otherwise its high and
      low surrogates. */
  function CodeUnits(c: char): (units: seq<int>)
    ensures 1 <= |units| <= 2
  {
    var v := c as int;
    if v < 0x1_0000 then [v]
    else [0xD800 + (v - 0x1_0000) / 0x400, 0xDC00 + (v - 0x1_0000) % 0x400]
  }

  /** The UTF-16 form of a string, as a Java `String` holds it. */
  function Utf16(s: string): seq<int>
  {
    if s == [] then [] else Utf16(s[..|s| - 1]) + CodeUnits(s[|s| - 1])
  }

  /** h = 31 * h + u over code units, wrapping around at 32 bits. */
  function HashUnits(units: seq<int>): (h: int)
    ensures 0 <= h < Modulus
  {
    if units == [] then 0 else (HashUnits(units[..|units| - 1]) * 31 + units[|units| - 1]) % Modulus
  }

  /** Java's `String.hashCode`, taken over the UTF-16 code units. */
  function StringHash(s: string): int
  {
    HashUnits(Utf16(s))
  }

  /** `hashCode`: `name.hashCode() * 31 + resourceType.hashCode()` in 32-bit arithmetic;
      the identity hash of a class object is the parameter `classHash`. */
  function HashCode(k: ResourceKey, classHash: TypeTag -> int): int
  {
    (StringHash(k.name) * 31 + classHash(k.resourceType)) % Modulus
  }

  /** Adding the same value on both sides cancels modulo 2^32. */
  lemma AddCancels(n: int, x: int, y: int)
    ensures (n + x) % Modulus == (n + y) % Modulus <==> x % Modulus == y % Modulus
  {
    ModSum(n, x);
    ModSum(n, y);
    var r := n % Modulus;
    if x % Modulus != y % Modulus {
      assert r + x % Modulus != r + y % Modulus;
    }
  }

  /** The residue of a sum is determined by the residues of its terms. */
  lemma ModSum(n: int, x: int)
    ensures (n + x) % Modulus == (n % Modulus + x % Modulus) % Modulus
  {
  }

  /** For keys with the same name the hash tells the types apart exactly as their class
      hashes do, as 32-bit values. */
  lemma HashCodeSameName(a: ResourceKey, b: ResourceKey, classHash: TypeTag -> int)
    requires a.name == b.name
    ensures HashCode(a, classHash) == HashCode(b, classHash) <==>
      classHash(a.resourceType) % Modulus == classHash(b.resourceType) % Modulus
  {
    var n := StringHash(a.name) * 31;
    assert HashCode(a, classHash) == (n + classHash(a.resourceType)) % Modulus;
    assert HashCode(b, classHash) == (n + classHash(b.resourceType)) % Modulus;
    AddCancels(n, classHash(a.resourceType), classHash(b.resourceType));
  }

  /** The hash of two code units. */
  lemma HashPair(u0: int, u1: int)
    ensures HashUnits([u0, u1]) == ((u0 % Modulus) * 31 + u1) % Modulus
  {
    assert [u0, u1][..1] == [u0];
    assert [u0][..0] == [];
    assert HashUnits([u0]) == (HashUnits([]) * 31 + u0) % Modulus == u0 % Modulus;
    assert HashUnits([u0, u1]) == (HashUnits([u0]) * 31 + u1) % Modulus;
  }

  /** The hash does not determine the key: "Aa" and "BB" have the same `String.hashCode`,
      so keys of one type with these names collide although they are not `equals`. */
  lemma HashCollision(t: TypeTag, classHash: TypeTag -> int)
    ensures var a, b := ResourceKey("Aa", t), ResourceKey("BB", t);
      !Equals(a, b) && HashCode(a, classHash) == HashCode(b, classHash)
  {
    assert "Aa"[..1] == "A" && "A"[..0] == [] && "BB"[..1] == "B" && "B"[..0] == [];
    assert Utf16("Aa") == [65, 97];
    assert Utf16("BB") == [66, 66];
    HashPair(65, 97);
    HashPair(66, 66);
  }

  /** A character above U+FFFF is hashed as its two surrogates, as Java stores it:
      U+1F600 counts as 0xD83D and then 0xDE00. */
  lemma SupplementaryHash()
    ensures StringHash("\U{1F600}") == 0xD83D * 31 + 0xDE00
  {
    assert "\U{1F600}"[..0] == [];
    assert Utf16("\U{1F600}") == [0xD83D, 0xDE00];
    HashPair(0xD83D, 0xDE00);
  }

  /** `toString`: the name, a colon, then the binary name of the resource type. */
  function ToString(k: ResourceKey): string
  {
    k.name + ":" + k.resourceType.name
  }

  /** The display form shows the name up to its first colon, then the type name. */
  lemma ToStringLayout(k: ResourceKey)
    ensures |ToString(k)| == |k.name| + 1 + |k.resourceType.name|
    ensures ToString(k)[..|k.name|] == k.name
    ensures ToString(k)[|k.name|] == ':'
    ensures ToString(k)[|k.name| + 1..] == k.resourceType.name
  {
  }

  /** For names without a colon the display form determines the name and the type name
      (the class loader is not shown, so it does not determine the key). */
  lemma ToStringDeterminesParts(a: ResourceKey, b: ResourceKey)
    requires ':' !in a.name && ':' !in b.name
    requires ToString(a) == ToString(b)
    ensures a.name == b.name && a.resourceType.name == b.resourceType.name
  {
    ToStringLayout(a);
    ToStringLayout(b);
  }
}
