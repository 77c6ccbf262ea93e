/** `PropertiesUtil.buildFrom` (PropertiesUtil.java): a `Properties` object built from an
    argument list that holds keys and values alternately. */
module PropertiesUtil {

  /** The properties put by the first `n` pairs of `args`, in turn: pair i puts the key
      args[2i] with the value args[2i+1], replacing any earlier value of that key. */
  function Pairs(args: seq<string>, n: nat): map<string, string>
    requires 2 * n <= |args|
  {
    if n == 0 then map[]
    else Pairs(args, n - 1)[args[2 * (n - 1)] := args[2 * (n - 1) + 1]]
  }

  /** `buildFrom`: floor(|args| / 2) pairs are put into fresh properties, in order. */
  method BuildFrom(args: seq<string>) returns (properties: map<string, string>)
    ensures properties == Pairs(args, |args| / 2)
  {
    properties := map[];
    var entryCount := |args| / 2;
    var i := 0;
    while i < entryCount
      invariant 0 <= i <= entryCount
      invariant properties == Pairs(args, i)
    {
      var index := i * 2;
      var key := args[index];
      var value := args[index + 1];
      properties := properties[key := value];
      i := i + 1;
    }
  }

  /** The keys of the first `n` pairs are exactly the arguments at even positions below 2n. */
  lemma {:induction false} PairsKeys(args: seq<string>, n: nat)
    requires 2 * n <= |args|
    ensures forall k :: k in Pairs(args, n) <==> exists i :: 0 <= i < n && args[2 * i] == k
  {
    if n > 0 {
      PairsKeys(args, n - 1);
      forall k | k in Pairs(args, n) ensures exists i :: 0 <= i < n && args[2 * i] == k {
        if k != args[2 * (n - 1)] {
          assert k in Pairs(args, n - 1);
          var i :| 0 <= i < n - 1 && args[2 * i] == k;
        }
      }
      forall k | exists i :: 0 <= i < n && args[2 * i] == k ensures k in Pairs(args, n) {
        var i :| 0 <= i < n && args[2 * i] == k;
        if i < n - 1 {
          assert k in Pairs(args, n - 1);
        }
      }
    }
  }

  /** A key keeps the value of its last pair: when pair i is the last among the first `n`
      whose key is args[2i], that key maps to args[2i+1]. */
  lemma {:induction false} PairsLastWins(args: seq<string>, n: nat, i: nat)
    requires 2 * n <= |args| && i < n
    requires forall j | i < j < n :: args[2 * j] != args[2 * i]
    ensures args[2 * i] in Pairs(args, n) && Pairs(args, n)[args[2 * i]] == args[2 * i + 1]
  {
    if i < n - 1 {
      PairsLastWins(args, n - 1, i);
    }
  }

  /** Only the first 2n arguments matter to the first `n` pairs. */
  lemma {:induction false} PairsPrefix(args: seq<string>, m: nat, n: nat)
    requires 2 * n <= m <= |args|
    ensures Pairs(args[..m], n) == Pairs(args, n)
  {
    if n > 0 {
      PairsPrefix(args, m, n - 1);
      assert args[..m][2 * (n - 1)] == args[2 * (n - 1)];
      assert args[..m][2 * (n - 1) + 1] == args[2 * (n - 1) + 1];
    }
  }

  /** A trailing unpaired argument is ignored: an odd-length list builds what the list
      without its last argument builds. */
  lemma TrailingArgumentIgnored(args: seq<string>)
    requires |args| % 2 == 1
    ensures Pairs(args, |args| / 2) == Pairs(args[..|args| - 1], (|args| - 1) / 2)
  {
    PairsPrefix(args, |args| - 1, |args| / 2);
  }

  /** Fewer than two arguments build empty properties. */
  lemma NoPairs(args: seq<string>)
    requires |args| < 2
    ensures Pairs(args, |args| / 2) == map[]
  {
  }
}
