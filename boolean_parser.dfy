/** `BooleanValueParser` (BooleanValueParser.java): the whole value must match one of the
    alternatives of a constant pattern, compiled with `Pattern.CASE_INSENSITIVE`. */
module BooleanParser {
  import opened Wrappers
  import opened ConfigExceptions

  /** The alternatives of the pattern `true|1|yes|on`, in pattern order. */
  const TrueAlternatives: seq<string> := ["true", "1", "yes", "on"]

  /** The alternatives of the pattern `|false|0|no|off`; the first one is empty. */
  const FalseAlternatives: seq<string> := ["", "false", "0", "no", "off"]

  /** `CASE_INSENSITIVE` without `UNICODE_CASE` folds only the US-ASCII letters. */
  function FoldAscii(c: char): char
  {
    if 'A' <= c <= 'Z' then (c as int - 'A' as int + 'a' as int) as char else c
  }

  /** The regular-expression engine's view of `value` matching the literal `alternative`
      in full, case-insensitively. */
  predicate MatchesLiteral(value: string, alternative: string)
  {
    |value| == |alternative| && forall i | 0 <= i < |value| :: FoldAscii(value[i]) == FoldAscii(alternative[i])
  }

  /** `Matcher.matches` for an alternation of literals: some alternative matches the whole
      value. */
  predicate MatchesAny(value: string, alternatives: seq<string>)
  {
    alternatives != [] && (MatchesLiteral(value, alternatives[0]) || MatchesAny(value, alternatives[1..]))
  }

  /** `parse`: the true pattern is tried first, then the false pattern; anything else is an
      IllegalArgumentException. */
  function Parse(value: string): Result<bool, Thrown>
  {
    if MatchesAny(value, TrueAlternatives) then Ok(true)
    else if MatchesAny(value, FalseAlternatives) then Ok(false)
    else Err(IllegalArgument)
  }

  // ---------------------------------------------------------------------------------------
  // The words each pattern accepts

  /** `value` with its US-ASCII letters in lower case. */
  function LowerAscii(value: string): (r: string)
    ensures |r| == |value| && forall i | 0 <= i < |value| :: r[i] == FoldAscii(value[i])
  {
    if value == [] then [] else [FoldAscii(value[0])] + LowerAscii(value[1..])
  }

  const TrueWords: set<string> := {"true", "1", "yes", "on"}
  const FalseWords: set<string> := {"", "false", "0", "no", "off"}

  /** A lower-case literal matches exactly the values that lower-case to it. */
  lemma MatchesLowered(value: string, word: string)
    requires forall i | 0 <= i < |word| :: FoldAscii(word[i]) == word[i]
    ensures MatchesLiteral(value, word) <==> LowerAscii(value) == word
  {
    if MatchesLiteral(value, word) {
      assert LowerAscii(value) == word;
    }
  }

  /** An alternation matches when one of its alternatives does. */
  lemma {:induction false} MatchesSome(value: string, alternatives: seq<string>)
    ensures MatchesAny(value, alternatives) <==>
      exists i :: 0 <= i < |alternatives| && MatchesLiteral(value, alternatives[i])
  {
    if alternatives != [] {
      MatchesSome(value, alternatives[1..]);
      if exists i :: 0 <= i < |alternatives| && MatchesLiteral(value, alternatives[i]) {
        var i :| 0 <= i < |alternatives| && MatchesLiteral(value, alternatives[i]);
        if i > 0 {
          assert alternatives[1..][i - 1] == alternatives[i];
        }
      }
    }
  }

  /** An alternation of lower-case literals matches exactly the values that lower-case to
      one of them. */
  lemma MatchesWords(value: string, alternatives: seq<string>)
    requires forall i, j | 0 <= i < |alternatives| && 0 <= j < |alternatives[i]| ::
      FoldAscii(alternatives[i][j]) == alternatives[i][j]
    ensures MatchesAny(value, alternatives) <==> LowerAscii(value) in alternatives
  {
    MatchesSome(value, alternatives);
    forall i | 0 <= i < |alternatives| ensures MatchesLiteral(value, alternatives[i]) <==> LowerAscii(value) == alternatives[i] {
      MatchesLowered(value, alternatives[i]);
    }
  }

  /** The true pattern matches exactly the values whose lower-case form is a true word. */
  lemma MatchesTrue(value: string)
    ensures MatchesAny(value, TrueAlternatives) <==> LowerAscii(value) in TrueWords
  {
    MatchesWords(value, TrueAlternatives);
    assert forall w :: w in TrueAlternatives <==> w in TrueWords;
  }

  /** The false pattern matches exactly the values whose lower-case form is a false word. */
  lemma MatchesFalse(value: string)
    ensures MatchesAny(value, FalseAlternatives) <==> LowerAscii(value) in FalseWords
  {
    MatchesWords(value, FalseAlternatives);
    assert forall w :: w in FalseAlternatives <==> w in FalseWords;
  }

  /** "true", "1", "yes" and "on" in any US-ASCII letter case parse to true; "", "false",
      "0", "no" and "off" to false; every other string, including one with a leading or
      trailing extra character, is rejected with an IllegalArgumentException. */
  lemma ParseWords(value: string)
    ensures Parse(value) == Ok(true) <==> LowerAscii(value) in TrueWords
    ensures Parse(value) == Ok(false) <==> LowerAscii(value) in FalseWords
    ensures Parse(value) == Err(IllegalArgument) <==> LowerAscii(value) !in TrueWords + FalseWords
  {
    MatchesTrue(value);
    MatchesFalse(value);
  }

  /** No value matches both patterns, so trying the true pattern first decides nothing. */
  lemma PatternsDisjoint(value: string)
    ensures !(MatchesAny(value, TrueAlternatives) && MatchesAny(value, FalseAlternatives))
  {
    MatchesTrue(value);
    MatchesFalse(value);
  }

  /** Parsing does not depend on the case of US-ASCII letters. */
  lemma ParseIgnoresCase(value: string)
    ensures Parse(value) == Parse(LowerAscii(value))
  {
    ParseWords(value);
    ParseWords(LowerAscii(value));
    assert LowerAscii(LowerAscii(value)) == LowerAscii(value);
  }

  /** The whole value must match: a true word with a trailing space or an extra letter is
      rejected. */
  lemma ExtraCharactersRejected()
    ensures Parse("on ") == Err(IllegalArgument)
    ensures Parse("yess") == Err(IllegalArgument)
  {
    MatchesSome("on ", TrueAlternatives);
    MatchesSome("on ", FalseAlternatives);
    MatchesSome("yess", TrueAlternatives);
    MatchesSome("yess", FalseAlternatives);
    assert !MatchesLiteral("on ", "yes") && !MatchesLiteral("on ", "off") by {
      assert FoldAscii("on "[0]) != FoldAscii("yes"[0]) && FoldAscii("on "[1]) != FoldAscii("off"[1]);
    }
    assert !MatchesLiteral("yess", "true") by {
      assert FoldAscii("yess"[0]) != FoldAscii("true"[0]);
    }
  }

  /** Letter case does not matter: "On" parses to true and "NO" to false. */
  lemma MixedCaseAccepted()
    ensures Parse("On") == Ok(true)
    ensures Parse("NO") == Ok(false)
  {
    ParseWords("On");
    ParseWords("NO");
    assert LowerAscii("On") == "on";
    assert LowerAscii("NO") == "no";
  }
}
