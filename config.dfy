/**
 * Deploy-time configuration helpers of the server stack: the game's UDP port and the
 * reading of an untyped CDK context value as a boolean flag.
 */
module Config {
  import opened Text

  /** The UDP port the game server listens on. */
  const HytaleUdpPort: nat := 5520

  /**
   * A raw CDK context value, as `tryGetContext` hands it over: absent, JSON null, a
   * boolean, a string, or anything else (a number, an object, an array).
   */
  datatype ContextValue = Undefined | Null | Bool(b: bool) | Str(s: string) | Other

  const TruthyWords: seq<string> := ["1", "true", "yes", "y", "on"]
  const FalsyWords: seq<string> := ["0", "false", "no", "n", "off"]

  /** The form a context string is compared in: trimmed, then lower-cased. */
  function Normalize(s: string): (r: string)
    ensures |r| <= |s|
    ensures |r| > 0 ==> !IsSpace(r[0]) && !IsSpace(r[|r| - 1])
    ensures forall k :: 0 <= k < |r| ==> !('A' <= r[k] <= 'Z')
  {
    ToLower(Trim(s))
  }

  /**
   * The boolean a raw context value stands for, with `defaultValue` for absent values
   * and for values that are not recognisably true or false. The result differs from
   * the default only for an explicit boolean or a recognised word.
   */
  function BooleanOf(raw: ContextValue, defaultValue: bool): (r: bool)
    ensures r != defaultValue ==> raw.Bool? || (raw.Str? && Normalize(raw.s) in TruthyWords + FalsyWords)
  {
    if raw.Undefined? || raw.Null? then defaultValue
    else if raw.Bool? then raw.b
    else if raw.Str? && Normalize(raw.s) in TruthyWords then true
    else if raw.Str? && Normalize(raw.s) in FalsyWords then false
    else defaultValue
  }

  /** `getBooleanContext`: looks `key` up in the context; a missing key is `undefined`. */
  function GetBooleanContext(context: map<string, ContextValue>, key: string, defaultValue: bool): (r: bool)
    ensures key !in context ==> r == defaultValue
  {
    BooleanOf(if key in context then context[key] else Undefined, defaultValue)
  }

  /** Absent, null and non-string non-boolean values fall back to the default. */
  lemma AbsentIsDefault(raw: ContextValue, defaultValue: bool)
    requires raw.Undefined? || raw.Null? || raw.Other?
    ensures BooleanOf(raw, defaultValue) == defaultValue
  {
  }

  /** A boolean is returned as it is, whatever the default. */
  lemma BoolUnchanged(b: bool, d1: bool, d2: bool)
    ensures BooleanOf(Bool(b), d1) == BooleanOf(Bool(b), d2) == b
  {
  }

  /** No string is both a truthy and a falsy word. */
  lemma WordSetsDisjoint(w: string)
    ensures !(w in TruthyWords && w in FalsyWords)
  {
  }

  /**
   * A string decides the flag on its own, independently of the default, exactly when its
   * normalised form is one of the ten recognised words.
   */
  lemma StringIgnoresDefaultIff(s: string)
    ensures BooleanOf(Str(s), true) == BooleanOf(Str(s), false) <==> Normalize(s) in TruthyWords + FalsyWords
    ensures Normalize(s) in TruthyWords ==> forall d :: BooleanOf(Str(s), d)
    ensures Normalize(s) in FalsyWords ==> forall d :: !BooleanOf(Str(s), d)
    ensures Normalize(s) !in TruthyWords + FalsyWords ==> forall d :: BooleanOf(Str(s), d) == d
  {
    WordSetsDisjoint(Normalize(s));
  }

  /** Normalising is idempotent. */
  lemma NormalizeIdempotent(s: string)
    ensures Normalize(Normalize(s)) == Normalize(s)
  {
    var t := Trim(s);
    calc {
      Normalize(Normalize(s));
      ToLower(Trim(ToLower(t)));
      { TrimToLower(t); }
      ToLower(ToLower(Trim(t)));
      { TrimIdempotent(s); }
      ToLower(ToLower(t));
      { ToLowerIdempotent(t); }
      ToLower(t);
    }
  }

  /** Normalising the string first does not change the outcome. */
  lemma NormalizedSameResult(s: string, defaultValue: bool)
    ensures BooleanOf(Str(Normalize(s)), defaultValue) == BooleanOf(Str(s), defaultValue)
  {
    NormalizeIdempotent(s);
  }

  /** Predicate: `u` spells `w` up to the case of its ASCII letters. */
  predicate SpellsIgnoringCase(u: string, w: string) {
    ToLower(u) == w
  }

  /**
   * Any case variant of a recognised word, padded with any whitespace, reads as that
   * word: " TRUE " and "\tYes\n" give true, " Off" gives false.
   */
  lemma {:induction false} PaddedWord(p: string, u: string, q: string, defaultValue: bool)
    requires AllSpace(p) && AllSpace(q)
    requires exists w :: w in TruthyWords + FalsyWords && SpellsIgnoringCase(u, w)
    ensures BooleanOf(Str(p + u + q), defaultValue) == (ToLower(u) in TruthyWords)
  {
    var w :| w in TruthyWords + FalsyWords && SpellsIgnoringCase(u, w);
    WordsPlain(w);
    assert |u| > 0 && w[0] == Lower(u[0]) && w[|w| - 1] == Lower(u[|u| - 1]);
    TrimPadded(p, u, q);
    WordSetsDisjoint(w);
  }

  /** The recognised words are not empty and neither start nor end with whitespace. */
  lemma WordsPlain(w: string)
    requires w in TruthyWords + FalsyWords
    ensures |w| > 0 && !IsSpace(w[0]) && !IsSpace(w[|w| - 1])
  {
  }

  lemma PaddedTrueExample()
    ensures BooleanOf(Str(" TRUE "), false)
  {
    assert " TRUE " == " " + "TRUE" + " ";
    assert ToLower("TRUE") == "true";
    assert "true" in TruthyWords + FalsyWords && SpellsIgnoringCase("TRUE", "true");
    PaddedWord(" ", "TRUE", " ", false);
  }
}
