/**
 * The pure validation steps of `main` (main.go:65-85): the minimum
 * prefix length must be at least 1, and a non-empty suffix pattern is
 * anchored to the end of the stem before it is compiled.
 */
module Options {
  import opened Wrappers
  import opened SuffixFilter

  /** Why the command line was rejected. */
  datatype OptionError =
    | MinPrefixTooSmall
    | InvalidPattern(source: string)

  predicate EndsWithDollar(s: string)
  {
    |s| > 0 && s[|s| - 1] == '$'
  }

  /** Anchors a pattern at the end of the string (main.go:76-78). */
  function Anchor(pattern: string): (anchored: string)
    ensures EndsWithDollar(anchored)
    ensures anchored == pattern <==> EndsWithDollar(pattern)
    ensures !EndsWithDollar(pattern) ==> anchored == pattern + "$"
  {
    if EndsWithDollar(pattern) then pattern else pattern + "$"
  }

  /** Anchoring an anchored pattern changes nothing. */
  lemma AnchorIdempotent(pattern: string)
    ensures Anchor(Anchor(pattern)) == Anchor(pattern)
  {
  }

  /** Anchoring never produces a doubled `$$` the user did not write. */
  lemma AnchorNoDoubleDollar(pattern: string)
    requires !(|pattern| >= 2 && pattern[|pattern| - 2..] == "$$")
    ensures !(|Anchor(pattern)| >= 2 && Anchor(pattern)[|Anchor(pattern)| - 2..] == "$$")
  {
    if !EndsWithDollar(pattern) && |pattern| > 0 {
      var a := Anchor(pattern);
      assert a[|a| - 2..][0] == a[|pattern| - 1] == pattern[|pattern| - 1];
    }
  }

  /** The validated options: the prefix length and the compiled pattern, if one was given. */
  datatype Validated = Validated(minPrefix: int, pattern: Option<Pattern>)

  /**
   * The checks main makes before running (main.go:65-85): the prefix
   * length first, then the pattern, which is compiled only when it is not
   * empty. `compile` stands for regexp.Compile.
   */
  function Validate(minPrefix: int, suffix: string, compile: string -> Option<Pattern>): (r: Result<Validated, OptionError>)
    ensures minPrefix < 1 <==> r == Failure(MinPrefixTooSmall)
    ensures r.Success? ==> r.value.minPrefix == minPrefix >= 1
    ensures r.Success? ==> (r.value.pattern.None? <==> suffix == "")
    ensures r.Success? && suffix != "" ==> r.value.pattern == compile(Anchor(suffix))
    ensures r.Failure? && minPrefix >= 1 ==>
      suffix != "" && compile(Anchor(suffix)).None? && r.error == InvalidPattern(Anchor(suffix))
  {
    if minPrefix < 1 then Failure(MinPrefixTooSmall)
    else if suffix == "" then Success(Validated(minPrefix, None))
    else
      match compile(Anchor(suffix))
      case None => Failure(InvalidPattern(Anchor(suffix)))
      case Some(p) => Success(Validated(minPrefix, Some(p)))
  }
}
