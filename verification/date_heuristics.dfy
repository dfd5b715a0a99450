/**
 * The date-versus-version heuristics of isLikelyDatePattern (main.go):
 * a suffix match is judged date-like when the residual still ends in a
 * hyphen and digits, when the stem holds three or more hyphen-digit runs,
 * or when one of those runs has four or more digits (a year).
 *
 * `\d` in Go's regexp syntax is an ASCII digit; strings are byte strings.
 */
module DateHeuristics {

  predicate IsDigit(c: char)
  {
    '0' <= c <= '9'
  }

  /** Length of the run of digits at the start of s. */
  function LeadingDigits(s: string): (n: nat)
    ensures n <= |s|
    ensures forall t :: 0 <= t < n ==> IsDigit(s[t])
    ensures n == |s| || !IsDigit(s[n])
  {
    if |s| > 0 && IsDigit(s[0]) then 1 + LeadingDigits(s[1..]) else 0
  }

  /** Length of the run of digits at the end of s. */
  function TrailingDigits(s: string): (n: nat)
    ensures n <= |s|
    ensures forall t :: |s| - n <= t < |s| ==> IsDigit(s[t])
    ensures n == |s| || !IsDigit(s[|s| - n - 1])
  {
    if |s| > 0 && IsDigit(s[|s| - 1]) then 1 + TrailingDigits(s[..|s| - 1]) else 0
  }

  // ------------------------------------------------------------ heuristic 1

  /** What `-\d+$` matching s means: s ends in a hyphen followed by one or more digits. */
  ghost predicate EndsInHyphenDigitsSpec(s: string)
  {
    exists t :: 0 <= t < |s| - 1 && s[t] == '-' && forall u :: t < u < |s| ==> IsDigit(s[u])
  }

  /** The `-\d+$` test: the trailing digit run is non-empty and preceded by a hyphen. */
  predicate EndsInHyphenDigits(s: string)
  {
    var n := TrailingDigits(s);
    1 <= n < |s| && s[|s| - n - 1] == '-'
  }

  lemma EndsInHyphenDigitsMeaning(s: string)
    ensures EndsInHyphenDigits(s) <==> EndsInHyphenDigitsSpec(s)
  {
    var n := TrailingDigits(s);
    if EndsInHyphenDigitsSpec(s) {
      var t :| 0 <= t < |s| - 1 && s[t] == '-' && forall u :: t < u < |s| ==> IsDigit(s[u]);
      // the digit run reaches back to t + 1 and stops at the hyphen
      assert n == |s| - t - 1;
    }
    if EndsInHyphenDigits(s) {
      assert 0 <= |s| - n - 1 < |s| - 1;
    }
  }

  // ------------------------------------------------------- heuristics 2 and 3

  /** A `-\d+` match can start at t: a hyphen immediately followed by a digit. */
  predicate HyphenDigitAt(s: string, t: int)
  {
    0 <= t < |s| - 1 && s[t] == '-' && IsDigit(s[t + 1])
  }

  /**
   * Number of positions of s where a hyphen is immediately followed by a
   * digit; HyphenRunsCount shows it equals the number of `-\d+` matches.
   */
  function CountHyphenDigits(s: string): (count: nat)
    ensures count <= |s|
  {
    if |s| < 2 then 0
    else (if HyphenDigitAt(s, 0) then 1 else 0) + CountHyphenDigits(s[1..])
  }

  /**
   * The digit counts of the `-\d+` matches that FindAllString reports on s,
   * left to right: each match is a hyphen and the whole digit run after it,
   * and the search resumes after the run. HyphenRunsCount counts the
   * matches and LongRunMeaning says when one has four or more digits.
   */
  function HyphenRuns(s: string): (runs: seq<nat>)
    ensures forall p :: 0 <= p < |runs| ==> runs[p] >= 1
    decreases |s|
  {
    if |s| < 2 then []
    else if HyphenDigitAt(s, 0) then
      var n := LeadingDigits(s[1..]);
      [n] + HyphenRuns(s[1 + n..])
    else HyphenRuns(s[1..])
  }

  /** Skipping bytes that are not hyphens skips no hyphen-digit position. */
  lemma {:induction false} SkipNonHyphens(s: string, m: nat)
    requires m <= |s| && forall t :: 0 <= t < m ==> s[t] != '-'
    ensures CountHyphenDigits(s) == CountHyphenDigits(s[m..])
    decreases m
  {
    if m > 0 {
      assert !HyphenDigitAt(s, 0);
      if |s| >= 2 {
        assert s[1..][m - 1..] == s[m..];
        SkipNonHyphens(s[1..], m - 1);
      } else {
        assert |s[m..]| < 2;
      }
    }
  }

  /** FindAllString's match count is the number of hyphen-digit positions. */
  lemma {:induction false} HyphenRunsCount(s: string)
    ensures |HyphenRuns(s)| == CountHyphenDigits(s)
    decreases |s|
  {
    if |s| >= 2 {
      if HyphenDigitAt(s, 0) {
        var n := LeadingDigits(s[1..]);
        assert s[1..][n..] == s[1 + n..];
        SkipNonHyphens(s[1..], n);
        HyphenRunsCount(s[1 + n..]);
      } else {
        HyphenRunsCount(s[1..]);
      }
    }
  }

  /** A hyphen at t followed by at least four digits. */
  ghost predicate LongRunAt(s: string, t: int)
  {
    0 <= t && t + 4 < |s| && s[t] == '-' && forall u :: t < u <= t + 4 ==> IsDigit(s[u])
  }

  /** Some reported match carries four or more digits. */
  predicate HasLongRun(runs: seq<nat>)
  {
    exists p :: 0 <= p < |runs| && runs[p] >= 4
  }

  /** A match of four or more digits is exactly a hyphen followed by four digits somewhere in s. */
  lemma LongRunMeaning(s: string)
    ensures HasLongRun(HyphenRuns(s)) <==> exists t :: LongRunAt(s, t)
  {
    if HasLongRun(HyphenRuns(s)) {
      LongRunFound(s);
    }
    if exists t :: LongRunAt(s, t) {
      LongRunComplete(s);
    }
  }

  /** A long run at t in s is a long run at t - d in s[d..], and back. */
  lemma ShiftLongRun(s: string, d: nat, t: int)
    requires d <= t
    ensures d <= |s| ==> (LongRunAt(s, t) <==> LongRunAt(s[d..], t - d))
  {
    if d <= |s| {
      assert forall u :: d <= u < |s| ==> s[d..][u - d] == s[u];
    }
  }

  /** A reported match of four or more digits starts at a hyphen followed by four digits. */
  lemma {:induction false} LongRunFound(s: string)
    requires HasLongRun(HyphenRuns(s))
    ensures exists t :: LongRunAt(s, t)
    decreases |s|
  {
    if |s| >= 2 {
      var runs := HyphenRuns(s);
      var p :| 0 <= p < |runs| && runs[p] >= 4;
      if HyphenDigitAt(s, 0) {
        var n := LeadingDigits(s[1..]);
        var rest := s[1 + n..];
        assert runs == [n] + HyphenRuns(rest);
        if p == 0 {
          assert LongRunAt(s, 0);
        } else {
          assert HyphenRuns(rest)[p - 1] >= 4;
          LongRunFound(rest);
          var t :| LongRunAt(rest, t);
          ShiftLongRun(s, 1 + n, t + 1 + n);
        }
      } else {
        LongRunFound(s[1..]);
        var t :| LongRunAt(s[1..], t);
        ShiftLongRun(s, 1, t + 1);
      }
    }
  }

  /** A hyphen followed by four digits is reported as a match of four or more digits. */
  lemma {:induction false} LongRunComplete(s: string)
    requires exists t :: LongRunAt(s, t)
    ensures HasLongRun(HyphenRuns(s))
    decreases |s|
  {
    var t :| LongRunAt(s, t);
    var runs := HyphenRuns(s);
    if HyphenDigitAt(s, 0) {
      var n := LeadingDigits(s[1..]);
      var rest := s[1 + n..];
      assert runs == [n] + HyphenRuns(rest);
      if t == 0 {
        assert n >= 4;
        assert runs[0] >= 4;
      } else {
        // positions 1..n hold digits, so the hyphen lies past the run
        assert t > n;
        ShiftLongRun(s, 1 + n, t);
        LongRunComplete(rest);
        var p :| 0 <= p < |HyphenRuns(rest)| && HyphenRuns(rest)[p] >= 4;
        assert runs[p + 1] >= 4;
      }
    } else {
      ShiftLongRun(s, 1, t);
      LongRunComplete(s[1..]);
    }
  }

  // -------------------------------------------------------------- verdict

  /**
   * isLikelyDatePattern(stem, residual): true, so that the file is
   * dropped, exactly when the residual ends in a hyphen and digits, or the
   * stem has three or more hyphen-digit positions, or a hyphen in the stem
   * is followed by four digits.
   */
  function IsLikelyDatePattern(stem: string, residual: string): (dateLike: bool)
    ensures dateLike <==>
      || EndsInHyphenDigitsSpec(residual)
      || CountHyphenDigits(stem) >= 3
      || exists t :: LongRunAt(stem, t)
  {
    EndsInHyphenDigitsMeaning(residual);
    HyphenRunsCount(stem);
    LongRunMeaning(stem);
    if EndsInHyphenDigits(residual) then true
    else
      var runs := HyphenRuns(stem);
      if |runs| >= 3 then true
      else HasLongRun(runs)
  }

  // ----------------------------------------------------- documented verdicts

  /** "file-2026-01-30" with residual "file-2026-01" is date-like: the residual ends in "-01". */
  lemma FullDateIsDateLike()
    ensures IsLikelyDatePattern("file-2026-01-30", "file-2026-01")
  {
    var residual := "file-2026-01";
    assert residual[9] == '-' && forall u :: 9 < u < |residual| ==> IsDigit(residual[u]);
  }

  /** "file-2024" with residual "file" is date-like: "-2024" is a four-digit run. */
  lemma YearIsDateLike()
    ensures IsLikelyDatePattern("file-2024", "file")
  {
    assert LongRunAt("file-2024", 4);
  }

  /** "file-1" with residual "file" is a version. */
  lemma ShortSuffixIsVersion()
    ensures !IsLikelyDatePattern("file-1", "file")
  {
    var stem := "file-1";
    assert forall t :: !LongRunAt(stem, t);
    assert forall t :: 0 <= t < |"file"| ==> "file"[t] != '-';
    assert CountHyphenDigits(stem) <= 1 by {
      assert stem[1..] == "ile-1";
      assert stem[1..][1..] == "le-1";
      assert stem[1..][1..][1..] == "e-1";
      assert stem[1..][1..][1..][1..] == "-1";
    }
  }

  /** "file-1-backup", compared with itself, is not date-like. */
  lemma NonNumericTailIsNotDateLike()
    ensures !IsLikelyDatePattern("file-1-backup", "file-1-backup")
  {
    BackupHasNoLongRun();
    BackupHasNoTrailingDigits();
    BackupHasOneHyphenDigit();
  }

  lemma BackupHasNoLongRun()
    ensures !exists t :: LongRunAt("file-1-backup", t)
  {
    var stem := "file-1-backup";
    assert forall t :: 0 <= t < |stem| && stem[t] == '-' ==> t == 4 || t == 6;
    assert !IsDigit(stem[6]) && !IsDigit(stem[7]);
  }

  lemma BackupHasNoTrailingDigits()
    ensures !EndsInHyphenDigitsSpec("file-1-backup")
  {
    assert TrailingDigits("file-1-backup") == 0;
    EndsInHyphenDigitsMeaning("file-1-backup");
  }

  lemma BackupHasOneHyphenDigit()
    ensures CountHyphenDigits("file-1-backup") <= 1
  {
    var stem, tail := "file-1-backup", "-1-backup";
    assert CountHyphenDigits(stem) == CountHyphenDigits(tail) by {
      SkipNonHyphens(stem, 4);
      assert stem[4..] == tail;
    }
    assert CountHyphenDigits(tail) == 1 + CountHyphenDigits(tail[1..]) by {
      assert HyphenDigitAt(tail, 0);
    }
    BackupTailHasNone();
    assert tail[1..] == "1-backup";
  }

  lemma BackupTailHasNone()
    ensures CountHyphenDigits("1-backup") == 0
  {
    var rest, word := "1-backup", "backup";
    SkipNonHyphens(rest, 1);
    assert rest[1..] == "-backup";
    assert !HyphenDigitAt("-backup", 0) && "-backup"[1..] == word;
    assert forall t :: 0 <= t < |word| ==> word[t] != '-';
    SkipNonHyphens(word, |word|);
  }

  /**
   * A nested version suffix is judged date-like: stripping "-2" from
   * "file-1-2" leaves "file-1", which itself ends in a hyphen and digits.
   */
  lemma NestedVersionIsDateLike()
    ensures IsLikelyDatePattern("file-1-2", "file-1")
  {
    var residual := "file-1";
    assert residual[4] == '-' && IsDigit(residual[5]);
  }
}
