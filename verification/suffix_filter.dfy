/**
 * The suffix classifier of filterFilesBySuffix (main.go): keep the files
 * whose stem ends in a match of the suffix pattern that is not judged
 * date-like, add back the unsuffixed base files those matches point at,
 * and list every path once.
 *
 * The regular-expression engine is not modelled. A compiled pattern is
 * seen through the two operations the filter calls: the leftmost match
 * (FindStringIndex) and the string with every match deleted
 * (ReplaceAllString with an empty replacement).
 */
module SuffixFilter {
  import opened Wrappers
  import opened Paths
  import opened DateHeuristics

  /** Byte offsets [start, end) of a match in the searched string. */
  datatype Span = Span(start: nat, end: nat)

  /** A compiled suffix pattern. */
  datatype Pattern = Pattern(find: string -> Option<Span>, removeAll: string -> string)

  /** Matches lie inside the searched string, as FindStringIndex guarantees. */
  ghost predicate WellFormed(p: Pattern)
  {
    forall s :: p.find(s).Some? ==> p.find(s).value.start <= p.find(s).value.end <= |s|
  }

  /**
   * Deleting every match of a pattern whose leftmost match ends the string
   * removes exactly that match. Go's ReplaceAllString replaces matches left
   * to right from the leftmost one; after a match that ends the string only
   * an empty match at the end remains possible, and Go drops an empty match
   * that abuts the previous one. The predicate records that property of
   * the regexp engine, which is not part of this model.
   */
  ghost predicate EndAnchored(p: Pattern)
  {
    forall s :: p.find(s).Some? && p.find(s).value.start <= p.find(s).value.end == |s| ==>
      p.removeAll(s) == s[..p.find(s).value.start]
  }

  /** The stem's leftmost match ends exactly at the end of the stem (main.go:228-229). */
  predicate MatchesAtEnd(p: Pattern, stem: string)
  {
    p.find(stem).Some? && p.find(stem).value.end == |stem|
  }

  /** The base name a matching file points at: its stem with the matches deleted (main.go:233). */
  function Residual(p: Pattern, file: string): string
  {
    p.removeAll(Stem(file))
  }

  /** A file is accepted on its own: its stem matches at the end, and the match is not date-like. */
  predicate Accepted(p: Pattern, file: string)
  {
    MatchesAtEnd(p, Stem(file)) && !IsLikelyDatePattern(Stem(file), Residual(p, file))
  }

  /** For an end-anchored pattern, a matching file's residual is its stem cut before the match. */
  lemma ResidualIsStemPrefix(p: Pattern, file: string)
    requires WellFormed(p) && EndAnchored(p) && MatchesAtEnd(p, Stem(file))
    ensures Residual(p, file) == Stem(file)[..p.find(Stem(file)).value.start]
    ensures |Residual(p, file)| <= |Stem(file)|
  {
  }

  /**
   * The files accepted on their own (matchingFiles): every occurrence of an
   * accepted input, none of the others, in input order.
   */
  function AcceptedFiles(p: Pattern, files: seq<string>): (accepted: seq<string>)
    ensures forall f :: f in accepted <==> f in files && Accepted(p, f)
    ensures forall f :: multiset(accepted)[f] == if Accepted(p, f) then multiset(files)[f] else 0
    ensures IsSubsequence(accepted, files)
  {
    Filter(files, AcceptedSet(p, files))
  }

  /** The input files that are accepted, as a set. */
  function AcceptedSet(p: Pattern, files: seq<string>): set<string>
  {
    set f | f in files && Accepted(p, f)
  }

  /** The residuals of the accepted files (the baseNames map). */
  function MatchedBaseNames(p: Pattern, files: seq<string>): (names: set<string>)
    ensures forall b :: b in names <==> exists f :: f in files && Accepted(p, f) && Residual(p, f) == b
  {
    set f | f in files && Accepted(p, f) :: Residual(p, f)
  }

  /**
   * The input files whose stem is one of the given base names: every
   * occurrence of such a file, in input order.
   */
  function BaseFiles(files: seq<string>, names: set<string>): (base: seq<string>)
    ensures forall f :: f in base <==> f in files && Stem(f) in names
    ensures forall f :: multiset(base)[f] == if Stem(f) in names then multiset(files)[f] else 0
    ensures IsSubsequence(base, files)
  {
    Filter(files, StemIn(files, names))
  }

  /** The input files whose stem is one of the names, as a set. */
  function StemIn(files: seq<string>, names: set<string>): set<string>
  {
    set f | f in files && Stem(f) in names
  }

  // ------------------------------------------------------- order and duplicates

  /** ys is xs with some elements left out, the rest in their order. */
  predicate IsSubsequence(ys: seq<string>, xs: seq<string>)
    decreases |xs|
  {
    if |ys| == 0 then true
    else if |xs| == 0 then false
    else if ys[0] == xs[0] then IsSubsequence(ys[1..], xs[1..])
    else IsSubsequence(ys, xs[1..])
  }

  predicate NoDuplicates(xs: seq<string>)
  {
    forall i, j :: 0 <= i < j < |xs| ==> xs[i] != xs[j]
  }

  /** Every occurrence of the elements of xs that lie in keep, in their order in xs. */
  function Filter(xs: seq<string>, keep: set<string>): (kept: seq<string>)
    ensures forall x :: x in kept <==> x in xs && x in keep
    ensures forall x :: multiset(kept)[x] == if x in keep then multiset(xs)[x] else 0
    ensures IsSubsequence(kept, xs)
  {
    if |xs| == 0 then []
    else
      var rest := Filter(xs[1..], keep);
      assert xs == [xs[0]] + xs[1..];
      assert forall x :: x in xs ==> x == xs[0] || x in xs[1..];
      if xs[0] in keep then [xs[0]] + rest
      else
        SkipHead(rest, xs);
        rest
  }

  /** The position of the first occurrence of x in xs. */
  function FirstIndex(xs: seq<string>, x: string): (i: nat)
    requires x in xs
    ensures i < |xs| && xs[i] == x
    ensures forall k :: 0 <= k < i ==> xs[k] != x
  {
    if xs[0] == x then 0 else 1 + FirstIndex(xs[1..], x)
  }

  /** ys lists elements of xs in the order of their first occurrences in xs. */
  predicate InFirstOccurrenceOrder(ys: seq<string>, xs: seq<string>)
  {
    && (forall a :: 0 <= a < |ys| ==> ys[a] in xs)
    && (forall a, b :: 0 <= a < b < |ys| ==> FirstIndex(xs, ys[a]) < FirstIndex(xs, ys[b]))
  }

  /** Filtering keeps the relative order of first occurrences, in both directions. */
  lemma {:induction false} FilterKeepsFirstOrder(xs: seq<string>, keep: set<string>, x: string, y: string)
    requires x in Filter(xs, keep) && y in Filter(xs, keep)
    ensures FirstIndex(Filter(xs, keep), x) < FirstIndex(Filter(xs, keep), y) <==> FirstIndex(xs, x) < FirstIndex(xs, y)
    decreases |xs|
  {
    var kept := Filter(xs, keep);
    if xs[0] != x && xs[0] != y {
      var rest := Filter(xs[1..], keep);
      FilterKeepsFirstOrder(xs[1..], keep, x, y);
      if xs[0] in keep {
        assert kept == [xs[0]] + rest;
        assert FirstIndex(kept, x) == 1 + FirstIndex(rest, x);
        assert FirstIndex(kept, y) == 1 + FirstIndex(rest, y);
      }
    } else {
      assert kept[0] == xs[0];
    }
  }

  /** An order of first occurrences in a filtered list is the order in the whole list. */
  lemma OrderThroughFilter(ys: seq<string>, xs: seq<string>, keep: set<string>)
    requires InFirstOccurrenceOrder(ys, Filter(xs, keep))
    ensures InFirstOccurrenceOrder(ys, xs)
  {
    forall a, b | 0 <= a < b < |ys|
      ensures FirstIndex(xs, ys[a]) < FirstIndex(xs, ys[b])
    {
      FilterKeepsFirstOrder(xs, keep, ys[a], ys[b]);
    }
  }

  /** An order of first occurrences in the tail carries over to the whole list when the head is not listed. */
  lemma ShiftOrder(ys: seq<string>, xs: seq<string>)
    requires |xs| > 0 && xs[0] !in ys && InFirstOccurrenceOrder(ys, xs[1..])
    ensures InFirstOccurrenceOrder(ys, xs)
  {
    forall a | 0 <= a < |ys| ensures ys[a] in xs && FirstIndex(xs, ys[a]) == 1 + FirstIndex(xs[1..], ys[a]) {
      assert ys[a] != xs[0];
    }
  }

  /** Listing the head first, then later first occurrences, keeps the order. */
  lemma PrependHead(ys: seq<string>, xs: seq<string>)
    requires |xs| > 0 && xs[0] !in ys && InFirstOccurrenceOrder(ys, xs[1..])
    ensures InFirstOccurrenceOrder([xs[0]] + ys, xs)
  {
    ShiftOrder(ys, xs);
    var zs := [xs[0]] + ys;
    forall a, b | 0 <= a < b < |zs|
      ensures FirstIndex(xs, zs[a]) < FirstIndex(xs, zs[b])
    {
      if a > 0 {
        assert zs[a] == ys[a - 1] && zs[b] == ys[b - 1];
      } else {
        assert zs[b] == ys[b - 1] && zs[b] != xs[0];
      }
    }
  }

  lemma {:induction false} SubsequenceMembers(ys: seq<string>, xs: seq<string>)
    requires IsSubsequence(ys, xs)
    ensures forall y :: y in ys ==> y in xs
    decreases |xs|
  {
    if |ys| > 0 {
      if ys[0] == xs[0] {
        SubsequenceMembers(ys[1..], xs[1..]);
        assert forall y :: y in ys ==> y == ys[0] || y in ys[1..];
      } else {
        SubsequenceMembers(ys, xs[1..]);
      }
    }
  }

  /**
   * acc, followed by the elements of xs that are not yet present, each once
   * and in their order in xs: the `included` map of main.go:251-277.
   */
  function AppendNew(acc: seq<string>, xs: seq<string>): (r: seq<string>)
    ensures |acc| <= |r| && r[..|acc|] == acc
    ensures forall x :: x in r <==> x in acc || x in xs
    ensures forall x :: x in r[|acc|..] ==> x !in acc
    ensures NoDuplicates(acc) ==> NoDuplicates(r)
    ensures IsSubsequence(r[|acc|..], xs)
    decreases |xs|
  {
    if |xs| == 0 then acc
    else if xs[0] in acc then
      var r := AppendNew(acc, xs[1..]);
      assert forall x :: x in xs ==> x == xs[0] || x in xs[1..];
      SkipHead(r[|acc|..], xs);
      r
    else
      var acc' := acc + [xs[0]];
      var r := AppendNew(acc', xs[1..]);
      assert forall x :: x in xs ==> x == xs[0] || x in xs[1..];
      assert r[|acc|..] == [xs[0]] + r[|acc'|..];
      assert forall x :: x in r[|acc|..] ==> x == xs[0] || x in r[|acc'|..];
      r
  }

  /**
   * The elements AppendNew adds come in the order of their first
   * occurrences in xs: a value repeated in xs is placed where it first
   * appears.
   */
  lemma {:induction false} AppendNewFirstOccurrence(acc: seq<string>, xs: seq<string>)
    ensures InFirstOccurrenceOrder(AppendNew(acc, xs)[|acc|..], xs)
    decreases |xs|
  {
    var r := AppendNew(acc, xs);
    if |xs| > 0 {
      if xs[0] in acc {
        AppendNewFirstOccurrence(acc, xs[1..]);
        ShiftOrder(r[|acc|..], xs);
      } else {
        var acc' := acc + [xs[0]];
        AppendNewFirstOccurrence(acc', xs[1..]);
        assert r[|acc|..] == [xs[0]] + r[|acc'|..];
        assert xs[0] in acc';
        PrependHead(r[|acc'|..], xs);
      }
    }
  }

  /** A subsequence of the tail is a subsequence of the whole. */
  lemma {:induction false} SkipHead(ys: seq<string>, xs: seq<string>)
    requires |xs| > 0 && IsSubsequence(ys, xs[1..])
    ensures IsSubsequence(ys, xs)
    decreases |xs|, 0
  {
    if |ys| > 0 && ys[0] == xs[0] {
      SubsequenceTail(ys, xs[1..]);
    }
  }

  /** Dropping the head of a subsequence keeps a subsequence. */
  lemma {:induction false} SubsequenceTail(ys: seq<string>, xs: seq<string>)
    requires |ys| > 0 && IsSubsequence(ys, xs)
    ensures IsSubsequence(ys[1..], xs)
    decreases |xs|, 1
  {
    if ys[0] != xs[0] {
      SubsequenceTail(ys, xs[1..]);
    }
    SkipHead(ys[1..], xs);
  }

  // -------------------------------------------------------------- the filter

  /** f is the unsuffixed base file of some accepted file: its stem is that file's residual. */
  ghost predicate IsBaseFile(p: Pattern, files: seq<string>, f: string)
  {
    exists g :: g in files && Accepted(p, g) && Residual(p, g) == Stem(f)
  }

  /**
   * The result lists the accepted files first and the base files after:
   * positions below m hold accepted files, the rest hold files that are
   * only base files, and each part follows the first occurrences of its
   * files in the input.
   */
  ghost predicate AcceptedThenBase(p: Pattern, files: seq<string>, result: seq<string>, m: nat)
  {
    && SplitAt(p, files, result, m)
    && InFirstOccurrenceOrder(result[..m], files)
    && InFirstOccurrenceOrder(result[m..], files)
  }

  /** The first m entries are accepted, the rest are base files; both parts are subsequences. */
  ghost predicate SplitAt(p: Pattern, files: seq<string>, result: seq<string>, m: nat)
  {
    && m <= |result|
    && (forall i :: 0 <= i < m ==> Accepted(p, result[i]))
    && (forall i :: m <= i < |result| ==> !Accepted(p, result[i]) && IsBaseFile(p, files, result[i]))
    && IsSubsequence(result[..m], files)
    && IsSubsequence(result[m..], files)
  }

  /** filterFilesBySuffix with a pattern (main.go:220-279). */
  function FilterWith(p: Pattern, files: seq<string>): (result: seq<string>)
    ensures NoDuplicates(result)
    ensures forall f :: f in result <==> f in files && (Accepted(p, f) || IsBaseFile(p, files, f))
    ensures exists m: nat :: AcceptedThenBase(p, files, result, m)
    ensures (forall f :: f in files ==> !Accepted(p, f)) ==> result == []
  {
    var accepted := AcceptedFiles(p, files);
    var matched := AppendNew([], accepted);
    var base := BaseFiles(files, MatchedBaseNames(p, files));
    var result := AppendNew(matched, base);
    FilterWithShape(p, files, accepted, matched, base, result);
    FilterWithOrder(p, files, accepted, matched, base, result);
    assert AcceptedThenBase(p, files, result, |matched|);
    result
  }

  /** Both parts of the filter's result follow the first occurrences in the input. */
  lemma FilterWithOrder(p: Pattern, files: seq<string>, accepted: seq<string>,
                        matched: seq<string>, base: seq<string>, result: seq<string>)
    requires accepted == AcceptedFiles(p, files)
    requires matched == AppendNew([], accepted)
    requires base == BaseFiles(files, MatchedBaseNames(p, files))
    requires result == AppendNew(matched, base)
    ensures InFirstOccurrenceOrder(result[..|matched|], files)
    ensures InFirstOccurrenceOrder(result[|matched|..], files)
  {
    AppendNewFirstOccurrence([], accepted);
    assert matched[0..] == matched == result[..|matched|];
    OrderThroughFilter(matched, files, AcceptedSet(p, files));
    AppendNewFirstOccurrence(matched, base);
    OrderThroughFilter(result[|matched|..], files, StemIn(files, MatchedBaseNames(p, files)));
  }

  lemma FilterWithShape(p: Pattern, files: seq<string>, accepted: seq<string>,
                        matched: seq<string>, base: seq<string>, result: seq<string>)
    requires accepted == AcceptedFiles(p, files)
    requires matched == AppendNew([], accepted)
    requires base == BaseFiles(files, MatchedBaseNames(p, files))
    requires result == AppendNew(matched, base)
    ensures NoDuplicates(result)
    ensures forall f :: f in result <==> f in files && (Accepted(p, f) || IsBaseFile(p, files, f))
    ensures SplitAt(p, files, result, |matched|)
  {
    var m := |matched|;
    assert matched[0..] == matched;
    assert result[..m] == matched;
    SubsequenceTransitive(matched, accepted, files);
    SubsequenceTransitive(result[m..], base, files);
    forall i | 0 <= i < m
      ensures Accepted(p, result[i])
    {
      assert result[i] in matched;
    }
    forall i | m <= i < |result|
      ensures !Accepted(p, result[i]) && IsBaseFile(p, files, result[i])
    {
      assert result[i] in result[m..];
    }
  }

  /**
   * filterFilesBySuffix (main.go:208-280). Without a pattern the input is
   * returned unchanged. With one, the result lists each path once: the
   * accepted files in input order, then the files not accepted whose stem
   * is the residual of an accepted file, in input order. With no accepted
   * file there is nothing to report.
   */
  function FilterBySuffix(files: seq<string>, pattern: Option<Pattern>): (result: seq<string>)
    ensures pattern.None? ==> result == files
    ensures pattern.Some? ==> result == FilterWith(pattern.value, files)
  {
    match pattern
    case None => files
    case Some(p) => FilterWith(p, files)
  }

  lemma {:induction false} SubsequenceTransitive(zs: seq<string>, ys: seq<string>, xs: seq<string>)
    requires IsSubsequence(zs, ys) && IsSubsequence(ys, xs)
    ensures IsSubsequence(zs, xs)
    decreases |xs|
  {
    if |zs| > 0 && |ys| > 0 && |xs| > 0 {
      if ys[0] == xs[0] {
        if zs[0] == ys[0] {
          SubsequenceTransitive(zs[1..], ys[1..], xs[1..]);
        } else {
          SubsequenceTransitive(zs, ys[1..], xs[1..]);
          SkipHead(zs, xs);
        }
      } else {
        SubsequenceTransitive(zs, ys, xs[1..]);
        SkipHead(zs, xs);
      }
    }
  }
}
