/**
 * Pair enumeration of the line-oriented interface (interactive.go): the
 * unordered pairs of a group in row-major order, the index of a file in
 * its group, the map from file indices to pair positions, and the choice
 * of a pair from two typed file numbers.
 */
module Pairs {
  import opened Wrappers

  /** Two files to compare, in display order (a two-element slice in the source). */
  datatype Pair = Pair(first: string, second: string)

  predicate Distinct(group: seq<string>)
  {
    forall a, b :: 0 <= a < b < |group| ==> group[a] != group[b]
  }

  // ------------------------------------------------------------ positions

  /** Position of the first pair whose first element is group[i]: rows 0..i-1 hold n-1, n-2, ... pairs. */
  function RowStart(n: nat, i: nat): nat
    requires i <= n
  {
    if i == 0 then 0 else RowStart(n, i - 1) + (n - i)
  }

  /** Position of (group[i], group[j]) in the row-major list. */
  function PairIndex(n: nat, i: nat, j: nat): nat
    requires i < j <= n
  {
    RowStart(n, i) + (j - i - 1)
  }

  /** The number of pairs of n items: every row, summed. */
  function PairCount(n: nat): nat
  {
    RowStart(n, n)
  }

  lemma {:induction false} RowStartClosedForm(n: nat, i: nat)
    requires i <= n
    ensures 2 * RowStart(n, i) == i * (2 * n - i - 1)
  {
    if i > 0 {
      RowStartClosedForm(n, i - 1);
      assert (i - 1) * (2 * n - i) == i * (2 * n - i) - (2 * n - i);
    }
  }

  /** n items give n(n-1)/2 pairs. */
  lemma PairCountClosedForm(n: nat)
    ensures PairCount(n) == n * (n - 1) / 2
    ensures n <= 1 ==> PairCount(n) == 0
  {
    RowStartClosedForm(n, n);
  }

  lemma {:induction false} RowStartMonotone(n: nat, a: nat, c: nat)
    requires a <= c <= n
    ensures RowStart(n, a) <= RowStart(n, c)
    ensures a < c ==> RowStart(n, a) + (n - a - 1) <= RowStart(n, c)
  {
    if a < c {
      RowStartMonotone(n, a, c - 1);
    }
  }

  /** Row-major order: (a, b) before (c, d) lexicographically means an earlier position. */
  lemma PairIndexOrder(n: nat, a: nat, b: nat, c: nat, d: nat)
    requires a < b < n && c < d < n
    requires a < c || (a == c && b < d)
    ensures PairIndex(n, a, b) < PairIndex(n, c, d)
  {
    if a < c {
      RowStartMonotone(n, a, c);
    }
  }

  lemma PairIndexInjective(n: nat, a: nat, b: nat, c: nat, d: nat)
    requires a < b < n && c < d < n
    requires PairIndex(n, a, b) == PairIndex(n, c, d)
    ensures a == c && b == d
  {
    if a < c || (a == c && b < d) {
      PairIndexOrder(n, a, b, c, d);
    } else if c < a || (a == c && d < b) {
      PairIndexOrder(n, c, d, a, b);
    }
  }

  /** Every position below the pair count belongs to some pair. */
  lemma PairAt(n: nat, k: nat) returns (i: nat, j: nat)
    requires k < PairCount(n)
    ensures i < j < n && PairIndex(n, i, j) == k
  {
    i, j := PairAtFrom(n, 0, k);
  }

  lemma {:induction false} PairAtFrom(n: nat, i0: nat, k: nat) returns (i: nat, j: nat)
    requires i0 <= n && RowStart(n, i0) <= k < PairCount(n)
    ensures i0 <= i < j < n && PairIndex(n, i, j) == k
    decreases n - i0
  {
    if i0 == n {
      // RowStart(n, n) <= k < PairCount(n) is impossible
    } else if k < RowStart(n, i0 + 1) {
      i, j := i0, i0 + 1 + (k - RowStart(n, i0));
    } else {
      i, j := PairAtFrom(n, i0 + 1, k);
    }
  }

  // -------------------------------------------------------------- pairs

  /**
   * The pairs of a group as generatePairs lists them: n(n-1)/2 of them,
   * with (group[i], group[j]) for i < j at position PairIndex(n, i, j).
   */
  ghost predicate ArePairsOf(pairs: seq<Pair>, group: seq<string>)
  {
    && |pairs| == PairCount(|group|)
    && forall a, b :: 0 <= a < b < |group| ==>
         PairIndex(|group|, a, b) < |pairs| && pairs[PairIndex(|group|, a, b)] == Pair(group[a], group[b])
  }

  /** generatePairs (interactive.go:148-156). */
  method GeneratePairs(group: seq<string>) returns (pairs: seq<Pair>)
    ensures ArePairsOf(pairs, group)
    ensures |pairs| == |group| * (|group| - 1) / 2
  {
    var n := |group|;
    pairs := [];
    for i := 0 to n
      invariant |pairs| == RowStart(n, i)
      invariant forall a, b :: 0 <= a < b < n && a < i ==>
        PairIndex(n, a, b) < |pairs| && pairs[PairIndex(n, a, b)] == Pair(group[a], group[b])
    {
      for j := i + 1 to n
        invariant |pairs| == RowStart(n, i) + (j - i - 1)
        invariant forall a, b :: 0 <= a < b < n && (a < i || (a == i && b < j)) ==>
          PairIndex(n, a, b) < |pairs| && pairs[PairIndex(n, a, b)] == Pair(group[a], group[b])
      {
        pairs := pairs + [Pair(group[i], group[j])];
      }
    }
    PairCountClosedForm(n);
  }

  /** Every listed pair is (group[i], group[j]) for some i < j. */
  lemma PairsComeFromGroup(pairs: seq<Pair>, group: seq<string>, k: nat) returns (i: nat, j: nat)
    requires ArePairsOf(pairs, group) && k < |pairs|
    ensures i < j < |group| && PairIndex(|group|, i, j) == k && pairs[k] == Pair(group[i], group[j])
  {
    i, j := PairAt(|group|, k);
  }

  /** In a group without repeated files, no pair is listed twice. */
  lemma DistinctGroupDistinctPairs(pairs: seq<Pair>, group: seq<string>, k1: nat, k2: nat)
    requires ArePairsOf(pairs, group) && Distinct(group)
    requires k1 < k2 < |pairs|
    ensures pairs[k1] != pairs[k2]
  {
    var a, b := PairsComeFromGroup(pairs, group, k1);
    var c, d := PairsComeFromGroup(pairs, group, k2);
  }

  // ------------------------------------------------------------ indices

  /** findFileIndex (interactive.go:178-185): the first position holding file, or -1. */
  function FindFileIndex(group: seq<string>, file: string): (index: int)
    ensures -1 <= index < |group|
    ensures index == -1 <==> file !in group
    ensures 0 <= index ==> group[index] == file && forall k :: 0 <= k < index ==> group[k] != file
  {
    if |group| == 0 then -1
    else if group[0] == file then 0
    else
      var rest := FindFileIndex(group[1..], file);
      if rest == -1 then -1 else rest + 1
  }

  lemma FindDistinct(group: seq<string>, a: nat)
    requires Distinct(group) && a < |group|
    ensures FindFileIndex(group, group[a]) == a
  {
  }

  // ------------------------------------------------------------ pair map

  /** The map key of a pair: its two file indices, smaller first (the "i-j" string). */
  function Key(group: seq<string>, pair: Pair): (key: (int, int))
    ensures key.0 <= key.1
    ensures multiset{key.0, key.1} == multiset{FindFileIndex(group, pair.first), FindFileIndex(group, pair.second)}
    ensures key.0 == -1 <==> pair.first !in group || pair.second !in group
    ensures key.0 != -1 ==> key.1 < |group| && {group[key.0], group[key.1]} == {pair.first, pair.second}
  {
    var i1 := FindFileIndex(group, pair.first);
    var i2 := FindFileIndex(group, pair.second);
    if i1 < i2 then (i1, i2) else (i2, i1)
  }

  /**
   * Writes position k under keys[k] for k = 0, 1, ... in turn: every key
   * maps to the last position that carries it.
   */
  function LastPositions(keys: seq<(int, int)>): (m: map<(int, int), nat>)
    ensures forall k :: 0 <= k < |keys| ==> keys[k] in m
    ensures forall key :: key in m ==> m[key] < |keys| && keys[m[key]] == key
    ensures forall key, k :: key in m && m[key] < k < |keys| ==> keys[k] != key
  {
    if |keys| == 0 then map[]
    else
      var last := |keys| - 1;
      var m := LastPositions(keys[..last]);
      assert forall k :: 0 <= k < last ==> keys[..last][k] == keys[k];
      m[keys[last] := last]
  }

  /** The key of every pair, in list order. */
  function Keys(group: seq<string>, pairs: seq<Pair>): (keys: seq<(int, int)>)
    ensures |keys| == |pairs|
  {
    seq(|pairs|, k requires 0 <= k < |pairs| => Key(group, pairs[k]))
  }

  /** createPairMap (interactive.go:160-175): each pair's key maps to its position, later pairs winning. */
  function PairMap(group: seq<string>, pairs: seq<Pair>): (m: map<(int, int), nat>)
    ensures forall k :: 0 <= k < |pairs| ==> Key(group, pairs[k]) in m
    ensures forall key :: key in m ==> m[key] < |pairs| && Key(group, pairs[m[key]]) == key
    ensures forall key, k :: key in m && m[key] < k < |pairs| ==> Key(group, pairs[k]) != key
  {
    var keys := Keys(group, pairs);
    assert forall k :: 0 <= k < |pairs| ==> keys[k] == Key(group, pairs[k]);
    LastPositions(keys)
  }

  /** In a group without repeated files, the pair at PairIndex(n, i, j) has key (i, j). */
  lemma KeyOfGeneratedPair(group: seq<string>, pairs: seq<Pair>, i: nat, j: nat)
    requires Distinct(group) && ArePairsOf(pairs, group) && i < j < |group|
    ensures Keys(group, pairs)[PairIndex(|group|, i, j)] == (i, j)
  {
    FindDistinct(group, i);
    FindDistinct(group, j);
  }

  /**
   * For a group without repeated files and its generated pairs, the map
   * holds exactly the keys (i, j) with i < j, each mapped to the position
   * of (group[i], group[j]).
   */
  lemma PairMapOfGroup(group: seq<string>, pairs: seq<Pair>)
    requires Distinct(group) && ArePairsOf(pairs, group)
    ensures forall i, j :: 0 <= i < j < |group| ==>
      (i, j) in PairMap(group, pairs) && PairMap(group, pairs)[(i, j)] == PairIndex(|group|, i, j)
    ensures forall key :: key in PairMap(group, pairs) ==> 0 <= key.0 < key.1 < |group|
  {
    var n := |group|;
    var keys := Keys(group, pairs);
    var m := PairMap(group, pairs);
    forall i, j | 0 <= i < j < n
      ensures (i, j) in m && m[(i, j)] == PairIndex(n, i, j)
    {
      KeyOfGeneratedPair(group, pairs, i, j);
      var k := m[(i, j)];
      var c, d := PairsComeFromGroup(pairs, group, k);
      KeyOfGeneratedPair(group, pairs, c, d);
      PairIndexInjective(n, i, j, c, d);
    }
    forall key | key in m
      ensures 0 <= key.0 < key.1 < n
    {
      var c, d := PairsComeFromGroup(pairs, group, m[key]);
      KeyOfGeneratedPair(group, pairs, c, d);
    }
  }

  // ------------------------------------------------------- file numbers

  /** The file-number check (interactive.go:92): both in 1..n and different. */
  predicate ValidFileNumbers(n: int, file1: int, file2: int)
  {
    1 <= file1 <= n && 1 <= file2 <= n && file1 != file2
  }

  datatype SelectError = InvalidFileNumbers | NoPairFound

  /**
   * The pair chosen by two typed file numbers (interactive.go:92-115):
   * the key in typed order, or else the reversed key with the pair
   * shown reversed.
   */
  function SelectByFileNumbers(group: seq<string>, pairs: seq<Pair>, file1: int, file2: int): (r: Result<Pair, SelectError>)
    ensures r == Failure(InvalidFileNumbers) <==> !ValidFileNumbers(|group|, file1, file2)
    ensures r.Success? ==>
      exists k :: 0 <= k < |pairs| && (r.value == pairs[k] || r.value == Pair(pairs[k].second, pairs[k].first))
  {
    if !ValidFileNumbers(|group|, file1, file2) then Failure(InvalidFileNumbers)
    else
      var m := PairMap(group, pairs);
      if (file1 - 1, file2 - 1) in m then
        var p := pairs[m[(file1 - 1, file2 - 1)]];
        Success(Pair(p.first, p.second))
      else if (file2 - 1, file1 - 1) in m then
        var p := pairs[m[(file2 - 1, file1 - 1)]];
        Success(Pair(p.second, p.first))
      else Failure(NoPairFound)
  }

  /**
   * For a group without repeated files and its generated pairs, valid file
   * numbers always find their pair, shown in the order they were typed.
   */
  lemma FileNumbersSelectTypedOrder(group: seq<string>, pairs: seq<Pair>, file1: int, file2: int)
    requires Distinct(group) && ArePairsOf(pairs, group)
    requires ValidFileNumbers(|group|, file1, file2)
    ensures SelectByFileNumbers(group, pairs, file1, file2) == Success(Pair(group[file1 - 1], group[file2 - 1]))
  {
    PairMapOfGroup(group, pairs);
    var n := |group|;
    if file1 < file2 {
      assert PairMap(group, pairs)[(file1 - 1, file2 - 1)] == PairIndex(n, file1 - 1, file2 - 1);
    } else {
      assert (file1 - 1, file2 - 1) !in PairMap(group, pairs);
      assert PairMap(group, pairs)[(file2 - 1, file1 - 1)] == PairIndex(n, file2 - 1, file1 - 1);
    }
  }
}
