/**
 * Prefix clustering (matcher.go): files whose base filenames share a
 * common prefix of at least `minPrefixLength` bytes are merged in a
 * union-find array, and the resulting classes of two or more files are
 * the groups.
 *
 * The groups are the connected components of the "shares a long enough
 * prefix" relation over base filenames. Their order, which the source
 * takes from map iteration, is fixed here: groups by their first member's
 * input index, members in input order.
 */
module Matcher {
  import opened Paths
  import opened UnionFind

  // ---------------------------------------------------------------- prefixes

  /** Length of the longest common prefix of a and b, scanning on from index i. */
  function MatchLength(a: string, b: string, i: nat): (n: nat)
    requires i <= |a| && i <= |b| && a[..i] == b[..i]
    ensures i <= n <= |a| && n <= |b| && a[..n] == b[..n]
    ensures n == |a| || n == |b| || a[n] != b[n]
    decreases |a| - i
  {
    if i < |a| && i < |b| && a[i] == b[i] then
      assert a[..i + 1] == a[..i] + [a[i]] && b[..i + 1] == b[..i] + [b[i]];
      MatchLength(a, b, i + 1)
    else i
  }

  /**
   * The common prefix of two strings (commonPrefix): a prefix of both, and
   * maximal, because at its end one string ends or the next bytes differ.
   */
  function CommonPrefix(a: string, b: string): (p: string)
    ensures |p| <= |a| && |p| <= |b|
    ensures p == a[..|p|] && p == b[..|p|]
    ensures |p| == |a| || |p| == |b| || a[|p|] != b[|p|]
    ensures a == b ==> p == a
    ensures |a| == 0 || |b| == 0 ==> p == ""
  {
    a[..MatchLength(a, b, 0)]
  }

  /** a and b agree on their first k bytes. */
  predicate SharePrefix(a: string, b: string, k: int)
  {
    k <= 0 || (k <= |a| && k <= |b| && a[..k] == b[..k])
  }

  /** The common prefix reaches length k exactly when the strings agree on their first k bytes. */
  lemma CommonPrefixReaches(a: string, b: string, k: int)
    ensures |CommonPrefix(a, b)| >= k <==> SharePrefix(a, b, k)
  {
    var p := CommonPrefix(a, b);
    if |p| >= k > 0 {
      assert a[..k] == p[..k] == b[..k];
    }
  }

  /** The length of the common prefix does not depend on argument order. */
  lemma CommonPrefixSymmetric(a: string, b: string)
    ensures |CommonPrefix(a, b)| == |CommonPrefix(b, a)|
  {
    var m, n := |CommonPrefix(a, b)|, |CommonPrefix(b, a)|;
    CommonPrefixReaches(a, b, n);
    CommonPrefixReaches(b, a, m);
  }

  // ------------------------------------------------------------ connectivity

  /** Files x and y are directly merged: their base names share at least k bytes (matcher.go:47-48). */
  ghost predicate Linked(names: seq<string>, k: int, x: int, y: int)
  {
    0 <= x < |names| && 0 <= y < |names| && |CommonPrefix(names[x], names[y])| >= k
  }

  /** A walk along Linked pairs. */
  ghost predicate IsChain(names: seq<string>, k: int, path: seq<int>)
  {
    && |path| > 0
    && (forall t :: 0 <= t < |path| ==> 0 <= path[t] < |names|)
    && (forall t :: 0 <= t < |path| - 1 ==> Linked(names, k, path[t], path[t + 1]))
  }

  /** Files x and y are joined by a chain of Linked pairs. */
  ghost predicate Connected(names: seq<string>, k: int, x: int, y: int)
  {
    exists path :: IsChain(names, k, path) && path[0] == x && path[|path| - 1] == y
  }

  lemma LinkedSymmetric(names: seq<string>, k: int, x: int, y: int)
    requires Linked(names, k, x, y)
    ensures Linked(names, k, y, x)
  {
    CommonPrefixSymmetric(names[x], names[y]);
  }

  lemma ConnectedReflexive(names: seq<string>, k: int, x: int)
    requires 0 <= x < |names|
    ensures Connected(names, k, x, x)
  {
    assert IsChain(names, k, [x]);
  }

  lemma LinkedConnected(names: seq<string>, k: int, x: int, y: int)
    requires Linked(names, k, x, y)
    ensures Connected(names, k, x, y)
  {
    assert IsChain(names, k, [x, y]);
  }

  lemma ConnectedSymmetric(names: seq<string>, k: int, x: int, y: int)
    requires Connected(names, k, x, y)
    ensures Connected(names, k, y, x)
  {
    var path :| IsChain(names, k, path) && path[0] == x && path[|path| - 1] == y;
    var back := seq(|path|, t requires 0 <= t < |path| => path[|path| - 1 - t]);
    forall t | 0 <= t < |back| - 1 ensures Linked(names, k, back[t], back[t + 1]) {
      LinkedSymmetric(names, k, path[|path| - 2 - t], path[|path| - 1 - t]);
    }
    assert IsChain(names, k, back);
  }

  lemma ConnectedTransitive(names: seq<string>, k: int, x: int, y: int, z: int)
    requires Connected(names, k, x, y) && Connected(names, k, y, z)
    ensures Connected(names, k, x, z)
  {
    var p :| IsChain(names, k, p) && p[0] == x && p[|p| - 1] == y;
    var q :| IsChain(names, k, q) && q[0] == y && q[|q| - 1] == z;
    var pq := p + q[1..];
    forall t | 0 <= t < |pq| - 1 ensures Linked(names, k, pq[t], pq[t + 1]) {
      if t < |p| - 1 {
        assert pq[t] == p[t] && pq[t + 1] == p[t + 1];
      } else {
        assert pq[t] == q[t - |p| + 1] && pq[t + 1] == q[t - |p| + 2];
      }
    }
    assert IsChain(names, k, pq);
  }

  // --------------------------------------------------------------- tagging

  /** Equal tags only between connected files. */
  ghost predicate Sound(names: seq<string>, k: int, tag: seq<nat>)
  {
    && |tag| == |names|
    && forall x, y :: 0 <= x < |names| && 0 <= y < |names| && tag[x] == tag[y] ==> Connected(names, k, x, y)
  }

  /** Every Linked pair (a, b), a < b, visited before (i, j) in row-major order carries equal tags. */
  ghost predicate MergedBefore(names: seq<string>, k: int, tag: seq<nat>, i: int, j: int)
    requires |tag| == |names|
  {
    forall a, b :: 0 <= a < b < |names| && (a < i || (a == i && b < j)) && Linked(names, k, a, b) ==> tag[a] == tag[b]
  }

  /** The tags after every element tagged `from` is retagged `to`. */
  ghost function Retag(tag: seq<nat>, from: nat, to: nat): (retagged: seq<nat>)
    ensures |retagged| == |tag|
  {
    seq(|tag|, z requires 0 <= z < |tag| => if tag[z] == from then to else tag[z])
  }

  /** Merging the classes of two Linked files keeps the tagging sound. */
  lemma MergeKeepsSound(names: seq<string>, k: int, tag: seq<nat>, i: nat, j: nat)
    requires Sound(names, k, tag) && Linked(names, k, i, j)
    ensures Sound(names, k, Retag(tag, tag[j], tag[i]))
  {
    var merged := Retag(tag, tag[j], tag[i]);
    forall x, y | 0 <= x < |names| && 0 <= y < |names| && merged[x] == merged[y]
      ensures Connected(names, k, x, y)
    {
      LinkedConnected(names, k, i, j);
      ConnectedSymmetric(names, k, i, j);
      if tag[x] == tag[y] {
      } else if tag[x] == tag[j] {
        // x lies with j, y with i
        ConnectedTransitive(names, k, x, j, i);
        ConnectedTransitive(names, k, x, i, y);
      } else {
        // x lies with i, y with j
        ConnectedTransitive(names, k, x, i, j);
        ConnectedTransitive(names, k, x, j, y);
      }
    }
  }

  /** When every Linked pair carries equal tags, so does every chain's two ends. */
  lemma {:induction false} ChainKeepsTag(names: seq<string>, k: int, tag: seq<nat>, path: seq<int>)
    requires |tag| == |names| && MergedBefore(names, k, tag, |names|, |names|)
    requires IsChain(names, k, path)
    ensures tag[path[0]] == tag[path[|path| - 1]]
    decreases |path|
  {
    if |path| > 1 {
      var init := path[..|path| - 1];
      assert IsChain(names, k, init) by {
        forall t | 0 <= t < |init| - 1 ensures Linked(names, k, init[t], init[t + 1]) {
          assert init[t] == path[t] && init[t + 1] == path[t + 1];
        }
      }
      ChainKeepsTag(names, k, tag, init);
      var a, b := path[|path| - 2], path[|path| - 1];
      assert Linked(names, k, a, b);
      if b < a {
        LinkedSymmetric(names, k, a, b);
      }
    }
  }

  /** The tags record each element's current root in the parent array. */
  ghost predicate Tracks(parent: seq<nat>, level: seq<nat>, tag: seq<nat>)
  {
    && Forest(parent, level) && |tag| == |parent|
    && forall z :: 0 <= z < |parent| ==> tag[z] == Root(parent, level, z)
  }

  /**
   * One step of the pair loop (matcher.go:47-55): when the base names of
   * files i and j share at least k bytes, their roots are found and, if
   * distinct, j's root is hung under i's.
   */
  method MergePair(names: seq<string>, k: int, parent: seq<nat>, ghost level: seq<nat>, ghost tag: seq<nat>, i: nat, j: nat)
    returns (parent': seq<nat>, ghost level': seq<nat>, ghost tag': seq<nat>)
    requires i < j < |names| == |parent|
    requires Tracks(parent, level, tag) && Sound(names, k, tag)
    requires MergedBefore(names, k, tag, i, j)
    ensures |parent'| == |parent|
    ensures Tracks(parent', level', tag') && Sound(names, k, tag')
    ensures MergedBefore(names, k, tag', i, j + 1)
  {
    parent', level', tag' := parent, level, tag;
    var prefix := CommonPrefix(names[i], names[j]);
    if |prefix| >= k {
      var foundI := FindRoot(parent', level', i);
      var rootI := foundI.0;
      parent' := foundI.1;
      var foundJ := FindRoot(parent', level', j);
      var rootJ := foundJ.0;
      parent' := foundJ.1;
      if rootI != rootJ {
        Link(parent', level', rootI, rootJ);
        MergeKeepsSound(names, k, tag', i, j);
        tag' := Retag(tag', rootJ, rootI);
        level' := LiftedLevels(parent', level', rootI, rootJ);
        parent' := parent'[rootJ := rootI];
      }
    }
  }

  /**
   * The union-find pass of Group (matcher.go:39-64): every pair i < j whose
   * base names share at least k bytes is merged, then each file's root is
   * resolved. Two files end with the same root exactly when they are
   * connected.
   */
  method ResolveRoots(names: seq<string>, k: int) returns (roots: seq<nat>)
    ensures |roots| == |names|
    ensures forall x :: 0 <= x < |names| ==> roots[x] < |names|
    ensures forall x, y :: 0 <= x < |names| && 0 <= y < |names| ==>
      (roots[x] == roots[y] <==> Connected(names, k, x, y))
  {
    var n := |names|;
    var parent: seq<nat> := Singletons(n);
    ghost var level := FlatLevels(n);
    ghost var tag: seq<nat> := seq(n, z => z);
    forall x, y | 0 <= x < n && 0 <= y < n && tag[x] == tag[y] ensures Connected(names, k, x, y) {
      ConnectedReflexive(names, k, x);
    }
    for i := 0 to n
      invariant |parent| == n && Tracks(parent, level, tag)
      invariant Sound(names, k, tag)
      invariant MergedBefore(names, k, tag, i, i)
    {
      for j := i + 1 to n
        invariant |parent| == n && Tracks(parent, level, tag)
        invariant Sound(names, k, tag)
        invariant MergedBefore(names, k, tag, i, j)
      {
        parent, level, tag := MergePair(names, k, parent, level, tag, i, j);
      }
    }
    roots := [];
    for x := 0 to n
      invariant |parent| == n && Tracks(parent, level, tag)
      invariant |roots| == x && forall z :: 0 <= z < x ==> roots[z] == tag[z]
    {
      var found := FindRoot(parent, level, x);
      parent := found.1;
      roots := roots + [found.0];
    }
    forall x, y | 0 <= x < n && 0 <= y < n && Connected(names, k, x, y) ensures roots[x] == roots[y] {
      var path :| IsChain(names, k, path) && path[0] == x && path[|path| - 1] == y;
      ChainKeepsTag(names, k, tag, path);
    }
  }

  // ---------------------------------------------------------------- grouping

  /** Input indices carrying tag t, in increasing order: the files collected under one root. */
  function Members(tags: seq<nat>, t: nat): (g: seq<nat>)
    ensures forall p :: 0 <= p < |g| ==> g[p] < |tags| && tags[g[p]] == t
    ensures forall x :: 0 <= x < |tags| && tags[x] == t ==> x in g
    ensures forall p, q :: 0 <= p < q < |g| ==> g[p] < g[q]
  {
    if |tags| == 0 then []
    else
      var last := |tags| - 1;
      Members(tags[..last], t) + (if tags[last] == t then [last] else [])
  }

  /** x is the first input index carrying its tag. */
  predicate FirstOfTag(tags: seq<nat>, x: nat)
    requires x < |tags|
  {
    forall y :: 0 <= y < x ==> tags[y] != tags[x]
  }

  /** A class of two or more files starts at x: x leads a group. */
  predicate Leads(tags: seq<nat>, x: nat)
    requires x < |tags|
  {
    FirstOfTag(tags, x) && |Members(tags, tags[x])| >= 2
  }

  /** The positions below m whose flag is set, in increasing order. */
  function Flagged(flags: seq<bool>, m: nat): (picked: seq<nat>)
    requires m <= |flags|
    ensures forall p :: 0 <= p < |picked| ==> picked[p] < m && flags[picked[p]]
    ensures forall x :: 0 <= x < m && flags[x] ==> x in picked
    ensures forall p, q :: 0 <= p < q < |picked| ==> picked[p] < picked[q]
  {
    if m == 0 then []
    else Flagged(flags, m - 1) + (if flags[m - 1] then [m - 1] else [])
  }

  /** The indices below m that lead a group, in increasing order. */
  function Leaders(tags: seq<nat>, m: nat): (leaders: seq<nat>)
    requires m <= |tags|
    ensures forall p :: 0 <= p < |leaders| ==> leaders[p] < m && Leads(tags, leaders[p])
    ensures forall x :: 0 <= x < m && Leads(tags, x) ==> x in leaders
    ensures forall p, q :: 0 <= p < q < |leaders| ==> leaders[p] < leaders[q]
  {
    Flagged(seq(|tags|, x requires 0 <= x < |tags| => Leads(tags, x)), m)
  }

  /** A class's first member is its leader. */
  lemma MembersStartAtLeader(tags: seq<nat>, x: nat)
    requires x < |tags| && FirstOfTag(tags, x)
    ensures |Members(tags, tags[x])| > 0 && Members(tags, tags[x])[0] == x
  {
    var g := Members(tags, tags[x]);
    assert x in g;
    var p :| 0 <= p < |g| && g[p] == x;
    // were p > 0, g[0] < x would carry x's tag before x
  }

  /**
   * The classes of two or more files, ordered by their first member (the
   * collection of matcher.go:59-72, with the map's order fixed).
   */
  function CollectGroups(tags: seq<nat>): (groups: seq<seq<nat>>)
    ensures |groups| == |Leaders(tags, |tags|)|
    ensures forall a :: 0 <= a < |groups| ==> groups[a] == Members(tags, tags[Leaders(tags, |tags|)[a]])
  {
    var leaders := Leaders(tags, |tags|);
    seq(|leaders|, a requires 0 <= a < |leaders| => Members(tags, tags[leaders[a]]))
  }

  /** The base filename of every path (matcher.go:31-34). */
  function BaseNames(files: seq<string>): (names: seq<string>)
    ensures |names| == |files|
    ensures forall i :: 0 <= i < |files| ==> names[i] == Base(files[i])
  {
    seq(|files|, i requires 0 <= i < |files| => Base(files[i]))
  }

  /** Distinct collected groups share no member. */
  lemma CollectedGroupsDisjoint(tags: seq<nat>, a: nat, b: nat, x: nat)
    requires a < b < |CollectGroups(tags)| && x in CollectGroups(tags)[a]
    ensures x !in CollectGroups(tags)[b]
  {
    var leaders := Leaders(tags, |tags|);
    var la, lb := leaders[a], leaders[b];
    assert la in leaders && lb in leaders;
    assert la < lb && FirstOfTag(tags, lb);
    assert tags[la] != tags[lb];
  }

  /** Two distinct files with one tag land in one collected group. */
  lemma SameTagCollected(tags: seq<nat>, x: nat, y: nat)
    requires x < |tags| && y < |tags| && x != y && tags[x] == tags[y]
    ensures exists a :: 0 <= a < |CollectGroups(tags)| && x in CollectGroups(tags)[a] && y in CollectGroups(tags)[a]
  {
    var g := Members(tags, tags[x]);
    assert x in g && y in g;
    var px :| 0 <= px < |g| && g[px] == x;
    var py :| 0 <= py < |g| && g[py] == y;
    assert px != py;
    var f := g[0];
    assert FirstOfTag(tags, f) by {
      // an earlier index with f's tag would be a member of g before g[0]
      forall z | 0 <= z < f ensures tags[z] != tags[f] {
      }
    }
    assert Members(tags, tags[f]) == g;
    var leaders := Leaders(tags, |tags|);
    assert f in leaders;
    var a :| 0 <= a < |leaders| && leaders[a] == f;
    assert CollectGroups(tags)[a] == g;
  }

  /**
   * The index groups are the connected components of two or more files:
   * each has at least two members in increasing order, groups come in the
   * order of their first members, no file is in two groups, and two
   * distinct files share a group exactly when they are connected.
   */
  ghost predicate ComponentGroups(names: seq<string>, k: int, members: seq<seq<nat>>)
  {
    && (forall a :: 0 <= a < |members| ==> |members[a]| >= 2)
    && (forall a, p :: 0 <= a < |members| && 0 <= p < |members[a]| ==> members[a][p] < |names|)
    && (forall a, p, q :: 0 <= a < |members| && 0 <= p < q < |members[a]| ==> members[a][p] < members[a][q])
    && (forall a, b :: 0 <= a < b < |members| ==> members[a][0] < members[b][0])
    && (forall a, b, x :: 0 <= a < b < |members| && x in members[a] ==> x !in members[b])
    && (forall a, x, y :: 0 <= a < |members| && x in members[a] && y in members[a] ==> Connected(names, k, x, y))
    && (forall x, y :: 0 <= x < |names| && 0 <= y < |names| && x != y && Connected(names, k, x, y) ==>
          exists a :: 0 <= a < |members| && x in members[a] && y in members[a])
  }

  /** Collecting the resolved roots yields exactly the components. */
  lemma CollectedAreComponents(names: seq<string>, k: int, roots: seq<nat>)
    requires |roots| == |names|
    requires forall x, y :: 0 <= x < |names| && 0 <= y < |names| ==>
      (roots[x] == roots[y] <==> Connected(names, k, x, y))
    ensures ComponentGroups(names, k, CollectGroups(roots))
  {
    var members := CollectGroups(roots);
    var leaders := Leaders(roots, |roots|);
    forall a | 0 <= a < |members| ensures |members[a]| >= 2 && members[a][0] == leaders[a] {
      assert leaders[a] in leaders;
      MembersStartAtLeader(roots, leaders[a]);
    }
    forall a, b, x | 0 <= a < b < |members| && x in members[a] ensures x !in members[b] {
      CollectedGroupsDisjoint(roots, a, b, x);
    }
    forall x, y | 0 <= x < |names| && 0 <= y < |names| && x != y && Connected(names, k, x, y)
      ensures exists a :: 0 <= a < |members| && x in members[a] && y in members[a]
    {
      SameTagCollected(roots, x, y);
    }
  }

  /**
   * Group (matcher.go:20-75): the groups are the connected components of
   * "base names share at least minPrefixLength bytes" having two or more
   * files, each group listing its files' paths; `members` holds the same
   * groups as input indices.
   */
  method Group(files: seq<string>, minPrefixLength: int) returns (groups: seq<seq<string>>, ghost members: seq<seq<nat>>)
    ensures |files| < 2 ==> groups == []
    ensures ComponentGroups(BaseNames(files), minPrefixLength, members)
    ensures |groups| == |members|
    ensures forall a :: 0 <= a < |groups| ==> |groups[a]| == |members[a]|
    ensures forall a, p :: 0 <= a < |groups| && 0 <= p < |groups[a]| ==>
      members[a][p] < |files| && groups[a][p] == files[members[a][p]]
  {
    if |files| < 2 {
      return [], [];
    }
    var names := BaseNames(files);
    var roots := ResolveRoots(names, minPrefixLength);
    var collected := CollectGroups(roots);
    CollectedAreComponents(names, minPrefixLength, roots);
    members := collected;
    groups := seq(|collected|, a requires 0 <= a < |collected| =>
      seq(|collected[a]|, p requires 0 <= p < |collected[a]| => files[collected[a][p]]));
  }

  /** With no two distinct files linked, a chain never leaves the file it starts at. */
  lemma {:induction false} ChainWithoutLinksStays(names: seq<string>, k: int, path: seq<int>, t: nat)
    requires IsChain(names, k, path)
    requires forall x, y :: Linked(names, k, x, y) ==> x == y
    requires t < |path|
    ensures path[t] == path[0]
  {
    if t > 0 {
      ChainWithoutLinksStays(names, k, path, t - 1);
    }
  }

  /** With no two distinct files linked, only a file is connected to itself. */
  lemma ConnectedWithoutLinks(names: seq<string>, k: int, x: int, y: int)
    requires forall x, y :: 0 <= x < |names| && 0 <= y < |names| && x != y ==> |CommonPrefix(names[x], names[y])| < k
    requires Connected(names, k, x, y)
    ensures x == y
  {
    var path :| IsChain(names, k, path) && path[0] == x && path[|path| - 1] == y;
    ChainWithoutLinksStays(names, k, path, |path| - 1);
  }

  /**
   * Files whose base names share fewer than k bytes are never merged
   * (matcher.go:48): when no two distinct files reach the threshold,
   * there are no groups at all.
   */
  lemma BelowThresholdNoGroups(names: seq<string>, k: int, members: seq<seq<nat>>)
    requires ComponentGroups(names, k, members)
    requires forall x, y :: 0 <= x < |names| && 0 <= y < |names| && x != y ==> |CommonPrefix(names[x], names[y])| < k
    ensures members == []
  {
    if |members| > 0 {
      var group := members[0];
      assert |group| >= 2 && group[0] < group[1];
      assert group[0] in group && group[1] in group;
      ConnectedWithoutLinks(names, k, group[0], group[1]);
    }
  }
}
