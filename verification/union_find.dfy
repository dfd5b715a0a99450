/**
 * The parent array behind the prefix clustering of matcher.go: every
 * element points at a parent, roots point at themselves, and a merge
 * points one root at another.
 *
 * The array is kept as a value (`seq<nat>`); finding a root returns the
 * path-compressed array alongside the root. A ghost `level` per element
 * witnesses that the array is an acyclic forest: a non-root's parent sits
 * strictly lower, so following parents always ends at a root.
 */
module UnionFind {

  /** The parent array is a forest, and `level` strictly decreases towards the roots. */
  ghost predicate Forest(parent: seq<nat>, level: seq<nat>)
  {
    && |level| == |parent|
    && (forall x :: 0 <= x < |parent| ==> parent[x] < |parent|)
    && (forall x :: 0 <= x < |parent| && parent[x] != x ==> level[parent[x]] < level[x])
  }

  /** The root reached from x by following parents. */
  ghost function Root(parent: seq<nat>, level: seq<nat>, x: nat): (r: nat)
    requires Forest(parent, level) && x < |parent|
    ensures r < |parent| && parent[r] == r
    ensures r == x || level[r] < level[x]
    decreases level[x]
  {
    if parent[x] == x then x else Root(parent, level, parent[x])
  }

  /** All levels zero: the levels of an array of roots. */
  ghost function FlatLevels(n: nat): (level: seq<nat>)
    ensures |level| == n
  {
    seq(n, _ => 0)
  }

  /** Every element starts as its own root. */
  function Singletons(n: nat): (parent: seq<nat>)
    ensures |parent| == n
    ensures Forest(parent, FlatLevels(n))
    ensures forall x :: 0 <= x < n ==> Root(parent, FlatLevels(n), x) == x
  {
    seq(n, i => i)
  }

  /**
   * Find the root of x, pointing every element on the way directly at it
   * (findRoot in matcher.go). The array stays a forest under the same
   * levels, and no element's root changes.
   */
  function FindRoot(parent: seq<nat>, ghost level: seq<nat>, x: nat): (res: (nat, seq<nat>))
    requires Forest(parent, level) && x < |parent|
    ensures res.0 == Root(parent, level, x)
    ensures |res.1| == |parent| && res.1[res.0] == res.0
    ensures Forest(res.1, level)
    ensures forall y :: 0 <= y < |parent| ==> Root(res.1, level, y) == Root(parent, level, y)
    decreases level[x]
  {
    if parent[x] == x then (x, parent)
    else
      var (r, compressed) := FindRoot(parent, level, parent[x]);
      var updated := compressed[x := r];
      assert Forest(updated, level);
      RedirectToRootsKeepsRoots(compressed, updated, level);
      (r, updated)
  }

  /**
   * Re-pointing elements at their own roots (what path compression does)
   * leaves every root unchanged.
   */
  lemma {:induction false} RedirectToRootKeepsRoot(p: seq<nat>, q: seq<nat>, level: seq<nat>, y: nat)
    requires Forest(p, level) && Forest(q, level) && |q| == |p|
    requires forall z :: 0 <= z < |p| ==> q[z] == p[z] || q[z] == Root(p, level, z)
    requires y < |p|
    ensures Root(q, level, y) == Root(p, level, y)
    decreases level[y]
  {
    // when q[y] == y, either p[y] == y or y is Root(p, level, y), a root of p
    if q[y] != y {
      RedirectToRootKeepsRoot(p, q, level, q[y]);
      if q[y] == p[y] {
        assert p[y] != y;
      } else {
        assert Root(p, level, q[y]) == q[y];
      }
    }
  }

  lemma RedirectToRootsKeepsRoots(p: seq<nat>, q: seq<nat>, level: seq<nat>)
    requires Forest(p, level) && Forest(q, level) && |q| == |p|
    requires forall z :: 0 <= z < |p| ==> q[z] == p[z] || q[z] == Root(p, level, z)
    ensures forall y :: 0 <= y < |p| ==> Root(q, level, y) == Root(p, level, y)
  {
    forall y | 0 <= y < |p| ensures Root(q, level, y) == Root(p, level, y) {
      RedirectToRootKeepsRoot(p, q, level, y);
    }
  }

  /** Levels after rj is hung under ri: the tree of rj is lifted above ri. */
  ghost function LiftedLevels(parent: seq<nat>, level: seq<nat>, ri: nat, rj: nat): (lifted: seq<nat>)
    requires Forest(parent, level) && ri < |parent|
    ensures |lifted| == |level|
  {
    seq(|parent|, z requires 0 <= z < |parent| =>
      if Root(parent, level, z) == rj then level[z] + level[ri] + 1 else level[z])
  }

  /**
   * Merging two distinct roots (`groupID[rootJ] = rootI`) keeps the array
   * an acyclic forest, and moves exactly the elements rooted at rj under ri.
   */
  lemma Link(parent: seq<nat>, level: seq<nat>, ri: nat, rj: nat)
    requires Forest(parent, level) && ri < |parent| && rj < |parent|
    requires parent[ri] == ri && parent[rj] == rj && ri != rj
    ensures Forest(parent[rj := ri], LiftedLevels(parent, level, ri, rj))
    ensures forall z :: 0 <= z < |parent| ==>
      Root(parent[rj := ri], LiftedLevels(parent, level, ri, rj), z)
        == if Root(parent, level, z) == rj then ri else Root(parent, level, z)
  {
    var q := parent[rj := ri];
    var lifted := LiftedLevels(parent, level, ri, rj);
    assert Root(parent, level, ri) == ri;
    assert Root(parent, level, rj) == rj;
    forall x | 0 <= x < |q| && q[x] != x ensures lifted[q[x]] < lifted[x] {
      if x != rj {
        assert Root(parent, level, parent[x]) == Root(parent, level, x);
      }
    }
    forall z | 0 <= z < |parent|
      ensures Root(q, lifted, z) == if Root(parent, level, z) == rj then ri else Root(parent, level, z)
    {
      LinkMovesRoot(parent, level, ri, rj, z);
    }
  }

  lemma {:induction false} LinkMovesRoot(parent: seq<nat>, level: seq<nat>, ri: nat, rj: nat, z: nat)
    requires Forest(parent, level) && ri < |parent| && rj < |parent|
    requires parent[ri] == ri && parent[rj] == rj && ri != rj
    requires Forest(parent[rj := ri], LiftedLevels(parent, level, ri, rj))
    requires z < |parent|
    ensures Root(parent[rj := ri], LiftedLevels(parent, level, ri, rj), z)
      == if Root(parent, level, z) == rj then ri else Root(parent, level, z)
    decreases level[z]
  {
    var q := parent[rj := ri];
    var lifted := LiftedLevels(parent, level, ri, rj);
    if z == rj {
      assert Root(q, lifted, ri) == ri;
    } else if parent[z] != z {
      LinkMovesRoot(parent, level, ri, rj, parent[z]);
    }
  }
}
