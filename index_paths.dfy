/** Index paths, the leaves the array walkers hand to their `Write`
    callback, and the lexicographic order in which they are handed over. */
module IndexPaths {
  import opened ObjectGraph

  /** One `Write(value, indexes)` call: the element and the index path at
      which it was found. */
  datatype Leaf = Leaf(value: Value, path: seq<nat>)

  /** `ArgumentNullException` and `ArgumentException` of the walkers'
      constructors. */
  datatype ArgumentError = ArgumentNull | WrongRank

  /** Strict lexicographic order on paths that diverge somewhere (neither is
      a prefix of the other). */
  predicate LexLess(a: seq<nat>, b: seq<nat>)
  {
    |a| > 0 && |b| > 0 && (a[0] < b[0] || (a[0] == b[0] && LexLess(a[1..], b[1..])))
  }

  /** The paths of `leaves`, in order, strictly increase. */
  predicate StrictlyIncreasing(leaves: seq<Leaf>)
  {
    forall i, j :: 0 <= i < j < |leaves| ==> LexLess(leaves[i].path, leaves[j].path)
  }

  /** Two paths that agree on their first `n` entries and differ at entry
      `n` are ordered by that entry. */
  lemma {:induction false} LexLessAt(a: seq<nat>, b: seq<nat>, n: nat)
    requires n < |a| && n < |b| && a[..n] == b[..n] && a[n] < b[n]
    ensures LexLess(a, b)
  {
    if n > 0 {
      assert a[0] == a[..n][0] == b[..n][0] == b[0];
      assert a[1..][..n - 1] == a[..n][1..] == b[..n][1..] == b[1..][..n - 1];
      LexLessAt(a[1..], b[1..], n - 1);
    }
  }

  lemma {:induction false} LexLessIrreflexive(a: seq<nat>)
    ensures !LexLess(a, a)
  {
    if |a| > 0 {
      LexLessIrreflexive(a[1..]);
    }
  }

  /** Strictly increasing leaves carry pairwise different paths: no path is
      written twice. */
  lemma IncreasingMeansDistinct(leaves: seq<Leaf>)
    requires StrictlyIncreasing(leaves)
    ensures forall i, j :: 0 <= i < |leaves| && 0 <= j < |leaves| && i != j ==> leaves[i].path != leaves[j].path
  {
    forall i, j | 0 <= i < |leaves| && 0 <= j < |leaves| && i != j
      ensures leaves[i].path != leaves[j].path
    {
      if i < j {
        LexLessIrreflexive(leaves[i].path);
      } else {
        LexLessIrreflexive(leaves[j].path);
      }
    }
  }

  /** Leaves whose paths all extend `prefix` by `i` come before leaves
      whose paths extend it by a larger index. */
  lemma BranchBefore(head: seq<Leaf>, tail: seq<Leaf>, prefix: seq<nat>, i: nat)
    requires forall a :: 0 <= a < |head| ==>
      |head[a].path| > |prefix| && head[a].path[..|prefix|] == prefix && head[a].path[|prefix|] == i
    requires forall b :: 0 <= b < |tail| ==>
      |tail[b].path| > |prefix| && tail[b].path[..|prefix|] == prefix && i < tail[b].path[|prefix|]
    ensures forall a, b :: 0 <= a < |head| && 0 <= b < |tail| ==> LexLess(head[a].path, tail[b].path)
  {
    forall a, b | 0 <= a < |head| && 0 <= b < |tail| ensures LexLess(head[a].path, tail[b].path) {
      LexLessAt(head[a].path, tail[b].path, |prefix|);
    }
  }

  /** Two increasing runs, the first entirely below the second, make an
      increasing run. */
  lemma AppendIncreasing(a: seq<Leaf>, b: seq<Leaf>)
    requires StrictlyIncreasing(a) && StrictlyIncreasing(b)
    requires forall i, j :: 0 <= i < |a| && 0 <= j < |b| ==> LexLess(a[i].path, b[j].path)
    ensures StrictlyIncreasing(a + b)
  {
    var c := a + b;
    forall i, j | 0 <= i < j < |c| ensures LexLess(c[i].path, c[j].path) {
      if j < |a| {
        assert c[i] == a[i] && c[j] == a[j];
      } else if i >= |a| {
        assert c[i] == b[i - |a|] && c[j] == b[j - |a|];
      } else {
        assert c[i] == a[i] && c[j] == b[j - |a|];
      }
    }
  }
}
