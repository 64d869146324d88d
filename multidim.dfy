/** `MultiDimensionArrayDumper`: walks an array of rank >= 2 one dimension
    per recursion level and calls `Write` once per element with its full
    index path. */
module MultiDimensionalArrays {
  import opened ObjectGraph
  import opened Wrappers
  import opened IndexPaths

  /** The constructor's argument checks: `ArgumentNullException` for null,
      `ArgumentException` for a rank-1 array. */
  function CheckArray(g: Graph, root: Value): (r: Outcome<ArgumentError>)
    requires root.Null? || IsVector(g, root) || IsGrid(g, root)
    ensures r == Pass <==> IsGrid(g, root)
    ensures r == Fail(ArgumentNull) <==> root.Null?
    ensures r == Fail(WrongRank) <==> IsVector(g, root)
  {
    if root.Null? then Fail(ArgumentNull)
    else if g[root.id].body.Vector? then Fail(WrongRank)
    else Pass
  }

  /** `lengths[k]` is `GetLength(k)`; the cells are stored row-major. */
  predicate Shaped(lengths: seq<nat>, cells: seq<Value>)
  {
    |lengths| >= 1 && |cells| == Product(lengths)
  }

  /** Each index of `path` is within the length of its dimension. */
  predicate InBounds(path: seq<nat>, lengths: seq<nat>)
  {
    |path| <= |lengths| && forall k :: 0 <= k < |path| ==> path[k] < lengths[k]
  }

  lemma MulMono(a: nat, b: nat, p: nat)
    requires a < b
    ensures a * p + p <= b * p
  {
    assert (b - a) * p >= p by {
      assert b - a >= 1;
    }
    assert b * p == a * p + (b - a) * p;
  }

  /** Row-major position of a full index path. */
  function Offset(lengths: seq<nat>, path: seq<nat>): (r: nat)
    requires |path| == |lengths| && InBounds(path, lengths)
    ensures r < Product(lengths)
  {
    if path == [] then 0
    else
      var rest := Offset(lengths[1..], path[1..]);
      MulMono(path[0], lengths[0], Product(lengths[1..]));
      path[0] * Product(lengths[1..]) + rest
  }

  /** `Array.GetValue(indexes)`. */
  function ElementAt(lengths: seq<nat>, cells: seq<Value>, path: seq<nat>): Value
    requires Shaped(lengths, cells) && |path| == |lengths| && InBounds(path, lengths)
  {
    cells[Offset(lengths, path)]
  }

  /** The `Write` calls of `DumpRecursive(|prefix|)` when `indexes` holds
      `prefix` on entry. */
  function Walk(lengths: seq<nat>, cells: seq<Value>, prefix: seq<nat>): (r: seq<Leaf>)
    requires Shaped(lengths, cells) && |prefix| < |lengths| && InBounds(prefix, lengths)
    decreases |lengths| - |prefix|, 1
  {
    WalkFrom(lengths, cells, prefix, 0)
  }

  /** The `Write` calls of the iterations `i`, `i + 1`, ... of the loop over
      dimension `|prefix|`. */
  function WalkFrom(lengths: seq<nat>, cells: seq<Value>, prefix: seq<nat>, i: nat): (r: seq<Leaf>)
    requires Shaped(lengths, cells) && |prefix| < |lengths| && InBounds(prefix, lengths)
    requires i <= lengths[|prefix|]
    decreases |lengths| - |prefix|, 0, lengths[|prefix|] - i
  {
    if i == lengths[|prefix|] then []
    else
      var p := prefix + [i];
      (if |p| < |lengths| then Walk(lengths, cells, p) else [Leaf(ElementAt(lengths, cells, p), p)])
      + WalkFrom(lengths, cells, prefix, i + 1)
  }

  // ---------------------------------------------------------------------
  // What the walk writes.

  /** Every value written is one of the array's cells. */
  lemma {:induction false} WalkInCells(lengths: seq<nat>, cells: seq<Value>, prefix: seq<nat>, i: nat)
    requires Shaped(lengths, cells) && |prefix| < |lengths| && InBounds(prefix, lengths)
    requires i <= lengths[|prefix|]
    ensures forall k :: 0 <= k < |WalkFrom(lengths, cells, prefix, i)| ==> WalkFrom(lengths, cells, prefix, i)[k].value in cells
    decreases |lengths| - |prefix|, lengths[|prefix|] - i
  {
    if i < lengths[|prefix|] {
      var p := prefix + [i];
      var head: seq<Leaf> := if |p| < |lengths| then Walk(lengths, cells, p) else [Leaf(ElementAt(lengths, cells, p), p)];
      var tail := WalkFrom(lengths, cells, prefix, i + 1);
      assert WalkFrom(lengths, cells, prefix, i) == head + tail;
      WalkInCells(lengths, cells, prefix, i + 1);
      if |p| < |lengths| {
        WalkInCells(lengths, cells, p, 0);
        assert head == WalkFrom(lengths, cells, p, 0);
      } else {
        assert head[0].value == cells[Offset(lengths, p)];
      }
      forall k | 0 <= k < |head + tail|
        ensures (head + tail)[k].value in cells
      {
        if k >= |head| {
          assert (head + tail)[k] == tail[k - |head|];
        }
      }
    }
  }

  /** The number of `Write` calls is the product of the lengths of the
      dimensions still to walk (zero as soon as one of them is empty). */
  lemma {:induction false} WalkCount(lengths: seq<nat>, cells: seq<Value>, prefix: seq<nat>, i: nat)
    requires Shaped(lengths, cells) && |prefix| < |lengths| && InBounds(prefix, lengths)
    requires i <= lengths[|prefix|]
    ensures |WalkFrom(lengths, cells, prefix, i)| == (lengths[|prefix|] - i) * Product(lengths[|prefix| + 1..])
    decreases |lengths| - |prefix|, lengths[|prefix|] - i
  {
    var d := |prefix|;
    if i < lengths[d] {
      WalkCount(lengths, cells, prefix, i + 1);
      WalkFromLength(lengths, cells, prefix, i);
      if d + 1 < |lengths| {
        WalkCount(lengths, cells, prefix + [i], 0);
        ProductStep(lengths, d + 1);
      } else {
        assert lengths[d + 1..] == [];
      }
      OneMoreRow(lengths[d] - (i + 1), Product(lengths[d + 1..]));
    }
  }

  /** One iteration of the loop adds the calls of its own index. */
  lemma WalkFromLength(lengths: seq<nat>, cells: seq<Value>, prefix: seq<nat>, i: nat)
    requires Shaped(lengths, cells) && |prefix| < |lengths| && InBounds(prefix, lengths)
    requires i < lengths[|prefix|]
    ensures |WalkFrom(lengths, cells, prefix, i)| ==
      (if |prefix| + 1 < |lengths| then |Walk(lengths, cells, prefix + [i])| else 1)
      + |WalkFrom(lengths, cells, prefix, i + 1)|
  {
  }

  lemma ProductStep(ls: seq<nat>, d: nat)
    requires d < |ls|
    ensures Product(ls[d..]) == ls[d] * Product(ls[d + 1..])
  {
    assert ls[d..][1..] == ls[d + 1..];
  }

  lemma OneMoreRow(a: nat, r: nat)
    ensures (a + 1) * r == r + a * r
  {
  }

  /** Every written path is a full path within the bounds, extends
      `prefix`, and comes with exactly the element stored at it. */
  lemma {:induction false} WalkSound(lengths: seq<nat>, cells: seq<Value>, prefix: seq<nat>, i: nat)
    requires Shaped(lengths, cells) && |prefix| < |lengths| && InBounds(prefix, lengths)
    requires i <= lengths[|prefix|]
    ensures forall k :: 0 <= k < |WalkFrom(lengths, cells, prefix, i)| ==>
      var l := WalkFrom(lengths, cells, prefix, i)[k];
      && |l.path| == |lengths|
      && InBounds(l.path, lengths)
      && l.path[..|prefix|] == prefix
      && i <= l.path[|prefix|]
      && l.value == ElementAt(lengths, cells, l.path)
    decreases |lengths| - |prefix|, lengths[|prefix|] - i
  {
    var d := |prefix|;
    if i < lengths[d] {
      var p := prefix + [i];
      var head: seq<Leaf> := if |p| < |lengths| then Walk(lengths, cells, p) else [Leaf(ElementAt(lengths, cells, p), p)];
      WalkSound(lengths, cells, prefix, i + 1);
      if |p| < |lengths| {
        WalkSound(lengths, cells, p, 0);
        assert head == WalkFrom(lengths, cells, p, 0);
      }
      forall k | 0 <= k < |head|
        ensures |head[k].path| == |lengths| && InBounds(head[k].path, lengths)
        ensures head[k].path[..d] == prefix && head[k].path[d] == i
        ensures head[k].value == ElementAt(lengths, cells, head[k].path)
      {
        var x := head[k].path;
        assert x[..|p|] == p;
        assert x[..d] == p[..d] == prefix;
        assert x[d] == p[d] == i;
      }
      assert WalkFrom(lengths, cells, prefix, i) == head + WalkFrom(lengths, cells, prefix, i + 1);
    }
  }

  /** The writes of iteration `i` of the loop over dimension `|prefix|`. */
  function Chunk(lengths: seq<nat>, cells: seq<Value>, prefix: seq<nat>, i: nat): seq<Leaf>
    requires Shaped(lengths, cells) && |prefix| < |lengths| && InBounds(prefix, lengths)
    requires i < lengths[|prefix|]
  {
    var p := prefix + [i];
    if |p| < |lengths| then Walk(lengths, cells, p) else [Leaf(ElementAt(lengths, cells, p), p)]
  }

  lemma ChunkOrdered(lengths: seq<nat>, cells: seq<Value>, prefix: seq<nat>, i: nat)
    requires Shaped(lengths, cells) && |prefix| < |lengths| && InBounds(prefix, lengths)
    requires i < lengths[|prefix|]
    requires |prefix| + 1 < |lengths| ==> StrictlyIncreasing(Walk(lengths, cells, prefix + [i]))
    ensures StrictlyIncreasing(Chunk(lengths, cells, prefix, i))
    ensures WalkFrom(lengths, cells, prefix, i) == Chunk(lengths, cells, prefix, i) + WalkFrom(lengths, cells, prefix, i + 1)
    ensures forall k :: 0 <= k < |Chunk(lengths, cells, prefix, i)| ==>
      var x := Chunk(lengths, cells, prefix, i)[k].path;
      |x| > |prefix| && x[..|prefix|] == prefix && x[|prefix|] == i
  {
    var d := |prefix|;
    var p := prefix + [i];
    var head := Chunk(lengths, cells, prefix, i);
    if |p| < |lengths| {
      WalkSound(lengths, cells, p, 0);
      assert head == WalkFrom(lengths, cells, p, 0);
    }
    forall k | 0 <= k < |head|
      ensures |head[k].path| > d && head[k].path[..d] == prefix && head[k].path[d] == i
    {
      var x := head[k].path;
      assert x[..|p|] == p;
      assert x[..d] == p[..d] == prefix;
      assert x[d] == p[d] == i;
    }
  }

  /** Row-major order: the written paths strictly increase
      lexicographically, so the last index varies fastest and no path is
      written twice. */
  lemma {:induction false} WalkOrdered(lengths: seq<nat>, cells: seq<Value>, prefix: seq<nat>, i: nat)
    requires Shaped(lengths, cells) && |prefix| < |lengths| && InBounds(prefix, lengths)
    requires i <= lengths[|prefix|]
    ensures StrictlyIncreasing(WalkFrom(lengths, cells, prefix, i))
    decreases |lengths| - |prefix|, lengths[|prefix|] - i
  {
    var d := |prefix|;
    if i < lengths[d] {
      var p := prefix + [i];
      if |p| < |lengths| {
        WalkOrdered(lengths, cells, p, 0);
      }
      ChunkOrdered(lengths, cells, prefix, i);
      var head := Chunk(lengths, cells, prefix, i);
      var tail := WalkFrom(lengths, cells, prefix, i + 1);
      WalkOrdered(lengths, cells, prefix, i + 1);
      WalkSound(lengths, cells, prefix, i + 1);
      forall a, b | 0 <= a < |head| && 0 <= b < |tail| ensures LexLess(head[a].path, tail[b].path) {
        LexLessAt(head[a].path, tail[b].path, d);
      }
      AppendIncreasing(head, tail);
    }
  }

  /** Every full path within the bounds is written. */
  lemma {:induction false} WalkComplete(lengths: seq<nat>, cells: seq<Value>, prefix: seq<nat>, i: nat, path: seq<nat>)
    returns (k: nat)
    requires Shaped(lengths, cells) && |prefix| < |lengths| && InBounds(prefix, lengths)
    requires i <= lengths[|prefix|]
    requires |path| == |lengths| && InBounds(path, lengths)
    requires path[..|prefix|] == prefix && i <= path[|prefix|]
    ensures k < |WalkFrom(lengths, cells, prefix, i)|
    ensures WalkFrom(lengths, cells, prefix, i)[k].path == path
    decreases |lengths| - |prefix|, lengths[|prefix|] - i
  {
    var d := |prefix|;
    var p := prefix + [i];
    var head := if |p| < |lengths| then Walk(lengths, cells, p) else [Leaf(ElementAt(lengths, cells, p), p)];
    assert WalkFrom(lengths, cells, prefix, i) == head + WalkFrom(lengths, cells, prefix, i + 1);
    if path[d] == i {
      assert path[..|p|] == p;
      if |p| < |lengths| {
        k := WalkComplete(lengths, cells, p, 0, path);
      } else {
        assert path == path[..|p|];
        k := 0;
      }
    } else {
      var k' := WalkComplete(lengths, cells, prefix, i + 1, path);
      k := |head| + k';
    }
  }

  /** The whole walk, from dimension 0 with an empty path: exactly
      `Product(lengths)` calls, each with a full in-bounds path and the
      element stored there, in strictly increasing row-major order, and
      every in-bounds path among them. */
  lemma WalkCharacterized(lengths: seq<nat>, cells: seq<Value>)
    requires Shaped(lengths, cells)
    ensures |Walk(lengths, cells, [])| == Product(lengths)
    ensures StrictlyIncreasing(Walk(lengths, cells, []))
    ensures forall k :: 0 <= k < |Walk(lengths, cells, [])| ==>
      var l := Walk(lengths, cells, [])[k];
      |l.path| == |lengths| && InBounds(l.path, lengths) && l.value == ElementAt(lengths, cells, l.path)
  {
    WalkCount(lengths, cells, [], 0);
    assert lengths[1..] == lengths[0 + 1..];
    WalkOrdered(lengths, cells, [], 0);
    WalkSound(lengths, cells, [], 0);
  }

  // ---------------------------------------------------------------------
  // The walker itself.

  class MultiDimensionArrayDumper {
    const lengths: seq<nat>
    const cells: seq<Value>
    /** The path to the element being visited. */
    var indexes: seq<nat>
    /** The `Write(value, indexes)` calls made so far, in order. */
    var written: seq<Leaf>

    ghost predicate Valid()
      reads this
    {
      |lengths| >= 2 && Shaped(lengths, cells) && indexes == []
    }

    constructor (g: Graph, root: Value)
      requires WellFormed(g) && IsGrid(g, root) && CheckArray(g, root) == Pass
      ensures Valid() && written == []
      ensures lengths == g[root.id].body.lengths && cells == g[root.id].body.cells
    {
      assert NodeOk(g, root.id);
      lengths := g[root.id].body.lengths;
      cells := g[root.id].body.cells;
      indexes := [];
      written := [];
    }

    method Dump()
      requires Valid()
      modifies this
      ensures Valid()
      ensures written == old(written) + Walk(lengths, cells, [])
    {
      DumpRecursive(0);
    }

    method DumpRecursive(currentDimension: nat)
      requires Shaped(lengths, cells) && currentDimension == |indexes| < |lengths|
      requires InBounds(indexes, lengths)
      modifies this
      ensures indexes == old(indexes)
      ensures written == old(written) + Walk(lengths, cells, old(indexes))
      decreases |lengths| - currentDimension
    {
      var length := lengths[currentDimension];
      for i := 0 to length
        invariant indexes == old(indexes)
        invariant written + WalkFrom(lengths, cells, indexes, i) == old(written) + Walk(lengths, cells, indexes)
      {
        ghost var prefix, before := indexes, written;
        indexes := indexes + [i];
        if currentDimension < |lengths| - 1 {
          DumpRecursive(currentDimension + 1);
        } else {
          var value := ElementAt(lengths, cells, indexes);
          written := written + [Leaf(value, indexes)];
        }
        indexes := indexes[..|indexes| - 1];
        assert indexes == prefix;
        ghost var head := written[|before|..];
        assert written == before + head;
        ghost var rest := WalkFrom(lengths, cells, prefix, i + 1);
        assert WalkFrom(lengths, cells, prefix, i) == head + rest;
        assert written + rest == before + (head + rest);
      }
    }
  }
}
