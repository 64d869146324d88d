/** `JaggedArrayDumper`: walks a rank-1 array, descending into every element
    that is itself a rank-1 array, and calls `Write` once per leaf with the
    path of indexes that leads to it. */
module JaggedArrays {
  import opened ObjectGraph
  import opened Wrappers
  import opened IndexPaths

  /** The constructor's argument checks: `ArgumentNullException` for null,
      `ArgumentException` for an array whose rank is not 1. */
  function CheckArray(g: Graph, root: Value): (r: Outcome<ArgumentError>)
    requires root.Null? || IsVector(g, root) || IsGrid(g, root)
    ensures r == Pass <==> IsVector(g, root)
    ensures r == Fail(ArgumentNull) <==> root.Null?
    ensures r == Fail(WrongRank) <==> IsGrid(g, root)
  {
    if root.Null? then Fail(ArgumentNull)
    else if !g[root.id].body.Vector? then Fail(WrongRank)
    else Pass
  }

  function Elems(g: Graph, id: nat): seq<Value>
    requires id in g && g[id].body.Vector?
  {
    g[id].body.elems
  }

  /** The element reached from `v` by indexing successive rank-1 arrays
      with the entries of `path`, or `None` when some step leaves the
      bounds or meets something that is not a rank-1 array. */
  function At(g: Graph, v: Value, path: seq<nat>): Option<Value>
    decreases |path|
  {
    if path == [] then Some(v)
    else if IsVector(g, v) && path[0] < |Elems(g, v.id)| then At(g, Elems(g, v.id)[path[0]], path[1..])
    else None
  }

  /** What well-formedness says about element `i` of a rank-1 array: it is
      a value of the graph, and a rank-1 array inside it has a smaller id. */
  lemma ElementOk(g: Graph, id: nat, i: nat)
    requires WellFormed(g) && id in g && g[id].body.Vector? && i < |Elems(g, id)|
    ensures ValidValue(g, Elems(g, id)[i])
    ensures IsVector(g, Elems(g, id)[i]) ==> Elems(g, id)[i].id < id
  {
    assert NodeOk(g, id);
  }

  /** The `Write` calls `DumpRecursive(root)` makes when `indexes` holds
      `prefix` on entry. */
  function Leaves(g: Graph, id: nat, prefix: seq<nat>): seq<Leaf>
    requires WellFormed(g) && id in g && g[id].body.Vector?
    decreases id, 1
  {
    LeavesFrom(g, id, prefix, 0)
  }

  /** The `Write` calls of the iterations `i`, `i + 1`, ... of the loop. */
  function LeavesFrom(g: Graph, id: nat, prefix: seq<nat>, i: nat): seq<Leaf>
    requires WellFormed(g) && id in g && g[id].body.Vector? && i <= |Elems(g, id)|
    decreases id, 0, |Elems(g, id)| - i
  {
    if i == |Elems(g, id)| then []
    else
      var item := Elems(g, id)[i];
      ElementOk(g, id, i);
      (if IsVector(g, item) then Leaves(g, item.id, prefix + [i]) else [Leaf(item, prefix + [i])])
      + LeavesFrom(g, id, prefix, i + 1)
  }

  // ---------------------------------------------------------------------
  // What the walk writes: each leaf once, at its own path, in order.

  /** Every leaf written is a value of the graph that is not a rank-1
      array. */
  lemma {:induction false} LeavesAreElements(g: Graph, id: nat, prefix: seq<nat>, i: nat)
    requires WellFormed(g) && id in g && g[id].body.Vector? && i <= |Elems(g, id)|
    ensures forall k :: 0 <= k < |LeavesFrom(g, id, prefix, i)| ==>
      ValidValue(g, LeavesFrom(g, id, prefix, i)[k].value) && !IsVector(g, LeavesFrom(g, id, prefix, i)[k].value)
    decreases id, |Elems(g, id)| - i
  {
    if i < |Elems(g, id)| {
      var item := Elems(g, id)[i];
      var p := prefix + [i];
      ElementOk(g, id, i);
      var head: seq<Leaf> := if IsVector(g, item) then Leaves(g, item.id, p) else [Leaf(item, p)];
      var tail := LeavesFrom(g, id, prefix, i + 1);
      assert LeavesFrom(g, id, prefix, i) == head + tail;
      LeavesAreElements(g, id, prefix, i + 1);
      if IsVector(g, item) {
        LeavesAreElements(g, item.id, p, 0);
        assert head == LeavesFrom(g, item.id, p, 0);
      }
      forall k | 0 <= k < |head + tail|
        ensures ValidValue(g, (head + tail)[k].value) && !IsVector(g, (head + tail)[k].value)
      {
        if k >= |head| {
          assert (head + tail)[k] == tail[k - |head|];
        }
      }
    }
  }

  /** Every written path extends `prefix` by a path that leads, inside the
      array, to exactly the value written (so each index is within the
      bounds of the array at its level), and that value is not a rank-1
      array. */
  lemma {:induction false} LeavesSound(g: Graph, id: nat, prefix: seq<nat>, i: nat)
    requires WellFormed(g) && id in g && g[id].body.Vector? && i <= |Elems(g, id)|
    ensures forall k :: 0 <= k < |LeavesFrom(g, id, prefix, i)| ==>
      var l := LeavesFrom(g, id, prefix, i)[k];
      && |l.path| > |prefix|
      && l.path[..|prefix|] == prefix
      && i <= l.path[|prefix|]
      && At(g, Ref(id), l.path[|prefix|..]) == Some(l.value)
    decreases id, |Elems(g, id)| - i
  {
    if i < |Elems(g, id)| {
      var item := Elems(g, id)[i];
      var p := prefix + [i];
      ElementOk(g, id, i);
      var head := if IsVector(g, item) then Leaves(g, item.id, p) else [Leaf(item, p)];
      var tail := LeavesFrom(g, id, prefix, i + 1);
      LeavesSound(g, id, prefix, i + 1);
      if IsVector(g, item) {
        LeavesSound(g, item.id, p, 0);
        assert head == LeavesFrom(g, item.id, p, 0);
      }
      forall k | 0 <= k < |head|
        ensures |head[k].path| > |prefix| && head[k].path[..|prefix|] == prefix && head[k].path[|prefix|] == i
        ensures At(g, Ref(id), head[k].path[|prefix|..]) == Some(head[k].value)
      {
        var l := head[k];
        assert l.path[..|p|] == p;
        assert l.path[..|prefix|] == p[..|prefix|] == prefix;
        assert l.path[|prefix|] == p[|prefix|] == i;
        var q := l.path[|prefix|..];
        assert q[1..] == l.path[|p|..];
        assert At(g, Ref(id), q) == At(g, item, q[1..]);
        if !IsVector(g, item) {
          assert q[1..] == [];
        }
      }
      assert LeavesFrom(g, id, prefix, i) == head + tail;
    }
  }

  /** The leaves come out in strictly increasing lexicographic order of
      their paths; in particular no path is written twice. */
  lemma {:induction false} LeavesOrdered(g: Graph, id: nat, prefix: seq<nat>, i: nat)
    requires WellFormed(g) && id in g && g[id].body.Vector? && i <= |Elems(g, id)|
    ensures StrictlyIncreasing(LeavesFrom(g, id, prefix, i))
    decreases id, |Elems(g, id)| - i
  {
    if i < |Elems(g, id)| {
      var item := Elems(g, id)[i];
      var p := prefix + [i];
      ElementOk(g, id, i);
      var head := if IsVector(g, item) then Leaves(g, item.id, p) else [Leaf(item, p)];
      var tail := LeavesFrom(g, id, prefix, i + 1);
      LeavesOrdered(g, id, prefix, i + 1);
      if IsVector(g, item) {
        LeavesOrdered(g, item.id, p, 0);
        LeavesSound(g, item.id, p, 0);
        assert head == LeavesFrom(g, item.id, p, 0);
      }
      LeavesSound(g, id, prefix, i + 1);
      forall a | 0 <= a < |head|
        ensures |head[a].path| > |prefix| && head[a].path[..|prefix|] == prefix && head[a].path[|prefix|] == i
      {
        var x := head[a].path;
        assert x[..|p|] == p;
        assert x[..|prefix|] == p[..|prefix|] == prefix;
      }
      BranchBefore(head, tail, prefix, i);
      AppendIncreasing(head, tail);
      assert LeavesFrom(g, id, prefix, i) == head + tail;
    }
  }

  /** Conversely, every path that leads inside the array to something that
      is not a rank-1 array is written. Together with the two lemmas above:
      `Write` is called exactly once per leaf. */
  lemma {:induction false} LeavesComplete(g: Graph, id: nat, prefix: seq<nat>, i: nat, q: seq<nat>) returns (k: nat)
    requires WellFormed(g) && id in g && g[id].body.Vector? && i <= |Elems(g, id)|
    requires |q| > 0 && q[0] >= i
    requires At(g, Ref(id), q).Some? && !IsVector(g, At(g, Ref(id), q).value)
    ensures k < |LeavesFrom(g, id, prefix, i)|
    ensures LeavesFrom(g, id, prefix, i)[k] == Leaf(At(g, Ref(id), q).value, prefix + q)
    decreases id, |Elems(g, id)| - i
  {
    var item := Elems(g, id)[i];
    var p := prefix + [i];
    ElementOk(g, id, i);
    var head := if IsVector(g, item) then Leaves(g, item.id, p) else [Leaf(item, p)];
    var tail := LeavesFrom(g, id, prefix, i + 1);
    assert LeavesFrom(g, id, prefix, i) == head + tail;
    assert At(g, Ref(id), q) == At(g, Elems(g, id)[q[0]], q[1..]);
    if q[0] == i {
      if IsVector(g, item) {
        assert item == Ref(item.id);
        var k' := LeavesComplete(g, item.id, p, 0, q[1..]);
        assert head == LeavesFrom(g, item.id, p, 0);
        assert p + q[1..] == prefix + q;
        k := k';
      } else {
        assert q[1..] == [];
        assert q == [i];
        k := 0;
      }
    } else {
      var k' := LeavesComplete(g, id, prefix, i + 1, q);
      assert (head + tail)[|head| + k'] == tail[k'];
      k := |head| + k';
    }
  }

  /** An empty rank-1 array produces no `Write` call. */
  lemma EmptyArrayWritesNothing(g: Graph, id: nat, prefix: seq<nat>)
    requires WellFormed(g) && id in g && g[id].body.Vector? && Elems(g, id) == []
    ensures Leaves(g, id, prefix) == []
  {
  }

  // ---------------------------------------------------------------------
  // The walker itself.

  class JaggedArrayDumper {
    const g: Graph
    const root: nat
    /** The path to the element being visited. */
    var indexes: seq<nat>
    /** The `Write(item, indexes)` calls made so far, in order. */
    var written: seq<Leaf>

    ghost predicate Valid()
      reads this
    {
      WellFormed(g) && root in g && g[root].body.Vector? && indexes == []
    }

    constructor (g: Graph, root: Value)
      requires WellFormed(g) && IsVector(g, root) && CheckArray(g, root) == Pass
      ensures Valid() && this.g == g && this.root == root.id && written == []
    {
      this.g := g;
      this.root := root.id;
      indexes := [];
      written := [];
    }

    method Dump()
      requires Valid()
      modifies this
      ensures Valid()
      ensures written == old(written) + Leaves(g, root, [])
    {
      DumpRecursive(root);
    }

    method DumpRecursive(id: nat)
      requires WellFormed(g) && id in g && g[id].body.Vector?
      modifies this
      ensures indexes == old(indexes)
      ensures written == old(written) + Leaves(g, id, old(indexes))
      decreases id
    {
      var elems := Elems(g, id);
      for i := 0 to |elems|
        invariant indexes == old(indexes)
        invariant written + LeavesFrom(g, id, indexes, i) == old(written) + Leaves(g, id, indexes)
      {
        ghost var prefix, before := indexes, written;
        var item := elems[i];
        ElementOk(g, id, i);
        ghost var head: seq<Leaf> := if IsVector(g, item) then Leaves(g, item.id, prefix + [i]) else [Leaf(item, prefix + [i])];
        ghost var rest := LeavesFrom(g, id, prefix, i + 1);
        assert LeavesFrom(g, id, prefix, i) == head + rest;
        indexes := indexes + [i];
        if IsVector(g, item) {
          DumpRecursive(item.id);
        } else {
          written := written + [Leaf(item, indexes)];
        }
        assert written == before + head;
        indexes := indexes[..|indexes| - 1];
        assert indexes == prefix;
        assert written + rest == before + (head + rest);
      }
    }
  }
}
