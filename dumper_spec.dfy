/** What `Dumper` prints, as functions of its configuration, the object
    graph and the ancestor stack (`propertyPath`, innermost last).

    `SubItem` is the list of lines `DumpSubItem` appends; `BodyLines` those
    of `DumpObject`, `DumpCollection` and `DumpArray`; the `...From`
    functions those of the iterations `i`, `i + 1`, ... of their loops. */
module DumperSpec {
  import opened Text
  import opened ObjectGraph
  import opened Escape
  import opened Layout
  import opened IndexPaths
  import JaggedArrays
  import MultiDimensionalArrays

  const LoopSignature: string := "<LoopReference>"

  /** The static settings of `Dumper`. `AccessFlags` is not part of it: the
      graph already holds the member list the flags select. */
  datatype Config = Config(
    indentSize: nat,
    maxDepth: nat,
    showPropertyType: bool,
    showTypeNameOnly: bool,
    typesAsString: seq<TypeInfo>,
    enumerateDelegate: bool,
    useOverriddenToString: bool,
    ignoreNullProperty: bool)

  const DefaultIndentSize: nat := 4
  const DefaultMaxDepth: nat := 5

  /** The values `Reset` restores. */
  const Defaults: Config := Config(DefaultIndentSize, DefaultMaxDepth, true, false, [], false, false, false)

  // ---------------------------------------------------------------------
  // Classification and terminal formatting.

  /** `ShouldDumpAsString`: the tests in the order the source makes them. */
  predicate ShouldDumpAsString(cfg: Config, g: Graph, v: Value)
    requires ValidValue(g, v)
  {
    if v.Null? then true
    else
      var n := g[v.id];
      if n.kind.PrimitiveKind? || n.kind.CharKind? || n.kind.StringKind? || n.kind.DecimalKind? then true
      else if n.kind.EnumKind? then true
      else if n.kind.DelegateKind? && !cfg.enumerateDelegate then true
      else if n.ty in cfg.typesAsString then true
      else if cfg.useOverriddenToString && n.ty.overridesToString then true
      else false
  }

  /** The type text of `ValueToString`: the simple name with the generic
      arguments' simple names in brackets, or `Type.ToString()`. */
  function TypeText(cfg: Config, ty: TypeInfo): string
  {
    if cfg.showTypeNameOnly then
      ty.name + (if |ty.genericArgNames| > 0 then "[" + Join(",", ty.genericArgNames) + "]" else "")
    else ty.fullName
  }

  /** The value part of `ValueToString`: the escaped `ToString()` text,
      quoted for strings and chars. */
  function Literal(n: Node): string
  {
    var escaped := Escaped(n.text);
    if n.kind.StringKind? then "\"" + escaped + "\""
    else if n.kind.CharKind? then "'" + escaped + "'"
    else escaped
  }

  function ValueToString(cfg: Config, g: Graph, v: Value): string
    requires ValidValue(g, v)
  {
    if v.Null? then "(null)"
    else if cfg.showPropertyType then Literal(g[v.id]) + " (" + TypeText(cfg, g[v.id].ty) + ")"
    else Literal(g[v.id])
  }

  /** The index text of an array element: `[a][b]` for a jagged array,
      `[a,b]` for a multi-dimensional one. */
  function IndexText(path: seq<nat>, jagged: bool): string
  {
    if jagged then "[" + Join("][", NatsToStrings(path)) + "]"
    else "[" + Join(",", NatsToStrings(path)) + "]"
  }

  // ---------------------------------------------------------------------
  // Traversal.

  predicate Stackable(cfg: Config, g: Graph, stack: seq<Value>)
  {
    WellFormed(g) && ValidValues(g, stack) && |stack| <= cfg.maxDepth + 1
  }

  /** `DumpSubItem(v)` with `stack` as `propertyPath`: nothing for a
      terminal; otherwise a brace pair at the current depth around either
      the body or, past `MaxDepth`, the too-deep marker. */
  function SubItem(cfg: Config, g: Graph, v: Value, stack: seq<Value>): seq<Line>
    requires Stackable(cfg, g, stack) && ValidValue(g, v)
    decreases cfg.maxDepth + 1 - |stack|, 0, 0
  {
    if ShouldDumpAsString(cfg, g, v) then []
    else
      var d := |stack|;
      [Open(d)]
      + (if d <= cfg.maxDepth then BodyLines(cfg, g, v.id, stack + [v]) else [TooDeep(d + 1)])
      + [Close(d)]
  }

  /** The dispatch of `DumpSubItem`: arrays, then other enumerables, then
      objects. `stack` already holds the composite itself. */
  function BodyLines(cfg: Config, g: Graph, id: nat, stack: seq<Value>): seq<Line>
    requires Stackable(cfg, g, stack) && id in g
    decreases cfg.maxDepth + 1 - |stack|, 2, 0
  {
    assert NodeOk(g, id);
    match g[id].body
    case Vector(_) =>
      JaggedLeavesValid(g, id);
      LeafLinesFrom(cfg, g, JaggedArrays.Leaves(g, id, []), true, stack, 0)
    case Grid(ls, cs) =>
      GridLeavesValid(g, ls, cs);
      LeafLinesFrom(cfg, g, MultiDimensionalArrays.Walk(ls, cs, []), false, stack, 0)
    case Items(xs) => ItemLinesFrom(cfg, g, xs, stack, 0)
    case Members(ms) => MemberLinesFrom(cfg, g, ms, stack, 0)
  }

  /** One iteration of the `foreach` of `DumpObject`. */
  function MemberLines(cfg: Config, g: Graph, m: Member, stack: seq<Value>): seq<Line>
    requires Stackable(cfg, g, stack) && (m.read.Got? ==> ValidValue(g, m.read.value))
    decreases cfg.maxDepth + 1 - |stack|, 1, 0
  {
    if m.read.Threw? then [Entry(|stack|, m.name + " = " + m.read.message)]
    else
      var v := m.read.value;
      if cfg.ignoreNullProperty && v.Null? then []
      else
        var looping := OnStack(g, stack, v);
        [Entry(|stack|, m.name + " = " + ValueToString(cfg, g, v) + (if looping then LoopSignature else ""))]
        + (if looping then [] else SubItem(cfg, g, v, stack))
  }

  function MemberLinesFrom(cfg: Config, g: Graph, ms: seq<Member>, stack: seq<Value>, i: nat): seq<Line>
    requires Stackable(cfg, g, stack) && ValidMembers(g, ms) && i <= |ms|
    decreases cfg.maxDepth + 1 - |stack|, 1, |ms| - i
  {
    if i == |ms| then [] else MemberLines(cfg, g, ms[i], stack) + MemberLinesFrom(cfg, g, ms, stack, i + 1)
  }

  /** One iteration of the `foreach` of `DumpCollection`, the `i`-th item. */
  function ItemLines(cfg: Config, g: Graph, i: nat, item: Value, stack: seq<Value>): seq<Line>
    requires Stackable(cfg, g, stack) && ValidValue(g, item)
    decreases cfg.maxDepth + 1 - |stack|, 1, 0
  {
    var looping := OnStack(g, stack, item);
    [Entry(|stack|, "[" + NatToString(i) + "] " + ValueToString(cfg, g, item) + (if looping then LoopSignature else ""))]
    + (if looping then [] else SubItem(cfg, g, item, stack))
  }

  function ItemLinesFrom(cfg: Config, g: Graph, xs: seq<Value>, stack: seq<Value>, i: nat): seq<Line>
    requires Stackable(cfg, g, stack) && ValidValues(g, xs) && i <= |xs|
    decreases cfg.maxDepth + 1 - |stack|, 1, |xs| - i
  {
    if i == |xs| then [] else ItemLines(cfg, g, i, xs[i], stack) + ItemLinesFrom(cfg, g, xs, stack, i + 1)
  }

  /** One `Write` callback of `DumpArray`: the loop mark is printed, but
      the element is passed on to `DumpSubItem` all the same. */
  function LeafLines(cfg: Config, g: Graph, leaf: Leaf, jagged: bool, stack: seq<Value>): seq<Line>
    requires Stackable(cfg, g, stack) && ValidValue(g, leaf.value)
    decreases cfg.maxDepth + 1 - |stack|, 1, 0
  {
    var looping := OnStack(g, stack, leaf.value);
    [Entry(|stack|, IndexText(leaf.path, jagged) + " " + ValueToString(cfg, g, leaf.value) + (if looping then LoopSignature else ""))]
    + SubItem(cfg, g, leaf.value, stack)
  }

  predicate ValidLeaves(g: Graph, leaves: seq<Leaf>)
  {
    forall k :: 0 <= k < |leaves| ==> ValidValue(g, leaves[k].value)
  }

  /** Each element the jagged walker writes is a value of the graph. */
  lemma JaggedLeavesValid(g: Graph, id: nat)
    requires WellFormed(g) && id in g && g[id].body.Vector?
    ensures ValidLeaves(g, JaggedArrays.Leaves(g, id, []))
  {
    JaggedArrays.LeavesAreElements(g, id, [], 0);
    assert JaggedArrays.Leaves(g, id, []) == JaggedArrays.LeavesFrom(g, id, [], 0);
  }

  /** Each cell the multi-dimensional walker writes is a cell of the graph. */
  lemma GridLeavesValid(g: Graph, lengths: seq<nat>, cells: seq<Value>)
    requires MultiDimensionalArrays.Shaped(lengths, cells) && |lengths| >= 1 && ValidValues(g, cells)
    ensures ValidLeaves(g, MultiDimensionalArrays.Walk(lengths, cells, []))
  {
    MultiDimensionalArrays.WalkInCells(lengths, cells, [], 0);
    var leaves := MultiDimensionalArrays.Walk(lengths, cells, []);
    assert leaves == MultiDimensionalArrays.WalkFrom(lengths, cells, [], 0);
    forall k | 0 <= k < |leaves|
      ensures ValidValue(g, leaves[k].value)
    {
      var j :| 0 <= j < |cells| && cells[j] == leaves[k].value;
    }
  }

  function LeafLinesFrom(cfg: Config, g: Graph, leaves: seq<Leaf>, jagged: bool, stack: seq<Value>, i: nat): seq<Line>
    requires Stackable(cfg, g, stack) && ValidLeaves(g, leaves) && i <= |leaves|
    decreases cfg.maxDepth + 1 - |stack|, 1, |leaves| - i
  {
    if i == |leaves| then [] else LeafLines(cfg, g, leaves[i], jagged, stack) + LeafLinesFrom(cfg, g, leaves, jagged, stack, i + 1)
  }

  /** `DumpToString(root)`: a terminal alone, or the header line followed by
      the block at depth 0. */
  function DumpText(cfg: Config, g: Graph, root: Value, nl: string): string
    requires WellFormed(g) && ValidValue(g, root)
  {
    if ShouldDumpAsString(cfg, g, root) then ValueToString(cfg, g, root)
    else ValueToString(cfg, g, root) + nl + RenderAll(cfg.indentSize, SubItem(cfg, g, root, []), nl, nl)
  }
}
