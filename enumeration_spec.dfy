/** What `Enumeration` prints: the earlier, fixed-setting variant of the
    dumper. Its indent width and depth limit are constants, delegates and
    arrays are expanded like any other object or collection, every value
    text carries its full type name, and there is no header line.

    `SubItem` is the list of lines `DumpSubItem` appends; `BodyLines` those
    of `DumpObject` or `DumpCollection`; the `...From` functions those of
    the iterations `i`, `i + 1`, ... of their loops. */
module EnumerationSpec {
  import opened Text
  import opened ObjectGraph
  import opened Layout
  import DumperSpec

  const IndentSize: nat := 4
  const MaxDeep: nat := 5
  const LoopSignature: string := "<LoopReference>"

  /** The terminator `AppendFormat` writes after a member or element line,
      whatever the platform's newline; braces and the too-deep marker end
      with the platform's newline instead (`AppendLine`). */
  const EntryNewLine: string := "\r\n"

  /** `IsPrimitiveOrNull`: null, primitives (chars included), strings,
      decimals and enums. */
  predicate IsPrimitiveOrNull(g: Graph, v: Value)
    requires ValidValue(g, v)
  {
    if v.Null? then true
    else
      var k := g[v.id].kind;
      k.PrimitiveKind? || k.CharKind? || k.StringKind? || k.DecimalKind? || k.EnumKind?
  }

  /** `ValueToString`: the escaped `ToString()` text, quoted for strings and
      chars, always followed by the full type name. */
  function ValueToString(g: Graph, v: Value): string
    requires ValidValue(g, v)
  {
    if v.Null? then "(null)"
    else DumperSpec.Literal(g[v.id]) + " (" + g[v.id].ty.fullName + ")"
  }

  /** `value is IEnumerable`: collections and arrays of any rank. */
  predicate IsEnumerable(b: Body)
  {
    !b.Members?
  }

  /** What `foreach` over an `IEnumerable` yields: a collection's items, a
      rank-1 array's elements, a multi-dimensional array's cells in
      row-major order. */
  function Elements(b: Body): seq<Value>
    requires IsEnumerable(b)
  {
    match b
    case Items(xs) => xs
    case Vector(es) => es
    case Grid(_, cs) => cs
  }

  predicate Stackable(g: Graph, stack: seq<Value>)
  {
    Closed(g) && ValidValues(g, stack) && |stack| <= MaxDeep
  }

  /** `DumpSubItem(v)` with `stack` as `propertyPath`: nothing for a
      terminal; otherwise a brace pair at the current depth around either
      the body or, from depth `MaxDeep` on, the too-deep marker. */
  function SubItem(g: Graph, v: Value, stack: seq<Value>): seq<Line>
    requires Stackable(g, stack) && ValidValue(g, v)
    decreases MaxDeep - |stack|, 0, 0
  {
    if IsPrimitiveOrNull(g, v) then []
    else
      var d := |stack|;
      [Open(d)]
      + (if d < MaxDeep then BodyLines(g, v.id, stack + [v]) else [TooDeep(d + 1)])
      + [Close(d)]
  }

  /** The dispatch of `DumpSubItem`: enumerables, then objects. `stack`
      already holds the composite itself. */
  function BodyLines(g: Graph, id: nat, stack: seq<Value>): seq<Line>
    requires Stackable(g, stack) && id in g
    decreases MaxDeep - |stack|, 2, 0
  {
    assert NodeClosed(g, id);
    var b := g[id].body;
    if IsEnumerable(b) then ItemLinesFrom(g, Elements(b), stack, 0)
    else MemberLinesFrom(g, b.members, stack, 0)
  }

  /** One iteration of the `foreach` of `DumpObject`. */
  function MemberLines(g: Graph, m: Member, stack: seq<Value>): seq<Line>
    requires Stackable(g, stack) && (m.read.Got? ==> ValidValue(g, m.read.value))
    decreases MaxDeep - |stack|, 1, 0
  {
    if m.read.Threw? then [Entry(|stack|, m.name + " = " + m.read.message)]
    else
      var v := m.read.value;
      var looping := OnStack(g, stack, v);
      [Entry(|stack|, m.name + " = " + ValueToString(g, v) + (if looping then LoopSignature else ""))]
      + (if looping then [] else SubItem(g, v, stack))
  }

  function MemberLinesFrom(g: Graph, ms: seq<Member>, stack: seq<Value>, i: nat): seq<Line>
    requires Stackable(g, stack) && ValidMembers(g, ms) && i <= |ms|
    decreases MaxDeep - |stack|, 1, |ms| - i
  {
    if i == |ms| then [] else MemberLines(g, ms[i], stack) + MemberLinesFrom(g, ms, stack, i + 1)
  }

  /** One iteration of the `foreach` of `DumpCollection`, the `i`-th item. */
  function ItemLines(g: Graph, i: nat, item: Value, stack: seq<Value>): seq<Line>
    requires Stackable(g, stack) && ValidValue(g, item)
    decreases MaxDeep - |stack|, 1, 0
  {
    var looping := OnStack(g, stack, item);
    [Entry(|stack|, "[" + NatToString(i) + "] " + ValueToString(g, item) + (if looping then LoopSignature else ""))]
    + (if looping then [] else SubItem(g, item, stack))
  }

  function ItemLinesFrom(g: Graph, xs: seq<Value>, stack: seq<Value>, i: nat): seq<Line>
    requires Stackable(g, stack) && ValidValues(g, xs) && i <= |xs|
    decreases MaxDeep - |stack|, 1, |xs| - i
  {
    if i == |xs| then [] else ItemLines(g, i, xs[i], stack) + ItemLinesFrom(g, xs, stack, i + 1)
  }

  /** `DumpToString(obj)`: a terminal alone, or the block at depth 0 with
      no header line. */
  function DumpText(g: Graph, root: Value, nl: string): string
    requires Closed(g) && ValidValue(g, root)
  {
    if IsPrimitiveOrNull(g, root) then ValueToString(g, root)
    else RenderAll(IndentSize, SubItem(g, root, []), nl, EntryNewLine)
  }
}
