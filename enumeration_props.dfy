/** What the `Enumeration` output is guaranteed to look like, mostly by
    relating it to `Dumper`: `Enumeration` prints what `Dumper` prints under
    one fixed choice of settings, once every array is read as the plain
    enumerable that `foreach` sees, except for the header line and the line
    terminators. */
module EnumerationProperties {
  import opened Text
  import opened ObjectGraph
  import opened Layout
  import opened EnumerationSpec
  import DumperSpec
  import DumperProperties
  import Escape

  /** The `Dumper` settings `Enumeration` hard-codes: indent 4, a body only
      below depth `MaxDeep` (that is, up to `MaxDeep - 1`), the full type
      name always shown, no type printed as a string by request, delegates
      expanded, `ToString` overrides ignored, null members printed. */
  const Matching: DumperSpec.Config :=
    DumperSpec.Config(IndentSize, MaxDeep - 1, true, false, [], true, false, false)

  /** A node as `foreach` sees it: an array of any rank is a plain
      enumerable of its elements, in storage order. */
  function FlatNode(n: Node): (r: Node)
    ensures r.ty == n.ty && r.kind == n.kind && r.text == n.text && r.equalityKey == n.equalityKey
    ensures r.body.Members? <==> n.body.Members?
    ensures !n.body.Members? ==> r.body == Items(Elements(n.body))
    ensures n.body.Members? ==> r.body == n.body
  {
    if n.body.Members? then n else n.(body := Items(Elements(n.body)))
  }

  /** Every node as `foreach` sees it. No rank-1 array is left, so the
      flattened graph of any closed graph meets `Dumper`'s requirement that
      rank-1 arrays nest acyclically. */
  function Flatten(g: Graph): (r: Graph)
    ensures forall id :: id in r <==> id in g
    ensures forall id :: id in r ==> r[id] == FlatNode(g[id])
    ensures Closed(g) ==> WellFormed(r)
  {
    var r := map id | id in g :: FlatNode(g[id]);
    assert Closed(g) ==> WellFormed(r) by {
      if Closed(g) {
        forall id | id in r ensures NodeOk(r, id) {
          assert NodeClosed(g, id);
        }
      }
    }
    r
  }

  // ---------------------------------------------------------------------
  // Classification and value text.

  /** `IsPrimitiveOrNull` is `ShouldDumpAsString` under the matching
      settings: the built-in terminals and nothing else; delegates are
      expanded. */
  lemma TerminalMatchesDumper(g: Graph, v: Value)
    requires ValidValue(g, v)
    ensures IsPrimitiveOrNull(g, v) <==> DumperSpec.ShouldDumpAsString(Matching, Flatten(g), v)
    ensures IsPrimitiveOrNull(g, v) <==>
      v.Null? || g[v.id].kind in {PrimitiveKind, CharKind, StringKind, DecimalKind, EnumKind}
  {
  }

  /** A delegate is expanded here, while `Dumper` with its defaults prints
      it as a string. */
  lemma DelegateExpanded(g: Graph, v: Value)
    requires ValidValue(g, v) && v.Ref? && g[v.id].kind.DelegateKind?
    ensures !IsPrimitiveOrNull(g, v)
    ensures DumperSpec.ShouldDumpAsString(DumperSpec.Defaults, g, v)
  {
  }

  /** `ValueToString` is `Dumper`'s with `ShowPropertyType` on and
      `ShowTypeNameOnly` off: a non-null value always ends in its full type
      name in parentheses. */
  lemma ValueToStringMatchesDumper(g: Graph, v: Value)
    requires ValidValue(g, v)
    ensures ValueToString(g, v) == DumperSpec.ValueToString(Matching, Flatten(g), v)
    ensures ValueToString(g, v) == DumperSpec.ValueToString(DumperSpec.Defaults, g, v)
    ensures v.Ref? ==> ValueToString(g, v) == DumperSpec.Literal(g[v.id]) + " (" + g[v.id].ty.fullName + ")"
  {
  }

  // ---------------------------------------------------------------------
  // The traversal is `Dumper`'s traversal of the flattened graph.

  lemma StackableMatches(g: Graph, stack: seq<Value>)
    requires Stackable(g, stack)
    ensures DumperSpec.Stackable(Matching, Flatten(g), stack)
  {
  }

  lemma {:induction false} SubItemAgrees(g: Graph, v: Value, stack: seq<Value>)
    requires Stackable(g, stack) && ValidValue(g, v)
    ensures DumperSpec.Stackable(Matching, Flatten(g), stack)
    ensures SubItem(g, v, stack) == DumperSpec.SubItem(Matching, Flatten(g), v, stack)
    decreases MaxDeep - |stack|, 0, 0
  {
    var f := Flatten(g);
    StackableMatches(g, stack);
    TerminalMatchesDumper(g, v);
    if !IsPrimitiveOrNull(g, v) && |stack| < MaxDeep {
      StackableMatches(g, stack + [v]);
      BodyAgrees(g, v.id, stack + [v]);
    }
  }

  lemma {:induction false} BodyAgrees(g: Graph, id: nat, stack: seq<Value>)
    requires Stackable(g, stack) && id in g
    ensures DumperSpec.Stackable(Matching, Flatten(g), stack)
    ensures BodyLines(g, id, stack) == DumperSpec.BodyLines(Matching, Flatten(g), id, stack)
    decreases MaxDeep - |stack|, 2, 0
  {
    StackableMatches(g, stack);
    assert NodeClosed(g, id);
    var b := g[id].body;
    if IsEnumerable(b) {
      ItemLinesAgree(g, Elements(b), stack, 0);
    } else {
      MemberLinesAgree(g, b.members, stack, 0);
    }
  }

  lemma {:induction false} MemberLinesAgree(g: Graph, ms: seq<Member>, stack: seq<Value>, i: nat)
    requires Stackable(g, stack) && ValidMembers(g, ms) && i <= |ms|
    ensures DumperSpec.Stackable(Matching, Flatten(g), stack)
    ensures MemberLinesFrom(g, ms, stack, i) == DumperSpec.MemberLinesFrom(Matching, Flatten(g), ms, stack, i)
    decreases MaxDeep - |stack|, 1, |ms| - i
  {
    StackableMatches(g, stack);
    if i < |ms| {
      var m := ms[i];
      if m.read.Got? {
        ValueToStringMatchesDumper(g, m.read.value);
        SubItemAgrees(g, m.read.value, stack);
      }
      MemberLinesAgree(g, ms, stack, i + 1);
    }
  }

  lemma {:induction false} ItemLinesAgree(g: Graph, xs: seq<Value>, stack: seq<Value>, i: nat)
    requires Stackable(g, stack) && ValidValues(g, xs) && i <= |xs|
    ensures DumperSpec.Stackable(Matching, Flatten(g), stack)
    ensures ItemLinesFrom(g, xs, stack, i) == DumperSpec.ItemLinesFrom(Matching, Flatten(g), xs, stack, i)
    decreases MaxDeep - |stack|, 1, |xs| - i
  {
    StackableMatches(g, stack);
    if i < |xs| {
      ValueToStringMatchesDumper(g, xs[i]);
      SubItemAgrees(g, xs[i], stack);
      ItemLinesAgree(g, xs, stack, i + 1);
    }
  }

  /** The whole output: a terminal as its value text, exactly as `Dumper`
      would print it; a composite as `Dumper`'s output without its header
      line, member and element lines ending in CR LF. */
  lemma DumpTextMatchesDumper(g: Graph, root: Value, nl: string)
    requires Closed(g) && ValidValue(g, root)
    ensures IsPrimitiveOrNull(g, root) ==>
      DumpText(g, root, nl) == DumperSpec.DumpText(Matching, Flatten(g), root, nl)
    ensures !IsPrimitiveOrNull(g, root) ==>
      DumpText(g, root, nl) == RenderAll(IndentSize, DumperSpec.SubItem(Matching, Flatten(g), root, []), nl, EntryNewLine)
    ensures !IsPrimitiveOrNull(g, root) && nl == EntryNewLine ==>
      DumperSpec.DumpText(Matching, Flatten(g), root, nl) == ValueToString(g, root) + nl + DumpText(g, root, nl)
  {
    TerminalMatchesDumper(g, root);
    ValueToStringMatchesDumper(g, root);
    if !IsPrimitiveOrNull(g, root) {
      SubItemAgrees(g, root, []);
    }
  }

  // ---------------------------------------------------------------------
  // Consequences.

  /** `DumpSubItem` prints nothing exactly for a terminal; for a composite
      it prints one block at the current depth in which every brace is
      matched. The body stops at depth `MaxDeep`: no line is deeper than
      `MaxDeep`, except the too-deep marker at exactly `MaxDeep + 1`. */
  lemma SubItemShape(g: Graph, v: Value, stack: seq<Value>)
    requires Stackable(g, stack) && ValidValue(g, v)
    ensures IsPrimitiveOrNull(g, v) <==> SubItem(g, v, stack) == []
    ensures !IsPrimitiveOrNull(g, v) ==> IsBlock(SubItem(g, v, stack), |stack|)
    ensures DepthBounded(SubItem(g, v, stack), |stack|, MaxDeep - 1)
  {
    SubItemAgrees(g, v, stack);
    TerminalMatchesDumper(g, v);
    DumperProperties.SubItemShape(Matching, Flatten(g), v, stack);
  }

  /** From depth `MaxDeep` on, a composite gets the too-deep marker one
      level in and nothing else. */
  lemma DepthCutOff(g: Graph, v: Value, stack: seq<Value>)
    requires Stackable(g, stack) && ValidValue(g, v) && !IsPrimitiveOrNull(g, v)
    ensures |stack| == MaxDeep ==> SubItem(g, v, stack) == [Open(MaxDeep), TooDeep(MaxDeep + 1), Close(MaxDeep)]
    ensures |stack| < MaxDeep ==> SubItem(g, v, stack) == [Open(|stack|)] + BodyLines(g, v.id, stack + [v]) + [Close(|stack|)]
  {
  }

  /** There is no header line: a composite root prints `{`, its body and
      `}` at column 0. */
  lemma DumpTextComposite(g: Graph, root: Value, nl: string)
    requires Closed(g) && ValidValue(g, root) && !IsPrimitiveOrNull(g, root)
    ensures DumpText(g, root, nl) == "{" + nl + RenderAll(IndentSize, BodyLines(g, root.id, [root]), nl, EntryNewLine) + "}" + nl
  {
    assert [] + [root] == [root];
    DepthCutOff(g, root, []);
    RenderTopBlock(IndentSize, BodyLines(g, root.id, [root]), nl, EntryNewLine);
  }

  /** Arrays of any rank take the enumerable path: the elements of a rank-1
      array, or the cells of a multi-dimensional one in storage order, each
      as an `[i]` line numbered from 0. */
  lemma ArraysEnumeratedFlat(g: Graph, id: nat, stack: seq<Value>)
    requires Stackable(g, stack) && id in g && (g[id].body.Vector? || g[id].body.Grid?)
    ensures g[id].body.Vector? ==> BodyLines(g, id, stack) == ItemLinesFrom(g, g[id].body.elems, stack, 0)
    ensures g[id].body.Grid? ==> BodyLines(g, id, stack) == ItemLinesFrom(g, g[id].body.cells, stack, 0)
  {
    assert NodeClosed(g, id);
  }

  // ---------------------------------------------------------------------
  // Loops, nulls and failing getters.

  /** A member whose value is already an ancestor gets the loop mark and no
      block of its own. */
  lemma MemberLoopNotExpanded(g: Graph, m: Member, stack: seq<Value>)
    requires Stackable(g, stack) && m.read.Got? && ValidValue(g, m.read.value)
    requires OnStack(g, stack, m.read.value)
    ensures MemberLines(g, m, stack) == [Entry(|stack|, m.name + " = " + ValueToString(g, m.read.value) + LoopSignature)]
  {
    var text := m.name + " = " + ValueToString(g, m.read.value) + LoopSignature;
    assert [Entry(|stack|, text)] + [] == [Entry(|stack|, text)];
  }

  /** The same for an element, arrays included. */
  lemma ItemLoopNotExpanded(g: Graph, i: nat, item: Value, stack: seq<Value>)
    requires Stackable(g, stack) && ValidValue(g, item) && OnStack(g, stack, item)
    ensures ItemLines(g, i, item, stack) ==
      [Entry(|stack|, "[" + NatToString(i) + "] " + ValueToString(g, item) + LoopSignature)]
  {
    var text := "[" + NatToString(i) + "] " + ValueToString(g, item) + LoopSignature;
    assert [Entry(|stack|, text)] + [] == [Entry(|stack|, text)];
  }

  /** `a[0] = a` for a one-element array `a` whose type prints as `name`
      (`System.Object[]` for an `object[]`). */
  function SelfArray(name: string): Graph
  {
    map[0 := Node(TypeInfo(name, name, [], false), ObjectKind, name, Vector([Ref(0)]), 0)]
  }

  /** `DumpToString(a)` on that array: it is its own only element, so the
      element line carries the loop mark and the dump ends there. The graph
      is closed but not well formed, which is the case `Dumper`'s jagged
      walker could not finish. */
  lemma SelfContainingArray(name: string, nl: string)
    requires forall k :: 0 <= k < |name| ==> !Escape.IsEscapable(name[k])
    ensures Closed(SelfArray(name)) && !WellFormed(SelfArray(name))
    ensures DumpText(SelfArray(name), Ref(0), nl)
         == "{" + nl + "    [0] " + name + " (" + name + ")<LoopReference>\r\n}" + nl
  {
    SelfArrayClosed(name);
    var line := SelfArrayBody(name);
    DumpTextComposite(SelfArray(name), Ref(0), nl);
    assert Indent(IndentSize, 1) == "    ";
    var rendered := RenderAll(IndentSize, [line], nl, EntryNewLine);
    assert rendered == "    " + line.text + EntryNewLine + "";
    SelfArrayText(name, line.text, rendered, nl);
  }

  lemma SelfArrayText(name: string, t: string, rendered: string, nl: string)
    requires t == "[" + "0" + "] " + (name + " (" + name + ")") + "<LoopReference>"
    requires rendered == "    " + t + "\r\n" + ""
    ensures "{" + nl + rendered + "}" + nl == "{" + nl + "    [0] " + name + " (" + name + ")<LoopReference>\r\n}" + nl
  {
  }

  lemma SelfArrayClosed(name: string)
    ensures Closed(SelfArray(name)) && !WellFormed(SelfArray(name))
  {
    var g := SelfArray(name);
    assert NodeClosed(g, 0);
    assert !NodeOk(g, 0) by {
      assert IsVector(g, g[0].body.elems[0]);
    }
  }

  lemma SelfArrayBody(name: string) returns (line: Line)
    requires forall k :: 0 <= k < |name| ==> !Escape.IsEscapable(name[k])
    requires Closed(SelfArray(name))
    ensures line.Entry? && line.depth == 1
    ensures line.text == "[" + "0" + "] " + (name + " (" + name + ")") + "<LoopReference>"
    ensures BodyLines(SelfArray(name), 0, [Ref(0)]) == [line]
  {
    var g, a := SelfArray(name), Ref(0);
    Escape.EscapedClean(name);
    assert ValueToString(g, a) == name + " (" + name + ")";
    assert Same(g, a, [a][0]);
    assert NatToString(0) == "0";
    line := Entry(1, "[" + "0" + "] " + (name + " (" + name + ")") + "<LoopReference>");
    ItemLoopNotExpanded(g, 0, a, [a]);
    assert ItemLinesFrom(g, [a], [a], 1) == [];
  }

  /** A member holding null is always printed, as `name = (null)`. */
  lemma NullMemberPrinted(g: Graph, name: string, stack: seq<Value>)
    requires Stackable(g, stack)
    ensures MemberLines(g, Member(name, Got(Null)), stack) == [Entry(|stack|, name + " = (null)")]
  {
    NullNeverOnStack(g, stack);
    var text := name + " = " + "(null)";
    assert text + "" == name + " = (null)";
    assert [Entry(|stack|, text + "")] + [] == [Entry(|stack|, name + " = (null)")];
  }

  /** A getter that throws prints `name = message` and nothing else; the
      members after it are still dumped. */
  lemma ThrowingGetter(g: Graph, ms: seq<Member>, stack: seq<Value>, i: nat)
    requires Stackable(g, stack) && ValidMembers(g, ms) && i < |ms| && ms[i].read.Threw?
    ensures MemberLinesFrom(g, ms, stack, i) ==
      [Entry(|stack|, ms[i].name + " = " + ms[i].read.message)] + MemberLinesFrom(g, ms, stack, i + 1)
  {
  }
}
