/** What the `Dumper` output is guaranteed to look like. */
module DumperProperties {
  import opened Wrappers
  import opened Text
  import opened ObjectGraph
  import opened Escape
  import opened Layout
  import opened IndexPaths
  import opened DumperSpec

  // ---------------------------------------------------------------------
  // Classification.

  /** Null, primitives, chars, strings, decimals and enums are terminal
      whatever the settings. */
  lemma BuiltInsAreTerminal(cfg: Config, g: Graph, v: Value)
    requires ValidValue(g, v)
    requires v.Null? || g[v.id].kind in {PrimitiveKind, CharKind, StringKind, DecimalKind, EnumKind}
    ensures ShouldDumpAsString(cfg, g, v)
  {
  }

  /** Exactly the plain objects (and delegates, when `EnumerateDelegate` is
      set) that are neither listed in `TypesAsString` nor, under
      `UseOverriddenToString`, override `ToString` are expanded. */
  lemma CompositeExactly(cfg: Config, g: Graph, v: Value)
    requires ValidValue(g, v)
    ensures !ShouldDumpAsString(cfg, g, v) <==>
      && v.Ref?
      && (g[v.id].kind.ObjectKind? || (g[v.id].kind.DelegateKind? && cfg.enumerateDelegate))
      && g[v.id].ty !in cfg.typesAsString
      && !(cfg.useOverriddenToString && g[v.id].ty.overridesToString)
  {
  }

  /** Listing more types, turning `UseOverriddenToString` on or
      `EnumerateDelegate` off only makes more values terminal. */
  lemma TerminalMonotone(cfg: Config, cfg': Config, g: Graph, v: Value)
    requires ValidValue(g, v)
    requires forall t :: t in cfg.typesAsString ==> t in cfg'.typesAsString
    requires cfg.useOverriddenToString ==> cfg'.useOverriddenToString
    requires cfg'.enumerateDelegate ==> cfg.enumerateDelegate
    ensures ShouldDumpAsString(cfg, g, v) ==> ShouldDumpAsString(cfg', g, v)
  {
  }

  // ---------------------------------------------------------------------
  // Terminal formatting.

  predicate NoControlChars(s: string)
  {
    forall k :: 0 <= k < |s| ==> !IsEscapable(s[k])
  }

  lemma NoControlCharsAppend(a: string, b: string)
    requires NoControlChars(a) && NoControlChars(b)
    ensures NoControlChars(a + b)
  {
    forall k | 0 <= k < |a + b| ensures !IsEscapable((a + b)[k]) {
      if k < |a| {
        assert (a + b)[k] == a[k];
      } else {
        assert (a + b)[k] == b[k - |a|];
      }
    }
  }

  lemma {:induction false} JoinNoControlChars(sep: string, parts: seq<string>)
    requires NoControlChars(sep)
    requires forall i :: 0 <= i < |parts| ==> NoControlChars(parts[i])
    ensures NoControlChars(Join(sep, parts))
  {
    if |parts| > 1 {
      JoinNoControlChars(sep, parts[1..]);
      NoControlCharsAppend(parts[0], sep);
      NoControlCharsAppend(parts[0] + sep, Join(sep, parts[1..]));
    }
  }

  predicate CleanType(ty: TypeInfo)
  {
    && NoControlChars(ty.fullName)
    && NoControlChars(ty.name)
    && forall i :: 0 <= i < |ty.genericArgNames| ==> NoControlChars(ty.genericArgNames[i])
  }

  /** A terminal prints on a single line: the `ToString()` text is escaped,
      so the only control characters `ValueToString` could emit would come
      from type names. */
  lemma ValueToStringOneLine(cfg: Config, g: Graph, v: Value)
    requires ValidValue(g, v)
    requires v.Ref? ==> CleanType(g[v.id].ty)
    ensures NoControlChars(ValueToString(cfg, g, v))
    ensures '\n' !in ValueToString(cfg, g, v) && '\r' !in ValueToString(cfg, g, v)
  {
    if v.Ref? {
      var n := g[v.id];
      EscapedClean(n.text);
      var e := Escaped(n.text);
      NoControlCharsAppend("\"", e);
      NoControlCharsAppend("\"" + e, "\"");
      NoControlCharsAppend("'", e);
      NoControlCharsAppend("'" + e, "'");
      var lit := Literal(n);
      if cfg.showPropertyType {
        var t := TypeText(cfg, n.ty);
        if cfg.showTypeNameOnly && |n.ty.genericArgNames| > 0 {
          JoinNoControlChars(",", n.ty.genericArgNames);
          var args := Join(",", n.ty.genericArgNames);
          NoControlCharsAppend("[", args);
          NoControlCharsAppend("[" + args, "]");
          NoControlCharsAppend(n.ty.name, "[" + args + "]");
        }
        NoControlCharsAppend(lit, " (");
        NoControlCharsAppend(lit + " (", t);
        NoControlCharsAppend(lit + " (" + t, ")");
      }
    }
    var s := ValueToString(cfg, g, v);
    assert IsEscapable('\n') && IsEscapable('\r');
    if '\n' in s {
      var k :| 0 <= k < |s| && s[k] == '\n';
    }
    if '\r' in s {
      var k :| 0 <= k < |s| && s[k] == '\r';
    }
  }

  /** The type suffix ` (T)` is appended exactly when `ShowPropertyType` is
      set; everything before it does not depend on that setting. */
  lemma TypeSuffixIffShown(cfg: Config, g: Graph, v: Value)
    requires ValidValue(g, v) && v.Ref?
    ensures ValueToString(cfg.(showPropertyType := true), g, v)
         == ValueToString(cfg.(showPropertyType := false), g, v) + " (" + TypeText(cfg, g[v.id].ty) + ")"
    ensures !cfg.showPropertyType ==> ValueToString(cfg, g, v) == Literal(g[v.id])
  {
  }

  /** A string comes out between double quotes, a char between single
      quotes, anything else bare; each with its text escaped. */
  lemma LiteralQuoting(n: Node)
    ensures n.kind.StringKind? ==> Literal(n) == "\"" + Escaped(n.text) + "\""
    ensures n.kind.CharKind? ==> Literal(n) == "'" + Escaped(n.text) + "'"
    ensures !n.kind.StringKind? && !n.kind.CharKind? ==> Literal(n) == Escaped(n.text)
  {
  }

  /** `ShowTypeNameOnly` selects the simple name, with the generic
      arguments' simple names in brackets when there are any. */
  lemma TypeTextChoice(cfg: Config, ty: TypeInfo)
    ensures !cfg.showTypeNameOnly ==> TypeText(cfg, ty) == ty.fullName
    ensures cfg.showTypeNameOnly && ty.genericArgNames == [] ==> TypeText(cfg, ty) == ty.name
    ensures cfg.showTypeNameOnly && ty.genericArgNames != [] ==>
      TypeText(cfg, ty) == ty.name + "[" + Join(",", ty.genericArgNames) + "]"
  {
  }

  // ---------------------------------------------------------------------
  // Shape of the traversal: balanced braces and bounded depth.

  /** `DumpSubItem` prints nothing exactly for a terminal; for a composite
      it prints one block whose braces sit at the current depth (indented
      by `depth * IndentSize`) and in which every brace is matched. No line
      goes deeper than `MaxDepth + 1`, except the too-deep marker at
      exactly `MaxDepth + 2`. */
  lemma {:induction false} SubItemShape(cfg: Config, g: Graph, v: Value, stack: seq<Value>)
    requires Stackable(cfg, g, stack) && ValidValue(g, v)
    ensures ShouldDumpAsString(cfg, g, v) <==> SubItem(cfg, g, v, stack) == []
    ensures !ShouldDumpAsString(cfg, g, v) ==> IsBlock(SubItem(cfg, g, v, stack), |stack|)
    ensures DepthBounded(SubItem(cfg, g, v, stack), |stack|, cfg.maxDepth)
    decreases cfg.maxDepth + 1 - |stack|, 0, 0
  {
    if !ShouldDumpAsString(cfg, g, v) {
      var d := |stack|;
      var body := if d <= cfg.maxDepth then BodyLines(cfg, g, v.id, stack + [v]) else [TooDeep(d + 1)];
      if d <= cfg.maxDepth {
        BodyShape(cfg, g, v.id, stack + [v]);
      } else {
        assert Nest(body, d + 1, d) == Nest([], d + 1, d);
      }
      Wrap(body, d, d);
      DepthBoundedAppend([Open(d)], body, d, cfg.maxDepth);
      DepthBoundedAppend([Open(d)] + body, [Close(d)], d, cfg.maxDepth);
    }
  }

  /** The lines of a body are balanced one level inside the enclosing
      braces and lie at that level or deeper. */
  lemma {:induction false} BodyShape(cfg: Config, g: Graph, id: nat, stack: seq<Value>)
    requires Stackable(cfg, g, stack) && id in g && |stack| >= 1
    ensures Nest(BodyLines(cfg, g, id, stack), |stack|, |stack| - 1) == Some(|stack|)
    ensures DepthBounded(BodyLines(cfg, g, id, stack), |stack|, cfg.maxDepth)
    decreases cfg.maxDepth + 1 - |stack|, 2, 0
  {
    assert NodeOk(g, id);
    match g[id].body
    case Vector(_) =>
      JaggedLeavesValid(g, id);
      LeafLinesShape(cfg, g, JaggedArrays.Leaves(g, id, []), true, stack, 0);
    case Grid(ls, cs) =>
      GridLeavesValid(g, ls, cs);
      LeafLinesShape(cfg, g, MultiDimensionalArrays.Walk(ls, cs, []), false, stack, 0);
    case Items(xs) => ItemLinesShape(cfg, g, xs, stack, 0);
    case Members(ms) => MemberLinesShape(cfg, g, ms, stack, 0);
  }

  lemma {:induction false} MemberShape(cfg: Config, g: Graph, m: Member, stack: seq<Value>)
    requires Stackable(cfg, g, stack) && (m.read.Got? ==> ValidValue(g, m.read.value)) && |stack| >= 1
    ensures Nest(MemberLines(cfg, g, m, stack), |stack|, |stack| - 1) == Some(|stack|)
    ensures DepthBounded(MemberLines(cfg, g, m, stack), |stack|, cfg.maxDepth)
    decreases cfg.maxDepth + 1 - |stack|, 1, 0
  {
    match m.read
    case Threw(message) =>
      EntryBlockShape(m.name + " = " + message, [], |stack|, cfg.maxDepth);
      assert [Entry(|stack|, m.name + " = " + message)] + [] == MemberLines(cfg, g, m, stack);
    case Got(v) =>
      if !(cfg.ignoreNullProperty && v.Null?) {
        var looping := OnStack(g, stack, v);
        var text := m.name + " = " + ValueToString(cfg, g, v) + (if looping then LoopSignature else "");
        var block := if looping then [] else SubItem(cfg, g, v, stack);
        assert MemberLines(cfg, g, m, stack) == [Entry(|stack|, text)] + block;
        SubItemShape(cfg, g, v, stack);
        EntryBlockShape(text, block, |stack|, cfg.maxDepth);
      } else {
        assert MemberLines(cfg, g, m, stack) == [];
      }
  }

  lemma {:induction false} MemberLinesShape(cfg: Config, g: Graph, ms: seq<Member>, stack: seq<Value>, i: nat)
    requires Stackable(cfg, g, stack) && ValidMembers(g, ms) && i <= |ms| && |stack| >= 1
    ensures Nest(MemberLinesFrom(cfg, g, ms, stack, i), |stack|, |stack| - 1) == Some(|stack|)
    ensures DepthBounded(MemberLinesFrom(cfg, g, ms, stack, i), |stack|, cfg.maxDepth)
    decreases cfg.maxDepth + 1 - |stack|, 1, |ms| - i
  {
    if i < |ms| {
      MemberShape(cfg, g, ms[i], stack);
      MemberLinesShape(cfg, g, ms, stack, i + 1);
      Concat(MemberLines(cfg, g, ms[i], stack), MemberLinesFrom(cfg, g, ms, stack, i + 1), |stack|, |stack| - 1);
      DepthBoundedAppend(MemberLines(cfg, g, ms[i], stack), MemberLinesFrom(cfg, g, ms, stack, i + 1), |stack|, cfg.maxDepth);
    }
  }

  lemma {:induction false} ItemShape(cfg: Config, g: Graph, i: nat, item: Value, stack: seq<Value>)
    requires Stackable(cfg, g, stack) && ValidValue(g, item) && |stack| >= 1
    ensures Nest(ItemLines(cfg, g, i, item, stack), |stack|, |stack| - 1) == Some(|stack|)
    ensures DepthBounded(ItemLines(cfg, g, i, item, stack), |stack|, cfg.maxDepth)
    decreases cfg.maxDepth + 1 - |stack|, 1, 0
  {
    var looping := OnStack(g, stack, item);
    var text := "[" + NatToString(i) + "] " + ValueToString(cfg, g, item) + (if looping then LoopSignature else "");
    SubItemShape(cfg, g, item, stack);
    EntryBlockShape(text, if looping then [] else SubItem(cfg, g, item, stack), |stack|, cfg.maxDepth);
  }

  lemma {:induction false} ItemLinesShape(cfg: Config, g: Graph, xs: seq<Value>, stack: seq<Value>, i: nat)
    requires Stackable(cfg, g, stack) && ValidValues(g, xs) && i <= |xs| && |stack| >= 1
    ensures Nest(ItemLinesFrom(cfg, g, xs, stack, i), |stack|, |stack| - 1) == Some(|stack|)
    ensures DepthBounded(ItemLinesFrom(cfg, g, xs, stack, i), |stack|, cfg.maxDepth)
    decreases cfg.maxDepth + 1 - |stack|, 1, |xs| - i
  {
    if i < |xs| {
      ItemShape(cfg, g, i, xs[i], stack);
      ItemLinesShape(cfg, g, xs, stack, i + 1);
      Concat(ItemLines(cfg, g, i, xs[i], stack), ItemLinesFrom(cfg, g, xs, stack, i + 1), |stack|, |stack| - 1);
      DepthBoundedAppend(ItemLines(cfg, g, i, xs[i], stack), ItemLinesFrom(cfg, g, xs, stack, i + 1), |stack|, cfg.maxDepth);
    }
  }

  lemma {:induction false} LeafShape(cfg: Config, g: Graph, leaf: Leaf, jagged: bool, stack: seq<Value>)
    requires Stackable(cfg, g, stack) && ValidValue(g, leaf.value) && |stack| >= 1
    ensures Nest(LeafLines(cfg, g, leaf, jagged, stack), |stack|, |stack| - 1) == Some(|stack|)
    ensures DepthBounded(LeafLines(cfg, g, leaf, jagged, stack), |stack|, cfg.maxDepth)
    decreases cfg.maxDepth + 1 - |stack|, 1, 0
  {
    var v := leaf.value;
    var looping := OnStack(g, stack, v);
    var text := IndexText(leaf.path, jagged) + " " + ValueToString(cfg, g, v) + (if looping then LoopSignature else "");
    SubItemShape(cfg, g, v, stack);
    EntryBlockShape(text, SubItem(cfg, g, v, stack), |stack|, cfg.maxDepth);
  }

  lemma {:induction false} LeafLinesShape(cfg: Config, g: Graph, leaves: seq<Leaf>, jagged: bool, stack: seq<Value>, i: nat)
    requires Stackable(cfg, g, stack) && ValidLeaves(g, leaves) && i <= |leaves| && |stack| >= 1
    ensures Nest(LeafLinesFrom(cfg, g, leaves, jagged, stack, i), |stack|, |stack| - 1) == Some(|stack|)
    ensures DepthBounded(LeafLinesFrom(cfg, g, leaves, jagged, stack, i), |stack|, cfg.maxDepth)
    decreases cfg.maxDepth + 1 - |stack|, 1, |leaves| - i
  {
    if i < |leaves| {
      LeafShape(cfg, g, leaves[i], jagged, stack);
      LeafLinesShape(cfg, g, leaves, jagged, stack, i + 1);
      Concat(LeafLines(cfg, g, leaves[i], jagged, stack), LeafLinesFrom(cfg, g, leaves, jagged, stack, i + 1), |stack|, |stack| - 1);
      DepthBoundedAppend(LeafLines(cfg, g, leaves[i], jagged, stack), LeafLinesFrom(cfg, g, leaves, jagged, stack, i + 1), |stack|, cfg.maxDepth);
    }
  }

  /** Past `MaxDepth` the block holds the too-deep marker one level in and
      nothing else; up to `MaxDepth` it holds the body. */
  lemma DepthCutOff(cfg: Config, g: Graph, v: Value, stack: seq<Value>)
    requires Stackable(cfg, g, stack) && ValidValue(g, v) && !ShouldDumpAsString(cfg, g, v)
    ensures |stack| > cfg.maxDepth ==> SubItem(cfg, g, v, stack) == [Open(|stack|), TooDeep(|stack| + 1), Close(|stack|)]
    ensures |stack| <= cfg.maxDepth ==>
      SubItem(cfg, g, v, stack) == [Open(|stack|)] + BodyLines(cfg, g, v.id, stack + [v]) + [Close(|stack|)]
  {
  }

  // ---------------------------------------------------------------------
  // Loops, nulls and failing getters.

  /** A member whose value is already an ancestor gets the loop mark and no
      block of its own. */
  lemma MemberLoopNotExpanded(cfg: Config, g: Graph, m: Member, stack: seq<Value>)
    requires Stackable(cfg, g, stack) && m.read.Got? && ValidValue(g, m.read.value)
    requires OnStack(g, stack, m.read.value)
    ensures MemberLines(cfg, g, m, stack) ==
      [Entry(|stack|, m.name + " = " + ValueToString(cfg, g, m.read.value) + LoopSignature)]
  {
    NullNeverOnStack(g, stack);
    var text := m.name + " = " + ValueToString(cfg, g, m.read.value) + LoopSignature;
    assert [Entry(|stack|, text)] + [] == [Entry(|stack|, text)];
  }

  /** The same for a collection item. */
  lemma ItemLoopNotExpanded(cfg: Config, g: Graph, i: nat, item: Value, stack: seq<Value>)
    requires Stackable(cfg, g, stack) && ValidValue(g, item) && OnStack(g, stack, item)
    ensures ItemLines(cfg, g, i, item, stack) ==
      [Entry(|stack|, "[" + NatToString(i) + "] " + ValueToString(cfg, g, item) + LoopSignature)]
  {
    var text := "[" + NatToString(i) + "] " + ValueToString(cfg, g, item) + LoopSignature;
    assert [Entry(|stack|, text)] + [] == [Entry(|stack|, text)];
  }

  /** An array element that is already an ancestor gets the loop mark but
      is expanded all the same: for a composite, its block follows. */
  lemma ArrayLoopStillExpanded(cfg: Config, g: Graph, leaf: Leaf, jagged: bool, stack: seq<Value>)
    requires Stackable(cfg, g, stack) && ValidValue(g, leaf.value) && OnStack(g, stack, leaf.value)
    requires !ShouldDumpAsString(cfg, g, leaf.value)
    ensures var ls := LeafLines(cfg, g, leaf, jagged, stack);
      && ls[0] == Entry(|stack|, IndexText(leaf.path, jagged) + " " + ValueToString(cfg, g, leaf.value) + LoopSignature)
      && IsBlock(ls[1..], |stack|)
  {
    SubItemShape(cfg, g, leaf.value, stack);
    var ls := LeafLines(cfg, g, leaf, jagged, stack);
    assert ls[1..] == SubItem(cfg, g, leaf.value, stack);
  }

  /** With `IgnoreNullProperty` a member holding null prints nothing;
      without it, it prints `name = (null)`. */
  lemma NullMember(cfg: Config, g: Graph, name: string, stack: seq<Value>)
    requires Stackable(cfg, g, stack)
    ensures cfg.ignoreNullProperty ==> MemberLines(cfg, g, Member(name, Got(Null)), stack) == []
    ensures !cfg.ignoreNullProperty ==>
      MemberLines(cfg, g, Member(name, Got(Null)), stack) == [Entry(|stack|, name + " = (null)")]
  {
    NullNeverOnStack(g, stack);
    var text := name + " = " + "(null)";
    assert text + "" == name + " = (null)";
    assert [Entry(|stack|, text + "")] + [] == [Entry(|stack|, name + " = (null)")];
  }

  /** Conversely, only a member holding null under `IgnoreNullProperty`
      is skipped: every other member, whatever it holds and whether or not
      its getter threw, starts with its own `name = ...` line. */
  lemma MemberSkippedIffNull(cfg: Config, g: Graph, m: Member, stack: seq<Value>)
    requires Stackable(cfg, g, stack) && (m.read.Got? ==> ValidValue(g, m.read.value))
    ensures MemberLines(cfg, g, m, stack) == [] <==> cfg.ignoreNullProperty && m.read == Got(Null)
    ensures MemberLines(cfg, g, m, stack) != [] ==>
      var first := MemberLines(cfg, g, m, stack)[0];
      first.Entry? && first.depth == |stack| && m.name + " = " <= first.text
  {
  }

  /** A null collection item is always printed as `[i] (null)`, whatever
      `IgnoreNullProperty` says. */
  lemma NullItemPrinted(cfg: Config, g: Graph, i: nat, stack: seq<Value>)
    requires Stackable(cfg, g, stack)
    ensures ItemLines(cfg, g, i, Null, stack) == [Entry(|stack|, "[" + NatToString(i) + "] (null)")]
  {
    NullNeverOnStack(g, stack);
    var text := "[" + NatToString(i) + "] " + "(null)";
    assert text + "" == "[" + NatToString(i) + "] (null)";
    assert [Entry(|stack|, text + "")] + [] == [Entry(|stack|, "[" + NatToString(i) + "] (null)")];
  }

  /** A getter that throws prints `name = message` and nothing else; the
      members after it are still dumped. */
  lemma ThrowingGetter(cfg: Config, g: Graph, ms: seq<Member>, stack: seq<Value>, i: nat)
    requires Stackable(cfg, g, stack) && ValidMembers(g, ms) && i < |ms| && ms[i].read.Threw?
    ensures MemberLinesFrom(cfg, g, ms, stack, i) ==
      [Entry(|stack|, ms[i].name + " = " + ms[i].read.message)] + MemberLinesFrom(cfg, g, ms, stack, i + 1)
  {
  }

  // ---------------------------------------------------------------------
  // The whole output.

  /** A terminal root is printed as its `ValueToString` alone: no braces,
      no line terminator. */
  lemma DumpTextTerminal(cfg: Config, g: Graph, root: Value, nl: string)
    requires WellFormed(g) && ValidValue(g, root) && ShouldDumpAsString(cfg, g, root)
    ensures DumpText(cfg, g, root, nl) == ValueToString(cfg, g, root)
  {
  }

  /** A composite root is printed as a header line, then `{`, the body
      lines, and `}` at column 0, each line terminated by `nl`. */
  lemma DumpTextComposite(cfg: Config, g: Graph, root: Value, nl: string)
    requires WellFormed(g) && ValidValue(g, root) && !ShouldDumpAsString(cfg, g, root)
    ensures var body := BodyLines(cfg, g, root.id, [root]);
      DumpText(cfg, g, root, nl) ==
        ValueToString(cfg, g, root) + nl + "{" + nl + RenderAll(cfg.indentSize, body, nl, nl) + "}" + nl
  {
    assert [] + [root] == [root];
    DepthCutOff(cfg, g, root, []);
    RenderTopBlock(cfg.indentSize, BodyLines(cfg, g, root.id, [root]), nl, nl);
  }
}
