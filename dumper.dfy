/** The `Dumper` engine as the source runs it: a settings object whose
    checked setters and `Reset` update its fields, and one dump session per
    `DumpToString` call that appends lines to its builder while pushing and
    popping the ancestor stack. Each method is proved to produce exactly
    the lines its specification function in `DumperSpec` describes. */
module Dumper {
  import opened Wrappers
  import opened ObjectGraph
  import opened Layout
  import opened IndexPaths
  import opened Escape
  import opened DumperSpec
  import JaggedArrays
  import MultiDimensionalArrays

  /** `ArgumentOutOfRangeException` of the checked setters. */
  datatype ConfigError = ArgumentOutOfRange

  /** The static class `Dumper`: its settings, with `NewLine` fixed at
      construction. */
  class Dumper {
    var indentSize: nat
    var maxDepth: nat
    var showPropertyType: bool
    var showTypeNameOnly: bool
    var typesAsString: seq<TypeInfo>
    var enumerateDelegate: bool
    var useOverriddenToString: bool
    var ignoreNullProperty: bool
    /** `Environment.NewLine`. */
    const newLine: string

    function Settings(): Config
      reads this
    {
      Config(indentSize, maxDepth, showPropertyType, showTypeNameOnly, typesAsString,
             enumerateDelegate, useOverriddenToString, ignoreNullProperty)
    }

    /** The static constructor: runs `Reset`. */
    constructor (newLine: string)
      ensures Settings() == Defaults && this.newLine == newLine
    {
      this.newLine := newLine;
      new;
      Reset();
    }

    /** `IndentSize = value`: refused, with nothing changed, when negative. */
    method SetIndentSize(value: int) returns (r: Outcome<ConfigError>)
      modifies this
      ensures value < 0 ==> r == Fail(ArgumentOutOfRange) && Settings() == old(Settings())
      ensures value >= 0 ==> r == Pass && Settings() == old(Settings()).(indentSize := value)
    {
      if value < 0 {
        return Fail(ArgumentOutOfRange);
      }
      indentSize := value;
      return Pass;
    }

    /** `MaxDepth = value`: refused, with nothing changed, when negative. */
    method SetMaxDepth(value: int) returns (r: Outcome<ConfigError>)
      modifies this
      ensures value < 0 ==> r == Fail(ArgumentOutOfRange) && Settings() == old(Settings())
      ensures value >= 0 ==> r == Pass && Settings() == old(Settings()).(maxDepth := value)
    {
      if value < 0 {
        return Fail(ArgumentOutOfRange);
      }
      maxDepth := value;
      return Pass;
    }

    /** Every setting back to its default, with a fresh empty
      `TypesAsString`. */
    method Reset()
      modifies this
      ensures Settings() == Defaults
    {
      indentSize := DefaultIndentSize;
      maxDepth := DefaultMaxDepth;
      showPropertyType := true;
      showTypeNameOnly := false;
      typesAsString := [];
      enumerateDelegate := false;
      useOverriddenToString := false;
      ignoreNullProperty := false;
    }

    /** `DumpToString(obj)`: a terminal as one value text; otherwise the
      header line and the block that `DumpSubItem` builds. */
    method DumpToString(g: Graph, obj: Value) returns (s: string)
      requires WellFormed(g) && ValidValue(g, obj)
      ensures s == DumpText(Settings(), g, obj, newLine)
    {
      var cfg := Settings();
      var text := FormatValue(cfg, g, obj);
      if ShouldDumpAsString(cfg, g, obj) {
        return text;
      }
      var lines := DumpComposite(cfg, g, obj);
      s := text + newLine + RenderAll(cfg.indentSize, lines, newLine, newLine);
    }
  }

  /** The state one `DumpToString` call threads through the recursion: the
      builder, as the lines appended so far, and `propertyPath`, the stack
      of composites being expanded (innermost last). */
  class DumpSession {
    const cfg: Config
    const g: Graph
    var sb: seq<Line>
    var propertyPath: seq<Value>

    ghost predicate Valid()
      reads this
    {
      WellFormed(g) && ValidValues(g, propertyPath)
    }

    constructor (cfg: Config, g: Graph)
      requires WellFormed(g)
      ensures Valid() && this.cfg == cfg && this.g == g && sb == [] && propertyPath == []
    {
      this.cfg := cfg;
      this.g := g;
      sb := [];
      propertyPath := [];
    }

    method DumpSubItem(value: Value)
      requires Valid() && ValidValue(g, value) && |propertyPath| <= cfg.maxDepth + 1
      modifies this
      ensures Valid() && propertyPath == old(propertyPath)
      ensures sb == old(sb) + SubItem(cfg, g, value, old(propertyPath))
      decreases cfg.maxDepth + 1 - |propertyPath|, 0
    {
      if ShouldDumpAsString(cfg, g, value) {
        return;
      }
      var depth := |propertyPath|;
      sb := sb + [Open(depth)];
      propertyPath := propertyPath + [value];
      if depth <= cfg.maxDepth {
        var body := g[value.id].body;
        if body.Vector? || body.Grid? {
          DumpArray(value.id);
        } else if body.Items? {
          DumpCollection(value.id);
        } else {
          DumpObject(value.id);
        }
      } else {
        sb := sb + [TooDeep(depth + 1)];
      }
      sb := sb + [Close(depth)];
      propertyPath := propertyPath[..|propertyPath| - 1];
    }

    method DumpObject(id: nat)
      requires Valid() && id in g && g[id].body.Members? && |propertyPath| <= cfg.maxDepth + 1
      modifies this
      ensures Valid() && propertyPath == old(propertyPath)
      ensures sb == old(sb) + BodyLines(cfg, g, id, propertyPath)
      decreases cfg.maxDepth + 1 - |propertyPath|, 2
    {
      var properties := g[id].body.members;
      assert NodeOk(g, id);
      ghost var stack := propertyPath;
      for i := 0 to |properties|
        invariant Valid() && propertyPath == stack
        invariant sb + MemberLinesFrom(cfg, g, properties, stack, i)
               == old(sb) + MemberLinesFrom(cfg, g, properties, stack, 0)
      {
        ghost var before := sb;
        DumpProperty(properties[i]);
        AppendStep(sb, before, MemberLines(cfg, g, properties[i], stack),
                   MemberLinesFrom(cfg, g, properties, stack, i + 1), MemberLinesFrom(cfg, g, properties, stack, i));
      }
    }

    /** One iteration of the loop of `DumpObject`: the `try` block, and the
        `catch` block when the getter threw. */
    method DumpProperty(p: Member)
      requires Valid() && (p.read.Got? ==> ValidValue(g, p.read.value)) && |propertyPath| <= cfg.maxDepth + 1
      modifies this
      ensures Valid() && propertyPath == old(propertyPath)
      ensures sb == old(sb) + MemberLines(cfg, g, p, propertyPath)
      decreases cfg.maxDepth + 1 - |propertyPath|, 1
    {
      var depth := |propertyPath|;
      match p.read {
        case Threw(message) =>
          sb := sb + [Entry(depth, p.name + " = " + message)];
        case Got(value) =>
          if cfg.ignoreNullProperty && value.Null? {
            assert sb == sb + [];
            return;
          }
          var isLooping := OnStack(g, propertyPath, value);
          var text := FormatValue(cfg, g, value);
          sb := sb + [Entry(depth, p.name + " = " + text + (if isLooping then LoopSignature else ""))];
          if isLooping {
            assert sb == sb + [];
            return;
          }
          DumpSubItem(value);
      }
    }

    method DumpCollection(id: nat)
      requires Valid() && id in g && g[id].body.Items? && |propertyPath| <= cfg.maxDepth + 1
      modifies this
      ensures Valid() && propertyPath == old(propertyPath)
      ensures sb == old(sb) + BodyLines(cfg, g, id, propertyPath)
      decreases cfg.maxDepth + 1 - |propertyPath|, 2
    {
      var items := g[id].body.items;
      assert NodeOk(g, id);
      ghost var stack := propertyPath;
      var i := 0;
      while i < |items|
        invariant i <= |items|
        invariant Valid() && propertyPath == stack
        invariant sb + ItemLinesFrom(cfg, g, items, stack, i)
               == old(sb) + ItemLinesFrom(cfg, g, items, stack, 0)
      {
        ghost var before := sb;
        DumpItem(i, items[i]);
        AppendStep(sb, before, ItemLines(cfg, g, i, items[i], stack),
                   ItemLinesFrom(cfg, g, items, stack, i + 1), ItemLinesFrom(cfg, g, items, stack, i));
        i := i + 1;
      }
    }

    /** One iteration of the `foreach` of `DumpCollection`, on the `i`-th
        item. */
    method DumpItem(i: nat, item: Value)
      requires Valid() && ValidValue(g, item) && |propertyPath| <= cfg.maxDepth + 1
      modifies this
      ensures Valid() && propertyPath == old(propertyPath)
      ensures sb == old(sb) + ItemLines(cfg, g, i, item, propertyPath)
      decreases cfg.maxDepth + 1 - |propertyPath|, 1
    {
      var depth := |propertyPath|;
      var isLooping := OnStack(g, propertyPath, item);
      var text := FormatValue(cfg, g, item);
      sb := sb + [Entry(depth, "[" + Text.NatToString(i) + "] " + text + (if isLooping then LoopSignature else ""))];
      if isLooping {
        assert sb == sb + [];
        return;
      }
      DumpSubItem(item);
    }

    /** Runs the walker that fits the rank, then handles its `Write` calls
        in the order it made them. */
    method DumpArray(id: nat)
      requires Valid() && id in g && (g[id].body.Vector? || g[id].body.Grid?)
      requires |propertyPath| <= cfg.maxDepth + 1
      modifies this
      ensures Valid() && propertyPath == old(propertyPath)
      ensures sb == old(sb) + BodyLines(cfg, g, id, propertyPath)
      decreases cfg.maxDepth + 1 - |propertyPath|, 2
    {
      assert NodeOk(g, id);
      var leaves: seq<Leaf>;
      var jagged: bool;
      if g[id].body.Grid? {
        var dumper := new MultiDimensionalArrays.MultiDimensionArrayDumper(g, Ref(id));
        dumper.Dump();
        leaves, jagged := dumper.written, false;
        assert leaves == MultiDimensionalArrays.Walk(g[id].body.lengths, g[id].body.cells, []);
        GridLeavesValid(g, g[id].body.lengths, g[id].body.cells);
      } else {
        var dumper := new JaggedArrays.JaggedArrayDumper(g, Ref(id));
        dumper.Dump();
        leaves, jagged := dumper.written, true;
        assert leaves == JaggedArrays.Leaves(g, id, []);
        JaggedLeavesValid(g, id);
      }
      WriteAll(leaves, jagged);
    }

    /** The `Write` callbacks of one walk, in the order the walker makes
        them. */
    method WriteAll(leaves: seq<Leaf>, jagged: bool)
      requires Valid() && ValidLeaves(g, leaves) && |propertyPath| <= cfg.maxDepth + 1
      modifies this
      ensures Valid() && propertyPath == old(propertyPath)
      ensures sb == old(sb) + LeafLinesFrom(cfg, g, leaves, jagged, propertyPath, 0)
      decreases cfg.maxDepth + 1 - |propertyPath|, 1, 1
    {
      ghost var stack := propertyPath;
      for k := 0 to |leaves|
        invariant Valid() && propertyPath == stack
        invariant sb + LeafLinesFrom(cfg, g, leaves, jagged, stack, k)
               == old(sb) + LeafLinesFrom(cfg, g, leaves, jagged, stack, 0)
      {
        ghost var before := sb;
        assert ValidValue(g, leaves[k].value);
        ghost var here := LeafLines(cfg, g, leaves[k], jagged, stack);
        ghost var rest := LeafLinesFrom(cfg, g, leaves, jagged, stack, k + 1);
        assert LeafLinesFrom(cfg, g, leaves, jagged, stack, k) == here + rest;
        Write(leaves[k], jagged);
        AppendStep(sb, before, here, rest, LeafLinesFrom(cfg, g, leaves, jagged, stack, k));
      }
    }

    /** The `Write` callback `DumpArray` hands to the walker: the element
        line, loop mark included, then `DumpSubItem` in every case. */
    method Write(leaf: Leaf, jagged: bool)
      requires Valid() && ValidValue(g, leaf.value) && |propertyPath| <= cfg.maxDepth + 1
      modifies this
      ensures Valid() && propertyPath == old(propertyPath)
      ensures sb == old(sb) + LeafLines(cfg, g, leaf, jagged, propertyPath)
      decreases cfg.maxDepth + 1 - |propertyPath|, 1, 0
    {
      var depth := |propertyPath|;
      var obj := leaf.value;
      var isLooping := OnStack(g, propertyPath, obj);
      var text := FormatValue(cfg, g, obj);
      sb := sb + [Entry(depth, IndexText(leaf.path, jagged) + " " + text + (if isLooping then LoopSignature else ""))];
      DumpSubItem(obj);
    }
  }

  /** The part of `DumpToString` after the header: a new builder and an
      empty `propertyPath`, then `DumpSubItem(obj)`. */
  method DumpComposite(cfg: Config, g: Graph, obj: Value) returns (lines: seq<Line>)
    requires WellFormed(g) && ValidValue(g, obj)
    ensures lines == SubItem(cfg, g, obj, [])
  {
    var session := new DumpSession(cfg, g);
    session.DumpSubItem(obj);
    return session.sb;
  }

  /** `ValueToString`: `(null)`, or the escaped `ToString()` text (quoted
      for strings and chars), followed by the type text when
      `ShowPropertyType` is set. */
  method FormatValue(cfg: Config, g: Graph, v: Value) returns (s: string)
    requires ValidValue(g, v)
    ensures s == ValueToString(cfg, g, v)
  {
    if v.Null? {
      return "(null)";
    }
    var n := g[v.id];
    var escaped := EscapeString(n.text);
    var str := if n.kind.StringKind? then "\"" + escaped + "\""
               else if n.kind.CharKind? then "'" + escaped + "'"
               else escaped;
    if cfg.showPropertyType {
      str := str + " (" + TypeText(cfg, n.ty) + ")";
    }
    return str;
  }

  lemma AppendStep<T>(now: seq<T>, before: seq<T>, done: seq<T>, rest: seq<T>, all: seq<T>)
    requires now == before + done && all == done + rest
    ensures now + rest == before + all
  {
  }
}
