/** The static class `Enumeration` as the source runs it: `DumpToString`
    creates a builder and an ancestor stack and hands both down the
    recursion, which appends lines to the one and pushes and pops the
    other. The pair is modelled as one session object. Each method is
    proved to produce exactly the lines its specification function in
    `EnumerationSpec` describes. */
module Enumeration {
  import opened ObjectGraph
  import opened Layout
  import opened Escape
  import opened EnumerationSpec
  import Text
  import DumperSpec

  /** `DumpToString(obj)`. `newLine` is what `AppendLine` writes. */
  method DumpToString(g: Graph, obj: Value, newLine: string) returns (s: string)
    requires Closed(g) && ValidValue(g, obj)
    ensures s == DumpText(g, obj, newLine)
  {
    if IsPrimitiveOrNull(g, obj) {
      s := FormatValue(g, obj);
      return;
    }
    var session := new EnumerationSession(g);
    session.DumpSubItem(obj);
    assert session.sb == SubItem(g, obj, []);
    s := RenderAll(IndentSize, session.sb, newLine, EntryNewLine);
  }

  /** `ValueToString`, with `EspaceString` doing the escaping. */
  method FormatValue(g: Graph, v: Value) returns (s: string)
    requires ValidValue(g, v)
    ensures s == ValueToString(g, v)
  {
    if v.Null? {
      return "(null)";
    }
    var n := g[v.id];
    var escaped := EscapeString(n.text);
    if n.kind.StringKind? {
      s := "\"" + escaped + "\"" + " (" + n.ty.fullName + ")";
    } else if n.kind.CharKind? {
      s := "'" + escaped + "'" + " (" + n.ty.fullName + ")";
    } else {
      s := escaped + " (" + n.ty.fullName + ")";
    }
  }

  /** The builder, as the lines appended so far, and `propertyPath`, the
      stack of composites being expanded (innermost last). */
  class EnumerationSession {
    const g: Graph
    var sb: seq<Line>
    var propertyPath: seq<Value>

    ghost predicate Valid()
      reads this
    {
      Closed(g) && ValidValues(g, propertyPath)
    }

    constructor (g: Graph)
      requires Closed(g)
      ensures Valid() && this.g == g && sb == [] && propertyPath == []
    {
      this.g := g;
      sb := [];
      propertyPath := [];
    }

    method DumpSubItem(value: Value)
      requires Valid() && ValidValue(g, value) && |propertyPath| <= MaxDeep
      modifies this
      ensures Valid() && propertyPath == old(propertyPath)
      ensures sb == old(sb) + SubItem(g, value, old(propertyPath))
      decreases MaxDeep - |propertyPath|, 0
    {
      if IsPrimitiveOrNull(g, value) {
        return;
      }
      var deep := |propertyPath|;
      propertyPath := propertyPath + [value];
      sb := sb + [Open(deep)];
      if deep < MaxDeep {
        if IsEnumerable(g[value.id].body) {
          DumpCollection(value.id);
        } else {
          DumpObject(value.id);
        }
      } else {
        sb := sb + [TooDeep(deep + 1)];
      }
      sb := sb + [Close(deep)];
      propertyPath := propertyPath[..|propertyPath| - 1];
    }

    method DumpObject(id: nat)
      requires Valid() && id in g && g[id].body.Members? && |propertyPath| <= MaxDeep
      modifies this
      ensures Valid() && propertyPath == old(propertyPath)
      ensures sb == old(sb) + BodyLines(g, id, propertyPath)
      decreases MaxDeep - |propertyPath|, 2
    {
      var properties := g[id].body.members;
      assert NodeClosed(g, id);
      ghost var stack := propertyPath;
      for i := 0 to |properties|
        invariant Valid() && propertyPath == stack
        invariant sb + MemberLinesFrom(g, properties, stack, i)
               == old(sb) + MemberLinesFrom(g, properties, stack, 0)
      {
        ghost var before := sb;
        DumpProperty(properties[i]);
        AppendLines(sb, before, MemberLines(g, properties[i], stack),
                    MemberLinesFrom(g, properties, stack, i + 1), MemberLinesFrom(g, properties, stack, i));
      }
    }

    /** One iteration of the loop of `DumpObject`: the `try` block, and the
        `catch` block when the getter threw. */
    method DumpProperty(p: Member)
      requires Valid() && (p.read.Got? ==> ValidValue(g, p.read.value)) && |propertyPath| <= MaxDeep
      modifies this
      ensures Valid() && propertyPath == old(propertyPath)
      ensures sb == old(sb) + MemberLines(g, p, propertyPath)
      decreases MaxDeep - |propertyPath|, 1
    {
      var deep := |propertyPath|;
      if p.read.Threw? {
        sb := sb + [Entry(deep, p.name + " = " + p.read.message)];
        return;
      }
      var value := p.read.value;
      var isLooping := OnStack(g, propertyPath, value);
      var text := FormatValue(g, value);
      var line := Entry(deep, p.name + " = " + text + (if isLooping then LoopSignature else ""));
      ghost var rest := if isLooping then [] else SubItem(g, value, propertyPath);
      assert MemberLines(g, p, propertyPath) == [line] + rest;
      ghost var before := sb;
      sb := sb + [line];
      if isLooping {
        assert sb == before + ([line] + rest);
        return;
      }
      DumpSubItem(value);
      AppendLines(old(sb) + [line], before, [line], rest, [line] + rest);
    }

    method DumpCollection(id: nat)
      requires Valid() && id in g && IsEnumerable(g[id].body) && |propertyPath| <= MaxDeep
      modifies this
      ensures Valid() && propertyPath == old(propertyPath)
      ensures sb == old(sb) + BodyLines(g, id, propertyPath)
      decreases MaxDeep - |propertyPath|, 2
    {
      var items := Elements(g[id].body);
      assert NodeClosed(g, id);
      ghost var stack := propertyPath;
      var i := 0;
      while i < |items|
        invariant i <= |items|
        invariant Valid() && propertyPath == stack
        invariant sb + ItemLinesFrom(g, items, stack, i)
               == old(sb) + ItemLinesFrom(g, items, stack, 0)
      {
        ghost var before := sb;
        DumpItem(i, items[i]);
        AppendLines(sb, before, ItemLines(g, i, items[i], stack),
                    ItemLinesFrom(g, items, stack, i + 1), ItemLinesFrom(g, items, stack, i));
        i := i + 1;
      }
    }

    /** One iteration of the `foreach` of `DumpCollection`, on the `i`-th
        item. */
    method DumpItem(i: nat, item: Value)
      requires Valid() && ValidValue(g, item) && |propertyPath| <= MaxDeep
      modifies this
      ensures Valid() && propertyPath == old(propertyPath)
      ensures sb == old(sb) + ItemLines(g, i, item, propertyPath)
      decreases MaxDeep - |propertyPath|, 1
    {
      var deep := |propertyPath|;
      var isLooping := OnStack(g, propertyPath, item);
      var text := FormatValue(g, item);
      sb := sb + [Entry(deep, "[" + Text.NatToString(i) + "] " + text + (if isLooping then LoopSignature else ""))];
      if isLooping {
        assert sb == sb + [];
        return;
      }
      DumpSubItem(item);
    }
  }

  lemma AppendLines(now: seq<Line>, before: seq<Line>, done: seq<Line>, rest: seq<Line>, all: seq<Line>)
    requires now == before + done && all == done + rest
    ensures now + rest == before + all
  {
  }
}
