/** The lines a dump appends to its `StringBuilder`, recorded with their
    shape and their nesting depth, and how each is rendered.

    Both dump engines append lines of four shapes: an opening brace, a
    closing brace, a member or element line, and the too-deep marker. Each
    line is indented by `depth * IndentSize` spaces. */
module Layout {
  import opened Text
  import opened Wrappers

  const MaxDepthSignature: string := "<TooDeep>"

  datatype Line =
    | Open(depth: nat)
    | Close(depth: nat)
    | Entry(depth: nat, text: string)
    | TooDeep(depth: nat)

  /** `CreateIndent(depth)`. */
  function Indent(indentSize: nat, depth: nat): (r: string)
    ensures |r| == depth * indentSize
    ensures forall i :: 0 <= i < |r| ==> r[i] == ' '
  {
    Spaces(depth * indentSize)
  }

  function Render(indentSize: nat, l: Line): string
  {
    match l
    case Open(d) => Indent(indentSize, d) + "{"
    case Close(d) => Indent(indentSize, d) + "}"
    case Entry(d, t) => Indent(indentSize, d) + t
    case TooDeep(d) => Indent(indentSize, d) + MaxDepthSignature
  }

  /** The text the lines leave in the `StringBuilder`: each line rendered
      and followed by its terminator, `entryNl` after a member or element
      line and `nl` after the others. */
  function RenderAll(indentSize: nat, ls: seq<Line>, nl: string, entryNl: string): string
  {
    if ls == [] then ""
    else Render(indentSize, ls[0]) + (if ls[0].Entry? then entryNl else nl) + RenderAll(indentSize, ls[1..], nl, entryNl)
  }

  lemma {:induction false} RenderAllAppend(indentSize: nat, a: seq<Line>, b: seq<Line>, nl: string, entryNl: string)
    ensures RenderAll(indentSize, a + b, nl, entryNl) == RenderAll(indentSize, a, nl, entryNl) + RenderAll(indentSize, b, nl, entryNl)
  {
    if a == [] {
      assert a + b == b;
    } else {
      assert (a + b)[0] == a[0];
      assert (a + b)[1..] == a[1..] + b;
      RenderAllAppend(indentSize, a[1..], b, nl, entryNl);
    }
  }

  /** Reads the lines as nested blocks, starting at nesting level `lvl`:
      an opening brace must sit at the current level and enters the next
      one, a closing brace must sit one level up and must not close below
      `base`, and member lines sit at the current level inside a block.
      Gives the level reached, or `None` at the first misplaced line. */
  function Nest(ls: seq<Line>, lvl: nat, base: nat): Option<nat>
  {
    if ls == [] then Some(lvl)
    else match ls[0]
      case Open(k) => if k == lvl then Nest(ls[1..], lvl + 1, base) else None
      case Close(k) => if k + 1 == lvl && k >= base then Nest(ls[1..], k, base) else None
      case Entry(k, _) => if k == lvl && k > base then Nest(ls[1..], lvl, base) else None
      case TooDeep(k) => if k == lvl && k > base then Nest(ls[1..], lvl, base) else None
  }

  /** A brace-delimited block at depth `d`: it opens and closes at `d`, every
      brace inside is matched at its own indentation, and every line between
      sits inside some brace pair. */
  predicate IsBlock(ls: seq<Line>, d: nat)
  {
    && |ls| >= 2
    && ls[0] == Open(d)
    && ls[|ls| - 1] == Close(d)
    && Nest(ls, d, d) == Some(d)
  }

  lemma {:induction false} NestAppend(a: seq<Line>, b: seq<Line>, lvl: nat, base: nat)
    ensures Nest(a + b, lvl, base) ==
            (if Nest(a, lvl, base).None? then None else Nest(b, Nest(a, lvl, base).value, base))
  {
    if a == [] {
      assert a + b == b;
    } else {
      assert (a + b)[0] == a[0];
      assert (a + b)[1..] == a[1..] + b;
      match a[0]
      case Open(k) => NestAppend(a[1..], b, lvl + 1, base);
      case Close(k) => if k + 1 == lvl && k >= base { NestAppend(a[1..], b, k, base); }
      case Entry(k, _) => NestAppend(a[1..], b, lvl, base);
      case TooDeep(k) => NestAppend(a[1..], b, lvl, base);
    }
  }

  /** Wrapping a body that is balanced one level down in a brace pair at `d`
      gives a block. */
  lemma Wrap(body: seq<Line>, d: nat, base: nat)
    requires base <= d
    requires Nest(body, d + 1, d) == Some(d + 1)
    ensures Nest([Open(d)] + body + [Close(d)], d, base) == Some(d)
    ensures IsBlock([Open(d)] + body + [Close(d)], d)
  {
    NestBaseLower(body, d + 1, d, base);
    NestAppend([Open(d)] + body, [Close(d)], d, base);
    NestAppend([Open(d)], body, d, base);
    NestAppend([Open(d)] + body, [Close(d)], d, d);
    NestAppend([Open(d)], body, d, d);
  }

  /** Lowering the floor never rejects a sequence that was accepted. */
  lemma {:induction false} NestBaseLower(ls: seq<Line>, lvl: nat, base: nat, base': nat)
    requires base' <= base
    requires Nest(ls, lvl, base).Some?
    ensures Nest(ls, lvl, base') == Nest(ls, lvl, base)
  {
    if ls != [] {
      match ls[0]
      case Open(k) => NestBaseLower(ls[1..], lvl + 1, base, base');
      case Close(k) => NestBaseLower(ls[1..], k, base, base');
      case Entry(k, _) => NestBaseLower(ls[1..], lvl, base, base');
      case TooDeep(k) => NestBaseLower(ls[1..], lvl, base, base');
    }
  }

  /** An element line followed by its (possibly empty) nested block keeps
      the level balanced. */
  lemma EntryThenBlock(text: string, block: seq<Line>, d: nat, base: nat)
    requires base < d
    requires block == [] || Nest(block, d, base) == Some(d)
    ensures Nest([Entry(d, text)] + block, d, base) == Some(d)
  {
    NestAppend([Entry(d, text)], block, d, base);
  }

  /** Two balanced stretches in a row are balanced. */
  lemma Concat(a: seq<Line>, b: seq<Line>, d: nat, base: nat)
    requires Nest(a, d, base) == Some(d) && Nest(b, d, base) == Some(d)
    ensures Nest(a + b, d, base) == Some(d)
  {
    NestAppend(a, b, d, base);
  }

  /** Every line lies at depth `lo` or deeper; the too-deep marker sits
      exactly at `maxDepth + 2` and every other line at most at
      `maxDepth + 1`. */
  predicate DepthBounded(ls: seq<Line>, lo: nat, maxDepth: nat)
  {
    forall k :: 0 <= k < |ls| ==>
      && lo <= ls[k].depth
      && (if ls[k].TooDeep? then ls[k].depth == maxDepth + 2 else ls[k].depth <= maxDepth + 1)
  }

  lemma DepthBoundedAppend(a: seq<Line>, b: seq<Line>, lo: nat, maxDepth: nat)
    requires DepthBounded(a, lo, maxDepth) && DepthBounded(b, lo, maxDepth)
    ensures DepthBounded(a + b, lo, maxDepth)
  {
    forall k | 0 <= k < |a + b|
      ensures lo <= (a + b)[k].depth
      ensures if (a + b)[k].TooDeep? then (a + b)[k].depth == maxDepth + 2 else (a + b)[k].depth <= maxDepth + 1
    {
      if k < |a| {
        assert (a + b)[k] == a[k];
      } else {
        assert (a + b)[k] == b[k - |a|];
      }
    }
  }

  /** A line at depth `d` followed by nothing or by a block at `d`. */
  lemma EntryBlockShape(text: string, block: seq<Line>, d: nat, maxDepth: nat)
    requires 1 <= d <= maxDepth + 1
    requires block == [] || IsBlock(block, d)
    requires DepthBounded(block, d, maxDepth)
    ensures Nest([Entry(d, text)] + block, d, d - 1) == Some(d)
    ensures DepthBounded([Entry(d, text)] + block, d, maxDepth)
  {
    if block != [] {
      NestBaseLower(block, d, d, d - 1);
    }
    EntryThenBlock(text, block, d, d - 1);
    DepthBoundedAppend([Entry(d, text)], block, d, maxDepth);
  }

  /** A block at depth 0 renders as `{`, the rendered body and `}`, each
      brace followed by `nl`. */
  lemma RenderTopBlock(indentSize: nat, body: seq<Line>, nl: string, entryNl: string)
    ensures RenderAll(indentSize, [Open(0)] + body + [Close(0)], nl, entryNl)
         == "{" + nl + RenderAll(indentSize, body, nl, entryNl) + "}" + nl
  {
    RenderAllAppend(indentSize, [Open(0)] + body, [Close(0)], nl, entryNl);
    RenderAllAppend(indentSize, [Open(0)], body, nl, entryNl);
    assert Indent(indentSize, 0) == "";
    assert RenderAll(indentSize, [Open(0)], nl, entryNl) == "{" + nl;
    assert RenderAll(indentSize, [Close(0)], nl, entryNl) == "}" + nl;
  }
}
