/** `MatrixDumper.DumpMatrixToString`: a two-dimensional array printed as a
    table, one line per row, every cell right-aligned to the width of the
    longest cell text, cells separated by a separator string.

    A cell is given by the text its `ToString()` returns. */
module MatrixDumper {
  import opened Wrappers
  import opened Text

  /** The `InvalidOperationException` `Enumerable.Max` throws on a sequence
      with no elements. */
  datatype MatrixError = EmptySequence

  /** Row `y` of the array, its first `n` cells. */
  function Row(a: array2<string>, y: nat, n: nat): (r: seq<string>)
    reads a
    requires y < a.Length0 && n <= a.Length1
    ensures |r| == n
  {
    if n == 0 then [] else Row(a, y, n - 1) + [a[y, n - 1]]
  }

  lemma {:induction false} RowAt(a: array2<string>, y: nat, n: nat, x: nat)
    requires y < a.Length0 && x < n <= a.Length1
    ensures Row(a, y, n)[x] == a[y, x]
  {
    if x < n - 1 {
      RowAt(a, y, n - 1, x);
    }
  }

  /** The first `n` rows of the array. */
  function Rows(a: array2<string>, n: nat): (m: seq<seq<string>>)
    reads a
    requires n <= a.Length0
    ensures |m| == n
  {
    if n == 0 then [] else Rows(a, n - 1) + [Row(a, n - 1, a.Length1)]
  }

  lemma {:induction false} RowsAt(a: array2<string>, n: nat, y: nat)
    requires y < n <= a.Length0
    ensures Rows(a, n)[y] == Row(a, y, a.Length1)
  {
    if y < n - 1 {
      RowsAt(a, n - 1, y);
    }
  }

  /** The rows of the array. */
  function Contents(a: array2<string>): seq<seq<string>>
    reads a
  {
    Rows(a, a.Length0)
  }

  /** `Contents(a)[y][x]` is `a[y, x]`, for every cell and no other. */
  lemma ContentsShape(a: array2<string>)
    ensures |Contents(a)| == a.Length0
    ensures Rectangular(Contents(a), a.Length1)
    ensures forall y, x :: 0 <= y < a.Length0 && 0 <= x < a.Length1 ==> Contents(a)[y][x] == a[y, x]
  {
    forall y | 0 <= y < a.Length0
      ensures Contents(a)[y] == Row(a, y, a.Length1)
    {
      RowsAt(a, a.Length0, y);
    }
    forall y, x | 0 <= y < a.Length0 && 0 <= x < a.Length1
      ensures Contents(a)[y][x] == a[y, x]
    {
      RowAt(a, y, a.Length1, x);
    }
  }

  /** Every row has `width` cells. */
  predicate Rectangular(m: seq<seq<string>>, width: nat)
  {
    forall y :: 0 <= y < |m| ==> |m[y]| == width
  }

  /** `source.Cast<T>()`: all cells, row after row. */
  function Flat(m: seq<seq<string>>): seq<string>
  {
    if m == [] then [] else m[0] + Flat(m[1..])
  }

  /** The greatest `Length` among `cells`, in UTF-16 code units; 0 when
      there are none. */
  function Longest(cells: seq<string>): nat
  {
    if cells == [] then 0
    else
      var rest := Longest(cells[1..]);
      if Utf16Length(cells[0]) >= rest then Utf16Length(cells[0]) else rest
  }

  /** No cell text is longer than `Longest`, and some cell text is exactly
      that long. */
  lemma {:induction false} LongestBounds(cells: seq<string>)
    ensures forall k :: 0 <= k < |cells| ==> Utf16Length(cells[k]) <= Longest(cells)
    ensures cells != [] ==> exists k :: 0 <= k < |cells| && Utf16Length(cells[k]) == Longest(cells)
  {
    if cells != [] {
      var tail := cells[1..];
      LongestBounds(tail);
      forall k | 1 <= k < |cells| ensures Utf16Length(cells[k]) <= Longest(cells) {
        assert cells[k] == tail[k - 1];
      }
      if Utf16Length(cells[0]) < Longest(tail) {
        var j :| 0 <= j < |tail| && Utf16Length(tail[j]) == Longest(tail);
        assert cells[j + 1] == tail[j];
      }
    }
  }

  /** `cells.Max(x => x.ToString().Length)`, which throws when there is no
      cell at all. */
  function MaxLength(cells: seq<string>): Result<nat, MatrixError>
  {
    if cells == [] then Failure(EmptySequence) else Success(Longest(cells))
  }

  /** The first `x` iterations of the inner loop over row `row`: each cell
      formatted with `{0,w}`, then the separator unless it is the row's last
      cell. */
  function RowText(row: seq<string>, w: nat, sep: string, x: nat): string
    requires x <= |row|
  {
    if x == 0 then ""
    else RowText(row, w, sep, x - 1) + PadLeft(row[x - 1], w) + (if x - 1 != |row| - 1 then sep else "")
  }

  /** Every line of the table, one per row. */
  function Lines(m: seq<seq<string>>, w: nat, sep: string): (r: seq<string>)
    ensures |r| == |m|
  {
    if m == [] then []
    else
      var last := m[|m| - 1];
      Lines(m[..|m| - 1], w, sep) + [RowText(last, w, sep, |last|)]
  }

  lemma LinesSnoc(m: seq<seq<string>>, w: nat, sep: string)
    requires m != []
    ensures Lines(m, w, sep) == Lines(m[..|m| - 1], w, sep) + [RowText(m[|m| - 1], w, sep, |m[|m| - 1]|)]
  {
  }

  lemma {:induction false} LinesAt(m: seq<seq<string>>, w: nat, sep: string, y: nat)
    requires y < |m|
    ensures Lines(m, w, sep)[y] == RowText(m[y], w, sep, |m[y]|)
  {
    if y < |m| - 1 {
      LinesAt(m[..|m| - 1], w, sep, y);
    }
  }

  /** What `DumpMatrixToString` returns, or the exception it throws. */
  function MatrixText(m: seq<seq<string>>, sep: string, nl: string): Result<string, MatrixError>
  {
    match MaxLength(Flat(m))
    case Failure(e) => Failure(e)
    case Success(w) => Success(Terminated(Lines(m, w, sep), nl))
  }

  method DumpMatrixToString(source: array2<string>, separator: string, newLine: string)
    returns (r: Result<string, MatrixError>)
    ensures r == MatrixText(Contents(source), separator, newLine)
    ensures r.Failure? <==> source.Length0 * source.Length1 == 0
  {
    var height := source.Length0;
    var width := source.Length1;
    var widest := MaxLength(Flat(Contents(source)));
    NoCellIffEmpty(source);
    if widest.Failure? {
      return Failure(widest.error);
    }
    var maxLength := widest.value;
    ghost var m := Contents(source);
    var sb := "";
    for y := 0 to height
      invariant sb == Terminated(Lines(m[..y], maxLength, separator), newLine)
    {
      ghost var before := sb;
      ghost var row := Row(source, y, width);
      for x := 0 to width
        invariant sb == before + RowText(row, maxLength, separator, x)
      {
        ghost var prev := sb;
        RowAt(source, y, width, x);
        var cell := PadLeft(source[y, x], maxLength);
        sb := sb + cell;
        if x != width - 1 {
          sb := sb + separator;
        }
        RowStep(before, prev, sb, row, maxLength, separator, x);
      }
      RowsAt(source, height, y);
      OuterStep(before, sb, newLine, m, maxLength, separator, y);
      sb := sb + newLine;
    }
    assert m[..height] == m;
    return Success(sb);
  }

  /** One iteration of the outer loop appends row `y`'s line and a newline. */
  lemma OuterStep(before: string, now: string, nl: string, m: seq<seq<string>>, w: nat, sep: string, y: nat)
    requires y < |m|
    requires before == Terminated(Lines(m[..y], w, sep), nl)
    requires now == before + RowText(m[y], w, sep, |m[y]|)
    ensures now + nl == Terminated(Lines(m[..y + 1], w, sep), nl)
  {
    var next := m[..y + 1];
    assert next[..|next| - 1] == m[..y] && next[|next| - 1] == m[y];
    LinesSnoc(next, w, sep);
    TerminatedSnoc(Lines(m[..y], w, sep), RowText(m[y], w, sep, |m[y]|), nl);
  }

  lemma TerminatedSnoc(lines: seq<string>, line: string, nl: string)
    ensures Terminated(lines + [line], nl) == Terminated(lines, nl) + line + nl
  {
    TerminatedAppend(lines, [line], nl);
    assert Terminated([line], nl) == line + nl + Terminated([], nl);
  }

  /** `Max` finds no cell exactly when one of the dimensions is zero. */
  lemma NoCellIffEmpty(a: array2<string>)
    ensures MaxLength(Flat(Contents(a))).Failure? <==> a.Length0 * a.Length1 == 0
  {
    ContentsShape(a);
    FlatLength(Contents(a), a.Length1);
  }

  /** One iteration of the inner loop extends the row by one cell. */
  lemma RowStep(before: string, prev: string, now: string, row: seq<string>, w: nat, sep: string, x: nat)
    requires x < |row|
    requires prev == before + RowText(row, w, sep, x)
    requires now == prev + PadLeft(row[x], w) + (if x != |row| - 1 then sep else "")
    ensures now == before + RowText(row, w, sep, x + 1)
  {
  }

  // ---------------------------------------------------------------------
  // What the table looks like.

  lemma {:induction false} FlatLength(m: seq<seq<string>>, width: nat)
    requires Rectangular(m, width)
    ensures |Flat(m)| == |m| * width
  {
    if m != [] {
      FlatLength(m[1..], width);
    }
  }

  /** The first `n` cells of `row`, each right-aligned to width `w`. */
  function Padded(row: seq<string>, w: nat, n: nat): (r: seq<string>)
    requires n <= |row|
    ensures |r| == n
  {
    if n == 0 then [] else Padded(row, w, n - 1) + [PadLeft(row[n - 1], w)]
  }

  lemma {:induction false} PaddedAt(row: seq<string>, w: nat, n: nat, k: nat)
    requires k < n <= |row|
    ensures Padded(row, w, n)[k] == PadLeft(row[k], w)
  {
    if k < n - 1 {
      PaddedAt(row, w, n - 1, k);
    }
  }

  lemma {:induction false} JoinSnoc(sep: string, parts: seq<string>, p: string)
    requires parts != []
    ensures Join(sep, parts + [p]) == Join(sep, parts) + sep + p
  {
    if |parts| == 1 {
      assert parts + [p] == [parts[0], p];
    } else {
      assert (parts + [p])[1..] == parts[1..] + [p];
      JoinSnoc(sep, parts[1..], p);
    }
  }

  /** The inner loop writes the separator between cells only: a row is the
      padded cells joined by the separator, with none before the first or
      after the last. */
  lemma {:induction false} RowIsJoin(row: seq<string>, w: nat, sep: string, x: nat)
    requires 1 <= x <= |row|
    ensures RowText(row, w, sep, x) == Join(sep, Padded(row, w, x)) + (if x < |row| then sep else "")
  {
    var c := PadLeft(row[x - 1], w);
    var tail := if x - 1 != |row| - 1 then sep else "";
    if x == 1 {
      assert Padded(row, w, 1) == [c];
    } else {
      RowIsJoin(row, w, sep, x - 1);
      JoinSnoc(sep, Padded(row, w, x - 1), c);
      assert RowText(row, w, sep, x) == (Join(sep, Padded(row, w, x - 1)) + sep) + c + tail;
    }
  }

  /** The table fails exactly when there is no cell; otherwise it is its
      lines, each followed by `nl`, and a line is the row's cells, each
      right-aligned to the width of the longest cell text, joined by the
      separator with none before the first cell or after the last. */
  lemma TableLines(m: seq<seq<string>>, width: nat, sep: string, nl: string)
    requires Rectangular(m, width)
    ensures MatrixText(m, sep, nl).Failure? <==> |m| * width == 0
    ensures MatrixText(m, sep, nl).Success? ==>
      var w := Longest(Flat(m));
      && MatrixText(m, sep, nl).value == Terminated(Lines(m, w, sep), nl)
      && forall y :: 0 <= y < |m| ==> Lines(m, w, sep)[y] == Join(sep, Padded(m[y], w, width))
  {
    FlatLength(m, width);
    if |m| * width != 0 {
      var w := Longest(Flat(m));
      forall y | 0 <= y < |m| ensures Lines(m, w, sep)[y] == Join(sep, Padded(m[y], w, width)) {
        LinesAt(m, w, sep, y);
        RowIsJoin(m[y], w, sep, width);
      }
    }
  }

  /** The column width is the `Length` of the longest cell text, in UTF-16
      code units: no cell is longer and some cell is exactly that long. */
  lemma WidthIsLongest(m: seq<seq<string>>, width: nat)
    requires Rectangular(m, width) && |m| * width != 0
    ensures forall y, x :: 0 <= y < |m| && 0 <= x < width ==> Utf16Length(m[y][x]) <= Longest(Flat(m))
    ensures exists y, x :: 0 <= y < |m| && 0 <= x < width && Utf16Length(m[y][x]) == Longest(Flat(m))
  {
    FlatLength(m, width);
    LongestBounds(Flat(m));
    forall y, x | 0 <= y < |m| && 0 <= x < width ensures Utf16Length(m[y][x]) <= Longest(Flat(m)) {
      var k := FlatIndex(m, width, y, x);
    }
    var k :| 0 <= k < |Flat(m)| && Utf16Length(Flat(m)[k]) == Longest(Flat(m));
    var y, x := FlatPosition(m, width, k);
  }

  /** Every cell of the table is exactly as wide as the column in UTF-16
      code units, is the cell text preceded by spaces only, as many as it
      is short of the width, and is never cut. */
  lemma CellsAligned(m: seq<seq<string>>, width: nat)
    requires Rectangular(m, width) && |m| * width != 0
    ensures var w := Longest(Flat(m));
      forall y, x :: 0 <= y < |m| && 0 <= x < width ==>
        && Utf16Length(m[y][x]) <= w
        && Aligned(m[y][x], w, Padded(m[y], w, width)[x])
  {
    var w := Longest(Flat(m));
    WidthIsLongest(m, width);
    forall y, x | 0 <= y < |m| && 0 <= x < width
      ensures Aligned(m[y][x], w, Padded(m[y], w, width)[x])
    {
      PaddedAt(m[y], w, width, x);
      CellAligned(m[y][x], w);
    }
  }

  /** `c` is `s` right-aligned in a field `w` code units wide: `w` units
      long, made of the spaces `s` is short of `w`, then `s` itself. */
  predicate Aligned(s: string, w: nat, c: string)
  {
    var pad := w - Utf16Length(s);
    && Utf16Length(s) <= w
    && Utf16Length(c) == w
    && |c| == pad + |s|
    && c[pad..] == s
    && forall i :: 0 <= i < pad ==> c[i] == ' '
  }

  lemma CellAligned(s: string, w: nat)
    requires Utf16Length(s) <= w
    ensures Aligned(s, w, PadLeft(s, w))
  {
    PadLeftShape(s, w);
  }

  /** Cell `(y, x)` sits at position `y * width + x` of the row-major
      sequence. */
  lemma {:induction false} FlatIndex(m: seq<seq<string>>, width: nat, y: nat, x: nat) returns (k: nat)
    requires Rectangular(m, width) && y < |m| && x < width
    ensures k == y * width + x && k < |Flat(m)| && Flat(m)[k] == m[y][x]
  {
    FlatLength(m, width);
    if y == 0 {
      k := x;
    } else {
      var k' := FlatIndex(m[1..], width, y - 1, x);
      k := width + k';
    }
  }

  /** Every position of the row-major sequence is some cell. */
  lemma {:induction false} FlatPosition(m: seq<seq<string>>, width: nat, k: nat) returns (y: nat, x: nat)
    requires Rectangular(m, width) && k < |Flat(m)|
    ensures y < |m| && x < width && Flat(m)[k] == m[y][x]
  {
    FlatLength(m, width);
    if k < width {
      y, x := 0, k;
    } else {
      var y', x' := FlatPosition(m[1..], width, k - width);
      y, x := y' + 1, x';
    }
  }

  /** A three-cell row: the separator goes between cells only. */
  lemma ThreeCells(c0: string, c1: string, c2: string, w: nat, sep: string)
    ensures RowText([c0, c1, c2], w, sep, 3) == PadLeft(c0, w) + sep + PadLeft(c1, w) + sep + PadLeft(c2, w)
  {
    var row := [c0, c1, c2];
    assert RowText(row, w, sep, 1) == PadLeft(c0, w) + sep;
    assert RowText(row, w, sep, 2) == PadLeft(c0, w) + sep + PadLeft(c1, w) + sep;
  }

  /** The cells of the unit test's matrix, the longest of which is
      `"3333"`. */
  lemma ExampleWidth()
    ensures MaxLength(Flat([["1", "2", "3333"], ["4", "555", "6"]])) == Success(4)
  {
    var r0, r1 := ["1", "2", "3333"], ["4", "555", "6"];
    var m := [r0, r1];
    assert m[1..] == [r1] && [r1][1..] == [];
    assert Flat([r1]) == r1 + Flat([]);
    var cells := Flat(m);
    assert cells == r0 + r1;
    forall k | 0 <= k < |cells| ensures Utf16Length(cells[k]) == |cells[k]| {
      Utf16Bounds(cells[k]);
    }
    LongestBounds(cells);
    assert |cells[2]| == 4;
  }

  /** The two lines of a two-row matrix. */
  lemma TwoRows(r0: seq<string>, r1: seq<string>, w: nat, sep: string, nl: string)
    ensures Terminated(Lines([r0, r1], w, sep), nl)
         == RowText(r0, w, sep, |r0|) + nl + RowText(r1, w, sep, |r1|) + nl
  {
    var m := [r0, r1];
    var l0, l1 := RowText(r0, w, sep, |r0|), RowText(r1, w, sep, |r1|);
    assert m[..1] == [r0] && [r0][..0] == [];
    LinesSnoc([r0], w, sep);
    LinesSnoc(m, w, sep);
    assert Lines(m, w, sep) == [l0] + [l1];
    TerminatedAppend([l0], [l1], nl);
    assert Terminated([l0], nl) == l0 + nl + Terminated([], nl);
    assert Terminated([l1], nl) == l1 + nl + Terminated([], nl);
  }

  /** The example's cells, right-aligned to width 4. */
  lemma PadToFour()
    ensures PadLeft("1", 4) == "   1" && PadLeft("2", 4) == "   2" && PadLeft("3333", 4) == "3333"
    ensures PadLeft("4", 4) == "   4" && PadLeft("555", 4) == " 555" && PadLeft("6", 4) == "   6"
  {
    assert Spaces(1) == " " && Spaces(2) == "  " && Spaces(3) == "   ";
  }

  /** The two-row matrix of the library's own unit test, with any
      separator: every cell is padded to the four characters of `"3333"`. */
  lemma ExampleTable(sep: string, nl: string)
    ensures MatrixText([["1", "2", "3333"], ["4", "555", "6"]], sep, nl)
         == Success(("   1" + sep + "   2" + sep + "3333") + nl + ("   4" + sep + " 555" + sep + "   6") + nl)
  {
    var r0, r1 := ["1", "2", "3333"], ["4", "555", "6"];
    ExampleWidth();
    PadToFour();
    ThreeCells("1", "2", "3333", 4, sep);
    ThreeCells("4", "555", "6", 4, sep);
    TwoRows(r0, r1, 4, sep, nl);
    assert MatrixText([r0, r1], sep, nl) == Success(Terminated(Lines([r0, r1], 4, sep), nl));
  }

  /** The unit test's expectations, with the default separator `" "` and
      with `", "`. */
  lemma TestExample(nl: string)
    ensures MatrixText([["1", "2", "3333"], ["4", "555", "6"]], " ", nl)
         == Success("   1    2 3333" + nl + "   4  555    6" + nl)
    ensures MatrixText([["1", "2", "3333"], ["4", "555", "6"]], ", ", nl)
         == Success("   1,    2, 3333" + nl + "   4,  555,    6" + nl)
  {
    ExampleTable(" ", nl);
    ExampleTable(", ", nl);
    ExampleLines();
  }

  lemma ExampleLines()
    ensures "   1" + " " + "   2" + " " + "3333" == "   1    2 3333"
    ensures "   4" + " " + " 555" + " " + "   6" == "   4  555    6"
    ensures "   1" + ", " + "   2" + ", " + "3333" == "   1,    2, 3333"
    ensures "   4" + ", " + " 555" + ", " + "   6" == "   4,  555,    6"
  {
  }

  /** A character outside the Basic Multilingual Plane is two code units
      wide: next to it, a one-character cell is padded to two. */
  lemma WideCell(nl: string)
    ensures MatrixText([["\U{1F600}", "a"]], " ", nl) == Success("\U{1F600}  a" + nl)
  {
    var row := ["\U{1F600}", "a"];
    assert Utf16Length(row[0]) == 2 && Utf16Length(row[1]) == 1;
    assert [row][1..] == [] && Flat([row]) == row + Flat([]);
    assert Flat([row]) == row;
    assert row[1..] == ["a"] && ["a"][1..] == [];
    assert Longest(["a"]) == 1;
    assert Longest(row) == 2;
    assert MaxLength(Flat([row])) == Success(2);
    assert MatrixText([row], " ", nl) == Success(Terminated(Lines([row], 2, " "), nl));
    assert PadLeft(row[0], 2) == row[0];
    assert PadLeft(row[1], 2) == " a";
    assert RowText(row, 2, " ", 1) == row[0] + " ";
    assert RowText(row, 2, " ", 2) == row[0] + " " + " a" + "";
    assert [row][..0] == [];
    assert Lines([row], 2, " ") == [RowText(row, 2, " ", 2)];
    var line := RowText(row, 2, " ", 2);
    assert line == "\U{1F600}  a" by {
      assert row[0] + " " + " a" + "" == "\U{1F600}  a";
    }
    assert Terminated([line], nl) == line + nl + "";
    assert line + nl + "" == line + nl;
  }
}
