# DebugLib dump engines, modelled in Dafny

DebugLib is a small C# debugging library. It turns an object graph into
indented text. The model covers:

- `Dumper`: the configurable dump engine. It has checked `IndentSize` and
  `MaxDepth` setters, `Reset`, terminal/composite classification, value
  formatting with escaping, and the recursive traversal. That traversal
  writes a header line, then a brace block per composite. It marks loops
  with `<LoopReference>` and cuts off deep nesting with `<TooDeep>`.
- `JaggedArrayDumper` and `MultiDimensionArrayDumper`: the two array walkers
  `Dumper` drives. Each keeps an `indexes` path, pushes an index before it
  descends and pops it afterwards, and reports every leaf with its path.
- `Enumeration`: the earlier fixed-setting variant of the engine. It has a
  strict depth test, no header line, flat array enumeration and a type
  suffix on every value.
- `MatrixDumper.DumpMatrixToString`: a two-dimensional array printed as a
  right-aligned table, widths counted in UTF-16 code units as .NET's
  `string.Length` counts them.

The object graph is data (module `ObjectGraph`). Each node records:

- its type names and its classification (primitive, char, string, decimal,
  enum, delegate, other object);
- its `ToString()` text;
- its property reads (a value, or the message of the exception
  `PropertyInfo.GetValue` threw, which is the `TargetInvocationException`
  wrapping the getter's own exception, with the runtime's fixed text), its
  collection items or its array cells;
- an equality key that stands for `Equals`.

Every graph the runtime can build is closed (`ObjectGraph.Closed`): each
reference names a node of the graph. `Dumper` also needs rank-1 arrays to
nest inside each other acyclically (`ObjectGraph.WellFormed`), because its
jagged-array walker has no depth limit.

A dump's `StringBuilder` is modelled as the list of lines appended to it
(module `Layout`). `Layout.RenderAll` turns that list into the final text,
with the newline as a parameter.

Each imperative routine is a method, or a method of a class whose fields
are the routine's mutable state. Each method is proved equal to a
specification function. The `...Spec` modules hold those functions, and
lemmas state what the source promises about them:

- brace balance and indentation;
- the depth cut-off;
- loop marking and null suppression;
- the escaping guarantee;
- the walkers' exact leaf sequences;
- the table layout.

`EnumerationProperties` also proves that the `Enumeration` variant prints
what `Dumper` prints on a graph whose arrays are read as plain collections,
with `MaxDepth` 4, full type names and no header line.

## Model

| member | source | states |
|---|---|---|
| Dumper.Dumper.constructor | DebugLib/Dumper.cs:36-39 | the static constructor leaves every setting at its default |
| Dumper.Dumper.SetIndentSize | DebugLib/Dumper.cs:45-53 | a negative value fails with `ArgumentOutOfRange` and changes nothing; otherwise only the indent size becomes the value |
| Dumper.Dumper.SetMaxDepth | DebugLib/Dumper.cs:60-68 | a negative value fails with `ArgumentOutOfRange` and changes nothing; otherwise only the depth limit becomes the value |
| Dumper.Dumper.Reset | DebugLib/Dumper.cs:117-128 | restores indent 4, depth 5, the type suffix on, an empty `TypesAsString` list and every other flag off |
| Dumper.Dumper.DumpToString | DebugLib/Dumper.cs:147-160 | the returned text is `DumperSpec.DumpText` under the current settings |
| Dumper.DumpComposite | DebugLib/Dumper.cs:152-157 | a fresh builder and empty stack given to `DumpSubItem` end up holding exactly the root's block at depth 0 |
| Dumper.FormatValue | DebugLib/Dumper.cs:322-355 | computes `DumperSpec.ValueToString`, using the looping `EscapeString` |
| Dumper.DumpSession.constructor | DebugLib/Dumper.cs:153-155 | an empty builder and an empty ancestor stack |
| Dumper.DumpSession.DumpSubItem | DebugLib/Dumper.cs:252-286 | appends exactly `SubItem` for the value at the current depth and leaves the ancestor stack as it found it |
| Dumper.DumpSession.DumpObject | DebugLib/Dumper.cs:162-189 | the property loop appends the lines of every member in declaration order; the stack is unchanged |
| Dumper.DumpSession.DumpProperty | DebugLib/Dumper.cs:170-187 | one iteration appends `MemberLines`: the exception message, nothing for an ignored null, or the member line plus its block unless it loops |
| Dumper.DumpSession.DumpCollection | DebugLib/Dumper.cs:191-208 | the item loop appends the lines of every item with its 0-based counter; the stack is unchanged |
| Dumper.DumpSession.DumpItem | DebugLib/Dumper.cs:197-207 | one iteration appends `ItemLines`: `[i] value`, the loop mark and, unless looping, the item's block |
| Dumper.DumpSession.DumpArray | DebugLib/Dumper.cs:215-250 | picks the jagged walker for rank 1 and the row-major walker otherwise, and appends the lines of every leaf they report |
| Dumper.DumpSession.WriteAll | DebugLib/Dumper.cs:222-249 | the successive `Write` callbacks append the lines of all leaves in walk order |
| Dumper.DumpSession.Write | DebugLib/Dumper.cs:240-247 | one callback appends the index line and then the element's block even when it is marked as a loop |
| Layout.Indent | DebugLib/Dumper.cs:379-382 | the indent of depth d is exactly d times the indent size, all spaces |
| Escape.EscapeString | DebugLib/Dumper.cs:368-377 | the `Replace` loop over the table computes `Escaped`, the one-pass per-character translation |
| Escape.ReplaceThenTranslate | DebugLib/Dumper.cs:371-374 | replacing the first key and then translating by the rest of the table equals translating by the whole table, when no value holds a key |
| Escape.EscapedCharsFreeOfKeys | DebugLib/Dumper.cs:20-23 | no replacement text contains a key, and the keys are exactly the eight control characters |
| Escape.EscapedOne | DebugLib/Dumper.cs:20-23 | each of the eight control characters becomes two characters, the first a backslash (`'\0'` becomes backslash-zero); any other character is kept; no output character is one of the eight |
| Escape.EscapedClean | DebugLib/Dumper.cs:368-377 | the escaped text contains none of the eight characters, and a text without them is returned unchanged |
| Escape.EscapeNotInjective | DebugLib/Dumper.cs:20-23 | a newline and the two characters backslash-n escape to the same text |
| ObjectGraph.OnStackIsMembership | DebugLib/Dumper.cs:175 | under default reference equality, `propertyPath.Contains` is plain membership of the reference |
| ObjectGraph.NullNeverOnStack | DebugLib/Dumper.cs:175 | a null is never reported as a loop |
| DumperProperties.BuiltInsAreTerminal | DebugLib/Dumper.cs:293-305 | null, primitives, chars, strings, decimals and enums are terminal whatever the settings |
| DumperProperties.CompositeExactly | DebugLib/Dumper.cs:293-320 | a value is expanded exactly when it is an object or delegate not caught by the delegate flag, the `TypesAsString` list or the overridden-`ToString` flag |
| DumperProperties.TerminalMonotone | DebugLib/Dumper.cs:307-317 | enlarging `TypesAsString`, turning on `UseOverriddenToString` or turning off `EnumerateDelegate` never makes a terminal value composite |
| DumperProperties.ValueToStringOneLine | DebugLib/Dumper.cs:322-355 | with control-free type names, a formatted value holds no control character, so it never breaks a line |
| DumperProperties.TypeSuffixIffShown | DebugLib/Dumper.cs:335-352 | the `" (T)"` suffix is added when `ShowPropertyType` is set and only then |
| DumperProperties.LiteralQuoting | DebugLib/Dumper.cs:328-332 | strings are wrapped in double quotes, chars in single quotes, others bare, always around the escaped text |
| DumperProperties.TypeTextChoice | DebugLib/Dumper.cs:337-349 | the type text is the full name, or the simple name with the generic arguments' names in brackets when `ShowTypeNameOnly` is set |
| DumperProperties.SubItemShape | DebugLib/Dumper.cs:252-286 | a terminal adds no line; a composite adds one well-nested brace block at the stack depth; no line is deeper than the depth limit allows |
| DumperProperties.BodyShape | DebugLib/Dumper.cs:263-277 | a body is a sequence of well-nested entries one level inside its braces, with depth bounded by the limit |
| DumperProperties.MemberShape | DebugLib/Dumper.cs:170-187 | one member's lines are well nested at the member depth |
| DumperProperties.MemberLinesShape | DebugLib/Dumper.cs:168-188 | the lines of all members are well nested at the member depth |
| DumperProperties.ItemShape | DebugLib/Dumper.cs:197-207 | one item's lines are well nested at the item depth |
| DumperProperties.ItemLinesShape | DebugLib/Dumper.cs:197-207 | the lines of all items are well nested at the item depth |
| DumperProperties.LeafShape | DebugLib/Dumper.cs:240-247 | one array element's lines are well nested at the element depth |
| DumperProperties.LeafLinesShape | DebugLib/Dumper.cs:222-249 | the lines of all array elements are well nested at the element depth |
| DumperProperties.DepthCutOff | DebugLib/Dumper.cs:263-281 | past `MaxDepth` the block holds only `<TooDeep>` one level in; up to it the block holds the body |
| DumperProperties.MemberLoopNotExpanded | DebugLib/Dumper.cs:175-179 | a member whose value is on the stack gets the loop mark and no block |
| DumperProperties.ItemLoopNotExpanded | DebugLib/Dumper.cs:199-204 | an item on the stack gets the loop mark and no block |
| DumperProperties.ArrayLoopStillExpanded | DebugLib/Dumper.cs:228-232 | an array element on the stack gets the loop mark and is still expanded |
| DumperProperties.NullMember | DebugLib/Dumper.cs:172-177 | a null member is skipped when `IgnoreNullProperty` is set and printed as `name = (null)` otherwise |
| DumperProperties.MemberSkippedIffNull | DebugLib/Dumper.cs:170-187 | a member prints nothing exactly when it holds null and `IgnoreNullProperty` is set; every other member, a throwing one included, starts with its own `name = ...` line |
| DumperProperties.NullItemPrinted | DebugLib/Dumper.cs:199-201 | a null collection item is printed as `[i] (null)` whatever the settings |
| DumperProperties.ThrowingGetter | DebugLib/Dumper.cs:183-187 | a throwing getter prints `name = message` and the loop goes on with the next member |
| DumperProperties.DumpTextTerminal | DebugLib/Dumper.cs:149-150 | a terminal root dumps to its formatted value alone, with no brace and no newline |
| DumperProperties.DumpTextComposite | DebugLib/Dumper.cs:153-159 | a composite root dumps to its header line, then `{`, the body one level in, and `}` |
| JaggedArrays.CheckArray | DebugLib/JaggedArrayDumper.cs:14-19 | accepts exactly rank-1 arrays; a null fails with `ArgumentNull` and a multi-dimensional array with `WrongRank` |
| JaggedArrays.LeavesAreElements | DebugLib/JaggedArrayDumper.cs:32-45 | every leaf written is a value of the graph that is not a rank-1 array |
| JaggedArrays.LeavesSound | DebugLib/JaggedArrayDumper.cs:28-49 | every written path extends the entry path, stays within the bounds at each level and leads to exactly the value written |
| JaggedArrays.LeavesOrdered | DebugLib/JaggedArrayDumper.cs:28-49 | the written paths strictly increase in lexicographic order |
| JaggedArrays.LeavesComplete | DebugLib/JaggedArrayDumper.cs:28-49 | every path that leads to a leaf is written, with that leaf |
| JaggedArrays.EmptyArrayWritesNothing | DebugLib/JaggedArrayDumper.cs:30 | an empty array makes no `Write` call |
| IndexPaths.IncreasingMeansDistinct | DebugLib/JaggedArrayDumper.cs:28-49 | strictly increasing paths are pairwise distinct, so no leaf is written twice |
| JaggedArrays.JaggedArrayDumper.constructor | DebugLib/JaggedArrayDumper.cs:14-19 | a walker over an accepted array starts with an empty path and no call made |
| JaggedArrays.JaggedArrayDumper.Dump | DebugLib/JaggedArrayDumper.cs:23-26 | makes exactly the `Write` calls of `Leaves` from the root, and the path list is empty again afterwards |
| JaggedArrays.JaggedArrayDumper.DumpRecursive | DebugLib/JaggedArrayDumper.cs:28-49 | makes exactly the calls of `Leaves` under the current path and restores the path list |
| MultiDimensionalArrays.CheckArray | DebugLib/MultiDimensionArrayDumper.cs:14-19 | accepts exactly arrays of rank at least 2; a null fails with `ArgumentNull` and a rank-1 array with `WrongRank` |
| MultiDimensionalArrays.Offset | DebugLib/MultiDimensionArrayDumper.cs:39 | the row-major position of an in-bounds path lies inside the storage |
| MultiDimensionalArrays.WalkCount | DebugLib/MultiDimensionArrayDumper.cs:26-45 | the number of calls is the product of the remaining lengths, zero when one is empty |
| MultiDimensionalArrays.WalkSound | DebugLib/MultiDimensionArrayDumper.cs:28-41 | every path has one index per dimension, each below its length, and comes with the element stored there |
| MultiDimensionalArrays.WalkInCells | DebugLib/MultiDimensionArrayDumper.cs:39-40 | every value handed to `Write` is one of the array's stored elements |
| MultiDimensionalArrays.WalkOrdered | DebugLib/MultiDimensionArrayDumper.cs:29-43 | paths come in strictly increasing row-major order, the last index varying fastest |
| MultiDimensionalArrays.WalkComplete | DebugLib/MultiDimensionArrayDumper.cs:26-45 | every in-bounds path extending the entry path is visited |
| MultiDimensionalArrays.WalkCharacterized | DebugLib/MultiDimensionArrayDumper.cs:21-45 | the whole walk makes exactly `Product(lengths)` calls in row-major order, each with a full in-bounds path and its element |
| MultiDimensionalArrays.MultiDimensionArrayDumper.constructor | DebugLib/MultiDimensionArrayDumper.cs:14-19 | a walker over an accepted array keeps its lengths and cells and starts with an empty path |
| MultiDimensionalArrays.MultiDimensionArrayDumper.Dump | DebugLib/MultiDimensionArrayDumper.cs:21-24 | makes exactly the calls of `Walk` from dimension 0, and the path list is empty again afterwards |
| MultiDimensionalArrays.MultiDimensionArrayDumper.DumpRecursive | DebugLib/MultiDimensionArrayDumper.cs:26-45 | makes exactly the calls of `Walk` for the current dimension and restores the path list |
| Enumeration.DumpToString | Enumeration.cs:57-69 | on any closed graph, self-containing arrays included, the returned text is `EnumerationSpec.DumpText` |
| Enumeration.FormatValue | Enumeration.cs:167-181 | computes `EnumerationSpec.ValueToString`, using the looping `EscapeString` |
| Enumeration.EnumerationSession.constructor | Enumeration.cs:63-65 | over any closed graph, an empty builder and an empty ancestor stack |
| Enumeration.EnumerationSession.DumpSubItem | Enumeration.cs:117-147 | appends exactly `SubItem` and leaves the stack as it found it |
| Enumeration.EnumerationSession.DumpObject | Enumeration.cs:71-96 | the property loop appends every member's lines in order; the stack is unchanged |
| Enumeration.EnumerationSession.DumpProperty | Enumeration.cs:79-94 | one iteration appends the exception message, or the member line plus its block unless it loops |
| Enumeration.EnumerationSession.DumpCollection | Enumeration.cs:98-115 | the `foreach` appends every element's lines with its 0-based counter, arrays included; the stack is unchanged |
| Enumeration.EnumerationSession.DumpItem | Enumeration.cs:104-114 | one iteration appends `[i] value`, the loop mark and, unless looping, the element's block |
| EnumerationProperties.FlatNode | Enumeration.cs:130-133 | reading a node as `IEnumerable` keeps its type, text and equality and turns any array into a collection of its elements in storage order |
| EnumerationProperties.Flatten | Enumeration.cs:130-133 | flattening every node keeps the ids and turns any closed graph into a well-formed one, since no rank-1 array is left |
| EnumerationProperties.TerminalMatchesDumper | Enumeration.cs:150-165 | `IsPrimitiveOrNull` is `ShouldDumpAsString` with no allowlist, the overridden-`ToString` flag off and delegates expanded |
| EnumerationProperties.DelegateExpanded | Enumeration.cs:150-165 | a delegate is expanded by this variant but terminal for `Dumper` under its defaults |
| EnumerationProperties.ValueToStringMatchesDumper | Enumeration.cs:167-181 | this variant formats a value as `Dumper` does with the full type suffix always shown |
| EnumerationProperties.SubItemAgrees | Enumeration.cs:117-147 | the block of `DumpSubItem` is `Dumper`'s block on the flattened graph with `MaxDepth` 4 |
| EnumerationProperties.BodyAgrees | Enumeration.cs:128-138 | the body is `Dumper`'s body on the flattened graph |
| EnumerationProperties.MemberLinesAgree | Enumeration.cs:77-95 | the member lines are `Dumper`'s with `IgnoreNullProperty` off |
| EnumerationProperties.ItemLinesAgree | Enumeration.cs:104-114 | the element lines are `Dumper`'s collection lines |
| EnumerationProperties.DumpTextMatchesDumper | Enumeration.cs:57-69 | a terminal root gives `Dumper`'s text; a composite root gives `Dumper`'s text without its header line |
| EnumerationProperties.SubItemShape | Enumeration.cs:117-147 | a terminal adds nothing; a composite adds one well-nested block at the stack depth with bounded depth |
| EnumerationProperties.DepthCutOff | Enumeration.cs:128-142 | at depth 5 the block holds only `<TooDeep>` one level in; below it the block holds the body |
| EnumerationProperties.DumpTextComposite | Enumeration.cs:62-68 | a composite root dumps to `{`, the body one level in and `}`, with no header line |
| EnumerationProperties.ArraysEnumeratedFlat | Enumeration.cs:130-133 | arrays of any rank are enumerated as flat sequences with a single 0-based index |
| EnumerationProperties.MemberLoopNotExpanded | Enumeration.cs:82-86 | a member on the stack gets the loop mark and no block |
| EnumerationProperties.ItemLoopNotExpanded | Enumeration.cs:106-111 | an element on the stack gets the loop mark and no block |
| EnumerationProperties.SelfContainingArray | Enumeration.cs:104-111 | `a[0] = a` on a one-element array dumps to `{`, then `[0] <type> (<type>)<LoopReference>` one level in, then `}`; that graph is closed but not well formed |
| EnumerationProperties.NullMemberPrinted | Enumeration.cs:81-84 | a null member is always printed as `name = (null)` |
| EnumerationProperties.ThrowingGetter | Enumeration.cs:90-94 | a throwing getter prints `name = message` and the loop goes on |
| MatrixDumper.DumpMatrixToString | MatrixDumper.cs:32-55 | the nested loops produce `MatrixText` of the array's rows; the result fails exactly when the array has no cell |
| MatrixDumper.ContentsShape | MatrixDumper.cs:34-44 | the modelled rows are `height` rows of `width` cells, and cell `(y, x)` is `source[y, x]` |
| MatrixDumper.NoCellIffEmpty | MatrixDumper.cs:36 | `Max` fails exactly when one of the two lengths is zero |
| MatrixDumper.LongestBounds | MatrixDumper.cs:36 | no cell text's `Length`, in UTF-16 code units, exceeds the computed width, and some cell text's `Length` equals it |
| MatrixDumper.FlatLength | MatrixDumper.cs:36 | `Cast` yields `height * width` cells |
| MatrixDumper.FlatIndex | MatrixDumper.cs:36 | cell `(y, x)` is at row-major position `y * width + x` of the cast sequence |
| MatrixDumper.FlatPosition | MatrixDumper.cs:36 | every position of the cast sequence holds some cell |
| MatrixDumper.RowIsJoin | MatrixDumper.cs:42-49 | a row is its padded cells joined by the separator, with none before the first cell or after the last |
| MatrixDumper.TableLines | MatrixDumper.cs:36-54 | an empty array fails; otherwise the text is one newline-terminated line per row, each the padded cells joined by the separator |
| MatrixDumper.WidthIsLongest | MatrixDumper.cs:36 | the column width, in UTF-16 code units, bounds every cell and some cell reaches it |
| MatrixDumper.CellsAligned | MatrixDumper.cs:36-44 | every padded cell is exactly the column width in UTF-16 code units: the untruncated cell text after as many spaces as it is short |
| MatrixDumper.CellAligned | MatrixDumper.cs:37-44 | a text no wider than `w` code units is padded to exactly `w` code units, spaces first |
| Text.PadLeftShape | MatrixDumper.cs:37-44 | `{0,w}` gives a field `w` code units wide, or the text's own width if that is larger, made of the missing number of spaces followed by the text |
| Text.Utf16Bounds | MatrixDumper.cs:36 | `Length` counts one or two UTF-16 code units per character, exactly one each within the Basic Multilingual Plane |
| Text.Utf16Append | MatrixDumper.cs:36-44 | the code-unit length of a concatenation is the sum of the lengths |
| MatrixDumper.WideCell | MatrixDumper.cs:36-44 | the 1x2 matrix `{"😀", "a"}` prints `"😀  a"`: the emoji is two code units wide, so `"a"` gets one space of padding |
| MatrixDumper.ExampleTable | DebugLibTest/MatrixDumperTest.cs:14-18 | the test's 2x3 matrix is printed with width 4 for any separator |
| MatrixDumper.TestExample | DebugLibTest/MatrixDumperTest.cs:20-28 | the two expected texts of the unit test, for `" "` and `", "` |

## Left out

- `Dump` and `DumpMatrix` only write `DumpToString` / `DumpMatrixToString` to the console. That I/O is not modelled.
- Reflection is replaced by data in the graph: `GetProperties(AccessFlags)`, `PropertyInfo.GetValue`, `GetType` and `IsToStringOverridden`. `AccessFlags` is not a setting, because each node already holds the member list the flags select. `BindingFlags` semantics are not modelled.
- `ToString()` texts, type names and exception messages are opaque strings. Culture and floating-point formatting are not modelled.
- Only property getters throw. A `ToString()` or `Equals` that throws is not modelled. `Equals` is abstracted by an equality key per node, so a non-symmetric `Equals` is not modelled.
- Collections are fixed sequences of items, so an `IEnumerable` whose enumeration throws (a lazy query, an iterator) is not modelled. In the source such an exception, or a throwing `ToString` or `Equals`, raised inside a nested `DumpSubItem` skips that call's `}` line and its `Pop` (DebugLib/Dumper.cs:252-286 has no `finally`). The enclosing `DumpObject` then prints `name = message` and carries on with a stack one level too deep, so the rest of the dump is indented and cut off one level early, and its braces do not balance. The brace-balance and stack-restoration properties (`DumperProperties.SubItemShape`, the `ensures` of `Dumper.DumpSession.DumpSubItem`) hold only because the model leaves these exceptions out.
- `Environment.NewLine` is a parameter: the `newLine` constant of `Dumper.Dumper`, or the `newLine` argument.
- `TypesAsString` may be null in the source. The model uses a sequence, and a null list and an empty list classify values the same way.
- Dumper.DumpSession.DumpArray runs the walker to completion and then formats the recorded leaves, instead of formatting each leaf inside the `Write` callback. The walkers never read the builder, so the appended lines and their order are the same.
- Dumper.DumpSession.DumpProperty, Dumper.DumpSession.DumpItem, Dumper.DumpSession.WriteAll, Dumper.DumpSession.Write, Enumeration.EnumerationSession.DumpProperty and Enumeration.EnumerationSession.DumpItem are loop bodies of the source, split into their own methods.
- The builder is a list of lines, rendered to text by `Layout.RenderAll`. Aliasing of the `StringBuilder` and the `Stack` is not modelled.
- A rank-1 array that contains itself, directly or through other rank-1 arrays, sends `JaggedArrayDumper` into unbounded recursion. The `Dumper` model requires such nesting to be acyclic (`ObjectGraph.WellFormed`) and does not model the stack overflow. That requirement also excludes a self-containing array that `Dumper` never expands: one reached past `MaxDepth`, or whose type is listed in `TypesAsString`. `Enumeration` never walks arrays that way; its model accepts every closed graph (`ObjectGraph.Closed`), this case included (`EnumerationProperties.SelfContainingArray`).
- Integers are unbounded. `depth * IndentSize` overflowing `int` is not modelled.
- MatrixDumper.DumpMatrixToString: the separator is a required argument. The source's default, `" "`, is the value a caller passes; a null separator, which `StringBuilder.Append` treats as empty, is the empty string.
- MatrixDumper.DumpMatrixToString: cells are given as their `ToString()` texts. A null cell, whose `ToString()` would throw a `NullReferenceException`, is not modelled. The element type `T` is not modelled either.
- In `Enumeration.cs`, member and element lines end with `"\r\n"` (`EnumerationSpec.EntryNewLine`) while brace lines end with the platform newline; the model keeps both.
- `DumpArray` expands an array element even when it is marked as a loop. The model follows the code, so such an element is expanded until the depth limit (`DumperProperties.ArrayLoopStillExpanded`).
- Thread safety of the static settings is not modelled.
