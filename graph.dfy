/** The object graph a dump walks: a heap of nodes addressed by id.

    Reflection is replaced by data: each node records what `GetType()`,
    `ToString()`, `Type.IsPrimitive`, `obj is Enum`, `obj is Delegate`,
    `IsToStringOverridden` and `GetProperties(AccessFlags)` would report for
    it, and each property read is given as its outcome (a value, or the
    message of the exception `GetValue` threw: the
    `TargetInvocationException` wrapping the getter's own exception). */
module ObjectGraph {

  /** A reference held by a property, collection or array slot. */
  datatype Value = Null | Ref(id: nat)

  /** The runtime type, as far as the dumpers look at it. */
  datatype TypeInfo = TypeInfo(
    fullName: string,             // Type.ToString(), e.g. "System.Int32"
    name: string,                 // Type.Name, e.g. "List`1"
    genericArgNames: seq<string>, // Name of each of GenericTypeArguments
    overridesToString: bool)      // ToString() not declared by System.Object

  /** The classification facts `ShouldDumpAsString` and `ValueToString`
      test. `PrimitiveKind` is every `IsPrimitive` type except `char`. */
  datatype Kind =
    | PrimitiveKind
    | CharKind
    | StringKind
    | DecimalKind
    | EnumKind
    | DelegateKind
    | ObjectKind

  /** Outcome of `PropertyInfo.GetValue`. */
  datatype Read = Got(value: Value) | Threw(message: string)

  datatype Member = Member(name: string, read: Read)

  /** What a composite is made of:
      - `Members`: the public instance properties, in declaration order;
      - `Items`: an `IEnumerable` that is not an array, in iteration order;
      - `Vector`: a rank-1 array;
      - `Grid`: an array of rank `|lengths|` >= 2, cells stored row-major. */
  datatype Body =
    | Members(members: seq<Member>)
    | Items(items: seq<Value>)
    | Vector(elems: seq<Value>)
    | Grid(lengths: seq<nat>, cells: seq<Value>)

  datatype Node = Node(
    ty: TypeInfo,
    kind: Kind,
    text: string,      // value.ToString()
    body: Body,
    equalityKey: nat)  // Equals: two nodes are equal iff their keys agree

  type Graph = map<nat, Node>

  function Product(ns: seq<nat>): nat
  {
    if ns == [] then 1 else ns[0] * Product(ns[1..])
  }

  predicate ValidValue(g: Graph, v: Value)
  {
    v.Ref? ==> v.id in g
  }

  predicate ValidValues(g: Graph, vs: seq<Value>)
  {
    forall i :: 0 <= i < |vs| ==> ValidValue(g, vs[i])
  }

  predicate ValidMembers(g: Graph, ms: seq<Member>)
  {
    forall i :: 0 <= i < |ms| ==> ms[i].read.Got? ==> ValidValue(g, ms[i].read.value)
  }

  predicate IsVector(g: Graph, v: Value)
  {
    v.Ref? && v.id in g && g[v.id].body.Vector?
  }

  predicate IsGrid(g: Graph, v: Value)
  {
    v.Ref? && v.id in g && g[v.id].body.Grid?
  }

  /** A node refers only to nodes of the graph, and a multi-dimensional
      array has rank at least 2 and exactly `Product(lengths)` cells. */
  predicate NodeClosed(g: Graph, id: nat)
    requires id in g
  {
    match g[id].body
    case Members(ms) => ValidMembers(g, ms)
    case Items(xs) => ValidValues(g, xs)
    case Vector(es) => ValidValues(g, es)
    case Grid(ls, cs) => |ls| >= 2 && |cs| == Product(ls) && ValidValues(g, cs)
  }

  /** Every node is closed. Any object graph the runtime can build is. */
  predicate Closed(g: Graph)
  {
    forall id :: id in g ==> NodeClosed(g, id)
  }

  /** A closed node, and if it is a rank-1 array, it holds rank-1 arrays
      only under smaller ids, so that nesting of rank-1 arrays inside each
      other is acyclic. This is what `JaggedArrayDumper`, which follows such
      nesting with no depth limit, needs to terminate. */
  predicate NodeOk(g: Graph, id: nat)
    requires id in g
  {
    && NodeClosed(g, id)
    && (g[id].body.Vector? ==>
          forall k :: 0 <= k < |g[id].body.elems| && IsVector(g, g[id].body.elems[k]) ==> g[id].body.elems[k].id < id)
  }

  predicate WellFormed(g: Graph)
  {
    forall id :: id in g ==> NodeOk(g, id)
  }

  /** `a.Equals(b)` for two references of the graph. */
  predicate Same(g: Graph, a: Value, b: Value)
  {
    a.Ref? && b.Ref? && a.id in g && b.id in g && g[a.id].equalityKey == g[b.id].equalityKey
  }

  /** `Stack.Contains(v)`. A null is never found: only composites are pushed. */
  predicate OnStack(g: Graph, stack: seq<Value>, v: Value)
  {
    exists k :: 0 <= k < |stack| && Same(g, v, stack[k])
  }

  /** Every node compares by reference: the default `object.Equals`. */
  predicate ReferenceEquality(g: Graph)
  {
    forall id :: id in g ==> g[id].equalityKey == id
  }

  /** Under reference equality, the membership test on the ancestor stack is
      exactly "this very reference was pushed". */
  lemma OnStackIsMembership(g: Graph, stack: seq<Value>, v: Value)
    requires ReferenceEquality(g) && ValidValue(g, v) && ValidValues(g, stack)
    ensures OnStack(g, stack, v) <==> v.Ref? && v in stack
  {
    if v.Ref? && v in stack {
      var k :| 0 <= k < |stack| && stack[k] == v;
      assert Same(g, v, stack[k]);
    }
  }

  /** A null is never reported as a loop. */
  lemma NullNeverOnStack(g: Graph, stack: seq<Value>)
    ensures !OnStack(g, stack, Null)
  {
  }
}
