/**
 * The runtime's objects, as records of one arena.
 *
 * The C++ runtime links three kinds of heap objects by raw pointer:
 * `unique_refrence` cells, `value` boxes and `var_context` scopes. Here
 * each kind lives in a map from an identifier to a record, and a pointer
 * becomes an identifier; two pointers are the same object exactly when the
 * identifiers are equal. A `Store` is a snapshot of the three maps.
 */
module Objects {
  import opened Errors

  type RefId = nat
  type ValId = nat
  type CtxId = nat

  /**
   * A `unique_refrence`. A cell whose parentRef is None is a root and owns
   * the value valuePtr; any other cell is an alias whose valuePtr is only a
   * cached copy, since reads go through the chain to the root.
   * parentContext is the scope responsible for the cell (None: not yet
   * anchored).
   */
  datatype Cell = Cell(valuePtr: ValId, parentRef: Option<RefId>, parentContext: Option<CtxId>)

  /** The type tag of a value (VALUE_TYPE_NULL ... VALUE_TYPE_STRUCT). */
  datatype ValueType = NullType | DoubleType | CharType | ArrayType | StructType

  /**
   * A `value`: a tagged variant. A Number stands for the boxed double, an
   * Array for a `value_array` (a sequence of cells), a Struct for a
   * `structure` (a type name and the scope that holds its properties).
   */
  datatype Value =
    | Null
    | Number(n: int)
    | Char(c: char)
    | Array(elems: seq<RefId>)
    | Struct(identifier: string, properties: CtxId)
  {
    function Type(): ValueType {
      match this
      case Null => NullType
      case Number(_) => DoubleType
      case Char(_) => CharType
      case Array(_) => ArrayType
      case Struct(_, _) => StructType
    }
  }

  /** A `variable`: one name bound to one cell. */
  datatype Variable = Variable(identifier: string, uniqueRef: RefId)

  /**
   * A `var_context`: the bindings in declaration order (their number is
   * the C++ `size`), the capacity of the C++ buffer (`allocated_size`) and
   * the optional parent context.
   */
  datatype VarContext = VarContext(collection: seq<Variable>, allocatedSize: nat, parentContext: Option<CtxId>)

  datatype Store = Store(refs: map<RefId, Cell>, vals: map<ValId, Value>, ctxs: map<CtxId, VarContext>)

  /** value::length: the size of an array, 0 for every other type. */
  function Length(v: Value): (n: nat)
    ensures forall i: nat :: i < n <==> Iterate(v, i).Ok?
  {
    if v.Array? then |v.elems| else 0
  }

  /**
   * value::iterate and value_array::iterate. The array guard is
   * `index > size`, so index == size passes it and reads one slot past the
   * end of the buffer; the model reports that read as UndefinedBehaviour.
   */
  function Iterate(v: Value, index: nat): (r: Result<RefId>)
    ensures r.Ok? <==> v.Array? && index < |v.elems|
    ensures r.Ok? ==> r.value == v.elems[index]
    ensures !v.Array? ==> r == Err(CannotIterateType)
    ensures v.Array? && index == |v.elems| ==> r == Err(UndefinedBehaviour)
    ensures v.Array? && index > |v.elems| ==> r == Err(IndexOutOfRange)
  {
    if !v.Array? then Err(CannotIterateType)
    else if index > |v.elems| then Err(IndexOutOfRange)
    else if index == |v.elems| then Err(UndefinedBehaviour)
    else Ok(v.elems[index])
  }

  /**
   * value::iterate as its guard evidently means it: every index from the
   * size on is out of range.
   */
  function IterateChecked(v: Value, index: nat): (r: Result<RefId>)
    ensures r.Ok? <==> v.Array? && index < |v.elems|
    ensures r.Ok? ==> r.value == v.elems[index]
    ensures !v.Array? ==> r == Err(CannotIterateType)
    ensures v.Array? && index >= |v.elems| ==> r == Err(IndexOutOfRange)
  {
    if !v.Array? then Err(CannotIterateType)
    else if index >= |v.elems| then Err(IndexOutOfRange)
    else Ok(v.elems[index])
  }

  /** The two guards differ at exactly one index of an array, its size. */
  lemma IterateGuards(v: Value, index: nat)
    ensures Iterate(v, index) != IterateChecked(v, index) <==> v.Array? && index == |v.elems|
  {
  }

  /** A one-slot array read at index 1: as written, the read past the end. */
  lemma IterateAtSize(r: RefId)
    ensures Iterate(Array([r]), 1) == Err(UndefinedBehaviour)
    ensures IterateChecked(Array([r]), 1) == Err(IndexOutOfRange)
  {
  }

  /** The cells bound by a context, in order. */
  function BoundRefs(coll: seq<Variable>): (rs: seq<RefId>)
    ensures |rs| == |coll|
    ensures forall i :: 0 <= i < |coll| ==> rs[i] == coll[i].uniqueRef
  {
    if coll == [] then [] else [coll[0].uniqueRef] + BoundRefs(coll[1..])
  }

  /** The names bound by a context, in order. */
  function Names(coll: seq<Variable>): (ns: seq<string>)
    ensures |ns| == |coll|
    ensures forall i :: 0 <= i < |coll| ==> ns[i] == coll[i].identifier
  {
    if coll == [] then [] else [coll[0].identifier] + Names(coll[1..])
  }

  // ---------------------------------------------------------------------
  // Well-formedness of a store: every identifier a record mentions names a
  // record of the store, and every context binds each name at most once
  // and holds no more bindings than its capacity.
  // ---------------------------------------------------------------------

  ghost predicate CellClosed(st: Store, c: Cell) {
    && c.valuePtr in st.vals
    && (c.parentRef.Some? ==> c.parentRef.value in st.refs)
    && (c.parentContext.Some? ==> c.parentContext.value in st.ctxs)
  }

  ghost predicate ValueClosed(st: Store, v: Value) {
    && (v.Array? ==> forall i :: 0 <= i < |v.elems| ==> v.elems[i] in st.refs)
    && (v.Struct? ==> v.properties in st.ctxs)
  }

  ghost predicate UniqueNames(coll: seq<Variable>) {
    forall i, j :: 0 <= i < j < |coll| ==> coll[i].identifier != coll[j].identifier
  }

  ghost predicate ContextOK(st: Store, ctx: VarContext) {
    && (forall i :: 0 <= i < |ctx.collection| ==> ctx.collection[i].uniqueRef in st.refs)
    && (ctx.parentContext.Some? ==> ctx.parentContext.value in st.ctxs)
    && UniqueNames(ctx.collection)
    && |ctx.collection| <= ctx.allocatedSize
  }

  ghost predicate StoreOK(st: Store) {
    && (forall r {:trigger CellClosed(st, st.refs[r])} | r in st.refs :: CellClosed(st, st.refs[r]))
    && (forall v {:trigger ValueClosed(st, st.vals[v])} | v in st.vals :: ValueClosed(st, st.vals[v]))
    && (forall c {:trigger ContextOK(st, st.ctxs[c])} | c in st.ctxs :: ContextOK(st, st.ctxs[c]))
  }

  /** Nothing is ever freed: every record of s0 is still a record of s1. */
  ghost predicate Grows(s0: Store, s1: Store) {
    && s0.refs.Keys <= s1.refs.Keys
    && s0.vals.Keys <= s1.vals.Keys
    && s0.ctxs.Keys <= s1.ctxs.Keys
  }

  /** Every cell of s0 is unchanged in s1. */
  ghost predicate CellsKept(s0: Store, s1: Store) {
    forall r | r in s0.refs :: r in s1.refs && s1.refs[r] == s0.refs[r]
  }

  /** s1 only adds records to s0. */
  ghost predicate OnlyAdds(s0: Store, s1: Store) {
    && CellsKept(s0, s1)
    && (forall v | v in s0.vals :: v in s1.vals && s1.vals[v] == s0.vals[v])
    && (forall c | c in s0.ctxs :: c in s1.ctxs && s1.ctxs[c] == s0.ctxs[c])
  }

  /**
   * The shape of every value and context of s0 is kept in s1: values keep
   * their type, arrays their length and structs their property scope;
   * contexts keep their names in order. Only the cells that array slots and
   * bindings point to may change.
   */
  ghost predicate ShapesKept(s0: Store, s1: Store) {
    && (forall v | v in s0.vals :: v in s1.vals && SameShape(s0.vals[v], s1.vals[v]))
    && (forall c | c in s0.ctxs :: c in s1.ctxs && Names(s1.ctxs[c].collection) == Names(s0.ctxs[c].collection))
  }

  predicate SameShape(a: Value, b: Value) {
    match a
    case Array(ea) => b.Array? && |b.elems| == |ea|
    case _ => b == a
  }
}
