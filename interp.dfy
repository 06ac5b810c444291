/**
 * The evaluator of Source.cpp: getVarPtr resolves a variable with its
 * modifiers, getValue evaluates an expression to a temporary cell, and
 * execute runs a block of statements against a call frame. The global
 * state of the C++ program (the static scope, the function and struct
 * registries and req_exit) lives in an Interp object; the runtime heap is
 * the Heap of module Heaps.
 *
 * Two model bounds stand for behaviour the C++ code does not bound: every
 * evaluation and block takes one unit of fuel, and a while loop at most
 * fuel rounds; running out gives FuelExhausted. The value-graph walks of
 * clone, compare, replaceNullContext and context_check take the depth
 * fixed in Interp (Diverges when it runs out).
 */
module Interpreter {
  import opened Errors
  import opened Objects
  import opened Chains
  import opened Graph
  import opened Repairs
  import opened Heaps
  import opened Syntax
  import opened Steps
  import Operators
  import Structures
  import Contexts

  /** Every entry of m0 is still in m1 with the same value. */
  ghost predicate Extends<K, V>(m0: map<K, V>, m1: map<K, V>) {
    forall k | k in m0 :: k in m1 && m1[k] == m0[k]
  }

  /** No name occurs twice in ns + [x] when none does in ns and x is new. */
  lemma DistinctAppend(ns: seq<string>, x: string)
    requires Structures.Distinct(ns) && x !in ns
    ensures Structures.Distinct(ns + [x])
  {
    var all := ns + [x];
    forall i, j | 0 <= i < j < |all| ensures all[i] != all[j] {
      if j == |ns| {
        assert all[i] == ns[i];
      } else {
        assert all[i] == ns[i] && all[j] == ns[j];
      }
    }
  }


  // ---------------------------------------------------------------------
  // Name resolution.
  // ---------------------------------------------------------------------

  /**
   * What getVarPtr finds for a bare name: the first binding in the local
   * scope, else the first binding in the static scope.
   */
  ghost function Resolve(st: Store, local: CtxId, statics: CtxId, name: string): Result<RefId>
    requires local in st.ctxs && statics in st.ctxs
  {
    var l, g := st.ctxs[local].collection, st.ctxs[statics].collection;
    if Contexts.Binds(l, name) then Ok(l[Contexts.FirstIndex(l, name)].uniqueRef)
    else if Contexts.Binds(g, name) then Ok(g[Contexts.FirstIndex(g, name)].uniqueRef)
    else Err(NotInVarContext)
  }

  /**
   * Declaring a name that neither scope binds makes it resolve to the new
   * cell, whichever of the two scopes receives it.
   */
  lemma DeclareResolves(s0: Store, s1: Store, local: CtxId, statics: CtxId, target: CtxId, name: string, r: RefId)
    requires local in s0.ctxs && statics in s0.ctxs && (target == local || target == statics)
    requires target in s1.ctxs
    requires !Contexts.Binds(s0.ctxs[local].collection, name) && !Contexts.Binds(s0.ctxs[statics].collection, name)
    requires s1.ctxs == s0.ctxs[target := s1.ctxs[target]]
    requires s1.ctxs[target].collection == s0.ctxs[target].collection + [Variable(name, r)]
    ensures Resolve(s1, local, statics, name) == Ok(r)
  {
    var coll := s1.ctxs[target].collection;
    var n := |coll| - 1;
    assert coll[n].identifier == name;
    forall j | 0 <= j < n ensures coll[j].identifier != name {
      assert coll[j] == s0.ctxs[target].collection[j];
    }
    if target == statics && local != statics {
      assert s1.ctxs[local] == s0.ctxs[local];
    }
  }

  /** A name that resolves is bound in the local or the static scope. */
  lemma ResolvedBinds(st: Store, local: CtxId, statics: CtxId, name: string)
    requires local in st.ctxs && statics in st.ctxs && Resolve(st, local, statics, name).Ok?
    ensures Contexts.Binds(st.ctxs[local].collection, name) || Contexts.Binds(st.ctxs[statics].collection, name)
  {
  }

  /** A scope binds exactly the names Names lists. */
  lemma NamesBind(coll: seq<Variable>, ns: seq<string>, name: string)
    requires Names(coll) == ns
    ensures Contexts.Binds(coll, name) <==> name in ns
  {
    if name in ns {
      var i :| 0 <= i < |ns| && ns[i] == name;
      assert coll[i].identifier == name;
    }
  }

  /** The scalar a value token carries; a string is built cell by cell (NewString). */
  function LiteralValue(lit: Literal): (v: Value)
    requires !lit.StringLit?
    ensures v.Type() != ValueType.ArrayType && v.Type() != ValueType.StructType
  {
    match lit
    case NullLit => Null
    case NumberLit(n) => Number(n)
    case CharLit(c) => Char(c)
  }

  /**
   * TOK_UNIARY_OP once the operand was evaluated to a, from the store s1
   * on: an operand that failed is the error; otherwise the operand is
   * anchored (giving anchored) and applyUniaryOp runs there (UnaryTail).
   */
  ghost predicate UnaryThen(s1: Store, anchored: Store, st: Store, op: Op, a: Result<RefId>, local: CtxId, depth: nat, res: Result<RefId>) {
    && (a.Err? ==> res == Err(a.error) && st == s1)
    && (a.Ok? ==>
          && a.value in s1.refs && AnchoredIn(s1, anchored, st, a.value, local, depth, res)
          && (Reach(s1, a.value, depth).Ok? ==> UnaryOf(anchored, st, op, a.value, res)))
  }

  /**
   * TOK_BINARY_OP once the right operand was evaluated to b, from the
   * store s1 on, the left one being the cell a: a right operand that
   * failed is the error; otherwise a is anchored again (giving anchored)
   * and applyBinaryOp runs there (BinaryTail).
   */
  ghost predicate RightThen(s1: Store, anchored: Store, st: Store, op: Op, a: RefId, b: Result<RefId>, local: CtxId, depth: nat, res: Result<RefId>) {
    && (b.Err? ==> res == Err(b.error) && st == s1)
    && (b.Ok? ==>
          && b.value in s1.refs && AnchoredIn(s1, anchored, st, a, local, depth, res)
          && (Reach(s1, a, depth).Ok? ==> BinaryOf(anchored, st, op, a, b.value, depth, res)))
  }

  /**
   * The target of TOK_SET_VARIABLE for a bare name bound in neither
   * scope: a new unowned root r holding Null, declared in the static scope
   * when the statement is global and in local otherwise; no other scope
   * changes.
   */
  ghost predicate DeclaredIn(s0: Store, s1: Store, local: CtxId, statics: CtxId, isGlobal: bool, name: string, r: RefId) {
    var scope := if isGlobal then statics else local;
    && scope in s0.ctxs && scope in s1.ctxs
    && r !in s0.refs && r in s1.refs
    && s1.refs[r].parentRef.None? && s1.refs[r].parentContext.None?
    && s1.refs[r].valuePtr in s1.vals && s1.vals[s1.refs[r].valuePtr] == Null
    && s1.ctxs == s0.ctxs[scope := s1.ctxs[scope]]
    && s1.ctxs[scope].collection == s0.ctxs[scope].collection + [Variable(name, r)]
  }

  /** How a statement leaves its block: go on, stop it, or stop it returning ret instead. */
  datatype Flow = Next | Stop | StopWith(ret: RefId)

  /**
   * st's scope callee ends with a binding of name, appended to the
   * bindings it had in evaluated, whose cell reads what a read in
   * evaluated.
   */
  ghost predicate BoundLast(evaluated: Store, st: Store, callee: CtxId, name: string, a: RefId) {
    var coll := if callee in st.ctxs then st.ctxs[callee].collection else [];
    && a in evaluated.refs && callee in evaluated.ctxs && |coll| > 0
    && coll[..|coll| - 1] == evaluated.ctxs[callee].collection && coll[|coll| - 1].identifier == name
    && RootValue(st.refs, coll[|coll| - 1].uniqueRef) == RootValue(evaluated.refs, a)
  }

  /**
   * The statements of a block ran in order, flows[k] being how statement k
   * left the block and exits[k] whether req_exit was set after it: each
   * one but the last let the block go on with req_exit clear, and the block
   * ended before its end only because the last one stopped it or set
   * req_exit.
   */
  ghost predicate Stopped(flows: seq<Flow>, exits: seq<bool>, n: nat) {
    && |flows| == |exits| <= n
    && (forall k :: 0 <= k < |flows| - 1 ==> flows[k] == Next && !exits[k])
    && (|flows| < n ==> |flows| > 0 && (flows[|flows| - 1] != Next || exits[|flows| - 1]))
  }

  /**
   * The rounds of a loop whose bodies ran, flags[k] saying whether round
   * k's body left req_exit set or the frame finished: the loop went on
   * only after rounds that did neither, and a round that did one ended the
   * loop with a flow that stops the enclosing block.
   */
  ghost predicate FlagsStop(flags: seq<bool>, res: Result<Flow>) {
    && (forall k :: 0 <= k < |flags| - 1 ==> !flags[k])
    && (|flags| > 0 && flags[|flags| - 1] ==> res.Ok? && res.value != Next)
  }

  /**
   * An if-chain took the first link whose condition read non-zero, or the
   * else link (no condition) when it reached it: the links before were
   * conditions that read 0 (tests holds what they read). With no link taken,
   * every link was a condition that read 0.
   */
  ghost predicate FirstTaken(chain: seq<Conditional>, taken: Option<nat>, tests: seq<int>) {
    && |tests| <= |chain|
    && (forall k :: 0 <= k < |tests| ==> chain[k].condition.Some?)
    && match taken
       case None => |tests| == |chain| && forall k :: 0 <= k < |tests| ==> tests[k] == 0
       case Some(t) =>
         && t < |chain|
         && (chain[t].condition.None? ==> |tests| == t)
         && (chain[t].condition.Some? ==> |tests| == t + 1 && tests[t] != 0)
         && (forall k :: 0 <= k < t ==> tests[k] == 0)
  }

  /**
   * Round k of a for loop, started from the store s, bound the iterator it
   * in the store b: item is slot k of what the iterated cell t read in s,
   * and it then reads through item's chain, unless the two already shared
   * a root, in which case the links close a cycle.
   */
  ghost predicate RoundBound(s: Store, b: Store, t: RefId, it: RefId, k: nat, item: RefId) {
    && RootValue(s.refs, t).Ok? && RootValue(s.refs, t).value in s.vals
    && Iterate(s.vals[RootValue(s.refs, t).value], k) == Ok(item)
    && (Root(s.refs, it) != Root(s.refs, item) ==>
          Root(b.refs, it) == Root(s.refs, item) && RootValue(b.refs, it) == RootValue(s.refs, item))
    && (Root(s.refs, it) == Root(s.refs, item) ==> RootValue(b.refs, it) == Err(Diverges))
  }

  /** Every round recorded bound the iterator to the slot of its index. */
  ghost predicate RoundsBound(starts: seq<Store>, bounds: seq<Store>, t: RefId, it: RefId, items: seq<RefId>) {
    && |starts| == |items| == |bounds|
    && forall k :: 0 <= k < |items| ==> RoundBound(starts[k], bounds[k], t, it, k, items[k])
  }

  lemma RoundsSnoc(starts: seq<Store>, bounds: seq<Store>, t: RefId, it: RefId, items: seq<RefId>, s: Store, b: Store, item: RefId)
    requires RoundsBound(starts, bounds, t, it, items) && RoundBound(s, b, t, it, |items|, item)
    ensures RoundsBound(starts + [s], bounds + [b], t, it, items + [item])
  {
  }

  /**
   * call_frame: the block a function call runs, the scope of its locals and
   * the flags that stop blocks early. (The C++ constructor allocates the
   * scope itself; here the caller passes a new one.)
   */
  class Frame {
    const instructions: seq<Stmt>
    const context: CtxId
    var isFinished: bool
    var reqBreak: bool

    constructor (instructions: seq<Stmt>, context: CtxId)
      ensures this.instructions == instructions && this.context == context
      ensures !isFinished && !reqBreak
    {
      this.instructions := instructions;
      this.context := context;
      isFinished := false;
      reqBreak := false;
    }
  }

  /**
   * The global state of Source.cpp: the static scope, the registries of
   * function and struct prototypes, and req_exit. Every evaluation keeps
   * the heap well formed and lets the store evolve (Steps.Evolves): only
   * the scopes it names may change their bindings beyond appending.
   */
  class Interp {
    const heap: Heap
    const staticCtx: CtxId
    const depth: nat
    var functions: map<string, Function>
    var structs: map<string, seq<string>>
    var reqExit: bool

    ghost predicate Valid()
      reads heap
    {
      heap.Valid() && staticCtx in heap.st.ctxs && depth > 0
    }

    constructor (heap: Heap, depth: nat)
      requires heap.Valid() && depth > 0
      modifies heap
      ensures Valid() && this.heap == heap && this.depth == depth
      ensures functions == map[] && structs == map[] && !reqExit
      ensures staticCtx !in old(heap.st.ctxs)
      ensures heap.st == old(heap.st).(ctxs := old(heap.st.ctxs)[staticCtx := VarContext([], 10, None)])
    {
      var c := heap.NewContext(None);
      this.heap := heap;
      this.depth := depth;
      staticCtx := c;
      functions := map[];
      structs := map[];
      reqExit := false;
    }

    // -------------------------------------------------------------------
    // The registries.
    // -------------------------------------------------------------------

    /** TOK_FUNCTION_PROTO: a name is registered once. */
    method DefineFunction(name: string, f: Function) returns (res: Result<Flow>)
      modifies this
      ensures old(reqExit) ==> reqExit
      ensures structs == old(structs) && reqExit == old(reqExit)
      ensures name in old(functions) ==> res == Err(FunctionAlreadyDefined) && functions == old(functions)
      ensures name !in old(functions) ==> res == Ok(Next) && functions == old(functions)[name := f]
      ensures Extends(old(functions), functions)
    {
      if name in functions {
        return Err(FunctionAlreadyDefined);
      }
      functions := functions[name := f];
      res := Ok(Next);
    }

    /** TOK_STRUCT_PROTO: a name is registered once. */
    method DefineStruct(name: string, properties: seq<string>) returns (res: Result<Flow>)
      modifies this
      ensures old(reqExit) ==> reqExit
      ensures functions == old(functions) && reqExit == old(reqExit)
      ensures name in old(structs) ==> res == Err(StructAlreadyDefined) && structs == old(structs)
      ensures name !in old(structs) ==> res == Ok(Next) && structs == old(structs)[name := properties]
      ensures Extends(old(structs), structs)
    {
      if name in structs {
        return Err(StructAlreadyDefined);
      }
      structs := structs[name := properties];
      res := Ok(Next);
    }

    // -------------------------------------------------------------------
    // getVarPtr
    // -------------------------------------------------------------------

    /** The bare-name part of getVarPtr: has_val and searchForVal on the local, then the static scope. */
    method Lookup(local: CtxId, name: string) returns (res: Result<RefId>)
      requires Valid() && local in heap.st.ctxs
      ensures res == Resolve(heap.st, local, staticCtx, name)
      ensures res.Ok? ==> res.value in heap.st.refs
    {
      var l, g := heap.st.ctxs[local], heap.st.ctxs[staticCtx];
      assert ContextOK(heap.st, l) && ContextOK(heap.st, g);
      var inLocal := Contexts.HasVal(l, name);
      if inLocal {
        res := Contexts.SearchForVal(l, name);
        return;
      }
      var inStatic := Contexts.HasVal(g, name);
      if inStatic {
        res := Contexts.SearchForVal(g, name);
        return;
      }
      res := Err(NotInVarContext);
    }
    /** A TOK_PROPERTY modifier: the property name of the struct the cursor reads. */
    method PropertyStep(cur: RefId, name: string) returns (res: Result<RefId>)
      requires Valid() && cur in heap.st.refs
      ensures res.Ok? ==> res.value in heap.st.refs
      ensures RootValue(heap.st.refs, cur).Err? ==> res == Err(Diverges)
      ensures RootValue(heap.st.refs, cur).Ok? ==>
        var v := RootValue(heap.st.refs, cur).value;
        && v in heap.st.vals
        && (!heap.st.vals[v].Struct? ==> res == Err(MustHaveStructType))
        && (heap.st.vals[v].Struct? ==>
              var p := heap.st.vals[v].properties;
              && p in heap.st.ctxs
              && var coll := heap.st.ctxs[p].collection;
              && (res.Ok? <==> Contexts.Binds(coll, name))
              && (res.Ok? ==> res.value == coll[Contexts.FirstIndex(coll, name)].uniqueRef)
              && (res.Err? ==> res.error == NotInVarContext))
    {
      var v :- heap.GetVarPtr(cur);
      var x := heap.st.vals[v];
      if !x.Struct? {
        return Err(MustHaveStructType);
      }
      assert ValueClosed(heap.st, x) && ContextOK(heap.st, heap.st.ctxs[x.properties]);
      res := Contexts.SearchForVal(heap.st.ctxs[x.properties], name);
    }

    /**
     * A TOK_INDEX modifier, once the index expression has been evaluated to
     * the cell idx: it must read a number within [0, length) of what the
     * cursor reads; the result is that slot.
     */
    method IndexStep(cur: RefId, idx: RefId) returns (res: Result<RefId>)
      requires Valid() && cur in heap.st.refs && idx in heap.st.refs
      ensures res.Ok? ==> res.value in heap.st.refs
      ensures RootValue(heap.st.refs, idx).Err? ==> res == Err(Diverges)
      ensures RootValue(heap.st.refs, idx).Ok? ==>
        var iv := RootValue(heap.st.refs, idx).value;
        && iv in heap.st.vals
        && (!heap.st.vals[iv].Number? ==> res == Err(MustHaveDoubleType))
        && (heap.st.vals[iv].Number? ==>
              var i := heap.st.vals[iv].n;
              && (RootValue(heap.st.refs, cur).Err? ==> res == Err(Diverges))
              && (RootValue(heap.st.refs, cur).Ok? ==>
                    var v := RootValue(heap.st.refs, cur).value;
                    && v in heap.st.vals
                    && (i < 0 || i >= Length(heap.st.vals[v]) ==> res == Err(IndexOutOfRange))
                    && (0 <= i < Length(heap.st.vals[v]) ==> res == Ok(heap.st.vals[v].elems[i]))))
    {
      var iv :- heap.GetVarPtr(idx);
      if !heap.st.vals[iv].Number? {
        return Err(MustHaveDoubleType);
      }
      var i := heap.st.vals[iv].n;
      var v :- heap.GetVarPtr(cur);
      var x := heap.st.vals[v];
      if i >= Length(x) || i < 0 {
        return Err(IndexOutOfRange);
      }
      assert ValueClosed(heap.st, x);
      res := Iterate(x, i);
    }

    /**
     * `to_iterate->get_var_ptr()->iterate(i)`: the slot i of what t reads
     * now, through value_array::iterate as written, so that i equal to the
     * size is the read past the end (UndefinedBehaviour).
     */
    method IterateOnce(t: RefId, i: nat) returns (res: Result<RefId>)
      requires Valid() && t in heap.st.refs
      ensures res.Ok? ==> res.value in heap.st.refs
      ensures RootValue(heap.st.refs, t).Ok? ==>
        RootValue(heap.st.refs, t).value in heap.st.vals && res == Iterate(heap.st.vals[RootValue(heap.st.refs, t).value], i)
      ensures RootValue(heap.st.refs, t).Err? ==> res == Err(Diverges)
    {
      var vr := heap.GetVarPtr(t);
      if vr.Err? {
        return Err(vr.error);
      }
      var v := vr.value;
      assert ValueClosed(heap.st, heap.st.vals[v]);
      res := Iterate(heap.st.vals[v], i);
    }


    /**
     * One modifier of getVarPtr applied to the cursor cur: a property is
     * looked up (PropertyStep); an index expression is evaluated with
     * getValue without force and then checked (IndexStep).
     */
    method ModifierStep(local: CtxId, cur: RefId, m: Modifier, fuel: nat) returns (res: Result<RefId>)
      requires Valid() && local in heap.st.ctxs && cur in heap.st.refs
      modifies this, heap
      ensures old(reqExit) ==> reqExit
      ensures Valid() && Evolves(old(heap.st), heap.st, {staticCtx})
      ensures res.Ok? ==> res.value in heap.st.refs
      ensures m.Property? ==> heap.st == old(heap.st)
      decreases fuel, 1
    {
      match m
      case Property(p) =>
        EvolvesRefl(heap.st, {staticCtx});
        res := PropertyStep(cur, p);
      case Index(e) =>
        var ir := GetValue(local, e, false, fuel);
        if ir.Err? {
          return Err(ir.error);
        }
        res := IndexStep(cur, ir.value);
    }

    /**
     * getVarPtr: the bare name (Lookup), then each modifier in turn moves
     * the cursor (ModifierStep).
     */
    method GetVarPtr(local: CtxId, name: string, mods: seq<Modifier>, fuel: nat) returns (res: Result<RefId>)
      requires Valid() && local in heap.st.ctxs
      modifies this, heap
      ensures old(reqExit) ==> reqExit
      ensures Valid() && Evolves(old(heap.st), heap.st, {staticCtx})
      ensures res.Ok? ==> res.value in heap.st.refs
      ensures Resolve(old(heap.st), local, staticCtx, name).Err? ==> res == Err(NotInVarContext) && heap.st == old(heap.st)
      ensures mods == [] ==> res == Resolve(old(heap.st), local, staticCtx, name) && heap.st == old(heap.st)
      decreases fuel, 2
    {
      ghost var s0 := heap.st;
      EvolvesRefl(s0, {staticCtx});
      var found := Lookup(local, name);
      if found.Err? {
        return Err(found.error);
      }
      var cur := found.value;
      var i := 0;
      while i < |mods|
        invariant old(reqExit) ==> reqExit
        invariant i <= |mods| && Valid() && local in heap.st.ctxs && cur in heap.st.refs
        invariant Evolves(s0, heap.st, {staticCtx})
        invariant i == 0 ==> heap.st == s0 && Ok(cur) == found
      {
        ghost var s1 := heap.st;
        var step := ModifierStep(local, cur, mods[i], fuel);
        EvolvesTrans(s0, s1, heap.st, {staticCtx});
        if step.Err? {
          return Err(step.error);
        }
        cur := step.value;
        i := i + 1;
      }
      res := Ok(cur);
    }

    // -------------------------------------------------------------------
    // getValue
    // -------------------------------------------------------------------

    /**
     * getValue. The result is a temporary cell (the C++ code deletes it
     * once used; nothing is freed here).
     */
    method GetValue(local: CtxId, e: Expr, force: bool, fuel: nat) returns (res: Result<RefId>)
      requires Valid() && local in heap.st.ctxs
      modifies this, heap
      ensures old(reqExit) ==> reqExit
      ensures Valid() && Evolves(old(heap.st), heap.st, {staticCtx})
      ensures res.Ok? ==> res.value in heap.st.refs
      ensures fuel == 0 ==> res == Err(FuelExhausted) && heap.st == old(heap.st)
      ensures fuel > 0 && e.Value? && !e.lit.StringLit? ==> res.Ok? && FreshHolder(old(heap.st), heap.st, res.value, LiteralValue(e.lit))
      ensures fuel > 0 && e.Value? && e.lit.StringLit? ==> res.Ok? && StringHolder(old(heap.st), heap.st, res.value, e.lit.text)
      ensures fuel > 0 && e.Identifier? && Resolve(old(heap.st), local, staticCtx, e.name).Err? ==>
        res == Err(NotInVarContext) && heap.st == old(heap.st)
      ensures fuel > 0 && e.OtherExpr? ==> res == Err(UnexpectedTok) && heap.st == old(heap.st)
      ensures fuel > 0 && e.NewStruct? && e.name !in old(structs) ==> res == Err(StructNotFound) && heap.st == old(heap.st)
      ensures fuel > 0 && e.CallFunction? && e.name !in old(functions) && !IsBuiltin(e.name) ==> res.Err?
      decreases fuel, 0
    {
      if fuel == 0 {
        EvolvesRefl(heap.st, {staticCtx});
        return Err(FuelExhausted);
      }
      match e
      case Value(lit) =>
        ghost var s0 := heap.st;
        var r;
        if lit.StringLit? {
          r := NewString(heap, lit.text);
        } else {
          r := NewRoot(heap, LiteralValue(lit), None);
        }
        AddsEvolve(s0, heap.st);
        EvolvesWiden(s0, heap.st, {}, {staticCtx});
        res := Ok(r);
      case Identifier(name, mods) =>
        ghost var found, s1;
        res, found, s1 := EvalIdentifier(local, name, mods, force, fuel - 1);
      case Reference(target) =>
        res := GetValue(local, target, true, fuel - 1);
      case UnaryOp(op, operand) =>
        ghost var a, s1, anchored;
        res, a, s1, anchored := EvalUnary(local, op, operand, fuel - 1);
      case BinaryOp(op, left, right) =>
        ghost var a, s1, s2, b, s3, anchored;
        res, a, s1, s2, b, s3, anchored := EvalBinary(local, op, left, right, fuel - 1);
      case NewStruct(name) =>
        res := NewInstance(name);
      case CreateArray(items) =>
        ghost var cells;
        res, cells := MakeArray(local, items, fuel - 1);
      case CallFunction(name, args) =>
        if name in functions {
          var callee;
          ghost var ran, checked, repaired, verdict;
          res, callee, ran, checked, repaired, verdict := CallUser(local, functions[name], args, fuel - 1);
        } else {
          res := CallBuiltin(local, name, args, fuel - 1);
        }
      case OtherExpr =>
        EvolvesRefl(heap.st, {staticCtx});
        res := Err(UnexpectedTok);
    }

    /**
     * TOK_IDENTIFIER: the variable is found (getVarPtr) and read into a
     * new temporary cell (ReadCell).
     */
    method EvalIdentifier(local: CtxId, name: string, mods: seq<Modifier>, force: bool, fuel: nat)
        returns (res: Result<RefId>, ghost found: Result<RefId>, ghost s1: Store)
      requires Valid() && local in heap.st.ctxs
      modifies this, heap
      ensures old(reqExit) ==> reqExit
      ensures Valid() && Evolves(old(heap.st), heap.st, {staticCtx})
      ensures res.Ok? ==> res.value !in old(heap.st.refs) && res.value in heap.st.refs
      ensures Resolve(old(heap.st), local, staticCtx, name).Err? ==> res == Err(NotInVarContext) && heap.st == old(heap.st)
      ensures mods == [] ==> found == Resolve(old(heap.st), local, staticCtx, name) && s1 == old(heap.st)
      ensures found.Err? ==> res == Err(found.error) && heap.st == s1
      ensures found.Ok? ==> StoreOK(s1) && found.value in s1.refs && ReadOf(s1, heap.st, found.value, force, res)
      decreases fuel, 3
    {
      ghost var s0 := heap.st;
      var pr := GetVarPtr(local, name, mods, fuel);
      found, s1 := pr, heap.st;
      if pr.Err? {
        return Err(pr.error), found, s1;
      }
      res := ReadCell(heap, pr.value, force, depth);
      AddsEvolve(s1, heap.st);
      EvolvesWiden(s1, heap.st, {}, {staticCtx});
      EvolvesTrans(s0, s1, heap.st, {staticCtx});
    }

    /**
     * TOK_UNIARY_OP: the operand is evaluated as a reference, its cells get
     * the local scope as owner where they have none, and applyUniaryOp's
     * result is held by a new unowned root: always a number (UnaryThen).
     */
    method EvalUnary(local: CtxId, op: Op, operand: Expr, fuel: nat)
        returns (res: Result<RefId>, ghost a: Result<RefId>, ghost s1: Store, ghost anchored: Store)
      requires Valid() && local in heap.st.ctxs
      modifies this, heap
      ensures old(reqExit) ==> reqExit
      ensures Valid() && Evolves(old(heap.st), heap.st, {staticCtx})
      ensures !Operators.IsUnary(op) ==> res.Err?
      ensures res.Ok? ==>
        && res.value !in old(heap.st.refs) && res.value in heap.st.refs
        && heap.st.refs[res.value].parentRef.None? && heap.st.refs[res.value].parentContext.None?
        && heap.st.refs[res.value].valuePtr in heap.st.vals && heap.st.vals[heap.st.refs[res.value].valuePtr].Number?
      ensures Evolves(old(heap.st), s1, {staticCtx})
      ensures UnaryThen(s1, anchored, heap.st, op, a, local, depth, res)
      decreases fuel, 1
    {
      ghost var s0 := heap.st;
      var ar := GetValue(local, operand, true, fuel);
      a, s1, anchored := ar, heap.st, heap.st;
      if ar.Err? {
        return Err(ar.error), a, s1, anchored;
      }
      res, anchored := UnaryTail(heap, op, ar.value, local, depth);
      EvolvesWiden(s1, heap.st, {}, {staticCtx});
      EvolvesTrans(s0, s1, heap.st, {staticCtx});
    }

    /**
     * TOK_BINARY_OP: the left operand is evaluated without force into s1
     * and its cells get the local scope as owner where they have none
     * (Anchor), giving s2; then the right operand follows (BinaryRest).
     */
    method EvalBinary(local: CtxId, op: Op, left: Expr, right: Expr, fuel: nat)
        returns (res: Result<RefId>, ghost a: Result<RefId>, ghost s1: Store, ghost s2: Store,
                 ghost b: Result<RefId>, ghost s3: Store, ghost anchored: Store)
      requires Valid() && local in heap.st.ctxs
      modifies this, heap
      ensures old(reqExit) ==> reqExit
      ensures Valid() && Evolves(old(heap.st), heap.st, {staticCtx})
      ensures res.Ok? ==>
        && res.value !in old(heap.st.refs) && res.value in heap.st.refs
        && heap.st.refs[res.value].parentRef.None? && heap.st.refs[res.value].parentContext.None?
      ensures a.Err? ==> res == Err(a.error) && heap.st == s1
      ensures a.Ok? ==> a.value in s1.refs && AnchoredIn(s1, s2, heap.st, a.value, local, depth, res)
      ensures a.Ok? && Reach(s1, a.value, depth).Ok? ==> RightThen(s3, anchored, heap.st, op, a.value, b, local, depth, res)
      decreases fuel, 2
    {
      ghost var s0 := heap.st;
      var ar := GetValue(local, left, false, fuel);
      a, s1, s2, b, s3, anchored := ar, heap.st, heap.st, Err(Diverges), heap.st, heap.st;
      if ar.Err? {
        return Err(ar.error), a, s1, s2, b, s3, anchored;
      }
      var ok := Anchor(heap, ar.value, local, depth);
      s2 := heap.st;
      EvolvesWiden(s1, heap.st, {}, {staticCtx});
      EvolvesTrans(s0, s1, heap.st, {staticCtx});
      if ok.Err? {
        return Err(ok.error), a, s1, s2, b, s3, anchored;
      }
      res, b, s3, anchored := BinaryRest(local, op, ar.value, right, fuel);
      EvolvesTrans(s0, s2, heap.st, {staticCtx});
    }

    /**
     * The rest of TOK_BINARY_OP once the left operand is the cell a: the
     * right operand is evaluated without force into s1, the left one's
     * cells are anchored again, and applyBinaryOp's result is held by a
     * new unowned root (RightThen).
     */
    method BinaryRest(local: CtxId, op: Op, a: RefId, right: Expr, fuel: nat)
        returns (res: Result<RefId>, ghost b: Result<RefId>, ghost s1: Store, ghost anchored: Store)
      requires Valid() && local in heap.st.ctxs && a in heap.st.refs
      modifies this, heap
      ensures old(reqExit) ==> reqExit
      ensures Valid() && Evolves(old(heap.st), heap.st, {staticCtx})
      ensures res.Ok? ==>
        && res.value !in old(heap.st.refs) && res.value in heap.st.refs
        && heap.st.refs[res.value].parentRef.None? && heap.st.refs[res.value].parentContext.None?
      ensures Evolves(old(heap.st), s1, {staticCtx}) && a in s1.refs
      ensures RightThen(s1, anchored, heap.st, op, a, b, local, depth, res)
      decreases fuel, 1
    {
      ghost var s0 := heap.st;
      var br := GetValue(local, right, false, fuel);
      b, s1, anchored := br, heap.st, heap.st;
      if br.Err? {
        return Err(br.error), b, s1, anchored;
      }
      res, anchored := BinaryTail(heap, op, a, br.value, local, depth);
      EvolvesWiden(s1, heap.st, {}, {staticCtx});
      EvolvesTrans(s0, s1, heap.st, {staticCtx});
    }

    /**
     * TOK_NEW_STRUCT: a registered prototype is instantiated (structure's
     * constructor with no parent scope) in a new unowned root.
     */
    method NewInstance(name: string) returns (res: Result<RefId>)
      requires Valid()
      modifies heap
      ensures Valid() && Evolves(old(heap.st), heap.st, {staticCtx})
      ensures name !in structs ==> res == Err(StructNotFound) && heap.st == old(heap.st)
      ensures name in structs ==> (res.Err? <==> !Structures.Distinct(structs[name]))
      ensures res.Ok? ==>
        && res.value !in old(heap.st.refs) && res.value in heap.st.refs
        && heap.st.refs[res.value].parentRef.None? && heap.st.refs[res.value].parentContext.None?
        && var w := heap.st.refs[res.value].valuePtr;
        && w !in old(heap.st.vals) && w in heap.st.vals && heap.st.vals[w].Struct?
        && heap.st.vals[w].identifier == name
        && heap.st.vals[w].properties in heap.st.ctxs
        && var q := heap.st.vals[w].properties;
        && q !in old(heap.st.ctxs) && heap.st.ctxs[q].parentContext.None?
        && Names(heap.st.ctxs[q].collection) == structs[name]
        && forall k :: 0 <= k < |structs[name]| ==> Structures.FreshNullProperty(old(heap.st), heap.st, q, k, None)
      ensures OnlyAdds(old(heap.st), heap.st)
    {
      ghost var s0 := heap.st;
      EvolvesRefl(s0, {staticCtx});
      if name !in structs {
        return Err(StructNotFound);
      }
      var ir := Structures.Instantiate(heap, name, structs[name], None);
      NewScopesEvolve(s0, heap.st);
      EvolvesWiden(s0, heap.st, {}, {staticCtx});
      if ir.Err? {
        return Err(ir.error);
      }
      ghost var s1 := heap.st;
      var n := heap.NewCell(Cell(ir.value, None, None));
      AddsEvolve(s1, heap.st);
      EvolvesWiden(s1, heap.st, {}, {staticCtx});
      EvolvesTrans(s0, s1, heap.st, {staticCtx});
      OnlyAddsTrans(s0, s1, heap.st);
      ghost var q := s1.vals[ir.value].properties;
      forall k | 0 <= k < |structs[name]|
        ensures Structures.FreshNullProperty(s0, heap.st, q, k, None)
      {
        assert Structures.FreshNullProperty(s0, s1, q, k, None);
      }
      res := Ok(n);
    }

    /** Each expression in turn, as getValue evaluates it with the given force. */
    method EvalAll(local: CtxId, items: seq<Expr>, force: bool, fuel: nat) returns (res: Result<seq<RefId>>)
      requires Valid() && local in heap.st.ctxs
      modifies this, heap
      ensures old(reqExit) ==> reqExit
      ensures Valid() && Evolves(old(heap.st), heap.st, {staticCtx})
      ensures items == [] ==> res == Ok([]) && heap.st == old(heap.st)
      ensures res.Ok? ==> |res.value| == |items| && forall k :: 0 <= k < |items| ==> res.value[k] in heap.st.refs
      decreases fuel, 1
    {
      ghost var s0 := heap.st;
      EvolvesRefl(s0, {staticCtx});
      var cells: seq<RefId> := [];
      var i := 0;
      while i < |items|
        invariant old(reqExit) ==> reqExit
        invariant i <= |items| && |cells| == i && Valid() && local in heap.st.ctxs
        invariant Evolves(s0, heap.st, {staticCtx}) && (i == 0 ==> heap.st == s0)
        invariant forall k :: 0 <= k < i ==> cells[k] in heap.st.refs
      {
        ghost var s1 := heap.st;
        var cr := GetValue(local, items[i], force, fuel);
        EvolvesTrans(s0, s1, heap.st, {staticCtx});
        if cr.Err? {
          return Err(cr.error);
        }
        cells := cells + [cr.value];
        i := i + 1;
      }
      res := Ok(cells);
    }

    /**
     * TOK_CREATE_ARRAY: a new array whose slots are the cells the items
     * evaluate to (cells, as EvalAll returns them, in order), in a new
     * unowned root.
     */
    method MakeArray(local: CtxId, items: seq<Expr>, fuel: nat) returns (res: Result<RefId>, ghost cells: seq<RefId>)
      requires Valid() && local in heap.st.ctxs
      modifies this, heap
      ensures old(reqExit) ==> reqExit
      ensures Valid() && Evolves(old(heap.st), heap.st, {staticCtx})
      ensures res.Ok? ==>
        && res.value !in old(heap.st.refs) && res.value in heap.st.refs
        && heap.st.refs[res.value].parentRef.None? && heap.st.refs[res.value].parentContext.None?
        && var w := heap.st.refs[res.value].valuePtr;
        && w !in old(heap.st.vals) && w in heap.st.vals && heap.st.vals[w] == Array(cells)
        && |cells| == |items| && forall k :: 0 <= k < |cells| ==> cells[k] in heap.st.refs
      decreases fuel, 2
    {
      ghost var s0 := heap.st;
      var cellsr := EvalAll(local, items, false, fuel);
      cells := if cellsr.Ok? then cellsr.value else [];
      if cellsr.Err? {
        return Err(cellsr.error), cells;
      }
      ghost var s1 := heap.st;
      var r := NewRoot(heap, Array(cellsr.value), None);
      AddsEvolve(s1, heap.st);
      EvolvesWiden(s1, heap.st, {}, {staticCtx});
      EvolvesTrans(s0, s1, heap.st, {staticCtx});
      res := Ok(r);
    }

    /**
     * TOK_CALL_FUNCTION for a name with no user definition: the arguments
     * are evaluated as references first; then the built-in is run
     * (BuiltinTail), and abort and stop set req_exit. The result is a new
     * root owned by the local scope.
     */
    method CallBuiltin(local: CtxId, name: string, args: seq<Expr>, fuel: nat) returns (res: Result<RefId>)
      requires Valid() && local in heap.st.ctxs
      modifies this, heap
      ensures old(reqExit) ==> reqExit
      ensures Valid() && Evolves(old(heap.st), heap.st, {staticCtx})
      ensures !IsBuiltin(name) ==> res.Err?
      ensures name == "clone" && args == [] ==> res == Err(UndefinedBehaviour)
      ensures res.Ok? ==> IsBuiltin(name)
      ensures res.Ok? && (name == "abort" || name == "stop") ==> reqExit
      ensures res.Ok? ==>
        && res.value !in old(heap.st.refs) && res.value in heap.st.refs
        && heap.st.refs[res.value].parentRef.None? && heap.st.refs[res.value].parentContext == Some(local)
      ensures res.Ok? && name != "clone" ==>
        heap.st.refs[res.value].valuePtr in heap.st.vals && heap.st.vals[heap.st.refs[res.value].valuePtr] == Null
      decreases fuel, 2
    {
      ghost var s0 := heap.st;
      var cellsr := EvalAll(local, args, true, fuel);
      if cellsr.Err? {
        return Err(cellsr.error);
      }
      ghost var s1 := heap.st;
      res := BuiltinTail(heap, name, cellsr.value, local, depth);
      AddsEvolve(s1, heap.st);
      EvolvesWiden(s1, heap.st, {}, {staticCtx});
      EvolvesTrans(s0, s1, heap.st, {staticCtx});
      if res.Ok? && (name == "abort" || name == "stop") {
        reqExit := true;
      }
    }

    // -------------------------------------------------------------------
    // The user-function call protocol.
    // -------------------------------------------------------------------

    /**
     * TOK_CALL_FUNCTION for a user function. A wrong number of arguments
     * fails before anything is allocated. Otherwise a new frame gets a new
     * scope without parent and the call runs in it (EnterCall). callee is
     * the frame's scope.
     */
    method CallUser(local: CtxId, f: Function, args: seq<Expr>, fuel: nat)
        returns (res: Result<RefId>, callee: CtxId, ghost ran: Store, ghost checked: Store, ghost repaired: Store, ghost verdict: Result<bool>)
      requires Valid() && local in heap.st.ctxs
      modifies this, heap
      ensures old(reqExit) ==> reqExit
      ensures Valid() && Evolves(old(heap.st), heap.st, {staticCtx})
      ensures |args| != |f.params| ==> res == Err(UnexpectedArgumentLength) && heap.st == old(heap.st)
      ensures res.Ok? ==> Structures.Distinct(f.params)
      ensures res.Ok? ==>
        && res.value in heap.st.refs && heap.st.refs[res.value].parentContext.Some?
        && callee !in old(heap.st.ctxs) && callee in heap.st.ctxs && callee != local
        && f.params <= Names(heap.st.ctxs[callee].collection)
      ensures res.Ok? ==>
        && Returned(ran, checked, repaired, res.value, local, callee, verdict, depth)
        && (verdict == Ok(true) ==> Survives(repaired, res.value, callee))
        && Evolves(repaired, heap.st, {})
      decreases fuel, 5
    {
      ghost var s0 := heap.st;
      callee := staticCtx;
      ran, checked, repaired, verdict := heap.st, heap.st, heap.st, Ok(true);
      if |args| != |f.params| {
        EvolvesRefl(s0, {staticCtx});
        return Err(UnexpectedArgumentLength), callee, ran, checked, repaired, verdict;
      }
      callee := heap.NewContext(None);
      ghost var E := {staticCtx, callee};
      ghost var s1 := heap.st;
      var frame := new Frame(f.body, callee);
      res, ran, checked, repaired, verdict := EnterCall(frame, local, f.params, args, fuel);
      AddsEvolve(s0, s1);
      EvolvesWiden(s0, s1, {}, E);
      EvolvesTrans(s0, s1, heap.st, E);
      EvolvesNarrow(s0, heap.st, E, callee);
      assert E - {callee} == {staticCtx};
    }

    /**
     * A user call once its frame exists: the parameters are bound in order
     * (BindParams), then the body runs and returns (RunBody).
     */
    method EnterCall(frame: Frame, local: CtxId, params: seq<string>, args: seq<Expr>, fuel: nat)
        returns (res: Result<RefId>, ghost ran: Store, ghost checked: Store, ghost repaired: Store, ghost verdict: Result<bool>)
      requires Valid() && local in heap.st.ctxs && frame.context in heap.st.ctxs && frame.context != staticCtx
      requires |args| == |params| && heap.st.ctxs[frame.context].collection == []
      modifies this, heap, frame
      ensures old(reqExit) ==> reqExit
      ensures Valid() && Evolves(old(heap.st), heap.st, {staticCtx, frame.context})
      ensures res.Ok? ==> Structures.Distinct(params)
      ensures res.Ok? ==>
        && res.value in heap.st.refs && heap.st.refs[res.value].parentContext.Some?
        && params <= Names(heap.st.ctxs[frame.context].collection)
      ensures res.Ok? ==>
        && Evolves(old(heap.st), ran, {staticCtx, frame.context})
        && Returned(ran, checked, repaired, res.value, local, frame.context, verdict, depth)
        && Evolves(repaired, heap.st, {})
      decreases fuel, 4
    {
      ran, checked, repaired, verdict := heap.st, heap.st, heap.st, Ok(true);
      ghost var s0 := heap.st;
      ghost var E := {staticCtx, frame.context};
      var bound := BindParams(local, frame.context, params, args, fuel);
      if bound.Err? {
        return Err(bound.error), ran, checked, repaired, verdict;
      }
      ghost var s1 := heap.st;
      ghost var flows, v, evaluated;
      res, ran, checked, repaired, verdict, flows, v, evaluated := RunBody(frame, local, |params|, fuel);
      if res.Ok? {
        EvolvesTrans(s0, s1, ran, E);
      }
      assert Names(s1.ctxs[frame.context].collection) <= Names(heap.st.ctxs[frame.context].collection);
      EvolvesTrans(s0, s1, heap.st, E);
    }

    /**
     * The body of a user call runs as the frame's own body; then the
     * returned cell and the n parameters are repaired before the frame's
     * scope would be deleted (ReturnFrom).
     */
    method RunBody(frame: Frame, local: CtxId, n: nat, fuel: nat)
        returns (res: Result<RefId>, ghost ran: Store, ghost checked: Store, ghost repaired: Store, ghost verdict: Result<bool>,
                 ghost flows: seq<Flow>, ghost v: RefId, ghost evaluated: Store)
      requires Valid() && local in heap.st.ctxs && frame.context in heap.st.ctxs
      requires n <= |heap.st.ctxs[frame.context].collection|
      modifies this, heap, frame
      ensures old(reqExit) ==> reqExit
      ensures Valid() && Evolves(old(heap.st), heap.st, {staticCtx, frame.context})
      ensures res.Ok? ==> res.value in heap.st.refs && heap.st.refs[res.value].parentContext.Some?
      ensures res.Ok? ==>
        && Evolves(old(heap.st), ran, {staticCtx, frame.context})
        && Returned(ran, checked, repaired, res.value, local, frame.context, verdict, depth)
        && Evolves(repaired, heap.st, {})
      ensures res.Ok? && flows != [] && |flows| <= |frame.instructions| ==>
        var last := frame.instructions[|flows| - 1];
        last.Return? && last.result.Some? ==> res.value in evaluated.refs && v in evaluated.refs && TakesValue(evaluated, ran, res.value, v)
      decreases fuel, 3
    {
      ghost var s0 := heap.st;
      ghost var E := {staticCtx, frame.context};
      ran, checked, repaired, verdict := heap.st, heap.st, heap.st, Ok(true);
      var toret;
      ghost var exits, blank, made;
      toret, flows, exits, blank, made, v, evaluated := Execute(frame, frame.instructions, true, fuel);
      if toret.Err? {
        return Err(toret.error), ran, checked, repaired, verdict, flows, v, evaluated;
      }
      ran := heap.st;
      EvolvesLength(s0, ran, E, frame.context);
      res, checked, repaired, verdict := ReturnFrom(heap, local, frame.context, toret.value, n, depth);
      EvolvesWiden(ran, heap.st, {}, E);
      EvolvesTrans(s0, ran, heap.st, E);
    }

    /**
     * The parameter loop of a user call: one BindOne per parameter. A
     * repeated parameter name makes declare throw.
     */
    method BindParams(local: CtxId, callee: CtxId, params: seq<string>, args: seq<Expr>, fuel: nat) returns (res: Result<()>)
      requires Valid() && local in heap.st.ctxs && callee in heap.st.ctxs && callee != staticCtx
      requires |args| == |params| && heap.st.ctxs[callee].collection == []
      modifies this, heap
      ensures old(reqExit) ==> reqExit
      ensures Valid() && Evolves(old(heap.st), heap.st, {staticCtx, callee})
      ensures res.Ok? ==> Names(heap.st.ctxs[callee].collection) == params && Structures.Distinct(params)
      decreases fuel, 2
    {
      ghost var s0 := heap.st;
      ghost var E := {staticCtx, callee};
      EvolvesRefl(s0, E);
      var i := 0;
      while i < |params|
        invariant old(reqExit) ==> reqExit
        invariant i <= |params| && Valid() && local in heap.st.ctxs && callee in heap.st.ctxs
        invariant Evolves(s0, heap.st, E)
        invariant Names(heap.st.ctxs[callee].collection) == params[..i]
        invariant Structures.Distinct(params[..i])
      {
        ghost var s1 := heap.st;
        NamesBind(s1.ctxs[callee].collection, params[..i], params[i]);
        var r;
        ghost var a, evaluated;
        r, a, evaluated := BindOne(local, callee, params[i], args[i], fuel);
        EvolvesTrans(s0, s1, heap.st, E);
        if r.Err? {
          return Err(r.error);
        }
        DistinctAppend(params[..i], params[i]);
        assert params[..i + 1] == params[..i] + [params[i]];
        i := i + 1;
      }
      assert params[..i] == params;
      res := Ok(());
    }

    /**
     * One parameter: its argument is evaluated as a reference, then the
     * parameter is declared in the callee scope on a new null cell owned by
     * that scope, which takes the argument's value (BindParam).
     */
    method BindOne(local: CtxId, callee: CtxId, name: string, arg: Expr, fuel: nat)
        returns (res: Result<()>, ghost a: RefId, ghost evaluated: Store)
      requires Valid() && local in heap.st.ctxs && callee in heap.st.ctxs && callee != staticCtx
      modifies this, heap
      ensures old(reqExit) ==> reqExit
      ensures Valid() && Evolves(old(heap.st), heap.st, {staticCtx, callee})
      ensures Contexts.Binds(old(heap.st.ctxs[callee].collection), name) ==> res.Err?
      ensures res.Ok? ==> Names(heap.st.ctxs[callee].collection) == Names(old(heap.st.ctxs[callee].collection)) + [name]
      ensures res.Ok? ==> BoundLast(evaluated, heap.st, callee, name, a)
      decreases fuel, 1
    {
      ghost var s0 := heap.st;
      ghost var E := {staticCtx, callee};
      var ar := GetValue(local, arg, true, fuel);
      EvolvesWiden(s0, heap.st, {staticCtx}, E);
      a, evaluated := 0, heap.st;
      if ar.Err? {
        return Err(ar.error), a, evaluated;
      }
      a := ar.value;
      ghost var s1 := heap.st;
      assert Names(s1.ctxs[callee].collection) == Names(s0.ctxs[callee].collection);
      if Contexts.Binds(s0.ctxs[callee].collection, name) {
        BindsPrefix(s0.ctxs[callee].collection, s1.ctxs[callee].collection, name);
      }
      res := BindParam(heap, callee, name, ar.value, depth);
      EvolvesWiden(s1, heap.st, {callee}, E);
      EvolvesTrans(s0, s1, heap.st, E);
    }

    // -------------------------------------------------------------------
    // execute
    // -------------------------------------------------------------------

    /**
     * execute: the statements run in order until one stops the block or
     * req_exit is set (Stopped); at the escape label the frame's own body
     * (top: the C++ pointer comparison of the block with the frame's
     * instructions) marks the frame finished. The result is the block's
     * return value: a new null root, unless a nested block that finished
     * the frame handed its own up.
     */
    method Execute(frame: Frame, instructions: seq<Stmt>, top: bool, fuel: nat)
        returns (res: Result<RefId>, ghost flows: seq<Flow>, ghost exits: seq<bool>, ghost blank: RefId, ghost made: Store,
                 ghost v: RefId, ghost evaluated: Store)
      requires Valid() && frame.context in heap.st.ctxs
      modifies this, heap, frame
      ensures old(reqExit) ==> reqExit
      ensures Valid() && Evolves(old(heap.st), heap.st, {staticCtx, frame.context})
      ensures old(frame.isFinished) ==> frame.isFinished
      ensures fuel == 0 ==> res == Err(FuelExhausted)
      ensures fuel > 0 ==> FreshHolder(old(heap.st), made, blank, Null) && OnlyAdds(old(heap.st), made)
      ensures res.Ok? ==> res.value in heap.st.refs
      ensures res.Ok? ==>
        res.value == if flows != [] && flows[|flows| - 1].StopWith? then flows[|flows| - 1].ret else blank
      ensures res.Ok? && top ==> frame.isFinished
      ensures res.Ok? ==> Stopped(flows, exits, |instructions|) && (exits != [] ==> exits[|exits| - 1] == reqExit)
      ensures res.Ok? && !top && !old(frame.isFinished) && frame.isFinished ==> flows != [] && flows[|flows| - 1] != Next
      ensures res.Ok? && flows != [] && instructions[|flows| - 1].Return? && instructions[|flows| - 1].result.Some? ==>
        res.value == blank && blank in evaluated.refs && v in evaluated.refs && TakesValue(evaluated, heap.st, blank, v)
      decreases fuel, 0
    {
      ghost var s0 := heap.st;
      ghost var E := {staticCtx, frame.context};
      flows, exits, blank, made, v, evaluated := [], [], 0, heap.st, 0, heap.st;
      if fuel == 0 {
        EvolvesRefl(s0, E);
        return Err(FuelExhausted), flows, exits, blank, made, v, evaluated;
      }
      var ret := NewRoot(heap, Null, None);
      blank, made := ret, heap.st;
      AddsEvolve(s0, heap.st);
      EvolvesWiden(s0, heap.st, {}, E);
      var k := 0;
      var stop := false;
      while k < |instructions| && !stop
        invariant old(reqExit) ==> reqExit
        invariant k <= |instructions| && |flows| == k && |exits| == k && Valid() && frame.context in heap.st.ctxs
        invariant Evolves(s0, heap.st, E)
        invariant old(frame.isFinished) ==> frame.isFinished
        invariant ret in heap.st.refs
        invariant ret == if flows != [] && flows[k - 1].StopWith? then flows[k - 1].ret else blank
        invariant forall j :: 0 <= j < k ==> instructions[j].Return? ==> flows[j] == Stop
        invariant !stop ==> forall j :: 0 <= j < k ==> flows[j] == Next && !exits[j]
        invariant !stop && !old(frame.isFinished) ==> !frame.isFinished
        invariant k > 0 ==> exits[k - 1] == reqExit
        invariant stop ==> k > 0 && Stopped(flows, exits, |instructions|)
        invariant stop && !old(frame.isFinished) && frame.isFinished ==> flows[k - 1] != Next
        invariant stop && instructions[k - 1].Return? && instructions[k - 1].result.Some? ==>
          blank in evaluated.refs && v in evaluated.refs && TakesValue(evaluated, heap.st, blank, v)
      {
        ghost var s1 := heap.st;
        var fr;
        ghost var v1, evaluated1;
        fr, v1, evaluated1 := ExecStmt(frame, instructions[k], ret, fuel - 1);
        EvolvesTrans(s0, s1, heap.st, E);
        if fr.Err? {
          return Err(fr.error), flows, exits, blank, made, v, evaluated;
        }
        var f := fr.value;
        flows, exits := flows + [f], exits + [reqExit];
        if instructions[k].Return? && instructions[k].result.Some? {
          v, evaluated := v1, evaluated1;
        }
        k := k + 1;
        if f.StopWith? {
          ret := f.ret;
        }
        stop := f != Next || reqExit;
      }
      if top {
        frame.isFinished := true;
      }
      res := Ok(ret);
    }

    /** One statement of execute's switch, with ret the block's return value. */
    method ExecStmt(frame: Frame, s: Stmt, ret: RefId, fuel: nat) returns (res: Result<Flow>, ghost v: RefId, ghost evaluated: Store)
      requires Valid() && frame.context in heap.st.ctxs && ret in heap.st.refs
      modifies this, heap, frame
      ensures old(reqExit) ==> reqExit
      ensures Valid() && Evolves(old(heap.st), heap.st, {staticCtx, frame.context})
      ensures old(frame.isFinished) ==> frame.isFinished
      ensures res.Ok? && res.value.StopWith? ==> res.value.ret in heap.st.refs && frame.isFinished
      ensures s.Break? ==> res == Ok(Stop) && frame.reqBreak && heap.st == old(heap.st)
      ensures s.Return? && s.result.None? ==> res == Ok(Stop) && heap.st == old(heap.st)
      ensures s.Return? && s.result.Some? ==> frame.isFinished && (res.Ok? ==> res.value == Stop)
      ensures s.Return? && s.result.Some? && res.Ok? ==> ret in evaluated.refs && v in evaluated.refs && TakesValue(evaluated, heap.st, ret, v)
      ensures res == Ok(Next) && !old(frame.isFinished) ==> !frame.isFinished
      ensures s.SetVariable? || s.CallStatement? || s.UnaryStatement? ==> res.Ok? ==> res.value == Next
      ensures s.FunctionProto? ==>
        && (res.Err? <==> s.name in old(functions))
        && (res.Err? ==> res.error == FunctionAlreadyDefined)
        && (res.Ok? ==> res.value == Next && functions == old(functions)[s.name := Function(s.params, s.body)])
      ensures s.StructProto? ==>
        && (res.Err? <==> s.name in old(structs))
        && (res.Err? ==> res.error == StructAlreadyDefined)
        && (res.Ok? ==> res.value == Next && structs == old(structs)[s.name := s.properties])
      ensures s.OtherStmt? ==> res == Err(UnexpectedTok)
      ensures (s.While? || s.For?) && res.Ok? && res.value != Next ==> reqExit || frame.isFinished
      decreases fuel, 7
    {
      ghost var s0 := heap.st;
      ghost var E := {staticCtx, frame.context};
      EvolvesRefl(s0, E);
      v, evaluated := 0, heap.st;
      match s
      case SetVariable(name, mods, isGlobal, value) =>
        ghost var target, declared, w, stored;
        res, target, declared, w, stored := ExecSet(frame, name, mods, isGlobal, value, fuel);
      case Return(result) =>
        if result.None? {
          return Ok(Stop), v, evaluated;
        }
        res, v, evaluated := ExecReturn(frame, result.value, ret, fuel);
      case Break =>
        frame.reqBreak := true;
        res := Ok(Stop);
      case If(chain) =>
        ghost var taken, tests;
        res, taken, tests := ExecIf(frame, chain, fuel);
      case While(condition, body) =>
        ghost var flags;
        res, flags := ExecWhile(frame, condition, body, fuel);
      case For(name, over, body) =>
        ghost var t, it, entry, broke, starts, items, bounds, flags;
        res, t, it, entry, broke, starts, items, bounds, flags := ExecFor(frame, name, over, body, fuel);
      case CallStatement(name, args) =>
        res := ExecExpr(frame.context, CallFunction(name, args), fuel);
      case UnaryStatement(op, operand) =>
        res := ExecExpr(frame.context, UnaryOp(op, operand), fuel);
      case FunctionProto(name, params, body) =>
        res := DefineFunction(name, Function(params, body));
      case StructProto(name, properties) =>
        res := DefineStruct(name, properties);
      case OtherStmt =>
        res := Err(UnexpectedTok);
    }

    /** A call or unary operation as a statement: getValue without force; the result is dropped. */
    method ExecExpr(local: CtxId, e: Expr, fuel: nat) returns (res: Result<Flow>)
      requires Valid() && local in heap.st.ctxs
      modifies this, heap
      ensures old(reqExit) ==> reqExit
      ensures Valid() && Evolves(old(heap.st), heap.st, {staticCtx, local})
      ensures res.Ok? ==> res.value == Next
      decreases fuel, 1
    {
      ghost var s0 := heap.st;
      var r := GetValue(local, e, false, fuel);
      EvolvesWiden(s0, heap.st, {staticCtx}, {staticCtx, local});
      if r.Err? {
        return Err(r.error);
      }
      res := Ok(Next);
    }

    /**
     * TOK_SET_VARIABLE: the target is found or declared (SetTarget), then
     * the value is evaluated without force and the target takes it
     * (AssignFrom). A bare name ends up bound in one of the two scopes.
     */
    method ExecSet(frame: Frame, name: string, mods: seq<Modifier>, isGlobal: bool, value: Expr, fuel: nat)
        returns (res: Result<Flow>, ghost target: RefId, ghost declared: Store, ghost v: RefId, ghost evaluated: Store)
      requires Valid() && frame.context in heap.st.ctxs
      modifies this, heap
      ensures old(reqExit) ==> reqExit
      ensures Valid() && Evolves(old(heap.st), heap.st, {staticCtx, frame.context})
      ensures res.Ok? ==> res.value == Next
      ensures res.Ok? && mods == [] ==>
        Contexts.Binds(heap.st.ctxs[frame.context].collection, name) || Contexts.Binds(heap.st.ctxs[staticCtx].collection, name)
      ensures res.Ok? && mods == [] && Resolve(old(heap.st), frame.context, staticCtx, name).Ok? ==>
        declared == old(heap.st) && Resolve(old(heap.st), frame.context, staticCtx, name) == Ok(target)
      ensures res.Ok? && mods == [] && Resolve(old(heap.st), frame.context, staticCtx, name).Err? ==>
        DeclaredIn(old(heap.st), declared, frame.context, staticCtx, isGlobal, name, target)
      ensures res.Ok? ==> target in evaluated.refs && v in evaluated.refs && TakesValue(evaluated, heap.st, target, v)
      decreases fuel, 4
    {
      var local := frame.context;
      ghost var s0 := heap.st;
      ghost var E := {staticCtx, local};
      target, declared, v, evaluated := 0, heap.st, 0, heap.st;
      var tr := SetTarget(local, name, mods, isGlobal, fuel);
      if tr.Err? {
        return Err(tr.error), target, declared, v, evaluated;
      }
      ghost var s1 := heap.st;
      target, declared := tr.value, heap.st;
      if mods == [] {
        ResolvedBinds(s1, local, staticCtx, name);
      }
      var ar;
      ar, v, evaluated := AssignFrom(local, tr.value, value, fuel);
      EvolvesTrans(s0, s1, heap.st, E);
      if ar.Err? {
        return Err(ar.error), target, declared, v, evaluated;
      }
      if mods == [] {
        BindsKept(s1, heap.st, local, staticCtx, name, E);
      }
      res := Ok(Next);
    }

    /**
     * The target of TOK_SET_VARIABLE: a bare name bound in neither scope is
     * declared (in the static scope when marked global, else locally) on a
     * new unowned null root; otherwise it is found with getVarPtr. A bare
     * name then resolves to the target.
     */
    method SetTarget(local: CtxId, name: string, mods: seq<Modifier>, isGlobal: bool, fuel: nat) returns (res: Result<RefId>)
      requires Valid() && local in heap.st.ctxs
      modifies this, heap
      ensures old(reqExit) ==> reqExit
      ensures Valid() && Evolves(old(heap.st), heap.st, {staticCtx, local})
      ensures res.Ok? ==> res.value in heap.st.refs
      ensures mods == [] ==> res.Ok? && res == Resolve(heap.st, local, staticCtx, name)
      ensures mods == [] && Resolve(old(heap.st), local, staticCtx, name).Ok? ==> heap.st == old(heap.st)
      ensures mods == [] && Resolve(old(heap.st), local, staticCtx, name).Err? ==>
        res.Ok? && DeclaredIn(old(heap.st), heap.st, local, staticCtx, isGlobal, name, res.value)
      decreases fuel, 3
    {
      ghost var s0 := heap.st;
      ghost var E := {staticCtx, local};
      var declare := false;
      if mods == [] {
        var inLocal := Contexts.HasVal(heap.st.ctxs[local], name);
        var inStatic := Contexts.HasVal(heap.st.ctxs[staticCtx], name);
        declare := !inLocal && !inStatic;
      }
      if declare {
        var scope := if isGlobal then staticCtx else local;
        var r := DeclareTarget(heap, scope, name);
        EvolvesWiden(s0, heap.st, {scope}, E);
        DeclareResolves(s0, heap.st, local, staticCtx, scope, name, r);
        res := Ok(r);
      } else {
        res := GetVarPtr(local, name, mods, fuel);
        EvolvesWiden(s0, heap.st, {staticCtx}, E);
      }
    }

    /**
     * The value of TOK_SET_VARIABLE: evaluated without force; the target
     * takes it (AssignVariable).
     */
    method AssignFrom(local: CtxId, target: RefId, value: Expr, fuel: nat)
        returns (res: Result<()>, ghost v: RefId, ghost s1: Store)
      requires Valid() && local in heap.st.ctxs && target in heap.st.refs
      modifies this, heap
      ensures old(reqExit) ==> reqExit
      ensures Valid() && Evolves(old(heap.st), heap.st, {staticCtx, local})
      ensures res.Ok? ==> target in s1.refs && v in s1.refs && TakesValue(s1, heap.st, target, v)
      decreases fuel, 1
    {
      ghost var s0 := heap.st;
      ghost var E := {staticCtx, local};
      v, s1 := 0, heap.st;
      var vr := GetValue(local, value, false, fuel);
      EvolvesWiden(s0, heap.st, {staticCtx}, E);
      if vr.Err? {
        return Err(vr.error), v, s1;
      }
      v, s1 := vr.value, heap.st;
      res := AssignVariable(heap, target, vr.value, local, depth);
      EvolvesWiden(s1, heap.st, {}, E);
      EvolvesTrans(s0, s1, heap.st, E);
    }

    /**
     * TOK_RETURN with a value: the frame is marked finished first; the
     * value is evaluated without force and the block's return value takes
     * it (AssignReturn).
     */
    method ExecReturn(frame: Frame, e: Expr, ret: RefId, fuel: nat) returns (res: Result<Flow>, ghost v: RefId, ghost evaluated: Store)
      requires Valid() && frame.context in heap.st.ctxs && ret in heap.st.refs
      modifies this, heap, frame
      ensures old(reqExit) ==> reqExit
      ensures Valid() && Evolves(old(heap.st), heap.st, {staticCtx, frame.context})
      ensures frame.reqBreak == old(frame.reqBreak)
      ensures frame.isFinished && (res.Ok? ==> res.value == Stop)
      ensures res.Ok? ==> ret in evaluated.refs && v in evaluated.refs && TakesValue(evaluated, heap.st, ret, v)
      decreases fuel, 1
    {
      ghost var s0 := heap.st;
      ghost var E := {staticCtx, frame.context};
      frame.isFinished := true;
      var vr := GetValue(frame.context, e, false, fuel);
      EvolvesWiden(s0, heap.st, {staticCtx}, E);
      v, evaluated := 0, heap.st;
      if vr.Err? {
        return Err(vr.error), v, evaluated;
      }
      v := vr.value;
      ghost var s1 := heap.st;
      var ar := AssignReturn(heap, ret, vr.value);
      EvolvesWiden(s1, heap.st, {}, E);
      EvolvesTrans(s0, s1, heap.st, E);
      if ar.Err? {
        return Err(ar.error), v, evaluated;
      }
      res := Ok(Stop);
    }

    /**
     * The condition of an if link or a while loop: evaluated without force
     * and read as a double. A value of any other type is read through the
     * wrong pointer type: undefined behaviour.
     */
    method Condition(local: CtxId, e: Expr, fuel: nat) returns (res: Result<int>, ghost read: ValId)
      requires Valid() && local in heap.st.ctxs
      modifies this, heap
      ensures old(reqExit) ==> reqExit
      ensures Valid() && Evolves(old(heap.st), heap.st, {staticCtx, local})
      ensures res.Ok? ==> read in heap.st.vals && heap.st.vals[read] == Number(res.value)
      decreases fuel, 1
    {
      ghost var s0 := heap.st;
      read := 0;
      var vr := GetValue(local, e, false, fuel);
      EvolvesWiden(s0, heap.st, {staticCtx}, {staticCtx, local});
      if vr.Err? {
        return Err(vr.error), read;
      }
      var v := vr.value;
      var xr := heap.GetVarPtr(v);
      if xr.Err? {
        return Err(xr.error), read;
      }
      var x := xr.value;
      read := x;
      if !heap.st.vals[x].Number? {
        return Err(UndefinedBehaviour), read;
      }
      res := Ok(heap.st.vals[x].n);
    }

    /**
     * TOK_IF: the links are tried in order (FirstTaken). An else link runs
     * its block and ends the chain; it stops the enclosing block only when
     * the frame finished, not on break. A link whose condition reads
     * non-zero runs its block and ends the chain as AfterBlock says (RunTaken).
     */
    method ExecIf(frame: Frame, chain: seq<Conditional>, fuel: nat)
        returns (res: Result<Flow>, ghost taken: Option<nat>, ghost tests: seq<int>)
      requires Valid() && frame.context in heap.st.ctxs
      modifies this, heap, frame
      ensures old(reqExit) ==> reqExit
      ensures Valid() && Evolves(old(heap.st), heap.st, {staticCtx, frame.context})
      ensures old(frame.isFinished) ==> frame.isFinished
      ensures res.Ok? ==> FirstTaken(chain, taken, tests)
      ensures res.Ok? && res.value.StopWith? ==> res.value.ret in heap.st.refs && frame.isFinished
      ensures res == Ok(Stop) ==> reqExit || frame.reqBreak
      ensures res.Ok? && taken.Some? && chain[taken.value].condition.None? ==> res.value != Stop
      ensures res.Ok? && taken.Some? && chain[taken.value].condition.None? ==> (frame.isFinished <==> res.value.StopWith?)
      ensures res.Ok? && taken.Some? && chain[taken.value].condition.Some? ==>
        && (reqExit ==> res.value == Stop)
        && (!reqExit && frame.isFinished ==> res.value.StopWith?)
        && (!reqExit && !frame.isFinished && frame.reqBreak ==> res.value == Stop)
        && (!reqExit && !frame.isFinished && !frame.reqBreak ==> res.value == Next)
      ensures res.Ok? && taken.None? ==> res.value == Next
      ensures res == Ok(Next) && !old(frame.isFinished) ==> !frame.isFinished
      decreases fuel, 3
    {
      ghost var s0 := heap.st;
      ghost var E := {staticCtx, frame.context};
      EvolvesRefl(s0, E);
      taken, tests := None, [];
      var k := 0;
      while k < |chain|
        invariant old(reqExit) ==> reqExit
        invariant k <= |chain| && |tests| == k && Valid() && frame.context in heap.st.ctxs
        invariant Evolves(s0, heap.st, E)
        invariant frame.isFinished == old(frame.isFinished)
        invariant forall j :: 0 <= j < k ==> chain[j].condition.Some? && tests[j] == 0
      {
        var link := chain[k];
        ghost var s1 := heap.st;
        if link.condition.None? {
          ghost var p;
          res, p := RunElse(frame, link.body, fuel);
          EvolvesTrans(s0, s1, heap.st, E);
          taken := Some(k);
          return;
        }
        var cr, _ := Condition(frame.context, link.condition.value, fuel);
        EvolvesTrans(s0, s1, heap.st, E);
        if cr.Err? {
          return Err(cr.error), taken, tests;
        }
        tests := tests + [cr.value];
        if cr.value != 0 {
          ghost var s2 := heap.st;
          ghost var p;
          res, p := RunTaken(frame, link.body, fuel);
          EvolvesTrans(s0, s2, heap.st, E);
          taken := Some(k);
          return;
        }
        k := k + 1;
      }
      res := Ok(Next);
    }

    /**
     * The else link of an if-chain: its block runs; a finished frame stops
     * the enclosing block handing up the block's return value, anything
     * else lets it go on.
     */
    method RunElse(frame: Frame, body: seq<Stmt>, fuel: nat) returns (res: Result<Flow>, ghost p: RefId)
      requires Valid() && frame.context in heap.st.ctxs
      modifies this, heap, frame
      ensures old(reqExit) ==> reqExit
      ensures Valid() && Evolves(old(heap.st), heap.st, {staticCtx, frame.context})
      ensures old(frame.isFinished) ==> frame.isFinished
      ensures res.Ok? ==> res.value != Stop
      ensures res.Ok? && res.value.StopWith? ==> res.value.ret in heap.st.refs && frame.isFinished
      ensures res.Ok? && !frame.isFinished ==> res.value == Next
      ensures res.Ok? && frame.isFinished ==> res.value == StopWith(p)
      decreases fuel, 2
    {
      var pr, _, _, _, _, _, _ := Execute(frame, body, false, fuel);
      p := 0;
      if pr.Err? {
        return Err(pr.error), p;
      }
      p := pr.value;
      if frame.isFinished {
        return Ok(StopWith(pr.value)), p;
      }
      res := Ok(Next);
    }

    /** A taken if link: its block runs, then AfterBlock decides. */
    method RunTaken(frame: Frame, body: seq<Stmt>, fuel: nat) returns (res: Result<Flow>, ghost p: RefId)
      requires Valid() && frame.context in heap.st.ctxs
      modifies this, heap, frame
      ensures old(reqExit) ==> reqExit
      ensures Valid() && Evolves(old(heap.st), heap.st, {staticCtx, frame.context})
      ensures old(frame.isFinished) ==> frame.isFinished
      ensures res.Ok? && res.value.StopWith? ==> res.value.ret in heap.st.refs && frame.isFinished
      ensures res == Ok(Stop) ==> reqExit || frame.reqBreak
      ensures res.Ok? && reqExit ==> res.value == Stop
      ensures res.Ok? && !reqExit && frame.isFinished ==> res.value == StopWith(p)
      ensures res.Ok? && !reqExit && !frame.isFinished && frame.reqBreak ==> res.value == Stop
      ensures res.Ok? && !reqExit && !frame.isFinished && !frame.reqBreak ==> res.value == Next
      decreases fuel, 2
    {
      var pr, _, _, _, _, _, _ := Execute(frame, body, false, fuel);
      p := 0;
      if pr.Err? {
        return Err(pr.error), p;
      }
      p := pr.value;
      res := AfterBlock(frame, pr.value);
    }

    /**
     * What a taken if link does once its block ran: req_exit stops the
     * enclosing block, a finished frame stops it handing up the block's
     * return value, a break stops it (Stop); otherwise it goes on.
     */
    method AfterBlock(frame: Frame, p: RefId) returns (res: Result<Flow>)
      ensures res.Ok?
      ensures reqExit ==> res.value == Stop
      ensures !reqExit && frame.isFinished ==> res.value == StopWith(p)
      ensures !reqExit && !frame.isFinished && frame.reqBreak ==> res.value == Stop
      ensures !reqExit && !frame.isFinished && !frame.reqBreak ==> res.value == Next
    {
      if reqExit {
        return Ok(Stop);
      }
      if frame.isFinished {
        return Ok(StopWith(p));
      }
      if frame.reqBreak {
        return Ok(Stop);
      }
      res := Ok(Next);
    }

    /**
     * One round of a while or for loop: the body runs; req_exit stops the
     * enclosing block, a finished frame stops it handing up the body's
     * return value, a break clears reqBreak and ends the loop (Some(Next));
     * otherwise the loop goes on (None).
     */
    method RunRound(frame: Frame, body: seq<Stmt>, fuel: nat) returns (res: Result<Option<Flow>>, ghost p: RefId, ghost broke: bool)
      requires Valid() && frame.context in heap.st.ctxs
      modifies this, heap, frame
      ensures old(reqExit) ==> reqExit
      ensures Valid() && Evolves(old(heap.st), heap.st, {staticCtx, frame.context})
      ensures old(frame.isFinished) ==> frame.isFinished
      ensures res.Ok? && res.value.Some? && res.value.value != Next ==> reqExit || frame.isFinished
      ensures res.Ok? && res.value.Some? && res.value.value.StopWith? ==> res.value.value.ret in heap.st.refs && frame.isFinished
      ensures res.Ok? && (res.value.None? || res.value == Some(Next)) ==> !frame.reqBreak
      ensures res.Ok? && reqExit ==> res.value == Some(Stop)
      ensures res.Ok? && !reqExit && frame.isFinished ==> res.value == Some(StopWith(p))
      ensures res.Ok? && !reqExit && !frame.isFinished && broke ==> res.value == Some(Next)
      ensures res.Ok? && !reqExit && !frame.isFinished && !broke ==> res.value == None
      decreases fuel, 2
    {
      var pr, _, _, _, _, _, _ := Execute(frame, body, false, fuel);
      p, broke := 0, frame.reqBreak;
      if pr.Err? {
        return Err(pr.error), p, broke;
      }
      p := pr.value;
      if reqExit {
        return Ok(Some(Stop)), p, broke;
      }
      if frame.isFinished {
        return Ok(Some(StopWith(pr.value))), p, broke;
      }
      if frame.reqBreak {
        frame.reqBreak := false;
        return Ok(Some(Next)), p, broke;
      }
      res := Ok(None);
    }

    /**
     * TOK_WHILE: while the condition reads non-zero the body runs
     * (RunRound). The model lets the loop run at most fuel rounds.
     */
    method ExecWhile(frame: Frame, condition: Expr, body: seq<Stmt>, fuel: nat) returns (res: Result<Flow>, ghost flags: seq<bool>)
      requires Valid() && frame.context in heap.st.ctxs
      modifies this, heap, frame
      ensures old(reqExit) ==> reqExit
      ensures Valid() && Evolves(old(heap.st), heap.st, {staticCtx, frame.context})
      ensures old(frame.isFinished) ==> frame.isFinished
      ensures res.Ok? && res.value != Next ==> reqExit || frame.isFinished
      ensures res.Ok? && res.value.StopWith? ==> res.value.ret in heap.st.refs && frame.isFinished
      ensures res == Ok(Next) && !old(frame.reqBreak) ==> !frame.reqBreak
      ensures FlagsStop(flags, res)
      ensures res == Ok(Next) && !old(frame.isFinished) ==> !frame.isFinished
      decreases fuel, 3
    {
      ghost var s0 := heap.st;
      ghost var E := {staticCtx, frame.context};
      EvolvesRefl(s0, E);
      flags := [];
      var rounds: nat := fuel;
      while true
        invariant old(reqExit) ==> reqExit
        invariant Valid() && frame.context in heap.st.ctxs && Evolves(s0, heap.st, E)
        invariant old(frame.isFinished) ==> frame.isFinished
        invariant !old(frame.reqBreak) ==> !frame.reqBreak
        invariant !old(frame.isFinished) ==> !frame.isFinished
        invariant forall k :: 0 <= k < |flags| ==> !flags[k]
        decreases rounds
      {
        if rounds == 0 {
          return Err(FuelExhausted), flags;
        }
        ghost var s1 := heap.st;
        var cr, _ := Condition(frame.context, condition, fuel);
        EvolvesTrans(s0, s1, heap.st, E);
        if cr.Err? {
          return Err(cr.error), flags;
        }
        if cr.value == 0 {
          break;
        }
        ghost var s2 := heap.st;
        var r;
        ghost var p, broke;
        r, p, broke := RunRound(frame, body, fuel);
        EvolvesTrans(s0, s2, heap.st, E);
        if r.Err? {
          return Err(r.error), flags;
        }
        flags := flags + [reqExit || frame.isFinished];
        if r.value.Some? {
          return Ok(r.value.value), flags;
        }
        rounds := rounds - 1;
      }
      res := Ok(Next);
    }

    /**
     * TOK_FOR: the iterated expression is evaluated without force into the
     * temporary t and the iterator is declared in the frame's scope on a
     * new cell it owned by that scope (DeclareOwned); then the loop runs
     * (ForLoop) from the store entry. The rounds are those of ForLoop.
     */
    method ExecFor(frame: Frame, name: string, over: Expr, body: seq<Stmt>, fuel: nat)
        returns (res: Result<Flow>, ghost t: RefId, ghost it: RefId, ghost entry: Store,
                 ghost broke: bool, ghost starts: seq<Store>, ghost items: seq<RefId>, ghost bounds: seq<Store>,
                 ghost flags: seq<bool>)
      requires Valid() && frame.context in heap.st.ctxs
      modifies this, heap, frame
      ensures old(reqExit) ==> reqExit
      ensures Valid() && Evolves(old(heap.st), heap.st, {staticCtx, frame.context})
      ensures old(frame.isFinished) ==> frame.isFinished
      ensures res.Ok? && res.value != Next ==> reqExit || frame.isFinished
      ensures res.Ok? && res.value.StopWith? ==> res.value.ret in heap.st.refs && frame.isFinished
      ensures Contexts.Binds(old(heap.st.ctxs[frame.context].collection), name) ==> res.Err?
      ensures res == Ok(Next) ==> !Contexts.Binds(heap.st.ctxs[frame.context].collection, name)
      ensures RoundsBound(starts, bounds, t, it, items)
      ensures items != [] ==> starts[0] == entry
      ensures broke ==> res == Ok(Next) && items != []
      ensures res.Ok? ==>
        && it !in old(heap.st.refs) && it in entry.refs && entry.refs[it].parentContext == Some(frame.context)
        && RootValue(entry.refs, t).Ok? && RootValue(entry.refs, t).value in entry.vals
        && var limit := Length(entry.vals[RootValue(entry.refs, t).value]);
        && |items| <= limit
        && (res == Ok(Next) && !broke ==> |items| == limit)
      ensures |flags| == |items| && FlagsStop(flags, res)
      ensures res == Ok(Next) && !old(frame.isFinished) ==> !frame.isFinished
      decreases fuel, 6
    {
      var local := frame.context;
      ghost var s0 := heap.st;
      ghost var E := {staticCtx, local};
      broke, starts, items, bounds, flags := false, [], [], [], [];
      entry := heap.st;
      var tr := GetValue(local, over, false, fuel);
      EvolvesWiden(s0, heap.st, {staticCtx}, E);
      if tr.Err? {
        return Err(tr.error), 0, 0, entry, broke, starts, items, bounds, flags;
      }
      t := tr.value;
      ghost var s1 := heap.st;
      if Contexts.Binds(s0.ctxs[local].collection, name) {
        BindsKept(s0, s1, local, local, name, E);
      }
      var dr := DeclareOwned(heap, local, name);
      EvolvesWiden(s1, heap.st, {local}, E);
      EvolvesTrans(s0, s1, heap.st, E);
      if dr.Err? {
        return Err(dr.error), t, 0, entry, broke, starts, items, bounds, flags;
      }
      it := dr.value;
      entry := heap.st;
      res, broke, starts, items, bounds, flags := ForLoop(frame, name, tr.value, dr.value, body, fuel, s0, s1);
    }

    /**
     * The loop of TOK_FOR once t holds the iterated value and it is the
     * iterator, declared in the frame's scope after s1 (s0 is the store
     * the statement started from). The length of what t reads is read
     * once, on entry, and bounds the rounds (Rounds); when the loop runs
     * out or breaks, the iterator's binding is removed (RemoveIterator).
     */
    method ForLoop(frame: Frame, name: string, t: RefId, it: RefId, body: seq<Stmt>, fuel: nat, ghost s0: Store, ghost s1: Store)
        returns (res: Result<Flow>, ghost broke: bool, ghost starts: seq<Store>, ghost items: seq<RefId>, ghost bounds: seq<Store>,
                 ghost flags: seq<bool>)
      requires Valid() && frame.context in heap.st.ctxs && t in heap.st.refs && it in heap.st.refs
      requires frame.context in s1.ctxs && !Contexts.Binds(s1.ctxs[frame.context].collection, name)
      requires Names(heap.st.ctxs[frame.context].collection) == Names(s1.ctxs[frame.context].collection) + [name]
      requires Evolves(s0, s1, {staticCtx, frame.context}) && Evolves(s0, heap.st, {staticCtx, frame.context})
      modifies this, heap, frame
      ensures old(reqExit) ==> reqExit
      ensures Valid() && Evolves(s0, heap.st, {staticCtx, frame.context})
      ensures old(frame.isFinished) ==> frame.isFinished
      ensures res.Ok? && res.value != Next ==> reqExit || frame.isFinished
      ensures res.Ok? && res.value.StopWith? ==> res.value.ret in heap.st.refs && frame.isFinished
      ensures res == Ok(Next) ==> frame.context in heap.st.ctxs && !Contexts.Binds(heap.st.ctxs[frame.context].collection, name)
      ensures RootValue(old(heap.st.refs), t).Err? ==> res == Err(Diverges)
      ensures RoundsBound(starts, bounds, t, it, items)
      ensures items != [] ==> starts[0] == old(heap.st)
      ensures broke ==> res == Ok(Next) && items != []
      ensures res.Ok? && res.value != Next ==> items != []
      ensures RootValue(old(heap.st.refs), t).Ok? ==>
        RootValue(old(heap.st.refs), t).value in old(heap.st.vals) &&
        var limit := Length(old(heap.st.vals)[RootValue(old(heap.st.refs), t).value]);
        && |items| <= limit
        && (res == Ok(Next) && !broke ==> |items| == limit)
      ensures |flags| == |items| && FlagsStop(flags, res)
      ensures res == Ok(Next) && !old(frame.isFinished) ==> !frame.isFinished
      decreases fuel, 5
    {
      var local := frame.context;
      ghost var E := {staticCtx, local};
      ghost var s2 := heap.st;
      broke, starts, items, bounds, flags := false, [], [], [], [];
      var tvr := heap.GetVarPtr(t);
      if tvr.Err? {
        return Err(tvr.error), broke, starts, items, bounds, flags;
      }
      var limit := Length(heap.st.vals[tvr.value]);
      res, broke, starts, items, bounds, flags := Rounds(frame, t, it, limit, body, fuel);
      if res != Ok(Next) {
        return;
      }
      ghost var s5 := heap.st;
      EvolvesTrans(s0, s2, s5, E);
      assert Names(s2.ctxs[local].collection) <= Names(s5.ctxs[local].collection);
      RemoveIterator(heap, local, name, s1, s2);
      RemovedEvolves(s0, s1, s5, heap.st, local, E);
    }

    /**
     * The rounds of the for loop, limit of them at most: round k binds the
     * iterator it to slot k of what t reads when the round starts
     * (ForRound) and runs the body. starts, items and bounds record, round
     * by round, the store it started from, the slot and the store once the
     * iterator was bound (RoundBound). Every round runs unless one breaks
     * (broke), stops the block or fails.
     */
    method Rounds(frame: Frame, t: RefId, it: RefId, limit: nat, body: seq<Stmt>, fuel: nat)
        returns (res: Result<Flow>, ghost broke: bool, ghost starts: seq<Store>, ghost items: seq<RefId>, ghost bounds: seq<Store>,
                 ghost flags: seq<bool>)
      requires Valid() && frame.context in heap.st.ctxs && t in heap.st.refs && it in heap.st.refs
      modifies this, heap, frame
      ensures old(reqExit) ==> reqExit
      ensures Valid() && Evolves(old(heap.st), heap.st, {staticCtx, frame.context})
      ensures frame.context in heap.st.ctxs
      ensures old(frame.isFinished) ==> frame.isFinished
      ensures res.Ok? && res.value != Next ==> reqExit || frame.isFinished
      ensures res.Ok? && res.value.StopWith? ==> res.value.ret in heap.st.refs && frame.isFinished
      ensures RoundsBound(starts, bounds, t, it, items)
      ensures items != [] ==> starts[0] == old(heap.st)
      ensures broke ==> res == Ok(Next) && items != []
      ensures res.Ok? && res.value != Next ==> items != []
      ensures |items| <= limit
      ensures res == Ok(Next) && !broke ==> |items| == limit
      ensures |flags| == |items| && FlagsStop(flags, res)
      ensures res == Ok(Next) && !old(frame.isFinished) ==> !frame.isFinished
      decreases fuel, 4
    {
      var local := frame.context;
      ghost var E := {staticCtx, local};
      ghost var s2 := heap.st;
      EvolvesRefl(s2, E);
      broke, starts, items, bounds, flags := false, [], [], [], [];
      var i := 0;
      while i < limit
        invariant old(reqExit) ==> reqExit
        invariant Valid() && local in heap.st.ctxs && t in heap.st.refs && it in heap.st.refs
        invariant Evolves(s2, heap.st, E)
        invariant old(frame.isFinished) ==> frame.isFinished
        invariant i <= limit && i == |items| && !broke
        invariant RoundsBound(starts, bounds, t, it, items)
        invariant items != [] ==> starts[0] == s2
        invariant items == [] ==> heap.st == s2 && frame.isFinished == old(frame.isFinished)
        invariant items != [] ==> !frame.isFinished
        invariant |flags| == |items| && forall k :: 0 <= k < |flags| ==> !flags[k]
      {
        ghost var s3 := heap.st;
        var r, item, bound := ForRound(frame, t, it, i, body, fuel);
        EvolvesTrans(s2, s3, heap.st, E);
        if r.Err? {
          return Err(r.error), broke, starts, items, bounds, flags;
        }
        RoundsSnoc(starts, bounds, t, it, items, s3, bound, item);
        starts, items, bounds := starts + [s3], items + [item], bounds + [bound];
        flags := flags + [reqExit || frame.isFinished];
        if r.value.Some? {
          if r.value.value != Next {
            return Ok(r.value.value), broke, starts, items, bounds, flags;
          }
          broke := true;
          break;
        }
        i := i + 1;
      }
      res := Ok(Next);
    }

    /**
     * One round of the for loop: the iterator is bound to slot i of what
     * t reads now (IterateOnce, BindIterator), which gives the store bound,
     * then the body runs (RunRound). A slot iterate refuses ends the loop
     * with iterate's error and nothing changed.
     */
    method ForRound(frame: Frame, t: RefId, it: RefId, i: nat, body: seq<Stmt>, fuel: nat)
        returns (res: Result<Option<Flow>>, ghost item: RefId, ghost bound: Store)
      requires Valid() && frame.context in heap.st.ctxs && t in heap.st.refs && it in heap.st.refs
      modifies this, heap, frame
      ensures old(reqExit) ==> reqExit
      ensures Valid() && Evolves(old(heap.st), heap.st, {staticCtx, frame.context})
      ensures t in heap.st.refs && it in heap.st.refs
      ensures old(frame.isFinished) ==> frame.isFinished
      ensures res.Ok? && res.value.Some? && res.value.value != Next ==> reqExit || frame.isFinished
      ensures res.Ok? && res.value.Some? && res.value.value.StopWith? ==> res.value.value.ret in heap.st.refs && frame.isFinished
      ensures RootValue(old(heap.st.refs), t).Err? ==> res == Err(Diverges) && heap.st == old(heap.st)
      ensures RootValue(old(heap.st.refs), t).Ok? ==>
        RootValue(old(heap.st.refs), t).value in old(heap.st.vals) &&
        var slot := Iterate(old(heap.st.vals)[RootValue(old(heap.st.refs), t).value], i);
        slot.Err? ==> res == Err(slot.error) && heap.st == old(heap.st)
      ensures res.Ok? ==> RoundBound(old(heap.st), bound, t, it, i, item)
      ensures res.Ok? && (reqExit || frame.isFinished) ==> res.value.Some? && res.value.value != Next
      ensures res.Ok? && (res.value.None? || res.value == Some(Next)) ==> !reqExit && !frame.isFinished
      decreases fuel, 3
    {
      ghost var s0 := heap.st;
      ghost var E := {staticCtx, frame.context};
      bound := heap.st;
      var itemr := IterateOnce(t, i);
      if itemr.Err? {
        EvolvesRefl(s0, E);
        return Err(itemr.error), 0, bound;
      }
      item := itemr.value;
      var br := BindIterator(heap, it, itemr.value);
      EvolvesWiden(s0, heap.st, {}, E);
      if br.Err? {
        return Err(br.error), item, bound;
      }
      bound := heap.st;
      ghost var s1 := heap.st;
      ghost var p, broke;
      res, p, broke := RunRound(frame, body, fuel);
      EvolvesTrans(s0, s1, heap.st, E);
    }
  }
}
