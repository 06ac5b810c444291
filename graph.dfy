/**
 * Specifications of the runtime's walks over the value graph: comparison
 * (value::compare, value_array::compare), the element type check
 * (value_array::checktype) and the set of cells and scopes that
 * replaceNullContext visits. Each recursion takes a depth bound: the C++
 * code recurses without one and never returns on a value that contains
 * itself (an array stored in one of its own slots), which the bound reports
 * as Diverges.
 */
module Graph {
  import opened Errors
  import opened Objects
  import opened Chains

  // ---------------------------------------------------------------------
  // value::compare
  // ---------------------------------------------------------------------

  /**
   * value::compare with `this` = a and the argument = b. Values of different
   * types compare 1, chars and numbers by their difference, two nulls 0.
   * The struct case compares the argument's pointer with itself and so is
   * always 1. The array case calls value_array::compare on b's array with
   * a's array as argument: the operands are swapped.
   */
  function CompareSpec(st: Store, a: ValId, b: ValId, depth: nat): Result<int>
    decreases depth, 0, 0
  {
    if depth == 0 then Err(Diverges)
    else if a !in st.vals || b !in st.vals then Err(UndefinedBehaviour)
    else
      var va := st.vals[a];
      var vb := st.vals[b];
      if va.Type() != vb.Type() then Ok(1)
      else match va
        case Null => Ok(0)
        case Char(x) => Ok(x as int - vb.c as int)
        case Number(x) => Ok(x - vb.n)
        case Struct(_, _) => Ok(1)
        case Array(ea) => ArrayCompareSpec(st, vb.elems, ea, depth - 1)
  }

  /**
   * value_array::compare: self is `this`, other the argument. Sizes that
   * differ give this->size - array->size; otherwise the first nonzero
   * comparison of other's i-th element with self's i-th element, else 0.
   */
  function ArrayCompareSpec(st: Store, self: seq<RefId>, other: seq<RefId>, depth: nat): Result<int>
    decreases depth, 2, 0
  {
    if |other| != |self| then Ok(|self| - |other|)
    else ElemsCompare(st, self, other, 0, depth)
  }

  function ElemsCompare(st: Store, self: seq<RefId>, other: seq<RefId>, i: nat, depth: nat): Result<int>
    requires |self| == |other| && i <= |self|
    decreases depth, 1, |self| - i
  {
    if i == |self| then Ok(0)
    else
      var x :- RootValue(st.refs, other[i]);
      var y :- RootValue(st.refs, self[i]);
      var c :- CompareSpec(st, x, y, depth);
      if c != 0 then Ok(c) else ElemsCompare(st, self, other, i + 1, depth)
  }

  /** The values owned by the roots of x and y compare 0. */
  ghost predicate PairEqual(st: Store, x: RefId, y: RefId, depth: nat) {
    && RootValue(st.refs, x).Ok?
    && RootValue(st.refs, y).Ok?
    && CompareSpec(st, RootValue(st.refs, x).value, RootValue(st.refs, y).value, depth) == Ok(0)
  }

  lemma {:induction false} ElemsCompareZero(st: Store, self: seq<RefId>, other: seq<RefId>, i: nat, depth: nat)
    requires |self| == |other| && i <= |self|
    ensures ElemsCompare(st, self, other, i, depth) == Ok(0)
        <==> forall k :: i <= k < |self| ==> PairEqual(st, other[k], self[k], depth)
    decreases |self| - i
  {
    if i < |self| {
      ElemsCompareZero(st, self, other, i + 1, depth);
      if ElemsCompare(st, self, other, i, depth) == Ok(0) {
        assert PairEqual(st, other[i], self[i], depth);
      }
    }
  }

  /**
   * Two arrays compare 0 exactly when they have the same size and every
   * pair of elements at the same index compares 0.
   */
  lemma ArraysEqualIff(st: Store, a: ValId, b: ValId, depth: nat)
    requires depth > 0 && a in st.vals && b in st.vals
    requires st.vals[a].Array? && st.vals[b].Array?
    ensures var ea, eb := st.vals[a].elems, st.vals[b].elems;
      (CompareSpec(st, a, b, depth) == Ok(0)
       <==> |ea| == |eb| && forall k :: 0 <= k < |ea| ==> PairEqual(st, ea[k], eb[k], depth - 1))
  {
    var ea, eb := st.vals[a].elems, st.vals[b].elems;
    if |ea| == |eb| {
      ElemsCompareZero(st, eb, ea, 0, depth - 1);
    }
  }

  // ---------------------------------------------------------------------
  // value_array::checktype
  // ---------------------------------------------------------------------

  /** value_array::checktype from index i: false at the first element of another type. */
  function CheckTypeSpec(st: Store, elems: seq<RefId>, t: ValueType, i: nat): Result<bool>
    requires i <= |elems|
    decreases |elems| - i
  {
    if i == |elems| then Ok(true)
    else
      var x :- RootValue(st.refs, elems[i]);
      if x !in st.vals then Err(UndefinedBehaviour)
      else if st.vals[x].Type() != t then Ok(false)
      else CheckTypeSpec(st, elems, t, i + 1)
  }

  /** The root value of element k exists and has type t. */
  ghost predicate ElemHasType(st: Store, elems: seq<RefId>, k: nat, t: ValueType)
    requires k < |elems|
  {
    RootValue(st.refs, elems[k]).Ok?
    && RootValue(st.refs, elems[k]).value in st.vals
    && st.vals[RootValue(st.refs, elems[k]).value].Type() == t
  }

  /** checktype holds exactly when every element has the type. */
  lemma {:induction false} CheckTypeAll(st: Store, elems: seq<RefId>, t: ValueType, i: nat)
    requires i <= |elems|
    ensures CheckTypeSpec(st, elems, t, i) == Ok(true)
        <==> forall k :: i <= k < |elems| ==> ElemHasType(st, elems, k, t)
    decreases |elems| - i
  {
    if i < |elems| {
      CheckTypeAll(st, elems, t, i + 1);
      if CheckTypeSpec(st, elems, t, i) == Ok(true) {
        assert ElemHasType(st, elems, i, t);
      }
      if forall k :: i <= k < |elems| ==> ElemHasType(st, elems, k, t) {
        assert ElemHasType(st, elems, i, t);
      }
    }
  }

  // ---------------------------------------------------------------------
  // The cells and scopes replaceNullContext visits.
  // ---------------------------------------------------------------------

  datatype Footprint = Footprint(cells: set<RefId>, scopes: set<CtxId>)

  function Join(f: Footprint, g: Footprint): Footprint {
    Footprint(f.cells + g.cells, f.scopes + g.scopes)
  }

  /**
   * Starting at cell r: r itself and what lies inside the value its root
   * owns.
   */
  function Reach(st: Store, r: RefId, depth: nat): Result<Footprint>
    decreases depth, 1, 0
  {
    if r !in st.refs then Err(UndefinedBehaviour)
    else
      var v :- RootValue(st.refs, r);
      var f :- Inside(st, v, depth);
      Ok(Join(Footprint({r}, {}), f))
  }

  /**
   * Inside the value v: for an array, what its elements reach; for a
   * struct, its property scope and what its properties reach. Each level
   * of nesting takes one unit of depth.
   */
  function Inside(st: Store, v: ValId, depth: nat): Result<Footprint>
    decreases depth, 0, 0
  {
    if depth == 0 then Err(Diverges)
    else if v !in st.vals then Err(UndefinedBehaviour)
    else match st.vals[v]
      case Array(elems) => ReachAll(st, elems, depth - 1)
      case Struct(_, p) =>
        if p !in st.ctxs then Err(UndefinedBehaviour)
        else
          var f :- ReachAll(st, BoundRefs(st.ctxs[p].collection), depth - 1);
          Ok(Join(Footprint({}, {p}), f))
      case _ => Ok(Footprint({}, {}))
  }

  function ReachAll(st: Store, rs: seq<RefId>, depth: nat): Result<Footprint>
    decreases depth, 2, |rs|
  {
    if rs == [] then Ok(Footprint({}, {}))
    else
      var f :- ReachAll(st, rs[..|rs| - 1], depth);
      var g :- Reach(st, rs[|rs| - 1], depth);
      Ok(Join(f, g))
  }

  /** Give every cell and scope of fp that has no owner the owner c. */
  function FillNull(st: Store, fp: Footprint, c: CtxId): Store {
    Store(
      map x | x in st.refs ::
        if x in fp.cells && st.refs[x].parentContext.None? then st.refs[x].(parentContext := Some(c)) else st.refs[x],
      st.vals,
      map k | k in st.ctxs ::
        if k in fp.scopes && st.ctxs[k].parentContext.None? then st.ctxs[k].(parentContext := Some(c)) else st.ctxs[k])
  }

  /** Everything but the owner fields of cells and scopes is the same. */
  ghost predicate SameSkeleton(s0: Store, s1: Store) {
    && s0.refs.Keys == s1.refs.Keys
    && s0.vals == s1.vals
    && s0.ctxs.Keys == s1.ctxs.Keys
    && (forall x | x in s0.refs ::
          s1.refs[x].valuePtr == s0.refs[x].valuePtr && s1.refs[x].parentRef == s0.refs[x].parentRef)
    && (forall k | k in s0.ctxs :: s1.ctxs[k].collection == s0.ctxs[k].collection)
  }

  lemma RootValueSkeleton(s0: Store, s1: Store, r: RefId)
    requires SameSkeleton(s0, s1)
    ensures RootValue(s1.refs, r) == RootValue(s0.refs, r)
  {
    FindRootSame(s0.refs, s1.refs, r, |s0.refs|);
  }

  /** What replaceNullContext visits does not depend on the owner fields. */
  lemma {:induction false} ReachSkeleton(s0: Store, s1: Store, r: RefId, depth: nat)
    requires SameSkeleton(s0, s1)
    ensures Reach(s1, r, depth) == Reach(s0, r, depth)
    decreases depth, 1, 0
  {
    if r in s0.refs {
      RootValueSkeleton(s0, s1, r);
      var rv := RootValue(s0.refs, r);
      if rv.Ok? {
        InsideSkeleton(s0, s1, rv.value, depth);
      }
    }
  }

  lemma {:induction false} InsideSkeleton(s0: Store, s1: Store, v: ValId, depth: nat)
    requires SameSkeleton(s0, s1)
    ensures Inside(s1, v, depth) == Inside(s0, v, depth)
    decreases depth, 0, 0
  {
    if depth > 0 && v in s0.vals {
      match s0.vals[v]
      case Array(elems) => ReachAllSkeleton(s0, s1, elems, depth - 1);
      case Struct(_, p) =>
        if p in s0.ctxs {
          ReachAllSkeleton(s0, s1, BoundRefs(s0.ctxs[p].collection), depth - 1);
        }
      case _ =>
    }
  }

  lemma {:induction false} ReachAllSkeleton(s0: Store, s1: Store, rs: seq<RefId>, depth: nat)
    requires SameSkeleton(s0, s1)
    ensures ReachAll(s1, rs, depth) == ReachAll(s0, rs, depth)
    decreases depth, 2, |rs|
  {
    if rs != [] {
      ReachAllSkeleton(s0, s1, rs[..|rs| - 1], depth);
      ReachSkeleton(s0, s1, rs[|rs| - 1], depth);
    }
  }

  /**
   * s1 is s0 with owners filled in over the footprint f, when f was
   * computed; in any case only owner fields differ.
   */
  ghost predicate Filled(s0: Store, s1: Store, f: Result<Footprint>, c: CtxId) {
    && SameSkeleton(s0, s1)
    && (f.Ok? ==> s1 == FillNull(s0, f.value, c))
  }

  /** Filling r's own owner and then the inside of its value fills Reach. */
  lemma ReachFilled(s0: Store, s1: Store, s2: Store, r: RefId, v: ValId, c: CtxId, depth: nat)
    requires r in s0.refs && RootValue(s1.refs, r) == Ok(v)
    requires Filled(s0, s1, Ok(Footprint({r}, {})), c)
    requires Filled(s1, s2, Inside(s1, v, depth), c)
    ensures Reach(s0, r, depth).Ok? <==> Inside(s1, v, depth).Ok?
    ensures Filled(s0, s2, Reach(s0, r, depth), c)
  {
    RootValueSkeleton(s0, s1, r);
    InsideSkeleton(s0, s1, v, depth);
    SkeletonTrans(s0, s1, s2);
    if Reach(s0, r, depth).Ok? {
      FillNullJoin(s0, Footprint({r}, {}), Inside(s0, v, depth).value, c);
    }
  }

  /** When r's chain has no root, Reach fails the same way. */
  lemma ReachUnfilled(s0: Store, s1: Store, r: RefId, c: CtxId, depth: nat)
    requires r in s0.refs && RootValue(s1.refs, r).Err?
    requires Filled(s0, s1, Ok(Footprint({r}, {})), c)
    ensures Reach(s0, r, depth) == Err(RootValue(s1.refs, r).error)
    ensures Filled(s0, s1, Reach(s0, r, depth), c)
  {
    RootValueSkeleton(s0, s1, r);
  }

  /** One level of an array: Inside is what its elements reach one level down. */
  lemma InsideArray(st: Store, v: ValId, depth: nat, d: nat)
    requires v in st.vals && st.vals[v].Array? && depth == d + 1
    ensures Inside(st, v, depth) == ReachAll(st, st.vals[v].elems, d)
  {
  }

  /** One level of a struct: its property scope, then what its properties reach one level down. */
  lemma InsideStruct(st: Store, v: ValId, depth: nat, d: nat)
    requires v in st.vals && st.vals[v].Struct? && st.vals[v].properties in st.ctxs && depth == d + 1
    ensures var p := st.vals[v].properties;
      var g := ReachAll(st, BoundRefs(st.ctxs[p].collection), d);
      Inside(st, v, depth) == if g.Ok? then Ok(Join(Footprint({}, {p}), g.value)) else Err(g.error)
  {
  }

  /** Filling a struct's scope and then its properties fills Inside. */
  lemma StructFilled(s0: Store, s1: Store, s2: Store, v: ValId, c: CtxId, depth: nat, d: nat)
    requires v in s0.vals && s0.vals[v].Struct? && s0.vals[v].properties in s0.ctxs && depth == d + 1
    requires var p := s0.vals[v].properties;
      && Filled(s0, s1, Ok(Footprint({}, {p})), c)
      && Filled(s1, s2, ReachAll(s1, BoundRefs(s1.ctxs[p].collection), d), c)
    ensures Inside(s0, v, depth).Ok? <==> ReachAll(s1, BoundRefs(s1.ctxs[s0.vals[v].properties].collection), d).Ok?
    ensures Filled(s0, s2, Inside(s0, v, depth), c)
  {
    var p := s0.vals[v].properties;
    var bound := BoundRefs(s0.ctxs[p].collection);
    assert s1.ctxs[p].collection == s0.ctxs[p].collection;
    ReachAllSkeleton(s0, s1, bound, d);
    var g := ReachAll(s0, bound, d);
    InsideStruct(s0, v, depth, d);
    SkeletonTrans(s0, s1, s2);
    if g.Ok? {
      assert s1 == FillNull(s0, Footprint({}, {p}), c);
      assert s2 == FillNull(s1, g.value, c);
      FillNullJoin(s0, Footprint({}, {p}), g.value, c);
    }
  }

  /** One more element filled: the loop step of the element loop. */
  lemma AllFilledStep(s0: Store, s1: Store, s2: Store, rs: seq<RefId>, i: nat, c: CtxId, depth: nat)
    requires i < |rs| && ReachAll(s0, rs[..i], depth).Ok?
    requires Filled(s0, s1, ReachAll(s0, rs[..i], depth), c)
    requires Filled(s1, s2, Reach(s1, rs[i], depth), c)
    ensures Reach(s1, rs[i], depth).Ok? <==> ReachAll(s0, rs[..i + 1], depth).Ok?
    ensures Reach(s1, rs[i], depth).Err? ==> ReachAll(s0, rs, depth).Err?
    ensures Filled(s0, s2, ReachAll(s0, rs[..i + 1], depth), c)
  {
    ReachSkeleton(s0, s1, rs[i], depth);
    SkeletonTrans(s0, s1, s2);
    assert rs[..i + 1][..i] == rs[..i];
    if Reach(s1, rs[i], depth).Err? {
      ReachAllPrefix(s0, rs, i + 1, depth);
    } else {
      FillNullJoin(s0, ReachAll(s0, rs[..i], depth).value, Reach(s0, rs[i], depth).value, c);
    }
  }

  lemma SkeletonTrans(s0: Store, s1: Store, s2: Store)
    requires SameSkeleton(s0, s1) && SameSkeleton(s1, s2)
    ensures SameSkeleton(s0, s2)
  {
  }

  lemma FillNullSkeleton(st: Store, fp: Footprint, c: CtxId)
    ensures SameSkeleton(st, FillNull(st, fp, c))
  {
  }

  /** Filling two footprints one after the other fills their union. */
  lemma FillNullJoin(st: Store, f: Footprint, g: Footprint, c: CtxId)
    ensures FillNull(FillNull(st, f, c), g, c) == FillNull(st, Join(f, g), c)
  {
    var s1 := FillNull(FillNull(st, f, c), g, c);
    var s2 := FillNull(st, Join(f, g), c);
    assert s1.refs == s2.refs;
    assert s1.ctxs == s2.ctxs;
  }

  /** A failing prefix makes ReachAll fail with the same error. */
  lemma {:induction false} ReachAllPrefix(st: Store, rs: seq<RefId>, i: nat, depth: nat)
    requires i <= |rs| && ReachAll(st, rs[..i], depth).Err?
    ensures ReachAll(st, rs, depth) == ReachAll(st, rs[..i], depth)
    decreases |rs| - i
  {
    if i < |rs| {
      assert rs[..i + 1][..i] == rs[..i];
      ReachAllPrefix(st, rs, i + 1, depth);
    } else {
      assert rs[..i] == rs;
    }
  }

  /** Giving owners to cells and scopes of a well-formed store, from its own scopes, keeps it well-formed. */
  lemma FillNullOK(st: Store, fp: Footprint, c: CtxId)
    requires StoreOK(st) && c in st.ctxs
    ensures StoreOK(FillNull(st, fp, c))
  {
    var s1 := FillNull(st, fp, c);
    forall x | x in s1.refs ensures CellClosed(s1, s1.refs[x]) {
      assert CellClosed(st, st.refs[x]);
    }
    forall u | u in s1.vals ensures ValueClosed(s1, s1.vals[u]) {
      assert ValueClosed(st, st.vals[u]);
    }
    forall k | k in s1.ctxs ensures ContextOK(s1, s1.ctxs[k]) {
      assert ContextOK(st, st.ctxs[k]);
    }
  }

  /**
   * replaceNullContext is idempotent: a second application to the same
   * cell visits the same footprint and changes nothing more.
   */
  lemma ReplaceNullContextIdempotent(st: Store, r: RefId, c: CtxId, depth: nat)
    requires Reach(st, r, depth).Ok?
    ensures var fp := Reach(st, r, depth).value;
      var once := FillNull(st, fp, c);
      && Reach(once, r, depth) == Ok(fp)
      && FillNull(once, fp, c) == once
  {
    var fp := Reach(st, r, depth).value;
    FillNullSkeleton(st, fp, c);
    ReachSkeleton(st, FillNull(st, fp, c), r, depth);
    FillNullJoin(st, fp, fp, c);
    assert Join(fp, fp) == fp;
  }
}
