/**
 * The runtime heap: the cells, values and scopes the C++ runtime allocates
 * with `new`, and the operations of value.cpp that read and update them in
 * place. Identifiers are handed out from counters and never reused; nothing
 * is freed (FreedOnTeardown in Contexts names the cells a scope's
 * destructor would delete).
 */
module Heaps {
  import opened Errors
  import opened Objects
  import opened Chains
  import opened Graph
  import opened Repairs
  import Contexts

  /** refs with every cell of cells pointing at the value v. */
  function PointAt(refs: map<RefId, Cell>, cells: seq<RefId>, v: ValId): map<RefId, Cell> {
    map x | x in refs :: if x in cells then refs[x].(valuePtr := v) else refs[x]
  }

  /** Pointing one more cell at v extends the pointed-at cells by it. */
  lemma PointAtStep(refs: map<RefId, Cell>, cells: seq<RefId>, x: RefId, v: ValId)
    requires x in refs
    ensures PointAt(refs, cells, v)[x := refs[x].(valuePtr := v)] == PointAt(refs, cells + [x], v)
  {
  }

  lemma PointAtKeepsLinks(refs: map<RefId, Cell>, cells: seq<RefId>, v: ValId)
    ensures var refs' := PointAt(refs, cells, v);
      && refs'.Keys == refs.Keys && SameLinksOn(refs, refs')
      && (forall x | x in refs' :: refs'[x].valuePtr == if x in cells then v else refs[x].valuePtr)
  {
  }

  /** Repointing cells keeps the links, the other cells and a well-formed store. */
  lemma PointAtLinks(st: Store, cells: seq<RefId>, v: ValId)
    requires StoreOK(st) && v in st.vals
    ensures var refs := PointAt(st.refs, cells, v);
      && refs.Keys == st.refs.Keys && SameLinksOn(st.refs, refs)
      && (forall x | x in refs :: refs[x].valuePtr == if x in cells then v else st.refs[x].valuePtr)
      && StoreOK(st.(refs := refs))
  {
    var s1 := st.(refs := PointAt(st.refs, cells, v));
    forall x | x in s1.refs ensures CellClosed(s1, s1.refs[x]) {
      assert CellClosed(st, st.refs[x]);
    }
    forall u | u in s1.vals ensures ValueClosed(s1, s1.vals[u]) {
      assert ValueClosed(st, st.vals[u]);
    }
    forall c | c in s1.ctxs ensures ContextOK(s1, s1.ctxs[c]) {
      assert ContextOK(st, st.ctxs[c]);
    }
  }

  // ---------------------------------------------------------------------
  // What a deep copy is (value::clone, value_array::clone, structure::clone).
  // Originals are read in src; copies live in s and are fresh with respect
  // to base.
  // ---------------------------------------------------------------------

  /** w in s is a deep copy of the value v of src. */
  ghost predicate IsCopy(src: Store, base: Store, s: Store, v: ValId, w: ValId, depth: nat)
    decreases depth, 1
  {
    && depth > 0
    && v in src.vals && w !in base.vals && w in s.vals
    && match src.vals[v]
       case Array(e) =>
         && s.vals[w].Array? && |s.vals[w].elems| == |e|
         && forall i :: 0 <= i < |e| ==> CopiedInto(src, base, s, e[i], s.vals[w].elems[i], depth - 1)
       case Struct(id, p) =>
         && p in src.ctxs && s.vals[w].Struct? && s.vals[w].identifier == id
         && s.vals[w].properties !in base.ctxs && s.vals[w].properties in s.ctxs
         && CopiedScope(src, base, s, p, s.vals[w].properties, depth - 1)
       case _ => s.vals[w] == src.vals[v]
  }

  /**
   * Scope q of s copies scope p of src: same names in the same order, each
   * bound to a copy; its parent is p's parent, or p itself when p has none.
   */
  ghost predicate CopiedScope(src: Store, base: Store, s: Store, p: CtxId, q: CtxId, depth: nat)
    requires p in src.ctxs && q in s.ctxs
    decreases depth, 3
  {
    var from, to := src.ctxs[p], s.ctxs[q];
    && to.parentContext == (if from.parentContext.None? then Some(p) else from.parentContext)
    && |to.collection| == |from.collection|
    && forall i :: 0 <= i < |from.collection| ==>
         && to.collection[i].identifier == from.collection[i].identifier
         && CopiedInto(src, base, s, from.collection[i].uniqueRef, to.collection[i].uniqueRef, depth)
  }

  /** Cell n of s is a fresh unowned root holding a copy of what cell o reads in src. */
  ghost predicate CopiedInto(src: Store, base: Store, s: Store, o: RefId, n: RefId, depth: nat)
    decreases depth, 2
  {
    && n !in base.refs && n in s.refs
    && s.refs[n].parentRef.None? && s.refs[n].parentContext.None?
    && RootValue(src.refs, o).Ok?
    && IsCopy(src, base, s, RootValue(src.refs, o).value, s.refs[n].valuePtr, depth)
  }

  /** s2 grows s1 and changes nothing of s1 that lies outside b. */
  ghost predicate FrozenOutside(b: Store, s1: Store, s2: Store) {
    && Grows(s1, s2)
    && (forall x | x in s1.refs && x !in b.refs :: s2.refs[x] == s1.refs[x])
    && (forall v | v in s1.vals && v !in b.vals :: s2.vals[v] == s1.vals[v])
    && (forall c | c in s1.ctxs && c !in b.ctxs :: s2.ctxs[c] == s1.ctxs[c])
  }

  /** The conditions under which a copy fact survives: see CopyMoved. */
  ghost predicate Moved(src0: Store, src1: Store, b0: Store, b1: Store, s1: Store, s2: Store) {
    && StoreOK(src0) && OnlyAdds(src0, src1)
    && Grows(b0, b1)
    && FrozenOutside(b0, s1, s2)
  }

  /**
   * A copy stays a copy when its originals are read in an older store, its
   * freshness is judged against an older base, and the heap goes on
   * changing only outside that base.
   */
  lemma {:induction false} CopyMoved(src0: Store, src1: Store, b0: Store, b1: Store, s1: Store, s2: Store,
                                     v: ValId, w: ValId, depth: nat)
    requires Moved(src0, src1, b0, b1, s1, s2)
    requires v in src0.vals && IsCopy(src1, b1, s1, v, w, depth)
    ensures IsCopy(src0, b0, s2, v, w, depth)
    decreases depth, 1
  {
    assert src1.vals[v] == src0.vals[v];
    assert ValueClosed(src0, src0.vals[v]);
    match src0.vals[v]
    case Array(e) =>
      ArrayMoved(src0, src1, b0, b1, s1, s2, v, w, depth);
    case Struct(id, p) =>
      CopiedScopeMoved(src0, src1, b0, b1, s1, s2, p, s1.vals[w].properties, depth - 1);
    case _ =>
  }

  /** CopyMoved for an array: each slot's copy moves. */
  lemma {:induction false} ArrayMoved(src0: Store, src1: Store, b0: Store, b1: Store, s1: Store, s2: Store,
                                      v: ValId, w: ValId, depth: nat)
    requires Moved(src0, src1, b0, b1, s1, s2)
    requires v in src0.vals && src0.vals[v].Array? && IsCopy(src1, b1, s1, v, w, depth)
    ensures IsCopy(src0, b0, s2, v, w, depth)
    decreases depth, 0
  {
    assert src1.vals[v] == src0.vals[v];
    assert ValueClosed(src0, src0.vals[v]);
    var e := src0.vals[v].elems;
    assert s2.vals[w] == s1.vals[w];
    forall i | 0 <= i < |e|
      ensures CopiedInto(src0, b0, s2, e[i], s2.vals[w].elems[i], depth - 1)
    {
      CopiedIntoMoved(src0, src1, b0, b1, s1, s2, e[i], s1.vals[w].elems[i], depth - 1);
    }
  }

  lemma {:induction false} CopiedScopeMoved(src0: Store, src1: Store, b0: Store, b1: Store, s1: Store, s2: Store,
                                            p: CtxId, q: CtxId, depth: nat)
    requires Moved(src0, src1, b0, b1, s1, s2)
    requires p in src0.ctxs && q in s1.ctxs && q !in b1.ctxs
    requires p in src1.ctxs && CopiedScope(src1, b1, s1, p, q, depth)
    ensures q in s2.ctxs && CopiedScope(src0, b0, s2, p, q, depth)
    decreases depth, 3
  {
    assert src1.ctxs[p] == src0.ctxs[p];
    assert s2.ctxs[q] == s1.ctxs[q];
    assert ContextOK(src0, src0.ctxs[p]);
    var from := src0.ctxs[p].collection;
    forall i | 0 <= i < |from|
      ensures CopiedInto(src0, b0, s2, from[i].uniqueRef, s2.ctxs[q].collection[i].uniqueRef, depth)
    {
      CopiedIntoMoved(src0, src1, b0, b1, s1, s2, from[i].uniqueRef, s1.ctxs[q].collection[i].uniqueRef, depth);
    }
  }

  lemma {:induction false} CopiedIntoMoved(src0: Store, src1: Store, b0: Store, b1: Store, s1: Store, s2: Store,
                                           o: RefId, n: RefId, depth: nat)
    requires Moved(src0, src1, b0, b1, s1, s2)
    requires o in src0.refs && CopiedInto(src1, b1, s1, o, n, depth)
    ensures CopiedInto(src0, b0, s2, o, n, depth)
    decreases depth, 2
  {
    StoreLinks(src0);
    RootValueAgree(src0.refs, src1.refs, o);
    var x := RootValue(src0.refs, o).value;
    assert CellClosed(src0, src0.refs[Root(src0.refs, o).value]);
    assert s2.refs[n] == s1.refs[n];
    CopyMoved(src0, src1, b0, b1, s1, s2, x, s1.refs[n].valuePtr, depth);
  }

  lemma StoreLinks(st: Store)
    requires StoreOK(st)
    ensures LinksClosed(st.refs)
  {
    forall r | r in st.refs && st.refs[r].parentRef.Some?
      ensures st.refs[r].parentRef.value in st.refs
    {
      assert CellClosed(st, st.refs[r]);
    }
  }

  // ---------------------------------------------------------------------
  // What a shallow copy is (value::shallowClone, structure::shallowClone).
  // ---------------------------------------------------------------------

  /**
   * Cell n of s1 is a fresh unowned alias of cell o of s0: it caches the
   * value o reads, links to o when o is a root and to o's parent
   * otherwise, and so reads what o reads.
   */
  ghost predicate AliasOf(s0: Store, s1: Store, o: RefId, n: RefId)
    requires o in s0.refs
  {
    && n !in s0.refs && n in s1.refs
    && RootValue(s0.refs, o).Ok?
    && s1.refs[n] == Cell(RootValue(s0.refs, o).value,
                          Some(if s0.refs[o].parentRef.None? then o else s0.refs[o].parentRef.value),
                          None)
    && RootValue(s1.refs, n) == RootValue(s0.refs, o)
  }

  /**
   * w in s1 is a fresh struct named id over a fresh parentless scope with
   * the names of scope p of s0 in order. Taking ownership binds each name
   * to the very cell p binds it to; otherwise each name gets an alias.
   */
  ghost predicate ShallowStruct(s0: Store, s1: Store, id: string, p: CtxId, w: ValId, take: bool)
    requires StoreOK(s0) && p in s0.ctxs
  {
    && w !in s0.vals && w in s1.vals
    && s1.vals[w].Struct? && s1.vals[w].identifier == id
    && var q := s1.vals[w].properties;
    && q !in s0.ctxs && q in s1.ctxs && s1.ctxs[q].parentContext.None?
    && var from, to := s0.ctxs[p].collection, s1.ctxs[q].collection;
    && |to| == |from|
    && (take ==> to == from)
    && (!take ==> assert ContextOK(s0, s0.ctxs[p]); forall i :: 0 <= i < |from| ==>
                    to[i].identifier == from[i].identifier && AliasOf(s0, s1, from[i].uniqueRef, to[i].uniqueRef))
  }

  /**
   * unique_refrence::set_var_ptr on the cells refs: every cell from r to
   * the root takes the value v, so each of them then reads v. The root's
   * former value is deleted first; when that is v itself the chain is left
   * pointing at freed memory (UndefinedBehaviour). On a cyclic chain the
   * loop never ends (Diverges).
   */
  method PointChain(refs: map<RefId, Cell>, r: RefId, v: ValId) returns (refs': map<RefId, Cell>, res: Result<()>)
    requires LinksClosed(refs) && r in refs
    ensures Root(refs, r).Err? ==> res == Err(Diverges)
    ensures Root(refs, r).Ok? ==>
      var t := Root(refs, r).value;
      (refs[t].valuePtr == v ==> res == Err(UndefinedBehaviour))
      && (refs[t].valuePtr != v ==> res.Ok?)
    ensures res.Ok? ==> refs' == PointAt(refs, Walk(refs, r, |refs|), v)
    ensures res.Ok? ==> forall x | x in Walk(refs, r, |refs|) :: RootValue(refs', x) == Ok(v)
  {
    ghost var done: seq<RefId> := [];
    FindRootClosed(refs, r, |refs|);
    refs' := refs;
    var cur := r;
    var fuel: nat := |refs|;
    while true
      invariant cur in refs
      invariant refs' == PointAt(refs, done, v)
      invariant Walk(refs, r, |refs|) == done + Walk(refs, cur, fuel)
      invariant forall x | x in done :: x in refs && refs[x].parentRef.Some?
      invariant FindRoot(refs, cur, fuel) == Root(refs, r)
      decreases fuel
    {
      var c := refs'[cur];
      PointAdvance(refs, r, v, done, cur, fuel);
      if c.parentRef.None? {
        if c.valuePtr == v {
          return refs', Err(UndefinedBehaviour);
        }
        refs' := refs'[cur := c.(valuePtr := v)];
        done := done + [cur];
        break;
      }
      if fuel == 0 {
        return refs', Err(Diverges);
      }
      refs' := refs'[cur := c.(valuePtr := v)];
      done := done + [cur];
      cur := c.parentRef.value;
      fuel := fuel - 1;
    }
    PointAtReads(refs, r, v);
    res := Ok(());
  }

  /** One cell of PointChain's loop: pointing it at v, and following its link, keep the invariants. */
  lemma PointAdvance(refs: map<RefId, Cell>, r: RefId, v: ValId, done: seq<RefId>, cur: RefId, fuel: nat)
    requires LinksClosed(refs) && cur in refs
    requires Walk(refs, r, |refs|) == done + Walk(refs, cur, fuel)
    requires forall x | x in done :: x in refs && refs[x].parentRef.Some?
    requires FindRoot(refs, cur, fuel) == Root(refs, r)
    ensures var c := PointAt(refs, done, v)[cur];
      && c.parentRef == refs[cur].parentRef && c.(valuePtr := v) == refs[cur].(valuePtr := v)
      && PointAt(refs, done, v)[cur := c.(valuePtr := v)] == PointAt(refs, done + [cur], v)
    ensures refs[cur].parentRef.None? ==> cur !in done && refs[cur].valuePtr == PointAt(refs, done, v)[cur].valuePtr
    ensures refs[cur].parentRef.None? ==> Walk(refs, r, |refs|) == done + [cur] && Root(refs, r) == Ok(cur)
    ensures refs[cur].parentRef.Some? && fuel == 0 ==> Root(refs, r).Err?
    ensures refs[cur].parentRef.Some? && fuel > 0 ==>
      var p := refs[cur].parentRef.value;
      && p in refs
      && Walk(refs, r, |refs|) == (done + [cur]) + Walk(refs, p, fuel - 1)
      && (forall x | x in done + [cur] :: x in refs && refs[x].parentRef.Some?)
      && FindRoot(refs, p, fuel - 1) == Root(refs, r)
  {
    PointAtStep(refs, done, cur, v);
    if refs[cur].parentRef.None? {
      assert Walk(refs, cur, fuel) == [cur];
    } else if fuel > 0 {
      WalkStep(refs, done, cur, fuel);
    }
  }

  lemma WalkStep(refs: map<RefId, Cell>, done: seq<RefId>, cur: RefId, fuel: nat)
    requires cur in refs && refs[cur].parentRef.Some? && fuel > 0
    ensures done + Walk(refs, cur, fuel) == (done + [cur]) + Walk(refs, refs[cur].parentRef.value, fuel - 1)
  {
  }

  /** Once the whole walk from r is pointed at v, every cell of it reads v. */
  lemma PointAtReads(refs: map<RefId, Cell>, r: RefId, v: ValId)
    requires FindRoot(refs, r, |refs|).Ok?
    ensures var refs' := PointAt(refs, Walk(refs, r, |refs|), v);
      forall x | x in Walk(refs, r, |refs|) :: RootValue(refs', x) == Ok(v)
  {
    var w := Walk(refs, r, |refs|);
    var refs' := PointAt(refs, w, v);
    PointAtKeepsLinks(refs, w, v);
    WalkLinks(refs, r, |refs|);
    forall x | x in w
      ensures RootValue(refs', x) == Ok(v)
    {
      WalkCellRoot(refs, r, |refs|, x);
      FindRootSame(refs, refs', x, |refs|);
    }
  }

  /** Cells that are kept read what they read before. */
  lemma KeptReads(s0: Store, s1: Store, o: RefId)
    requires StoreOK(s0) && CellsKept(s0, s1) && o in s0.refs
    ensures Root(s1.refs, o) == Root(s0.refs, o)
    ensures RootValue(s1.refs, o) == RootValue(s0.refs, o)
  {
    StoreLinks(s0);
    RootAgree(s0.refs, s1.refs, o);
    RootValueAgree(s0.refs, s1.refs, o);
  }

  /** An alias of a cell that was already there is an alias in the older store too. */
  lemma AliasEarlier(s0: Store, s1: Store, s2: Store, o: RefId, n: RefId)
    requires StoreOK(s0) && OnlyAdds(s0, s1) && o in s0.refs && AliasOf(s1, s2, o, n)
    ensures AliasOf(s0, s2, o, n)
  {
    KeptReads(s0, s1, o);
  }

  /** An alias stays an alias while cells are only added. */
  lemma AliasKept(s0: Store, s1: Store, s2: Store, o: RefId, n: RefId)
    requires StoreOK(s1) && o in s0.refs && AliasOf(s0, s1, o, n) && CellsKept(s1, s2)
    ensures AliasOf(s0, s2, o, n)
  {
    KeptReads(s1, s2, n);
  }

  /** The names of from bound, in order, to the cells ns. */
  function Rebind(from: seq<Variable>, ns: seq<RefId>): (r: seq<Variable>)
    requires |ns| <= |from|
    ensures |r| == |ns|
    ensures forall k :: 0 <= k < |ns| ==> r[k] == Variable(from[k].identifier, ns[k])
  {
    seq(|ns|, k requires 0 <= k < |ns| => Variable(from[k].identifier, ns[k]))
  }

  /** The next name of from is not yet bound in a prefix rebinding. */
  lemma RebindFresh(from: seq<Variable>, ns: seq<RefId>)
    requires UniqueNames(from) && |ns| < |from|
    ensures !Contexts.Binds(Rebind(from, ns), from[|ns|].identifier)
  {
  }

  /** Binding each name to its own cell gives the bindings back. */
  lemma RebindOwn(from: seq<Variable>)
    ensures Rebind(from, BoundRefs(from)) == from
  {
  }

  lemma RebindSnoc(from: seq<Variable>, ns: seq<RefId>, n: RefId)
    requires |ns| < |from|
    ensures Rebind(from, ns + [n]) == Rebind(from, ns) + [Variable(from[|ns|].identifier, n)]
  {
  }

  /** Each of ns is an alias of the cell bound at the same position of os. */
  ghost predicate Aliases(s0: Store, s: Store, os: seq<RefId>, ns: seq<RefId>) {
    && |ns| <= |os|
    && forall k :: 0 <= k < |ns| ==> os[k] in s0.refs && AliasOf(s0, s, os[k], ns[k])
  }

  lemma AliasesSnoc(s0: Store, s: Store, os: seq<RefId>, ns: seq<RefId>, n: RefId)
    requires Aliases(s0, s, os, ns) && |ns| < |os|
    requires os[|ns|] in s0.refs && AliasOf(s0, s, os[|ns|], n)
    ensures Aliases(s0, s, os, ns + [n])
  {
  }

  lemma AliasesKept(s0: Store, s1: Store, s2: Store, os: seq<RefId>, ns: seq<RefId>)
    requires StoreOK(s1) && CellsKept(s1, s2) && Aliases(s0, s1, os, ns)
    ensures Aliases(s0, s2, os, ns)
  {
    forall k | 0 <= k < |ns| ensures AliasOf(s0, s2, os[k], ns[k]) {
      AliasKept(s0, s1, s2, os[k], ns[k]);
    }
  }

  /** Each of ns is a copy of the cell at the same position of os. */
  ghost predicate Copies(src: Store, base: Store, s: Store, os: seq<RefId>, ns: seq<RefId>, depth: nat) {
    && |ns| <= |os|
    && forall k :: 0 <= k < |ns| ==> os[k] in src.refs && CopiedInto(src, base, s, os[k], ns[k], depth)
  }

  lemma CopiesMoved(src0: Store, src1: Store, b0: Store, b1: Store, s1: Store, s2: Store,
                    os: seq<RefId>, ns: seq<RefId>, depth: nat)
    requires Moved(src0, src1, b0, b1, s1, s2)
    requires forall k :: 0 <= k < |os| ==> os[k] in src0.refs
    requires Copies(src1, b1, s1, os, ns, depth)
    ensures Copies(src0, b0, s2, os, ns, depth)
  {
    forall k | 0 <= k < |ns| ensures CopiedInto(src0, b0, s2, os[k], ns[k], depth) {
      CopiedIntoMoved(src0, src1, b0, b1, s1, s2, os[k], ns[k], depth);
    }
  }

  /** A copied scope stays one while the heap only grows. */
  lemma ScopeMoved(s0: Store, s1: Store, s2: Store, p: CtxId, q: CtxId, depth: nat)
    requires StoreOK(s0) && p in s0.ctxs && q in s1.ctxs && q !in s0.ctxs
    requires OnlyAdds(s1, s2) && CopiedScope(s0, s0, s1, p, q, depth)
    ensures q in s2.ctxs && CopiedScope(s0, s0, s2, p, q, depth)
  {
    CopiedScopeMoved(s0, s0, s0, s0, s1, s2, p, q, depth);
  }

  lemma ArrayCopy(s0: Store, s: Store, v: ValId, w: ValId, cells: seq<RefId>, depth: nat)
    requires depth > 0 && v in s0.vals && s0.vals[v].Array? && w !in s0.vals && w in s.vals
    requires s.vals[w] == Array(cells) && |cells| == |s0.vals[v].elems|
    requires Copies(s0, s0, s, s0.vals[v].elems, cells, depth - 1)
    ensures IsCopy(s0, s0, s, v, w, depth)
  {
  }

  lemma StructCopy(s0: Store, s: Store, v: ValId, w: ValId, depth: nat)
    requires depth > 0 && v in s0.vals && s0.vals[v].Struct? && s0.vals[v].properties in s0.ctxs
    requires w !in s0.vals && w in s.vals
    requires s.vals[w].Struct? && s.vals[w].identifier == s0.vals[v].identifier
    requires s.vals[w].properties !in s0.ctxs && s.vals[w].properties in s.ctxs
    requires CopiedScope(s0, s0, s, s0.vals[v].properties, s.vals[w].properties, depth - 1)
    ensures IsCopy(s0, s0, s, v, w, depth)
  {
  }

  lemma ScalarCopy(s0: Store, s: Store, v: ValId, w: ValId, depth: nat)
    requires depth > 0 && v in s0.vals && !s0.vals[v].Array? && !s0.vals[v].Struct?
    requires w !in s0.vals && w in s.vals && s.vals[w] == s0.vals[v]
    ensures IsCopy(s0, s0, s, v, w, depth)
  {
  }

  /** A rebinding of p's names to copies of p's cells is a copied scope. */
  lemma ScopeCopy(s0: Store, s: Store, p: CtxId, q: CtxId, ns: seq<RefId>, depth: nat)
    requires p in s0.ctxs && q in s.ctxs
    requires var from := s0.ctxs[p].collection;
      && |ns| == |from| && s.ctxs[q].collection == Rebind(from, ns)
      && s.ctxs[q].parentContext == (if s0.ctxs[p].parentContext.None? then Some(p) else s0.ctxs[p].parentContext)
      && Copies(s0, s0, s, BoundRefs(from), ns, depth)
    ensures CopiedScope(s0, s0, s, p, q, depth)
  {
  }

  /** Copies stay copies while the heap only grows. */
  lemma CopiesGrow(src: Store, base: Store, s1: Store, s2: Store, os: seq<RefId>, ns: seq<RefId>, depth: nat)
    requires StoreOK(src) && Grows(base, s1) && OnlyAdds(s1, s2) && Copies(src, base, s1, os, ns, depth)
    ensures Copies(src, base, s2, os, ns, depth)
  {
    forall k | 0 <= k < |ns| ensures CopiedInto(src, base, s2, os[k], ns[k], depth) {
      CopiedIntoMoved(src, src, base, base, s1, s2, os[k], ns[k], depth);
    }
  }

  lemma CopiesSnoc(src: Store, base: Store, s: Store, os: seq<RefId>, ns: seq<RefId>, n: RefId, depth: nat)
    requires Copies(src, base, s, os, ns, depth) && |ns| < |os|
    requires os[|ns|] in src.refs && CopiedInto(src, base, s, os[|ns|], n, depth)
    ensures Copies(src, base, s, os, ns + [n], depth)
  {
  }

  /**
   * A copy made from a later store of cells that were already there is a
   * copy of the same cells of an earlier store, fresh for any earlier base.
   */
  lemma CopiedIntoEarlier(s0: Store, b0: Store, s1: Store, s2: Store, o: RefId, n: RefId, depth: nat)
    requires StoreOK(s0) && OnlyAdds(s0, s1) && Grows(b0, s1) && o in s0.refs
    requires CopiedInto(s1, s1, s2, o, n, depth)
    ensures CopiedInto(s0, b0, s2, o, n, depth)
  {
    CopiedIntoMoved(s0, s1, b0, s1, s2, s2, o, n, depth);
  }

  /** The facts StructShallowClone establishes make a ShallowStruct. */
  lemma ShallowStructOf(s0: Store, s: Store, id: string, p: CtxId, w: ValId, q: CtxId, cells: seq<RefId>, take: bool)
    requires StoreOK(s0) && p in s0.ctxs
    requires w !in s0.vals && w in s.vals && s.vals[w] == Struct(id, q)
    requires q !in s0.ctxs && q in s.ctxs && s.ctxs[q].parentContext.None?
    requires var from := s0.ctxs[p].collection;
      && |cells| == |from| && s.ctxs[q].collection == Rebind(from, cells)
      && (take ==> cells == BoundRefs(from))
      && (!take ==> Aliases(s0, s, BoundRefs(from), cells))
    ensures ShallowStruct(s0, s, id, p, w, take)
  {
    if take {
      RebindOwn(s0.ctxs[p].collection);
    }
  }

  /** Names that are unique stay unique when rebound to other cells. */
  lemma RebindUnique(from: seq<Variable>, ns: seq<RefId>)
    requires UniqueNames(from) && |ns| <= |from|
    ensures UniqueNames(Rebind(from, ns))
  {
  }

  /** A well-formed scope without its binding at i is well-formed. */
  lemma RemoveOK(st: Store, ctx: VarContext, ctx': VarContext, i: nat)
    requires ContextOK(st, ctx) && ctx'.parentContext == ctx.parentContext && ctx'.allocatedSize == ctx.allocatedSize
    requires i < |ctx.collection| && ctx'.collection == ctx.collection[..i] + ctx.collection[i + 1..]
    ensures ContextOK(st, ctx')
  {
    var a, b := ctx.collection, ctx'.collection;
    forall j, k | 0 <= j < k < |b| ensures b[j].identifier != b[k].identifier {
      var j', k' := if j < i then j else j + 1, if k < i then k else k + 1;
      assert b[j] == a[j'] && b[k] == a[k'];
    }
    forall j | 0 <= j < |b| ensures b[j].uniqueRef in st.refs {
      assert b[j] == a[if j < i then j else j + 1];
    }
  }

  /** Setting one scope (new or old) of a well-formed store to a well-formed one keeps it well-formed. */
  lemma ContextSet(st: Store, q: CtxId, ctx: VarContext)
    requires StoreOK(st) && ContextOK(st, ctx)
    ensures StoreOK(st.(ctxs := st.ctxs[q := ctx]))
  {
    var s1 := st.(ctxs := st.ctxs[q := ctx]);
    forall x | x in s1.refs ensures CellClosed(s1, s1.refs[x]) {
      assert CellClosed(st, st.refs[x]);
    }
    forall u | u in s1.vals ensures ValueClosed(s1, s1.vals[u]) {
      assert ValueClosed(st, st.vals[u]);
    }
    forall c | c in s1.ctxs ensures ContextOK(s1, s1.ctxs[c]) {
      if c != q {
        assert ContextOK(st, st.ctxs[c]);
      }
    }
  }

  /**
   * One var_context::declare per name of from, binding it to the cell at
   * the same position of ns, on a scope that starts empty.
   */
  method DeclareAll(ctx: VarContext, from: seq<Variable>, ns: seq<RefId>) returns (ctx': VarContext)
    requires ctx.collection == [] && UniqueNames(from) && |ns| == |from|
    ensures ctx'.parentContext == ctx.parentContext && ctx'.collection == Rebind(from, ns)
    ensures |ctx'.collection| <= ctx'.allocatedSize
  {
    ctx' := ctx;
    var i := 0;
    while i < |from|
      invariant i <= |from| && ctx'.parentContext == ctx.parentContext
      invariant ctx'.collection == Rebind(from, ns[..i]) && |ctx'.collection| <= ctx'.allocatedSize
    {
      RebindFresh(from, ns[..i]);
      var d;
      ctx', d := Contexts.Declare(ctx', from[i].identifier, ns[i]);
      if d.Err? {
        assert false;
      }
      RebindSnoc(from, ns[..i], ns[i]);
      assert ns[..i + 1] == ns[..i] + [ns[i]];
      i := i + 1;
    }
    assert ns[..i] == ns;
  }

  /**
   * The walk at the head of unique_refrence::context_check: the root of
   * r's chain and last_good_ref, the last cell before the root whose owner
   * is not del (None when there is none).
   */
  method ChainWalk(refs: map<RefId, Cell>, r: RefId, del: CtxId) returns (res: Result<(RefId, Option<RefId>)>)
    requires LinksClosed(refs) && r in refs
    ensures Root(refs, r).Err? ==> res == Err(Diverges)
    ensures Root(refs, r).Ok? ==>
      var w := Walk(refs, r, |refs|);
      res == Ok((Root(refs, r).value, LastGood(refs, w[..|w| - 1], del)))
    ensures res.Err? ==> ChainVerdict(refs, r, del).Err?
    ensures res.Ok? ==>
      var (t, last) := res.value;
      && (refs[t].parentContext == Some(del) && last.None? ==> ChainVerdict(refs, r, del) == Ok(Escapes))
      && (refs[t].parentContext == Some(del) && last.Some? ==>
            && ChainVerdict(refs, r, del) == Ok(Repair(last.value))
            && last.value in Walk(refs, r, |refs|) && refs[last.value].parentContext != Some(del))
      && (refs[t].parentContext != Some(del) ==> ChainVerdict(refs, r, del) == Ok(Safe))
  {
    ghost var done: seq<RefId> := [];
    var cur := r;
    var fuel: nat := |refs|;
    var last: Option<RefId> := None;
    while refs[cur].parentRef.Some?
      invariant cur in refs
      invariant Walk(refs, r, |refs|) == done + Walk(refs, cur, fuel)
      invariant forall i :: 0 <= i < |done| ==> done[i] in refs
      invariant last == LastGood(refs, done, del)
      invariant FindRoot(refs, cur, fuel) == Root(refs, r)
      decreases fuel
    {
      if fuel == 0 {
        assert FindRoot(refs, cur, fuel).Err?;
        return Err(Diverges);
      }
      WalkAdvance(refs, r, del, done, cur, fuel, last);
      if refs[cur].parentContext != Some(del) {
        last := Some(cur);
      }
      done := done + [cur];
      cur := refs[cur].parentRef.value;
      fuel := fuel - 1;
    }
    WalkEnd(refs, r, del, done, cur, fuel, last);
    WalkVerdict(refs, r, del, cur, last);
    return Ok((cur, last));
  }

  /** One link of ChainWalk's loop keeps its invariants. */
  lemma WalkAdvance(refs: map<RefId, Cell>, r: RefId, del: CtxId, done: seq<RefId>, cur: RefId, fuel: nat, last: Option<RefId>)
    requires LinksClosed(refs) && cur in refs && refs[cur].parentRef.Some? && fuel > 0
    requires Walk(refs, r, |refs|) == done + Walk(refs, cur, fuel)
    requires forall i :: 0 <= i < |done| ==> done[i] in refs
    requires last == LastGood(refs, done, del)
    requires FindRoot(refs, cur, fuel) == Root(refs, r)
    ensures var p := refs[cur].parentRef.value;
      && p in refs
      && Walk(refs, r, |refs|) == (done + [cur]) + Walk(refs, p, fuel - 1)
      && (forall i :: 0 <= i < |done + [cur]| ==> (done + [cur])[i] in refs)
      && (if refs[cur].parentContext != Some(del) then Some(cur) else last) == LastGood(refs, done + [cur], del)
      && FindRoot(refs, p, fuel - 1) == Root(refs, r)
  {
    WalkStep(refs, done, cur, fuel);
    assert (done + [cur])[..|done|] == done;
  }

  /** Where ChainWalk's loop stops, it has found the root and last_good_ref. */
  lemma WalkEnd(refs: map<RefId, Cell>, r: RefId, del: CtxId, done: seq<RefId>, cur: RefId, fuel: nat, last: Option<RefId>)
    requires cur in refs && refs[cur].parentRef.None? && r in refs
    requires Walk(refs, r, |refs|) == done + Walk(refs, cur, fuel)
    requires forall i :: 0 <= i < |done| ==> done[i] in refs
    requires last == LastGood(refs, done, del)
    requires FindRoot(refs, cur, fuel) == Root(refs, r)
    ensures Root(refs, r) == Ok(cur)
    ensures var w := Walk(refs, r, |refs|); last == LastGood(refs, w[..|w| - 1], del)
  {
    assert Walk(refs, cur, fuel) == [cur];
    assert (done + [cur])[..|done|] == done;
  }

  /** ChainWalk's result read as a verdict. */
  lemma WalkVerdict(refs: map<RefId, Cell>, r: RefId, del: CtxId, t: RefId, last: Option<RefId>)
    requires r in refs && Root(refs, r) == Ok(t)
    requires var w := Walk(refs, r, |refs|); last == LastGood(refs, w[..|w| - 1], del)
    ensures refs[t].parentContext == Some(del) && last.None? ==> ChainVerdict(refs, r, del) == Ok(Escapes)
    ensures refs[t].parentContext == Some(del) && last.Some? ==>
      && ChainVerdict(refs, r, del) == Ok(Repair(last.value))
      && last.value in Walk(refs, r, |refs|) && refs[last.value].parentContext != Some(del)
    ensures refs[t].parentContext != Some(del) ==> ChainVerdict(refs, r, del) == Ok(Safe)
  {
    var w := Walk(refs, r, |refs|);
    if last.Some? {
      var i :| 0 <= i < |w| - 1 && w[i] == last.value;
      assert w[i] in w;
    }
  }

  /** x, once slot or binding x0 of s0, still survives in s1 wherever the slot now points. */
  lemma NowSurvives(s0: Store, s1: Store, x0: RefId, y: RefId, del: CtxId)
    requires Renewed(s0, s1, del) && y in s1.refs && (y == x0 || y !in s0.refs)
    requires y == x0 ==> Survives(s1, x0, del)
    ensures Survives(s1, y, del)
  {
    if y != x0 {
      UnownedSurvives(s1, y, del);
    }
  }

  /** Setting one value (new or old) to a closed one keeps a store well formed. */
  lemma ValueUpdateOK(st: Store, v: ValId, x: Value)
    requires StoreOK(st) && ValueClosed(st, x)
    ensures StoreOK(st.(vals := st.vals[v := x]))
  {
    var s1 := st.(vals := st.vals[v := x]);
    forall y | y in s1.refs ensures CellClosed(s1, s1.refs[y]) {
      assert CellClosed(st, st.refs[y]);
    }
    forall u | u in s1.vals ensures ValueClosed(s1, s1.vals[u]) {
      if u != v {
        assert ValueClosed(st, st.vals[u]);
      }
    }
    forall k | k in s1.ctxs ensures ContextOK(s1, s1.ctxs[k]) {
      assert ContextOK(st, st.ctxs[k]);
    }
  }

  /** Setting one cell (new or old) to a closed one keeps a store well formed. */
  lemma CellUpdateOK(st: Store, x: RefId, c: Cell)
    requires StoreOK(st) && CellClosed(st, c)
    ensures StoreOK(st.(refs := st.refs[x := c]))
  {
    var s1 := st.(refs := st.refs[x := c]);
    forall y | y in s1.refs ensures CellClosed(s1, s1.refs[y]) {
      if y != x {
        assert CellClosed(st, st.refs[y]);
      }
    }
    forall u | u in s1.vals ensures ValueClosed(s1, s1.vals[u]) {
      assert ValueClosed(st, st.vals[u]);
    }
    forall k | k in s1.ctxs ensures ContextOK(s1, s1.ctxs[k]) {
      assert ContextOK(st, st.ctxs[k]);
    }
  }

  lemma OnlyAddsTrans(s0: Store, s1: Store, s2: Store)
    requires OnlyAdds(s0, s1) && OnlyAdds(s1, s2)
    ensures OnlyAdds(s0, s2)
  {
  }

  class Heap {
    var st: Store
    var nextRef: nat
    var nextVal: nat
    var nextCtx: nat

    ghost predicate Valid()
      reads this
    {
      && StoreOK(st)
      && (forall r | r in st.refs :: r < nextRef)
      && (forall v | v in st.vals :: v < nextVal)
      && (forall c | c in st.ctxs :: c < nextCtx)
    }

    constructor ()
      ensures Valid() && st == Store(map[], map[], map[])
    {
      st := Store(map[], map[], map[]);
      nextRef, nextVal, nextCtx := 0, 0, 0;
    }

    // -------------------------------------------------------------------
    // Allocation.
    // -------------------------------------------------------------------

    /** new unique_refrence(value_ptr, parent_refrence, parent_context). */
    method NewCell(c: Cell) returns (r: RefId)
      requires Valid() && CellClosed(st, c)
      modifies this
      ensures Valid() && r !in old(st.refs) && OnlyAdds(old(st), st)
      ensures st == old(st).(refs := old(st.refs)[r := c])
    {
      r := nextRef;
      nextRef := nextRef + 1;
      CellUpdateOK(st, r, c);
      st := st.(refs := st.refs[r := c]);
    }

    /** new value(...). */
    method NewValue(v: Value) returns (id: ValId)
      requires Valid() && ValueClosed(st, v)
      modifies this
      ensures Valid() && id !in old(st.vals) && OnlyAdds(old(st), st)
      ensures st == old(st).(vals := old(st.vals)[id := v])
    {
      id := nextVal;
      nextVal := nextVal + 1;
      ValueUpdateOK(st, id, v);
      st := st.(vals := st.vals[id := v]);
    }

    /** new var_context(parent): no bindings and room for ten. */
    method NewContext(parent: Option<CtxId>) returns (c: CtxId)
      requires Valid() && (parent.Some? ==> parent.value in st.ctxs)
      modifies this
      ensures Valid() && c !in old(st.ctxs) && OnlyAdds(old(st), st)
      ensures st == old(st).(ctxs := old(st.ctxs)[c := VarContext([], 10, parent)])
    {
      c := nextCtx;
      nextCtx := nextCtx + 1;
      ContextSet(st, c, VarContext([], 10, parent));
      st := st.(ctxs := st.ctxs[c := VarContext([], 10, parent)]);
    }

    /** var_context::declare on the scope c of the heap. */
    method DeclareIn(c: CtxId, name: string, r: RefId) returns (res: Result<RefId>)
      requires Valid() && c in st.ctxs && r in st.refs
      modifies this
      ensures Valid() && c in st.ctxs && st == old(st).(ctxs := old(st.ctxs)[c := st.ctxs[c]])
      ensures st.ctxs[c].parentContext == old(st.ctxs[c]).parentContext
      ensures res.Err? <==> Contexts.Binds(old(st.ctxs[c]).collection, name)
      ensures res.Err? ==> res.error == VariableAlreadyDefined && st.ctxs[c].collection == old(st.ctxs[c]).collection
      ensures res.Ok? ==> res.value == r && st.ctxs[c].collection == old(st.ctxs[c]).collection + [Variable(name, r)]
    {
      assert ContextOK(st, st.ctxs[c]);
      var ctx, r' := Contexts.Declare(st.ctxs[c], name, r);
      ContextSet(st, c, ctx);
      st := st.(ctxs := st.ctxs[c := ctx]);
      res := r';
    }

    /**
     * var_context::remove on the scope c of the heap, as written
     * (Contexts.Remove): the first binding of name goes and the others
     * keep their order; an absent name drops the last binding instead, and
     * an empty scope is UndefinedBehaviour, with the heap left as it was.
     * In every case name is no longer bound.
     */
    method RemoveIn(c: CtxId, name: string) returns (res: Result<()>)
      requires Valid() && c in st.ctxs
      modifies this
      ensures Valid() && c in st.ctxs && st == old(st).(ctxs := old(st.ctxs)[c := st.ctxs[c]])
      ensures st.ctxs[c].parentContext == old(st.ctxs[c]).parentContext
      ensures st.ctxs[c].allocatedSize == old(st.ctxs[c]).allocatedSize
      ensures old(st.ctxs[c]).collection == [] ==> res == Err(UndefinedBehaviour) && st == old(st)
      ensures Contexts.Binds(old(st.ctxs[c]).collection, name) ==>
        var coll := old(st.ctxs[c]).collection;
        res.Ok? && st.ctxs[c].collection == Contexts.RemoveAt(coll, Contexts.FirstIndex(coll, name))
      ensures !Contexts.Binds(old(st.ctxs[c]).collection, name) && old(st.ctxs[c]).collection != [] ==>
        var coll := old(st.ctxs[c]).collection;
        res.Ok? && st.ctxs[c].collection == coll[..|coll| - 1]
      ensures !Contexts.Binds(st.ctxs[c].collection, name)
    {
      assert ContextOK(st, st.ctxs[c]);
      ghost var coll := st.ctxs[c].collection;
      var r, _ := Contexts.Remove(st.ctxs[c], name);
      if r.Err? {
        return Err(r.error);
      }
      var ctx' := r.value;
      ghost var i := if Contexts.Binds(coll, name) then Contexts.FirstIndex(coll, name) else |coll| - 1;
      assert ctx'.collection == coll[..i] + coll[i + 1..];
      RemoveOK(st, st.ctxs[c], ctx', i);
      ContextSet(st, c, ctx');
      st := st.(ctxs := st.ctxs[c := ctx']);
      res := Ok(());
      forall j | 0 <= j < |ctx'.collection| ensures ctx'.collection[j].identifier != name {
        assert ctx'.collection[j] == coll[if j < i then j else j + 1];
        if Contexts.Binds(coll, name) && j >= i {
          assert coll[i].identifier == name;
        }
      }
    }

    /** Overwrite the boxed double of the number value v in place. */
    method SetNumber(v: ValId, n: int)
      requires Valid() && v in st.vals && st.vals[v].Number?
      modifies this
      ensures Valid() && st == old(st).(vals := old(st.vals)[v := Number(n)])
    {
      ValueUpdateOK(st, v, Number(n));
      st := st.(vals := st.vals[v := Number(n)]);
    }

    /**
     * `x->parent_refrence = p` on a root x: x becomes an alias of p. The
     * callers do this to a temporary cell they are about to delete.
     */
    method Link(x: RefId, p: RefId)
      requires Valid() && x in st.refs && p in st.refs
      modifies this
      ensures Valid() && st == old(st).(refs := old(st.refs)[x := old(st.refs[x]).(parentRef := Some(p))])
    {
      assert CellClosed(st, st.refs[x]);
      ghost var s0 := st;
      st := st.(refs := st.refs[x := st.refs[x].(parentRef := Some(p))]);
      CellUpdateOK(s0, x, st.refs[x]);
    }

    // -------------------------------------------------------------------
    // Chain walks.
    // -------------------------------------------------------------------

    /** unique_refrence::get_var_ptr: the value owned by the root of r's chain. */
    method GetVarPtr(r: RefId) returns (res: Result<ValId>)
      requires Valid() && r in st.refs
      ensures res == RootValue(st.refs, r)
      ensures res.Ok? ==> res.value in st.vals
      ensures res.Err? ==> res.error == Diverges
    {
      var cur := r;
      var fuel: nat := |st.refs|;
      while st.refs[cur].parentRef.Some?
        invariant cur in st.refs
        invariant FindRoot(st.refs, cur, fuel) == Root(st.refs, r)
        decreases fuel
      {
        if fuel == 0 {
          return Err(Diverges);
        }
        assert CellClosed(st, st.refs[cur]);
        cur := st.refs[cur].parentRef.value;
        fuel := fuel - 1;
      }
      assert CellClosed(st, st.refs[cur]);
      return Ok(st.refs[cur].valuePtr);
    }

    /**
     * unique_refrence::set_var_ptr: see PointChain. The store keeps its
     * shape; only value pointers of cells on r's chain change.
     */
    method SetVarPtr(r: RefId, v: ValId) returns (res: Result<()>)
      requires Valid() && r in st.refs && v in st.vals
      modifies this
      ensures Valid() && st.vals == old(st.vals) && st.ctxs == old(st.ctxs)
      ensures res.Err? ==> st == old(st)
      ensures Root(old(st.refs), r).Err? ==> res == Err(Diverges)
      ensures Root(old(st.refs), r).Ok? ==>
        var t := Root(old(st.refs), r).value;
        (old(st.refs)[t].valuePtr == v ==> res == Err(UndefinedBehaviour))
        && (old(st.refs)[t].valuePtr != v ==> res.Ok?)
      ensures res.Ok? ==> st.refs == PointAt(old(st.refs), Walk(old(st.refs), r, |old(st.refs)|), v)
      ensures res.Ok? ==> forall x | x in Walk(old(st.refs), r, |old(st.refs)|) :: RootValue(st.refs, x) == Ok(v)
    {
      StoreLinks(st);
      var refs;
      refs, res := PointChain(st.refs, r, v);
      if res.Ok? {
        PointAtLinks(st, Walk(st.refs, r, |st.refs|), v);
        st := st.(refs := refs);
      }
    }

    // -------------------------------------------------------------------
    // Shallow copies.
    // -------------------------------------------------------------------

    /**
     * A new unowned cell that reads what o reads: it caches o's root value
     * and links to o when o is a root, else to o's parent.
     */
    method AliasCell(o: RefId) returns (res: Result<RefId>)
      requires Valid() && o in st.refs
      modifies this
      ensures Valid() && OnlyAdds(old(st), st)
      ensures res.Err? ==> res.error == Diverges
      ensures res.Ok? <==> RootValue(old(st.refs), o).Ok?
      ensures res.Ok? ==> AliasOf(old(st), st, o, res.value)
    {
      ghost var s1 := st;
      var x :- GetVarPtr(o);
      var c := st.refs[o];
      var link := if c.parentRef.None? then o else c.parentRef.value;
      assert CellClosed(st, c);
      var n := NewCell(Cell(x, Some(link), None));
      StoreLinks(s1);
      NewCellRoot(s1.refs, n, Cell(x, Some(link), None));
      if c.parentRef.Some? {
        ParentRoot(s1.refs, o);
      }
      res := Ok(n);
    }

    /**
     * value::shallowClone: a new value of the same type. Scalars are
     * copied, an array shares its element cells (value_array::shallowClone)
     * and a struct takes ownership of its property cells.
     */
    method ShallowClone(v: ValId) returns (w: ValId)
      requires Valid() && v in st.vals
      modifies this
      ensures Valid() && OnlyAdds(old(st), st) && st.refs == old(st.refs) && w !in old(st.vals) && w in st.vals
      ensures !old(st.vals[v]).Struct? ==> st.vals[w] == old(st.vals[v])
      ensures old(st.vals[v]).Struct? ==>
        var x := old(st.vals[v]);
        x.properties in old(st.ctxs) && ShallowStruct(old(st), st, x.identifier, x.properties, w, true)
    {
      var x := st.vals[v];
      assert ValueClosed(st, x);
      if x.Struct? {
        var res := StructShallowClone(x.identifier, x.properties, true);
        w := res.value;
      } else {
        w := NewValue(x);
      }
    }

    /**
     * structure::shallowClone: a new struct named id over a new scope
     * without parent, binding the names of scope p in order. Taking
     * ownership rebinds the very cells of p; otherwise each name gets a new
     * unowned alias of p's cell (AliasOf), whose root value is read with
     * get_var_ptr. (The C++ code allocates each alias just before declaring
     * it; the model allocates the aliases first. Fresh identifiers make the
     * two orders indistinguishable.)
     */
    method StructShallowClone(id: string, p: CtxId, take: bool) returns (res: Result<ValId>)
      requires Valid() && p in st.ctxs
      modifies this
      ensures Valid() && OnlyAdds(old(st), st)
      ensures take ==> res.Ok? && st.refs == old(st.refs)
      ensures res.Err? ==> res.error == Diverges
      ensures res.Ok? ==> ShallowStruct(old(st), st, id, p, res.value, take)
    {
      ghost var s0 := st;
      var from := st.ctxs[p].collection;
      assert ContextOK(st, st.ctxs[p]);
      var cells := BoundRefs(from);
      if !take {
        cells :- AliasCells(BoundRefs(from));
      }
      ghost var s1 := st;
      var q := BindScope(from, cells, None);
      ghost var s2 := st;
      var w := NewValue(Struct(id, q));
      OnlyAddsTrans(s1, s2, st);
      OnlyAddsTrans(s0, s1, st);
      if !take {
        AliasesKept(s0, s1, st, BoundRefs(from), cells);
      }
      ShallowStructOf(s0, st, id, p, w, q, cells, take);
      res := Ok(w);
    }

    /** A new alias (AliasCell) of each of the cells os, in order. */
    method AliasCells(os: seq<RefId>) returns (res: Result<seq<RefId>>)
      requires Valid() && forall k :: 0 <= k < |os| ==> os[k] in st.refs
      modifies this
      ensures Valid() && OnlyAdds(old(st), st)
      ensures res.Err? ==> res.error == Diverges
      ensures res.Ok? ==> |res.value| == |os| && Aliases(old(st), st, os, res.value)
    {
      ghost var s0 := st;
      var cells: seq<RefId> := [];
      var i := 0;
      while i < |os|
        invariant i <= |os| && |cells| == i
        invariant Valid() && OnlyAdds(s0, st)
        invariant Aliases(s0, st, os, cells)
      {
        ghost var s1 := st;
        var n :- AliasCell(os[i]);
        AliasEarlier(s0, s1, st, os[i], n);
        AliasesKept(s0, s1, st, os, cells);
        AliasesSnoc(s0, st, os, cells, n);
        cells := cells + [n];
        i := i + 1;
      }
      res := Ok(cells);
    }

    /**
     * A new scope with the given parent binding the names of from, in
     * order, to the cells ns: new var_context(parent) followed by one
     * declare per name.
     */
    method BindScope(from: seq<Variable>, ns: seq<RefId>, parent: Option<CtxId>) returns (q: CtxId)
      requires Valid() && |ns| == |from| && UniqueNames(from)
      requires forall k :: 0 <= k < |ns| ==> ns[k] in st.refs
      requires parent.Some? ==> parent.value in st.ctxs
      modifies this
      ensures Valid() && OnlyAdds(old(st), st) && q !in old(st.ctxs) && q in st.ctxs
      ensures st.refs == old(st.refs) && st.vals == old(st.vals)
      ensures st.ctxs[q].parentContext == parent && st.ctxs[q].collection == Rebind(from, ns)
    {
      q := NewContext(parent);
      var ctx := DeclareAll(st.ctxs[q], from, ns);
      ghost var s1 := st;
      st := st.(ctxs := st.ctxs[q := ctx]);
      RebindUnique(from, ns);
      ContextSet(s1, q, ctx);
    }

    // -------------------------------------------------------------------
    // Deep copies.
    // -------------------------------------------------------------------

    /**
     * value::clone: a deep copy of the value v (IsCopy). Scalars are
     * copied; value_array::clone gives every element a new unowned root
     * holding a clone of the element's value; structure::clone does the
     * same for every property, in a new scope whose parent is the original
     * scope's parent, or the original scope when it has none.
     */
    method Clone(v: ValId, depth: nat) returns (res: Result<ValId>)
      requires Valid() && v in st.vals
      modifies this
      ensures Valid() && OnlyAdds(old(st), st)
      ensures depth == 0 ==> res == Err(Diverges)
      ensures depth > 0 && !old(st.vals[v]).Array? && !old(st.vals[v]).Struct? ==> res.Ok?
      ensures res.Err? ==> res.error == Diverges
      ensures res.Ok? ==> IsCopy(old(st), old(st), st, v, res.value, depth)
      decreases depth, 0
    {
      if depth == 0 {
        return Err(Diverges);
      }
      var x := st.vals[v];
      assert ValueClosed(st, x);
      match x
      case Array(_) =>
        res := CloneArray(v, depth);
      case Struct(_, _) =>
        res := CloneStruct(v, depth);
      case _ =>
        ghost var s0 := st;
        var w := NewValue(x);
        ScalarCopy(s0, st, v, w, depth);
        res := Ok(w);
    }

    /** The array branch of value::clone: a new array of copies of the slots. */
    method CloneArray(v: ValId, depth: nat) returns (res: Result<ValId>)
      requires Valid() && v in st.vals && st.vals[v].Array? && depth > 0
      modifies this
      ensures Valid() && OnlyAdds(old(st), st)
      ensures res.Err? ==> res.error == Diverges
      ensures res.Ok? ==> IsCopy(old(st), old(st), st, v, res.value, depth)
      decreases depth - 1, 9
    {
      ghost var s0 := st;
      var es := st.vals[v].elems;
      assert ValueClosed(st, st.vals[v]);
      var cells :- CloneCells(es, depth - 1);
      ghost var s1 := st;
      var w := NewValue(Array(cells));
      OnlyAddsTrans(s0, s1, st);
      CopiesGrow(s0, s0, s1, st, es, cells, depth - 1);
      ArrayCopy(s0, st, v, w, cells, depth);
      res := Ok(w);
    }

    /** The struct branch of value::clone: a new struct over a copy of the property scope. */
    method CloneStruct(v: ValId, depth: nat) returns (res: Result<ValId>)
      requires Valid() && v in st.vals && st.vals[v].Struct? && depth > 0
      modifies this
      ensures Valid() && OnlyAdds(old(st), st)
      ensures res.Err? ==> res.error == Diverges
      ensures res.Ok? ==> IsCopy(old(st), old(st), st, v, res.value, depth)
      decreases depth - 1, 9
    {
      ghost var s0 := st;
      var id, p := st.vals[v].identifier, st.vals[v].properties;
      assert ValueClosed(st, st.vals[v]);
      var q :- CloneScope(p, depth - 1);
      ghost var s1 := st;
      var w := NewValue(Struct(id, q));
      OnlyAddsTrans(s0, s1, st);
      ScopeMoved(s0, s1, st, p, q, depth - 1);
      StructCopy(s0, st, v, w, depth);
      res := Ok(w);
    }

    /** Copies of the cells es, in order (the loop of value_array::clone). */
    method CloneCells(es: seq<RefId>, depth: nat) returns (res: Result<seq<RefId>>)
      requires Valid() && forall k :: 0 <= k < |es| ==> es[k] in st.refs
      modifies this
      ensures Valid() && OnlyAdds(old(st), st)
      ensures res.Err? ==> res.error == Diverges
      ensures res.Ok? ==> |res.value| == |es| && Copies(old(st), old(st), st, es, res.value, depth)
      decreases depth, 2
    {
      ghost var s0 := st;
      var cells: seq<RefId> := [];
      var i := 0;
      while i < |es|
        invariant i <= |es| && |cells| == i
        invariant Valid() && OnlyAdds(s0, st)
        invariant Copies(s0, s0, st, es, cells, depth)
      {
        ghost var s1 := st;
        var n :- CopyCell(es[i], depth);
        CopiesGrow(s0, s0, s1, st, es, cells, depth);
        CopiedIntoEarlier(s0, s0, s1, st, es[i], n, depth);
        CopiesSnoc(s0, s0, st, es, cells, n, depth);
        cells := cells + [n];
        i := i + 1;
      }
      res := Ok(cells);
    }

    /**
     * A new unowned root holding a clone of the value cell o reads:
     * new unique_refrence(o->get_var_ptr()->clone(), nullptr, nullptr).
     */
    method CopyCell(o: RefId, depth: nat) returns (res: Result<RefId>)
      requires Valid() && o in st.refs
      modifies this
      ensures Valid() && OnlyAdds(old(st), st)
      ensures res.Err? ==> res.error == Diverges
      ensures res.Ok? ==> CopiedInto(old(st), old(st), st, o, res.value, depth)
      decreases depth, 1
    {
      ghost var s0 := st;
      var x :- GetVarPtr(o);
      var w :- Clone(x, depth);
      ghost var s1 := st;
      var n := NewCell(Cell(w, None, None));
      OnlyAddsTrans(s0, s1, st);
      CopyMoved(s0, s0, s0, s0, s1, st, x, w, depth);
      res := Ok(n);
    }

    /**
     * The scope of structure::clone: copies of p's bindings in a new scope
     * (allocated after the copies, which fresh identifiers cannot tell
     * apart from the C++ order).
     */
    method CloneScope(p: CtxId, depth: nat) returns (res: Result<CtxId>)
      requires Valid() && p in st.ctxs
      modifies this
      ensures Valid() && OnlyAdds(old(st), st)
      ensures res.Err? ==> res.error == Diverges
      ensures res.Ok? ==> res.value !in old(st.ctxs) && res.value in st.ctxs
      ensures res.Ok? ==> CopiedScope(old(st), old(st), st, p, res.value, depth)
      decreases depth, 3
    {
      ghost var s0 := st;
      var from := st.ctxs[p].collection;
      assert ContextOK(st, st.ctxs[p]);
      var parent := if st.ctxs[p].parentContext.None? then Some(p) else st.ctxs[p].parentContext;
      var cells :- CloneCells(BoundRefs(from), depth);
      ghost var s1 := st;
      var q := BindScope(from, cells, parent);
      OnlyAddsTrans(s0, s1, st);
      CopiesGrow(s0, s0, s1, st, BoundRefs(from), cells, depth);
      ScopeCopy(s0, st, p, q, cells, depth);
      res := Ok(q);
    }

    /**
     * unique_refrence::change_refrence: the root of r's chain gets the
     * parent n; no other link changes. ReparentReadsTarget and
     * ReparentCycle say what reads through r see afterwards.
     */
    method ChangeReference(r: RefId, n: RefId) returns (res: Result<()>)
      requires Valid() && r in st.refs && n in st.refs
      modifies this
      ensures Valid() && st.vals == old(st.vals) && st.ctxs == old(st.ctxs)
      ensures res.Ok? <==> Root(old(st.refs), r).Ok?
      ensures res.Err? ==> res.error == Diverges && st == old(st)
      ensures res.Ok? ==> st.refs == Reparent(old(st.refs), Root(old(st.refs), r).value, n)
    {
      var cur := r;
      var fuel: nat := |st.refs|;
      while st.refs[cur].parentRef.Some?
        invariant cur in st.refs
        invariant FindRoot(st.refs, cur, fuel) == Root(st.refs, r)
        decreases fuel
      {
        if fuel == 0 {
          return Err(Diverges);
        }
        assert CellClosed(st, st.refs[cur]);
        cur := st.refs[cur].parentRef.value;
        fuel := fuel - 1;
      }
      assert CellClosed(st, st.refs[cur]);
      CellUpdateOK(st, cur, st.refs[cur].(parentRef := Some(n)));
      st := st.(refs := st.refs[cur := st.refs[cur].(parentRef := Some(n))]);
      return Ok(());
    }

    // -------------------------------------------------------------------
    // Read-only walks over the value graph.
    // -------------------------------------------------------------------

    /** value::compare (see CompareSpec for the operand order). */
    method Compare(a: ValId, b: ValId, depth: nat) returns (res: Result<int>)
      requires Valid()
      ensures res == CompareSpec(st, a, b, depth)
      decreases depth, 0
    {
      if depth == 0 {
        return Err(Diverges);
      }
      if a !in st.vals || b !in st.vals {
        return Err(UndefinedBehaviour);
      }
      var va, vb := st.vals[a], st.vals[b];
      if va.Type() != vb.Type() {
        return Ok(1);
      }
      match va
      case Null => res := Ok(0);
      case Char(x) => res := Ok(x as int - vb.c as int);
      case Number(x) => res := Ok(x - vb.n);
      case Struct(_, _) => res := Ok(1);
      case Array(ea) =>
        assert ValueClosed(st, va) && ValueClosed(st, vb);
        res := CompareArrays(vb.elems, ea, depth - 1);
    }

    /** value_array::compare with `this` = self. */
    method CompareArrays(self: seq<RefId>, other: seq<RefId>, depth: nat) returns (res: Result<int>)
      requires Valid()
      requires forall k :: 0 <= k < |self| ==> self[k] in st.refs
      requires forall k :: 0 <= k < |other| ==> other[k] in st.refs
      ensures res == ArrayCompareSpec(st, self, other, depth)
      decreases depth, 2
    {
      if |other| != |self| {
        return Ok(|self| - |other|);
      }
      var i := 0;
      while i < |self|
        invariant i <= |self|
        invariant ElemsCompare(st, self, other, i, depth) == ElemsCompare(st, self, other, 0, depth)
      {
        var x :- GetVarPtr(other[i]);
        var y :- GetVarPtr(self[i]);
        var c :- Compare(x, y, depth);
        if c != 0 {
          return Ok(c);
        }
        i := i + 1;
      }
      return Ok(0);
    }

    /** value_array::checktype: whether every element reads a value of type t. */
    method CheckType(elems: seq<RefId>, t: ValueType) returns (res: Result<bool>)
      requires Valid() && forall k :: 0 <= k < |elems| ==> elems[k] in st.refs
      ensures res == CheckTypeSpec(st, elems, t, 0)
    {
      var i := 0;
      while i < |elems|
        invariant i <= |elems|
        invariant CheckTypeSpec(st, elems, t, i) == CheckTypeSpec(st, elems, t, 0)
      {
        var x :- GetVarPtr(elems[i]);
        if st.vals[x].Type() != t {
          return Ok(false);
        }
        i := i + 1;
      }
      return Ok(true);
    }

    // -------------------------------------------------------------------
    // unique_refrence::replaceNullContext
    // -------------------------------------------------------------------

    // -------------------------------------------------------------------
    // unique_refrence::context_check
    // -------------------------------------------------------------------

    /**
     * unique_refrence::context_check(del, allowCorrect) on cell r, run
     * before the scope del is deleted. When r's root is owned by del and
     * no cell of the chain before it escapes del, r cannot be saved
     * (false). When one does, allowCorrect makes the last such cell the
     * root of a shallow clone of the root's value (Reroot); without it the
     * answer is false. Then every array slot or struct property of the
     * value r now reads is checked in turn with allowCorrect off (CheckInside).
     * Every outcome is a renewal of the store (Renewed), and true means r
     * survives the deletion of del.
     */
    method ContextCheck(r: RefId, del: CtxId, allowCorrect: bool, depth: nat) returns (res: Result<bool>)
      requires Valid() && r in st.refs
      modifies this
      ensures Valid() && Renewed(old(st), st, del)
      ensures !allowCorrect ==> CellsKept(old(st), st)
      ensures var v := ChainVerdict(old(st.refs), r, del);
        && (v.Err? ==> res == Err(Diverges) && st == old(st))
        && (v == Ok(Escapes) ==> res == Ok(false) && st == old(st))
        && (v == Ok(Safe) ==> CellsKept(old(st), st))
        && (v.Ok? && v.value.Repair? && !allowCorrect ==> res == Ok(false) && st == old(st))
        && (v.Ok? && v.value.Repair? && allowCorrect ==>
              && st.refs[v.value.at].parentRef.None?
              && st.refs[v.value.at].valuePtr !in old(st.vals)
              && Root(st.refs, r) == Ok(v.value.at)
              && CellsKeptBut(old(st), st, v.value.at))
      ensures res == Ok(true) ==> Survives(st, r, del)
      decreases depth, 3
    {
      StoreLinks(st);
      var walk :- ChainWalk(st.refs, r, del);
      var t, last := walk.0, walk.1;
      WalkVerdict(st.refs, r, del, t, last);
      if st.refs[t].parentContext == Some(del) {
        if last.None? || !allowCorrect {
          RenewedRefl(st, del);
          return Ok(false);
        }
        res := RepairChain(r, last.value, t, del, depth);
      } else {
        res := CheckReached(r, del, depth);
      }
    }

    /**
     * context_check with allow_correct when r's root is owned by del: g,
     * the last cell of the chain that del does not own, is made a root
     * (Reroot), which makes r survive; then the value is checked.
     */
    method RepairChain(r: RefId, g: RefId, t: RefId, del: CtxId, depth: nat) returns (res: Result<bool>)
      requires Valid() && r in st.refs && t in st.refs && g in Walk(st.refs, r, |st.refs|)
      requires st.refs[g].parentContext != Some(del)
      modifies this
      ensures Valid() && Renewed(old(st), st, del)
      ensures st.refs[g].parentRef.None? && st.refs[g].valuePtr !in old(st.vals) && CellsKeptBut(old(st), st, g)
      ensures Root(st.refs, r) == Ok(g)
      ensures res == Ok(true) ==> Survives(st, r, del)
      decreases depth, 2
    {
      ghost var s0 := st;
      var c := Reroot(g, t, del);
      CutMakesRoot(s0.refs, r, |s0.refs|, g, c);
      assert |st.refs| == |s0.refs| by { assert st.refs.Keys == s0.refs.Keys; }
      assert Survives(st, r, del);
      ghost var s1 := st;
      res := CheckReached(r, del, depth);
      RenewedTrans(s0, s1, st, del);
      KeptButAfter(s0, s1, st, g, c);
      KeptReads(s1, st, r);
    }

    /**
     * The rest of context_check, once r's chain is known to survive:
     * get_var_ptr, then CheckInside on the value read.
     */
    method CheckReached(r: RefId, del: CtxId, depth: nat) returns (res: Result<bool>)
      requires Valid() && r in st.refs && Survives(st, r, del)
      modifies this
      ensures Valid() && Renewed(old(st), st, del) && CellsKept(old(st), st)
      ensures res == Ok(true) ==> Survives(st, r, del)
      decreases depth, 1
    {
      RenewedRefl(st, del);
      ghost var s1 := st;
      var found := GetVarPtr(r);
      res := CheckInside(found.value, del, depth);
      SurvivesKept(s1, st, r, del);
    }

    /**
     * context_check's repair: the cell g, last_good_ref, becomes a root
     * holding a shallow clone of the value of t, the old root; g keeps its
     * owner.
     */
    method Reroot(g: RefId, t: RefId, ghost del: CtxId) returns (c: Cell)
      requires Valid() && g in st.refs && t in st.refs
      modifies this
      ensures Valid() && Renewed(old(st), st, del)
      ensures c == Cell(c.valuePtr, None, old(st.refs[g]).parentContext) && c.valuePtr !in old(st.vals) && c.valuePtr in st.vals
      ensures st.refs == old(st.refs)[g := c]
      ensures assert old(CellClosed(st, st.refs[t])); var x := old(st.vals[st.refs[t].valuePtr]);
        && (!x.Struct? ==> st.vals[c.valuePtr] == x)
        && (x.Struct? ==> x.properties in old(st.ctxs) && ShallowStruct(old(st), st, x.identifier, x.properties, c.valuePtr, true))
    {
      assert CellClosed(st, st.refs[t]) && CellClosed(st, st.refs[g]);
      ghost var s0 := st;
      var w := ShallowClone(st.refs[t].valuePtr);
      ghost var s1 := st;
      c := Cell(w, None, st.refs[g].parentContext);
      st := st.(refs := st.refs[g := c]);
      RerootRenewed(s0, s1, g, c, del);
      CellUpdateOK(s1, g, c);
    }

    /**
     * A new unowned root holding a shallow clone of the value cell x
     * caches (its own valuePtr, not the value its chain reads).
     */
    method RenewCell(x: RefId) returns (n: RefId)
      requires Valid() && x in st.refs
      modifies this
      ensures Valid() && OnlyAdds(old(st), st) && n !in old(st.refs) && n in st.refs
      ensures st.refs == old(st.refs)[n := Cell(st.refs[n].valuePtr, None, None)]
      ensures st.refs[n].valuePtr !in old(st.vals) && st.refs[n].valuePtr in st.vals
      ensures assert old(CellClosed(st, st.refs[x])); var y := old(st.vals[st.refs[x].valuePtr]);
        && (!y.Struct? ==> st.vals[st.refs[n].valuePtr] == y)
        && (y.Struct? ==> y.properties in old(st.ctxs) && ShallowStruct(old(st), st, y.identifier, y.properties, st.refs[n].valuePtr, true))
    {
      assert CellClosed(st, st.refs[x]);
      ghost var s0 := st;
      var w := ShallowClone(st.refs[x].valuePtr);
      ghost var s1 := st;
      n := NewCell(Cell(w, None, None));
      OnlyAddsTrans(s0, s1, st);
    }

    /** array->collection[i] = n. */
    method SetSlot(v: ValId, i: nat, n: RefId)
      requires Valid() && v in st.vals && st.vals[v].Array? && i < |st.vals[v].elems| && n in st.refs
      modifies this
      ensures Valid() && st == old(st).(vals := old(st.vals)[v := Array(old(st.vals[v]).elems[i := n])])
    {
      ghost var s0 := st;
      st := st.(vals := st.vals[v := Array(st.vals[v].elems[i := n])]);
      forall x | x in st.refs ensures CellClosed(st, st.refs[x]) {
        assert CellClosed(s0, s0.refs[x]);
      }
      forall u | u in st.vals ensures ValueClosed(st, st.vals[u]) {
        assert ValueClosed(s0, s0.vals[u]);
      }
      forall k | k in st.ctxs ensures ContextOK(st, st.ctxs[k]) {
        assert ContextOK(s0, s0.ctxs[k]);
      }
    }

    /** properties->collection[i]->unique_ref = n. */
    method SetBinding(p: CtxId, i: nat, n: RefId)
      requires Valid() && p in st.ctxs && i < |st.ctxs[p].collection| && n in st.refs
      modifies this
      ensures Valid()
      ensures var ctx := old(st.ctxs[p]);
        st == old(st).(ctxs := old(st.ctxs)[p := ctx.(collection := ctx.collection[i := Variable(ctx.collection[i].identifier, n)])])
    {
      ghost var s0 := st;
      var ctx := st.ctxs[p];
      var coll := ctx.collection[i := Variable(ctx.collection[i].identifier, n)];
      st := st.(ctxs := st.ctxs[p := ctx.(collection := coll)]);
      assert ContextOK(s0, ctx);
      assert ContextOK(st, st.ctxs[p]) by {
        forall a, b | 0 <= a < b < |coll| ensures coll[a].identifier != coll[b].identifier {
          assert coll[a].identifier == ctx.collection[a].identifier;
          assert coll[b].identifier == ctx.collection[b].identifier;
        }
      }
      forall x | x in st.refs ensures CellClosed(st, st.refs[x]) {
        assert CellClosed(s0, s0.refs[x]);
      }
      forall u | u in st.vals ensures ValueClosed(st, st.vals[u]) {
        assert ValueClosed(s0, s0.vals[u]);
      }
      forall k | k in st.ctxs && k != p ensures ContextOK(st, st.ctxs[k]) {
        assert ContextOK(s0, s0.ctxs[k]);
      }
    }

    /** `if (properties->parent_context == del) properties->parent_context = nullptr;` */
    method DetachScope(p: CtxId, del: CtxId)
      requires Valid() && p in st.ctxs
      modifies this
      ensures Valid() && Renewed(old(st), st, del) && CellsKept(old(st), st)
      ensures old(st.ctxs[p]).parentContext == Some(del) ==>
        st == old(st).(ctxs := old(st.ctxs)[p := old(st.ctxs[p]).(parentContext := None)])
      ensures old(st.ctxs[p]).parentContext != Some(del) ==> st == old(st)
    {
      RenewedRefl(st, del);
      if st.ctxs[p].parentContext == Some(del) {
        ghost var s0 := st;
        DetachRenewed(st, p, del);
        st := st.(ctxs := st.ctxs[p := st.ctxs[p].(parentContext := None)]);
        forall x | x in st.refs ensures CellClosed(st, st.refs[x]) {
          assert CellClosed(s0, s0.refs[x]);
        }
        forall u | u in st.vals ensures ValueClosed(st, st.vals[u]) {
          assert ValueClosed(s0, s0.vals[u]);
        }
        forall k | k in st.ctxs ensures ContextOK(st, st.ctxs[k]) {
          assert ContextOK(s0, s0.ctxs[k]);
        }
      }
    }

    /**
     * The second half of context_check: the slots of the array, or the
     * property scope and properties of the struct, that v is.
     */
    method CheckInside(v: ValId, del: CtxId, depth: nat) returns (res: Result<bool>)
      requires Valid() && v in st.vals
      modifies this
      ensures Valid() && Renewed(old(st), st, del) && CellsKept(old(st), st)
      ensures depth == 0 ==> res == Err(Diverges) && st == old(st)
      ensures depth > 0 && !old(st.vals[v]).Array? && !old(st.vals[v]).Struct? ==> res == Ok(true) && st == old(st)
      ensures res == Ok(true) && old(st.vals[v]).Array? ==> SlotsSurvive(st, v, del, |st.vals[v].elems|)
      ensures res == Ok(true) && old(st.vals[v]).Struct? ==>
        var p := old(st.vals[v]).properties;
        p in st.ctxs && st.ctxs[p].parentContext != Some(del) && BindingsSurvive(st, p, del, |st.ctxs[p].collection|)
      decreases depth, 0
    {
      RenewedRefl(st, del);
      if depth == 0 {
        return Err(Diverges);
      }
      match st.vals[v]
      case Array(_) =>
        res := CheckArray(v, del, depth - 1);
      case Struct(_, _) =>
        res := CheckStruct(v, del, depth - 1);
      case _ =>
        res := Ok(true);
    }

    /** context_check's loop over the slots of the array v. */
    method CheckArray(v: ValId, del: CtxId, d: nat) returns (res: Result<bool>)
      requires Valid() && v in st.vals && st.vals[v].Array?
      modifies this
      ensures Valid() && Renewed(old(st), st, del) && CellsKept(old(st), st)
      ensures res == Ok(true) ==> SlotsSurvive(st, v, del, |st.vals[v].elems|)
      decreases d, 5
    {
      ghost var s0 := st;
      RenewedRefl(st, del);
      var i := 0;
      while i < |st.vals[v].elems|
        invariant Valid() && Renewed(s0, st, del) && CellsKept(s0, st)
        invariant v in st.vals && st.vals[v].Array? && i <= |st.vals[v].elems|
        invariant SlotsSurvive(st, v, del, i)
      {
        ghost var s1 := st;
        var ok := CheckSlot(v, i, del, d);
        RenewedTrans(s0, s1, st, del);
        if ok != Ok(true) {
          return ok;
        }
        SlotsSurviveNext(s1, st, v, del, i);
        i := i + 1;
      }
      return Ok(true);
    }

    /**
     * One slot: a slot whose check fails gets a new unowned root holding
     * a shallow clone of the slot cell's value (RenewCell), which is then
     * checked once more.
     */
    method CheckSlot(v: ValId, i: nat, del: CtxId, d: nat) returns (res: Result<bool>)
      requires Valid() && v in st.vals && st.vals[v].Array? && i < |st.vals[v].elems|
      modifies this
      ensures Valid() && Renewed(old(st), st, del) && CellsKept(old(st), st)
      ensures v in st.vals && st.vals[v].Array? && |st.vals[v].elems| == |old(st.vals[v]).elems|
      ensures res == Ok(true) ==> Survives(st, st.vals[v].elems[i], del)
      decreases d, 4
    {
      ghost var s0 := st;
      var x := st.vals[v].elems[i];
      assert ValueClosed(st, st.vals[v]);
      var r1 := ContextCheck(x, del, false, d);
      assert SlotsRenewed(s0, s0.vals[v], st.vals[v]);
      assert ValueClosed(st, st.vals[v]);
      if r1 != Ok(false) {
        if r1 == Ok(true) {
          NowSurvives(s0, st, x, st.vals[v].elems[i], del);
        }
        return r1;
      }
      ghost var s1 := st;
      var n := RenewCell(st.vals[v].elems[i]);
      ghost var s2 := st;
      SetSlot(v, i, n);
      SlotRenewed(s1, s2, v, i, n, s2.refs[n], del);
      ghost var s3 := st;
      res := ContextCheck(n, del, false, d);
      RenewedTrans(s0, s1, s3, del);
      RenewedTrans(s0, s3, st, del);
      assert SlotsRenewed(s3, s3.vals[v], st.vals[v]);
      assert ValueClosed(st, st.vals[v]);
      if res == Ok(true) {
        NowSurvives(s3, st, n, st.vals[v].elems[i], del);
      }
    }

    /**
     * context_check's loop over the properties of the struct v, after its
     * property scope is detached from del (DetachScope).
     */
    method CheckStruct(v: ValId, del: CtxId, d: nat) returns (res: Result<bool>)
      requires Valid() && v in st.vals && st.vals[v].Struct?
      modifies this
      ensures Valid() && Renewed(old(st), st, del) && CellsKept(old(st), st)
      ensures var p := old(st.vals[v]).properties;
        && p in st.ctxs && st.ctxs[p].parentContext != Some(del)
        && (res == Ok(true) ==> BindingsSurvive(st, p, del, |st.ctxs[p].collection|))
      decreases d, 5
    {
      ghost var s0 := st;
      var p := st.vals[v].properties;
      assert ValueClosed(st, st.vals[v]);
      DetachScope(p, del);
      var i := 0;
      while i < |st.ctxs[p].collection|
        invariant Valid() && Renewed(s0, st, del) && CellsKept(s0, st)
        invariant p in st.ctxs && st.ctxs[p].parentContext != Some(del) && i <= |st.ctxs[p].collection|
        invariant BindingsSurvive(st, p, del, i)
      {
        ghost var s1 := st;
        var ok := CheckBinding(p, i, del, d);
        RenewedTrans(s0, s1, st, del);
        assert ScopeRenewed(s1, s1.ctxs[p], st.ctxs[p], del);
        if ok != Ok(true) {
          return ok;
        }
        BindingsSurviveNext(s1, st, p, del, i);
        i := i + 1;
      }
      return Ok(true);
    }

    /** One property, repaired as CheckSlot repairs a slot. */
    method CheckBinding(p: CtxId, i: nat, del: CtxId, d: nat) returns (res: Result<bool>)
      requires Valid() && p in st.ctxs && i < |st.ctxs[p].collection|
      modifies this
      ensures Valid() && Renewed(old(st), st, del) && CellsKept(old(st), st)
      ensures p in st.ctxs && |st.ctxs[p].collection| == |old(st.ctxs[p]).collection|
      ensures res == Ok(true) ==> Survives(st, st.ctxs[p].collection[i].uniqueRef, del)
      decreases d, 4
    {
      ghost var s0 := st;
      var x := st.ctxs[p].collection[i].uniqueRef;
      assert ContextOK(st, st.ctxs[p]);
      var r1 := ContextCheck(x, del, false, d);
      assert ScopeRenewed(s0, s0.ctxs[p], st.ctxs[p], del);
      assert ContextOK(st, st.ctxs[p]);
      if r1 != Ok(false) {
        if r1 == Ok(true) {
          NowSurvives(s0, st, x, st.ctxs[p].collection[i].uniqueRef, del);
        }
        return r1;
      }
      ghost var s1 := st;
      var n := RenewCell(st.ctxs[p].collection[i].uniqueRef);
      ghost var s2 := st;
      SetBinding(p, i, n);
      BindingRenewed(s1, s2, p, i, n, s2.refs[n], del);
      ghost var s3 := st;
      res := ContextCheck(n, del, false, d);
      RenewedTrans(s0, s1, s3, del);
      RenewedTrans(s0, s3, st, del);
      assert ScopeRenewed(s3, s3.ctxs[p], st.ctxs[p], del);
      assert ContextOK(st, st.ctxs[p]);
      if res == Ok(true) {
        NowSurvives(s3, st, n, st.ctxs[p].collection[i].uniqueRef, del);
      }
    }

    /**
     * unique_refrence::replaceNullContext on cell r: see
     * ReplaceNullContextIn.
     */
    method ReplaceNullContext(r: RefId, c: CtxId, depth: nat) returns (res: Result<()>)
      requires Valid() && r in st.refs && c in st.ctxs
      modifies this
      ensures Valid() && Filled(old(st), st, Reach(old(st), r, depth), c)
      ensures res.Ok? <==> Reach(old(st), r, depth).Ok?
      ensures res.Err? ==> res.error == Diverges
    {
      var s;
      s, res := ReplaceNullContextIn(st, r, c, depth);
      st := s;
    }
  }

  /**
   * unique_refrence::replaceNullContext: every cell and scope that Reach
   * visits from r, and that has no owner, gets the owner c (Filled, by
   * FillNull). Owners already set are never overwritten, and nothing but
   * owners changes.
   */
  method ReplaceNullContextIn(s: Store, r: RefId, c: CtxId, depth: nat) returns (s': Store, res: Result<()>)
    requires StoreOK(s) && r in s.refs && c in s.ctxs
    ensures StoreOK(s') && Filled(s, s', Reach(s, r, depth), c)
    ensures res.Ok? <==> Reach(s, r, depth).Ok?
    ensures res.Err? ==> res.error == Diverges
    decreases depth, 2
  {
    var s1 := FillOwner(s, r, c);
    StoreLinks(s1);
    FindRootClosed(s1.refs, r, |s1.refs|);
    var rv := RootValue(s1.refs, r);
    if rv.Ok? {
      assert CellClosed(s1, s1.refs[Root(s1.refs, r).value]);
      s', res := ReplaceInside(s1, rv.value, c, depth);
      ReachFilled(s, s1, s', r, rv.value, c, depth);
    } else {
      s', res := s1, Err(rv.error);
      ReachUnfilled(s, s1, r, c, depth);
    }
  }

  /** `if (this->parent_context == nullptr) this->parent_context = c;` for cell r. */
  method FillOwner(s: Store, r: RefId, c: CtxId) returns (s': Store)
    requires StoreOK(s) && r in s.refs && c in s.ctxs
    ensures StoreOK(s') && Filled(s, s', Ok(Footprint({r}, {})), c)
  {
    s' := s;
    if s.refs[r].parentContext.None? {
      s' := s.(refs := s.refs[r := s.refs[r].(parentContext := Some(c))]);
    }
    assert s'.refs == FillNull(s, Footprint({r}, {}), c).refs;
    assert s'.ctxs == FillNull(s, Footprint({r}, {}), c).ctxs;
    FillNullSkeleton(s, Footprint({r}, {}), c);
    FillNullOK(s, Footprint({r}, {}), c);
  }

  /** The same for the property scope p of a struct. */
  method FillScopeOwner(s: Store, p: CtxId, c: CtxId) returns (s': Store)
    requires StoreOK(s) && p in s.ctxs && c in s.ctxs
    ensures StoreOK(s') && Filled(s, s', Ok(Footprint({}, {p})), c)
  {
    s' := s;
    if s.ctxs[p].parentContext.None? {
      s' := s.(ctxs := s.ctxs[p := s.ctxs[p].(parentContext := Some(c))]);
    }
    assert s'.refs == FillNull(s, Footprint({}, {p}), c).refs;
    assert s'.ctxs == FillNull(s, Footprint({}, {p}), c).ctxs;
    FillNullSkeleton(s, Footprint({}, {p}), c);
    FillNullOK(s, Footprint({}, {p}), c);
  }

  /** The part of replaceNullContext after get_var_ptr: the value v's elements or properties. */
  method ReplaceInside(s: Store, v: ValId, c: CtxId, depth: nat) returns (s': Store, res: Result<()>)
    requires StoreOK(s) && v in s.vals && c in s.ctxs
    ensures StoreOK(s') && Filled(s, s', Inside(s, v, depth), c)
    ensures res.Ok? <==> Inside(s, v, depth).Ok?
    ensures res.Err? ==> res.error == Diverges
    decreases depth, 1
  {
    if depth == 0 {
      return s, Err(Diverges);
    }
    match s.vals[v]
    case Array(_) =>
      s', res := ReplaceArray(s, v, c, depth);
    case Struct(_, _) =>
      s', res := ReplaceStruct(s, v, c, depth);
    case _ =>
      s', res := s, Ok(());
      FillNullSkeleton(s, Footprint({}, {}), c);
      assert s' == FillNull(s, Footprint({}, {}), c);
  }

  /** The array case of ReplaceInside: every element cell. */
  method ReplaceArray(s: Store, v: ValId, c: CtxId, depth: nat) returns (s': Store, res: Result<()>)
    requires StoreOK(s) && v in s.vals && s.vals[v].Array? && c in s.ctxs && depth > 0
    ensures StoreOK(s') && Filled(s, s', Inside(s, v, depth), c)
    ensures res.Ok? <==> Inside(s, v, depth).Ok?
    ensures res.Err? ==> res.error == Diverges
    decreases depth, 0
  {
    assert ValueClosed(s, s.vals[v]);
    var d: nat := depth - 1;
    InsideArray(s, v, depth, d);
    s', res := ReplaceAll(s, s.vals[v].elems, c, d);
  }

  /** The struct case of ReplaceInside: the property scope, then its cells. */
  method ReplaceStruct(s: Store, v: ValId, c: CtxId, depth: nat) returns (s': Store, res: Result<()>)
    requires StoreOK(s) && v in s.vals && s.vals[v].Struct? && c in s.ctxs && depth > 0
    ensures StoreOK(s') && Filled(s, s', Inside(s, v, depth), c)
    ensures res.Ok? <==> Inside(s, v, depth).Ok?
    ensures res.Err? ==> res.error == Diverges
    decreases depth, 0
  {
    var p := s.vals[v].properties;
    assert ValueClosed(s, s.vals[v]);
    var d: nat := depth - 1;
    var s1 := FillScopeOwner(s, p, c);
    assert ContextOK(s1, s1.ctxs[p]);
    s', res := ReplaceAll(s1, BoundRefs(s1.ctxs[p].collection), c, d);
    StructFilled(s, s1, s', v, c, depth, d);
  }

  /** The loop of replaceNullContext over array elements or struct properties. */
  method ReplaceAll(s: Store, rs: seq<RefId>, c: CtxId, depth: nat) returns (s': Store, res: Result<()>)
    requires StoreOK(s) && c in s.ctxs && forall k :: 0 <= k < |rs| ==> rs[k] in s.refs
    ensures StoreOK(s') && Filled(s, s', ReachAll(s, rs, depth), c)
    ensures res.Ok? <==> ReachAll(s, rs, depth).Ok?
    ensures res.Err? ==> res.error == Diverges
    decreases depth, 3
  {
    FillNullSkeleton(s, Footprint({}, {}), c);
    assert s == FillNull(s, Footprint({}, {}), c);
    s' := s;
    var i := 0;
    while i < |rs|
      invariant i <= |rs| && StoreOK(s') && s'.refs.Keys == s.refs.Keys && c in s'.ctxs
      invariant ReachAll(s, rs[..i], depth).Ok? && Filled(s, s', ReachAll(s, rs[..i], depth), c)
    {
      var s1 := s';
      var r';
      s', r' := ReplaceNullContextIn(s1, rs[i], c, depth);
      AllFilledStep(s, s1, s', rs, i, c, depth);
      if r'.Err? {
        return s', r';
      }
      i := i + 1;
    }
    assert rs[..i] == rs;
    res := Ok(());
  }
}
