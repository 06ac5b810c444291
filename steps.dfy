/**
 * The heap steps execute and getValue in Source.cpp are made of: reading a
 * variable into a temporary cell, assigning through set_var_ptr, anchoring
 * a temporary, binding a parameter or a for-loop iterator, and repairing
 * the returned cell and the parameters when a call returns. Evolves says
 * how any of them may change the store.
 */
module Steps {
  import opened Errors
  import opened Objects
  import opened Chains
  import opened Graph
  import opened Repairs
  import opened Heaps
  import Contexts
  import Syntax
  import Operators

  /**
   * s1 keeps every record of s0; every scope of s0 keeps its names as a
   * prefix, and the scopes outside except keep exactly their names.
   */
  ghost predicate Evolves(s0: Store, s1: Store, except: set<CtxId>) {
    && Grows(s0, s1)
    && (forall c {:trigger Names(s0.ctxs[c].collection)} | c in s0.ctxs :: Names(s0.ctxs[c].collection) <= Names(s1.ctxs[c].collection))
    && (forall c {:trigger Names(s0.ctxs[c].collection)} | c in s0.ctxs && c !in except :: Names(s1.ctxs[c].collection) == Names(s0.ctxs[c].collection))
  }

  lemma EvolvesRefl(s: Store, except: set<CtxId>)
    ensures Evolves(s, s, except)
  {
  }

  /** Changes that leave the scopes alone evolve the store. */
  lemma ScopesKeptEvolve(s0: Store, s1: Store)
    requires Grows(s0, s1) && s1.ctxs == s0.ctxs
    ensures Evolves(s0, s1, {})
  {
  }

  lemma AddsEvolve(s0: Store, s1: Store)
    requires OnlyAdds(s0, s1)
    ensures Evolves(s0, s1, {})
  {
  }

  lemma SkeletonEvolves(s0: Store, s1: Store)
    requires SameSkeleton(s0, s1)
    ensures Evolves(s0, s1, {})
  {
  }

  lemma RenewedEvolves(s0: Store, s1: Store, del: CtxId)
    requires Renewed(s0, s1, del)
    ensures Evolves(s0, s1, {})
  {
    forall c | c in s0.ctxs ensures Names(s1.ctxs[c].collection) == Names(s0.ctxs[c].collection) {
      assert ScopeRenewed(s0, s0.ctxs[c], s1.ctxs[c], del);
    }
  }

  lemma RelinkEvolves(s0: Store, s1: Store)
    requires s1.ctxs == s0.ctxs && s1.vals == s0.vals && s1.refs.Keys == s0.refs.Keys
    ensures Evolves(s0, s1, {})
  {
  }

  /** Changes that add scopes and leave the existing ones alone evolve the store. */
  lemma NewScopesEvolve(s0: Store, s1: Store)
    requires Grows(s0, s1) && forall c | c in s0.ctxs :: s1.ctxs[c] == s0.ctxs[c]
    ensures Evolves(s0, s1, {})
  {
  }

  /**
   * Removing a binding of scope c that was appended after s1 (and changing
   * nothing else since s5) keeps the store evolved from s0, when c may change.
   */
  lemma RemovedEvolves(s0: Store, s1: Store, s5: Store, s6: Store, c: CtxId, except: set<CtxId>)
    requires Evolves(s0, s1, except) && Evolves(s0, s5, except) && c in except && c in s1.ctxs
    requires s6.refs == s5.refs && s6.vals == s5.vals && c in s5.ctxs && c in s6.ctxs && s6.ctxs == s5.ctxs[c := s6.ctxs[c]]
    requires Names(s1.ctxs[c].collection) <= Names(s6.ctxs[c].collection)
    ensures Evolves(s0, s6, except)
  {
  }

  /** A scope of an evolving store never loses bindings. */
  lemma EvolvesLength(s0: Store, s1: Store, except: set<CtxId>, c: CtxId)
    requires Evolves(s0, s1, except) && c in s0.ctxs
    ensures c in s1.ctxs && |s0.ctxs[c].collection| <= |s1.ctxs[c].collection|
  {
    assert Names(s0.ctxs[c].collection) <= Names(s1.ctxs[c].collection);
  }

  /** A scope that did not exist at the start may change freely. */
  lemma EvolvesNarrow(s0: Store, s1: Store, except: set<CtxId>, c: CtxId)
    requires Evolves(s0, s1, except) && c !in s0.ctxs
    ensures Evolves(s0, s1, except - {c})
  {
  }

  lemma EvolvesTrans(s0: Store, s1: Store, s2: Store, except: set<CtxId>)
    requires Evolves(s0, s1, except) && Evolves(s1, s2, except)
    ensures Evolves(s0, s2, except)
  {
  }

  lemma EvolvesWiden(s0: Store, s1: Store, e0: set<CtxId>, e1: set<CtxId>)
    requires Evolves(s0, s1, e0) && e0 <= e1
    ensures Evolves(s0, s1, e1)
  {
  }

  /** Appending a binding to scope c, and nothing else, evolves the store outside c. */
  lemma AppendEvolves(s0: Store, s1: Store, c: CtxId, v: Variable)
    requires c in s0.ctxs && c in s1.ctxs && s1 == s0.(ctxs := s0.ctxs[c := s1.ctxs[c]])
    requires s1.ctxs[c].collection == s0.ctxs[c].collection + [v]
    ensures Evolves(s0, s1, {c})
    ensures Names(s1.ctxs[c].collection) == Names(s0.ctxs[c].collection) + [v.identifier]
  {
    var a := s0.ctxs[c].collection;
    assert Names(a + [v]) == Names(a) + [v.identifier];
  }

  /** A name bound in a prefix of a scope's names is bound in the scope. */
  lemma BindsPrefix(a: seq<Variable>, b: seq<Variable>, name: string)
    requires Names(a) <= Names(b) && Contexts.Binds(a, name)
    ensures Contexts.Binds(b, name)
  {
    var i :| 0 <= i < |a| && a[i].identifier == name;
    assert Names(a)[i] == Names(b)[i];
  }

  /** A name bound in scope a or scope b stays bound in one of them. */
  lemma BindsKept(s0: Store, s1: Store, a: CtxId, b: CtxId, name: string, except: set<CtxId>)
    requires Evolves(s0, s1, except) && a in s0.ctxs && b in s0.ctxs
    requires Contexts.Binds(s0.ctxs[a].collection, name) || Contexts.Binds(s0.ctxs[b].collection, name)
    ensures Contexts.Binds(s1.ctxs[a].collection, name) || Contexts.Binds(s1.ctxs[b].collection, name)
  {
    if Contexts.Binds(s0.ctxs[a].collection, name) {
      BindsPrefix(s0.ctxs[a].collection, s1.ctxs[a].collection, name);
    } else {
      BindsPrefix(s0.ctxs[b].collection, s1.ctxs[b].collection, name);
    }
  }

  /** A cell that has an owner keeps it through context_check and replaceNullContext. */
  lemma OwnerStays(s0: Store, s1: Store, s2: Store, r: RefId, x: RefId, c: CtxId, del: CtxId, depth: nat)
    requires r in s0.refs && s0.refs[r].parentContext.Some?
    requires Renewed(s0, s1, del) && Filled(s1, s2, Reach(s1, x, depth), c) && Reach(s1, x, depth).Ok?
    ensures s2.refs[r].parentContext.Some?
  {
  }

  /** replaceNullContext gives the cell it starts from an owner when it completes. */
  lemma FilledOwns(s0: Store, s1: Store, r: RefId, c: CtxId, depth: nat)
    requires r in s0.refs && Reach(s0, r, depth).Ok? && Filled(s0, s1, Reach(s0, r, depth), c)
    ensures s1.refs[r].parentContext.Some?
  {
    assert r in Reach(s0, r, depth).value.cells;
  }

  /** A shallow struct copy survives adding records. */
  lemma ShallowKept(s0: Store, s1: Store, s2: Store, id: string, p: CtxId, w: ValId)
    requires StoreOK(s0) && StoreOK(s1) && p in s0.ctxs && ShallowStruct(s0, s1, id, p, w, false) && OnlyAdds(s1, s2)
    ensures ShallowStruct(s0, s2, id, p, w, false)
  {
    var q := s1.vals[w].properties;
    var from := s0.ctxs[p].collection;
    forall i | 0 <= i < |from|
      ensures AliasOf(s0, s2, from[i].uniqueRef, s2.ctxs[q].collection[i].uniqueRef)
    {
      AliasKept(s0, s1, s2, from[i].uniqueRef, s1.ctxs[q].collection[i].uniqueRef);
    }
  }

  // ---------------------------------------------------------------------
  // Temporaries.
  // ---------------------------------------------------------------------

  /** new unique_refrence(new value(x), nullptr, owner). */
  method NewRoot(h: Heap, x: Value, owner: Option<CtxId>) returns (r: RefId)
    requires h.Valid() && ValueClosed(h.st, x) && (owner.Some? ==> owner.value in h.st.ctxs)
    modifies h
    ensures h.Valid() && OnlyAdds(old(h.st), h.st) && h.st.ctxs == old(h.st.ctxs)
    ensures r !in old(h.st.refs) && r in h.st.refs && h.st.refs == old(h.st.refs)[r := h.st.refs[r]]
    ensures h.st.refs[r].parentRef.None? && h.st.refs[r].parentContext == owner
    ensures var v := h.st.refs[r].valuePtr; v !in old(h.st.vals) && v in h.st.vals && h.st.vals[v] == x
  {
    ghost var s0 := h.st;
    var v := h.NewValue(x);
    ghost var s1 := h.st;
    r := h.NewCell(Cell(v, None, owner));
    OnlyAddsTrans(s0, s1, h.st);
  }

  /**
   * The reading of getValue for an array, or for any value when a
   * reference is forced: a new cell linked to p, owned by p's owner and
   * caching the value p reads, which it then reads too.
   */
  method ReadThrough(h: Heap, p: RefId) returns (n: RefId)
    requires h.Valid() && p in h.st.refs && RootValue(h.st.refs, p).Ok?
    modifies h
    ensures h.Valid() && OnlyAdds(old(h.st), h.st)
    ensures n !in old(h.st.refs) && n in h.st.refs
    ensures h.st.refs[n] == Cell(RootValue(old(h.st.refs), p).value, Some(p), old(h.st.refs[p].parentContext))
    ensures RootValue(h.st.refs, n) == RootValue(old(h.st.refs), p)
  {
    ghost var s0 := h.st;
    StoreLinks(s0);
    var r := h.GetVarPtr(p);
    var x := r.value;
    var c := Cell(x, Some(p), h.st.refs[p].parentContext);
    assert CellClosed(h.st, h.st.refs[p]);
    n := h.NewCell(c);
    NewCellRoot(s0.refs, n, c);
  }

  /**
   * The reading of getValue for a struct: a new unowned root holding a
   * shallow clone whose properties alias the original's.
   */
  method ReadStruct(h: Heap, id: string, props: CtxId) returns (res: Result<RefId>)
    requires h.Valid() && props in h.st.ctxs
    modifies h
    ensures h.Valid() && OnlyAdds(old(h.st), h.st)
    ensures res.Err? ==> res.error == Diverges
    ensures res.Ok? ==>
      && res.value !in old(h.st.refs) && res.value in h.st.refs
      && h.st.refs[res.value].parentRef.None? && h.st.refs[res.value].parentContext.None?
      && ShallowStruct(old(h.st), h.st, id, props, h.st.refs[res.value].valuePtr, false)
  {
    ghost var s0 := h.st;
    var w :- h.StructShallowClone(id, props, false);
    ghost var s1 := h.st;
    var n := h.NewCell(Cell(w, None, None));
    ShallowKept(s0, s1, h.st, id, props, w);
    OnlyAddsTrans(s0, s1, h.st);
    res := Ok(n);
  }

  /** The reading of getValue for a scalar: a new unowned root holding a copy. */
  method ReadScalar(h: Heap, x: ValId, depth: nat) returns (n: RefId)
    requires h.Valid() && x in h.st.vals && !h.st.vals[x].Array? && !h.st.vals[x].Struct? && depth > 0
    modifies h
    ensures h.Valid() && OnlyAdds(old(h.st), h.st)
    ensures n !in old(h.st.refs) && n in h.st.refs
    ensures h.st.refs[n].parentRef.None? && h.st.refs[n].parentContext.None?
    ensures h.st.refs[n].valuePtr !in old(h.st.vals) && h.st.refs[n].valuePtr in h.st.vals
    ensures h.st.vals[h.st.refs[n].valuePtr] == old(h.st.vals[x])
  {
    ghost var s0 := h.st;
    var r := h.Clone(x, depth);
    var w := r.value;
    ghost var s1 := h.st;
    n := h.NewCell(Cell(w, None, None));
    OnlyAddsTrans(s0, s1, h.st);
  }

  /**
   * What reading the variable's cell p into a new temporary gives, from
   * s0 to st: a chain without root gives Diverges and nothing changes; an
   * array, or anything when force is set, gives an alias of p reading the
   * same value; a struct a shallow clone; anything else a new root holding
   * a copy of the value.
   */
  ghost predicate ReadOf(s0: Store, st: Store, p: RefId, force: bool, res: Result<RefId>)
    requires StoreOK(s0) && p in s0.refs
  {
    && (RootValue(s0.refs, p).Err? ==> res == Err(Diverges) && st == s0)
    && (RootValue(s0.refs, p).Ok? ==>
          var x := RootValue(s0.refs, p).value;
          && x in s0.vals
          && var val := s0.vals[x];
          && (val.Array? || force ==>
                && res.Ok? && res.value in st.refs
                && st.refs[res.value] == Cell(x, Some(p), s0.refs[p].parentContext)
                && RootValue(st.refs, res.value) == Ok(x))
          && (!val.Array? && !force && val.Struct? ==>
                && (res.Err? ==> res.error == Diverges)
                && (res.Ok? ==> res.value in st.refs && val.properties in s0.ctxs
                                && ShallowStruct(s0, st, val.identifier, val.properties, st.refs[res.value].valuePtr, false)))
          && (!val.Array? && !force && !val.Struct? ==>
                && res.Ok? && res.value in st.refs
                && st.refs[res.value].parentRef.None? && st.refs[res.value].parentContext.None?
                && st.refs[res.value].valuePtr !in s0.vals && st.refs[res.value].valuePtr in st.vals
                && st.vals[st.refs[res.value].valuePtr] == val))
  }

  /**
   * The TOK_IDENTIFIER case of getValue once the variable's cell p is
   * known: an array, or anything when force is set, is read through p
   * (ReadThrough); a struct as a shallow clone (ReadStruct); anything else
   * as a copy (ReadScalar). A chain without root gives Diverges.
   */
  method ReadCell(h: Heap, p: RefId, force: bool, depth: nat) returns (res: Result<RefId>)
    requires h.Valid() && p in h.st.refs && depth > 0
    modifies h
    ensures h.Valid() && OnlyAdds(old(h.st), h.st)
    ensures res.Ok? ==> res.value !in old(h.st.refs) && res.value in h.st.refs
    ensures ReadOf(old(h.st), h.st, p, force, res)
  {
    var x :- h.GetVarPtr(p);
    var val := h.st.vals[x];
    if val.Array? || force {
      var n := ReadThrough(h, p);
      return Ok(n);
    }
    if val.Struct? {
      assert ValueClosed(h.st, val);
      res := ReadStruct(h, val.identifier, val.properties);
      return;
    }
    var n := ReadScalar(h, x, depth);
    res := Ok(n);
  }

  // ---------------------------------------------------------------------
  // Assignment.
  // ---------------------------------------------------------------------

  /**
   * target->set_var_ptr(src->get_var_ptr()): the chain of target takes the
   * value src reads, so target reads it too. No link and no record is
   * added; on an error nothing changes.
   */
  method Assign(h: Heap, target: RefId, src: RefId) returns (res: Result<()>)
    requires h.Valid() && target in h.st.refs && src in h.st.refs
    modifies h
    ensures h.Valid() && h.st.vals == old(h.st.vals) && h.st.ctxs == old(h.st.ctxs)
    ensures h.st.refs.Keys == old(h.st.refs).Keys && SameLinksOn(old(h.st.refs), h.st.refs)
    ensures Evolves(old(h.st), h.st, {})
    ensures res.Err? ==> h.st == old(h.st)
    ensures RootValue(old(h.st.refs), src).Err? ==> res == Err(Diverges)
    ensures res.Ok? ==> RootValue(old(h.st.refs), src).Ok? && RootValue(h.st.refs, target) == RootValue(old(h.st.refs), src)
    ensures res.Ok? ==> Root(old(h.st.refs), target).Ok? && RootValue(h.st.refs, src) == RootValue(old(h.st.refs), src)
  {
    ghost var s0 := h.st;
    var x :- h.GetVarPtr(src);
    res := h.SetVarPtr(target, x);
    PointAtKeepsLinks(s0.refs, Walk(s0.refs, target, |s0.refs|), x);
    RelinkEvolves(s0, h.st);
    if res.Ok? {
      LinksKeepRoot(s0.refs, h.st.refs, src);
    }
  }

  /** Stores with the same cells and the same links give every cell the same root. */
  lemma LinksKeepRoot(a: map<RefId, Cell>, b: map<RefId, Cell>, r: RefId)
    requires a.Keys == b.Keys && SameLinksOn(a, b)
    ensures Root(b, r) == Root(a, r)
  {
    FindRootSame(a, b, r, |a|);
  }

  /**
   * Between s0 and s1 target was given the value v reads and nothing was
   * relinked: both cells keep their roots and now read the same value.
   */
  lemma AssignedReads(s0: Store, s1: Store, target: RefId, v: RefId)
    requires s0.refs.Keys == s1.refs.Keys && SameLinksOn(s0.refs, s1.refs)
    requires RootValue(s0.refs, v).Ok? && RootValue(s1.refs, target) == RootValue(s0.refs, v)
    requires RootValue(s1.refs, v) == RootValue(s0.refs, v)
    ensures Root(s1.refs, target) == Root(s0.refs, target) && Root(s1.refs, v) == Root(s0.refs, v)
    ensures RootValue(s1.refs, target) == RootValue(s1.refs, v)
  {
    LinksKeepRoot(s0.refs, s1.refs, target);
    LinksKeepRoot(s0.refs, s1.refs, v);
  }

  /** Filling owners keeps the roots and what every cell reads. */
  lemma SkeletonReads(s0: Store, s1: Store, r: RefId)
    requires SameSkeleton(s0, s1)
    ensures Root(s1.refs, r) == Root(s0.refs, r) && RootValue(s1.refs, r) == RootValue(s0.refs, r)
  {
    LinksKeepRoot(s0.refs, s1.refs, r);
  }

  /**
   * The tail shared by assignment, return and parameter binding, with
   * target the cell that was given the value temp reads: a temporary
   * root is linked to target (`temp->parent_refrence = target`); a
   * temporary alias makes target's root point at temp's parent
   * (change_refrence), so target reads through the same chain.
   */
  method Adopt(h: Heap, target: RefId, temp: RefId) returns (res: Result<()>)
    requires h.Valid() && target in h.st.refs && temp in h.st.refs
    modifies h
    ensures h.Valid() && h.st.vals == old(h.st.vals) && h.st.ctxs == old(h.st.ctxs)
    ensures h.st.refs.Keys == old(h.st.refs).Keys && Evolves(old(h.st), h.st, {})
    ensures old(h.st.refs[temp].parentRef.None?) ==>
      res.Ok? && h.st.refs == old(h.st.refs)[temp := old(h.st.refs[temp]).(parentRef := Some(target))]
    ensures old(h.st.refs[temp].parentRef.Some?) ==>
      && (res.Ok? <==> Root(old(h.st.refs), target).Ok?)
      && (res.Ok? ==>
            h.st.refs == Reparent(old(h.st.refs), Root(old(h.st.refs), target).value, old(h.st.refs[temp].parentRef.value)))
    ensures res.Ok? && Root(old(h.st.refs), target).Ok? && RootValue(old(h.st.refs), temp).Ok?
                    && RootValue(old(h.st.refs), target) == RootValue(old(h.st.refs), temp) ==>
      && (Root(old(h.st.refs), target) != Root(old(h.st.refs), temp) ==>
            RootValue(h.st.refs, target) == RootValue(old(h.st.refs), temp))
      && (Root(old(h.st.refs), target) == Root(old(h.st.refs), temp) ==>
            RootValue(h.st.refs, target) == Err(Diverges))
  {
    ghost var s0 := h.st;
    StoreLinks(s0);
    var c := h.st.refs[temp];
    if c.parentRef.None? {
      h.Link(temp, target);
      RelinkEvolves(s0, h.st);
      assert h.st.refs == Reparent(s0.refs, temp, target);
      if Root(s0.refs, target).Ok? && Root(s0.refs, target) != Ok(temp) {
        LinkElsewhere(s0.refs, temp, target, target);
      } else if Root(s0.refs, target) == Ok(temp) {
        ReparentShared(s0.refs, target, target);
      }
      return Ok(());
    }
    assert CellClosed(h.st, c);
    var p := c.parentRef.value;
    res := h.ChangeReference(target, p);
    RelinkEvolves(s0, h.st);
    if res.Ok? && RootValue(s0.refs, temp).Ok? {
      ParentRoot(s0.refs, temp);
      if Root(s0.refs, target) != Root(s0.refs, temp) {
        ReparentReads(s0.refs, target, p);
      } else {
        ReparentShared(s0.refs, target, p);
      }
    }
  }

  /**
   * The declaring half of TOK_SET_VARIABLE: a new unowned root holding a
   * new null value, bound to name at the end of scope.
   */
  method DeclareTarget(h: Heap, scope: CtxId, name: string) returns (r: RefId)
    requires h.Valid() && scope in h.st.ctxs && !Contexts.Binds(h.st.ctxs[scope].collection, name)
    modifies h
    ensures h.Valid() && Grows(old(h.st), h.st) && Evolves(old(h.st), h.st, {scope})
    ensures r !in old(h.st.refs) && r in h.st.refs
    ensures h.st.refs[r].parentRef.None? && h.st.refs[r].parentContext.None?
    ensures h.st.refs[r].valuePtr in h.st.vals && h.st.vals[h.st.refs[r].valuePtr] == Null
    ensures scope in h.st.ctxs && h.st.ctxs == old(h.st.ctxs)[scope := h.st.ctxs[scope]]
    ensures h.st.ctxs[scope].collection == old(h.st.ctxs[scope].collection) + [Variable(name, r)]
  {
    r := NewRoot(h, Null, None);
    ghost var s1 := h.st;
    var d := h.DeclareIn(scope, name, r);
    AppendEvolves(s1, h.st, scope, Variable(name, r));
    AddsEvolve(old(h.st), s1);
    EvolvesWiden(old(h.st), s1, {}, {scope});
    EvolvesTrans(old(h.st), s1, h.st, {scope});
  }

  // ---------------------------------------------------------------------
  // Calls and loops.
  // ---------------------------------------------------------------------

  /**
   * target took the value v reads in s0 (set_var_ptr, then
   * change_refrence): when the two chains had different roots, target now
   * reads that value; when they shared one, target's chain never ends.
   */
  ghost predicate TakesValue(s0: Store, st: Store, target: RefId, v: RefId) {
    && RootValue(s0.refs, v).Ok? && Root(s0.refs, target).Ok?
    && (Root(s0.refs, target) != Root(s0.refs, v) ==> RootValue(st.refs, target) == RootValue(s0.refs, v))
    && (Root(s0.refs, target) == Root(s0.refs, v) ==> RootValue(st.refs, target) == Err(Diverges))
  }

  /**
   * One parameter: its new cell takes the value the argument reads
   * (set_var_ptr), gets the callee scope as owner wherever an owner is
   * missing, and then adopts the argument's temporary.
   */
  method BindArgument(h: Heap, cell: RefId, a: RefId, callee: CtxId, depth: nat) returns (res: Result<()>)
    requires h.Valid() && cell in h.st.refs && a in h.st.refs && callee in h.st.ctxs
    modifies h
    ensures h.Valid() && Evolves(old(h.st), h.st, {})
    ensures res.Ok? && old(h.st.refs[a].parentRef.None?) ==> h.st.refs[a].parentRef == Some(cell)
    ensures res.Ok? ==> TakesValue(old(h.st), h.st, cell, a)
    ensures h.st.ctxs[callee].collection == old(h.st.ctxs[callee].collection)
  {
    ghost var s0 := h.st;
    var _ :- Assign(h, cell, a);
    ghost var s1 := h.st;
    AssignedReads(s0, s1, cell, a);
    var _ :- h.ReplaceNullContext(cell, callee, depth);
    SkeletonEvolves(s1, h.st);
    EvolvesTrans(s0, s1, h.st, {});
    ghost var s2 := h.st;
    SkeletonReads(s1, s2, cell);
    SkeletonReads(s1, s2, a);
    res := Adopt(h, cell, a);
    EvolvesTrans(s0, s2, h.st, {});
  }

  /**
   * The declaration of a parameter or of a for-loop iterator: a new null
   * cell owned by the scope callee is declared as name there; declare
   * throws on a repeated name.
   */
  method DeclareOwned(h: Heap, callee: CtxId, name: string) returns (res: Result<RefId>)
    requires h.Valid() && callee in h.st.ctxs
    modifies h
    ensures h.Valid() && Evolves(old(h.st), h.st, {callee})
    ensures Contexts.Binds(old(h.st.ctxs[callee].collection), name) ==> res == Err(VariableAlreadyDefined)
    ensures res.Ok? ==> res.value in h.st.refs
    ensures res.Ok? ==> Names(h.st.ctxs[callee].collection) == Names(old(h.st.ctxs[callee].collection)) + [name]
    ensures res.Ok? ==>
      && CellsKept(old(h.st), h.st) && res.value !in old(h.st.refs)
      && h.st.refs[res.value].parentRef.None? && h.st.refs[res.value].parentContext == Some(callee)
      && h.st.ctxs[callee].collection == old(h.st.ctxs[callee].collection) + [Variable(name, res.value)]
  {
    ghost var s0 := h.st;
    var cell := NewRoot(h, Null, Some(callee));
    ghost var s1 := h.st;
    var _ :- h.DeclareIn(callee, name, cell);
    ghost var s2 := h.st;
    AppendEvolves(s1, s2, callee, Variable(name, cell));
    AddsEvolve(s0, s1);
    EvolvesWiden(s0, s1, {}, {callee});
    EvolvesTrans(s0, s1, s2, {callee});
    res := Ok(cell);
  }

  /**
   * One parameter of a user call: DeclareOwned, then the new cell takes
   * the argument a (BindArgument).
   */
  method BindParam(h: Heap, callee: CtxId, name: string, a: RefId, depth: nat) returns (res: Result<()>)
    requires h.Valid() && callee in h.st.ctxs && a in h.st.refs
    modifies h
    ensures h.Valid() && Evolves(old(h.st), h.st, {callee})
    ensures Contexts.Binds(old(h.st.ctxs[callee].collection), name) ==> res == Err(VariableAlreadyDefined)
    ensures res.Ok? ==> Names(h.st.ctxs[callee].collection) == Names(old(h.st.ctxs[callee].collection)) + [name]
    ensures res.Ok? ==>
      var coll := h.st.ctxs[callee].collection;
      && |coll| == |old(h.st.ctxs[callee].collection)| + 1
      && coll[..|coll| - 1] == old(h.st.ctxs[callee].collection) && coll[|coll| - 1].identifier == name
      && RootValue(h.st.refs, coll[|coll| - 1].uniqueRef) == RootValue(old(h.st.refs), a)
  {
    ghost var s0 := h.st;
    var cell :- DeclareOwned(h, callee, name);
    ghost var s2 := h.st;
    KeptReads(s0, s2, a);
    assert Root(s2.refs, cell) == Ok(cell);
    res := BindArgument(h, cell, a, callee, depth);
    EvolvesWiden(s2, h.st, {}, {callee});
    EvolvesTrans(s0, s2, h.st, {callee});
  }

  /**
   * The tail of TOK_SET_VARIABLE once the target and the value's
   * temporary v are known: the target takes the value v reads (Assign);
   * for a temporary root the target's cells get the frame's scope as
   * owner where they have none before v is linked to the target; a
   * temporary alias re-parents the target's root instead (Adopt).
   */
  method AssignVariable(h: Heap, target: RefId, v: RefId, local: CtxId, depth: nat) returns (res: Result<()>)
    requires h.Valid() && target in h.st.refs && v in h.st.refs && local in h.st.ctxs
    modifies h
    ensures h.Valid() && Evolves(old(h.st), h.st, {}) && h.st.vals == old(h.st.vals)
    ensures res.Ok? && old(h.st.refs[v].parentRef.None?) ==> h.st.refs[v].parentRef == Some(target)
    ensures res.Ok? ==> TakesValue(old(h.st), h.st, target, v)
  {
    ghost var s0 := h.st;
    var _ :- Assign(h, target, v);
    ghost var s1 := h.st;
    AssignedReads(s0, s1, target, v);
    if h.st.refs[v].parentRef.None? {
      var _ :- h.ReplaceNullContext(target, local, depth);
      SkeletonEvolves(s1, h.st);
      EvolvesTrans(s0, s1, h.st, {});
      SkeletonReads(s1, h.st, target);
      SkeletonReads(s1, h.st, v);
    }
    ghost var s2 := h.st;
    res := Adopt(h, target, v);
    EvolvesTrans(s0, s2, h.st, {});
  }

  /**
   * The tail of TOK_RETURN once the value's temporary v is known: the
   * block's return value ret takes the value v reads (Assign), then
   * adopts v (Adopt).
   */
  method AssignReturn(h: Heap, ret: RefId, v: RefId) returns (res: Result<()>)
    requires h.Valid() && ret in h.st.refs && v in h.st.refs
    modifies h
    ensures h.Valid() && Evolves(old(h.st), h.st, {}) && h.st.vals == old(h.st.vals) && h.st.ctxs == old(h.st.ctxs)
    ensures res.Ok? && old(h.st.refs[v].parentRef.None?) ==> h.st.refs[v].parentRef == Some(ret)
    ensures res.Ok? ==> TakesValue(old(h.st), h.st, ret, v)
  {
    ghost var s0 := h.st;
    var _ :- Assign(h, ret, v);
    ghost var s1 := h.st;
    AssignedReads(s0, s1, ret, v);
    res := Adopt(h, ret, v);
    EvolvesTrans(s0, s1, h.st, {});
  }

  /**
   * One round of the for loop: the iterator's chain takes the value the
   * slot reads (set_var_ptr), then the root of the iterator's chain is
   * re-parented to the slot (change_refrence).
   */
  method BindIterator(h: Heap, it: RefId, item: RefId) returns (res: Result<()>)
    requires h.Valid() && it in h.st.refs && item in h.st.refs
    modifies h
    ensures h.Valid() && Evolves(old(h.st), h.st, {})
    ensures h.st.ctxs == old(h.st.ctxs) && h.st.vals == old(h.st.vals)
    ensures res.Ok? ==> RootValue(old(h.st.refs), item).Ok? && Root(old(h.st.refs), it).Ok?
    ensures res.Ok? && Root(old(h.st.refs), it) != Root(old(h.st.refs), item) ==>
      && h.st.refs[Root(old(h.st.refs), it).value].parentRef == Some(item)
      && Root(h.st.refs, it) == Root(old(h.st.refs), item)
      && RootValue(h.st.refs, it) == RootValue(old(h.st.refs), item)
    ensures res.Ok? && Root(old(h.st.refs), it) == Root(old(h.st.refs), item) ==>
      RootValue(h.st.refs, it) == Err(Diverges)
  {
    ghost var s0 := h.st;
    var _ :- Assign(h, it, item);
    ghost var s1 := h.st;
    AssignedReads(s0, s1, it, item);
    StoreLinks(s1);
    res := h.ChangeReference(it, item);
    RelinkEvolves(s1, h.st);
    EvolvesTrans(s0, s1, h.st, {});
    if res.Ok? {
      if Root(s1.refs, it) != Root(s1.refs, item) {
        ReparentReads(s1.refs, it, item);
      } else {
        ReparentShared(s1.refs, it, item);
      }
    }
  }

  /**
   * Removing the first binding of name from coll, whose names start with
   * those of prior (which does not bind name) and then name, keeps the
   * names of prior as a prefix; with unique names none is left.
   */
  lemma IteratorRemoved(prior: seq<Variable>, coll: seq<Variable>, name: string)
    requires !Contexts.Binds(prior, name) && UniqueNames(coll)
    requires Names(prior) + [name] <= Names(coll)
    ensures |prior| < |coll| && Contexts.Binds(coll, name) && Contexts.FirstIndex(coll, name) == |prior|
    ensures var after := Contexts.RemoveAt(coll, |prior|);
      Names(prior) <= Names(after) && !Contexts.Binds(after, name)
  {
    var m := |prior|;
    assert Names(coll)[m] == name;
    forall j | 0 <= j < m ensures coll[j].identifier != name {
      assert Names(coll)[j] == Names(prior)[j];
    }
    var after := Contexts.RemoveAt(coll, m);
    forall k | 0 <= k < m ensures Names(after)[k] == Names(prior)[k] {
      assert after[k] == coll[k];
      assert Names(coll)[k] == Names(prior)[k];
    }
    RemovedUnique(coll, m);
  }

  /** With unique names, the name at position m is gone once m is removed. */
  lemma RemovedUnique(coll: seq<Variable>, m: nat)
    requires UniqueNames(coll) && m < |coll|
    ensures !Contexts.Binds(Contexts.RemoveAt(coll, m), coll[m].identifier)
  {
    var after := Contexts.RemoveAt(coll, m);
    forall j | 0 <= j < |after| ensures after[j].identifier != coll[m].identifier {
      if j < m {
        assert after[j] == coll[j];
      } else {
        assert after[j] == coll[j + 1];
      }
    }
  }

  /**
   * The end of a for loop that ran out or broke: the iterator's binding,
   * the first binding of name, is removed (var_context::remove). s1 is the
   * store before the iterator was declared and s2 right after.
   */
  method RemoveIterator(h: Heap, local: CtxId, name: string, ghost s1: Store, ghost s2: Store)
    requires h.Valid() && local in h.st.ctxs && local in s1.ctxs && local in s2.ctxs
    requires !Contexts.Binds(s1.ctxs[local].collection, name)
    requires Names(s2.ctxs[local].collection) == Names(s1.ctxs[local].collection) + [name]
    requires Names(s2.ctxs[local].collection) <= Names(h.st.ctxs[local].collection)
    modifies h
    ensures h.Valid() && h.st.refs == old(h.st.refs) && h.st.vals == old(h.st.vals)
    ensures local in h.st.ctxs && h.st.ctxs == old(h.st.ctxs)[local := h.st.ctxs[local]]
    ensures Names(s1.ctxs[local].collection) <= Names(h.st.ctxs[local].collection)
    ensures !Contexts.Binds(h.st.ctxs[local].collection, name)
  {
    ghost var coll := h.st.ctxs[local].collection;
    assert ContextOK(h.st, h.st.ctxs[local]);
    IteratorRemoved(s1.ctxs[local].collection, coll, name);
    var _ := h.RemoveIn(local, name);
  }

  /**
   * What x reads once context_check(del, true) has run from s0 to s1:
   * when the chain had to be repaired, x's chain now ends at the cell
   * `at` of the verdict, which holds a value not in s0; otherwise x reads
   * what it read.
   */
  ghost predicate RepairedReads(s0: Store, s1: Store, x: RefId, del: CtxId)
    requires x in s0.refs
  {
    var v := ChainVerdict(s0.refs, x, del);
    && (v.Ok? && v.value.Repair? ==>
          && Root(s1.refs, x) == Ok(v.value.at)
          && RootValue(s1.refs, x).Ok? && RootValue(s1.refs, x).value !in s0.vals)
    && (!(v.Ok? && v.value.Repair?) ==> RootValue(s1.refs, x) == RootValue(s0.refs, x))
  }

  /** replaceNullContext does not change what a repaired cell reads. */
  lemma RepairedReadsFilled(s0: Store, s1: Store, s2: Store, x: RefId, del: CtxId)
    requires x in s0.refs && RepairedReads(s0, s1, x, del) && SameSkeleton(s1, s2)
    ensures RepairedReads(s0, s2, x, del)
  {
    SkeletonReads(s1, s2, x);
  }

  /**
   * replaceNullContext with a scope c other than del gives owners only to
   * cells without one, so a cell that survives the deletion of del still
   * does.
   */
  lemma FilledSurvives(s1: Store, s2: Store, x: RefId, del: CtxId, f: Result<Footprint>, c: CtxId)
    requires Survives(s1, x, del) && Filled(s1, s2, f, c) && f.Ok? && c != del
    ensures Survives(s2, x, del)
  {
    SkeletonReads(s1, s2, x);
  }

  /**
   * A cell that survives the deletion of a parentless scope del reads a
   * cell that del's destructor does not free.
   */
  lemma SurvivorNotFreed(st: Store, x: RefId, del: CtxId)
    requires Survives(st, x, del) && del in st.ctxs && st.ctxs[del].parentContext.None?
    ensures Root(st.refs, x).value !in Contexts.FreedOnTeardown(st, del)
  {
  }

  /**
   * context_check(callee, true) on x: the store is renewed, x reads what
   * RepairedReads says, and true means x survives the deletion of callee.
   */
  method CheckOut(h: Heap, x: RefId, callee: CtxId, depth: nat) returns (res: Result<bool>)
    requires h.Valid() && x in h.st.refs
    modifies h
    ensures h.Valid() && Renewed(old(h.st), h.st, callee)
    ensures RepairedReads(old(h.st), h.st, x, callee)
    ensures res == Ok(true) ==> Survives(h.st, x, callee)
  {
    ghost var s0 := h.st;
    res := h.ContextCheck(x, callee, true, depth);
    var v := ChainVerdict(s0.refs, x, callee);
    if v == Ok(Safe) {
      KeptReads(s0, h.st, x);
    } else if v.Ok? && v.value.Repair? {
      assert Root(h.st.refs, x) == Ok(v.value.at);
    }
  }

  /** context_check then replaceNullContext keep names and keep owners. */
  lemma RepairStep(s0: Store, s1: Store, s2: Store, x: RefId, kept: RefId, c: CtxId, del: CtxId, depth: nat)
    requires Renewed(s0, s1, del) && Filled(s1, s2, Reach(s1, x, depth), c)
    ensures Evolves(s0, s2, {})
    ensures kept in s0.refs && s0.refs[kept].parentContext.Some? && Reach(s1, x, depth).Ok? ==>
      s2.refs[kept].parentContext.Some?
  {
    RenewedEvolves(s0, s1, del);
    SkeletonEvolves(s1, s2);
    EvolvesTrans(s0, s1, s2, {});
  }

  /**
   * The repair of one parameter when a call returns: a binding whose cell
   * x is not a root gets context_check(callee, true), giving the store
   * checked and the answer verdict, then replaceNullContext with the
   * caller's scope. x then reads what RepairedReads says, survives the
   * deletion of callee when the check said so, and a cell that had an
   * owner keeps one.
   */
  method RepairParam(h: Heap, local: CtxId, callee: CtxId, x: RefId, ghost kept: RefId, depth: nat)
      returns (res: Result<()>, ghost checked: Store, ghost verdict: Result<bool>)
    requires h.Valid() && local in h.st.ctxs && x in h.st.refs && kept in h.st.refs
    modifies h
    ensures h.Valid() && Evolves(old(h.st), h.st, {})
    ensures res.Ok? && old(h.st.refs[kept].parentContext.Some?) ==> h.st.refs[kept].parentContext.Some?
    ensures old(h.st.refs[x].parentRef.None?) ==> res == Ok(()) && h.st == old(h.st)
    ensures old(h.st.refs[x].parentRef.Some?) ==>
      && Renewed(old(h.st), checked, callee) && Filled(checked, h.st, Reach(checked, x, depth), local)
      && (res.Ok? <==> Reach(checked, x, depth).Ok?)
      && RepairedReads(old(h.st), h.st, x, callee)
      && (verdict == Ok(true) && res.Ok? && local != callee ==> Survives(h.st, x, callee))
  {
    checked, verdict := h.st, Ok(true);
    if h.st.refs[x].parentRef.None? {
      return Ok(()), checked, verdict;
    }
    ghost var s0 := h.st;
    // The answer of context_check is dropped, as the caller does.
    var v := CheckOut(h, x, callee, depth);
    checked, verdict := h.st, v;
    assert local in checked.ctxs;
    res := h.ReplaceNullContext(x, local, depth);
    RepairStep(s0, checked, h.st, x, kept, local, callee, depth);
    RepairedReadsFilled(s0, checked, h.st, x, callee);
    if verdict == Ok(true) && res.Ok? && local != callee {
      FilledSurvives(checked, h.st, x, callee, Reach(checked, x, depth), local);
    }
  }

  /**
   * The first half of the return protocol: context_check(callee, true) on
   * the returned cell, giving the store checked and the answer verdict,
   * then replaceNullContext with the caller's scope. The returned cell
   * then has an owner, reads what RepairedReads says, and survives the
   * deletion of callee when the check said so.
   */
  method RepairResult(h: Heap, local: CtxId, callee: CtxId, toret: RefId, depth: nat)
      returns (res: Result<()>, ghost checked: Store, ghost verdict: Result<bool>)
    requires h.Valid() && local in h.st.ctxs && toret in h.st.refs
    modifies h
    ensures h.Valid() && Evolves(old(h.st), h.st, {})
    ensures Renewed(old(h.st), checked, callee) && Filled(checked, h.st, Reach(checked, toret, depth), local)
    ensures res.Ok? <==> Reach(checked, toret, depth).Ok?
    ensures res.Err? ==> res.error == Diverges
    ensures res.Ok? ==> h.st.refs[toret].parentContext.Some?
    ensures RepairedReads(old(h.st), h.st, toret, callee)
    ensures verdict == Ok(true) && res.Ok? && local != callee ==> Survives(h.st, toret, callee)
  {
    ghost var s0 := h.st;
    // The answer of context_check is dropped, as the caller does.
    var v := CheckOut(h, toret, callee, depth);
    checked, verdict := h.st, v;
    assert local in checked.ctxs;
    res := h.ReplaceNullContext(toret, local, depth);
    RepairStep(s0, checked, h.st, toret, toret, local, callee, depth);
    RepairedReadsFilled(s0, checked, h.st, toret, callee);
    if res.Ok? {
      FilledOwns(checked, h.st, toret, local, depth);
      if verdict == Ok(true) && local != callee {
        FilledSurvives(checked, h.st, toret, callee, Reach(checked, toret, depth), local);
      }
    }
  }

  /**
   * The repair of the first n bindings of the callee scope, the
   * parameters, one RepairParam each; the cell kept keeps its owner.
   */
  method RepairParams(h: Heap, local: CtxId, callee: CtxId, kept: RefId, n: nat, depth: nat) returns (res: Result<()>)
    requires h.Valid() && local in h.st.ctxs && callee in h.st.ctxs && kept in h.st.refs
    requires n <= |h.st.ctxs[callee].collection| && h.st.refs[kept].parentContext.Some?
    modifies h
    ensures h.Valid() && Evolves(old(h.st), h.st, {})
    ensures res.Ok? ==> h.st.refs[kept].parentContext.Some?
  {
    ghost var s0 := h.st;
    var i := 0;
    while i < n
      invariant i <= n && h.Valid() && Evolves(s0, h.st, {}) && h.st.refs[kept].parentContext.Some?
      invariant callee in h.st.ctxs && n <= |h.st.ctxs[callee].collection|
    {
      assert ContextOK(h.st, h.st.ctxs[callee]);
      var x := h.st.ctxs[callee].collection[i].uniqueRef;
      ghost var s1 := h.st;
      ghost var checked, verdict;
      res, checked, verdict := RepairParam(h, local, callee, x, kept, depth);
      EvolvesLength(s1, h.st, {}, callee);
      EvolvesTrans(s0, s1, h.st, {});
      if res.Err? {
        return;
      }
      i := i + 1;
    }
    res := Ok(());
  }

  /**
   * The cell toret returned by a call whose body left the store ran, once
   * RepairResult is done: checked is the store after context_check(callee,
   * true), which answered verdict, and repaired the store after
   * replaceNullContext(local), which completed. toret reads what
   * RepairedReads says and survives the deletion of callee when the check
   * said so.
   */
  ghost predicate Returned(ran: Store, checked: Store, repaired: Store, toret: RefId, local: CtxId, callee: CtxId,
                           verdict: Result<bool>, depth: nat) {
    && toret in ran.refs
    && Renewed(ran, checked, callee) && Filled(checked, repaired, Reach(checked, toret, depth), local)
    && Reach(checked, toret, depth).Ok?
    && RepairedReads(ran, repaired, toret, callee)
    && (verdict == Ok(true) && local != callee ==> Survives(repaired, toret, callee))
  }

  /**
   * After a user function's body: the returned cell is repaired
   * (RepairResult: checked is the store between context_check and
   * replaceNullContext, repaired the store after both, verdict the
   * answer of context_check), then the parameters (RepairParams). The
   * returned cell ends up with an owner.
   */
  method ReturnFrom(h: Heap, local: CtxId, callee: CtxId, toret: RefId, n: nat, depth: nat)
      returns (res: Result<RefId>, ghost checked: Store, ghost repaired: Store, ghost verdict: Result<bool>)
    requires h.Valid() && local in h.st.ctxs && callee in h.st.ctxs && toret in h.st.refs
    requires n <= |h.st.ctxs[callee].collection|
    modifies h
    ensures h.Valid() && Evolves(old(h.st), h.st, {})
    ensures Renewed(old(h.st), checked, callee) && Filled(checked, repaired, Reach(checked, toret, depth), local)
    ensures RepairedReads(old(h.st), repaired, toret, callee)
    ensures verdict == Ok(true) && Reach(checked, toret, depth).Ok? && local != callee ==> Survives(repaired, toret, callee)
    ensures Reach(checked, toret, depth).Err? ==> res == Err(Diverges) && h.st == repaired
    ensures Evolves(repaired, h.st, {})
    ensures res.Ok? ==> res.value == toret && h.st.refs[toret].parentContext.Some?
    ensures res.Ok? ==> Returned(old(h.st), checked, repaired, toret, local, callee, verdict, depth)
  {
    ghost var s0 := h.st;
    var r1;
    r1, checked, verdict := RepairResult(h, local, callee, toret, depth);
    repaired := h.st;
    if r1.Err? {
      EvolvesRefl(repaired, {});
      return Err(r1.error), checked, repaired, verdict;
    }
    EvolvesLength(s0, repaired, {}, callee);
    var r2 := RepairParams(h, local, callee, toret, n, depth);
    if r2.Err? {
      return Err(r2.error), checked, repaired, verdict;
    }
    res := Ok(toret);
  }

  // ---------------------------------------------------------------------
  // Operators and built-ins.
  // ---------------------------------------------------------------------

  /**
   * replaceNullContext(local) on a temporary a: the cells it reaches get
   * local as owner where they have none. Nothing else changes.
   */
  method Anchor(h: Heap, a: RefId, local: CtxId, depth: nat) returns (res: Result<()>)
    requires h.Valid() && a in h.st.refs && local in h.st.ctxs
    modifies h
    ensures h.Valid() && SameSkeleton(old(h.st), h.st) && Evolves(old(h.st), h.st, {})
    ensures Filled(old(h.st), h.st, Reach(old(h.st), a, depth), local)
    ensures res.Ok? <==> Reach(old(h.st), a, depth).Ok?
    ensures res.Ok? ==> h.st.refs[a].parentContext.Some?
    ensures res.Err? ==> res.error == Diverges
  {
    ghost var s0 := h.st;
    res := h.ReplaceNullContext(a, local, depth);
    SkeletonEvolves(s0, h.st);
    if res.Ok? {
      FilledOwns(s0, h.st, a, local, depth);
    }
  }

  /**
   * TOK_VALUE on a string: value(const char*) cloned into a new root. n
   * is a new unowned root holding a new array with one slot per
   * character; slot i is a new unowned root holding a new Char of
   * character i, and no two slots share a cell or a value.
   */
  ghost predicate StringHolder(s0: Store, st: Store, n: RefId, text: string) {
    && n !in s0.refs && n in st.refs
    && st.refs[n].parentRef.None? && st.refs[n].parentContext.None?
    && st.refs[n].valuePtr !in s0.vals && st.refs[n].valuePtr in st.vals
    && st.vals[st.refs[n].valuePtr].Array?
    && var cells := st.vals[st.refs[n].valuePtr].elems;
    && |cells| == |text|
    && (forall i :: 0 <= i < |cells| ==> FreshHolder(s0, st, cells[i], Char(text[i])))
    && (forall i, j :: 0 <= i < j < |cells| ==> cells[i] != cells[j] && st.refs[cells[i]].valuePtr != st.refs[cells[j]].valuePtr)
  }

  /** FreshHolder survives stores that only add records. */
  lemma FreshHolderKept(s0: Store, s1: Store, s2: Store, n: RefId, w: Value)
    requires FreshHolder(s0, s1, n, w) && OnlyAdds(s1, s2)
    ensures FreshHolder(s0, s2, n, w)
  {
    assert s2.refs[n] == s1.refs[n];
  }

  /** The string value of a value token, built slot by slot (StringHolder). */
  method NewString(h: Heap, text: string) returns (n: RefId)
    requires h.Valid()
    modifies h
    ensures h.Valid() && OnlyAdds(old(h.st), h.st) && h.st.ctxs == old(h.st.ctxs)
    ensures StringHolder(old(h.st), h.st, n, text)
  {
    ghost var s0 := h.st;
    var cells: seq<RefId> := [];
    for i := 0 to |text|
      invariant h.Valid() && OnlyAdds(s0, h.st) && h.st.ctxs == s0.ctxs && |cells| == i
      invariant forall k :: 0 <= k < i ==> FreshHolder(s0, h.st, cells[k], Char(text[k]))
      invariant forall k, j :: 0 <= k < j < i ==> cells[k] != cells[j] && h.st.refs[cells[k]].valuePtr != h.st.refs[cells[j]].valuePtr
    {
      ghost var s1 := h.st;
      var c := NewRoot(h, Char(text[i]), None);
      OnlyAddsTrans(s0, s1, h.st);
      forall k | 0 <= k < i
        ensures FreshHolder(s0, h.st, cells[k], Char(text[k]))
      {
        FreshHolderKept(s0, s1, h.st, cells[k], Char(text[k]));
      }
      cells := cells + [c];
    }
    ghost var s1 := h.st;
    n := NewRoot(h, Array(cells), None);
    OnlyAddsTrans(s0, s1, h.st);
    forall k | 0 <= k < |text|
      ensures FreshHolder(s0, h.st, cells[k], Char(text[k]))
    {
      FreshHolderKept(s0, s1, h.st, cells[k], Char(text[k]));
    }
  }

  /** What a cell reads is a value of the store. */
  lemma RootValueIn(st: Store, r: RefId)
    requires StoreOK(st)
    ensures RootValue(st.refs, r).Ok? ==> RootValue(st.refs, r).value in st.vals
  {
    if Root(st.refs, r).Ok? {
      assert CellClosed(st, st.refs[Root(st.refs, r).value]);
    }
  }

  /** The cell n was added since s0 as an unowned root holding a value w added since s0. */
  ghost predicate FreshHolder(s0: Store, st: Store, n: RefId, w: Value) {
    && n !in s0.refs && n in st.refs
    && st.refs[n].parentRef.None? && st.refs[n].parentContext.None?
    && st.refs[n].valuePtr !in s0.vals && st.refs[n].valuePtr in st.vals
    && st.vals[st.refs[n].valuePtr] == w
  }

  /**
   * applyUniaryOp on what a reads in s, as UnaryResult gives it. On
   * success the operand's value is overwritten in place with the first
   * half of UnaryResult, the result is a new unowned root holding the
   * second half, and nothing else changes. An operand without value or an
   * operator UnaryResult refuses gives that error, with nothing changed.
   */
  ghost predicate UnaryOf(s: Store, st: Store, op: Syntax.Op, a: RefId, res: Result<RefId>) {
    && (RootValue(s.refs, a).Err? ==> res == Err(RootValue(s.refs, a).error) && st == s)
    && (RootValue(s.refs, a).Ok? ==>
          var v := RootValue(s.refs, a).value;
          && v in s.vals
          && var r := Operators.UnaryResult(op, s.vals[v]);
          && (r.Err? ==> res == Err(r.error) && st == s)
          && (r.Ok? ==>
                && res.Ok? && FreshHolder(s, st, res.value, r.value.1)
                && var w := st.refs[res.value].valuePtr;
                st == Store(s.refs[res.value := Cell(w, None, None)], s.vals[v := r.value.0][w := r.value.1], s.ctxs)))
  }

  /**
   * applyUniaryOp on what the temporary a reads, its result held by a new
   * unowned root (UnaryOf).
   */
  method Unary(h: Heap, op: Syntax.Op, a: RefId) returns (res: Result<RefId>)
    requires h.Valid() && a in h.st.refs
    modifies h
    ensures h.Valid() && Evolves(old(h.st), h.st, {})
    ensures UnaryOf(old(h.st), h.st, op, a, res)
  {
    ghost var s0 := h.st;
    EvolvesRefl(s0, {});
    var v :- h.GetVarPtr(a);
    var w :- Operators.ApplyUniaryOp(h, op, v);
    var n := h.NewCell(Cell(w, None, None));
    res := Ok(n);
    ScopesKeptEvolve(s0, h.st);
  }

  /**
   * Anchor ran from s0 and gave the store anchored: owners are filled in
   * over what a reaches. When that reach fails, the step fails with
   * Diverges and nothing more changes.
   */
  ghost predicate AnchoredIn(s0: Store, anchored: Store, st: Store, a: RefId, local: CtxId, depth: nat, res: Result<RefId>) {
    && Filled(s0, anchored, Reach(s0, a, depth), local)
    && (Reach(s0, a, depth).Err? ==> res == Err(Diverges) && st == anchored)
  }

  /**
   * The rest of TOK_UNIARY_OP once the operand's temporary a is known: a
   * is anchored in local (Anchor), giving the store anchored, then
   * applyUniaryOp runs there (Unary).
   */
  method UnaryTail(h: Heap, op: Syntax.Op, a: RefId, local: CtxId, depth: nat)
      returns (res: Result<RefId>, ghost anchored: Store)
    requires h.Valid() && a in h.st.refs && local in h.st.ctxs
    modifies h
    ensures h.Valid() && Evolves(old(h.st), h.st, {})
    ensures AnchoredIn(old(h.st), anchored, h.st, a, local, depth, res)
    ensures Reach(old(h.st), a, depth).Ok? ==> UnaryOf(anchored, h.st, op, a, res)
  {
    ghost var s0 := h.st;
    var ok := Anchor(h, a, local, depth);
    anchored := h.st;
    if ok.Err? {
      return Err(ok.error), anchored;
    }
    res := Unary(h, op, a);
    EvolvesTrans(s0, anchored, h.st, {});
  }

  /**
   * applyBinaryOp on what a and b read in s, as BinaryResult gives it. On
   * success the result is a new unowned root holding a new value and
   * nothing else changes. An operand without value or a pair BinaryResult
   * refuses gives that error, with nothing changed.
   */
  ghost predicate BinaryOf(s: Store, st: Store, op: Syntax.Op, a: RefId, b: RefId, depth: nat, res: Result<RefId>) {
    && (RootValue(s.refs, a).Err? ==> res == Err(RootValue(s.refs, a).error) && st == s)
    && (RootValue(s.refs, a).Ok? && RootValue(s.refs, b).Err? ==> res == Err(RootValue(s.refs, b).error) && st == s)
    && (RootValue(s.refs, a).Ok? && RootValue(s.refs, b).Ok? ==>
          var va, vb := RootValue(s.refs, a).value, RootValue(s.refs, b).value;
          && va in s.vals && vb in s.vals
          && var r := Operators.BinaryResult(s, op, va, vb, depth);
          && (r.Err? ==> res == Err(r.error) && st == s)
          && (r.Ok? ==>
                && res.Ok? && FreshHolder(s, st, res.value, r.value)
                && var w := st.refs[res.value].valuePtr;
                st == Store(s.refs[res.value := Cell(w, None, None)], s.vals[w := r.value], s.ctxs)))
  }

  /**
   * applyBinaryOp on what the temporaries a and b read, its result held
   * by a new unowned root (BinaryOf).
   */
  method Binary(h: Heap, op: Syntax.Op, a: RefId, b: RefId, depth: nat) returns (res: Result<RefId>)
    requires h.Valid() && a in h.st.refs && b in h.st.refs
    modifies h
    ensures h.Valid() && Evolves(old(h.st), h.st, {})
    ensures BinaryOf(old(h.st), h.st, op, a, b, depth, res)
  {
    ghost var s0 := h.st;
    EvolvesRefl(s0, {});
    var va :- h.GetVarPtr(a);
    var vb :- h.GetVarPtr(b);
    var w :- Operators.ApplyBinaryOp(h, op, va, vb, depth);
    var n := h.NewCell(Cell(w, None, None));
    res := Ok(n);
    ScopesKeptEvolve(s0, h.st);
  }

  /**
   * The rest of TOK_BINARY_OP once both temporaries are known: a is
   * anchored in local again (Anchor), giving the store anchored, then
   * applyBinaryOp runs there (Binary).
   */
  method BinaryTail(h: Heap, op: Syntax.Op, a: RefId, b: RefId, local: CtxId, depth: nat)
      returns (res: Result<RefId>, ghost anchored: Store)
    requires h.Valid() && a in h.st.refs && b in h.st.refs && local in h.st.ctxs
    modifies h
    ensures h.Valid() && Evolves(old(h.st), h.st, {})
    ensures AnchoredIn(old(h.st), anchored, h.st, a, local, depth, res)
    ensures Reach(old(h.st), a, depth).Ok? ==> BinaryOf(anchored, h.st, op, a, b, depth, res)
  {
    ghost var s0 := h.st;
    var ok := Anchor(h, a, local, depth);
    anchored := h.st;
    if ok.Err? {
      return Err(ok.error), anchored;
    }
    res := Binary(h, op, a, b, depth);
    EvolvesTrans(s0, anchored, h.st, {});
  }

  /** w is a value added since s0, held by the cell n added since s0, a root owned by local. */
  ghost predicate OwnedHolder(s0: Store, st: Store, n: RefId, local: CtxId) {
    && n !in s0.refs && n in st.refs
    && st.refs[n].parentRef.None? && st.refs[n].parentContext == Some(local)
    && st.refs[n].valuePtr !in s0.vals && st.refs[n].valuePtr in st.vals
  }

  /** clone(a): a deep copy of what a reads, held by a new root owned by local. */
  method CloneHolder(h: Heap, a: RefId, local: CtxId, depth: nat) returns (res: Result<RefId>)
    requires h.Valid() && a in h.st.refs && local in h.st.ctxs
    modifies h
    ensures h.Valid() && OnlyAdds(old(h.st), h.st)
    ensures res.Err? ==> res.error == Diverges
    ensures res.Ok? ==>
      && OwnedHolder(old(h.st), h.st, res.value, local)
      && RootValue(old(h.st.refs), a).Ok?
      && IsCopy(old(h.st), old(h.st), h.st, RootValue(old(h.st.refs), a).value, h.st.refs[res.value].valuePtr, depth)
  {
    ghost var s0 := h.st;
    var x :- h.GetVarPtr(a);
    var v :- h.Clone(x, depth);
    ghost var s1 := h.st;
    var r := h.NewCell(Cell(v, None, Some(local)));
    CopyMoved(s0, s0, s0, s0, s1, h.st, x, v, depth);
    OnlyAddsTrans(s0, s1, h.st);
    res := Ok(r);
  }

  /** A new null value held by a new root owned by local. */
  method NullHolder(h: Heap, local: CtxId) returns (r: RefId)
    requires h.Valid() && local in h.st.ctxs
    modifies h
    ensures h.Valid() && OnlyAdds(old(h.st), h.st)
    ensures OwnedHolder(old(h.st), h.st, r, local) && h.st.vals[h.st.refs[r].valuePtr] == Null
  {
    ghost var s0 := h.st;
    var v := h.NewValue(Null);
    ghost var s1 := h.st;
    r := h.NewCell(Cell(v, None, Some(local)));
    OnlyAddsTrans(s0, s1, h.st);
  }

  /**
   * The built-in part of TOK_CALL_FUNCTION once the arguments are the
   * cells args: input, print, printl, len and array give a new null
   * (their bodies are foreign), clone a deep copy of what its first
   * argument reads (CloneHolder), abort and stop a new null. The result
   * is held by a new root owned by local. Any other name is
   * ERROR_FUNCTION_NOT_FOUND.
   */
  method BuiltinTail(h: Heap, name: string, args: seq<RefId>, local: CtxId, depth: nat) returns (res: Result<RefId>)
    requires h.Valid() && local in h.st.ctxs
    requires forall k :: 0 <= k < |args| ==> args[k] in h.st.refs
    modifies h
    ensures h.Valid() && OnlyAdds(old(h.st), h.st)
    ensures !Syntax.IsBuiltin(name) ==> res == Err(FunctionNotFound) && h.st == old(h.st)
    ensures name == "clone" && args == [] ==> res == Err(UndefinedBehaviour) && h.st == old(h.st)
    ensures res.Ok? ==> Syntax.IsBuiltin(name) && OwnedHolder(old(h.st), h.st, res.value, local)
    ensures res.Ok? && name != "clone" ==> h.st.vals[h.st.refs[res.value].valuePtr] == Null
    ensures res.Ok? && name == "clone" ==>
      && args != [] && RootValue(old(h.st.refs), args[0]).Ok?
      && IsCopy(old(h.st), old(h.st), h.st, RootValue(old(h.st.refs), args[0]).value, h.st.refs[res.value].valuePtr, depth)
  {
    if name == "clone" {
      if |args| == 0 {
        return Err(UndefinedBehaviour);
      }
      res := CloneHolder(h, args[0], local, depth);
    } else if Syntax.IsBuiltin(name) {
      var r := NullHolder(h, local);
      res := Ok(r);
    } else {
      res := Err(FunctionNotFound);
    }
  }

}
