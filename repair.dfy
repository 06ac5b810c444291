/**
 * What unique_refrence::context_check may do to a store, and what it
 * establishes. The check runs when a scope del is about to be deleted: a
 * cell whose chain ends at a root owned by del would be left reading freed
 * memory, so such chains are cut short or their slots swapped for fresh
 * cells.
 */
module Repairs {
  import opened Errors
  import opened Objects
  import opened Chains

  /**
   * The chain of x ends at a root that del does not own: deleting del
   * leaves x readable.
   */
  ghost predicate Survives(st: Store, x: RefId, del: CtxId) {
    && x in st.refs
    && Root(st.refs, x).Ok?
    && st.refs[Root(st.refs, x).value].parentContext != Some(del)
  }

  /** Cell b is cell a made a root of a value that was not in s0, owner kept. */
  ghost predicate Rerooted(s0: Store, a: Cell, b: Cell) {
    && b.parentRef.None?
    && b.parentContext == a.parentContext
    && b.valuePtr !in s0.vals
  }

  /** Value b is value a with some array slots swapped for cells not in s0. */
  ghost predicate SlotsRenewed(s0: Store, a: Value, b: Value) {
    if a.Array? then
      && b.Array? && |b.elems| == |a.elems|
      && forall i :: 0 <= i < |a.elems| ==> b.elems[i] == a.elems[i] || b.elems[i] !in s0.refs
    else b == a
  }

  /**
   * Scope b is scope a with some bindings moved to cells not in s0 and,
   * when a's parent was del, possibly no parent.
   */
  ghost predicate ScopeRenewed(s0: Store, a: VarContext, b: VarContext, del: CtxId) {
    && |b.collection| == |a.collection| && b.allocatedSize == a.allocatedSize
    && (forall i :: 0 <= i < |a.collection| ==>
          && b.collection[i].identifier == a.collection[i].identifier
          && (b.collection[i].uniqueRef == a.collection[i].uniqueRef || b.collection[i].uniqueRef !in s0.refs))
    && (b.parentContext == a.parentContext || (a.parentContext == Some(del) && b.parentContext.None?))
  }

  /**
   * Everything context_check(del, _) may do: add records, make a cell the
   * root of a new value, swap array slots and bindings for new cells, and
   * detach scopes from del. The cells it adds are unowned roots.
   */
  ghost predicate Renewed(s0: Store, s1: Store, del: CtxId) {
    && Grows(s0, s1)
    && (forall x | x in s0.refs :: s1.refs[x] == s0.refs[x] || Rerooted(s0, s0.refs[x], s1.refs[x]))
    && (forall x | x in s1.refs && x !in s0.refs :: s1.refs[x].parentRef.None? && s1.refs[x].parentContext.None?)
    && (forall v | v in s0.vals :: SlotsRenewed(s0, s0.vals[v], s1.vals[v]))
    && (forall c | c in s0.ctxs :: ScopeRenewed(s0, s0.ctxs[c], s1.ctxs[c], del))
  }

  /** Every cell of s0 but g is unchanged in s1. */
  ghost predicate CellsKeptBut(s0: Store, s1: Store, g: RefId) {
    forall x | x in s0.refs && x != g :: x in s1.refs && s1.refs[x] == s0.refs[x]
  }

  /** A cell replaced, then every cell kept: only that cell changed. */
  lemma KeptButAfter(s0: Store, s1: Store, s2: Store, g: RefId, c: Cell)
    requires g in s0.refs && s1.refs == s0.refs[g := c] && CellsKept(s1, s2)
    ensures CellsKeptBut(s0, s2, g) && g in s2.refs && s2.refs[g] == c
  {
    forall x | x in s0.refs && x != g
      ensures x in s2.refs && s2.refs[x] == s0.refs[x]
    {
      assert s1.refs[x] == s0.refs[x];
    }
  }

  /** The first k slots of the array v all survive the deletion of del. */
  ghost predicate SlotsSurvive(st: Store, v: ValId, del: CtxId, k: nat) {
    && v in st.vals && st.vals[v].Array? && k <= |st.vals[v].elems|
    && forall j :: 0 <= j < k ==> Survives(st, st.vals[v].elems[j], del)
  }

  /** The first k bindings of the scope p all survive the deletion of del. */
  ghost predicate BindingsSurvive(st: Store, p: CtxId, del: CtxId, k: nat) {
    && p in st.ctxs && k <= |st.ctxs[p].collection|
    && forall j :: 0 <= j < k ==> Survives(st, st.ctxs[p].collection[j].uniqueRef, del)
  }

  lemma RenewedRefl(s: Store, del: CtxId)
    ensures Renewed(s, s, del)
  {
  }

  /** Renewal composes. */
  lemma RenewedTrans(s0: Store, s1: Store, s2: Store, del: CtxId)
    requires Renewed(s0, s1, del) && Renewed(s1, s2, del)
    ensures Renewed(s0, s2, del)
  {
    forall x | x in s0.refs
      ensures s2.refs[x] == s0.refs[x] || Rerooted(s0, s0.refs[x], s2.refs[x])
    {
      if s1.refs[x] != s0.refs[x] {
        assert Rerooted(s0, s0.refs[x], s1.refs[x]);
      }
    }
    forall v | v in s0.vals
      ensures SlotsRenewed(s0, s0.vals[v], s2.vals[v])
    {
      assert SlotsRenewed(s0, s0.vals[v], s1.vals[v]);
      assert SlotsRenewed(s1, s1.vals[v], s2.vals[v]);
    }
    forall c | c in s0.ctxs
      ensures ScopeRenewed(s0, s0.ctxs[c], s2.ctxs[c], del)
    {
      assert ScopeRenewed(s0, s0.ctxs[c], s1.ctxs[c], del);
      assert ScopeRenewed(s1, s1.ctxs[c], s2.ctxs[c], del);
    }
  }

  /** Adding records, and only unowned roots among the cells, is a renewal. */
  lemma AddsRenewed(s0: Store, s1: Store, del: CtxId)
    requires OnlyAdds(s0, s1)
    requires forall x | x in s1.refs && x !in s0.refs :: s1.refs[x].parentRef.None? && s1.refs[x].parentContext.None?
    ensures Renewed(s0, s1, del)
  {
    forall v | v in s0.vals
      ensures SlotsRenewed(s0, s0.vals[v], s1.vals[v])
    {
      assert s1.vals[v] == s0.vals[v];
    }
    forall c | c in s0.ctxs
      ensures ScopeRenewed(s0, s0.ctxs[c], s1.ctxs[c], del)
    {
      assert s1.ctxs[c] == s0.ctxs[c];
    }
  }

  /** context_check's repair: a cell made the root of a value added since s0. */
  lemma RerootRenewed(s0: Store, s1: Store, g: RefId, c: Cell, del: CtxId)
    requires OnlyAdds(s0, s1) && s1.refs == s0.refs && g in s0.refs && Rerooted(s0, s0.refs[g], c)
    ensures Renewed(s0, s1.(refs := s1.refs[g := c]), del)
  {
    AddsRenewed(s0, s1, del);
  }

  /**
   * context_check's slot repair in an array: slot i of v is swapped for a
   * cell n added, with its value, since s0.
   */
  lemma SlotRenewed(s0: Store, s1: Store, v: ValId, i: nat, n: RefId, c: Cell, del: CtxId)
    requires OnlyAdds(s0, s1) && n !in s0.refs && s1.refs == s0.refs[n := c]
    requires c.parentRef.None? && c.parentContext.None?
    requires v in s0.vals && s0.vals[v].Array? && i < |s0.vals[v].elems|
    ensures Renewed(s0, s1.(vals := s1.vals[v := Array(s1.vals[v].elems[i := n])]), del)
  {
    AddsRenewed(s0, s1, del);
    var s2 := s1.(vals := s1.vals[v := Array(s1.vals[v].elems[i := n])]);
    assert SlotsRenewed(s0, s0.vals[v], s2.vals[v]);
  }

  /** The same for binding i of the scope p. */
  lemma BindingRenewed(s0: Store, s1: Store, p: CtxId, i: nat, n: RefId, c: Cell, del: CtxId)
    requires OnlyAdds(s0, s1) && n !in s0.refs && s1.refs == s0.refs[n := c]
    requires c.parentRef.None? && c.parentContext.None?
    requires p in s0.ctxs && i < |s0.ctxs[p].collection|
    ensures var ctx := s1.ctxs[p];
      var b := Variable(ctx.collection[i].identifier, n);
      Renewed(s0, s1.(ctxs := s1.ctxs[p := ctx.(collection := ctx.collection[i := b])]), del)
  {
    AddsRenewed(s0, s1, del);
    var ctx := s1.ctxs[p];
    var b := Variable(ctx.collection[i].identifier, n);
    var s2 := s1.(ctxs := s1.ctxs[p := ctx.(collection := ctx.collection[i := b])]);
    assert ScopeRenewed(s0, s0.ctxs[p], s2.ctxs[p], del);
  }

  /** context_check's detaching of a property scope whose parent is del. */
  lemma DetachRenewed(s0: Store, p: CtxId, del: CtxId)
    requires p in s0.ctxs && s0.ctxs[p].parentContext == Some(del)
    ensures Renewed(s0, s0.(ctxs := s0.ctxs[p := s0.ctxs[p].(parentContext := None)]), del)
  {
    var s1 := s0.(ctxs := s0.ctxs[p := s0.ctxs[p].(parentContext := None)]);
    assert ScopeRenewed(s0, s0.ctxs[p], s1.ctxs[p], del);
  }

  // ---------------------------------------------------------------------
  // Surviving is stable.
  // ---------------------------------------------------------------------

  /** A chain of kept cells keeps its root. */
  lemma SurvivesKept(s0: Store, s1: Store, x: RefId, del: CtxId)
    requires Survives(s0, x, del) && CellsKept(s0, s1)
    ensures Survives(s1, x, del)
  {
    RootKept(s0.refs, s1.refs, x);
  }

  /** An unowned root survives every deletion. */
  lemma UnownedSurvives(st: Store, x: RefId, del: CtxId)
    requires x in st.refs && st.refs[x].parentRef.None? && st.refs[x].parentContext.None?
    ensures Survives(st, x, del)
  {
    assert FindRoot(st.refs, x, |st.refs|) == Ok(x);
  }

  /**
   * Slots that survive go on surviving a renewal that keeps every cell;
   * with slot k surviving too, the first k + 1 do.
   */
  lemma SlotsSurviveNext(s0: Store, s1: Store, v: ValId, del: CtxId, k: nat)
    requires SlotsSurvive(s0, v, del, k) && Renewed(s0, s1, del) && CellsKept(s0, s1) && StoreOK(s1)
    requires v in s1.vals && s1.vals[v].Array? && k < |s1.vals[v].elems| && Survives(s1, s1.vals[v].elems[k], del)
    ensures SlotsSurvive(s1, v, del, k + 1)
  {
    assert SlotsRenewed(s0, s0.vals[v], s1.vals[v]);
    assert ValueClosed(s1, s1.vals[v]);
    forall j | 0 <= j < k + 1
      ensures Survives(s1, s1.vals[v].elems[j], del)
    {
      var y := s1.vals[v].elems[j];
      if j == k {
      } else if y == s0.vals[v].elems[j] {
        SurvivesKept(s0, s1, y, del);
      } else {
        UnownedSurvives(s1, y, del);
      }
    }
  }

  /** The same for bindings. */
  lemma BindingsSurviveNext(s0: Store, s1: Store, p: CtxId, del: CtxId, k: nat)
    requires BindingsSurvive(s0, p, del, k) && Renewed(s0, s1, del) && CellsKept(s0, s1) && StoreOK(s1)
    requires p in s1.ctxs && k < |s1.ctxs[p].collection| && Survives(s1, s1.ctxs[p].collection[k].uniqueRef, del)
    ensures BindingsSurvive(s1, p, del, k + 1)
  {
    assert ScopeRenewed(s0, s0.ctxs[p], s1.ctxs[p], del);
    assert ContextOK(s1, s1.ctxs[p]);
    forall j | 0 <= j < k + 1
      ensures Survives(s1, s1.ctxs[p].collection[j].uniqueRef, del)
    {
      var y := s1.ctxs[p].collection[j].uniqueRef;
      if j == k {
      } else if y == s0.ctxs[p].collection[j].uniqueRef {
        SurvivesKept(s0, s1, y, del);
      } else {
        UnownedSurvives(s1, y, del);
      }
    }
  }
}
