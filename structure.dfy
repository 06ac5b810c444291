/**
 * structure::structure(prototype, parent_context): a struct instance of a
 * registered prototype. Its property scope is a new scope under the given
 * parent, and each property name is declared, in prototype order, to a new
 * cell owned by that parent and holding a new null value.
 */
module Structures {
  import opened Errors
  import opened Objects
  import opened Heaps
  import Contexts

  /** No name occurs twice. */
  ghost predicate Distinct(names: seq<string>) {
    forall i, j :: 0 <= i < j < |names| ==> names[i] != names[j]
  }

  /** x is a cell added since s0, a root owned by parent, holding a null value added since s0. */
  ghost predicate FreshNull(s0: Store, st: Store, x: RefId, parent: Option<CtxId>) {
    && x !in s0.refs && x in st.refs
    && st.refs[x].parentRef.None? && st.refs[x].parentContext == parent
    && st.refs[x].valuePtr !in s0.vals && st.refs[x].valuePtr in st.vals
    && st.vals[st.refs[x].valuePtr] == Null
  }

  /** Binding k of scope q is such a cell. */
  ghost predicate FreshNullProperty(s0: Store, st: Store, q: CtxId, k: nat, parent: Option<CtxId>)
    requires q in st.ctxs && k < |st.ctxs[q].collection|
  {
    FreshNull(s0, st, st.ctxs[q].collection[k].uniqueRef, parent)
  }

  /**
   * s1 only adds records to s0, except that scope q may gain bindings at
   * its end (and capacity).
   */
  ghost predicate ScopeGrown(s0: Store, s1: Store, q: CtxId) {
    && CellsKept(s0, s1)
    && (forall v | v in s0.vals :: v in s1.vals && s1.vals[v] == s0.vals[v])
    && (forall c | c in s0.ctxs && c != q :: c in s1.ctxs && s1.ctxs[c] == s0.ctxs[c])
    && q in s0.ctxs && q in s1.ctxs
    && s1.ctxs[q].parentContext == s0.ctxs[q].parentContext
    && s0.ctxs[q].collection <= s1.ctxs[q].collection
  }

  lemma ScopeGrownTrans(s0: Store, s1: Store, s2: Store, q: CtxId)
    requires ScopeGrown(s0, s1, q) && ScopeGrown(s1, s2, q)
    ensures ScopeGrown(s0, s2, q)
  {
  }

  /** The first i properties stay fresh null cells when the scope grows. */
  lemma FreshStep(s0: Store, s1: Store, s2: Store, q: CtxId, i: nat, parent: Option<CtxId>)
    requires ScopeGrown(s1, s2, q) && i <= |s1.ctxs[q].collection|
    requires forall k :: 0 <= k < i ==> FreshNullProperty(s0, s1, q, k, parent)
    ensures forall k :: 0 <= k < i ==> FreshNullProperty(s0, s2, q, k, parent)
  {
    forall k | 0 <= k < i ensures FreshNullProperty(s0, s2, q, k, parent) {
      assert FreshNullProperty(s0, s1, q, k, parent);
      assert s2.ctxs[q].collection[k] == s1.ctxs[q].collection[k];
      var x := s1.ctxs[q].collection[k].uniqueRef;
      assert s1.refs[x].valuePtr in s1.vals;
    }
  }

  /**
   * After the first i properties of props: scope q, which s1 had empty,
   * binds them in order to fresh null cells, and they are distinct.
   */
  ghost predicate Declared(s0: Store, s1: Store, st: Store, q: CtxId, props: seq<string>, i: nat, parent: Option<CtxId>) {
    && i <= |props|
    && ScopeGrown(s1, st, q) && |st.ctxs[q].collection| == i
    && (forall k :: 0 <= k < i ==> st.ctxs[q].collection[k].identifier == props[k])
    && (forall a, b :: 0 <= a < b < i ==> props[a] != props[b])
    && (forall k :: 0 <= k < i ==> FreshNullProperty(s0, st, q, k, parent))
  }

  /** new unique_refrence(new value(), nullptr, parent). */
  method NewNullCell(h: Heap, parent: Option<CtxId>) returns (c: RefId)
    requires h.Valid() && (parent.Some? ==> parent.value in h.st.ctxs)
    modifies h
    ensures h.Valid() && OnlyAdds(old(h.st), h.st) && FreshNull(old(h.st), h.st, c, parent)
  {
    ghost var s0 := h.st;
    var v := h.NewValue(Null);
    ghost var s1 := h.st;
    c := h.NewCell(Cell(v, None, parent));
    OnlyAddsTrans(s0, s1, h.st);
  }

  /** Declaring the fresh cell c as props[i] extends Declared, or fails on a repeated name. */
  lemma DeclaredStep(s0: Store, s1: Store, s2: Store, s3: Store, s4: Store, q: CtxId, props: seq<string>, i: nat,
                     parent: Option<CtxId>, c: RefId)
    requires i < |props| && Grows(s0, s2) && Declared(s0, s1, s2, q, props, i, parent)
    requires OnlyAdds(s2, s3) && FreshNull(s2, s3, c, parent)
    requires q in s3.ctxs && q in s4.ctxs && s4 == s3.(ctxs := s3.ctxs[q := s4.ctxs[q]])
    requires s4.ctxs[q].parentContext == s3.ctxs[q].parentContext
    requires Contexts.Binds(s3.ctxs[q].collection, props[i]) ==> s4.ctxs[q].collection == s3.ctxs[q].collection
    requires !Contexts.Binds(s3.ctxs[q].collection, props[i]) ==>
      s4.ctxs[q].collection == s3.ctxs[q].collection + [Variable(props[i], c)]
    ensures Grows(s0, s4) && ScopeGrown(s1, s4, q)
    ensures Contexts.Binds(s3.ctxs[q].collection, props[i]) <==> exists k :: 0 <= k < i && props[k] == props[i]
    ensures !Contexts.Binds(s3.ctxs[q].collection, props[i]) ==> Declared(s0, s1, s4, q, props, i + 1, parent)
  {
    var coll := s3.ctxs[q].collection;
    assert coll == s2.ctxs[q].collection;
    assert ScopeGrown(s2, s4, q);
    ScopeGrownTrans(s1, s2, s4, q);
    if Contexts.Binds(coll, props[i]) {
      var k := Contexts.FirstIndex(coll, props[i]);
      assert props[k] == props[i];
    } else {
      forall k | 0 <= k < i ensures props[k] != props[i] {
        assert coll[k].identifier == props[k];
      }
      FreshStep(s0, s2, s4, q, i, parent);
      assert FreshNullProperty(s0, s4, q, i, parent);
    }
  }

  /**
   * One property: a new null value and a new cell owned by parent,
   * declared in q as props[i]. It fails exactly when an earlier property
   * has the same name.
   */
  method DeclareProperty(h: Heap, q: CtxId, props: seq<string>, i: nat, parent: Option<CtxId>, ghost s0: Store, ghost s1: Store)
      returns (ok: bool)
    requires h.Valid() && q in h.st.ctxs && (parent.Some? ==> parent.value in h.st.ctxs)
    requires i < |props| && Grows(s0, h.st) && Declared(s0, s1, h.st, q, props, i, parent)
    modifies h
    ensures h.Valid() && Grows(s0, h.st) && ScopeGrown(s1, h.st, q)
    ensures ok <==> forall k :: 0 <= k < i ==> props[k] != props[i]
    ensures ok ==> Declared(s0, s1, h.st, q, props, i + 1, parent)
  {
    ghost var s2 := h.st;
    var c := NewNullCell(h, parent);
    ghost var s3 := h.st;
    var r := h.DeclareIn(q, props[i], c);
    DeclaredStep(s0, s1, s2, s3, h.st, q, props, i, parent, c);
    ok := r.Ok?;
  }

  /**
   * A new value holding a new instance of the struct name with the
   * properties props. A property named twice makes the second declare
   * throw ERROR_VARIABLE_ALREADY_DEFINED (after its cell was allocated).
   */
  method Instantiate(h: Heap, name: string, props: seq<string>, parent: Option<CtxId>) returns (res: Result<ValId>)
    requires h.Valid() && (parent.Some? ==> parent.value in h.st.ctxs)
    modifies h
    ensures h.Valid() && Grows(old(h.st), h.st) && OnlyAdds(old(h.st), h.st)
    ensures forall c | c in old(h.st.ctxs) :: c in h.st.ctxs && h.st.ctxs[c] == old(h.st.ctxs[c])
    ensures res.Err? <==> !Distinct(props)
    ensures res.Err? ==> res.error == VariableAlreadyDefined
    ensures res.Ok? ==>
      var w := res.value;
      && w !in old(h.st.vals) && w in h.st.vals && h.st.vals[w].Struct?
      && var q := h.st.vals[w].properties;
      && h.st.vals[w] == Struct(name, q)
      && q !in old(h.st.ctxs) && q in h.st.ctxs
      && h.st.ctxs[q].parentContext == parent
      && Names(h.st.ctxs[q].collection) == props
      && forall k :: 0 <= k < |props| ==> FreshNullProperty(old(h.st), h.st, q, k, parent)
  {
    ghost var s0 := h.st;
    var q := h.NewContext(parent);
    ghost var s1 := h.st;
    var i := 0;
    while i < |props|
      invariant h.Valid() && q in h.st.ctxs && Grows(s0, h.st) && Declared(s0, s1, h.st, q, props, i, parent)
    {
      var ok := DeclareProperty(h, q, props, i, parent, s0, s1);
      if !ok {
        return Err(VariableAlreadyDefined);
      }
      i := i + 1;
    }
    assert Names(h.st.ctxs[q].collection) == props;
    ghost var s2 := h.st;
    var w := h.NewValue(Struct(name, q));
    assert ScopeGrown(s2, h.st, q);
    FreshStep(s0, s2, h.st, q, |props|, parent);
    res := Ok(w);
  }
}
