/**
 * var_context: a scope of named bindings, kept as a growable buffer of
 * `variable` records in declaration order. The operations here work on a
 * VarContext value and return the new one; the heap stores it back.
 */
module Contexts {
  import opened Errors
  import opened Objects

  /** name is bound somewhere in coll. */
  ghost predicate Binds(coll: seq<Variable>, name: string) {
    exists i :: 0 <= i < |coll| && coll[i].identifier == name
  }

  /** The position of the first binding of name. */
  function FirstIndex(coll: seq<Variable>, name: string): (i: nat)
    requires Binds(coll, name)
    ensures i < |coll| && coll[i].identifier == name
    ensures forall j :: 0 <= j < i ==> coll[j].identifier != name
  {
    if coll[0].identifier == name then 0
    else
      assert Binds(coll[1..], name) by {
        var k :| 0 <= k < |coll| && coll[k].identifier == name;
        assert coll[1..][k - 1].identifier == name;
      }
      1 + FirstIndex(coll[1..], name)
  }

  /** coll without its i-th binding. */
  function RemoveAt(coll: seq<Variable>, i: nat): seq<Variable>
    requires i < |coll|
  {
    coll[..i] + coll[i + 1..]
  }

  /** var_context::has_val: whether name is bound. */
  method HasVal(ctx: VarContext, name: string) returns (found: bool)
    ensures found <==> Binds(ctx.collection, name)
  {
    var i := 0;
    while i < |ctx.collection|
      invariant i <= |ctx.collection|
      invariant forall j :: 0 <= j < i ==> ctx.collection[j].identifier != name
    {
      if ctx.collection[i].identifier == name {
        return true;
      }
      i := i + 1;
    }
    return false;
  }

  /** var_context::searchForVal: the cell bound to name, or ERROR_NOT_IN_VAR_CONTEXT. */
  method SearchForVal(ctx: VarContext, name: string) returns (res: Result<RefId>)
    ensures res.Ok? <==> Binds(ctx.collection, name)
    ensures res.Ok? ==> res.value == ctx.collection[FirstIndex(ctx.collection, name)].uniqueRef
    ensures res.Err? ==> res.error == NotInVarContext
  {
    var i := 0;
    while i < |ctx.collection|
      invariant i <= |ctx.collection|
      invariant forall j :: 0 <= j < i ==> ctx.collection[j].identifier != name
    {
      if ctx.collection[i].identifier == name {
        return Ok(ctx.collection[i].uniqueRef);
      }
      i := i + 1;
    }
    return Err(NotInVarContext);
  }

  /**
   * var_context::declare together with extend. A full buffer grows by five
   * slots before the name is checked, so a rejected declaration can still
   * have grown the capacity. A new name is appended and its cell returned.
   */
  method Declare(ctx: VarContext, name: string, r: RefId) returns (ctx': VarContext, res: Result<RefId>)
    ensures ctx'.parentContext == ctx.parentContext
    ensures ctx'.allocatedSize
         == if |ctx.collection| == ctx.allocatedSize then ctx.allocatedSize + 5 else ctx.allocatedSize
    ensures res.Err? <==> Binds(ctx.collection, name)
    ensures res.Err? ==> res.error == VariableAlreadyDefined && ctx'.collection == ctx.collection
    ensures res.Ok? ==> res.value == r && ctx'.collection == ctx.collection + [Variable(name, r)]
    ensures |ctx.collection| <= ctx.allocatedSize ==> |ctx'.collection| <= ctx'.allocatedSize
    ensures UniqueNames(ctx.collection) ==> UniqueNames(ctx'.collection)
  {
    ctx' := ctx;
    if |ctx'.collection| == ctx'.allocatedSize {
      ctx' := ctx'.(allocatedSize := ctx'.allocatedSize + 5);
    }
    var taken := HasVal(ctx', name);
    if taken {
      return ctx', Err(VariableAlreadyDefined);
    }
    ctx' := ctx'.(collection := ctx'.collection + [Variable(name, r)]);
    res := Ok(r);
  }

  /**
   * var_context::remove as written. Bindings after the first match move
   * down one slot and the size drops by one whether or not name was found:
   * an absent name drops the last binding instead, and on an empty context
   * the unsigned size wraps around, after which every walk over the buffer
   * reads memory the context does not own. freed is the cell the removal
   * deletes.
   */
  method Remove(ctx: VarContext, name: string) returns (res: Result<VarContext>, freed: Option<RefId>)
    requires UniqueNames(ctx.collection)
    ensures |ctx.collection| == 0 ==> res == Err(UndefinedBehaviour) && freed == None
    ensures Binds(ctx.collection, name) ==>
      var i := FirstIndex(ctx.collection, name);
      && res == Ok(ctx.(collection := RemoveAt(ctx.collection, i)))
      && freed == Some(ctx.collection[i].uniqueRef)
    ensures !Binds(ctx.collection, name) && |ctx.collection| > 0 ==>
      && res == Ok(ctx.(collection := ctx.collection[..|ctx.collection| - 1]))
      && freed == None
  {
    var coll := ctx.collection;
    var n := |coll|;
    var found := false;
    freed := None;
    ghost var m := if Binds(coll, name) then FirstIndex(coll, name) else n;
    var i := 0;
    while i < n
      invariant i <= n && |coll| == n
      invariant found <==> m < i
      invariant freed == if m < i then Some(ctx.collection[m].uniqueRef) else None
      invariant forall k :: 0 <= k < n && (k < m || k >= i) ==> coll[k] == ctx.collection[k]
      invariant forall k :: m <= k < i && k < n - 1 ==> coll[k] == ctx.collection[k + 1]
    {
      if coll[i].identifier == name {
        freed := Some(coll[i].uniqueRef);
        found := true;
      }
      if found && i < n - 1 {
        coll := coll[i := coll[i + 1]];
      }
      i := i + 1;
    }
    if n == 0 {
      return Err(UndefinedBehaviour), freed;
    }
    coll := coll[..n - 1];
    if m < n {
      assert coll == RemoveAt(ctx.collection, m);
    } else {
      assert coll == ctx.collection[..n - 1];
    }
    res := Ok(ctx.(collection := coll));
  }

  /**
   * var_context::remove as its callers need it: the binding of name is
   * removed and every other binding keeps its order; an absent name leaves
   * the context unchanged.
   */
  method RemoveBinding(ctx: VarContext, name: string) returns (ctx': VarContext, freed: Option<RefId>)
    requires UniqueNames(ctx.collection)
    ensures ctx'.allocatedSize == ctx.allocatedSize && ctx'.parentContext == ctx.parentContext
    ensures Binds(ctx.collection, name) ==>
      var i := FirstIndex(ctx.collection, name);
      && ctx'.collection == RemoveAt(ctx.collection, i)
      && freed == Some(ctx.collection[i].uniqueRef)
    ensures !Binds(ctx.collection, name) ==> ctx' == ctx && freed == None
    ensures !Binds(ctx'.collection, name) && UniqueNames(ctx'.collection)
  {
    var coll := ctx.collection;
    var n := |coll|;
    var found := false;
    freed := None;
    ghost var m := if Binds(coll, name) then FirstIndex(coll, name) else n;
    var i := 0;
    while i < n
      invariant i <= n && |coll| == n
      invariant found <==> m < i
      invariant freed == if m < i then Some(ctx.collection[m].uniqueRef) else None
      invariant forall k :: 0 <= k < n && (k < m || k >= i) ==> coll[k] == ctx.collection[k]
      invariant forall k :: m <= k < i && k < n - 1 ==> coll[k] == ctx.collection[k + 1]
    {
      if coll[i].identifier == name {
        freed := Some(coll[i].uniqueRef);
        found := true;
      }
      if found && i < n - 1 {
        coll := coll[i := coll[i + 1]];
      }
      i := i + 1;
    }
    if !found {
      assert coll == ctx.collection;
      return ctx, freed;
    }
    coll := coll[..n - 1];
    assert coll == RemoveAt(ctx.collection, m);
    ctx' := ctx.(collection := coll);
    forall j | 0 <= j < |coll| ensures coll[j].identifier != name {
      if j < m {
      } else {
        assert coll[j] == ctx.collection[j + 1];
      }
    }
  }

  /**
   * The cells var_context's destructor deletes along with the context c:
   * a context without a parent deletes the bound cells it owns itself, a
   * context with a parent the bound cells owned by that parent.
   */
  ghost function FreedOnTeardown(st: Store, c: CtxId): (freed: set<RefId>)
    requires c in st.ctxs
    ensures forall x | x in freed ::
      x in st.refs && exists i :: 0 <= i < |st.ctxs[c].collection| && st.ctxs[c].collection[i].uniqueRef == x
    ensures st.ctxs[c].parentContext.None? ==> forall x | x in freed :: st.refs[x].parentContext == Some(c)
    ensures st.ctxs[c].parentContext.Some? ==> forall x | x in freed :: st.refs[x].parentContext == st.ctxs[c].parentContext
  {
    var ctx := st.ctxs[c];
    var owner := if ctx.parentContext.None? then Some(c) else ctx.parentContext;
    set i | 0 <= i < |ctx.collection|
            && ctx.collection[i].uniqueRef in st.refs
            && st.refs[ctx.collection[i].uniqueRef].parentContext == owner
      :: ctx.collection[i].uniqueRef
  }
}
