/**
 * Reference chains. A cell that is not a root points at a parent cell; a
 * read, a write or a rebinding follows these links to the root
 * (`get_var_ptr`, `set_var_ptr`, `change_refrence`, the walk at the start
 * of `context_check`). The C++ loops stop only at a root, and the runtime
 * can link a chain into a cycle, so the walks here are bounded: a walk of
 * more links than there are cells reports Diverges, and DivergesIsEndless
 * shows that such a walk would never reach a root.
 */
module Chains {
  import opened Errors
  import opened Objects

  /** Every parent link names a cell of the map. */
  ghost predicate LinksClosed(refs: map<RefId, Cell>) {
    forall r | r in refs :: refs[r].parentRef.Some? ==> refs[r].parentRef.value in refs
  }

  /** b keeps every cell of a, with the same parent link. */
  ghost predicate SameLinksOn(a: map<RefId, Cell>, b: map<RefId, Cell>) {
    && a.Keys <= b.Keys
    && forall x | x in a :: b[x].parentRef == a[x].parentRef
  }

  /** The root met by following at most fuel links from r. */
  function FindRoot(refs: map<RefId, Cell>, r: RefId, fuel: nat): (res: Result<RefId>)
    ensures res.Ok? ==> res.value in refs && refs[res.value].parentRef.None?
    ensures res.Err? ==> res.error == Diverges || res.error == UndefinedBehaviour
    decreases fuel
  {
    if r !in refs then Err(UndefinedBehaviour)
    else match refs[r].parentRef
      case None => Ok(r)
      case Some(p) => if fuel == 0 then Err(Diverges) else FindRoot(refs, p, fuel - 1)
  }

  /** The root of r's chain; a chain longer than the number of cells diverges. */
  function Root(refs: map<RefId, Cell>, r: RefId): Result<RefId> {
    FindRoot(refs, r, |refs|)
  }

  /** unique_refrence::get_var_ptr: the value the root of r's chain owns. */
  function RootValue(refs: map<RefId, Cell>, r: RefId): Result<ValId> {
    var t :- Root(refs, r);
    Ok(refs[t].valuePtr)
  }

  /** The cells met from r on, r first, through at most fuel links. */
  function Walk(refs: map<RefId, Cell>, r: RefId, fuel: nat): (w: seq<RefId>)
    ensures r in refs ==> |w| >= 1 && w[0] == r
    ensures r !in refs ==> w == []
    ensures forall i :: 0 <= i < |w| ==> w[i] in refs
    decreases fuel
  {
    if r !in refs then []
    else match refs[r].parentRef
      case None => [r]
      case Some(p) => if fuel == 0 then [r] else [r] + Walk(refs, p, fuel - 1)
  }

  /** The cell reached from r after exactly k links, if the chain is that long. */
  function Follow(refs: map<RefId, Cell>, r: RefId, k: nat): (res: Option<RefId>)
    ensures res.Some? ==> res.value in refs
    decreases k
  {
    if r !in refs then None
    else if k == 0 then Some(r)
    else match refs[r].parentRef
      case None => None
      case Some(p) => Follow(refs, p, k - 1)
  }

  // ---------------------------------------------------------------------
  // Stability of roots.
  // ---------------------------------------------------------------------

  /** More fuel never changes a root that was found. */
  lemma {:induction false} FindRootFuel(refs: map<RefId, Cell>, r: RefId, f1: nat, f2: nat)
    requires f1 <= f2 && FindRoot(refs, r, f1).Ok?
    ensures FindRoot(refs, r, f2) == FindRoot(refs, r, f1)
    decreases f1
  {
    match refs[r].parentRef
    case None =>
    case Some(p) => FindRootFuel(refs, p, f1 - 1, f2 - 1);
  }

  /** A found root depends only on the parent links of the cells. */
  lemma {:induction false} FindRootLinks(a: map<RefId, Cell>, b: map<RefId, Cell>, r: RefId, f: nat)
    requires SameLinksOn(a, b) && FindRoot(a, r, f).Ok?
    ensures FindRoot(b, r, f) == FindRoot(a, r, f)
    decreases f
  {
    match a[r].parentRef
    case None =>
    case Some(p) => FindRootLinks(a, b, p, f - 1);
  }

  /** Two maps with the same cells and links agree on every walk, found or not. */
  lemma {:induction false} FindRootSame(a: map<RefId, Cell>, b: map<RefId, Cell>, r: RefId, f: nat)
    requires a.Keys == b.Keys && SameLinksOn(a, b)
    ensures FindRoot(b, r, f) == FindRoot(a, r, f)
    decreases f
  {
    if r in a && a[r].parentRef.Some? && f > 0 {
      FindRootSame(a, b, a[r].parentRef.value, f - 1);
    }
  }

  /** With closed links a walk from a cell never leaves the map: it finds a root or diverges. */
  lemma {:induction false} FindRootClosed(refs: map<RefId, Cell>, r: RefId, f: nat)
    requires LinksClosed(refs) && r in refs
    ensures FindRoot(refs, r, f).Ok? || FindRoot(refs, r, f) == Err(Diverges)
    decreases f
  {
    if refs[r].parentRef.Some? && f > 0 {
      FindRootClosed(refs, refs[r].parentRef.value, f - 1);
    }
  }

  /**
   * Adding cells and changing anything but the parent links of old cells
   * keeps the root of every chain that had one.
   */
  lemma RootKept(a: map<RefId, Cell>, b: map<RefId, Cell>, r: RefId)
    requires SameLinksOn(a, b) && Root(a, r).Ok?
    ensures Root(b, r) == Root(a, r)
  {
    FindRootLinks(a, b, r, |a|);
    assert |a.Keys| <= |b.Keys| by { SubsetCard(a.Keys, b.Keys); }
    FindRootFuel(b, r, |a|, |b|);
  }

  /** The same for the value owned by the root, when the roots keep their values. */
  lemma RootValueKept(a: map<RefId, Cell>, b: map<RefId, Cell>, r: RefId)
    requires SameLinksOn(a, b) && Root(a, r).Ok?
    requires b[Root(a, r).value].valuePtr == a[Root(a, r).value].valuePtr
    ensures RootValue(b, r) == RootValue(a, r)
  {
    RootKept(a, b, r);
  }

  lemma {:induction false} SubsetCard<T>(s: set<T>, t: set<T>)
    requires s <= t
    ensures |s| <= |t|
    decreases |s|
  {
    if s != {} {
      var x :| x in s;
      SubsetCard(s - {x}, t - {x});
    }
  }

  /** Every cell on a walk that ends at a root has that root. */
  lemma {:induction false} WalkCellRoot(refs: map<RefId, Cell>, r: RefId, f: nat, x: RefId)
    requires FindRoot(refs, r, f).Ok? && x in Walk(refs, r, f)
    ensures FindRoot(refs, x, f) == FindRoot(refs, r, f)
    decreases f
  {
    if x != r {
      var p := refs[r].parentRef.value;
      WalkCellRoot(refs, p, f - 1, x);
      FindRootFuel(refs, x, f - 1, f);
    }
  }

  /** A walk that finds its root ends there, and each cell links to the next. */
  lemma {:induction false} WalkLinks(refs: map<RefId, Cell>, r: RefId, f: nat)
    requires FindRoot(refs, r, f).Ok?
    ensures var w := Walk(refs, r, f);
      && |w| >= 1 && w[|w| - 1] == FindRoot(refs, r, f).value
      && forall i :: 0 <= i < |w| - 1 ==> refs[w[i]].parentRef == Some(w[i + 1])
    decreases f
  {
    match refs[r].parentRef
    case None =>
    case Some(p) => WalkLinks(refs, p, f - 1);
  }

  /**
   * Making g, a cell of r's walk, a root (as context_check's repair does)
   * makes g the root of r.
   */
  lemma {:induction false} CutMakesRoot(refs: map<RefId, Cell>, r: RefId, f: nat, g: RefId, c: Cell)
    requires g in Walk(refs, r, f) && c.parentRef.None?
    ensures FindRoot(refs[g := c], r, f) == Ok(g)
    decreases f
  {
    if r != g {
      var p := refs[r].parentRef.value;
      CutMakesRoot(refs, p, f - 1, g, c);
    }
  }

  // ---------------------------------------------------------------------
  // A diverging walk is endless.
  // ---------------------------------------------------------------------

  lemma {:induction false} FollowAdd(refs: map<RefId, Cell>, r: RefId, a: nat, b: nat)
    requires Follow(refs, r, a).Some?
    ensures Follow(refs, r, a + b) == Follow(refs, Follow(refs, r, a).value, b)
    decreases a
  {
    if a > 0 {
      FollowAdd(refs, refs[r].parentRef.value, a - 1, b);
    }
  }

  /** Each cell a diverging walk passes is a non-root cell. */
  lemma {:induction false} DivergedFollow(refs: map<RefId, Cell>, r: RefId, f: nat, k: nat)
    requires FindRoot(refs, r, f) == Err(Diverges) && k <= f
    ensures Follow(refs, r, k).Some? && refs[Follow(refs, r, k).value].parentRef.Some?
    decreases k
  {
    if k > 0 {
      DivergedFollow(refs, refs[r].parentRef.value, f - 1, k - 1);
    }
  }

  ghost function Visited(refs: map<RefId, Cell>, r: RefId, n: nat): set<RefId> {
    set k | 0 <= k <= n && Follow(refs, r, k).Some? :: Follow(refs, r, k).value
  }

  lemma {:induction false} VisitedCard(refs: map<RefId, Cell>, r: RefId, n: nat)
    requires forall k :: 0 <= k <= n ==> Follow(refs, r, k).Some?
    requires forall i, j :: 0 <= i < j <= n ==> Follow(refs, r, i) != Follow(refs, r, j)
    ensures |Visited(refs, r, n)| == n + 1
    decreases n
  {
    if n == 0 {
      assert Visited(refs, r, 0) == {Follow(refs, r, 0).value};
    } else {
      VisitedCard(refs, r, n - 1);
      var x := Follow(refs, r, n).value;
      assert Visited(refs, r, n) == Visited(refs, r, n - 1) + {x};
      assert x !in Visited(refs, r, n - 1);
    }
  }

  /** Pigeonhole: a walk of |refs| links without a root repeats a cell. */
  lemma Repeats(refs: map<RefId, Cell>, r: RefId)
    requires Root(refs, r) == Err(Diverges)
    ensures exists i, j :: 0 <= i < j <= |refs| && Follow(refs, r, i) == Follow(refs, r, j)
  {
    var n := |refs|;
    forall k | 0 <= k <= n ensures Follow(refs, r, k).Some? {
      DivergedFollow(refs, r, n, k);
    }
    if forall i, j :: 0 <= i < j <= n ==> Follow(refs, r, i) != Follow(refs, r, j) {
      VisitedCard(refs, r, n);
      SubsetCard(Visited(refs, r, n), refs.Keys);
      assert false;
    }
  }

  /**
   * If the bounded walk reports Diverges, the unbounded C++ loop never
   * stops: every cell the chain leads to has a parent.
   */
  lemma DivergesIsEndless(refs: map<RefId, Cell>, r: RefId)
    requires Root(refs, r) == Err(Diverges)
    ensures forall k: nat :: Follow(refs, r, k).Some? && refs[Follow(refs, r, k).value].parentRef.Some?
  {
    Repeats(refs, r);
    var i, j :| 0 <= i < j <= |refs| && Follow(refs, r, i) == Follow(refs, r, j);
    forall k: nat ensures Follow(refs, r, k).Some? && refs[Follow(refs, r, k).value].parentRef.Some? {
      Periodic(refs, r, i, j, k);
    }
  }

  lemma {:induction false} Periodic(refs: map<RefId, Cell>, r: RefId, i: nat, j: nat, k: nat)
    requires Root(refs, r) == Err(Diverges)
    requires i < j <= |refs| && Follow(refs, r, i) == Follow(refs, r, j)
    ensures Follow(refs, r, k).Some? && refs[Follow(refs, r, k).value].parentRef.Some?
    decreases k
  {
    if k <= |refs| {
      DivergedFollow(refs, r, |refs|, k);
    } else {
      DivergedFollow(refs, r, |refs|, j);
      DivergedFollow(refs, r, |refs|, i);
      FollowAdd(refs, r, j, k - j);
      FollowAdd(refs, r, i, k - j);
      Periodic(refs, r, i, j, i + (k - j));
    }
  }

  // ---------------------------------------------------------------------
  // Roots under a map that keeps the links of a closed map.
  // ---------------------------------------------------------------------

  /** Within a map whose links are closed, a walk sees only its own cells' links. */
  lemma {:induction false} FindRootAgree(a: map<RefId, Cell>, b: map<RefId, Cell>, r: RefId, f: nat)
    requires LinksClosed(a) && r in a && SameLinksOn(a, b)
    ensures FindRoot(b, r, f) == FindRoot(a, r, f)
    decreases f
  {
    if a[r].parentRef.Some? && f > 0 {
      FindRootAgree(a, b, a[r].parentRef.value, f - 1);
    }
  }

  lemma {:induction false} FoundFollow(refs: map<RefId, Cell>, r: RefId, f: nat) returns (m: nat)
    requires FindRoot(refs, r, f).Ok?
    ensures Follow(refs, r, m) == Some(FindRoot(refs, r, f).value)
    decreases f
  {
    match refs[r].parentRef
    case None => m := 0;
    case Some(p) =>
      var m' := FoundFollow(refs, p, f - 1);
      m := m' + 1;
  }

  /** A root found with any amount of fuel is found within |refs| links. */
  lemma FoundWithin(refs: map<RefId, Cell>, r: RefId, f: nat)
    requires LinksClosed(refs) && r in refs && FindRoot(refs, r, f).Ok?
    ensures Root(refs, r) == FindRoot(refs, r, f)
  {
    FindRootClosed(refs, r, |refs|);
    if Root(refs, r).Ok? {
      if |refs| <= f {
        FindRootFuel(refs, r, |refs|, f);
      } else {
        FindRootFuel(refs, r, f, |refs|);
      }
    } else {
      var m := FoundFollow(refs, r, f);
      DivergesIsEndless(refs, r);
      assert false;
    }
  }

  /**
   * A map that keeps every cell and link of a closed map, and may add
   * cells, gives every old cell the same root (or the same divergence).
   */
  lemma RootAgree(a: map<RefId, Cell>, b: map<RefId, Cell>, r: RefId)
    requires LinksClosed(a) && r in a && SameLinksOn(a, b)
    ensures Root(b, r) == Root(a, r)
  {
    FindRootAgree(a, b, r, |b|);
    SubsetCard(a.Keys, b.Keys);
    FindRootClosed(a, r, |a|);
    FindRootClosed(a, r, |b|);
    if FindRoot(a, r, |b|).Ok? {
      FoundWithin(a, r, |b|);
    } else if Root(a, r).Ok? {
      FindRootFuel(a, r, |a|, |b|);
      assert false;
    }
  }

  lemma RootValueAgree(a: map<RefId, Cell>, b: map<RefId, Cell>, r: RefId)
    requires LinksClosed(a) && r in a && SameLinksOn(a, b)
    requires forall x | x in a && a[x].parentRef.None? :: b[x].valuePtr == a[x].valuePtr
    ensures RootValue(b, r) == RootValue(a, r)
  {
    RootAgree(a, b, r);
  }

  /** A cell and its parent have the same root, or both diverge. */
  lemma ParentRoot(refs: map<RefId, Cell>, o: RefId)
    requires LinksClosed(refs) && o in refs && refs[o].parentRef.Some?
    ensures Root(refs, refs[o].parentRef.value) == Root(refs, o)
  {
    var q := refs[o].parentRef.value;
    var f := |refs|;
    FindRootClosed(refs, q, f);
    FindRootClosed(refs, o, f);
    if f > 0 && FindRoot(refs, q, f - 1).Ok? {
      FoundWithin(refs, q, f - 1);
    } else if Root(refs, q).Ok? {
      FoundWithin(refs, o, f + 1);
      assert false;
    }
  }

  /** A new cell linked to q reads through q. */
  lemma NewCellRoot(refs: map<RefId, Cell>, n: RefId, c: Cell)
    requires LinksClosed(refs) && n !in refs && c.parentRef.Some? && c.parentRef.value in refs
    ensures Root(refs[n := c], n) == Root(refs, c.parentRef.value)
  {
    FindRootAgree(refs, refs[n := c], c.parentRef.value, |refs|);
  }

  // ---------------------------------------------------------------------
  // Re-parenting a root (change_refrence).
  // ---------------------------------------------------------------------

  /** The map after change_refrence(n) on a chain whose root is t. */
  function Reparent(refs: map<RefId, Cell>, t: RefId, n: RefId): map<RefId, Cell>
    requires t in refs
  {
    refs[t := refs[t].(parentRef := Some(n))]
  }

  lemma {:induction false} WalkAvoids(refs: map<RefId, Cell>, t: RefId, n: RefId, x: RefId, f: nat)
    requires t in refs && t !in Walk(refs, x, f)
    ensures FindRoot(Reparent(refs, t, n), x, f) == FindRoot(refs, x, f)
    decreases f
  {
    if x in refs && refs[x].parentRef.Some? && f > 0 {
      WalkAvoids(refs, t, n, refs[x].parentRef.value, f - 1);
    }
  }

  lemma {:induction false} ThroughRoot(refs: map<RefId, Cell>, r: RefId, f: nat, n: RefId, g: nat) returns (k: nat)
    requires FindRoot(refs, r, f).Ok?
    ensures var t := FindRoot(refs, r, f).value;
      FindRoot(Reparent(refs, t, n), r, k + 1 + g) == FindRoot(Reparent(refs, t, n), n, g)
    decreases f
  {
    var t := FindRoot(refs, r, f).value;
    match refs[r].parentRef
    case None => k := 0;
    case Some(p) =>
      var k' := ThroughRoot(refs, p, f - 1, n, g);
      k := k' + 1;
  }

  /**
   * After change_refrence(n) on r, reading through r reads what n reads,
   * provided n's own chain does not pass r's former root.
   */
  lemma ReparentReadsTarget(refs: map<RefId, Cell>, r: RefId, n: RefId)
    requires LinksClosed(refs) && r in refs && n in refs
    requires Root(refs, r).Ok? && Root(refs, n).Ok?
    requires Root(refs, r).value !in Walk(refs, n, |refs|)
    ensures Root(Reparent(refs, Root(refs, r).value, n), r) == Root(refs, n)
  {
    var t := Root(refs, r).value;
    var refs' := Reparent(refs, t, n);
    assert refs'.Keys == refs.Keys;
    var f := ReparentFound(refs, r, n, t);
    FoundWithin(refs', r, f);
  }

  /** Some fuel finds n's root from r once r's root t links to n. */
  lemma ReparentFound(refs: map<RefId, Cell>, r: RefId, n: RefId, t: RefId) returns (f: nat)
    requires t in refs && Root(refs, r) == Ok(t) && t !in Walk(refs, n, |refs|)
    ensures FindRoot(Reparent(refs, t, n), r, f) == Root(refs, n)
  {
    var k := ThroughRoot(refs, r, |refs|, n, |refs|);
    WalkAvoids(refs, t, n, n, |refs|);
    f := k + 1 + |refs|;
  }

  lemma {:induction false} LoopDiverges(refs: map<RefId, Cell>, s: set<RefId>, x: RefId, f: nat)
    requires forall y | y in s :: y in refs && refs[y].parentRef.Some? && refs[y].parentRef.value in s
    requires x in s
    ensures FindRoot(refs, x, f) == Err(Diverges)
    decreases f
  {
    if f > 0 {
      LoopDiverges(refs, s, refs[x].parentRef.value, f - 1);
    }
  }

  lemma {:induction false} RootInWalk(refs: map<RefId, Cell>, n: RefId, f: nat, t: RefId)
    requires t in Walk(refs, n, f) && refs[t].parentRef.None?
    ensures FindRoot(refs, n, f) == Ok(t)
    decreases f
  {
    if n != t {
      RootInWalk(refs, refs[n].parentRef.value, f - 1, t);
    }
  }

  /** Two link paths ending at the root t stay closed once t is linked to n, the first cell of the second. */
  lemma ReparentClosed(refs: map<RefId, Cell>, t: RefId, n: RefId, wr: seq<RefId>, wn: seq<RefId>)
    requires t in refs && refs[t].parentRef.None?
    requires |wr| >= 1 && wr[|wr| - 1] == t
    requires forall i :: 0 <= i < |wr| ==> wr[i] in refs
    requires forall i :: 0 <= i < |wr| - 1 ==> refs[wr[i]].parentRef == Some(wr[i + 1])
    requires |wn| >= 1 && wn[0] == n && wn[|wn| - 1] == t
    requires forall i :: 0 <= i < |wn| ==> wn[i] in refs
    requires forall i :: 0 <= i < |wn| - 1 ==> refs[wn[i]].parentRef == Some(wn[i + 1])
    ensures var refs' := Reparent(refs, t, n);
      forall y | y in wr + wn ::
        y in refs' && refs'[y].parentRef.Some? && refs'[y].parentRef.value in wr + wn
  {
    var refs' := Reparent(refs, t, n);
    var w := wr + wn;
    forall y | y in w
      ensures y in refs' && refs'[y].parentRef.Some? && refs'[y].parentRef.value in w
    {
      var i :| 0 <= i < |w| && w[i] == y;
      if y == t {
        assert w[|wr|] == n;
      } else if i < |wr| {
        assert i < |wr| - 1;
        assert refs'[y].parentRef == Some(w[i + 1]);
      } else {
        assert i - |wr| < |wn| - 1;
        assert refs'[y].parentRef == Some(w[i + 1]);
      }
    }
  }

  /**
   * After change_refrence(n) on r, if n's chain passes r's former root the
   * links form a cycle: reading through r never ends.
   */
  lemma ReparentCycle(refs: map<RefId, Cell>, r: RefId, n: RefId)
    requires r in refs && n in refs
    requires Root(refs, r).Ok? && Root(refs, r).value in Walk(refs, n, |refs|)
    ensures Root(Reparent(refs, Root(refs, r).value, n), r) == Err(Diverges)
  {
    var t := Root(refs, r).value;
    var refs' := Reparent(refs, t, n);
    var wr := Walk(refs, r, |refs|);
    var wn := Walk(refs, n, |refs|);
    WalkLinks(refs, r, |refs|);
    RootInWalk(refs, n, |refs|, t);
    WalkLinks(refs, n, |refs|);
    ReparentClosed(refs, t, n, wr, wn);
    var s := set y | y in wr + wn;
    assert r in s by { assert (wr + wn)[0] == r; }
    LoopDiverges(refs', s, r, |refs'|);
  }

  /**
   * change_refrence(n) on r when r and n have different roots: r then has
   * n's root and reads what n reads.
   */
  lemma ReparentReads(refs: map<RefId, Cell>, r: RefId, n: RefId)
    requires LinksClosed(refs) && r in refs && n in refs
    requires Root(refs, r).Ok? && Root(refs, n).Ok? && Root(refs, r) != Root(refs, n)
    ensures var refs' := Reparent(refs, Root(refs, r).value, n);
      Root(refs', r) == Root(refs, n) && RootValue(refs', r) == RootValue(refs, n)
  {
    var t := Root(refs, r).value;
    if t in Walk(refs, n, |refs|) {
      RootInWalk(refs, n, |refs|, t);
      assert false;
    }
    ReparentReadsTarget(refs, r, n);
  }

  /**
   * change_refrence(n) on r when r and n already share a root: the links
   * close a cycle and reading through r never ends.
   */
  lemma ReparentShared(refs: map<RefId, Cell>, r: RefId, n: RefId)
    requires r in refs && n in refs && Root(refs, r).Ok? && Root(refs, r) == Root(refs, n)
    ensures Root(Reparent(refs, Root(refs, r).value, n), r) == Err(Diverges)
  {
    WalkLinks(refs, n, |refs|);
    ReparentCycle(refs, r, n);
  }

  /**
   * Linking a root t that r's chain does not end at leaves what r reads
   * unchanged.
   */
  lemma LinkElsewhere(refs: map<RefId, Cell>, t: RefId, n: RefId, r: RefId)
    requires t in refs && refs[t].parentRef.None? && Root(refs, r).Ok? && Root(refs, r) != Ok(t)
    ensures Root(Reparent(refs, t, n), r) == Root(refs, r)
    ensures RootValue(Reparent(refs, t, n), r) == RootValue(refs, r)
  {
    if t in Walk(refs, r, |refs|) {
      RootInWalk(refs, r, |refs|, t);
      assert false;
    }
    WalkAvoids(refs, t, n, r, |refs|);
    assert Reparent(refs, t, n).Keys == refs.Keys;
  }

  // ---------------------------------------------------------------------
  // The walk at the head of context_check.
  // ---------------------------------------------------------------------

  /** context_check's verdict on a chain whose root may be owned by del. */
  datatype Verdict =
    | Escapes          // the root and every alias are owned by del: nothing survives
    | Repair(at: RefId) // the root is owned by del; `at` is the last alias that is not
    | Safe             // the root is not owned by del

  /** The last of cells whose context is not del (last_good_ref). */
  function LastGood(refs: map<RefId, Cell>, cells: seq<RefId>, del: CtxId): (g: Option<RefId>)
    requires forall i :: 0 <= i < |cells| ==> cells[i] in refs
    ensures g.None? ==> forall i :: 0 <= i < |cells| ==> refs[cells[i]].parentContext == Some(del)
    ensures g.Some? ==>
      exists i :: && 0 <= i < |cells| && cells[i] == g.value
                  && refs[g.value].parentContext != Some(del)
                  && forall j :: i < j < |cells| ==> refs[cells[j]].parentContext == Some(del)
  {
    if cells == [] then None
    else if refs[cells[|cells| - 1]].parentContext != Some(del) then Some(cells[|cells| - 1])
    else LastGood(refs, cells[..|cells| - 1], del)
  }

  /** The verdict of context_check's walk from r, for the scope del. */
  function ChainVerdict(refs: map<RefId, Cell>, r: RefId, del: CtxId): Result<Verdict>
    requires r in refs
  {
    var t :- Root(refs, r);
    var w := Walk(refs, r, |refs|);
    if refs[t].parentContext == Some(del) then
      match LastGood(refs, w[..|w| - 1], del)
      case None => Ok(Escapes)
      case Some(g) => Ok(Repair(g))
    else Ok(Safe)
  }
}
