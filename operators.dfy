/**
 * applyUniaryOp and applyBinaryOp. Each is specified by a function on
 * values (UnaryResult, BinaryResult) and carried out on the heap by a
 * method that allocates the result value the way the C++ code does.
 */
module Operators {
  import opened Errors
  import opened Objects
  import opened Graph
  import opened Heaps
  import opened Syntax

  /** A truth value as the runtime returns it: the number 1 or 0. */
  function Truth(b: bool): Value {
    Number(if b then 1 else 0)
  }

  predicate IsUnary(op: Op) {
    op == Minus || op == Not || op == Increment || op == Decrement
  }

  predicate IsComparison(op: Op) {
    op == Equals || op == NotEqual || op == More || op == Less || op == MoreEqual || op == LessEqual
  }

  predicate IsArith(op: Op) {
    op == Minus || op == Asterisk || op == Slash || op == Modulus || op == Caret
  }

  /** What a comparison operator says of the result c of value::compare. */
  function Holds(op: Op, c: int): bool
    requires IsComparison(op)
  {
    if op == Equals then c == 0
    else if op == NotEqual then c != 0
    else if op == More then c > 0
    else if op == Less then c < 0
    else if op == MoreEqual then c >= 0
    else c <= 0
  }

  /** x / y truncated toward zero, as a C cast of the quotient. */
  function Quot(x: int, y: int): int
    requires y != 0
  {
    var q := (if x < 0 then -x else x) / (if y < 0 then -y else y);
    if (x < 0) != (y < 0) then -q else q
  }

  function Pow(x: int, n: nat): int {
    if n == 0 then 1 else x * Pow(x, n - 1)
  }

  function Abs(x: int): nat {
    if x < 0 then -x else x
  }

  /**
   * The quotient truncated toward zero leaves a remainder smaller than the
   * divisor that has the sign of the dividend.
   */
  lemma QuotRem(x: int, y: int)
    requires y != 0
    ensures var r := x - y * Quot(x, y); Abs(r) < Abs(y) && (r == 0 || (r < 0 <==> x < 0))
  {
    var ax: int, ay: int := Abs(x), Abs(y);
    var q := ax / ay;
    assert ax == ay * q + ax % ay && 0 <= ax % ay < ay;
    if x < 0 && y < 0 {
      assert x - y * Quot(x, y) == -(ax - ay * q);
    } else if x < 0 {
      assert x - y * Quot(x, y) == -(ax - ay * q);
    } else if y < 0 {
      assert x - y * Quot(x, y) == ax - ay * q;
    } else {
      assert x - y * Quot(x, y) == ax - ay * q;
    }
  }

  /**
   * The integer stand-ins for -, *, /, fmod and pow on doubles. The first
   * two are exact; / truncates toward zero and % is what fmod leaves, with
   * the sign of the dividend. A zero divisor, where the doubles give an
   * infinity or NaN, gives 0; a negative exponent, where pow gives the
   * reciprocal of a power (an infinity for a zero base), gives 0 too.
   */
  function Arith(op: Op, x: int, y: int): (r: int)
    requires IsArith(op)
    ensures op == Minus ==> r == x - y
    ensures op == Asterisk ==> r == x * y
    ensures (op == Slash || op == Modulus) && y == 0 ==> r == 0
    ensures op == Slash && y != 0 ==> Abs(x - y * r) < Abs(y) && (x - y * r == 0 || (x - y * r < 0 <==> x < 0))
    ensures op == Modulus && y != 0 ==> Abs(r) < Abs(y) && (r == 0 || (r < 0 <==> x < 0)) && r == x - y * Quot(x, y)
    ensures op == Caret ==> r == (if y < 0 then 0 else Pow(x, y))
  {
    if op == Minus then x - y
    else if op == Asterisk then x * y
    else if op == Slash then (if y == 0 then 0 else QuotRem(x, y); Quot(x, y))
    else if op == Modulus then (if y == 0 then 0 else QuotRem(x, y); x - y * Quot(x, y))
    else if y < 0 then 0 else Pow(x, y)
  }

  /**
   * applyUniaryOp on an operand value x: the operand afterwards and the
   * result. The operator is dispatched first, so an unknown token is
   * ERROR_UNEXPECTED_TOK whatever x is; every operator needs a number.
   */
  function UnaryResult(op: Op, x: Value): (r: Result<(Value, Value)>)
    ensures !IsUnary(op) ==> r == Err(UnexpectedTok)
    ensures IsUnary(op) && !x.Number? ==> r == Err(MustHaveDoubleType)
    ensures IsUnary(op) && x.Number? ==> r.Ok? && r.value.0.Number? && r.value.1.Number?
    ensures r.Ok? && (op == Minus || op == Not) ==> r.value.0 == x
    ensures r.Ok? && (op == Increment || op == Decrement) ==> r.value.1 == x
  {
    if !IsUnary(op) then Err(UnexpectedTok)
    else if !x.Number? then Err(MustHaveDoubleType)
    else if op == Minus then Ok((x, Number(-x.n)))
    else if op == Not then Ok((x, Truth(x.n == 0)))
    else if op == Increment then Ok((Number(x.n + 1), x))
    else Ok((Number(x.n - 1), x))
  }

  /** `--` undoes `++` on the operand, and each yields the operand's old value. */
  lemma IncrementThenDecrement(n: int)
    ensures var r := UnaryResult(Increment, Number(n));
      && r == Ok((Number(n + 1), Number(n)))
      && UnaryResult(Decrement, r.value.0) == Ok((Number(n), Number(n + 1)))
  {
  }

  /** `!` is a truth test: 1 exactly on 0, and `!!x` is 1 exactly when x is not 0. */
  lemma NotNot(n: int)
    ensures UnaryResult(Not, Number(n)) == Ok((Number(n), Truth(n == 0)))
    ensures UnaryResult(Not, UnaryResult(Not, Number(n)).value.1) == Ok((Truth(n == 0), Truth(n != 0)))
  {
  }

  /**
   * applyBinaryOp on the values a and b of st. Operands of different types
   * are only ever unequal: `==` gives 0, `!=` gives 1 and every other
   * operator ERROR_INCOMPATIBLE_VALUE_TYPES. On operands of one type the
   * comparisons go through value::compare, `||` and `&&` need numbers, `+`
   * adds numbers and concatenates arrays, and the rest need numbers.
   */
  function BinaryResult(st: Store, op: Op, a: ValId, b: ValId, depth: nat): (r: Result<Value>)
    requires a in st.vals && b in st.vals
    ensures st.vals[a].Type() != st.vals[b].Type() ==>
      r == if op == Equals then Ok(Number(0)) else if op == NotEqual then Ok(Number(1)) else Err(IncompatibleValueTypes)
    ensures r.Ok? && IsComparison(op) ==> r.value == Truth(true) || r.value == Truth(false)
    ensures op == Plus && st.vals[a].Array? && st.vals[b].Array? ==>
      var ea, eb := st.vals[a].elems, st.vals[b].elems;
      && r.Ok? && r.value.Array? && |r.value.elems| == |ea| + |eb|
      && (forall i :: 0 <= i < |ea| ==> r.value.elems[i] == ea[i])
      && (forall j :: 0 <= j < |eb| ==> r.value.elems[|ea| + j] == eb[j])
    ensures StoreOK(st) && r.Ok? ==> ValueClosed(st, r.value)
  {
    var x, y := st.vals[a], st.vals[b];
    if x.Type() != y.Type() then
      if op == Equals then Ok(Number(0)) else if op == NotEqual then Ok(Number(1)) else Err(IncompatibleValueTypes)
    else if IsComparison(op) then
      var c :- CompareSpec(st, a, b, depth);
      Ok(Truth(Holds(op, c)))
    else if op == Or || op == And then
      if !x.Number? then Err(MustHaveDoubleType)
      else if op == Or then Ok(Truth(x.n != 0 || y.n != 0))
      else Ok(Truth(x.n != 0 && y.n != 0))
    else if op == Plus then
      if x.Number? then Ok(Number(x.n + y.n))
      else if x.Array? then
        assert StoreOK(st) ==> ValueClosed(st, x) && ValueClosed(st, y);
        Ok(Array(x.elems + y.elems))
      else Err(MustHaveDoubleType)
    else if IsArith(op) then
      if x.Number? then Ok(Number(Arith(op, x.n, y.n))) else Err(MustHaveDoubleType)
    else Err(UnexpectedTok)
  }

  /** `==` and `!=` always disagree: they fail together, else one is 1 and the other 0. */
  lemma EqualsNotEqual(st: Store, a: ValId, b: ValId, depth: nat)
    requires a in st.vals && b in st.vals
    ensures var e, n := BinaryResult(st, Equals, a, b, depth), BinaryResult(st, NotEqual, a, b, depth);
      && (e.Ok? <==> n.Ok?)
      && (e.Ok? ==> (e.value == Truth(true) <==> n.value == Truth(false)))
  {
  }

  /**
   * value::compare on two structs is always 1, so `==` never holds
   * between structs, not even between a struct and itself.
   */
  lemma StructsNeverEqual(st: Store, a: ValId, depth: nat)
    requires depth > 0 && a in st.vals && st.vals[a].Struct?
    ensures BinaryResult(st, Equals, a, a, depth) == Ok(Number(0))
    ensures BinaryResult(st, NotEqual, a, a, depth) == Ok(Number(1))
  {
  }

  /**
   * `==` on two arrays is 1 exactly when they have the same size and each
   * pair of elements at one index is equal (value_array::compare).
   */
  lemma ArraysEqual(st: Store, a: ValId, b: ValId, depth: nat)
    requires depth > 0 && a in st.vals && b in st.vals
    requires st.vals[a].Array? && st.vals[b].Array?
    ensures var ea, eb := st.vals[a].elems, st.vals[b].elems;
      (BinaryResult(st, Equals, a, b, depth) == Ok(Number(1))
       <==> |ea| == |eb| && forall k :: 0 <= k < |ea| ==> PairEqual(st, ea[k], eb[k], depth - 1))
  {
    ArraysEqualIff(st, a, b, depth);
  }

  /** On numbers the comparisons are the integer order. */
  lemma NumbersCompare(st: Store, a: ValId, b: ValId, depth: nat)
    requires depth > 0 && a in st.vals && b in st.vals
    requires st.vals[a].Number? && st.vals[b].Number?
    ensures var x, y := st.vals[a].n, st.vals[b].n;
      && BinaryResult(st, Less, a, b, depth) == Ok(Truth(x < y))
      && BinaryResult(st, More, a, b, depth) == Ok(Truth(x > y))
      && BinaryResult(st, LessEqual, a, b, depth) == Ok(Truth(x <= y))
      && BinaryResult(st, MoreEqual, a, b, depth) == Ok(Truth(x >= y))
      && BinaryResult(st, Equals, a, b, depth) == Ok(Truth(x == y))
  {
  }

  /**
   * The combined buffer of `+` on arrays: a new array of |ea| + |eb|
   * slots holding ea's cells, then eb's. The cells themselves are shared,
   * not copied.
   */
  method Concat(ea: seq<RefId>, eb: seq<RefId>) returns (combined: seq<RefId>)
    ensures combined == ea + eb
  {
    var buf := new RefId[|ea| + |eb|];
    for i := 0 to |ea|
      invariant forall k :: 0 <= k < i ==> buf[k] == ea[k]
    {
      buf[i] := ea[i];
    }
    for i := 0 to |eb|
      invariant forall k :: 0 <= k < |ea| ==> buf[k] == ea[k]
      invariant forall k :: 0 <= k < i ==> buf[|ea| + k] == eb[k]
    {
      buf[|ea| + i] := eb[i];
    }
    combined := buf[..];
  }

  /**
   * applyUniaryOp on the value v of the heap. `-` and `!` allocate their
   * result; `++` and `--` allocate a clone of the old number and then
   * overwrite v in place.
   */
  method ApplyUniaryOp(h: Heap, op: Op, v: ValId) returns (res: Result<ValId>)
    requires h.Valid() && v in h.st.vals
    modifies h
    ensures h.Valid()
    ensures var r := UnaryResult(op, old(h.st.vals[v]));
      && (r.Err? ==> res == Err(r.error) && h.st == old(h.st))
      && (r.Ok? ==> && res.Ok? && res.value !in old(h.st.vals)
                    && h.st == old(h.st).(vals := old(h.st.vals)[v := r.value.0][res.value := r.value.1]))
  {
    var x := h.st.vals[v];
    if !IsUnary(op) {
      return Err(UnexpectedTok);
    }
    if !x.Number? {
      return Err(MustHaveDoubleType);
    }
    var w;
    if op == Minus {
      w := h.NewValue(Number(-x.n));
    } else if op == Not {
      w := h.NewValue(Truth(x.n == 0));
    } else {
      w := h.NewValue(x);
      h.SetNumber(v, if op == Increment then x.n + 1 else x.n - 1);
    }
    res := Ok(w);
  }

  /** applyBinaryOp on the values a and b of the heap: BinaryResult, allocated. */
  method ApplyBinaryOp(h: Heap, op: Op, a: ValId, b: ValId, depth: nat) returns (res: Result<ValId>)
    requires h.Valid() && a in h.st.vals && b in h.st.vals
    modifies h
    ensures h.Valid()
    ensures var r := BinaryResult(old(h.st), op, a, b, depth);
      && (r.Err? ==> res == Err(r.error) && h.st == old(h.st))
      && (r.Ok? ==> && res.Ok? && res.value !in old(h.st.vals)
                    && h.st == old(h.st).(vals := old(h.st.vals)[res.value := r.value]))
  {
    var x, y := h.st.vals[a], h.st.vals[b];
    var out: Value;
    if x.Type() != y.Type() {
      if op == Equals {
        out := Number(0);
      } else if op == NotEqual {
        out := Number(1);
      } else {
        return Err(IncompatibleValueTypes);
      }
    } else if IsComparison(op) {
      var c :- h.Compare(a, b, depth);
      out := Truth(Holds(op, c));
    } else if op == Or || op == And {
      if !x.Number? {
        return Err(MustHaveDoubleType);
      }
      out := if op == Or then Truth(x.n != 0 || y.n != 0) else Truth(x.n != 0 && y.n != 0);
    } else if op == Plus {
      if x.Number? {
        out := Number(x.n + y.n);
      } else if x.Array? {
        assert ValueClosed(h.st, h.st.vals[a]) && ValueClosed(h.st, h.st.vals[b]);
        var combined := Concat(x.elems, y.elems);
        out := Array(combined);
      } else {
        return Err(MustHaveDoubleType);
      }
    } else if IsArith(op) {
      if !x.Number? {
        return Err(MustHaveDoubleType);
      }
      out := Number(Arith(op, x.n, y.n));
    } else {
      return Err(UnexpectedTok);
    }
    var w := h.NewValue(out);
    res := Ok(w);
  }
}
