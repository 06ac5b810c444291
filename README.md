# fastcode runtime and evaluator, in Dafny

This project models the core of the fastcode interpreter. Two parts are
covered:

- the value runtime of `src/value.cpp`:
  - `value` boxes;
  - `value_array` buffers;
  - `structure` instances;
  - the `unique_refrence` cells that chain to a root owning a value;
  - the `var_context` scopes that bind names to cells;
  - the unary and binary operators;
- the tree-walking evaluator of `src/Source.cpp`:
  - `getVarPtr`, `getValue` and `execute`;
  - the `call_frame` and the global state: the static scope, the function
    and struct registries, and `req_exit`.

The runtime links its objects by raw pointer. The model keeps them in one
arena, the class `Heaps.Heap`. Its store has three maps, from identifiers
to cells, to values and to scopes. Two pointers are equal exactly when
their identifiers are. Every runtime operation that changes the heap is a
method of `Heap`, or a method taking a `Heap`. Each one keeps
`Heap.Valid()`: every identifier that a cell, value or scope holds names a
record of the store, and the names within a scope are unique. Each method
also states the new store, in terms of specification functions on the old
one. For example:

- `Chains.Root` and `Chains.RootValue` say where a chain ends;
- `Graph.CompareSpec` gives the result of comparing two values;
- `Graph.Reach` and `Graph.FillNull` give what `replaceNullContext` fills;
- `Chains.ChainVerdict` and `Repairs.Renewed` give what `context_check`
  decides and may change.

The lemmas beside these functions state what the runtime promises:

- a chain with no root makes the C++ loop endless;
- `change_refrence` either redirects reads or closes a cycle;
- array equality holds element-wise;
- `replaceNullContext` is idempotent and only fills owners;
- `==` and `!=` always disagree.

The evaluator is the class `Interpreter.Interp`. Its methods follow the
switch cases of `getValue` and `execute` one by one. The steps those cases
share live in module `Steps`: reading a variable into a temporary,
assigning through a chain, adopting a temporary, and the call-return
repair protocol.

Model bounds:

- A chain walk of more links than the heap has cells reports `Diverges`.
  `Chains.DivergesIsEndless` shows that the C++ loop never ends in that
  case.
- The walks over nested values (clone, compare, `replaceNullContext`,
  `context_check`) take a depth, and report `Diverges` when it runs out.
  The value graph can contain cycles, for example an array stored in one
  of its own slots.
- Evaluation takes fuel. `FuelExhausted` stands for a program that runs
  longer than the bound.

## Model

| member | source | states |
|---|---|---|
| Objects.Iterate | src/value.cpp:400-407 | value_array::iterate as written: a slot for an index below the size. The index equal to the size passes the `index > size` guard and reads past the buffer (UndefinedBehaviour). Larger indices are out of range. A non-array cannot be iterated. |
| Objects.Length | src/value.cpp:130-138 | value::length: the size of an array, 0 for anything else. Exactly the indices below it are the ones iterate accepts. |
| Objects.IterateChecked | src/value.cpp:120-128 | value::iterate with the guard it evidently intends: Ok exactly for an array and an index below its size, and then that slot. Every other index of an array is out of range; a non-array cannot be iterated. |
| Objects.IterateGuards | src/value.cpp:402-406 | The as-written and the intended guards differ at exactly one index of an array: its size. |
| Objects.IterateAtSize | src/value.cpp:402-406 | The witness: index 1 of a one-slot array reads past the end as written, and is out of range as intended. |
| Contexts.FirstIndex | src/value.cpp:600-610 | The position searchForVal stops at holds the name, and no earlier position does. |
| Contexts.HasVal | src/value.cpp:612-622 | has_val is true exactly when some binding has the name. |
| Contexts.SearchForVal | src/value.cpp:600-610 | searchForVal succeeds exactly when the name is bound, and returns the cell of its first binding; otherwise ERROR_NOT_IN_VAR_CONTEXT. |
| Contexts.Declare | src/value.cpp:567-579 | declare fails exactly on a name already bound, and then leaves the bindings alone. Otherwise it appends the binding and returns the cell. The capacity grows by five when full, even for a rejected name. The bindings fit the capacity, and names stay unique. |
| Contexts.Remove | src/value.cpp:581-598 | remove as written. A bound name's binding is removed and its cell freed, the rest keeping their order. An absent name drops the last binding instead. An empty scope is UndefinedBehaviour (the unsigned size wraps around). |
| Contexts.RemoveBinding | src/value.cpp:581-598 | remove as intended. A bound name's binding is removed and the rest keep their order; an absent name changes nothing. Afterwards the name is unbound and names stay unique. |
| Contexts.FreedOnTeardown | src/value.cpp:538-553 | The cells var_context's destructor deletes: cells bound in the scope and owned by the scope itself when it has no parent, by its parent otherwise. |
| Chains.FindRoot | src/value.cpp:246-253 | A bounded get_var_ptr walk. A root it finds is a cell of the map with no parent. Any other outcome is divergence, or a dangling link. |
| Chains.Walk | src/value.cpp:219-230 | The cells set_var_ptr visits: r first, all cells of the map. |
| Chains.FindRootFuel | src/value.cpp:246-253 | More fuel never changes a root that was found. |
| Chains.FindRootLinks | src/value.cpp:246-253 | A found root depends only on the parent links. |
| Chains.FindRootClosed | src/value.cpp:246-253 | In a store without dangling links, a walk from a cell finds a root or diverges. |
| Chains.RootKept | src/value.cpp:246-253 | Adding cells, or changing anything but parent links, keeps every root that was found. |
| Chains.RootValueKept | src/value.cpp:246-253 | The same for the value read through the chain, when the root keeps its value. |
| Chains.WalkCellRoot | src/value.cpp:246-253 | Every cell on a chain that ends at a root has that root. |
| Chains.WalkLinks | src/value.cpp:246-253 | A walk that finds its root ends there, and each cell links to the next. |
| Chains.CutMakesRoot | src/value.cpp:271-272 | Making a cell of r's chain a root makes it r's root (context_check's repair). |
| Chains.Repeats | src/value.cpp:248-251 | Pigeonhole: a walk of as many links as there are cells, without a root, visits some cell twice. |
| Chains.DivergesIsEndless | src/value.cpp:248-251 | When the bounded walk reports Diverges, the unbounded C++ loop never stops: every cell it reaches has a parent. |
| Chains.FoundWithin | src/value.cpp:246-253 | A root found with any fuel is found within as many links as there are cells. |
| Chains.RootAgree | src/value.cpp:246-253 | Keeping every cell and link of a closed store, and perhaps adding cells, keeps every old cell's root or divergence. |
| Chains.RootValueAgree | src/value.cpp:246-253 | The same for the value read, when the roots keep their values. |
| Chains.ParentRoot | src/value.cpp:246-253 | A cell and its parent read through the same root. |
| Chains.NewCellRoot | src/Source.cpp:80 | A new cell linked to q reads what q reads. |
| Chains.ReparentReadsTarget | src/value.cpp:232-239 | After change_refrence(n) on r, reads through r see what n reads, provided n's chain avoids r's former root. |
| Chains.ReparentFound | src/value.cpp:232-239 | Once r's root links to n, a walk from r reaches n's root. |
| Chains.ReparentCycle | src/value.cpp:232-239 | When n's chain does pass r's former root, change_refrence closes a cycle, and reading through r never ends. |
| Chains.ReparentReads | src/value.cpp:232-239 | When r and n read through different roots, change_refrence(n) on r makes r read through n's root, and so read n's value. |
| Chains.ReparentShared | src/value.cpp:232-239 | When r and n already share a root, change_refrence(n) on r links that root to a cell of its own chain, and r's chain diverges. |
| Chains.LinkElsewhere | src/value.cpp:232-239 | Giving a parent to a root that is not r's root leaves what r reads unchanged. |
| Chains.LastGood | src/value.cpp:256-264 | last_good_ref: the last cell of the walk whose owner is not the scope being deleted. None when every cell is owned by it. |
| Graph.ElemsCompareZero | src/value.cpp:434-442 | The element loop of value_array::compare gives 0 exactly when every pair of elements from that index on compares 0. |
| Graph.ArraysEqualIff | src/value.cpp:428-443 | Two arrays compare 0 exactly when they have the same size and each pair of elements compares 0. |
| Graph.CheckTypeAll | src/value.cpp:376-386 | checktype holds exactly when every element reads a value of the type. |
| Graph.ReachSkeleton | src/value.cpp:320-343 | What replaceNullContext visits depends on everything but the owner fields. |
| Graph.InsideSkeleton | src/value.cpp:325-342 | The same for the inside of a value. |
| Graph.ReachAllSkeleton | src/value.cpp:328-331 | The same for a sequence of cells. |
| Graph.ReachFilled | src/value.cpp:320-343 | Filling a cell's owner, then the inside of the value it reads, fills everything replaceNullContext visits from the cell. |
| Graph.ReachUnfilled | src/value.cpp:320-325 | A cell whose chain has no root makes the visit fail with that error. |
| Graph.InsideArray | src/value.cpp:326-332 | The inside of an array is what its elements reach, one level down. |
| Graph.InsideStruct | src/value.cpp:333-342 | The inside of a struct is its property scope plus what its properties reach, one level down. |
| Graph.StructFilled | src/value.cpp:333-342 | Filling a struct's scope and then its properties fills its inside. |
| Graph.AllFilledStep | src/value.cpp:328-331 | One more element filled extends the filled prefix; a failing element fails the whole loop. |
| Graph.FillNullSkeleton | src/value.cpp:320-343 | Filling owners changes nothing but owner fields. |
| Graph.FillNullJoin | src/value.cpp:320-343 | Filling two footprints one after the other fills their union. |
| Graph.ReachAllPrefix | src/value.cpp:328-331 | A failing prefix makes the whole loop fail with the same error. |
| Graph.FillNullOK | src/value.cpp:320-343 | Giving owners from the store's own scopes keeps the store well formed. |
| Graph.ReplaceNullContextIdempotent | src/value.cpp:320-343 | replaceNullContext is idempotent. A second run from the same cell visits the same footprint and changes nothing. |
| Operators.QuotRem | src/value.cpp:778-795 | The quotient truncated toward zero leaves a remainder smaller than the divisor, with the dividend's sign. |
| Operators.Arith | src/value.cpp:760-807 | The integer stand-ins of `-`, `*`, `/`, `%` and `^`. `/` truncates toward zero: the remainder is smaller than the divisor and has the dividend's sign. `%` is that remainder, as fmod gives it. A zero divisor gives 0; so does a negative exponent, where pow gives the reciprocal of a power. |
| Operators.UnaryResult | src/value.cpp:636-681 | applyUniaryOp. An unknown operator is ERROR_UNEXPECTED_TOK before the type is looked at, and a non-number is ERROR_MUST_HAVE_DOUBLE_TYPE. Otherwise the operand and the result are numbers. `-` and `!` leave the operand alone; `++` and `--` return the old operand. |
| Operators.IncrementThenDecrement | src/value.cpp:660-677 | `--` undoes `++` on the operand, and each yields the operand's value from before. |
| Operators.NotNot | src/value.cpp:647-659 | `!` gives 1 exactly on 0, and `!!x` gives 1 exactly when x is not 0. |
| Operators.BinaryResult | src/value.cpp:683-807 | applyBinaryOp. Operands of different types give 0 for `==`, 1 for `!=` and ERROR_INCOMPATIBLE_VALUE_TYPES otherwise. A comparison yields 1 or 0. `+` on arrays is the concatenation of the slot cells. The result only holds cells of the store. |
| Operators.EqualsNotEqual | src/value.cpp:698-703 | `==` and `!=` fail together, and otherwise exactly one of them is 1. |
| Operators.StructsNeverEqual | src/value.cpp:193-195 | value::compare on structs is always 1, so `==` is 0 even between a struct and itself. |
| Operators.ArraysEqual | src/value.cpp:698-700 | `==` on arrays is 1 exactly when they have the same size and each pair of elements compares equal. |
| Operators.NumbersCompare | src/value.cpp:704-715 | On numbers, `<`, `>`, `<=`, `>=` and `==` are the integer order. |
| Operators.Concat | src/value.cpp:742-755 | The combined buffer of `+` on arrays is a's cells followed by b's. |
| Operators.ApplyUniaryOp | src/value.cpp:636-681 | On the heap: an error changes nothing. Otherwise the operand is overwritten with UnaryResult's first component, and a new value holds the second. |
| Operators.ApplyBinaryOp | src/value.cpp:683-807 | On the heap: an error changes nothing. Otherwise a new value holds BinaryResult and nothing else changes. |
| Structures.NewNullCell | src/value.cpp:452 | A new root owned by the given scope, holding a new null value; only records are added. |
| Structures.DeclareProperty | src/value.cpp:449-453 | One property declared on a fresh null cell. It fails exactly when an earlier property has the same name. |
| Structures.Instantiate | src/value.cpp:445-454 | structure(prototype): fails exactly when a property name repeats (ERROR_VARIABLE_ALREADY_DEFINED). Otherwise a new struct of that name over a new scope under the parent. The scope binds the properties in order, each to a new null root owned by the parent. Only records are added: existing cells, values and scopes are unchanged. |
| Heaps.PointAtLinks | src/value.cpp:219-230 | Repointing cells at a value keeps the links, leaves the other cells alone and keeps the store well formed. |
| Heaps.PointChain | src/value.cpp:219-230 | set_var_ptr's loop. A chain without root diverges. When the root already owns the value, deleting it leaves the chain dangling (UndefinedBehaviour). Otherwise every cell of the chain points at the value and reads it. |
| Heaps.PointAtReads | src/value.cpp:219-230 | Once the whole chain points at v, every cell of it reads v. |
| Heaps.DeclareAll | src/value.cpp:486-501 | One declare per name, on a scope that starts empty, binds the names in order to the given cells. |
| Heaps.ChainWalk | src/value.cpp:256-264 | context_check's walk yields the root and last_good_ref. Read as a verdict: the chain escapes the scope, needs repair at last_good_ref, or is safe. A chain without root diverges. |
| Heaps.WalkVerdict | src/value.cpp:265-281 | The root and last_good_ref decide the verdict as context_check's branches do. |
| Heaps.Heap.NewCell | src/value.cpp:204-209 | new unique_refrence: the store gains exactly that cell, under a new identifier. |
| Heaps.Heap.NewContext | src/value.cpp:528-534 | new var_context: a new empty scope of capacity 10 under the parent. |
| Heaps.Heap.DeclareIn | src/value.cpp:567-579 | declare on a scope of the heap: only that scope changes. It fails exactly on a bound name; otherwise the binding is appended. |
| Heaps.Heap.RemoveIn | src/value.cpp:581-598 | remove as written, on a scope of the heap. An empty scope is UndefinedBehaviour and changes nothing. A bound name's first binding goes and the rest keep their order. An absent name drops the last binding. Only that scope's bindings change, and the name is unbound afterwards. |
| Heaps.Heap.SetNumber | src/value.cpp:666 | The boxed double is overwritten in place; nothing else changes. |
| Heaps.Heap.Link | src/Source.cpp:287 | `x->parent_refrence = p`: only x's parent link changes. |
| Heaps.Heap.GetVarPtr | src/value.cpp:246-253 | get_var_ptr: the value of the chain's root, a value of the store, or Diverges. |
| Heaps.Heap.SetVarPtr | src/value.cpp:219-230 | set_var_ptr on the heap: values and scopes are kept. An error changes nothing. On success the chain's cells point at the value and read it. |
| Heaps.Heap.AliasCell | src/value.cpp:494-499 | A new unowned cell reads what o reads. It links to o when o is a root, else to o's parent. |
| Heaps.Heap.ShallowClone | src/value.cpp:160-177 | value::shallowClone: a new value. Scalars and arrays are copied, the array sharing its slot cells. A struct becomes a new struct over a new scope binding the very same property cells. |
| Heaps.Heap.StructShallowClone | src/value.cpp:485-503 | structure::shallowClone: a new struct over a new parentless scope with the same names in order. Taking ownership binds the very same cells; otherwise each name is bound to an alias. |
| Heaps.Heap.AliasCells | src/value.cpp:487-501 | One alias per cell, in order. |
| Heaps.Heap.BindScope | src/value.cpp:477-481 | A new scope under the parent, binding the names in order to the given cells. |
| Heaps.Heap.Clone | src/value.cpp:140-158 | value::clone: a deep copy (IsCopy) made of new records only. Scalars always succeed. |
| Heaps.Heap.CloneArray | src/value.cpp:409-417 | value_array::clone: a new array whose slots are new unowned roots holding copies of what the slots read. |
| Heaps.Heap.CloneStruct | src/value.cpp:475-483 | structure::clone: a new struct of the same name over a copied scope. |
| Heaps.Heap.CloneCells | src/value.cpp:412-415 | The clone loop: one copy per cell, in order. |
| Heaps.Heap.CopyCell | src/value.cpp:414 | A new unowned root holding a copy of what the cell reads. |
| Heaps.Heap.CloneScope | src/value.cpp:477-481 | The scope of structure::clone: a new scope with the same names, each bound to a copy. Its parent is the original's parent, or the original itself when that has none. |
| Heaps.Heap.ChangeReference | src/value.cpp:232-239 | change_refrence: only the root of r's chain gets a parent link, to n. Diverges, changing nothing, when the chain has no root. |
| Heaps.Heap.Compare | src/value.cpp:180-202 | value::compare: the result CompareSpec gives, with its operand order and its struct case. |
| Heaps.Heap.CompareArrays | src/value.cpp:428-443 | value_array::compare: the result ArrayCompareSpec gives. |
| Heaps.Heap.CheckType | src/value.cpp:376-386 | value_array::checktype: the result CheckTypeSpec gives (see CheckTypeAll). |
| Heaps.Heap.ContextCheck | src/value.cpp:255-318 | context_check, following ChainVerdict. An escaping chain gives false and changes nothing, as does a repair when correction is not allowed. An allowed repair makes last_good_ref a root of a new value, where r's chain then ends, changing no other cell. Only renewals happen. True means the chain survives the scope's deletion. |
| Heaps.Heap.RepairChain | src/value.cpp:265-278 | The allowed repair: last_good_ref becomes a root of a new value, r's chain ends there, and no other cell changes. True means the chain survives. |
| Heaps.Heap.CheckReached | src/value.cpp:282-317 | The value check after a surviving chain keeps every cell; true means the chain still survives. |
| Heaps.Heap.Reroot | src/value.cpp:271-272 | last_good_ref becomes a root holding a shallow clone of the old root's value, keeping its owner. Only that cell changes. |
| Heaps.Heap.RenewCell | src/value.cpp:289 | A new unowned root holding a shallow clone of the cell's own cached value. |
| Heaps.Heap.SetSlot | src/value.cpp:289 | One array slot is replaced; nothing else changes. |
| Heaps.Heap.SetBinding | src/value.cpp:308 | One binding's cell is replaced; nothing else changes. |
| Heaps.Heap.DetachScope | src/value.cpp:300-302 | A property scope owned by the deleted scope loses its parent; any other scope is left alone. |
| Heaps.Heap.CheckInside | src/value.cpp:282-317 | The value check. Scalars pass unchanged. True for an array means every slot survives. True for a struct means its scope is detached and every property survives. |
| Heaps.Heap.CheckArray | src/value.cpp:283-297 | True means every slot of the array survives. |
| Heaps.Heap.CheckSlot | src/value.cpp:287-295 | A failing slot is renewed and checked again. The array keeps its size, and true means the slot now survives. |
| Heaps.Heap.CheckStruct | src/value.cpp:298-316 | The scope is detached from the deleted scope; true means every property survives. |
| Heaps.Heap.CheckBinding | src/value.cpp:305-314 | A failing property is renewed and checked again; true means it now survives. |
| Heaps.Heap.ReplaceNullContext | src/value.cpp:320-343 | replaceNullContext on the heap: exactly the owners over Reach are filled. It succeeds exactly when Reach does. |
| Heaps.ReplaceNullContextIn | src/value.cpp:320-343 | The same on a store value: filled over Reach, well formed, Ok exactly when Reach is. |
| Heaps.FillOwner | src/value.cpp:321-323 | A cell without owner gets one; an owner already set is kept. |
| Heaps.FillScopeOwner | src/value.cpp:335-337 | The same for a struct's property scope. |
| Heaps.ReplaceInside | src/value.cpp:325-342 | Filled over the value's inside, Ok exactly when Inside is. |
| Heaps.ReplaceArray | src/value.cpp:326-332 | The array case, filled over its inside. |
| Heaps.ReplaceStruct | src/value.cpp:333-342 | The struct case, filled over its inside. |
| Heaps.ReplaceAll | src/value.cpp:328-331 | The element loop, filled over ReachAll. |
| Repairs.AddsRenewed | src/value.cpp:289 | Adding records, with the new cells unowned roots, is a renewal. |
| Repairs.RerootRenewed | src/value.cpp:271-272 | Making a cell the root of a new value is a renewal. |
| Repairs.SlotRenewed | src/value.cpp:289 | Swapping an array slot for a new unowned root is a renewal. |
| Repairs.BindingRenewed | src/value.cpp:308 | Swapping a binding's cell for a new unowned root is a renewal. |
| Repairs.DetachRenewed | src/value.cpp:300-302 | Detaching a property scope from the deleted scope is a renewal. |
| Repairs.RenewedTrans | src/value.cpp:255-318 | Renewals compose. |
| Repairs.SurvivesKept | src/value.cpp:282-317 | A surviving chain of kept cells goes on surviving. |
| Repairs.UnownedSurvives | src/value.cpp:289 | An unowned root survives any deletion. |
| Repairs.SlotsSurviveNext | src/value.cpp:285-296 | The loop step over slots: surviving slots go on surviving, and one more survives. |
| Repairs.BindingsSurviveNext | src/value.cpp:303-315 | The same for properties. |
| Steps.OwnerStays | src/Source.cpp:154-160 | A cell that has an owner keeps one through context_check and replaceNullContext. |
| Steps.FilledOwns | src/value.cpp:321-323 | A completed replaceNullContext leaves its starting cell owned. |
| Steps.NewRoot | src/Source.cpp:72 | A new root with the given owner holding a new copy of the value; only records are added. |
| Steps.ReadThrough | src/Source.cpp:78-81 | A new cell linked to p and owned by p's owner. It caches p's value and reads exactly what p reads. |
| Steps.ReadStruct | src/Source.cpp:82-85 | A new unowned root holding a shallow struct copy whose properties alias the original's. |
| Steps.ReadScalar | src/Source.cpp:86 | A new unowned root holding a new copy of the scalar. |
| Steps.ReadCell | src/Source.cpp:76-87 | The TOK_IDENTIFIER read (ReadOf). An array, or any value when a reference is forced, gives a new cell linked to p that reads p's value. A struct gives a shallow copy; anything else a copy. A chain without root is Diverges and changes nothing. |
| Steps.Assign | src/Source.cpp:283 | `target->set_var_ptr(src->get_var_ptr())`: target then reads what src reads. No link changes and no record is added; an error changes nothing. |
| Steps.AssignedReads | src/Source.cpp:283 | After set_var_ptr, the target and the source keep their roots and the target reads the source's value. |
| Steps.Adopt | src/Source.cpp:284-291 | A root temporary is linked to the target. Otherwise the target's root is re-parented to the temporary's parent, which succeeds exactly when the target's chain has a root. On success, when the two chains had different roots the target reads the temporary's value; when they shared one, the target's chain diverges. |
| Steps.DeclareTarget | src/Source.cpp:270-278 | A new unowned null root bound to the unbound name at the end of the scope; no other scope changes. |
| Steps.BindArgument | src/Source.cpp:143-151 | The parameter cell takes the argument's value, and a root argument is linked to it. On success the argument had a value and the parameter's chain a root. If their roots differed, the parameter reads the argument's value; if they were the same, its chain diverges. The callee's bindings are unchanged. |
| Steps.DeclareOwned | src/Source.cpp:142 | A repeated name is ERROR_VARIABLE_ALREADY_DEFINED. Otherwise the binding of the name to a new null root owned by the callee is appended to the scope; no existing cell changes. |
| Steps.BindParam | src/Source.cpp:140-151 | A whole parameter: declared (DeclareOwned), then bound to the argument. On success the scope's last binding is the parameter's name, the earlier bindings are unchanged, and the parameter's cell reads the argument's value. |
| Steps.AssignVariable | src/Source.cpp:283-292 | The target takes the value the temporary reads, and a root temporary is linked to the target. On success the temporary had a value and the target's chain a root. If their roots differed, the target reads the temporary's value; if they were the same, the target's chain diverges. |
| Steps.AssignReturn | src/Source.cpp:300-308 | The block's return cell takes the value, and a root temporary is linked to it; values and scopes are kept. If their roots differed, the return cell reads the value; if they were the same, its chain diverges. |
| Steps.BindIterator | src/Source.cpp:402-403 | The iterator takes the slot's value; scopes and values are kept. On success the slot had a value and the iterator's chain a root. If their roots differed, the iterator's root now links to the slot, and the iterator reads the slot's value; if they were the same, its chain diverges. |
| Steps.IteratorRemoved | src/Source.cpp:423 | With unique names, removing the iterator's binding keeps the earlier names as a prefix and leaves the name unbound. |
| Steps.RemoveIterator | src/Source.cpp:423 | After the loop the iterator is unbound, and the names declared before it are kept; only that scope changes. |
| Steps.RepairedReadsFilled | src/Source.cpp:155 | replaceNullContext after context_check leaves what the cell reads as context_check left it. |
| Steps.FilledSurvives | src/Source.cpp:155 | replaceNullContext with a scope other than the deleted one keeps a surviving chain surviving. |
| Steps.SurvivorNotFreed | src/value.cpp:538-546 | A cell that survives the deletion of a parentless scope reads through a root that the scope's destructor does not free (FreedOnTeardown). |
| Steps.CheckOut | src/Source.cpp:154 | context_check(callee, true) on a cell: only renewals happen. A chain needing repair now ends at last_good_ref, which holds a value that was not in the store. Any other chain reads what it read (RepairedReads). True means the cell survives the deletion of callee. |
| Steps.RepairStep | src/Source.cpp:154-160 | context_check followed by replaceNullContext keeps names and keeps owners. |
| Steps.RepairParam | src/Source.cpp:156-161 | A root parameter is left alone. Otherwise the store is renewed by context_check, giving checked, then filled over what replaceNullContext reaches from checked. The parameter reads what RepairedReads says. When the check answered true and the fill completed, it survives the callee's deletion. Existing owners are kept. |
| Steps.RepairResult | src/Source.cpp:154-155 | context_check(callee, true) renews the store into checked; replaceNullContext(local) then fills it over what it reaches from the returned cell, and succeeds exactly when that walk does. The returned cell has an owner, reads what RepairedReads says, and survives the callee's deletion when the check answered true. |
| Steps.RepairParams | src/Source.cpp:156-162 | Repairing the parameters keeps every existing owner. |
| Steps.ReturnFrom | src/Source.cpp:153-164 | The call returns the body's cell, which ends with an owner. Its own repair is a renewal into checked followed by a fill into repaired (Returned). There it reads what RepairedReads says, and survives the callee's deletion when the check answered true. A failed fill is Diverges, and the parameters' repairs then only evolve the store. |
| Steps.Anchor | src/Source.cpp:95 | replaceNullContext on a temporary: the store is filled over what the walk reaches from it, and only owners change. It succeeds exactly when the walk completes, and then the temporary has an owner. |
| Steps.NewString | src/value.cpp:33-42 | A string token's value: a new unowned root holding a new array with one slot per character. Slot i is a new unowned root holding character i, and the slots and their values are all distinct (StringHolder). Only records are added. |
| Steps.Unary | src/Source.cpp:96-98 | The operator applied to what the operand reads (UnaryOf). A chain without value is its error, and UnaryResult's refusal is its error (ERROR_UNEXPECTED_TOK for a non-operator, ERROR_MUST_HAVE_DOUBLE_TYPE for a non-number); both leave the store unchanged. Otherwise the operand's value record is overwritten in place with UnaryResult's new operand value (the `++`/`--` write-back), and a new unowned root holds the result. Nothing else changes. |
| Steps.UnaryTail | src/Source.cpp:95-98 | Anchoring the operand fills the store over its walk, changing only owners (AnchoredIn). A walk that does not complete is Diverges with nothing else changed. Otherwise UnaryOf holds from the anchored store. |
| Steps.Binary | src/Source.cpp:106-109 | BinaryResult on what both operands read (BinaryOf). The left operand's error comes first, then the right's, then BinaryResult's; each leaves the store unchanged. Otherwise the store gains exactly a new unowned root and its value, which is BinaryResult. |
| Steps.BinaryTail | src/Source.cpp:105-109 | Re-anchoring the left operand changes only owners (AnchoredIn). A walk that does not complete is Diverges. Otherwise BinaryOf holds from the anchored store. |
| Steps.CloneHolder | src/Source.cpp:193-194 | clone: a deep copy of what the argument reads, in a new root owned by the local scope. |
| Steps.NullHolder | src/Source.cpp:181 | A new null value in a new root owned by the local scope. |
| Steps.BuiltinTail | src/Source.cpp:166-206 | An unknown name is ERROR_FUNCTION_NOT_FOUND, and `clone()` without arguments is UndefinedBehaviour; both change nothing. clone gives a deep copy of its first argument and the other built-ins a null, held by a new root owned by the local scope. |
| Interpreter.DeclareResolves | src/Source.cpp:270-281 | Declaring a name bound in neither scope makes it resolve to the new cell, whichever scope receives it. |
| Interpreter.ResolvedBinds | src/Source.cpp:216-224 | A name that resolves is bound in the local or the static scope. |
| Interpreter.LiteralValue | src/Source.cpp:70-75 | A null, number or char token holds a scalar: never an array or a struct. String tokens are built by Steps.NewString. |
| Interpreter.Frame.constructor | src/Source.cpp:30-44 | A new call frame runs the given block in the given scope, neither finished nor breaking. |
| Interpreter.Interp.constructor | src/Source.cpp:56-59 | The globals start with empty registries, req_exit false and a new empty static scope. |
| Interpreter.Interp.DefineFunction | src/Source.cpp:434-442 | A function name is registered once: a second definition is ERROR_FUNCTION_ALREADY_DEFINED. Entries are never changed. |
| Interpreter.Interp.DefineStruct | src/Source.cpp:443-451 | The same for struct prototypes (ERROR_STRUCT_ALREADY_DEFINED). |
| Interpreter.Interp.Lookup | src/Source.cpp:216-224 | The first binding in the local scope, else in the static scope, else ERROR_NOT_IN_VAR_CONTEXT. |
| Interpreter.Interp.PropertyStep | src/Source.cpp:228-237 | A non-struct is ERROR_MUST_HAVE_STRUCT_TYPE. A struct gives the first binding of the property, or ERROR_NOT_IN_VAR_CONTEXT. |
| Interpreter.Interp.IndexStep | src/Source.cpp:240-252 | A non-number index is ERROR_MUST_HAVE_DOUBLE_TYPE, and an index outside [0, length) is ERROR_INDEX_OUT_OF_RANGE. Otherwise the slot itself. |
| Interpreter.Interp.IterateOnce | src/Source.cpp:401 | Slot i of what the iterated cell reads now, as value_array::iterate gives it as written: the index equal to the size is UndefinedBehaviour. |
| Interpreter.Interp.ModifierStep | src/Source.cpp:226-254 | A property step changes nothing in the store, and the result is a cell of the store. |
| Interpreter.Interp.GetVarPtr | src/Source.cpp:213-257 | An unbound name is ERROR_NOT_IN_VAR_CONTEXT, and a bare name is resolved; neither changes the store. Otherwise the result is a cell of the store. |
| Interpreter.Interp.GetValue | src/Source.cpp:66-211 | A null, number or char literal gives a new unowned root holding its scalar. A string literal gives a new array with one new character cell per character (StringHolder). Each of these fails without changing the store: an unbound name, an unknown token, an unregistered struct. An unknown function fails. |
| Interpreter.Interp.EvalIdentifier | src/Source.cpp:76-87 | An unbound name fails without change. A bare name is resolved without change. The result is then what ReadCell gives for the variable's cell (ReadOf): an alias for an array or a forced reference, a shallow copy for a struct, a copy otherwise. |
| Interpreter.Interp.EvalUnary | src/Source.cpp:92-99 | A non-operator fails. The operand is evaluated, which only evolves the store (into s1). Its error is the result with nothing more changed. Otherwise the operand is anchored and the operator applied (UnaryThen): UnaryOf from the anchored store, including the in-place write-back of `++`/`--` and each error. |
| Interpreter.Interp.EvalBinary | src/Source.cpp:100-110 | The left operand's error is the result with nothing more changed. Otherwise the left operand is anchored (AnchoredIn), the right operand evaluated and the operation applied (RightThen): the right operand's error, or BinaryOf from the anchored store. |
| Interpreter.Interp.BinaryRest | src/Source.cpp:104-109 | The same once the left operand is known (RightThen). |
| Interpreter.Interp.NewInstance | src/Source.cpp:111-119 | An unregistered struct is ERROR_STRUCT_NOT_FOUND and changes nothing. A prototype with a repeated property fails. Otherwise a new unowned root holds a new struct of that name over a new parentless scope. The scope binds the prototype's properties in order, each to a new unowned null root. Every outcome only adds records. |
| Interpreter.Interp.EvalAll | src/Source.cpp:123-126 | One cell of the store per item; no items change nothing. |
| Interpreter.Interp.MakeArray | src/Source.cpp:120-128 | A new unowned root holding a new array whose slots are exactly the cells EvalAll returned, in item order. |
| Interpreter.Interp.CallBuiltin | src/Source.cpp:166-206 | Only built-in names succeed, and `clone()` without arguments is UndefinedBehaviour. abort and stop set req_exit. The result is a new root owned by the local scope, holding null for every built-in but clone. |
| Interpreter.Interp.CallUser | src/Source.cpp:129-165 | A wrong argument count is ERROR_UNEXPECTED_ARGUMENT_LENGTH and changes nothing. On success the parameters are distinct, and the new scope binds them first. The returned cell has an owner and went through the return repair (Returned). When context_check answered true, it survives the deletion of the new scope. |
| Interpreter.Interp.EnterCall | src/Source.cpp:137-164 | On success the parameters are distinct and bound first in the frame's scope. The returned cell has an owner and went through the return repair (Returned). |
| Interpreter.Interp.RunBody | src/Source.cpp:153-164 | The returned cell has an owner and went through the return repair (Returned): renewed, filled, and read as RepairedReads says. When the last statement the body ran was `return e`, the returned cell took e's value in the store the body left (TakesValue). |
| Interpreter.Interp.BindParams | src/Source.cpp:138-152 | On success the callee scope binds exactly the parameters, in order, and they are distinct. |
| Interpreter.Interp.BindOne | src/Source.cpp:140-151 | A parameter already bound fails. Otherwise the argument is evaluated as a reference (into evaluated). The scope then holds evaluated's bindings with the parameter appended last, and its cell reads what the argument read (BoundLast). |
| Interpreter.Interp.Execute | src/Source.cpp:259-466 | The statements run in order (Stopped). Every statement before the last one run let the block go on with req_exit clear. The loop ends at the first statement that stops the block or leaves req_exit set, or at the end. The result is the cell the last statement handed up with StopWith, else a new null root made on entry. A trailing `return e` made that root take e's value (TakesValue). A nested block that finishes the frame stops on its last statement run. The frame's own block marks it finished. |
| Interpreter.Interp.ExecStmt | src/Source.cpp:265-454 | break sets reqBreak and stops. A bare return stops without change. A return with a value finishes the frame, and the block's return cell takes the value (TakesValue). Assignments, calls and unary statements go on. A statement that goes on leaves an unfinished frame unfinished. Prototypes register once, else fail. Unknown tokens are ERROR_UNEXPECTED_TOK. A loop that stops the block does so because of req_exit or a finished frame. |
| Interpreter.Interp.ExecExpr | src/Source.cpp:426-433 | A call or unary statement lets the block go on. |
| Interpreter.Interp.ExecSet | src/Source.cpp:267-294 | An assignment lets the block go on. A name that resolves is the target, with nothing declared. A bare name that does not resolve is declared first, in the static scope when isGlobal is set and in the local one otherwise: a new unowned null root appended to that scope alone (DeclaredIn). On success the target takes the value, from the store the value was evaluated in (TakesValue). |
| Interpreter.Interp.AssignFrom | src/Source.cpp:282-291 | The value is evaluated without force, then the target takes it. On success, if their roots differed, the target reads the value; if they were the same, its chain diverges. |
| Interpreter.Interp.SetTarget | src/Source.cpp:268-281 | A bare name always resolves to the target afterwards, and an already bound name changes nothing. An unbound bare name is declared in the static scope when isGlobal is set, else in the local one, on a new unowned null root; no other scope changes (DeclaredIn). |
| Interpreter.Interp.ExecReturn | src/Source.cpp:295-311 | A return with a value finishes the frame, leaves reqBreak alone and stops the block. On success the block's return cell takes the value: different roots read the value, a shared root diverges (TakesValue). |
| Interpreter.Interp.Condition | src/Source.cpp:333-335 | The condition read is a number of the store. |
| Interpreter.Interp.ExecIf | src/Source.cpp:316-362 | The link taken is the first whose condition reads non-zero, or the else link (FirstTaken). Without one, the block goes on. A taken conditional link follows AfterBlock's order: req_exit stops, then a finished frame hands up its value, then a break stops, else the block goes on. The else link stops exactly when the frame finished, so it ignores a break. Going on leaves an unfinished frame unfinished. |
| Interpreter.Interp.RunElse | src/Source.cpp:320-332 | The else link stops the block exactly when the frame finished, handing up its block's return value p. |
| Interpreter.Interp.RunTaken | src/Source.cpp:342-358 | AfterBlock's four cases on the flags the block left. req_exit stops. Otherwise a finished frame hands up the block's return value p. Otherwise a break stops. Otherwise the block goes on. |
| Interpreter.Interp.AfterBlock | src/Source.cpp:343-358 | req_exit stops, then a finished frame stops handing up the value, then a break stops; otherwise the block goes on. |
| Interpreter.Interp.RunRound | src/Source.cpp:374-390 | The four cases of a loop round. req_exit stops. Otherwise a finished frame hands up the body's return value p. Otherwise a break (broke) ends the loop and clears reqBreak. Otherwise the loop goes on. |
| Interpreter.Interp.ExecWhile | src/Source.cpp:363-393 | flags records, for each round whose body ran, whether req_exit or a finished frame followed it. Every round but the last had neither, and one that had stops the loop without going on (FlagsStop). A loop that stops the block does so because of req_exit or a finished frame. A plain end leaves a clear reqBreak clear and an unfinished frame unfinished. |
| Interpreter.Interp.ExecFor | src/Source.cpp:394-425 | A name already bound in the frame's scope fails. The iterator is a new cell owned by the frame's scope. The rounds are those of Rounds, against the length of what the iterated cell reads on entry. A loop that ends normally removes the iterator's binding. Any other stop comes from req_exit or a finished frame. flags records whether req_exit or a finished frame followed each round; it is as long as the rounds, and a set flag stops the loop (FlagsStop). A plain end leaves an unfinished frame unfinished. |
| Interpreter.Interp.ForLoop | src/Source.cpp:398-424 | The length is read once on entry, and a chain without value is Diverges. Every round binds the iterator to slot i of what the iterated cell then reads (RoundsBound). Without a break or a stop, there are exactly as many rounds as that length. A normal end removes the iterator's binding. The round flags are as in Rounds (FlagsStop). |
| Interpreter.Interp.Rounds | src/Source.cpp:399-422 | At most limit rounds, and exactly limit unless one breaks, stops or fails. Round k binds the iterator to slot k of what the iterated cell reads when the round starts (RoundBound). A break or a stop ends the rounds. flags records whether req_exit or a finished frame followed each round, and a set flag ends the rounds without going on (FlagsStop). |
| Interpreter.Interp.ForRound | src/Source.cpp:401-420 | One round. A cell without value is Diverges, and a slot iterate refuses (the index equal to the size is UndefinedBehaviour) is its error; neither changes anything. Otherwise the iterator is bound to slot i (RoundBound): when their roots differ, it reads the slot's value; when they share one, its chain diverges. A stop comes from req_exit or a finished frame. req_exit or a finished frame always stops; a round that goes on or breaks leaves neither. |

## Left out

- Doubles are modelled as unbounded integers, so floating point is left out. `/` truncates toward zero, `%` keeps the dividend's sign like `fmod`, and `^` is integer power. A zero divisor gives 0 where the doubles give an infinity or NaN. A negative exponent gives 0 where `pow` gives the reciprocal of a power, an infinity for a zero base (`Operators.Arith`).
- Operators.NumbersCompare: value::compare returns the difference of two doubles converted to `int`. The model uses the exact integer difference, so neither the truncation of fractional differences nor `int` overflow is modelled.
- Interpreter.Interp.IndexStep: the `(int)` cast of the index double is the identity on the integer stand-in.
- Memory release (`delete`, the destructors of `value`, `value_array`, `structure`, `unique_refrence` and `var_context`) is not modelled. Nothing is ever freed. `Contexts.FreedOnTeardown` names the cells a scope's destructor deletes, but no reads of freed memory are tracked. The one exception is set_var_ptr deleting the value it is about to store (`Heaps.PointChain`).
- The built-ins `input`, `print`, `printl`, `len` and `array` call helpers that are not part of this model, and they do console I/O. The model gives them a new null result.
- `value::print`, `main` and its read-eval loop, the lexer and the parser are not part of this model.
- The `call_frame` pointer comparison `instructions == call_frame->instructions` is passed to `Execute` as a flag, `top`.
- The for-loop iterator is declared on a cell holding a new null value; the C++ code gives it a null pointer, which it overwrites before any read.
- The headers (`value.h`, `types.h`, the token classes) are not part of this model. The default of `structure::shallowClone`'s ownership flag is taken as true, the reading the struct case of `value::shallowClone` needs.
- Evaluation fuel, the depth of value-graph walks and the bound on chain walks are model bounds, reported as FuelExhausted or Diverges. Programs that need more are not modelled.
- Interpreter.Interp.GetValue: states the outcome only for literals and for the failing lookups. The other tokens' outcomes are stated by the methods it calls: EvalIdentifier, EvalUnary, EvalBinary, NewInstance, MakeArray, CallBuiltin and CallUser. Their ghost outputs (the intermediate stores) are not carried up to GetValue.
- Interpreter.Interp.Condition: does not tie the number read to the expression.
- Interpreter.Interp.ExecExpr: does not state the value computed, which the C++ code discards.
- Interpreter.Interp.RunBody: ties the returned cell to a trailing `return e` of the body only. A `return` inside an if or a loop hands up its block's cell (Execute's StopWith), but what that cell reads is not carried up through the nested block.
- Interpreter.Interp.ModifierStep: does not restate PropertyStep's and IndexStep's outcomes through the evaluated index.
- Steps.CheckOut: the answer of context_check is returned but dropped by RepairParam and RepairResult, as the C++ caller drops it; a Diverges answer (a chain without root) is dropped with it, and the following replaceNullContext then reports the same Diverges.
- Steps.RepairParams: states only that owners are kept and the store evolves. It does not restate RepairParam's renewal and fill per parameter, because a later parameter's repair may change cells an earlier one reached.
- Steps.ReturnFrom: states survival and what the returned cell reads in the store after its own repair, not after the parameters' repairs, which may change cells of its chain.
- Interpreter.Interp.CallUser: states survival of the returned cell after its own repair, not at the deletion of the frame; the deletion itself is not modelled (see Memory release).
- Steps.SurvivorNotFreed: needs the callee scope to have no parent, which holds when the frame is made but is not carried through the body.
- Steps.NewString: a string token's text is a sequence of Dafny `char`s, one slot each. `value(const char*)` makes one slot per byte of the C string (`strlen`), so text outside ASCII gets more slots in the C++ code than in the model.
- Heaps.Heap.Compare: two chars compare as the difference of their unsigned code points (`Graph.CompareSpec`). The C++ code subtracts two plain `char`s, whose sign is implementation-defined. The results agree below 128; for bytes of 128 or more, a signed `char` can flip the order.
- Interpreter.Interp.ExecStmt: does not state that the registries only grow, and neither do the other evaluator methods; only DefineFunction and DefineStruct state it.

## Findings

| source | as written | input that shows it | evidently intended | confidence | as-written member | corrected member |
|---|---|---|---|---|---|---|
| src/value.cpp:402 | `value_array::iterate` throws only for `index > size`, so `index == size` reads `collection[size]`, one slot past the buffer | a for loop over `a = [1, 2]` whose body runs `a = [7]`: the loop read the length 2 once, and its second round calls `iterate(1)` on the one-slot array | `index >= size` is out of range | not executed | Objects.Iterate, Objects.IterateAtSize | Objects.IterateChecked |
| src/value.cpp:581-598 | `var_context::remove` decrements the size whether or not the name was found | removing an unbound name from a scope binding `x` drops `x`; on an empty scope the unsigned size wraps around | an absent name leaves the scope unchanged | not executed | Contexts.Remove | Contexts.RemoveBinding |

The evaluator follows the code as written: `Interpreter.Interp.IterateOnce`
uses Iterate, so a for loop whose array shrank during the loop ends with
UndefinedBehaviour at the old size (`Interpreter.Interp.ForRound`), and
`Heaps.Heap.RemoveIn` uses Remove. IterateChecked and RemoveBinding state
the intended behaviour. The only caller of `remove`, at the end of a for
loop, removes a name that is bound. There the two versions agree
(`Steps.IteratorRemoved`).

Other behaviour the model keeps as written:

- A bare `return` leaves the block without setting `isFinished`.
- The `else` link of an if-chain ignores a pending break. The break stays set, so the next `while` or `for` loop of the block runs one round and then ends, clearing it.
- `clone()` without arguments reads past the argument buffer.
- A binary operation anchors its left operand twice and its right operand
  never (Source.cpp:105).
