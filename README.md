# Luna array, modelled in Dafny

This project models `luna_array_t`, the array type of the Luna runtime
(`src/array.h`). It is a growable, ordered vector of opaque value handles.
It is built on a klib `kvec_t`, which holds a buffer pointer, a size and a
capacity. The header defines six operations: initialise, length, push, a
guarded pop, a bounds-checked indexed read, and a forward iteration macro.

- `wrappers.dfy`: the `Option` type. `None` stands for the `NULL` that pop
  and at return.
- `array_model.dfy` (module `ArrayModel`): the array as a value. It holds
  the bounds-checked read (`Lookup`) and the push and pop operations a loop
  body may apply (`Op`, `ApplyOps`). It also holds what `luna_array_each`
  visits when its body changes the array as it goes (`EachTrace`,
  `EachFinal`), with the lemmas about them.
- `luna_array.dfy` (module `LunaArray`): the class `Array<T>`. Its fields
  mirror the vector: a backing `array?<T>` (null until the first push, as
  after `kv_init`), `length` and `capacity`. A ghost `Contents` sequence is
  the abstract value. `Valid()` ties them together and carries
  `length <= capacity`. Push, pop and each change the object in place.
  Length and at are read-only functions. Client methods at the end restate
  the round-trip and scenario properties from the clients' side.

The loop body of `luna_array_each` is modelled as a function from the
visited `(i, val)` pair to the list of pushes and pops it performs before
the next step. As in the source, the length is read once before the loop.
Each value is fetched through the bounds-checked read. So a body that
shrinks the array gets `None` for indices at or past the new length
(`ArrayModel.EachReadsCurrent`).

Growth is abstract. When `length == capacity`, `Grow` picks any larger
capacity, allocates a fresh buffer and copies the held prefix. The
growth rule itself is in `kvec.h`, which is not part of this model. The model
fixes no factor, so it proves only what holds for every larger capacity.

## Model

| member | source | states |
|---|---|---|
| `LunaArray.Array.Init` | src/array.h:24 | after initialisation the array holds nothing: contents empty, length 0, capacity 0, no buffer |
| `LunaArray.Array.Length` | src/array.h:30 | the length is the number of handles held and never exceeds the capacity |
| `LunaArray.Array.At` | src/array.h:52-55 | present exactly when `0 <= i < length`, and then it is the i-th handle; absent otherwise; reads only the held prefix and changes nothing |
| `LunaArray.Array.Grow` | src/array.h:36-37 | growing a full vector strictly raises capacity, keeps length and contents, and installs a fresh buffer |
| `LunaArray.Array.Push` | src/array.h:36-37 | contents become old contents plus `obj` at index old length; length rises by exactly one; capacity never falls and changes only when the vector was full |
| `LunaArray.Array.Pop` | src/array.h:43-46 | on an empty array returns absent and changes nothing; otherwise returns the last handle, drops it and keeps the prefix; capacity and buffer never change |
| `LunaArray.Array.RunOp` | src/array.h:66 | one push or pop of the body changes the contents exactly as `ApplyOp` says, with capacity not decreased |
| `LunaArray.Array.RunBlock` | src/array.h:66 | running the body's pushes and pops leaves exactly the contents `ApplyOps` predicts, with capacity not decreased |
| `LunaArray.Array.Each` | src/array.h:61-68 | the visited pairs and final contents are exactly `EachTrace` and `EachFinal` of the contents and the length at entry; capacity not decreased |
| `LunaArray.PushThenPopRestores` | src/array.h:36-46 | a push immediately followed by a pop returns the pushed handle and restores length and contents |
| `LunaArray.PushAllInOrder` | src/array.h:36-37 | after pushing `hs` one by one into a fresh array, the length is `|hs|` and `at(i)` is the i-th pushed handle for every `i` |
| `ArrayModel.Lookup` | src/array.h:52-55 | the bounds-checked read on contents `s`: present exactly when `0 <= i < |s|`, and then it is `s[i]` |
| `ArrayModel.ApplyOp` | src/array.h:36-46 | a push puts its handle at the old length and keeps every earlier handle; a pop on empty contents changes nothing, otherwise it drops exactly the last handle and keeps the prefix |
| `ArrayModel.ApplyOps` | src/array.h:66 | a body's operations change the length by at most one each; pushes alone keep the old contents as a prefix, pops alone leave a prefix of them |
| `ArrayModel.EachTrace` | src/array.h:61-68 | one visited pair per index from the start index up to the snapshotted length, whatever the body does |
| `ArrayModel.PushesAppend` | src/array.h:36-37 | pushing a sequence of handles appends it in order and leaves every earlier element unchanged |
| `ArrayModel.PushThenPop` | src/array.h:36-46 | a push followed by a pop has no effect on the contents, whatever operations follow |
| `ArrayModel.EachVisitsSnapshot` | src/array.h:63-64 | the iteration visits exactly the indices from the start index up to the length read once at entry, in increasing order, whatever the body does |
| `ArrayModel.EachReadsCurrent` | src/array.h:63-65 | the value visited at an index is present exactly when the index is below the array's length at that step, and is then the handle stored there; a shrinking body sees absent values, never an out-of-bounds read |
| `ArrayModel.EachPopsOnlyShrinks` | src/array.h:61-68 | with a body that only pops, the contents after the iteration (`EachFinal`) are a prefix of those it started from |
| `ArrayModel.EachPushesOnlyGrows` | src/array.h:61-68 | with a body that only pushes, the contents it started from remain a prefix of those after the iteration (`EachFinal`) |
| `ArrayModel.EachWithoutMutation` | src/array.h:61-67 | with a body that changes nothing, the k-th visited pair is `(k, element k)` and the contents end as they began |

## Left out

- Allocation failure in `kv_push`. `kvec.h` is not part of this model. In Dafny an allocation always succeeds.
- `LunaArray.Array.Grow`: states only that capacity strictly increases, not the doubling rule, because the growth factor is defined in `kvec.h`, which is not part of this model.
- Re-initialising a used array: `luna_array_init` (src/array.h:24) also resets a live vector to size 0, capacity 0 and no buffer. The model's `Init` is a constructor and only builds a new array.
- `luna_array_new` (src/array.h:72-73): only its prototype is declared; its body and the heap allocation it implies are not part of this model.
- Freeing the buffer, and the lifetime of the referenced values: the header defines no destroy operation, and the array never frees the values it refers to.
- The value representation (`object.h`): handles are an opaque type parameter `T`. The model does not represent a stored `NULL` handle. In C, `at` or `pop` returning a stored `NULL` cannot be told apart from absence. In the model, a present handle is always `Some`.
- `LunaArray.Array.Each`: the snapshot is an unbounded `nat`. The source stores it in a C `int`, which cannot hold a size beyond `INT_MAX`.
- `LunaArray.Array.Each`: the body is limited to pushes and pops on the array being iterated, chosen from the visited index and value. The model does not cover `break`, `continue` or `return` inside the body, assignments to `i` or `val`, or effects on other state.
- Macro mechanics: the helper macros evaluate `self` and `i` more than once, which matters only for arguments with side effects; the model takes them as values.
