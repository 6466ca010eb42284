# Callback registry of the Go NLopt bindings

The Go bindings hand the native NLopt engine small integer handles
instead of Go closures. The engine passes a handle back whenever it calls an
objective or constraint. The registry in `cfunc_reg.go` is process-wide
state: a counter `funcPtr` and a map `funcMap` from handle to closure. A
closure is either a scalar `Func` or a vector-valued `Mfunc`. Registering
pre-increments the counter and binds the closure under the new value.
Resolving reads the map and asserts the variant. Freeing deletes the key.

The project has two modules:

- `RegistryTable` (registry_table.dfy) gives the registry's state as a value,
  `Table(counter, entries)`. It defines register, free and lookup as
  functions, plus folds over sequences of operations: `RegisterMany` and
  `FreeMany` for registrations or evictions alone, and `Run` for any mix of
  the two. Over any mixed history, its lemmas prove that handles are fresh
  and never reused. They also prove that each handle resolves to what the
  last operation touching it left there. For runs of registrations alone,
  they prove the map grows by one entry per registration, and that freeing
  everything registered since a state restores that state's map.
- `CfuncReg` (cfunc_reg.dfy) has the class `Registry`, whose fields are
  `funcPtr: nat` and `funcMap: map<nat, Callback>`. Its methods update those
  fields in place. Each method is proved against the matching
  `RegistryTable` function, and each keeps the invariant that every live key
  lies in `1..funcPtr`. The client `ReplayHistory` drives a fresh registry
  through any history by calling these methods. It proves that the registry
  ends in the state `Run` computes, so the history lemmas hold of the
  methods too.

Closure payloads are the type parameters `F` and `M` and are compared only
for identity. `_getFuncMapEntry` on a missing key returns Go's nil
interface, modelled as `None`. `getFunc`/`getMfunc` type-assert the result,
which panics on nil or on the other variant. Their methods therefore require
that the key is present and holds the right variant.

## Model

| member | source | states |
|---|---|---|
| `RegistryTable.Register` | cfunc_reg.go:22-28 | the handle is the old counter plus one and becomes the new counter; it resolves to the registered closure and every other handle resolves as before; in a well-formed table the handle was free, well-formedness is kept and the map grows by one |
| `RegistryTable.Free` | cfunc_reg.go:44-49 | the counter is unchanged, the freed handle resolves to nothing, every other handle resolves as before, well-formedness is kept, freeing an absent handle changes nothing, freeing a present one shrinks the map by one |
| `RegistryTable.FreeIdempotent` | cfunc_reg.go:48 | freeing a handle twice equals freeing it once |
| `RegistryTable.ScalarAndVectorHandlesDiffer` | cfunc_reg.go:14-28 | a `Func` registered and then an `Mfunc` registered receive different handles, each resolving to its own variant |
| `RegistryTable.RegisterMany` | cfunc_reg.go:22-28 | N registrations issue N handles and advance the counter by N |
| `RegistryTable.RegisterManyHandles` | cfunc_reg.go:22-28 | the i-th of a run of registrations receives the starting counter plus 1 plus i |
| `RegistryTable.RegisteredHandlesDistinct` | cfunc_reg.go:22-28 | the handles of N sequential registrations are at least 1, strictly increasing and so pairwise distinct |
| `RegistryTable.RegisterManyEntries` | cfunc_reg.go:25-27 | after a run of registrations each handle resolves to its own closure, every handle up to the starting counter resolves as before, well-formedness is kept and the map grows by exactly N |
| `RegistryTable.RegisteredHandlesRange` | cfunc_reg.go:25-27 | a value was issued by a run of N registrations iff it lies strictly above the starting counter and at most N above it |
| `RegistryTable.FreeMany` | cfunc_reg.go:44-49 | after freeing a sequence of handles, each of them resolves to nothing, every other handle resolves as before, the counter is unchanged and well-formedness is kept |
| `RegistryTable.FreeRegisteredRestores` | cfunc_reg.go:44-49 | from a well-formed state, freeing every handle registered since then restores that state's map; only the counter has advanced |
| `RegistryTable.EmptyAfterFreeingAll` | nlopt_test.go:232-241 | from the initial registry, N registrations leave N live entries and freeing all of them leaves the map empty |
| `RegistryTable.Run` | cfunc_reg.go:22-49 | in any history of registrations and evictions the counter advances by exactly the number of handles issued |
| `RegistryTable.RunIssuesFresh` | cfunc_reg.go:22-49 | with evictions interleaved, the handles issued are still consecutive above the starting counter, so never reused, and well-formedness is kept throughout |
| `RegistryTable.RunSnoc` | cfunc_reg.go:22-49 | running a history one operation longer equals one more register or free step after it, and the issued handles grow by that step's handle |
| `RegistryTable.RunCounter` | cfunc_reg.go:25 | after any history the counter has advanced by exactly the number of registrations in it |
| `RegistryTable.RunLookup` | cfunc_reg.go:38-42 | after any mix of registrations and evictions, reading a handle gives what the last operation touching it left: the closure registered under it, nothing after it was freed, or the starting binding when no operation touched it |
| `RegistryTable.StaleStaysAbsent` | cfunc_reg.go:22-49 | a handle at or below the counter that holds no entry stays absent for the rest of any history, and no later registration issues it |
| `RegistryTable.FreedNeverReissued` | cfunc_reg.go:44-49 | after a live handle is freed, no later history resolves it again or issues it again |
| `CfuncReg.Registry.constructor` | cfunc_reg.go:10-11 | the registry starts with counter 0 and an empty map, and is valid |
| `CfuncReg.Registry.SetFuncMapEntry` | cfunc_reg.go:22-28 | the new state and handle are `Register` of the old state; the handle is the old counter plus one, was not a key before, and the map gains exactly that binding |
| `CfuncReg.Registry.MakeFuncPtr` | cfunc_reg.go:14-16 | registers the closure as a scalar entry under a fresh handle |
| `CfuncReg.Registry.MakeMfuncPtr` | cfunc_reg.go:18-20 | registers the closure as a vector entry under a fresh handle from the same counter |
| `CfuncReg.Registry.GetFuncMapEntry` | cfunc_reg.go:38-42 | changes nothing and returns the stored closure, or none exactly when the handle is not a key |
| `CfuncReg.Registry.GetFunc` | cfunc_reg.go:30-32 | for a handle that holds a scalar entry, returns the very `Func` stored there; nothing changes |
| `CfuncReg.Registry.GetMfunc` | cfunc_reg.go:34-36 | for a handle that holds a vector entry, returns the very `Mfunc` stored there; nothing changes |
| `CfuncReg.Registry.FreeFuncPtr` | cfunc_reg.go:44-49 | the new state is `Free` of the old: exactly key `h` is removed, the counter and all other bindings are unchanged, and validity is kept |
| `CfuncReg.ReplayHistory` | cfunc_reg.go:14-49 | driving a fresh registry through any history with `MakeFuncPtr`, `MakeMfuncPtr` and `FreeFuncPtr` ends in the state and issued handles that `Run` computes from the initial table, and keeps validity |
| `CfuncReg.ObjectiveLifecycle` | nlopt_test.go:228-241 | from a fresh registry, registering an objective gives handle 1 and one live entry that resolves to the objective; freeing it leaves no entry; the next registration receives a different handle |

## Left out

- The mutex `funcMutex` (cfunc_reg.go:8) only serialises concurrent callers. Each method is modelled as one atomic sequential step.
- `funcPtr` is a `uintptr` in Go and could in principle wrap around. It is modelled as an unbounded `nat`, so the model does not cover counter exhaustion.
- The closures' bodies and the float point, gradient and result buffers they fill are left out. Payloads are opaque values compared for identity.
- A Go panic on a nil or mismatched type assertion is modelled as a precondition of `GetFunc`/`GetMfunc`, not as a failure outcome.
- The optimizer handle (create, copy, destroy, constraint removal, local optimizer) and the C trampolines are not part of this model. The files that define them are not among the source files modelled here, and they call into the native NLopt library. The tests use the registry only from outside; `EmptyAfterFreeingAll` and `ObjectiveLifecycle` state its side of those tests.
