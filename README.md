# Scoped thread-local storage, modelled in Dafny

This project models `scoped-tls`, a library for *scoped* thread-local storage.
A declared key holds one cell per thread. The cell is empty at first. While
`set(&t, f)` runs its closure `f`, the cell holds `t`. When `f` returns or
unwinds, the cell gets back whatever it held before the call. `with(g)` passes
the bound value to `g` and panics if the key is unset. `is_set()` reports
whether the cell is occupied.

Files:

- `wrappers.dfy`: `Option`, which is what the cell holds.
- `scoped_key.dfy` (module `ScopedTls`): the key as seen by one thread. The
  class `ScopedKey` has a mutable field `cell`. `set` is split at its restore
  guard into two methods. `SetEnter` saves the prior state and installs the new
  binding. `SetExit` is the guard's drop: it writes the saved state back. `Set`
  runs a closure body between the two, and `RunBody` runs caller code against
  the key. `With`, `TryWith` and `IsSet` only read the cell, and they have no
  `modifies` clause.
- `semantics.dfy` (module `ScopeSemantics`): the closure passed to `set` is
  modelled as a sequence of statements:
  - `Read` is a `with`.
  - `Query` is an `is_set`.
  - `Panic(msg)`.
  - `Set(v, body)` is a nested `set`.
  - `Defer(cleanup)` is a local whose `Drop` runs more code when the enclosing
    body ends, whether it returned or unwound.

  `Exec` and `ExecSet` are the pure meaning of such code. Each returns the
  outcome (returned, panicked with a message, or aborted), the final cell, and
  a log of what the key saw: `Enter(v)`, `Exit`, `Saw(v)`, `Asked(b)`.
- `traces.dfy` (module `ScopeTraces`): the scoping discipline, stated over the
  log alone.
  - Reads see the innermost open `set`.
  - Scopes are well bracketed.
  - The cell is the innermost open binding.
  - A run that returns or unwinds restores the prior cell.
- `scenarios.dfy` (module `ScopeScenarios`): concrete runs, taken from the
  documentation example and the unit tests.

## Model

| member | source | states |
|---|---|---|
| `ScopedTls.ScopedKey.constructor` | src/lib.rs:52-61 | a newly declared key's cell is empty (`Cell::new(None)` behind `ScopedKey::new`) |
| `ScopedTls.FreshKeyIsUnset` | src/lib.rs:201-203 | `is_set()` on a key nobody has set returns false |
| `ScopedTls.ScopedKey.IsSet` | src/lib.rs:183-186 | returns true exactly when the cell is occupied, and leaves the cell unchanged (no `modifies`) |
| `ScopedTls.ScopedKey.TryWith` | src/lib.rs:172-181 | fails exactly when the cell is empty, and then with the fixed "cannot access a scoped thread local variable without calling `set` first" message; otherwise returns the reader applied to the bound value; leaves the cell unchanged |
| `ScopedTls.ScopedKey.With` | src/lib.rs:172-181 | with the key set, returns the reader applied to the bound value, without changing the cell |
| `ScopedTls.ScopedKey.SetEnter` | src/lib.rs:136-140 | returns the prior cell state and leaves `Some(t)` in the cell |
| `ScopedTls.ScopedKey.SetExit` | src/lib.rs:127-135 | the `Reset` guard's drop: the cell becomes exactly the saved prior state |
| `ScopedTls.ScopedKey.Set` | src/lib.rs:123-146 | the run equals `ExecSet` of the prior cell; the outcome is the body's outcome (a panic propagates, a return is passed through); after a return or an unwind the cell equals its value before the call |
| `ScopedTls.ScopedKey.RunBody` | src/lib.rs:145 | running the closure's code against the mutable cell, through `TryWith`, `IsSet` and `Set`, gives exactly the outcome, final cell and log that `Exec` specifies |
| `ScopeSemantics.AfterDrop` | src/lib.rs:237-253 | a body that unwinds stays unwinding after a local's drop returns; a drop that panics during a normal return starts an unwind; a drop that panics during an unwind aborts |
| `ScopeSemantics.Exec` | src/lib.rs:123-146 | caller code that returns or unwinds leaves the key's cell exactly as it found it, however many nested `set` calls it made |
| `ScopeSemantics.ExecSet` | src/lib.rs:123-146 | `set` has the outcome of its body; unless the process aborted it writes back the prior state; its log opens with `Enter(v)` and, on return or unwind, closes with `Exit` |
| `ScopeTraces.ExecCoherent` | src/lib.rs:90-97 | with any stack of enclosing `set` calls active, a body's log is coherent: reads see the innermost binding, queries report whether one exists, and every exit closes an open scope. Its final cell is the innermost binding still open, and a run that returns or unwinds closes exactly the scopes it opened |
| `ScopeTraces.ExecSetCoherent` | src/lib.rs:123-146 | the same for one `set` call: its own binding is the innermost one while its body runs, and its guard closes it again on return and on unwind |
| `ScopeTraces.ScopedKeyInvariant` | src/lib.rs:90-97 | from any prior cell state the cell always holds the binding of the innermost `set` still open, or the prior state if none is; scopes close last-in, first-out; after a return or an unwind the cell is the prior state again |
| `ScopeTraces.ReadsSeeInnermost` | src/lib.rs:93-94 | the read at any position of the log sees the value of the innermost `set` open just before it, or the prior value if none is open; a query there answers whether such a value exists; an exit there has a scope to close |
| `ScopeTraces.RepeatedReadsAgree` | src/lib.rs:176-180 | two reads with no `set` entered or left between them observe the same value |
| `ScopeScenarios.SetThenUnset` | src/lib.rs:200-211 | unset before; inside `set(&v, ..)`, set and reading `v`; unset again afterwards |
| `ScopeScenarios.NestedSetRestoresOuter` | src/lib.rs:108-120 | within `set(&a, ..)`, reads before and after a nested `set(&b, ..)` both give `a`, and the cell ends as it was before |
| `ScopeScenarios.PanicRestoresBeforeDrop` | src/lib.rs:237-257 | when `set(&b, || panic!())` unwinds inside `set(&a, ..)`, a drop declared in the outer body reads `a`; the panic propagates and the key ends unset |
| `ScopeScenarios.UnsetReadPanics` | src/lib.rs:176-179 | `with` on an unset key panics with the fixed message before the reader runs |

## Left out

- Thread-local storage itself (`thread_local!`, `LocalKey`, `unsafe impl Sync`). The host runtime keeps each thread's cell separate. The model is one thread's cell: one `ScopedKey` object.
- `NonNull` pointers, the `unsafe` dereference and Rust lifetimes. The cell stores the bound value itself. Borrow validity is enforced by the type system, not by this code.
- Unwinding is not modelled as control flow. A panic is an outcome value, and the guard's restore runs on it as it does on a normal return.
- `Aborted` is the Rust runtime's abort when a drop panics during an unwind. The library itself never causes one. After an abort nothing runs, so the restore guarantees are stated only for returns and unwinds.
- The reader closure of `with` and the result value of `set`'s closure are not modelled as arbitrary code. `With` and `TryWith` take a pure function. In the statement language, a read records the value it saw, and the log stands for the closure's result.
- With: requires the key to be set. The unset case, a panic with the fixed message, is modelled by `TryWith` and by `Read` in `Exec`.
- The macro syntax, attribute and visibility pass-through, and the `attrs_allowed` test have no semantic content.
- Unsized payloads and `Cell<u32>` payloads (the `cell_allowed` and `unsized_tls` tests): these are covered by the generic `T`.
- The channel and `thread::spawn` scaffolding of `panic_resets`. The value sent over the channel is the `Saw` event in the log, and the failed `join` is the `Panicked` outcome.
