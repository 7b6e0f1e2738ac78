# sync-cell, modelled in Dafny

The `sync-cell` crate (`src/lib.rs`) offers two thread-safe value holders built on a
reader-writer lock:

- `SyncCell<T>`, one mutable slot with `new`, `set`, `replace`, `get`, `borrow`,
  `borrow_mut`, `into_inner` and `clone`;
- `HeldSyncCell<T>`, a staged-commit cell made of two `SyncCell`s, one holding the
  committed value that readers see and one holding an optional pending value. `set`
  stages a value, `update` commits it, `has_update` tells whether something is staged,
  `get`/`borrow`/`borrow_mut` work on the committed value only, and `into_inner`
  prefers the staged value.

Once the locks are taken away, each type is a small sequential state machine. This
project models it as follows:

- `wrappers.dfy` (module `Wrappers`): the `Option` type with `UnwrapOr`, Rust's
  `unwrap_or`.
- `sync_cell.dfy` (module `Cell`): class `SyncCell` with one field `value`. Each
  operation reads or writes that field. Client methods replay the crate's unit tests
  for all values instead of fixed numbers.
- `staging.dfy` (module `Staging`): the abstract state of a held cell,
  `Held(current, pending)`, and one function per operation. Lemmas cover idempotence,
  last-writer-wins and the commit point. Using a sequence of calls (`Op`, `Run`), they
  also say what the staging slot holds after any sequence of calls. They show that
  `get` sees only `borrow_mut` edits until the next `update`.
- `held_sync_cell.dfy` (module `HeldCell`): class `HeldSyncCell`, built from two
  `SyncCell` objects as in the source (`current_value: SyncCell<T>`,
  `next_value: SyncCell<Option<T>>`). Each method is proved to move the two slots as
  the matching `Staging` function says, and its `modifies` clause names the only slot
  it may write. Client methods replay the crate's unit tests.

`borrow_mut` returns a write guard in the source. Here it takes the caller's edit as a
function `edit: T -> T` and stores `edit(old value)`. That covers both overwriting the
slot (`*guard = v`) and changing part of it (`guard.1 = 2`).

## Model

| member | source | states |
|---|---|---|
| Wrappers.Option.UnwrapOr | src/lib.rs:284-285 | the held value when there is one, else the given default |
| Cell.SyncCell.constructor | src/lib.rs:93-97 | a new cell holds exactly its initial value |
| Cell.SyncCell.Set | src/lib.rs:105-110 | after `set(v)` the slot holds `v`, whatever it held; nothing but this cell is written |
| Cell.SyncCell.Replace | src/lib.rs:130-138 | `replace(v)` returns the value held before the call and leaves `v` in the slot |
| Cell.SyncCell.Get | src/lib.rs:170-175 | `get` returns the slot's value and changes nothing |
| Cell.SyncCell.Borrow | src/lib.rs:146-151 | `borrow` gives read access to the slot's current contents |
| Cell.SyncCell.BorrowMut | src/lib.rs:157-162 | a write through `borrow_mut` replaces the slot by the edited old value, and nothing else changes |
| Cell.SyncCell.IntoInner | src/lib.rs:116-121 | `into_inner` returns the value the cell holds |
| Cell.SyncCell.Clone | src/lib.rs:178-182 | a clone is a fresh cell holding a copy of the value |
| Cell.NewThenRead | src/lib.rs:403-408 | for every `v`, `new(v)` then `get` returns `v`, and `into_inner` returns `v` too (test at 439-444) |
| Cell.SetThenGet | src/lib.rs:394-401 | for every `v`, `w`, `new(v)`, `set(w)` then `get` returns `w` |
| Cell.ReplaceThenGet | src/lib.rs:410-418 | `replace(w)` on `new(v)` returns `v`, and `get` then returns `w` |
| Cell.BorrowMutThenGet | src/lib.rs:446-457 | an edit through `borrow_mut` is what the next `get` returns |
| Cell.CloneIsIndependent | src/lib.rs:178-182 | a clone starts equal to its original and does not see later writes to it |
| Staging.IntoInner | src/lib.rs:278-286 | `into_inner` is the staged value when one is present and the committed value otherwise |
| Staging.New | src/lib.rs:256-261 | a new held cell shows `data`, has nothing staged, and `into_inner` gives `data` |
| Staging.Set | src/lib.rs:263-276 | `set(v)` makes `has_update` true and `into_inner` return `v`, while `get` is unchanged |
| Staging.Update | src/lib.rs:315-324 | after `update` nothing is staged and `get` shows what `into_inner` showed before; with nothing staged the state is unchanged |
| Staging.BorrowMut | src/lib.rs:297-305 | `borrow_mut` edits the committed value at once and leaves the staging slot as it was |
| Staging.Clone | src/lib.rs:337-341 | a clone shows the same committed value, has nothing staged, and its `into_inner` is that committed value |
| Staging.UpdateIdempotent | src/lib.rs:548-558 | a second `update` right after a first is a no-op |
| Staging.LastSetWins | src/lib.rs:263-276 | of two `set` calls before a commit only the later value stays staged |
| Staging.UpdateKeepsIntoInner | src/lib.rs:594-602 | `update` does not change what `into_inner` returns |
| Staging.CloneIntoInner | src/lib.rs:337-341 | a clone's `into_inner` matches the original's exactly when nothing is staged or the staged value equals the committed one |
| Staging.PendingIsLastStage | src/lib.rs:263-324 | after any sequence of calls the staging slot holds the value of the latest `set` unless an `update` came after it (then empty); with neither, it is as before; `has_update` follows |
| Staging.NoCommitShowsOnlyEdits | src/lib.rs:223-228 | with no `update` in a sequence of calls, `get` returns the initial value with just the `borrow_mut` edits applied, whatever was staged |
| Staging.CommitPublishesIntoInner | src/lib.rs:278-324 | after any calls followed by `update`, `get` returns what `into_inner` would have returned before it, and nothing is staged |
| Staging.EditThenStageThenCommit | src/lib.rs:617-632 | after `borrow_mut` and `set(x)`, `get` shows the edit; after `update` it shows `x` |
| HeldCell.HeldSyncCell.constructor | src/lib.rs:256-261 | two fresh slots holding the state `Staging.New(data)` |
| HeldCell.HeldSyncCell.Set | src/lib.rs:274-276 | only the staging slot is written, to the state `Staging.Set` gives |
| HeldCell.HeldSyncCell.HasUpdate | src/lib.rs:311-313 | true exactly when a value is staged |
| HeldCell.HeldSyncCell.Update | src/lib.rs:320-324 | emptying the staging slot with `replace(None)` and then `set` on the committed slot gives the state `Staging.Update` gives |
| HeldCell.HeldSyncCell.Get | src/lib.rs:332-334 | returns the committed value, never the staged one |
| HeldCell.HeldSyncCell.Borrow | src/lib.rs:293-295 | reads the committed value |
| HeldCell.HeldSyncCell.BorrowMut | src/lib.rs:303-305 | only the committed slot is written, to the state `Staging.BorrowMut` gives |
| HeldCell.HeldSyncCell.IntoInner | src/lib.rs:283-286 | returns the staged value if present, else the committed one |
| HeldCell.HeldSyncCell.Clone | src/lib.rs:337-341 | a fresh cell in the state `Staging.Clone` gives |
| HeldCell.NewThenRead | src/lib.rs:570-583 | a new cell has no update, `get` returns the initial value, and so does `into_inner` |
| HeldCell.SetWithoutUpdate | src/lib.rs:527-535 | after `set(w)`, `has_update` is true and `get` still returns the initial value |
| HeldCell.SetThenUpdateTwice | src/lib.rs:537-558 | after `set(w)` and `update`, nothing is staged and `get` returns `w`, and the same holds after a second `update` |
| HeldCell.UpdateWithoutSet | src/lib.rs:560-568 | `update` with nothing staged leaves the initial value and no update |
| HeldCell.SetThenIntoInner | src/lib.rs:585-592 | after `set(w)`, `into_inner` returns `w` while `get` returns the initial value |
| HeldCell.SetUpdateThenIntoInner | src/lib.rs:594-602 | after `set(w)` and `update`, `into_inner` returns `w` |
| HeldCell.BorrowMutSetUpdate | src/lib.rs:604-632 | an edit through `borrow_mut` shows at once, a later `set(x)` stays hidden, and `update` then commits `x` |
| HeldCell.CloneDropsStaged | src/lib.rs:337-341 | a clone taken while a value is staged has no update and its `into_inner` is the committed value |

## Left out

- The reader-writer lock itself: blocking, concurrent readers, mutual exclusion of
  writers, and the read/write guards with their lifetimes (src/lib.rs:141-162). Every
  operation is modelled as one atomic step on the fields, and the calls are sequential.
  `borrow` is a read of the field. `borrow_mut` is one edit applied when the guard is
  dropped.
- Lock poisoning and the `panic!` branches (src/lib.rs:108, 119, 136, 149, 160, 173).
  Poisoning can only come from another thread panicking while it holds a guard, and no
  thread is modelled. One consequence is not shown: `into_inner` of `HeldSyncCell`
  evaluates the committed cell's `into_inner` eagerly, as the argument of `unwrap_or`.
  It would therefore panic on a poisoned committed slot even when a value is staged.
- Races between concurrent `set` calls, or between `set` and `update`
  (src/lib.rs:266-268). These need thread interleaving. The model gives
  last-writer-wins for calls made in sequence (`Staging.LastSetWins`).
- Consumption by `into_inner`. Rust moves the cell away, but the Dafny object stays
  usable after `IntoInner`, which only reads it.
- The forwarding trait impls `PartialEq`, `Eq`, `PartialOrd`, `Ord`, `Hash`,
  `Default`, `From` (src/lib.rs:184-221, 343-380). They call `T`'s own trait methods,
  which are not visible here. `Hash` also depends on an outside `Hasher`.
- Unsized contents (`T: ?Sized`). Values are moved or copied as whole Dafny values.
