# Ghost cell, modelled in Dafny

A ghost cell wraps a read-only reference to an original value. Callers can
make scoped changes that look like in-place edits. The first write access
(`get_mut`) copies the original into a private overlay. Every later write
goes to that overlay. `get` shows the overlay if there is one and the
original otherwise. `revert` throws the overlay away. `into_inner` hands
the overlay out, or a copy of the original when there is none. Dropping
the cell reverts it. No operation changes the original.

The project has three modules:

- `CellState` (`cell_state.dfy`) gives each operation as a function on the
  cell's two fields, `State(original, overlay)`. It also runs sequences of
  operations (`Run`) and compares them with two independent reference
  machines. `Observed` predicts the value a caller sees without any overlay.
  `PhaseAfter` is the CLEAN/DIRTY life-cycle diagram. `Copies` counts how
  often the original is duplicated.
- `GhostCells` (`ghost_cell.dfy`) is the cell as a class, `GhostCell<T>`. It
  has a `const original`, a mutable `overlay` field and a ghost `consumed`
  flag that marks the end of the cell's life. Each method's postcondition
  gives the new fields as the matching `CellState` function of the old ones.
- `Scenarios` (`scenarios.dfy`) is client code that follows the library's
  tests, over arbitrary data instead of fixed literals. Each result is proved
  from the class contracts alone.

A value is duplicated by plain value copy. The doc comment on the type says
the value must be `Copy`, but the bound the code uses is `Clone`, and the
tests use vectors and strings. The model follows the code: any type `T`
works, and duplication is exact.

## Model

| member | source | states |
|---|---|---|
| CellState.New | src/lib.rs:16-21 | a new cell holds the given original, has no overlay, and reads as the original |
| CellState.GetMut | src/lib.rs:49-58 | afterwards an overlay always exists; on a clean cell it is a copy of the original; on a dirty cell the state is unchanged (no re-copy); the value read and the original are unchanged |
| CellState.Write | src/lib.rs:49-58 | a write access followed by an edit leaves the cell dirty, the original unchanged, and the value read equal to the edit applied to the previous value read |
| CellState.Revert | src/lib.rs:33-37 | afterwards there is no overlay, the original is unchanged, and the value read is the original |
| CellState.IntoInner | src/lib.rs:24-30 | yields the value read (the overlay if present, else the original) and leaves an empty overlay slot over the unchanged original |
| CellState.RunKeepsOriginal | src/lib.rs:9-12 | no sequence of get_mut, edits and reverts changes the original |
| CellState.RunMatchesObserved | src/lib.rs:40-46 | after any sequence of operations, `get` returns what an overlay-free machine predicts: edits apply to the current value and a revert restores the original |
| CellState.RunFollowsPhases | src/lib.rs:33-58 | an overlay exists after a run exactly when the CLEAN/DIRTY diagram ends in DIRTY (a write access dirties, a revert cleans) |
| CellState.CopiesBoundedByReverts | src/lib.rs:49-58 | the original is copied at most once per dirty period: copies are at most the number of reverts, plus one if the cell started clean |
| CellState.NoCopyWithoutWriteAccess | src/lib.rs:49-58 | from a clean cell, a run makes no copy if and only if it contains no write access |
| CellState.ConsumeAfterRun | src/lib.rs:24-30 | consuming a new cell after any run yields the value the caller observed, over the original it was created with |
| CellState.RevertIdempotent | src/lib.rs:33-37 | reverting twice is the same as reverting once |
| CellState.RecopyAfterRevert | src/lib.rs:249-257 | a write access after a revert copies the original, not the discarded overlay |
| GhostCells.GhostCell.constructor | src/lib.rs:16-21 | the cell is bound to the given original with no overlay |
| GhostCells.GhostCell.Get | src/lib.rs:40-46 | returns the overlay if present, else the original; it changes nothing |
| GhostCells.GhostCell.GetMut | src/lib.rs:49-58 | the new fields are `CellState.GetMut` of the old ones; the handed-out value is the overlay and equals the value read before |
| GhostCells.GhostCell.Mutate | src/lib.rs:49-58 | the new fields are `CellState.Write` of the old ones; `Get` then returns the edit applied to the previous value read |
| GhostCells.GhostCell.Revert | src/lib.rs:33-37 | the new fields are `CellState.Revert` of the old ones; `Get` then returns the original |
| GhostCells.GhostCell.Release | src/lib.rs:92-95 | dropping the cell reverts it and ends its life |
| GhostCells.GhostCell.IntoInner | src/lib.rs:24-30 | returns the value read before the call; the overlay slot is emptied and the cell is dropped |
| Scenarios.OverwriteThenDrop | src/lib.rs:103-111 | a value written through get_mut is read back; after the scope the cell is as it was created |
| Scenarios.RevertMidScope | src/lib.rs:249-260 | push, revert: the length is the original length; push again: the length is one more |
| Scenarios.ConsumeKeepsEdit | src/lib.rs:127-137 | push then into_inner yields the original plus the pushed element; the original is unchanged |
| Scenarios.ConsumeUnwritten | src/lib.rs:215-223 | into_inner on an unwritten cell yields the original |
| Scenarios.RepeatedReverts | src/lib.rs:140-150 | two rounds of push and revert leave the value read equal to the original |
| Scenarios.AppendText | src/lib.rs:153-161 | appending to a string is visible through get; the original string is unchanged |
| Scenarios.PushThenPop | src/lib.rs:186-196 | push then pop through the handle gives back the original contents |
| Scenarios.IndependentCells | src/lib.rs:199-212 | two cells see their own writes; a write to one does not change what the other shows; both originals are unchanged |
| Scenarios.SharedOriginal | src/lib.rs:278-292 | two cells over the same original keep private overlays |
| Scenarios.ReadsThenWrite | src/lib.rs:263-275 | repeated reads agree with the original; a later push adds one to the length |
| Scenarios.NeverWritten | src/lib.rs:226-233 | a cell that is never written leaves nothing behind when dropped |

## Left out

- `UnsafeCell` and the raw-pointer aliasing in `get` and `get_mut` (src/lib.rs:11, 41, 50-57). The overlay is an ordinary field. The model does not capture that the Rust code lets a shared and a mutable reference to the overlay be alive at once.
- Handing out `&mut T`: a write through the handle `get_mut` returns is modelled as `GhostCell.Mutate(edit)`, a total function applied to the overlay. `GhostCell.GetMut` returns the overlay's value, not a reference into it.
- Lifetimes and the borrow checker. "The cell is not used after `into_inner` or drop" is a ghost `consumed` flag that every operation requires to be false.
- `GhostBorrow` and `GhostBorrowMut` (src/lib.rs:61-89): they have no constructor and only forward to `get` and `get_mut`.
- Heap allocation and freeing of the overlay, and exactly when `Drop` runs: drop is modelled only as `Release`, which behaves like `revert`.
- The `Clone` trait: duplication is an exact value copy that cannot fail.
