/**
 * The ghost cell as an object: a read-only original and a mutable overlay
 * slot. Every method is proved against the state machine in CellState: its
 * postcondition gives the new fields as the matching function of the old
 * ones, so the properties proved there carry over to every use of a cell.
 */
module GhostCells {
  import CellState

  class GhostCell<T> {
    /** The borrowed value; no member of the class can assign it. */
    const original: T
    /** The private copy that absorbs writes, once one has been made. */
    var overlay: CellState.Option<T>
    /** Set when the cell's life ends, by IntoInner or Release; nothing may use it afterwards. */
    ghost var consumed: bool

    /** The cell's fields as a value of the state machine. */
    function Snapshot(): CellState.State<T>
      reads this
    {
      CellState.State(original, overlay)
    }

    /** `new`: bind to `data`, with no overlay. */
    constructor (data: T)
      ensures original == data
      ensures Snapshot() == CellState.New(data)
      ensures !consumed
    {
      original := data;
      overlay := CellState.None;
      consumed := false;
    }

    /** `get`: the overlay if there is one, else the original. Changes nothing. */
    function Get(): (r: T)
      reads this
      requires !consumed
      ensures r == CellState.View(Snapshot())
      ensures overlay.None? ==> r == original
    {
      match overlay
      case Some(v) => v
      case None => original
    }

    /**
     * `get_mut`: copy the original into the overlay if there is none yet,
     * then hand out the overlay's value.
     */
    method GetMut() returns (v: T)
      requires !consumed
      modifies this
      ensures !consumed
      ensures Snapshot() == CellState.GetMut(old(Snapshot()))
      ensures overlay == CellState.Some(v)
      ensures v == old(Get())
    {
      if overlay.None? {
        overlay := CellState.Some(original);
      }
      v := overlay.value;
    }

    /** `get_mut` and then an in-place edit through the handle it returned. */
    method Mutate(edit: T -> T)
      requires !consumed
      modifies this
      ensures !consumed
      ensures Snapshot() == CellState.Write(old(Snapshot()), edit)
      ensures Get() == edit(old(Get()))
    {
      var v := GetMut();
      overlay := CellState.Some(edit(v));
    }

    /** `revert`: empty the overlay slot. */
    method Revert()
      requires !consumed
      modifies this
      ensures !consumed
      ensures Snapshot() == CellState.Revert(old(Snapshot()))
      ensures Get() == original
    {
      overlay := CellState.None;
    }

    /** Drop: the end of the cell's scope reverts it. */
    method Release()
      requires !consumed
      modifies this
      ensures Snapshot() == CellState.Revert(old(Snapshot()))
      ensures consumed
    {
      Revert();
      consumed := true;
    }

    /**
     * `into_inner`: take the overlay out of its slot, or duplicate the
     * original when there is none; the consumed cell is then dropped.
     */
    method IntoInner() returns (r: T)
      requires !consumed
      modifies this
      ensures r == CellState.IntoInner(old(Snapshot())).0
      ensures r == old(Get())
      ensures Snapshot() == CellState.IntoInner(old(Snapshot())).1
      ensures consumed
    {
      if overlay.Some? {
        r := overlay.value;
        overlay := CellState.None;
      } else {
        r := original;
      }
      Release();
    }
  }
}
