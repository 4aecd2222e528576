/**
 * Client code that uses ghost cells the way the library's own tests do,
 * over arbitrary data rather than fixed literals. Each method reports what
 * the client observes; its postcondition is what the test asserts, proved
 * from the contracts of GhostCell alone.
 */
module Scenarios {
  import CellState
  import opened GhostCells

  /** Appends one element, as `Vec::push` does. */
  function Push(x: int): seq<int> -> seq<int>
  {
    s => s + [x]
  }

  /** Removes the last element if there is one, as `Vec::pop` does. */
  function Pop(s: seq<int>): (r: seq<int>)
    ensures |s| > 0 ==> r + [s[|s| - 1]] == s
    ensures |s| == 0 ==> r == s
  {
    if |s| > 0 then s[..|s| - 1] else s
  }

  /** Overwrite through `get_mut`, read it back, leave the scope. */
  method OverwriteThenDrop<T>(data: T, written: T) returns (seen: T, left: CellState.State<T>)
    ensures seen == written
    ensures left == CellState.New(data)
  {
    var cell := new GhostCell(data);
    cell.Mutate(_ => written);
    seen := cell.Get();
    cell.Release();
    left := cell.Snapshot();
  }

  /** Push, revert, read the length, push again, leave the scope. */
  method RevertMidScope(data: seq<int>) returns (lenAfterRevert: nat, lenAfterRepush: nat, left: CellState.State<seq<int>>)
    ensures lenAfterRevert == |data|
    ensures lenAfterRepush == |data| + 1
    ensures left == CellState.New(data)
  {
    var cell := new GhostCell(data);
    cell.Mutate(Push(4));
    cell.Revert();
    lenAfterRevert := |cell.Get()|;
    cell.Mutate(Push(5));
    assert cell.Get() == data + [5];
    lenAfterRepush := |cell.Get()|;
    cell.Release();
    left := cell.Snapshot();
  }

  /** Push and consume: the edit survives in the result, not in the original. */
  method ConsumeKeepsEdit(data: seq<int>) returns (inner: seq<int>, left: CellState.State<seq<int>>)
    ensures inner == data + [4]
    ensures left.original == data && left.overlay.None?
  {
    var cell := new GhostCell(data);
    cell.Mutate(Push(4));
    inner := cell.IntoInner();
    left := cell.Snapshot();
  }

  /** Consume a cell that was never written: the result is a copy of the original. */
  method ConsumeUnwritten<T>(data: T) returns (inner: T, left: CellState.State<T>)
    ensures inner == data
    ensures left == CellState.New(data)
  {
    var cell := new GhostCell(data);
    inner := cell.IntoInner();
    left := cell.Snapshot();
  }

  /** Two rounds of push and revert. */
  method RepeatedReverts(data: seq<int>) returns (seen: seq<int>, left: CellState.State<seq<int>>)
    ensures seen == data
    ensures left == CellState.New(data)
  {
    var cell := new GhostCell(data);
    cell.Mutate(Push(4));
    cell.Revert();
    cell.Mutate(Push(5));
    cell.Revert();
    seen := cell.Get();
    cell.Release();
    left := cell.Snapshot();
  }

  /** Append to a string through `get_mut`. */
  method AppendText(data: string, suffix: string) returns (seen: string, left: CellState.State<string>)
    ensures seen == data + suffix
    ensures left == CellState.New(data)
  {
    var cell := new GhostCell(data);
    cell.Mutate(s => s + suffix);
    seen := cell.Get();
    cell.Release();
    left := cell.Snapshot();
  }

  /** Push then pop through the same handle gives back the original contents. */
  method PushThenPop(data: seq<int>) returns (lenAfterPush: nat, seen: seq<int>)
    ensures lenAfterPush == |data| + 1
    ensures seen == data
  {
    var cell := new GhostCell(data);
    cell.Mutate(Push(4));
    lenAfterPush := |cell.Get()|;
    cell.Mutate(Pop);
    assert (data + [4])[..|data|] == data;
    seen := cell.Get();
    cell.Release();
  }

  /**
   * Two cells, each written: each sees its own write, writing one never
   * changes what the other shows, and both originals stay as they were.
   */
  method IndependentCells(data1: seq<int>, data2: seq<int>)
    returns (before: seq<int>, after: seq<int>, seen2: seq<int>, left1: CellState.State<seq<int>>, left2: CellState.State<seq<int>>)
    ensures before == after == data1 + [4]
    ensures seen2 == data2 + [7]
    ensures left1 == CellState.New(data1) && left2 == CellState.New(data2)
  {
    var cell1 := new GhostCell(data1);
    var cell2 := new GhostCell(data2);
    cell1.Mutate(Push(4));
    before := cell1.Get();
    cell2.Mutate(Push(7));
    after := cell1.Get();
    seen2 := cell2.Get();
    cell2.Release();
    cell1.Release();
    left1 := cell1.Snapshot();
    left2 := cell2.Snapshot();
  }

  /** Two cells over the same original keep private overlays. */
  method SharedOriginal<T>(data: T, edit: T -> T) returns (edited: T, other: T)
    ensures edited == edit(data)
    ensures other == data
  {
    var cell1 := new GhostCell(data);
    var cell2 := new GhostCell(data);
    cell1.Mutate(edit);
    edited := cell1.Get();
    other := cell2.Get();
    cell1.Release();
    cell2.Release();
  }

  /** A cell that is only read: reads agree, then a write access changes what is read. */
  method ReadsThenWrite(data: seq<int>) returns (first: seq<int>, second: seq<int>, lenAfterPush: nat, left: CellState.State<seq<int>>)
    ensures first == second == data
    ensures lenAfterPush == |data| + 1
    ensures left == CellState.New(data)
  {
    var cell := new GhostCell(data);
    first := cell.Get();
    second := cell.Get();
    cell.Mutate(Push(4));
    lenAfterPush := |cell.Get()|;
    cell.Release();
    left := cell.Snapshot();
  }

  /** A cell that is never written: no copy is made and nothing is left behind. */
  method NeverWritten<T>(data: T) returns (left: CellState.State<T>)
    ensures left == CellState.New(data)
  {
    var cell := new GhostCell(data);
    cell.Release();
    left := cell.Snapshot();
  }
}
