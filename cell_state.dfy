/**
 * The state machine behind a ghost cell, on values.
 *
 * A cell holds a borrowed original value and, after the first write access,
 * a private copy (the overlay) that absorbs every write. Readers see the
 * overlay when there is one and the original otherwise. This module gives
 * each operation as a function on the cell's two fields, runs sequences of
 * operations, and proves what a caller can rely on: the original never
 * changes, the value a reader sees is what a simple "current value" machine
 * predicts, and at most one copy is made between two reverts.
 */
module CellState {

  datatype Option<T> = None | Some(value: T)

  /** The two fields of a cell: the borrowed original and the private copy, if any. */
  datatype State<T> = State(original: T, overlay: Option<T>)

  /** The life-cycle phase of a live cell: Clean has no overlay, Dirty has one. */
  datatype Phase = Clean | Dirty

  function PhaseOf<T>(s: State<T>): Phase
  {
    if s.overlay.Some? then Dirty else Clean
  }

  /** The effective value: what `get` hands out. */
  function View<T>(s: State<T>): T
  {
    match s.overlay
    case Some(v) => v
    case None => s.original
  }

  /** `new`: bind to the original, with an empty overlay slot. */
  function New<T>(original: T): (s: State<T>)
    ensures s.original == original
    ensures PhaseOf(s) == Clean
    ensures View(s) == original
  {
    State(original, None)
  }

  /**
   * `get_mut`: make sure an overlay exists. A clean cell copies the original;
   * a dirty cell keeps its overlay as it is (no second copy).
   */
  function GetMut<T>(s: State<T>): (r: State<T>)
    ensures r.original == s.original
    ensures PhaseOf(r) == Dirty
    ensures View(r) == View(s)
    ensures PhaseOf(s) == Dirty ==> r == s
    ensures PhaseOf(s) == Clean ==> r.overlay == Some(s.original)
  {
    if s.overlay.None? then State(s.original, Some(s.original)) else s
  }

  /**
   * `get_mut` followed by an in-place edit through the handle it returns:
   * the edit lands on the overlay, never on the original.
   */
  function Write<T>(s: State<T>, edit: T -> T): (r: State<T>)
    ensures r.original == s.original
    ensures PhaseOf(r) == Dirty
    ensures View(r) == edit(View(s))
  {
    var d := GetMut(s);
    State(d.original, Some(edit(d.overlay.value)))
  }

  /** `revert`: drop the overlay, so readers see the original again. */
  function Revert<T>(s: State<T>): (r: State<T>)
    ensures r.original == s.original
    ensures PhaseOf(r) == Clean
    ensures View(r) == s.original
  {
    State(s.original, None)
  }

  /**
   * `into_inner`: take the overlay out of its slot if there is one, otherwise
   * duplicate the original. Yields the value and the state left behind.
   */
  function IntoInner<T>(s: State<T>): (r: (T, State<T>))
    ensures r.0 == View(s)
    ensures r.1.original == s.original
    ensures PhaseOf(r.1) == Clean
  {
    match s.overlay
    case Some(v) => (v, State(s.original, None))
    case None => (s.original, s)
  }

  /** The operations that change a live cell. */
  datatype Op<!T> =
    | MutBorrow              // `get_mut` with no edit through the handle
    | Modify(edit: T -> T)   // `get_mut` and an edit through the handle
    | Discard                // `revert`

  function Step<T>(s: State<T>, op: Op<T>): State<T>
  {
    match op
    case MutBorrow => GetMut(s)
    case Modify(edit) => Write(s, edit)
    case Discard => Revert(s)
  }

  /** The state after running `ops` from `s`, in order. */
  function Run<T>(s: State<T>, ops: seq<Op<T>>): State<T>
    decreases |ops|
  {
    if ops == [] then s else Run(Step(s, ops[0]), ops[1..])
  }

  /**
   * What a caller expects to observe, stated without any overlay: a write
   * access leaves the current value, an edit applies to it, and a revert
   * brings back the original.
   */
  function Observed<T>(original: T, current: T, ops: seq<Op<T>>): T
    decreases |ops|
  {
    if ops == [] then current
    else
      var next := match ops[0]
        case MutBorrow => current
        case Modify(edit) => edit(current)
        case Discard => original;
      Observed(original, next, ops[1..])
  }

  /** The CLEAN/DIRTY life-cycle diagram of a live cell. */
  function NextPhase<T>(p: Phase, op: Op<T>): Phase
  {
    if op.Discard? then Clean else Dirty
  }

  function PhaseAfter<T>(p: Phase, ops: seq<Op<T>>): Phase
    decreases |ops|
  {
    if ops == [] then p else PhaseAfter(NextPhase(p, ops[0]), ops[1..])
  }

  /** The number of times running `ops` from `s` duplicates the original. */
  function Copies<T>(s: State<T>, ops: seq<Op<T>>): nat
    decreases |ops|
  {
    if ops == [] then 0
    else
      (if PhaseOf(s) == Clean && !ops[0].Discard? then 1 else 0) + Copies(Step(s, ops[0]), ops[1..])
  }

  function Reverts<T>(ops: seq<Op<T>>): nat
    decreases |ops|
  {
    if ops == [] then 0 else (if ops[0].Discard? then 1 else 0) + Reverts(ops[1..])
  }

  /** No sequence of operations changes the original. */
  lemma {:induction false} RunKeepsOriginal<T>(s: State<T>, ops: seq<Op<T>>)
    ensures Run(s, ops).original == s.original
    decreases |ops|
  {
    if ops != [] {
      RunKeepsOriginal(Step(s, ops[0]), ops[1..]);
    }
  }

  /** The value a reader sees after any run is the one the overlay-free machine predicts. */
  lemma {:induction false} RunMatchesObserved<T>(s: State<T>, ops: seq<Op<T>>)
    ensures View(Run(s, ops)) == Observed(s.original, View(s), ops)
    decreases |ops|
  {
    if ops != [] {
      var t := Step(s, ops[0]);
      assert t.original == s.original;
      RunMatchesObserved(t, ops[1..]);
    }
  }

  /** The overlay is present after a run exactly when the life-cycle diagram says Dirty. */
  lemma {:induction false} RunFollowsPhases<T>(s: State<T>, ops: seq<Op<T>>)
    ensures PhaseOf(Run(s, ops)) == PhaseAfter(PhaseOf(s), ops)
    decreases |ops|
  {
    if ops != [] {
      RunFollowsPhases(Step(s, ops[0]), ops[1..]);
    }
  }

  /**
   * At most one copy per dirty period: every copy after the first needs a
   * revert before it, and a cell that starts dirty needs a revert before any.
   */
  lemma {:induction false} CopiesBoundedByReverts<T>(s: State<T>, ops: seq<Op<T>>)
    ensures Copies(s, ops) <= Reverts(ops) + (if PhaseOf(s) == Clean then 1 else 0)
    decreases |ops|
  {
    if ops != [] {
      CopiesBoundedByReverts(Step(s, ops[0]), ops[1..]);
    }
  }

  /** Starting clean, a run copies nothing exactly when it holds no write access. */
  lemma {:induction false} NoCopyWithoutWriteAccess<T>(s: State<T>, ops: seq<Op<T>>)
    requires PhaseOf(s) == Clean
    ensures Copies(s, ops) == 0 <==> forall i | 0 <= i < |ops| :: ops[i].Discard?
    decreases |ops|
  {
    if ops != [] {
      if ops[0].Discard? {
        NoCopyWithoutWriteAccess(Revert(s), ops[1..]);
        assert forall i | 0 <= i < |ops[1..]| :: ops[1..][i] == ops[i + 1];
      }
    }
  }

  /**
   * Consuming a fresh cell after any run yields the value the caller
   * observed, and the original is still what the cell was created with.
   */
  lemma ConsumeAfterRun<T>(original: T, ops: seq<Op<T>>)
    ensures IntoInner(Run(New(original), ops)).0 == Observed(original, original, ops)
    ensures IntoInner(Run(New(original), ops)).1.original == original
  {
    RunMatchesObserved(New(original), ops);
    RunKeepsOriginal(New(original), ops);
  }

  /** Reverting twice is reverting once. */
  lemma RevertIdempotent<T>(s: State<T>)
    ensures Revert(Revert(s)) == Revert(s)
  {
  }

  /** A write access after a revert copies the original, not the discarded overlay. */
  lemma RecopyAfterRevert<T>(s: State<T>)
    ensures GetMut(Revert(s)).overlay == Some(s.original)
  {
  }
}
