// What a scan means, apart from how it is carried out: sources in order, each a
// run of entries, each entry a few rows; and the batches those rows fall into.
// Model of the loop structure of crates/mft-worker/src/table/read_mft.rs.
module Batching {
  import opened Common
  import opened Bytes

  const BATCH_ROWS: nat := 2048

  /** `loads(s)`: source `s` can be read; it then holds `count(s)` entries. */
  datatype Plan<!R> = Plan(
    sources: nat, loads: nat -> bool, count: nat -> nat, rowsAt: (nat, nat) -> seq<R>)

  /** The source being read and the next entry in it. */
  datatype Position = Position(source: nat, entry: nat)

  const START: Position := Position(0, 0)

  predicate AllLoad<R>(plan: Plan<R>) {
    forall s: nat :: s < plan.sources ==> plan.loads(s)
  }

  // --------------------------------------------------------- the nested pass

  /** The rows of source `s` from entry `n` on. */
  function SourceRows<R>(plan: Plan<R>, s: nat, n: nat): seq<R>
    decreases plan.count(s) - n
  {
    if plan.count(s) <= n then [] else plan.rowsAt(s, n) + SourceRows(plan, s, n + 1)
  }

  /** The rows of source `s` and of every later one. */
  function RowsFrom<R>(plan: Plan<R>, s: nat): seq<R>
    decreases plan.sources - s
  {
    if plan.sources <= s then [] else SourceRows(plan, s, 0) + RowsFrom(plan, s + 1)
  }

  function AllRows<R>(plan: Plan<R>): seq<R> {
    RowsFrom(plan, 0)
  }

  /** The rows not yet produced at a position. */
  function Rest<R>(plan: Plan<R>, pos: Position): seq<R> {
    if plan.sources <= pos.source then [] else SourceRows(plan, pos.source, pos.entry) + RowsFrom(plan, pos.source + 1)
  }

  // ----------------------------------------------------------- filling a batch

  /** A position, moved to the next source if its own is used up. */
  function Settle<R>(plan: Plan<R>, s: nat, n: nat): Position {
    if plan.count(s) <= n then Position(s + 1, 0) else Position(s, n)
  }

  /** How filling one batch ends; on a load failure `rows` is what is dropped. */
  datatype Fill<+R> = Filled(rows: seq<R>, at: Position) | LoadFailed(rows: seq<R>, at: Position)

  ghost predicate Progress<R>(plan: Plan<R>, rows: seq<R>, pos: Position, r: Fill<R>) {
    && rows <= r.rows
    && (|| pos.source < r.at.source
        || (&& pos.source == r.at.source && pos.entry <= r.at.entry
            && (pos.entry < plan.count(pos.source) ==> r.at.entry < plan.count(pos.source))
            && (|rows| < |r.rows| ==> pos.entry < r.at.entry < plan.count(pos.source))))
    && (r.Filled? ==> BATCH_ROWS <= |r.rows| || plan.sources <= r.at.source)
  }

  /** Take entry after entry until the batch is full or the sources run out. */
  function FillFrom<R>(plan: Plan<R>, rows: seq<R>, pos: Position): Fill<R>
    decreases plan.sources - pos.source, plan.count(pos.source) - pos.entry
  {
    if BATCH_ROWS <= |rows| || plan.sources <= pos.source then Filled(rows, pos)
    else if !plan.loads(pos.source) then LoadFailed(rows, pos)
    else if plan.count(pos.source) <= pos.entry then FillFrom(plan, rows, Position(pos.source + 1, 0))
    else FillFrom(plan, rows + plan.rowsAt(pos.source, pos.entry), Settle(plan, pos.source, pos.entry + 1))
  }

  // One turn of the loop: an entry's rows are taken, or a used-up source left.
  lemma FillStep<R>(plan: Plan<R>, rows: seq<R>, pos: Position)
    requires |rows| < BATCH_ROWS && pos.source < plan.sources && plan.loads(pos.source)
    requires pos.entry < plan.count(pos.source)
    ensures FillFrom(plan, rows, pos)
            == FillFrom(plan, rows + plan.rowsAt(pos.source, pos.entry), Settle(plan, pos.source, pos.entry + 1))
  {
  }

  lemma FillSkip<R>(plan: Plan<R>, rows: seq<R>, pos: Position)
    requires |rows| < BATCH_ROWS && pos.source < plan.sources && plan.loads(pos.source)
    requires plan.count(pos.source) <= pos.entry
    ensures FillFrom(plan, rows, pos) == FillFrom(plan, rows, Position(pos.source + 1, 0))
  {
  }

  lemma {:induction false} FillProgress<R>(plan: Plan<R>, rows: seq<R>, pos: Position)
    ensures Progress(plan, rows, pos, FillFrom(plan, rows, pos))
    decreases plan.sources - pos.source, plan.count(pos.source) - pos.entry
  {
    if |rows| < BATCH_ROWS && pos.source < plan.sources && plan.loads(pos.source) {
      if plan.count(pos.source) <= pos.entry {
        FillProgress(plan, rows, Position(pos.source + 1, 0));
      } else {
        FillProgress(plan, rows + plan.rowsAt(pos.source, pos.entry), Settle(plan, pos.source, pos.entry + 1));
      }
    }
  }

  /** The start of a source, or an entry of a readable one. */
  predicate IsPlace<R>(plan: Plan<R>, pos: Position) {
    pos.entry == 0
    || (pos.source < plan.sources && plan.loads(pos.source) && pos.entry < plan.count(pos.source))
  }

  // From such a place a call gets to such a place.
  lemma {:induction false} FillPlaces<R>(plan: Plan<R>, rows: seq<R>, pos: Position)
    requires IsPlace(plan, pos)
    ensures IsPlace(plan, FillFrom(plan, rows, pos).at)
    decreases plan.sources - pos.source, plan.count(pos.source) - pos.entry
  {
    if |rows| < BATCH_ROWS && pos.source < plan.sources && plan.loads(pos.source) {
      if plan.count(pos.source) <= pos.entry {
        FillPlaces(plan, rows, Position(pos.source + 1, 0));
      } else {
        FillPlaces(plan, rows + plan.rowsAt(pos.source, pos.entry), Settle(plan, pos.source, pos.entry + 1));
      }
    }
  }

  lemma {:induction false} FillLoads<R>(plan: Plan<R>, rows: seq<R>, pos: Position)
    requires AllLoad(plan)
    ensures FillFrom(plan, rows, pos).Filled?
    decreases plan.sources - pos.source, plan.count(pos.source) - pos.entry
  {
    if |rows| < BATCH_ROWS && pos.source < plan.sources {
      if plan.count(pos.source) <= pos.entry {
        FillLoads(plan, rows, Position(pos.source + 1, 0));
      } else {
        FillLoads(plan, rows + plan.rowsAt(pos.source, pos.entry), Settle(plan, pos.source, pos.entry + 1));
      }
    }
  }

  /** The batches handed out from a position on, to the end of the scan or to
      the first call that fails. */
  ghost function Batches<R>(plan: Plan<R>, pos: Position): seq<seq<R>>
    decreases plan.sources - pos.source, plan.count(pos.source) - pos.entry
  {
    var fill := FillFrom(plan, [], pos);
    FillProgress(plan, [], pos);
    if fill.LoadFailed? || fill.rows == [] then [] else [fill.rows] + Batches(plan, fill.at)
  }

  /** How a run ends: no rows are left, or a source cannot be read and the rows
      gathered by the failing call are dropped. */
  datatype Ending<+R> = Finished | Failed(dropped: seq<R>, at: Position)

  ghost function EndingOf<R>(plan: Plan<R>, pos: Position): Ending<R>
    decreases plan.sources - pos.source, plan.count(pos.source) - pos.entry
  {
    var fill := FillFrom(plan, [], pos);
    FillProgress(plan, [], pos);
    if fill.LoadFailed? then Failed(fill.rows, fill.at)
    else if fill.rows == [] then Finished
    else EndingOf(plan, fill.at)
  }

  function Dropped<R>(ending: Ending<R>): seq<R> {
    if ending.Failed? then ending.dropped else []
  }

  // A call that fails or finds nothing is the last; any other is followed by
  // the rest of the run.
  lemma BatchesUnfold<R>(plan: Plan<R>, done: seq<seq<R>>, pos: Position)
    ensures var fill := FillFrom(plan, [], pos);
            && Progress(plan, [], pos, fill)
            && (fill.LoadFailed? ==>
                  done + Batches(plan, pos) == done && EndingOf(plan, pos) == Failed(fill.rows, fill.at))
            && (fill.Filled? && fill.rows == [] ==>
                  done + Batches(plan, pos) == done && EndingOf(plan, pos) == Finished)
            && (fill.Filled? && fill.rows != [] ==>
                  && done + Batches(plan, pos) == (done + [fill.rows]) + Batches(plan, fill.at)
                  && EndingOf(plan, pos) == EndingOf(plan, fill.at))
            && Concat(done + [fill.rows]) == Concat(done) + fill.rows
  {
    var fill := FillFrom(plan, [], pos);
    FillProgress(plan, [], pos);
    ConcatAppend(done, [fill.rows]);
    assert Concat([fill.rows]) == fill.rows;
  }

  // -------------------------------------- nothing lost, repeated or reordered

  // One entry's rows come off the front; a used-up source gives none.
  lemma RestUnfolds<R>(plan: Plan<R>, pos: Position)
    requires pos.source < plan.sources
    ensures Rest(plan, pos)
            == if plan.count(pos.source) <= pos.entry then Rest(plan, Position(pos.source + 1, 0))
               else plan.rowsAt(pos.source, pos.entry) + Rest(plan, Settle(plan, pos.source, pos.entry + 1))
  {
    var s, n := pos.source, pos.entry;
    assert Rest(plan, Position(s + 1, 0)) == RowsFrom(plan, s + 1);
    if n < plan.count(s) {
      assert Rest(plan, Settle(plan, s, n + 1)) == SourceRows(plan, s, n + 1) + RowsFrom(plan, s + 1);
      Associates(plan.rowsAt(s, n), SourceRows(plan, s, n + 1), RowsFrom(plan, s + 1));
    }
  }

  lemma Associates<R>(a: seq<R>, b: seq<R>, c: seq<R>)
    ensures a + (b + c) == (a + b) + c
  {
  }

  // One batch takes a prefix of the rows that are left, and leaves the rest.
  lemma {:induction false} FillConserves<R>(plan: Plan<R>, rows: seq<R>, pos: Position)
    ensures var r := FillFrom(plan, rows, pos);
            r.rows + Rest(plan, r.at) == rows + Rest(plan, pos)
    decreases plan.sources - pos.source, plan.count(pos.source) - pos.entry
  {
    if |rows| < BATCH_ROWS && pos.source < plan.sources && plan.loads(pos.source) {
      RestUnfolds(plan, pos);
      if plan.count(pos.source) <= pos.entry {
        FillConserves(plan, rows, Position(pos.source + 1, 0));
      } else {
        var group, next := plan.rowsAt(pos.source, pos.entry), Settle(plan, pos.source, pos.entry + 1);
        FillConserves(plan, rows + group, next);
        Associates(rows, group, Rest(plan, next));
      }
    }
  }

  // The batches, end to end, are the flat nested pass.
  lemma {:induction false} BatchesAreTheRest<R>(plan: Plan<R>, pos: Position)
    requires AllLoad(plan)
    ensures Concat(Batches(plan, pos)) == Rest(plan, pos) && EndingOf(plan, pos) == Finished
    decreases plan.sources - pos.source, plan.count(pos.source) - pos.entry
  {
    var fill := FillFrom(plan, [], pos);
    FillConserves(plan, [], pos);
    FillProgress(plan, [], pos);
    FillLoads(plan, [], pos);
    if fill.rows != [] {
      BatchesAreTheRest(plan, fill.at);
      assert ([fill.rows] + Batches(plan, fill.at))[1..] == Batches(plan, fill.at);
    }
  }

  lemma ScanIsTheNestedPass<R>(plan: Plan<R>)
    requires AllLoad(plan)
    ensures Concat(Batches(plan, START)) == AllRows(plan) && EndingOf(plan, START) == Finished
  {
    BatchesAreTheRest(plan, START);
    assert Rest(plan, START) == AllRows(plan);
  }

  // ------------------------------------------------------------- batch bounds

  /** No entry gives more than `fan` rows. */
  ghost predicate FanOut<R>(plan: Plan<R>, fan: nat) {
    forall s: nat, n: nat :: |plan.rowsAt(s, n)| <= fan
  }

  lemma {:induction false} FillBound<R>(plan: Plan<R>, rows: seq<R>, pos: Position, fan: nat)
    requires FanOut(plan, fan)
    requires |rows| <= 2047 + fan
    ensures |FillFrom(plan, rows, pos).rows| <= 2047 + fan
    decreases plan.sources - pos.source, plan.count(pos.source) - pos.entry
  {
    if |rows| < BATCH_ROWS && pos.source < plan.sources && plan.loads(pos.source) {
      if plan.count(pos.source) <= pos.entry {
        FillBound(plan, rows, Position(pos.source + 1, 0), fan);
      } else {
        var group := plan.rowsAt(pos.source, pos.entry);
        FillBound(plan, rows + group, Settle(plan, pos.source, pos.entry + 1), fan);
      }
    }
  }

  // Every batch but the last is full, none is empty, and none overshoots by
  // more than one entry's rows.
  predicate WellSized<R>(batches: seq<seq<R>>, fan: nat) {
    forall i :: 0 <= i < |batches| ==>
      && 0 < |batches[i]| <= 2047 + fan
      && (i < |batches| - 1 ==> 2048 <= |batches[i]|)
  }

  lemma WellSizedGrows<R>(first: seq<R>, later: seq<seq<R>>, fan: nat)
    requires 0 < |first| <= 2047 + fan && (later != [] ==> 2048 <= |first|)
    requires WellSized(later, fan)
    ensures WellSized([first] + later, fan)
  {
    var batches := [first] + later;
    assert forall i :: 1 <= i < |batches| ==> batches[i] == later[i - 1];
  }

  lemma {:induction false} BatchSizes<R>(plan: Plan<R>, pos: Position, fan: nat)
    requires FanOut(plan, fan)
    ensures WellSized(Batches(plan, pos), fan)
    decreases plan.sources - pos.source, plan.count(pos.source) - pos.entry
  {
    var fill := FillFrom(plan, [], pos);
    FillBound(plan, [], pos, fan);
    FillProgress(plan, [], pos);
    if fill.Filled? && fill.rows != [] {
      BatchSizes(plan, fill.at, fan);
      if |fill.rows| < BATCH_ROWS {
        assert FillFrom(plan, [], fill.at).rows == [];
      }
      WellSizedGrows(fill.rows, Batches(plan, fill.at), fan);
    }
  }

  // With at most one row an entry, every batch but the last is exactly full.
  lemma SingleRowBatches<R>(plan: Plan<R>)
    requires FanOut(plan, 1)
    ensures var batches := Batches(plan, START);
            forall i :: 0 <= i < |batches| - 1 ==> |batches[i]| == 2048
  {
    BatchSizes(plan, START, 1);
  }

  // ------------------------------------------------------------ load failures

  /** The rows from a position up to the start of source `s`. */
  function Between<R>(plan: Plan<R>, pos: Position, s: nat): seq<R>
    decreases s - pos.source
  {
    if s <= pos.source then []
    else SourceRows(plan, pos.source, pos.entry) + Between(plan, Position(pos.source + 1, 0), s)
  }

  /** Source `s` is the first at or after a position that cannot be read. */
  predicate FirstUnreadable<R>(plan: Plan<R>, from: nat, s: nat) {
    from <= s < plan.sources && !plan.loads(s) && forall t: nat :: from <= t < s ==> plan.loads(t)
  }

  lemma BetweenUnfolds<R>(plan: Plan<R>, pos: Position, bad: nat)
    requires pos.source < bad
    ensures Between(plan, pos, bad)
            == if plan.count(pos.source) <= pos.entry then Between(plan, Position(pos.source + 1, 0), bad)
               else plan.rowsAt(pos.source, pos.entry) + Between(plan, Settle(plan, pos.source, pos.entry + 1), bad)
  {
    var s, n := pos.source, pos.entry;
    var later := Between(plan, Position(s + 1, 0), bad);
    assert Between(plan, pos, bad) == SourceRows(plan, s, n) + later;
    if n < plan.count(s) {
      assert Between(plan, Settle(plan, s, n + 1), bad) == SourceRows(plan, s, n + 1) + later;
      Associates(plan.rowsAt(s, n), SourceRows(plan, s, n + 1), later);
    }
  }

  // A call fails exactly when the rows before the first unreadable source do
  // not fill the batch, and the rows it had gathered are then all dropped.
  lemma {:induction false} FailsExactly<R>(plan: Plan<R>, rows: seq<R>, pos: Position, bad: nat)
    requires FirstUnreadable(plan, pos.source, bad)
    requires pos.source == bad ==> pos.entry == 0
    ensures var r := FillFrom(plan, rows, pos);
            && (r.LoadFailed? <==> |rows| + |Between(plan, pos, bad)| < 2048)
            && (r.LoadFailed? ==> r.rows == rows + Between(plan, pos, bad) && r.at == Position(bad, 0))
    decreases plan.sources - pos.source, plan.count(pos.source) - pos.entry
  {
    if |rows| < BATCH_ROWS && pos.source < bad {
      BetweenUnfolds(plan, pos, bad);
      if plan.count(pos.source) <= pos.entry {
        FailsExactly(plan, rows, Position(pos.source + 1, 0), bad);
      } else {
        var group, next := plan.rowsAt(pos.source, pos.entry), Settle(plan, pos.source, pos.entry + 1);
        FailsExactly(plan, rows + group, next, bad);
        Associates(rows, group, Between(plan, next, bad));
      }
    }
  }

  // Up to the first unreadable source a call moves rows from what is left into
  // the batch, and goes no further.
  lemma {:induction false} FillBefore<R>(plan: Plan<R>, rows: seq<R>, pos: Position, bad: nat)
    requires FirstUnreadable(plan, pos.source, bad)
    requires pos.source == bad ==> pos.entry == 0
    ensures var r := FillFrom(plan, rows, pos);
            && FirstUnreadable(plan, r.at.source, bad) && (r.at.source == bad ==> r.at.entry == 0)
            && r.rows + Between(plan, r.at, bad) == rows + Between(plan, pos, bad)
    decreases plan.sources - pos.source, plan.count(pos.source) - pos.entry
  {
    if |rows| < BATCH_ROWS && pos.source < bad {
      BetweenUnfolds(plan, pos, bad);
      if plan.count(pos.source) <= pos.entry {
        FillBefore(plan, rows, Position(pos.source + 1, 0), bad);
      } else {
        var group, next := plan.rowsAt(pos.source, pos.entry), Settle(plan, pos.source, pos.entry + 1);
        FillBefore(plan, rows + group, next, bad);
        Associates(rows, group, Between(plan, next, bad));
      }
    }
  }

  // A whole run up to the first unreadable source: it fails there, every batch
  // handed out is full, and the batches followed by the rows dropped are the
  // rows before that source, fewer than 2048 of them dropped.
  lemma {:induction false} FailedRun<R>(plan: Plan<R>, pos: Position, bad: nat)
    requires FirstUnreadable(plan, pos.source, bad)
    requires pos.source == bad ==> pos.entry == 0
    ensures var ending := EndingOf(plan, pos);
            && ending.Failed? && ending.at == Position(bad, 0) && |ending.dropped| < 2048
            && Concat(Batches(plan, pos)) + ending.dropped == Between(plan, pos, bad)
    ensures forall i :: 0 <= i < |Batches(plan, pos)| ==> 2048 <= |Batches(plan, pos)[i]|
    decreases plan.sources - pos.source, plan.count(pos.source) - pos.entry
  {
    var fill := FillFrom(plan, [], pos);
    FillProgress(plan, [], pos);
    FillBefore(plan, [], pos, bad);
    FailsExactly(plan, [], pos, bad);
    if fill.Filled? {
      var later := Batches(plan, fill.at);
      FailedRun(plan, fill.at, bad);
      assert ([fill.rows] + later)[1..] == later;
      Associates(fill.rows, Concat(later), EndingOf(plan, fill.at).dropped);
    }
  }

  // ---------------------------------------------- how many rows a run drops

  /** How many rows each entry gives, from a position up to source `s`. */
  function Counts<R>(plan: Plan<R>, pos: Position, s: nat): seq<nat>
    decreases s - pos.source, plan.count(pos.source) - pos.entry
  {
    if s <= pos.source then []
    else if plan.count(pos.source) <= pos.entry then Counts(plan, Position(pos.source + 1, 0), s)
    else [|plan.rowsAt(pos.source, pos.entry)|] + Counts(plan, Settle(plan, pos.source, pos.entry + 1), s)
  }

  /** Count up, starting over whenever a batch is full. */
  function Leftover(counts: seq<nat>, have: nat): nat {
    if counts == [] then have
    else
      var now := have + counts[0];
      Leftover(counts[1..], if 2048 <= now then 0 else now)
  }

  lemma {:induction false} FillCounts<R>(plan: Plan<R>, rows: seq<R>, pos: Position, bad: nat)
    requires FirstUnreadable(plan, pos.source, bad) && (pos.source == bad ==> pos.entry == 0)
    requires |rows| < BATCH_ROWS
    ensures var r := FillFrom(plan, rows, pos);
            Leftover(Counts(plan, pos, bad), |rows|)
            == if r.LoadFailed? then |r.rows| else Leftover(Counts(plan, r.at, bad), 0)
    decreases plan.sources - pos.source, plan.count(pos.source) - pos.entry
  {
    if pos.source < bad {
      if plan.count(pos.source) <= pos.entry {
        FillCounts(plan, rows, Position(pos.source + 1, 0), bad);
      } else {
        var group, next := plan.rowsAt(pos.source, pos.entry), Settle(plan, pos.source, pos.entry + 1);
        assert Counts(plan, pos, bad)[1..] == Counts(plan, next, bad);
        FillStep(plan, rows, pos);
        if |rows + group| < BATCH_ROWS {
          FillCounts(plan, rows + group, next, bad);
        }
      }
    }
  }

  // How many rows a failed run drops, in any mode: what is left over when the
  // row counts of the entries before the unreadable source are added up,
  // starting over at every full batch.
  lemma {:induction false} DroppedExactly<R>(plan: Plan<R>, pos: Position, bad: nat)
    requires FirstUnreadable(plan, pos.source, bad) && (pos.source == bad ==> pos.entry == 0)
    ensures |Dropped(EndingOf(plan, pos))| == Leftover(Counts(plan, pos, bad), 0)
    decreases plan.sources - pos.source, plan.count(pos.source) - pos.entry
  {
    var fill := FillFrom(plan, [], pos);
    FillProgress(plan, [], pos);
    FillBefore(plan, [], pos, bad);
    FillCounts(plan, [], pos, bad);
    if fill.Filled? {
      DroppedExactly(plan, fill.at, bad);
    }
  }

  lemma {:induction false} ConcatLength<R>(parts: seq<seq<R>>, size: nat)
    requires forall i :: 0 <= i < |parts| ==> |parts[i]| == size
    ensures |Concat(parts)| == |parts| * size
  {
    if parts != [] {
      ConcatLength(parts[1..], size);
    }
  }

  // With at most one row an entry that is a remainder: none is lost exactly when
  // the rows before the unreadable source come out in full batches.
  lemma DroppedRemainder<R>(plan: Plan<R>, pos: Position, bad: nat)
    requires FirstUnreadable(plan, pos.source, bad) && (pos.source == bad ==> pos.entry == 0)
    requires FanOut(plan, 1)
    ensures |Dropped(EndingOf(plan, pos))| == |Between(plan, pos, bad)| % 2048
  {
    var batches := Batches(plan, pos);
    FailedRun(plan, pos, bad);
    BatchSizes(plan, pos, 1);
    ConcatLength(batches, BATCH_ROWS);
    ModIs(|Between(plan, pos, bad)|, |batches|, |EndingOf(plan, pos).dropped|, BATCH_ROWS);
  }

  lemma {:induction false} FirstUnreadableExists<R>(plan: Plan<R>, from: nat) returns (bad: nat)
    requires exists s: nat :: from <= s < plan.sources && !plan.loads(s)
    ensures FirstUnreadable(plan, from, bad)
    decreases plan.sources - from
  {
    if plan.loads(from) {
      bad := FirstUnreadableExists(plan, from + 1);
    } else {
      bad := from;
    }
  }

  // A run finishes exactly when every source can be read.
  lemma FinishesExactly<R>(plan: Plan<R>)
    ensures EndingOf(plan, START).Finished? <==> AllLoad(plan)
  {
    if AllLoad(plan) {
      ScanIsTheNestedPass(plan);
    } else {
      var bad := FirstUnreadableExists(plan, 0);
      FailedRun(plan, START, bad);
    }
  }

  // The dropped rows are gone for good: once a call has failed, every retry
  // fails at the same source and gives nothing, so the rows gathered before it
  // reach no batch.
  lemma DroppedRowsStayDropped<R>(plan: Plan<R>, pos: Position, bad: nat)
    requires FirstUnreadable(plan, pos.source, bad) && (pos.source == bad ==> pos.entry == 0)
    ensures EndingOf(plan, pos).Failed?
    ensures var at := EndingOf(plan, pos).at;
            && FillFrom(plan, [], at) == LoadFailed([], at)
            && Batches(plan, at) == [] && EndingOf(plan, at) == Failed([], at)
  {
    FailedRun(plan, pos, bad);
    FailsExactly(plan, [], Position(bad, 0), bad);
  }

  // -------------------------------------------------------- where a row is from

  lemma {:induction false} SourceRowFrom<R>(plan: Plan<R>, s: nat, from: nat, i: nat) returns (n: nat)
    requires i < |SourceRows(plan, s, from)|
    ensures from <= n < plan.count(s) && SourceRows(plan, s, from)[i] in plan.rowsAt(s, n)
    decreases plan.count(s) - from
  {
    var group := plan.rowsAt(s, from);
    if i < |group| {
      n := from;
    } else {
      n := SourceRowFrom(plan, s, from + 1, i - |group|);
    }
  }

  lemma {:induction false} RowFrom<R>(plan: Plan<R>, first: nat, i: nat) returns (s: nat, n: nat)
    requires i < |RowsFrom(plan, first)|
    ensures first <= s < plan.sources && n < plan.count(s) && RowsFrom(plan, first)[i] in plan.rowsAt(s, n)
    decreases plan.sources - first
  {
    var own := SourceRows(plan, first, 0);
    if i < |own| {
      s := first;
      n := SourceRowFrom(plan, first, 0, i);
    } else {
      s, n := RowFrom(plan, first + 1, i - |own|);
    }
  }

  // Two sources with the same entries and rows give the same rows.
  lemma {:induction false} SameSourceRows<R>(a: Plan<R>, s: nat, b: Plan<R>, t: nat, n: nat)
    requires a.count(s) == b.count(t)
    requires forall n: nat :: a.rowsAt(s, n) == b.rowsAt(t, n)
    ensures SourceRows(a, s, n) == SourceRows(b, t, n)
    decreases a.count(s) - n
  {
    if n < a.count(s) {
      SameSourceRows(a, s, b, t, n + 1);
    }
  }

  /** The two plans give the same rows at every entry. */
  ghost predicate SamePlan<R(!new)>(a: Plan<R>, b: Plan<R>) {
    && a.sources == b.sources
    && (forall s: nat :: a.loads(s) == b.loads(s) && a.count(s) == b.count(s))
    && forall s: nat, n: nat :: a.rowsAt(s, n) == b.rowsAt(s, n)
  }

  lemma {:induction false} SamePlanFills<R(!new)>(a: Plan<R>, b: Plan<R>, rows: seq<R>, pos: Position)
    requires SamePlan(a, b)
    ensures FillFrom(a, rows, pos) == FillFrom(b, rows, pos)
    decreases a.sources - pos.source, a.count(pos.source) - pos.entry
  {
    if |rows| < BATCH_ROWS && pos.source < a.sources && a.loads(pos.source) {
      if a.count(pos.source) <= pos.entry {
        SamePlanFills(a, b, rows, Position(pos.source + 1, 0));
      } else {
        SamePlanFills(a, b, rows + a.rowsAt(pos.source, pos.entry), Settle(a, pos.source, pos.entry + 1));
      }
    }
  }

  // Then their runs are the same.
  lemma {:induction false} SamePlanRuns<R(!new)>(a: Plan<R>, b: Plan<R>, pos: Position)
    requires SamePlan(a, b)
    ensures Batches(a, pos) == Batches(b, pos) && EndingOf(a, pos) == EndingOf(b, pos)
    decreases a.sources - pos.source, a.count(pos.source) - pos.entry
  {
    var fill := FillFrom(a, [], pos);
    FillProgress(a, [], pos);
    SamePlanFills(a, b, [], pos);
    if fill.Filled? && fill.rows != [] {
      SamePlanRuns(a, b, fill.at);
    }
  }

  // The rows of a scan are its sources' rows, end to end.
  lemma {:induction false} ScanSplits<R>(plan: Plan<R>, parts: seq<seq<R>>, s: nat)
    requires |parts| == plan.sources && s <= plan.sources
    requires forall t: nat :: t < |parts| ==> parts[t] == SourceRows(plan, t, 0)
    ensures RowsFrom(plan, s) == Concat(parts[s..])
    decreases plan.sources - s
  {
    if s < plan.sources {
      ScanSplits(plan, parts, s + 1);
      assert parts[s..][0] == parts[s] && parts[s..][1..] == parts[s + 1..];
    }
  }

  // The rows of a source are its entries' rows, end to end.
  lemma {:induction false} SourceSplits<R>(plan: Plan<R>, groups: seq<seq<R>>, s: nat, n: nat)
    requires |groups| == plan.count(s) && n <= plan.count(s)
    requires forall m: nat :: m < |groups| ==> groups[m] == plan.rowsAt(s, m)
    ensures SourceRows(plan, s, n) == Concat(groups[n..])
    decreases plan.count(s) - n
  {
    if n < plan.count(s) {
      SourceSplits(plan, groups, s, n + 1);
      assert groups[n..][0] == groups[n] && groups[n..][1..] == groups[n + 1..];
    }
  }

  lemma {:induction false} SamePlanRows<R(!new)>(a: Plan<R>, b: Plan<R>, s: nat)
    requires SamePlan(a, b)
    ensures RowsFrom(a, s) == RowsFrom(b, s)
    decreases a.sources - s
  {
    if s < a.sources {
      SameSourceRows(a, s, b, s, 0);
      SamePlanRows(a, b, s + 1);
    }
  }

  // ------------------------------------------------- relations between two runs

  function Filter<R>(p: R -> bool, rows: seq<R>): seq<R> {
    if rows == [] then [] else (if p(rows[0]) then [rows[0]] else []) + Filter(p, rows[1..])
  }

  lemma {:induction false} FilterAppend<R>(p: R -> bool, a: seq<R>, b: seq<R>)
    ensures Filter(p, a + b) == Filter(p, a) + Filter(p, b)
  {
    if a == [] {
      assert a + b == b;
    } else {
      assert (a + b)[1..] == a[1..] + b;
      FilterAppend(p, a[1..], b);
      Associates(if p(a[0]) then [a[0]] else [], Filter(p, a[1..]), Filter(p, b));
    }
  }

  /** The two plans walk the same entries of the same sources. */
  ghost predicate SameWalk<R>(a: Plan<R>, b: Plan<R>) {
    a.sources == b.sources && forall s: nat :: a.count(s) == b.count(s)
  }

  lemma {:induction false} FilteredRun<R>(a: Plan<R>, b: Plan<R>, p: R -> bool, s: nat, n: nat)
    requires SameWalk(a, b)
    requires forall s: nat, n: nat :: a.rowsAt(s, n) == Filter(p, b.rowsAt(s, n))
    ensures SourceRows(a, s, n) == Filter(p, SourceRows(b, s, n))
    decreases a.count(s) - n
  {
    if n < a.count(s) {
      FilteredRun(a, b, p, s, n + 1);
      FilterAppend(p, b.rowsAt(s, n), SourceRows(b, s, n + 1));
    }
  }

  lemma {:induction false} FilteredRuns<R>(a: Plan<R>, b: Plan<R>, p: R -> bool, s: nat)
    requires SameWalk(a, b)
    requires forall s: nat, n: nat :: a.rowsAt(s, n) == Filter(p, b.rowsAt(s, n))
    ensures RowsFrom(a, s) == Filter(p, RowsFrom(b, s))
    decreases a.sources - s
  {
    if s < a.sources {
      FilteredRun(a, b, p, s, 0);
      FilteredRuns(a, b, p, s + 1);
      FilterAppend(p, SourceRows(b, s, 0), RowsFrom(b, s + 1));
    }
  }

  /** `many` is `few` with row `i` widened to `ks[i]` rows, all `alike` it. */
  ghost predicate Widens<R(!new)>(alike: (R, R) -> bool, few: seq<R>, many: seq<R>, ks: seq<nat>)
    decreases ks
  {
    && |ks| == |few|
    && (ks == [] ==> many == [])
    && (ks != [] ==>
          && 1 <= ks[0] <= |many|
          && (forall i :: 0 <= i < ks[0] ==> alike(few[0], many[i]))
          && Widens(alike, few[1..], many[ks[0]..], ks[1..]))
  }

  lemma {:induction false} WidensAppend<R(!new)>(alike: (R, R) -> bool, f: seq<R>, m: seq<R>, ks: seq<nat>,
                                                 f': seq<R>, m': seq<R>, ks': seq<nat>)
    requires Widens(alike, f, m, ks) && Widens(alike, f', m', ks')
    ensures Widens(alike, f + f', m + m', ks + ks')
    decreases ks
  {
    if ks == [] {
      assert f + f' == f' && m + m' == m' && ks + ks' == ks';
    } else {
      WidensAppend(alike, f[1..], m[ks[0]..], ks[1..], f', m', ks');
      assert (f + f')[1..] == f[1..] + f';
      assert (m + m')[ks[0]..] == m[ks[0]..] + m';
      assert (ks + ks')[1..] == ks[1..] + ks';
    }
  }

  /** Every entry's rows in `many` widen its rows in `few` by `widths`. */
  ghost predicate WidensAt<R(!new)>(alike: (R, R) -> bool, few: Plan<R>, many: Plan<R>,
                                    widths: (nat, nat) -> seq<nat>) {
    && SameWalk(few, many)
    && forall s: nat, n: nat :: Widens(alike, few.rowsAt(s, n), many.rowsAt(s, n), widths(s, n))
  }

  function SourceWidths<R>(plan: Plan<R>, widths: (nat, nat) -> seq<nat>, s: nat, n: nat): seq<nat>
    decreases plan.count(s) - n
  {
    if plan.count(s) <= n then [] else widths(s, n) + SourceWidths(plan, widths, s, n + 1)
  }

  function WidthsFrom<R>(plan: Plan<R>, widths: (nat, nat) -> seq<nat>, s: nat): seq<nat>
    decreases plan.sources - s
  {
    if plan.sources <= s then [] else SourceWidths(plan, widths, s, 0) + WidthsFrom(plan, widths, s + 1)
  }

  lemma {:induction false} WidenedRun<R(!new)>(alike: (R, R) -> bool, few: Plan<R>, many: Plan<R>,
                                               widths: (nat, nat) -> seq<nat>, s: nat, n: nat)
    requires WidensAt(alike, few, many, widths)
    ensures Widens(alike, SourceRows(few, s, n), SourceRows(many, s, n), SourceWidths(few, widths, s, n))
    decreases few.count(s) - n
  {
    if n < few.count(s) {
      WidenedRun(alike, few, many, widths, s, n + 1);
      WidensAppend(alike, few.rowsAt(s, n), many.rowsAt(s, n), widths(s, n),
                   SourceRows(few, s, n + 1), SourceRows(many, s, n + 1), SourceWidths(few, widths, s, n + 1));
    }
  }

  lemma {:induction false} WidenedRuns<R(!new)>(alike: (R, R) -> bool, few: Plan<R>, many: Plan<R>,
                                                widths: (nat, nat) -> seq<nat>, s: nat)
    requires WidensAt(alike, few, many, widths)
    ensures Widens(alike, RowsFrom(few, s), RowsFrom(many, s), WidthsFrom(few, widths, s))
    decreases few.sources - s
  {
    if s < few.sources {
      WidenedRun(alike, few, many, widths, s, 0);
      WidenedRuns(alike, few, many, widths, s + 1);
      WidensAppend(alike, SourceRows(few, s, 0), SourceRows(many, s, 0), SourceWidths(few, widths, s, 0),
                   RowsFrom(few, s + 1), RowsFrom(many, s + 1), WidthsFrom(few, widths, s + 1));
    }
  }
}
