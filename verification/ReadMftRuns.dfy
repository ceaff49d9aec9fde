// Whole runs of the producer: any schedule of restarts gives the same batches,
// and how the runs of the three modes relate.
module ReadMftRuns {
  import opened Common
  import opened Bytes
  import opened Record
  import opened Resolver
  import opened MftCore
  import opened ScanState
  import opened Batching
  import opened ReadMft

  // -------------------------------------------------------- resume transparency

  /** Where a restored state resumes. */
  function PlaceOf(state: MftScanState): Position {
    Position(state.sourceIndex, state.NextEntry())
  }

  /** The state carries no index, or the one built of its own source. */
  predicate CarriesOwn(cfg: ScanConfig, state: MftScanState) {
    state.resolver == map[] || state.resolver == OwnIndex(cfg, state.sourceIndex)
  }

  function SourceLength(cfg: ScanConfig, s: nat): nat {
    match Load(cfg, s)
    case None => 0
    case Some(bytes) => |bytes|
  }

  /** The producer is between batches of a scan that no foreign token entered. */
  ghost predicate MidScan(p: ReadMftProducer, plan: Plan<EmitRow>)
    reads p
  {
    && p.Valid() && p.pendingResume.None? && p.On(plan)
    && p.Own() && p.Settled() && IsPlace(plan, p.Here())
  }

  // Encode a producer, throw it away, restore into a fresh one. The token says
  // where the producer stands, carries its source's own index or none, and its
  // byte offset is inside that source.
  method Rehydrate(p: ReadMftProducer, ghost plan: Plan<EmitRow>) returns (q: ReadMftProducer, token: Token)
    requires MidScan(p, plan)
    ensures fresh(q) && q.Valid() && q.cfg == p.cfg && q.On(plan) && q.Own()
    ensures q.Here() == p.Here() && q.Emitted() == p.Emitted()
    ensures var state := FromBytes(token);
            && PlaceOf(state) == p.Here() && state.cursor.recordsEmitted == p.Emitted()
            && CarriesOwn(p.cfg, state) && state.cursor.byteOffset <= SourceLength(p.cfg, state.sourceIndex)
  {
    token := p.EncodeResume();
    q := new ReadMftProducer(p.cfg);
    q.RestoreResume(token);
  }

  /** `state` is the snapshot of a run taken before batch `i`: it resumes with the
      batches from there on, under no index but its source's own, having counted
      the rows of the batches before. */
  ghost predicate Snapshot(cfg: ScanConfig, batches: seq<seq<EmitRow>>, i: nat, state: MftScanState) {
    && i <= |batches| && Batches(PlanOf(cfg), PlaceOf(state)) == batches[i..]
    && CarriesOwn(cfg, state) && state.cursor.recordsEmitted == |Concat(batches[..i])|
    && state.cursor.byteOffset <= SourceLength(cfg, state.sourceIndex)
  }

  /** Each of the tokens is a snapshot, taken before the batch it is numbered by. */
  ghost predicate Snapshots(cfg: ScanConfig, batches: seq<seq<EmitRow>>, tokens: seq<(nat, Token)>) {
    forall k :: 0 <= k < |tokens| ==> Snapshot(cfg, batches, tokens[k].0, FromBytes(tokens[k].1))
  }

  // Rehydrate before batch `i`, and keep the token.
  method Restart(p: ReadMftProducer, ghost done: seq<seq<EmitRow>>, i: nat, tokens: seq<(nat, Token)>)
    returns (q: ReadMftProducer, kept: seq<(nat, Token)>)
    requires MidScan(p, PlanOf(p.cfg)) && i == |done| && p.Emitted() == |Concat(done)|
    requires Snapshots(p.cfg, done + Batches(PlanOf(p.cfg), p.Here()), tokens)
    ensures fresh(q) && q.Valid() && q.cfg == p.cfg && q.On(PlanOf(p.cfg)) && q.Own()
    ensures q.Here() == p.Here() && q.Emitted() == p.Emitted()
    ensures Snapshots(p.cfg, done + Batches(PlanOf(p.cfg), p.Here()), kept)
  {
    var token;
    q, token := Rehydrate(p, PlanOf(p.cfg));
    SnapshotHolds(p.cfg, done, Batches(PlanOf(p.cfg), p.Here()), FromBytes(token));
    kept := tokens + [(i, token)];
  }

  // Drive a scan, rehydrating the producer before batch `i` whenever
  // `restart(i)`: the batches are those of the uninterrupted scan. If every
  // source can be read they are the whole nested pass; if not, the scan fails
  // at the first that cannot, and the count of rows emitted runs ahead of the
  // rows delivered by exactly those dropped. The tokens used are snapshots.
  method RunWithRestarts(cfg: ScanConfig, restart: nat -> bool)
    returns (batches: seq<seq<EmitRow>>, error: Option<string>, emitted: nat, tokens: seq<(nat, Token)>)
    requires EngineSound(cfg.engine)
    ensures batches == Batches(PlanOf(cfg), START)
    ensures error.None?
            <==> forall s :: 0 <= s < |cfg.sources| && cfg.sources[s].File? ==> cfg.disk(cfg.sources[s].path).Some?
    ensures error.None? ==> Concat(batches) == AllRows(PlanOf(cfg)) && emitted == |AllRows(PlanOf(cfg))|
    ensures var dropped := Dropped(EndingOf(PlanOf(cfg), START));
            && emitted == |Concat(batches)| + |dropped| && |dropped| < 2048
            && forall bad :: FirstUnreadable(PlanOf(cfg), 0, bad) ==>
                 Concat(batches) + dropped == Between(PlanOf(cfg), START, bad)
    ensures Snapshots(cfg, batches, tokens)
  {
    ghost var plan := PlanOf(cfg);
    ghost var all := Batches(plan, START);
    var p := new ReadMftProducer(cfg);
    batches, error, tokens := [], None, [];
    while true
      invariant fresh(p) && p.cfg == cfg && MidScan(p, plan)
      invariant batches + Batches(plan, p.Here()) == all
      invariant EndingOf(plan, p.Here()) == EndingOf(plan, START)
      invariant p.Emitted() == |Concat(batches)|
      invariant Snapshots(cfg, all, tokens)
      decreases |cfg.sources| - p.Here().source, CountAt(cfg, p.Here().source) - p.Here().entry
    {
      if restart(|batches|) {
        p, tokens := Restart(p, batches, |batches|, tokens);
      }
      var r := NextBatch(p, plan, batches);
      if r.Err? {
        error := Some(r.error);
        break;
      }
      if r.value.None? {
        break;
      }
      batches := batches + [r.value.value];
    }
    emitted := p.recordsEmitted;
    RunMeans(plan);
    LoadsIfFilesRead(cfg);
  }

  lemma SnapshotHolds(cfg: ScanConfig, done: seq<seq<EmitRow>>, left: seq<seq<EmitRow>>, state: MftScanState)
    requires Batches(PlanOf(cfg), PlaceOf(state)) == left && state.cursor.recordsEmitted == |Concat(done)|
    requires CarriesOwn(cfg, state) && state.cursor.byteOffset <= SourceLength(cfg, state.sourceIndex)
    ensures Snapshot(cfg, done + left, |done|, state)
  {
    assert (done + left)[..|done|] == done && (done + left)[|done|..] == left;
  }

  // One batch of a run: the last if it fails or is none, and otherwise followed
  // by the rest of the run.
  method NextBatch(p: ReadMftProducer, ghost plan: Plan<EmitRow>, ghost done: seq<seq<EmitRow>>)
    returns (r: Result<Option<seq<EmitRow>>, string>)
    requires p.Valid() && p.On(plan)
    modifies p
    ensures p.Valid() && p.pendingResume.None? && p.On(plan)
    ensures old(p.Own() && IsPlace(plan, p.Here())) ==> MidScan(p, plan)
    ensures r.Err? <==> EndingOf(plan, old(p.Here())).Failed? && Batches(plan, old(p.Here())) == []
    ensures r.Err? ==> p.Emitted() == old(p.Emitted()) + |EndingOf(plan, old(p.Here())).dropped|
    ensures r == Result.Ok(None) ==>
              EndingOf(plan, old(p.Here())).Finished? && p.Emitted() == old(p.Emitted())
    ensures r.Err? || r.value.None? ==> done + Batches(plan, old(p.Here())) == done
    ensures r.Ok? && r.value.Some? ==>
              && done + Batches(plan, old(p.Here())) == (done + [r.value.value]) + Batches(plan, p.Here())
              && EndingOf(plan, old(p.Here())) == EndingOf(plan, p.Here())
              && |Concat(done + [r.value.value])| == |Concat(done)| + |r.value.value|
              && p.Emitted() == old(p.Emitted()) + |r.value.value|
              && old(p.Here()).source < |p.cfg.sources|
              && (|| old(p.Here()).source < p.Here().source
                  || (&& old(p.Here()).source == p.Here().source
                      && old(p.Here()).entry < p.Here().entry < CountAt(p.cfg, p.Here().source)))
  {
    BatchesUnfold(plan, done, p.Here());
    if IsPlace(plan, p.Here()) {
      FillPlaces(plan, [], p.Here());
    }
    r := p.Produce(plan);
  }

  // What a run's batches and ending amount to.
  lemma RunMeans(plan: Plan<EmitRow>)
    ensures EndingOf(plan, START).Finished? <==> AllLoad(plan)
    ensures AllLoad(plan) ==> Concat(Batches(plan, START)) == AllRows(plan)
    ensures var dropped := Dropped(EndingOf(plan, START));
            && |dropped| < 2048
            && forall bad :: FirstUnreadable(plan, 0, bad) ==>
                 Concat(Batches(plan, START)) + dropped == Between(plan, START, bad)
  {
    FinishesExactly(plan);
    if AllLoad(plan) {
      ScanIsTheNestedPass(plan);
    } else {
      var bad := FirstUnreadableExists(plan, 0);
      FailedRun(plan, START, bad);
    }
    forall bad | FirstUnreadable(plan, 0, bad)
      ensures Concat(Batches(plan, START)) + Dropped(EndingOf(plan, START)) == Between(plan, START, bad)
    {
      FailedRun(plan, START, bad);
    }
  }

  // Drive a producer, wherever it stands, until it ends or fails.
  method Drain(p: ReadMftProducer, ghost plan: Plan<EmitRow>)
    returns (batches: seq<seq<EmitRow>>, error: Option<string>)
    requires p.Valid() && p.On(plan)
    modifies p
    ensures p.Valid()
    ensures batches == Batches(plan, old(p.Here()))
    ensures error.None? <==> EndingOf(plan, old(p.Here())).Finished?
    ensures p.Emitted() == old(p.Emitted()) + |Concat(batches)| + |Dropped(EndingOf(plan, old(p.Here())))|
  {
    batches, error := [], None;
    while true
      invariant p.Valid() && p.On(plan)
      invariant batches + Batches(plan, p.Here()) == Batches(plan, old(p.Here()))
      invariant EndingOf(plan, p.Here()) == EndingOf(plan, old(p.Here()))
      invariant p.Emitted() == old(p.Emitted()) + |Concat(batches)|
      decreases |p.cfg.sources| - p.Here().source, CountAt(p.cfg, p.Here().source) - p.Here().entry
    {
      var r := NextBatch(p, plan, batches);
      if r.Err? {
        error := Some(r.error);
        return;
      }
      if r.value.None? {
        return;
      }
      batches := batches + [r.value.value];
    }
  }

  method RunToken(cfg: ScanConfig, token: Token, ghost plan: Plan<EmitRow>)
    returns (batches: seq<seq<EmitRow>>, error: Option<string>)
    requires EngineSound(cfg.engine)
    requires Follows(plan, cfg, FromBytes(token).sourceIndex, FromBytes(token).resolver)
    ensures batches == Batches(plan, PlaceOf(FromBytes(token)))
    ensures error.None? <==> EndingOf(plan, PlaceOf(FromBytes(token))).Finished?
  {
    var p := new ReadMftProducer(cfg);
    p.RestoreResume(token);
    batches, error := Drain(p, plan);
  }

  // What any token does, even one from another scan: the run from it follows
  // the plan in which the token's own index, if it has one, stands in for the
  // index of the token's source, and for no other.
  method ResumeFrom(cfg: ScanConfig, token: Token) returns (batches: seq<seq<EmitRow>>, error: Option<string>)
    requires EngineSound(cfg.engine)
    ensures var state := FromBytes(token);
            var plan := PlanCarrying(cfg, state.sourceIndex, state.resolver);
            && batches == Batches(plan, PlaceOf(state))
            && (error.None? <==> EndingOf(plan, PlaceOf(state)).Finished?)
            && (AllLoad(plan) ==> error.None? && Concat(batches) == Rest(plan, PlaceOf(state)))
  {
    ghost var state := FromBytes(token);
    ghost var plan := PlanCarrying(cfg, state.sourceIndex, state.resolver);
    CarryingPlanFollows(cfg, state.sourceIndex, state.resolver);
    batches, error := RunToken(cfg, token, plan);
    if AllLoad(plan) {
      BatchesAreTheRest(plan, PlaceOf(state));
    }
  }

  // A token that carries its own source's index, or none, resumes the scan itself.
  lemma OwnTokenResumes(cfg: ScanConfig, state: MftScanState)
    requires CarriesOwn(cfg, state)
    ensures var carrying := PlanCarrying(cfg, state.sourceIndex, state.resolver);
            && Batches(carrying, PlaceOf(state)) == Batches(PlanOf(cfg), PlaceOf(state))
            && EndingOf(carrying, PlaceOf(state)) == EndingOf(PlanOf(cfg), PlaceOf(state))
  {
    SamePlanRuns(PlanCarrying(cfg, state.sourceIndex, state.resolver), PlanOf(cfg), PlaceOf(state));
  }

  // So does every token of a run: it gives exactly the batches still to come.
  lemma SnapshotResumes(cfg: ScanConfig, batches: seq<seq<EmitRow>>, i: nat, state: MftScanState)
    requires Snapshot(cfg, batches, i, state)
    ensures Batches(PlanCarrying(cfg, state.sourceIndex, state.resolver), PlaceOf(state)) == batches[i..]
  {
    OwnTokenResumes(cfg, state);
  }

  // A token that does not decode restarts the scan from the beginning.
  lemma MalformedTokenRestarts(cfg: ScanConfig)
    ensures var state := FromBytes(Malformed);
            && PlaceOf(state) == START && state.cursor.recordsEmitted == 0
            && Follows(PlanOf(cfg), cfg, state.sourceIndex, state.resolver)
  {
    ModIs(0, 0, 0, 1024);
    OwnPlanFollows(cfg, 0);
  }

  // ------------------------------------------------------- a forgotten restore

  /** Two states resume alike: same place, same count, same index in force. */
  predicate ResumeAlike(cfg: ScanConfig, a: MftScanState, b: MftScanState) {
    && PlaceOf(a) == PlaceOf(b) && a.cursor.recordsEmitted == b.cursor.recordsEmitted
    && InForce(cfg, a.sourceIndex, a.resolver) == InForce(cfg, b.sourceIndex, b.resolver)
  }

  // Then any plan the one leads through, the other does.
  lemma AlikeFollowSamePlans(cfg: ScanConfig, a: MftScanState, b: MftScanState, plan: Plan<EmitRow>)
    requires ResumeAlike(cfg, a, b)
    ensures Follows(plan, cfg, a.sourceIndex, a.resolver) <==> Follows(plan, cfg, b.sourceIndex, b.resolver)
  {
    assert InForce(cfg, a.sourceIndex, a.resolver) == InForce(cfg, b.sourceIndex, b.resolver);
  }

  // What a snapshot is not: encoding straight after a restore, with no batch
  // between, yields the token of a new scan whatever was restored. It resumes
  // as the restored token would exactly when that one was at the start, had
  // counted nothing, and carried no index but its own source's.
  method RestoreThenEncode(cfg: ScanConfig, token: Token) returns (again: Token)
    requires EngineSound(cfg.engine)
    ensures
      var before, after := FromBytes(token), FromBytes(again);
      && PlaceOf(after) == START && after.cursor.recordsEmitted == 0 && after.resolver == map[]
      && (ResumeAlike(cfg, before, after)
          <==> && before.sourceIndex == 0 && before.NextEntry() == 0 && before.cursor.recordsEmitted == 0
               && before.resolver in {map[], OwnIndex(cfg, 0)})
  {
    var p := new ReadMftProducer(cfg);
    p.RestoreResume(token);
    again := p.EncodeResume();
  }

  // A run that snapshots so after its first batch hands that batch out, and
  // then the whole scan from the beginning: the first batch's rows come twice.
  method ForgetAfterFirstBatch(cfg: ScanConfig) returns (batches: seq<seq<EmitRow>>)
    requires EngineSound(cfg.engine) && AllLoad(PlanOf(cfg))
    ensures var plan := PlanOf(cfg);
            var fill := FillFrom(plan, [], START);
            && Concat(batches) == fill.rows + AllRows(plan)
            && AllRows(plan) == fill.rows + Rest(plan, fill.at)
  {
    ghost var plan := PlanOf(cfg);
    FirstBatchTaken(plan);
    OwnPlanFollows(cfg, 0);
    var p := new ReadMftProducer(cfg);
    var first := p.Produce(plan);
    var token := p.EncodeResume();
    var again := RestoreThenEncode(cfg, token);
    var rest, _ := RunToken(cfg, again, plan);
    batches := (if first.value.Some? then [first.value.value] else []) + rest;
    ConcatAppend(if first.value.Some? then [first.value.value] else [], rest);
  }

  lemma FirstBatchTaken(plan: Plan<EmitRow>)
    requires AllLoad(plan)
    ensures var fill := FillFrom(plan, [], START);
            fill.Filled? && AllRows(plan) == fill.rows + Rest(plan, fill.at) && Concat([fill.rows]) == fill.rows
    ensures Concat(Batches(plan, START)) == AllRows(plan)
  {
    FillLoads(plan, [], START);
    FillConserves(plan, [], START);
    ScanIsTheNestedPass(plan);
    assert Rest(plan, START) == AllRows(plan);
  }

  // ------------------------------------------------------------ mode relations

  function InMode(cfg: ScanConfig, mode: Mode): Plan<EmitRow> {
    PlanOf(cfg.(mode := mode))
  }

  predicate IsLive(row: EmitRow) {
    row.isAllocated
  }

  // The allocated pass is the files pass, filtered by `is_allocated`; so are the
  // rows the two runs deliver, when every source can be read.
  lemma AllocatedFiltersFiles(cfg: ScanConfig)
    ensures AllLoad(PlanOf(cfg)) ==>
              Concat(Batches(InMode(cfg, Allocated), START))
              == Filter(IsLive, Concat(Batches(InMode(cfg, Files), START)))
    ensures AllRows(InMode(cfg, Allocated)) == Filter(IsLive, AllRows(InMode(cfg, Files)))
  {
    forall s: nat, n: nat
      ensures RowsAt(cfg.(mode := Allocated), s, n) == Filter(IsLive, RowsAt(cfg.(mode := Files), s, n))
    {
      var rows := RowsAt(cfg.(mode := Files), s, n);
      assert rows != [] ==> rows[1..] == [];
    }
    FilteredRuns(InMode(cfg, Allocated), InMode(cfg, Files), IsLive, 0);
    if AllLoad(PlanOf(cfg)) {
      DeliversAll(cfg, Allocated);
      DeliversAll(cfg, Files);
    }
  }

  lemma DeliversAll(cfg: ScanConfig, mode: Mode)
    requires AllLoad(PlanOf(cfg))
    ensures Concat(Batches(InMode(cfg, mode), START)) == AllRows(InMode(cfg, mode))
  {
    forall s: nat | s < InMode(cfg, mode).sources ensures InMode(cfg, mode).loads(s) {
      assert PlanOf(cfg).loads(s);
      assert Load(cfg.(mode := mode), s) == Load(cfg, s);
    }
    ScanIsTheNestedPass(InMode(cfg, mode));
  }

  /** A row without its stream-level columns. */
  function RecordLevel(row: EmitRow): EmitRow {
    row.(adsName := None, residentData := None, logicalSize := 0, physicalSize := 0)
  }

  predicate SameRecord(a: EmitRow, b: EmitRow) {
    RecordLevel(a) == RecordLevel(b)
  }

  /** How many streams a record has, the primary included. */
  function StreamCount(rec: DecodedRecord): nat {
    (if rec.data.primary.Some? then 1 else 0) + |rec.data.ads|
  }

  function Widths(cfg: ScanConfig, s: nat, n: nat): seq<nat> {
    match Load(cfg, s)
    case None => []
    case Some(bytes) =>
      match cfg.engine.decode(cfg.engine.open(bytes), n)
      case None => []
      case Some(rec) => [Max(1, StreamCount(rec))]
  }

  lemma RecordWidens(host: Option<string>, index: Index, rec: DecodedRecord)
    ensures Widens(SameRecord, RowsFor(Files, host, index, rec), RowsFor(Streams, host, index, rec),
                   [Max(1, StreamCount(rec))])
  {
    var few, many := RowsFor(Files, host, index, rec), RowsFor(Streams, host, index, rec);
    var k := Max(1, StreamCount(rec));
    assert |many| == k;
    forall i | 0 <= i < k ensures SameRecord(few[0], many[i]) {
    }
    assert few[1..] == [] && many[k..] == [] && [k][1..] == [];
  }

  /** How many rows the streams scan gives for each row of the files scan. */
  function AllWidths(cfg: ScanConfig): seq<nat> {
    WidthsFrom(InMode(cfg, Files), (s: nat, n: nat) => Widths(cfg, s, n), 0)
  }

  // The rows delivered are related likewise, when every source can be read.
  lemma StreamsRunWidensFilesRun(cfg: ScanConfig)
    requires AllLoad(PlanOf(cfg))
    ensures Widens(SameRecord, Concat(Batches(InMode(cfg, Files), START)),
                   Concat(Batches(InMode(cfg, Streams), START)), AllWidths(cfg))
  {
    StreamsWidenFiles(cfg);
    DeliversAll(cfg, Files);
    DeliversAll(cfg, Streams);
  }

  // The streams pass is the files pass with each row widened, in order, to one
  // row per stream of its record, or a single row if it has none.
  lemma StreamsWidenFiles(cfg: ScanConfig)
    ensures Widens(SameRecord, AllRows(InMode(cfg, Files)), AllRows(InMode(cfg, Streams)),
                   AllWidths(cfg))
  {
    var files, streams := InMode(cfg, Files), InMode(cfg, Streams);
    var widths := (s: nat, n: nat) => Widths(cfg, s, n);
    forall s: nat, n: nat
      ensures Widens(SameRecord, files.rowsAt(s, n), streams.rowsAt(s, n), widths(s, n))
    {
      if Widths(cfg, s, n) != [] {
        var bytes := Load(cfg, s).value;
        var rec := cfg.engine.decode(cfg.engine.open(bytes), n).value;
        RecordWidens(HostLabel(cfg, s), cfg.engine.index(bytes), rec);
      }
    }
    WidenedRuns(SameRecord, files, streams, widths, 0);
  }

  /** Every stream of a record in emission order, the primary first. */
  function StreamsOf(rec: DecodedRecord): seq<DataStream> {
    (if rec.data.primary.Some? then [rec.data.primary.value] else []) + rec.data.ads
  }

  /** The row's stream-level columns are those of `s`, under `name`. */
  predicate ShowsStream(row: EmitRow, s: DataStream, name: Option<string>) {
    && row.adsName == name && row.residentData == s.data
    && row.logicalSize == s.logicalSize && row.physicalSize == s.physicalSize
  }

  predicate ShowsNoStream(row: EmitRow) {
    row.adsName.None? && row.residentData.None? && row.logicalSize == 0 && row.physicalSize == 0
  }

  lemma RecordRowShowsStream(host: Option<string>, index: Index, rec: DecodedRecord)
    ensures rec.data.primary.Some? ==> ShowsStream(RecordRow(host, index, rec), rec.data.primary.value, None)
    ensures rec.data.primary.None? ==> ShowsNoStream(RecordRow(host, index, rec))
  {
  }

  lemma StreamRowShows(host: Option<string>, index: Index, rec: DecodedRecord, i: nat)
    requires i < |StreamsOf(rec)|
    ensures var rows, streams := RowsFor(Streams, host, index, rec), StreamsOf(rec);
            && |rows| == |streams|
            && ShowsStream(rows[i], streams[i], if rec.data.primary.Some? && i == 0 then None else streams[i].name)
  {
    var first := if rec.data.primary.Some? then 1 else 0;
    RecordRowShowsStream(host, index, rec);
    if first <= i {
      assert RowsFor(Streams, host, index, rec)[i] == AdsRows(host, index, rec, rec.data.ads)[i - first];
    } else {
      assert RowsFor(Streams, host, index, rec)[i] == RecordRow(host, index, rec);
    }
  }

  // In streams mode row `i` is stream `i`, named unless it is the primary; in
  // the other modes the one row shows the primary stream.
  lemma RowsShowStreams(host: Option<string>, index: Index, rec: DecodedRecord)
    ensures var rows, streams := RowsFor(Streams, host, index, rec), StreamsOf(rec);
            && (streams == [] ==> |rows| == 1 && ShowsNoStream(rows[0]))
            && (streams != [] ==> |rows| == |streams| && forall i :: 0 <= i < |rows| ==>
                  ShowsStream(rows[i], streams[i], if rec.data.primary.Some? && i == 0 then None else streams[i].name))
    ensures var rows := RowsFor(Files, host, index, rec);
            && |rows| == 1
            && (rec.data.primary.Some? ==> ShowsStream(rows[0], rec.data.primary.value, None))
            && (rec.data.primary.None? ==> ShowsNoStream(rows[0]))
    ensures RowsFor(Allocated, host, index, rec) == if rec.inUse then RowsFor(Files, host, index, rec) else []
  {
    RecordRowShowsStream(host, index, rec);
    var rows, streams := RowsFor(Streams, host, index, rec), StreamsOf(rec);
    if streams != [] {
      forall i | 0 <= i < |streams|
        ensures |rows| == |streams|
        ensures ShowsStream(rows[i], streams[i], if rec.data.primary.Some? && i == 0 then None else streams[i].name)
      {
        StreamRowShows(host, index, rec, i);
      }
      assert |rows| == |streams| by {
        StreamRowShows(host, index, rec, 0);
      }
    }
  }

  // Outside streams mode every batch but the last holds exactly 2048 rows.
  lemma FilesBatchesExactlyFull(cfg: ScanConfig)
    requires cfg.mode != Streams
    ensures var batches := Batches(PlanOf(cfg), START);
            forall i :: 0 <= i < |batches| - 1 ==> |batches[i]| == 2048
  {
    SingleRowBatches(PlanOf(cfg));
  }

  // ------------------------------------------------------------ source isolation

  /** The record's own diagnostics, comma-joined, then the path's. */
  function WithPathDiagnostic(diagnostics: seq<string>, pathDiagnostic: Option<string>): Option<string> {
    if diagnostics == [] then pathDiagnostic
    else if pathDiagnostic.None? then Some(Join(",", diagnostics))
    else Some(Join(",", diagnostics) + "," + pathDiagnostic.value)
  }

  /** The row's record-level columns are those of `rec`, its path the one that
      `index` gives. */
  predicate ShowsRecord(row: EmitRow, host: Option<string>, index: Index, rec: DecodedRecord) {
    var resolved := Resolved(index, rec.entry, 256);
    && row.host == host && row.entry == rec.entry && row.sequence == rec.sequence
    && row.isDir == rec.isDir && row.isAllocated == rec.inUse && row.hardLinkCount == rec.hardLinkCount
    && row.fullPath == Some(resolved.path)
    && row.diagnostics == WithPathDiagnostic(rec.diagnostics, resolved.diagnostic)
    && (match rec.standardInfo
        case None => row.si == NO_TIMES && row.dosAttributes == 0
        case Some(si) => row.si == si.macb && row.dosAttributes == si.dosAttributes)
    && (match PrimaryName(rec)
        case None => row.parentEntry.None? && row.fileName.None? && row.fna == NO_TIMES
        case Some(f) => row.parentEntry == Some(f.parentEntry) && row.fileName == Some(f.name) && row.fna == f.macb)
  }

  lemma BaseRowShowsRecord(host: Option<string>, index: Index, rec: DecodedRecord, adsName: Option<string>,
                           data: Option<Buffer>, logicalSize: nat, physicalSize: nat)
    ensures ShowsRecord(BaseRow(host, index, rec, adsName, data, logicalSize, physicalSize), host, index, rec)
  {
    var d := PathOf(index, rec).diagnostic;
    if d.Some? && rec.diagnostics != [] {
      JoinSnoc(",", rec.diagnostics, d.value);
    }
    assert rec.diagnostics + [] == rec.diagnostics;
  }

  lemma RecordRowShowsRecord(host: Option<string>, index: Index, rec: DecodedRecord)
    ensures ShowsRecord(RecordRow(host, index, rec), host, index, rec)
  {
    match rec.data.primary
    case Some(p) => BaseRowShowsRecord(host, index, rec, None, p.data, p.logicalSize, p.physicalSize);
    case None => BaseRowShowsRecord(host, index, rec, None, None, 0, 0);
  }

  lemma AdsRowShowsRecord(host: Option<string>, index: Index, rec: DecodedRecord, i: nat)
    requires i < |rec.data.ads|
    ensures ShowsRecord(AdsRows(host, index, rec, rec.data.ads)[i], host, index, rec)
  {
    var s := rec.data.ads[i];
    BaseRowShowsRecord(host, index, rec, s.name, s.data, s.logicalSize, s.physicalSize);
  }

  lemma RowsShowRecord(mode: Mode, host: Option<string>, index: Index, rec: DecodedRecord, i: nat)
    requires i < |RowsFor(mode, host, index, rec)|
    ensures ShowsRecord(RowsFor(mode, host, index, rec)[i], host, index, rec)
  {
    var rows, ads := RowsFor(mode, host, index, rec), AdsRows(host, index, rec, rec.data.ads);
    var first := |rows| - |ads|;
    if mode != Streams || i < first {
      RecordRowShowsRecord(host, index, rec);
      assert rows[i] == RecordRow(host, index, rec);
    } else {
      AdsRowShowsRecord(host, index, rec, i - first);
      assert rows[i] == ads[i - first];
    }
  }

  /** The bytes a source stands for: its own, or what the disk has at its path. */
  predicate StandsFor(cfg: ScanConfig, s: nat, bytes: Buffer)
    requires s < |cfg.sources|
  {
    match cfg.sources[s]
    case File(path) => cfg.disk(path) == Some(bytes)
    case Blob(own) => own == bytes
  }

  // Every row of a run is some entry of some source: it shows that entry's
  // record under that source's host, with the very path that resolving the
  // entry in that source's image alone would give.
  lemma RowOrigin(crate: Crate, cfg: ScanConfig, i: nat) returns (s: nat, n: nat, bytes: Buffer)
    requires cfg.engine == CoreEngine(crate)
    requires i < |AllRows(PlanOf(cfg))|
    ensures s < |cfg.sources| && StandsFor(cfg, s, bytes) && n < EntryCount(bytes)
    ensures var row, rec := AllRows(PlanOf(cfg))[i], Decode(crate, Open(bytes, 1024 * 1024), n);
            && rec.Some? && row.entry == n
            && row.host == (if cfg.host.Some? then cfg.host
                            else if cfg.sources[s].File? then Some(cfg.sources[s].path) else None)
            && ShowsRecord(row, row.host, IndexOf(crate, bytes), rec.value)
            && (FullPath(crate, bytes, n, 256).Some? ==> row.fullPath == FullPath(crate, bytes, n, 256))
  {
    s, n := RowFrom(PlanOf(cfg), 0, i);
    bytes := Load(cfg, s).value;
    var rec := Decode(crate, Open(bytes, 1024 * 1024), n).value;
    var rows := RowsFor(cfg.mode, HostLabel(cfg, s), IndexOf(crate, bytes), rec);
    var k :| 0 <= k < |rows| && rows[k] == AllRows(PlanOf(cfg))[i];
    RowsShowRecord(cfg.mode, HostLabel(cfg, s), IndexOf(crate, bytes), rec, k);
  }

  /** The rows of one image: entry after entry, those of its record. */
  function ImageRows(crate: Crate, mode: Mode, host: Option<string>, bytes: Buffer): seq<EmitRow> {
    Concat(seq(EntryCount(bytes), n requires 0 <= n < EntryCount(bytes) =>
      match Decode(crate, Open(bytes, 1024 * 1024), n)
      case None => []
      case Some(rec) => RowsFor(mode, host, IndexOf(crate, bytes), rec)))
  }

  // The nested pass, from the sources' bytes: image after image, and nothing for
  // a file that is not there.
  lemma PassByBytes(crate: Crate, cfg: ScanConfig)
    requires cfg.engine == CoreEngine(crate)
    ensures AllRows(PlanOf(cfg)) == Concat(seq(|cfg.sources|, s requires 0 <= s < |cfg.sources| =>
              match cfg.sources[s]
              case Blob(bytes) => ImageRows(crate, cfg.mode, cfg.host, bytes)
              case File(path) =>
                if cfg.disk(path).None? then []
                else ImageRows(crate, cfg.mode, if cfg.host.Some? then cfg.host else Some(path), cfg.disk(path).value)))
  {
    var parts := seq(|cfg.sources|, s requires 0 <= s < |cfg.sources| =>
              match cfg.sources[s]
              case Blob(bytes) => ImageRows(crate, cfg.mode, cfg.host, bytes)
              case File(path) =>
                if cfg.disk(path).None? then []
                else ImageRows(crate, cfg.mode, if cfg.host.Some? then cfg.host else Some(path), cfg.disk(path).value));
    forall t: nat | t < |parts| ensures parts[t] == SourceRows(PlanOf(cfg), t, 0) {
      if Load(cfg, t).Some? {
        SourceByBytes(crate, cfg, t, Load(cfg, t).value);
      }
    }
    ScanSplits(PlanOf(cfg), parts, 0);
    assert parts[0..] == parts;
  }

  lemma SourceByBytes(crate: Crate, cfg: ScanConfig, s: nat, bytes: Buffer)
    requires cfg.engine == CoreEngine(crate) && Load(cfg, s) == Some(bytes)
    ensures SourceRows(PlanOf(cfg), s, 0) == ImageRows(crate, cfg.mode, HostLabel(cfg, s), bytes)
  {
    var groups := seq(EntryCount(bytes), n requires 0 <= n < EntryCount(bytes) =>
      match Decode(crate, Open(bytes, 1024 * 1024), n)
      case None => []
      case Some(rec) => RowsFor(cfg.mode, HostLabel(cfg, s), IndexOf(crate, bytes), rec));
    forall n: nat | n < |groups| ensures groups[n] == PlanOf(cfg).rowsAt(s, n) {
    }
    SourceSplits(PlanOf(cfg), groups, s, 0);
    assert groups[0..] == groups;
  }

  // When the host is given, a run over files is the run over blobs of what the
  // files hold.
  lemma FilesAsBlobs(cfg: ScanConfig)
    requires cfg.host.Some?
    ensures var blobs := cfg.(sources := seq(|cfg.sources|, s requires 0 <= s < |cfg.sources| =>
              match cfg.sources[s]
              case Blob(bytes) => Blob(bytes)
              case File(path) => if cfg.disk(path).Some? then Blob(cfg.disk(path).value) else File(path)));
            && AllRows(PlanOf(blobs)) == AllRows(PlanOf(cfg))
            && Batches(PlanOf(blobs), START) == Batches(PlanOf(cfg), START)
            && EndingOf(PlanOf(blobs), START) == EndingOf(PlanOf(cfg), START)
  {
    var blobs := cfg.(sources := seq(|cfg.sources|, s requires 0 <= s < |cfg.sources| =>
              match cfg.sources[s]
              case Blob(bytes) => Blob(bytes)
              case File(path) => if cfg.disk(path).Some? then Blob(cfg.disk(path).value) else File(path)));
    forall s: nat ensures Load(blobs, s) == Load(cfg, s) {
    }
    SamePlanRuns(PlanOf(blobs), PlanOf(cfg), START);
    SamePlanRows(PlanOf(blobs), PlanOf(cfg), 0);
  }

  // A run finishes exactly when every file is there to be read.
  lemma FinishesIfFilesRead(cfg: ScanConfig)
    ensures EndingOf(PlanOf(cfg), START).Finished?
            <==> forall s :: 0 <= s < |cfg.sources| && cfg.sources[s].File? ==> cfg.disk(cfg.sources[s].path).Some?
  {
    FinishesExactly(PlanOf(cfg));
    LoadsIfFilesRead(cfg);
  }

  lemma LoadsIfFilesRead(cfg: ScanConfig)
    ensures AllLoad(PlanOf(cfg))
            <==> forall s :: 0 <= s < |cfg.sources| && cfg.sources[s].File? ==> cfg.disk(cfg.sources[s].path).Some?
  {
    forall s: nat | s < |cfg.sources|
      ensures PlanOf(cfg).loads(s) <==> cfg.sources[s].File? ==> cfg.disk(cfg.sources[s].path).Some?
    {
    }
  }

  function Alone(cfg: ScanConfig, s: nat): ScanConfig
    requires s < |cfg.sources|
  {
    cfg.(sources := [cfg.sources[s]])
  }

  // Scanning many sources is scanning each one alone, in order: no row depends
  // on any source but its own.
  lemma SourcesScanAlone(cfg: ScanConfig)
    ensures AllRows(PlanOf(cfg))
            == Concat(seq(|cfg.sources|, s requires 0 <= s < |cfg.sources| => AllRows(PlanOf(Alone(cfg, s)))))
  {
    var parts := seq(|cfg.sources|, s requires 0 <= s < |cfg.sources| => AllRows(PlanOf(Alone(cfg, s))));
    forall t: nat | t < |parts| ensures parts[t] == SourceRows(PlanOf(cfg), t, 0) {
      AloneScansItsSource(cfg, t);
    }
    ScanSplits(PlanOf(cfg), parts, 0);
    assert parts[0..] == parts;
  }

  lemma AloneScansItsSource(cfg: ScanConfig, s: nat)
    requires s < |cfg.sources|
    ensures AllRows(PlanOf(Alone(cfg, s))) == SourceRows(PlanOf(cfg), s, 0)
  {
    var alone := PlanOf(Alone(cfg, s));
    assert Load(Alone(cfg, s), 0) == Load(cfg, s);
    SameSourceRows(alone, 0, PlanOf(cfg), s, 0);
    assert RowsFrom(alone, 1) == [];
    assert AllRows(alone) == SourceRows(alone, 0, 0) + RowsFrom(alone, 1);
  }
}
