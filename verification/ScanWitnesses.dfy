// Scans over built images on which a resume or an unreadable source costs rows:
// rows given twice, rows lost, rows under another index's paths.
module ScanWitnesses {
  import opened Common
  import opened Bytes
  import opened Record
  import opened Resolver
  import opened MftCore
  import opened ScanState
  import opened Batching
  import opened ReadMft
  import opened ReadMftRuns
  import Reader
  import Witnesses

  /** Scan the sources in files mode, with no file on disk. */
  function ScanOf(crate: Crate, sources: seq<SourceRef>): ScanConfig {
    ScanConfig(CoreEngine(crate), (path: string) => None, sources, None, Files)
  }

  /** The image is one entry that decodes to a file in the root, called `name`. */
  ghost predicate HoldsOneFile(crate: Crate, image: Buffer, name: string) {
    var rec := Decode(crate, Open(image, RESIDENT_CAP), 0);
    && EntryCount(image) == 1 && rec.Some?
    && FullPath(crate, image, 0, DEFAULT_MAX_DEPTH) == Some(name)
  }

  lemma OneFileHolds(crate: Crate, conv: Reader.Conventions, d: Witnesses.Details, x: byte)
    requires Reader.Faithful(crate, conv) && d.Fit() && d.InRoot() && d.Reads(conv, x)
    ensures HoldsOneFile(crate, Witnesses.OneFile(d, x), conv.text([x]))
  {
    Witnesses.OneFileDecodes(crate, conv, d, x);
    Witnesses.OneFilePath(crate, conv, d, x);
  }

  // Such a source gives one row, under the file's path.
  lemma OneFileRows(crate: Crate, image: Buffer, name: string, sources: seq<SourceRef>, s: nat)
    requires HoldsOneFile(crate, image, name) && s < |sources| && sources[s] == Blob(image)
    ensures var rows := SourceRows(PlanOf(ScanOf(crate, sources)), s, 0);
            |rows| == 1 && rows[0].entry == 0 && rows[0].fullPath == Some(name)
  {
    var plan := PlanOf(ScanOf(crate, sources));
    assert SourceRows(plan, s, 1) == [];
    assert SourceRows(plan, s, 0) == plan.rowsAt(s, 0) + SourceRows(plan, s, 1);
  }

  // --------------------------------------------------- a batch delivered twice

  lemma {:induction false} OneRowEach<R>(plan: Plan<R>, s: nat)
    requires s <= plan.sources && forall t: nat :: t < plan.sources ==> |SourceRows(plan, t, 0)| == 1
    ensures |RowsFrom(plan, s)| == plan.sources - s
    decreases plan.sources - s
  {
    if s < plan.sources {
      OneRowEach(plan, s + 1);
    }
  }

  // A scan of more rows than a batch holds is under way after its first batch.
  lemma FirstBatchLeavesRest<R>(plan: Plan<R>)
    requires AllLoad(plan) && FanOut(plan, 1) && BATCH_ROWS < |AllRows(plan)|
    ensures var fill := FillFrom(plan, [], START);
            |fill.rows| == BATCH_ROWS && |Rest(plan, fill.at)| == |AllRows(plan)| - BATCH_ROWS
  {
    var fill := FillFrom(plan, [], START);
    FillConserves(plan, [], START);
    FillBound(plan, [], START, 1);
    FillProgress(plan, [], START);
    FillLoads(plan, [], START);
    assert Rest(plan, START) == AllRows(plan);
  }

  /** The same image, so many times over. */
  function Copies(image: Buffer, count: nat): (sources: seq<SourceRef>)
    ensures |sources| == count && forall s :: 0 <= s < count ==> sources[s] == Blob(image)
  {
    seq(count, i => Blob(image))
  }

  lemma OneRowPerCopy(crate: Crate, image: Buffer, name: string, count: nat)
    requires HoldsOneFile(crate, image, name)
    ensures AllLoad(PlanOf(ScanOf(crate, Copies(image, count))))
    ensures |AllRows(PlanOf(ScanOf(crate, Copies(image, count))))| == count
  {
    var plan := PlanOf(ScanOf(crate, Copies(image, count)));
    forall t: nat | t < plan.sources ensures |SourceRows(plan, t, 0)| == 1 {
      OneFileRows(crate, image, name, Copies(image, count), t);
    }
    OneRowEach(plan, 0);
  }

  // More rows than one batch holds, and a snapshot after the first batch that
  // encodes what was just restored: though rows are left to scan, the 2048
  // already delivered are delivered again.
  method FirstBatchTwice(crate: Crate, image: Buffer, ghost name: string, count: nat)
    returns (batches: seq<seq<EmitRow>>)
    requires HoldsOneFile(crate, image, name) && BATCH_ROWS < count
    ensures var plan := PlanOf(ScanOf(crate, Copies(image, count)));
            var first := FillFrom(plan, [], START);
            && |AllRows(plan)| == count && |first.rows| == BATCH_ROWS && |Rest(plan, first.at)| == count - BATCH_ROWS
            && Concat(batches) == first.rows + AllRows(plan) && |Concat(batches)| == count + BATCH_ROWS
  {
    CoreEngineSound(crate);
    OneRowPerCopy(crate, image, name, count);
    FirstBatchLeavesRest(PlanOf(ScanOf(crate, Copies(image, count))));
    batches := ForgetAfterFirstBatch(ScanOf(crate, Copies(image, count)));
  }

  // ------------------------------------------------------------- a row lost

  // One readable image, then a file that cannot be read: nothing is delivered,
  // and the image's row is dropped.
  lemma RowLost(crate: Crate, image: Buffer, name: string, path: string)
    requires HoldsOneFile(crate, image, name)
    ensures var plan := PlanOf(ScanOf(crate, [Blob(image), File(path)]));
            var dropped := Dropped(EndingOf(plan, START));
            && Batches(plan, START) == [] && EndingOf(plan, START).Failed?
            && |dropped| == 1 && dropped[0].fullPath == Some(name)
  {
    var sources := [Blob(image), File(path)];
    var plan := PlanOf(ScanOf(crate, sources));
    OneFileRows(crate, image, name, sources, 0);
    assert !plan.loads(1) && plan.loads(0);
    assert FirstUnreadable(plan, 0, 1);
    FailedRun(plan, START, 1);
    var rows := SourceRows(plan, 0, 0);
    assert Between(plan, START, 1) == rows + Between(plan, Position(1, 0), 1) == rows;
    FullBatchesFill(Batches(plan, START));
  }

  lemma FullBatchesFill<R>(batches: seq<seq<R>>)
    requires forall i :: 0 <= i < |batches| ==> BATCH_ROWS <= |batches[i]|
    ensures batches != [] ==> BATCH_ROWS <= |Concat(batches)|
  {
  }

  // ------------------------------------------- a cursor that leaves 64 bits

  // A token with a far cursor, restored to a source that cannot be read: the
  // call fails, and the next snapshot multiplies the cursor by 1024 past 64 bits.
  // The source's multiplication overflows there; this model's is unbounded.
  method FarCursorOverflows(crate: Crate, path: string) returns (token: Token)
    ensures FromBytes(token).cursor.byteOffset >= U64
  {
    CoreEngineSound(crate);
    var cfg := ScanOf(crate, [File(path)]);
    var far := DEFAULT_STATE.(cursor := MftCursor("", 0x1000_0000_0000_0000, 0), recordSize := 1);
    OwnPlanFollows(cfg, 0);
    ModIs(0x1000_0000_0000_0000, 0x1000_0000_0000_0000, 0, 1);
    var p := new ReadMftProducer(cfg);
    p.RestoreResume(ToBytes(far));
    ghost var plan := PlanOf(cfg);
    assert FillFrom(plan, [], p.Here()) == LoadFailed([], p.Here());
    var r := p.Produce(plan);
    token := p.EncodeResume();
  }

  // ------------------------------------------------ rows under a foreign index

  // The row of a source scanned under a carried index has the path that index
  // gives, whatever the image says.
  lemma CarriedIndexRules(crate: Crate, image: Buffer, name: string, carried: Index)
    requires HoldsOneFile(crate, image, name)
    ensures var plan := PlanCarrying(ScanOf(crate, [Blob(image)]), 0, carried);
            && AllLoad(plan) && plan.sources == 1 && plan.count(0) == 1
            && |AllRows(plan)| == 1
            && AllRows(plan)[0].fullPath
               == Some(if carried == map[] then name else Resolved(carried, 0, DEFAULT_MAX_DEPTH).path)
  {
    var plan := PlanCarrying(ScanOf(crate, [Blob(image)]), 0, carried);
    OnlySource(plan);
    assert SourceRows(plan, 0, 1) == [];
    assert SourceRows(plan, 0, 0) == plan.rowsAt(0, 0) + SourceRows(plan, 0, 1);
  }

  lemma OnlySource<R>(plan: Plan<R>)
    requires plan.sources == 1
    ensures AllRows(plan) == SourceRows(plan, 0, 0)
  {
    assert RowsFrom(plan, 1) == [];
    assert RowsFrom(plan, 0) == SourceRows(plan, 0, 0) + RowsFrom(plan, 1);
  }

  // ------------------------------------------------- which indexes are harmless

  /** Resuming under the state's index gives the scan's own batches. */
  ghost predicate IndexHarmless(cfg: ScanConfig, state: MftScanState) {
    Batches(PlanCarrying(cfg, state.sourceIndex, state.resolver), PlaceOf(state))
    == Batches(PlanOf(cfg), PlaceOf(state))
  }

  /** A decoder to which every byte is a record of entry 0, called `name`. */
  function ByteEngine(name: string): Engine {
    Engine((b: Buffer) => Decoder(b, |b|, 1, 0), (d: Decoder, n: nat) => Some(DiagnosticRecord(0, "")),
           (b: Buffer) => map[0 := ResolverNode(name, ROOT_ENTRY, 0, false, 0)])
  }

  /** A scan whose last entry is at the given place. */
  function ScanUpTo(name: string, place: Position): ScanConfig {
    ScanConfig(ByteEngine(name), (path: string) => None,
               seq(place.source + 1, i => Blob(seq(place.entry + 1, j => 0))), None, Files)
  }

  lemma ByteEngineSound(name: string)
    ensures EngineSound(ByteEngine(name))
  {
    forall b: Buffer ensures ByteEngine(name).index(b) != map[] {
      assert 0 in ByteEngine(name).index(b);
    }
  }

  // A byte scanned under an index gives one row, with the path of entry 0 in it.
  lemma ByteRow(cfg: ScanConfig, name: string, s: nat, n: nat, index: Index)
    requires cfg.engine == ByteEngine(name) && cfg.mode == Files && Load(cfg, s).Some?
    ensures var rows := RowsVia(cfg, s, n, index);
            |rows| == 1 && rows[0].fullPath == Some(Resolved(index, 0, DEFAULT_MAX_DEPTH).path)
  {
  }

  lemma LastRest<R>(plan: Plan<R>, place: Position)
    requires plan.sources == place.source + 1 && plan.count(place.source) == place.entry + 1
    ensures Rest(plan, place) == plan.rowsAt(place.source, place.entry)
  {
    assert RowsFrom(plan, place.source + 1) == [];
    assert SourceRows(plan, place.source, place.entry + 1) == [];
    assert SourceRows(plan, place.source, place.entry)
        == plan.rowsAt(place.source, place.entry) + SourceRows(plan, place.source, place.entry + 1);
  }

  // At its last entry, that scan has one row left, with the path of entry 0 in
  // the index in force.
  lemma LastRow(name: string, place: Position, carried: Index)
    ensures var plan := PlanCarrying(ScanUpTo(name, place), place.source, carried);
            && AllLoad(plan) && |Rest(plan, place)| == 1
            && Rest(plan, place)[0].fullPath
               == Some(if carried == map[] then name else Resolved(carried, 0, DEFAULT_MAX_DEPTH).path)
  {
    var cfg := ScanUpTo(name, place);
    assert Load(cfg, place.source) == Some(seq(place.entry + 1, j => 0));
    var inForce := InForce(cfg, place.source, carried);
    LastRest(PlanCarrying(cfg, place.source, carried), place);
    ByteRow(cfg, name, place.source, place.entry, inForce);
    if carried == map[] {
      SingleNamePath(inForce, 0, DEFAULT_MAX_DEPTH);
    }
  }

  // A token's index does no harm, wherever the token stands, in a given scan if
  // it is its source's own, and in every scan exactly if there is none.
  lemma IndexHarmlessExactly(state: MftScanState)
    ensures forall cfg: ScanConfig :: CarriesOwn(cfg, state) ==> IndexHarmless(cfg, state)
    ensures (forall cfg: ScanConfig :: EngineSound(cfg.engine) ==> IndexHarmless(cfg, state))
            <==> state.resolver == map[]
  {
    forall cfg: ScanConfig | CarriesOwn(cfg, state) ensures IndexHarmless(cfg, state) {
      OwnTokenResumes(cfg, state);
    }
    if state.resolver != map[] {
      var path := Resolved(state.resolver, 0, DEFAULT_MAX_DEPTH).path;
      ForeignIndexHarms(state, if path == "a" then "b" else "a");
    }
  }

  lemma ForeignIndexHarms(state: MftScanState, name: string)
    requires state.resolver != map[] && Resolved(state.resolver, 0, DEFAULT_MAX_DEPTH).path != name
    ensures EngineSound(ScanUpTo(name, PlaceOf(state)).engine)
    ensures !IndexHarmless(ScanUpTo(name, PlaceOf(state)), state)
  {
    var place, cfg := PlaceOf(state), ScanUpTo(name, PlaceOf(state));
    ByteEngineSound(name);
    LastRow(name, place, state.resolver);
    LastRow(name, place, map[]);
    var foreign, own := PlanCarrying(cfg, place.source, state.resolver), PlanCarrying(cfg, place.source, map[]);
    BatchesAreTheRest(foreign, place);
    BatchesAreTheRest(own, place);
    SamePlanRuns(own, PlanOf(cfg), place);
  }

  // --------------------------------------------- which tokens a restart replaces

  /** Resuming from either state gives the same batches and counts on alike. */
  ghost predicate RunsAlike(cfg: ScanConfig, a: MftScanState, b: MftScanState) {
    && a.cursor.recordsEmitted == b.cursor.recordsEmitted
    && Batches(PlanCarrying(cfg, a.sourceIndex, a.resolver), PlaceOf(a))
       == Batches(PlanCarrying(cfg, b.sourceIndex, b.resolver), PlaceOf(b))
  }

  // On a one-file scan, a state that runs like a new scan is at the start and
  // its index, if it has one, gives the file the file's own path.
  lemma RunsAsNew(crate: Crate, image: Buffer, name: string, state: MftScanState)
    requires HoldsOneFile(crate, image, name)
    requires RunsAlike(ScanOf(crate, [Blob(image)]), state, DEFAULT_STATE)
    ensures PlaceOf(state) == START && state.cursor.recordsEmitted == 0
    ensures state.resolver != map[] ==> Resolved(state.resolver, 0, DEFAULT_MAX_DEPTH).path == name
  {
    var cfg := ScanOf(crate, [Blob(image)]);
    var anew, plan := PlanCarrying(cfg, 0, map[]), PlanCarrying(cfg, state.sourceIndex, state.resolver);
    MalformedTokenRestarts(cfg);
    CarriedIndexRules(crate, image, name, map[]);
    CarriedIndexRules(crate, image, name, state.resolver);
    BatchesAreTheRest(anew, START);
    BatchesAreTheRest(plan, PlaceOf(state));
    assert Rest(anew, START) == AllRows(anew);
    assert RowsFrom(plan, 1) == [];
    if state.sourceIndex == 0 && state.NextEntry() == 0 {
      assert Rest(plan, START) == AllRows(plan);
    }
  }

  // Encoding straight after a restore replaces the token by a new scan's. In
  // every scan that changes nothing exactly for a token at the start that has
  // counted nothing and carries no index.
  lemma ForgettingHarmlessExactly(state: MftScanState)
    ensures (forall cfg: ScanConfig :: EngineSound(cfg.engine) ==> RunsAlike(cfg, state, DEFAULT_STATE))
            <==> PlaceOf(state) == START && state.cursor.recordsEmitted == 0 && state.resolver == map[]
  {
    ModIs(0, 0, 0, 1024);
    if forall cfg: ScanConfig :: EngineSound(cfg.engine) ==> RunsAlike(cfg, state, DEFAULT_STATE) {
      var crate, a, b := TwoNames();
      CoreEngineSound(crate);
      assert RunsAlike(ScanOf(crate, [Blob(a)]), state, DEFAULT_STATE);
      assert RunsAlike(ScanOf(crate, [Blob(b)]), state, DEFAULT_STATE);
      RunsAsNew(crate, a, "a", state);
      RunsAsNew(crate, b, "b", state);
    }
  }

  // Two images, each of one file, and the files' names differ.
  lemma TwoNames() returns (crate: Crate, a: Buffer, b: Buffer)
    ensures HoldsOneFile(crate, a, "a") && HoldsOneFile(crate, b, "b")
  {
    var conv, d;
    crate, conv, d := Witnesses.AsciiCrate();
    a, b := Witnesses.OneFile(d, 0x61), Witnesses.OneFile(d, 0x62);
    assert conv.text([0x61]) == "a" && conv.text([0x62]) == "b";
    OneFileHolds(crate, conv, d, 0x61);
    OneFileHolds(crate, conv, d, 0x62);
  }
}
