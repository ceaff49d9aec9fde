// The streaming producer of crates/mft-worker/src/table/read_mft.rs: batches of
// timeline rows over a list of sources, resumable between batches.
module ReadMft {
  import opened Common
  import opened Bytes
  import opened Record
  import opened Resolver
  import opened MftCore
  import opened ScanState
  import opened Batching

  datatype Mode = Files | Streams | Allocated

  datatype SourceRef = File(path: string) | Blob(bytes: Buffer) {
    function Label(): string {
      match this
      case File(path) => path
      case Blob(_) => "<blob>"
    }
  }

  /** The decoder as the producer uses it: opening an image, decoding an entry
      of it, and the index `build_resolver` makes of it. */
  datatype Engine = Engine(
    open: Buffer -> Decoder, decode: (Decoder, nat) -> Option<DecodedRecord>, index: Buffer -> Index)

  /** All the producer relies on: indexes are never empty, and an image holds
      its counted records. */
  ghost predicate EngineSound(engine: Engine) {
    && (forall b :: engine.index(b) != map[])
    && (forall b :: 0 < engine.open(b).recordSize
                    && engine.open(b).entryCount * engine.open(b).recordSize <= |b|)
  }

  function CoreEngine(crate: Crate): Engine {
    Engine((b: Buffer) => Open(b, RESIDENT_CAP), (d: Decoder, n: nat) => Decode(crate, d, n),
           (b: Buffer) => IndexOf(crate, b))
  }

  lemma CoreEngineSound(crate: Crate)
    ensures EngineSound(CoreEngine(crate))
  {
    forall b: Buffer
      ensures 0 < Open(b, RESIDENT_CAP).recordSize
      ensures Open(b, RESIDENT_CAP).entryCount * Open(b, RESIDENT_CAP).recordSize <= |b|
    {
      OffsetInverts(b, EntryCount(b));
    }
    forall b: Buffer
      ensures IndexOf(crate, b) != map[]
    {
      assert ROOT_ENTRY in IndexOf(crate, b);
    }
  }

  /** What a scan is over. `disk` is the content of each readable file. */
  datatype ScanConfig = ScanConfig(
    engine: Engine, disk: string -> Option<Buffer>, sources: seq<SourceRef>, host: Option<string>, mode: Mode)

  datatype EmitRow = EmitRow(
    host: Option<string>, entry: nat, sequence: nat, parentEntry: Option<nat>, fullPath: Option<string>,
    fileName: Option<string>, isDir: bool, isAllocated: bool, si: Macb, fna: Macb, logicalSize: nat,
    physicalSize: nat, hardLinkCount: nat, dosAttributes: nat, adsName: Option<string>,
    residentData: Option<Buffer>, diagnostics: Option<string>)

  // ------------------------------------------------------ rows of one record

  function PathOf(index: Index, rec: DecodedRecord): ResolvedPath {
    Resolved(index, rec.entry, DEFAULT_MAX_DEPTH)
  }

  /** The record-level columns, with the stream-level ones as given. */
  function BaseRow(host: Option<string>, index: Index, rec: DecodedRecord, adsName: Option<string>,
                   residentData: Option<Buffer>, logicalSize: nat, physicalSize: nat): EmitRow {
    var resolved := PathOf(index, rec);
    var diags := rec.diagnostics + if resolved.diagnostic.Some? then [resolved.diagnostic.value] else [];
    var primary := PrimaryName(rec);
    EmitRow(
      host, rec.entry, rec.sequence,
      if primary.Some? then Some(primary.value.parentEntry) else None,
      Some(resolved.path),
      if primary.Some? then Some(primary.value.name) else None,
      rec.isDir, rec.inUse,
      if rec.standardInfo.Some? then rec.standardInfo.value.macb else NO_TIMES,
      if primary.Some? then primary.value.macb else NO_TIMES,
      logicalSize, physicalSize, rec.hardLinkCount,
      if rec.standardInfo.Some? then rec.standardInfo.value.dosAttributes else 0,
      adsName, residentData,
      if diags == [] then None else Some(Join(",", diags)))
  }

  function StreamRow(host: Option<string>, index: Index, rec: DecodedRecord, s: DataStream,
                     name: Option<string>): EmitRow {
    BaseRow(host, index, rec, name, s.data, s.logicalSize, s.physicalSize)
  }

  /** One row per alternate stream. */
  function AdsRows(host: Option<string>, index: Index, rec: DecodedRecord, ads: seq<DataStream>): (rows: seq<EmitRow>)
    ensures |rows| == |ads|
  {
    seq(|ads|, i requires 0 <= i < |ads| => StreamRow(host, index, rec, ads[i], ads[i].name))
  }

  /** The record's own row: its primary stream, or none. */
  function RecordRow(host: Option<string>, index: Index, rec: DecodedRecord): EmitRow {
    match rec.data.primary
    case Some(p) => StreamRow(host, index, rec, p, None)
    case None => BaseRow(host, index, rec, None, None, 0, 0)
  }

  function RowsFor(mode: Mode, host: Option<string>, index: Index, rec: DecodedRecord): seq<EmitRow> {
    match mode
    case Files => [RecordRow(host, index, rec)]
    case Allocated => if rec.inUse then [RecordRow(host, index, rec)] else []
    case Streams =>
      if rec.data.primary.None? && rec.data.ads != [] then AdsRows(host, index, rec, rec.data.ads)
      else [RecordRow(host, index, rec)] + AdsRows(host, index, rec, rec.data.ads)
  }

  // ------------------------------------------------------------ the sources

  function Load(cfg: ScanConfig, s: nat): Option<Buffer> {
    if |cfg.sources| <= s then None
    else
      match cfg.sources[s]
      case File(path) => cfg.disk(path)
      case Blob(bytes) => Some(bytes)
  }

  function HostLabel(cfg: ScanConfig, s: nat): Option<string> {
    if cfg.host.Some? then cfg.host
    else if s < |cfg.sources| && cfg.sources[s].File? then Some(cfg.sources[s].path)
    else None
  }

  /** Entries of source `s`; none if it cannot be loaded. */
  function CountAt(cfg: ScanConfig, s: nat): nat {
    match Load(cfg, s)
    case Some(bytes) => cfg.engine.open(bytes).entryCount
    case None => 0
  }

  /** The rows of one entry, resolved against the given index. */
  function RowsVia(cfg: ScanConfig, s: nat, n: nat, index: Index): seq<EmitRow> {
    match Load(cfg, s)
    case None => []
    case Some(bytes) =>
      match cfg.engine.decode(cfg.engine.open(bytes), n)
      case None => []
      case Some(rec) => RowsFor(cfg.mode, HostLabel(cfg, s), index, rec)
  }

  /** The index of source `s` itself. */
  function OwnIndex(cfg: ScanConfig, s: nat): Index {
    match Load(cfg, s)
    case None => map[]
    case Some(bytes) => cfg.engine.index(bytes)
  }

  /** The rows of one entry, resolved against its own source's index. */
  function RowsAt(cfg: ScanConfig, s: nat, n: nat): seq<EmitRow> {
    RowsVia(cfg, s, n, OwnIndex(cfg, s))
  }

  /** The scan as a plan of sources, entries and rows. */
  function PlanOf(cfg: ScanConfig): Plan<EmitRow> {
    Plan(|cfg.sources|, (s: nat) => Load(cfg, s).Some?, (s: nat) => CountAt(cfg, s),
         (s: nat, n: nat) => RowsAt(cfg, s, n))
  }

  /** The index in force at source `s`: a carried one is not rebuilt. */
  function InForce(cfg: ScanConfig, s: nat, carried: Index): Index {
    if carried == map[] then OwnIndex(cfg, s) else carried
  }

  /** The plan as altered by an index carried into source `src`: that source's
      rows are resolved against it, and no other's. */
  function PlanCarrying(cfg: ScanConfig, src: nat, carried: Index): Plan<EmitRow> {
    PlanOf(cfg).(rowsAt := (s: nat, n: nat) =>
      if s == src then RowsVia(cfg, s, n, InForce(cfg, s, carried)) else RowsAt(cfg, s, n))
  }

  /** From source `src` on, with `carried` as its index so far, the scan follows
      `plan`. Rows are looked into only where they are mentioned. */
  ghost predicate Follows(plan: Plan<EmitRow>, cfg: ScanConfig, src: nat, carried: Index) {
    && plan.sources == |cfg.sources|
    && (forall s: nat :: plan.loads(s) == Load(cfg, s).Some?)
    && (forall s: nat :: plan.count(s) == CountAt(cfg, s))
    && (forall n: nat {:trigger RowsVia(cfg, src, n, InForce(cfg, src, carried))} ::
          plan.rowsAt(src, n) == RowsVia(cfg, src, n, InForce(cfg, src, carried)))
    && (forall s: nat, n: nat {:trigger RowsAt(cfg, s, n)} :: src < s ==> plan.rowsAt(s, n) == RowsAt(cfg, s, n))
  }

  lemma FollowsNext(plan: Plan<EmitRow>, cfg: ScanConfig, src: nat, carried: Index)
    requires Follows(plan, cfg, src, carried)
    ensures Follows(plan, cfg, src + 1, map[])
  {
    var next := src + 1;
    forall n: nat
      ensures plan.rowsAt(next, n) == RowsVia(cfg, next, n, InForce(cfg, next, map[]))
    {
      assert plan.rowsAt(next, n) == RowsAt(cfg, next, n);
    }
  }

  lemma OwnPlanFollows(cfg: ScanConfig, src: nat)
    ensures Follows(PlanOf(cfg), cfg, src, map[])
    ensures Follows(PlanOf(cfg), cfg, src, OwnIndex(cfg, src))
  {
  }

  lemma CarryingPlanFollows(cfg: ScanConfig, src: nat, carried: Index)
    ensures Follows(PlanCarrying(cfg, src, carried), cfg, src, carried)
  {
  }

  class ReadMftProducer {
    const cfg: ScanConfig
    var sourceIdx: nat
    var decoder: Option<Decoder>
    var resolver: Index
    var entryCursor: nat
    var recordsEmitted: nat
    var pendingResume: Option<MftScanState>

    // An open decoder is the current source's, and its resolver is built.
    ghost predicate Valid()
      reads this
    {
      && EngineSound(cfg.engine)
      && (decoder.Some? ==>
            && Load(cfg, sourceIdx).Some?
            && decoder.value == cfg.engine.open(Load(cfg, sourceIdx).value)
            && resolver != map[])
    }

    /** Where the next batch starts, a pending resume included. */
    ghost function Here(): Position
      reads this
    {
      match pendingResume
      case Some(state) => Position(state.sourceIndex, state.NextEntry())
      case None => Position(sourceIdx, entryCursor)
    }

    ghost function Emitted(): nat
      reads this
    {
      match pendingResume
      case Some(state) => state.cursor.recordsEmitted
      case None => recordsEmitted
    }

    /** The resolver the next batch starts with. */
    ghost function Carried(): Index
      reads this
    {
      match pendingResume
      case Some(state) => state.resolver
      case None => resolver
    }

    /** Whatever index is carried was built from the source it is carried into. */
    ghost predicate Own()
      reads this
    {
      Carried() == map[] || Carried() == OwnIndex(cfg, Here().source)
    }

    /** What is left of the scan is what `plan` has from here on. */
    ghost predicate On(plan: Plan<EmitRow>)
      reads this
    {
      Follows(plan, cfg, Here().source, Carried())
    }

    constructor (cfg: ScanConfig)
      requires EngineSound(cfg.engine)
      ensures Valid() && this.cfg == cfg && pendingResume.None? && On(PlanOf(cfg))
      ensures Here() == START && Emitted() == 0 && resolver == map[] && decoder.None? && Own() && Settled()
    {
      OwnPlanFollows(cfg, 0);
      this.cfg := cfg;
      sourceIdx, decoder, resolver := 0, None, map[];
      entryCursor, recordsEmitted, pendingResume := 0, 0, None;
    }

    // Open the current source; `Ok(false)` once all are exhausted.
    method EnsureOpen() returns (r: Result<bool, string>)
      requires Valid() && pendingResume.None?
      modifies this`decoder, this`resolver
      ensures Valid()
      ensures r.Err? <==> && sourceIdx < |cfg.sources| && cfg.sources[sourceIdx].File?
                          && cfg.disk(cfg.sources[sourceIdx].path).None?
      ensures r == Result.Ok(true) ==>
                && sourceIdx < |cfg.sources|
                && match cfg.sources[sourceIdx]
                   case Blob(bytes) => decoder == Some(cfg.engine.open(bytes))
                   case File(path) => cfg.disk(path).Some? && decoder == Some(cfg.engine.open(cfg.disk(path).value))
      ensures r.Ok? ==> (r.value <==> sourceIdx < |cfg.sources|)
      ensures decoder.Some? <==> r == Result.Ok(true)
      ensures r == Result.Ok(true) ==> resolver == InForce(cfg, sourceIdx, old(resolver))
      ensures r != Result.Ok(true) ==> resolver == old(resolver)
      ensures old(Own()) ==> Own()
    {
      if decoder.Some? {
        return Result.Ok(true);
      }
      if |cfg.sources| <= sourceIdx {
        return Result.Ok(false);
      }
      var bytes := Load(cfg, sourceIdx);
      if bytes.None? {
        return Err("read " + cfg.sources[sourceIdx].Label());
      }
      var dec := cfg.engine.open(bytes.value);
      if resolver == map[] {
        resolver := cfg.engine.index(bytes.value);
      }
      decoder := Some(dec);
      return Result.Ok(true);
    }

    method AdvanceSource(ghost plan: Plan<EmitRow>)
      requires Valid() && pendingResume.None? && sourceIdx < |cfg.sources| && On(plan)
      modifies this
      ensures Valid() && pendingResume.None? && On(plan) && decoder.None? && Own()
      ensures Here() == Position(old(sourceIdx) + 1, 0) && recordsEmitted == old(recordsEmitted)
    {
      FollowsNext(plan, cfg, sourceIdx, resolver);
      decoder := None;
      resolver := map[];
      entryCursor := 0;
      sourceIdx := sourceIdx + 1;
    }

    // Fan one record into rows, as the mode says.
    method Emit(rec: DecodedRecord, rows: seq<EmitRow>) returns (out: seq<EmitRow>)
      ensures out == rows + RowsFor(cfg.mode, HostLabel(cfg, sourceIdx), resolver, rec)
    {
      out := rows;
      if cfg.mode == Allocated && !rec.inUse {
        return;
      }
      var host := HostLabel(cfg, sourceIdx);
      match cfg.mode {
        case Streams =>
          var emitted := false;
          if rec.data.primary.Some? {
            out := out + [StreamRow(host, resolver, rec, rec.data.primary.value, None)];
            emitted := true;
          }
          ghost var before := out;
          for i := 0 to |rec.data.ads|
            invariant out == before + AdsRows(host, resolver, rec, rec.data.ads)[..i]
            invariant emitted <==> rec.data.primary.Some? || 0 < i
          {
            var a := rec.data.ads[i];
            out := out + [StreamRow(host, resolver, rec, a, a.name)];
            emitted := true;
          }
          if !emitted {
            out := out + [BaseRow(host, resolver, rec, None, None, 0, 0)];
          }
        case Files =>
          out := out + [RecordRow(host, resolver, rec)];
        case Allocated =>
          out := out + [RecordRow(host, resolver, rec)];
      }
    }

    // Decode the entry at the cursor and emit its rows.
    method DecodeOne(rows: seq<EmitRow>, ghost plan: Plan<EmitRow>) returns (out: seq<EmitRow>)
      requires Valid() && pendingResume.None? && decoder.Some? && On(plan)
      modifies this`entryCursor, this`recordsEmitted
      ensures Valid() && On(plan) && entryCursor == old(entryCursor) + 1 && (old(Own()) ==> Own())
      ensures out == rows + plan.rowsAt(sourceIdx, old(entryCursor))
      ensures recordsEmitted == old(recordsEmitted) + |out| - |rows|
    {
      out := rows;
      var n := entryCursor;
      entryCursor := entryCursor + 1;
      var decoded := cfg.engine.decode(decoder.value, n);
      if decoded.Some? {
        out := Emit(decoded.value, rows);
        recordsEmitted := recordsEmitted + (|out| - |rows|);
      }
      assert out == rows + RowsVia(cfg, sourceIdx, n, InForce(cfg, sourceIdx, resolver));
    }

    // One turn of the inner loop.
    method Step(rows: seq<EmitRow>, ghost plan: Plan<EmitRow>, ghost goal: Fill<EmitRow>) returns (out: seq<EmitRow>)
      requires Valid() && pendingResume.None? && decoder.Some? && On(plan)
      requires entryCursor < CountAt(cfg, sourceIdx) && |rows| < BATCH_ROWS
      requires FillFrom(plan, rows, Here()) == goal
      modifies this`entryCursor, this`recordsEmitted
      ensures Valid() && On(plan) && entryCursor == old(entryCursor) + 1 && (old(Own()) ==> Own())
      ensures FillFrom(plan, out, Settle(plan, sourceIdx, entryCursor)) == goal
      ensures recordsEmitted == old(recordsEmitted) + |out| - |rows|
    {
      FillStep(plan, rows, Here());
      out := DecodeOne(rows, plan);
    }

    // Decode a slab of entries of the open source, on the way to `goal`.
    method Slab(rows: seq<EmitRow>, count: nat, ghost plan: Plan<EmitRow>, ghost goal: Fill<EmitRow>)
      returns (out: seq<EmitRow>)
      requires Valid() && pendingResume.None? && decoder.Some? && On(plan)
      requires count == CountAt(cfg, sourceIdx) && entryCursor < count && |rows| < BATCH_ROWS
      requires FillFrom(plan, rows, Here()) == goal
      modifies this`entryCursor, this`recordsEmitted
      ensures Valid() && On(plan) && old(entryCursor) < entryCursor <= count && (old(Own()) ==> Own())
      ensures FillFrom(plan, out, Settle(plan, sourceIdx, entryCursor)) == goal
      ensures recordsEmitted == old(recordsEmitted) + |out| - |rows|
    {
      out := rows;
      while entryCursor < count && |out| < BATCH_ROWS
        invariant Valid() && On(plan) && old(entryCursor) <= entryCursor <= count && (old(Own()) ==> Own())
        invariant entryCursor == old(entryCursor) ==> out == rows
        invariant FillFrom(plan, out, Settle(plan, sourceIdx, entryCursor)) == goal
        invariant recordsEmitted == old(recordsEmitted) + |out| - |rows|
        decreases count - entryCursor
      {
        out := Step(out, plan, goal);
      }
    }

    // Take a slab of the open source, and move on once it is used up.
    method TakeSlab(rows: seq<EmitRow>, ghost plan: Plan<EmitRow>, ghost goal: Fill<EmitRow>)
      returns (out: seq<EmitRow>)
      requires Valid() && pendingResume.None? && decoder.Some? && |rows| < BATCH_ROWS && On(plan)
      requires FillFrom(plan, rows, Here()) == goal
      modifies this
      ensures Valid() && pendingResume.None? && On(plan) && Settled() && (old(Own()) ==> Own())
      ensures recordsEmitted == old(recordsEmitted) + |out| - |rows|
      ensures FillFrom(plan, out, Here()) == goal && Later(old(Here()), Here())
    {
      out := rows;
      var count := decoder.value.entryCount;
      if count <= entryCursor {
        FillSkip(plan, rows, Here());
        AdvanceSource(plan);
        return;
      }
      out := Slab(rows, count, plan, goal);
      if count <= entryCursor {
        AdvanceSource(plan);
      }
    }

    // One turn of the outer loop: open the source, take a slab of it, move on
    // if it is used up. `Ok(false)` once the sources are exhausted.
    method Turn(rows: seq<EmitRow>, ghost plan: Plan<EmitRow>, ghost goal: Fill<EmitRow>)
      returns (out: seq<EmitRow>, more: Result<bool, string>)
      requires Valid() && pendingResume.None? && |rows| < BATCH_ROWS && On(plan)
      requires FillFrom(plan, rows, Here()) == goal
      modifies this
      ensures Valid() && pendingResume.None? && On(plan) && Settled() && (old(Own()) ==> Own())
      ensures recordsEmitted == old(recordsEmitted) + |out| - |rows|
      ensures match more
              case Err(_) => goal == LoadFailed(out, Here())
              case Ok(false) => goal == Filled(out, Here())
              case Ok(true) => FillFrom(plan, out, Here()) == goal && Later(old(Here()), Here())
    {
      out := rows;
      more := EnsureOpen();
      if more == Result.Ok(true) {
        out := TakeSlab(rows, plan, goal);
      }
    }

    /** `there` is nearer the end of the scan than `here`. */
    ghost predicate Later(here: Position, there: Position) {
      && here.source < |cfg.sources|
      && (|| here.source < there.source
          || (here.source == there.source && here.entry < there.entry <= CountAt(cfg, here.source)))
    }

    /** Between batches an open source has entries left, and one that is not
        open stands at its start, unless it cannot be opened. */
    ghost predicate Settled()
      reads this
    {
      if decoder.Some? then entryCursor < CountAt(cfg, sourceIdx)
      else entryCursor == 0 || Load(cfg, sourceIdx).None?
    }

    // Apply a pending resume, if there is one.
    method TakePending()
      requires Valid()
      modifies this
      ensures Valid() && pendingResume.None?
      ensures Here() == old(Here()) && Emitted() == old(Emitted()) && Carried() == old(Carried())
      ensures old(Own()) ==> Own()
    {
      if pendingResume.Some? {
        var state := pendingResume.value;
        pendingResume := None;
        entryCursor := state.NextEntry();
        recordsEmitted := state.cursor.recordsEmitted;
        sourceIdx := state.sourceIndex;
        resolver := state.resolver;
        decoder := None;
      }
    }

    // Produce one batch; `Ok(None)` at the end of the scan. A source then open is
    // resolved by its own index, unless a foreign one was carried in.
    method Produce(ghost plan: Plan<EmitRow>) returns (r: Result<Option<seq<EmitRow>>, string>)
      requires Valid() && On(plan)
      modifies this
      ensures Valid() && pendingResume.None? && On(plan) && Settled()
      ensures old(Own()) ==>
                Own() && (decoder.Some? ==> resolver == cfg.engine.index(Load(cfg, sourceIdx).value))
      ensures var fill := FillFrom(plan, [], old(Here()));
              && Here() == fill.at
              && Emitted() == old(Emitted()) + |fill.rows|
              && (fill.LoadFailed? <==> r.Err?)
              && (fill.Filled? ==> r == Result.Ok(if fill.rows == [] then None else Some(fill.rows)))
      ensures r.Ok? && Here().source < |cfg.sources| ==> r.value.Some? && 2048 <= |r.value.value|
    {
      TakePending();
      FillProgress(plan, [], Here());
      ghost var goal := FillFrom(plan, [], Here());
      var rows: seq<EmitRow> := [];
      while |rows| < BATCH_ROWS
        invariant Valid() && pendingResume.None? && On(plan) && (old(Own()) ==> Own())
        invariant rows != [] ==> Settled()
        invariant FillFrom(plan, rows, Here()) == goal
        invariant recordsEmitted == old(Emitted()) + |rows|
        decreases |cfg.sources| - sourceIdx, CountAt(cfg, sourceIdx) - entryCursor
      {
        var more;
        rows, more := Turn(rows, plan, goal);
        if more.Err? {
          return Err(more.error);
        }
        if !more.value {
          break;
        }
      }
      return Result.Ok(if rows == [] then None else Some(rows));
    }

    // Snapshot the scan. A pending resume is not consulted. Between batches the
    // byte offset stays inside the image, or is 0 with none open; it can leave 64
    // bits only on a source that cannot be opened, where the record size is taken
    // to be 1024.
    method EncodeResume() returns (token: Token)
      requires Valid()
      ensures
        var state := FromBytes(token);
        && state.sourceIndex == sourceIdx && state.NextEntry() == entryCursor
        && state.cursor.recordsEmitted == recordsEmitted && state.resolver == resolver
        && state.cursor.source == (if |cfg.sources| <= sourceIdx then ""
                                   else if cfg.sources[sourceIdx].File? then cfg.sources[sourceIdx].path else "<blob>")
        && state.maxDepth == 256 && state.pendingPaths == [] && (state.resolverBuilt <==> resolver != map[])
        && (decoder.Some? && Settled() ==> state.cursor.byteOffset <= |Load(cfg, sourceIdx).value|)
        && (decoder.None? ==> state.cursor.byteOffset == entryCursor * 1024)
    {
      var recordSize := if decoder.Some? then decoder.value.recordSize else 1024;
      var source := if sourceIdx < |cfg.sources| then cfg.sources[sourceIdx].Label() else "";
      ModIs(entryCursor * recordSize, entryCursor, 0, recordSize);
      if decoder.Some? && Settled() {
        MulMono(entryCursor, decoder.value.entryCount, recordSize);
      }
      var state := MftScanState(
        MftCursor(source, entryCursor * recordSize, recordsEmitted), resolver, [], recordSize,
        DEFAULT_MAX_DEPTH, resolver != map[], sourceIdx);
      token := ToBytes(state);
    }

    // Any token is accepted; one that does not decode restarts the scan.
    method RestoreResume(token: Token)
      requires Valid()
      modifies this`pendingResume
      ensures Valid() && pendingResume == Some(FromBytes(token))
    {
      pendingResume := Some(FromBytes(token));
    }
  }
}
