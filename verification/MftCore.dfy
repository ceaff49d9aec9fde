// The decoder over one in-memory image: record slicing, the resolver index and
// the uncached `full_path` of crates/mft-core/src/lib.rs.
module MftCore {
  import opened Common
  import opened Bytes
  import opened PreScan
  import opened Record
  import opened Resolver

  const RESIDENT_CAP: nat := 1024 * 1024
  const DEFAULT_MAX_DEPTH: nat := 256

  /** No Rust vector is longer than this (`isize::MAX`). */
  const MAX_LEN: nat := 0x7FFF_FFFF_FFFF_FFFF

  datatype Decoder = Decoder(bytes: Buffer, entryCount: nat, recordSize: nat, residentCap: nat)

  // ------------------------------------------------------------------ slicing

  /** A record size a volume could have. */
  predicate Plausible(size: nat) {
    512 <= size <= 65536 && size % 512 == 0
  }

  function RecordStride(bytes: Buffer): (r: nat)
    ensures Plausible(r)
    ensures r != 1024 ==> 0x20 <= |bytes| && bytes[..4] == FILE && r == U32At(bytes, 0x1C)
    ensures 0x20 <= |bytes| && bytes[..4] == FILE && Plausible(U32At(bytes, 0x1C)) ==> r == U32At(bytes, 0x1C)
  {
    if |bytes| < 0x20 || bytes[..4] != FILE then 1024
    else
      var v := U32At(bytes, 0x1C);
      if Plausible(v) then v else 1024
  }

  /** A decoder whose entry count fits its image and stride. */
  predicate Fits(d: Decoder) {
    && 512 <= d.recordSize <= 65536
    && d.entryCount == Quotient(|d.bytes|, d.recordSize)
    && |d.bytes| <= MAX_LEN
  }

  function Open(bytes: Buffer, residentCap: nat): (d: Decoder)
    ensures |bytes| <= MAX_LEN ==> Fits(d)
  {
    var stride := RecordStride(bytes);
    Decoder(bytes, Quotient(|bytes|, stride), stride, residentCap)
  }

  /** How many whole records the image holds. */
  function EntryCount(bytes: Buffer): nat {
    Quotient(|bytes|, RecordStride(bytes))
  }

  /** The bytes of entry `n`; `None` if out of range or past 64-bit arithmetic. */
  function Slice(d: Decoder, n: nat): Option<Buffer> {
    var start := n * d.recordSize;
    if U64 <= start || U64 <= start + d.recordSize then None
    else if |d.bytes| < start + d.recordSize then None
    else Some(d.bytes[start..start + d.recordSize])
  }

  lemma MulMono(a: nat, b: nat, c: nat)
    requires a <= b
    ensures a * c <= b * c
  {
  }

  lemma WholeRecords(len: nat, stride: nat, n: nat)
    requires 0 < stride
    ensures n < Quotient(len, stride) <==> n * stride + stride <= len
  {
    var q := Quotient(len, stride);
    if n < q {
      MulMono(n + 1, q, stride);
    } else {
      MulMono(q, n, stride);
    }
  }

  // Entry `n` can be sliced exactly when it is counted, it is then a whole
  // record, and no multiplication on the way leaves 64 bits.
  lemma SliceIffCounted(d: Decoder, n: nat)
    requires Fits(d)
    ensures n < d.entryCount <==> Slice(d, n).Some?
    ensures n < d.entryCount ==>
              && n * d.recordSize + d.recordSize <= |d.bytes| < U64
              && Slice(d, n).value == d.bytes[n * d.recordSize..n * d.recordSize + d.recordSize]
  {
    WholeRecords(|d.bytes|, d.recordSize, n);
  }

  // In numbers: a buffer that says FILE and a size of one to 128 times 512 is
  // read in records of that size, and any other in records of 1024.
  lemma StrideByBytes(bytes: Buffer, k: nat)
    ensures 0x20 <= |bytes| && bytes[..4] == [0x46, 0x49, 0x4C, 0x45] && Number(bytes, 0x1C) == 512 * k && 1 <= k <= 128
            ==> RecordStride(bytes) == 512 * k
    ensures 0x20 <= |bytes| && bytes[..4] == [0x46, 0x49, 0x4C, 0x45]
            && (Number(bytes, 0x1C) % 512 != 0 || Number(bytes, 0x1C) == 0 || 65536 < Number(bytes, 0x1C))
            ==> RecordStride(bytes) == 1024
    ensures |bytes| < 0x20 || bytes[..4] != [0x46, 0x49, 0x4C, 0x45] ==> RecordStride(bytes) == 1024
  {
    if 0x20 <= |bytes| {
      NumberIsRead(bytes, 0x1C);
      if Number(bytes, 0x1C) == 512 * k && 1 <= k <= 128 {
        ModIs(512 * k, k, 0, 512);
      }
    }
  }

  // Entry `n` is the `n`-th record of that size, as far as whole ones go.
  lemma SlicesByBytes(bytes: Buffer, cap: nat, n: nat)
    requires |bytes| < 0x8000_0000_0000_0000
    ensures var size := RecordStride(bytes);
            && EntryCount(bytes) == |bytes| / size
            && (n < |bytes| / size ==>
                  && n * size + size <= |bytes|
                  && Slice(Open(bytes, cap), n) == Some(bytes[n * size..n * size + size]))
            && (|bytes| / size <= n ==> Slice(Open(bytes, cap), n) == None)
  {
    SliceIffCounted(Open(bytes, cap), n);
  }

  /** The first `upTo` slices, missing ones as empty. */
  function Slices(d: Decoder, upTo: nat): (pieces: seq<Buffer>)
    ensures |pieces| == upTo
  {
    seq(upTo, n requires 0 <= n < upTo => if Slice(d, n).Some? then Slice(d, n).value else [])
  }

  lemma PrefixGrows(bytes: Buffer, at: nat, step: nat)
    requires at + step <= |bytes|
    ensures bytes[..at] + bytes[at..at + step] == bytes[..at + step]
  {
  }

  /** `piece` is the `n`-th stride of `bytes`. */
  predicate IsStride(bytes: Buffer, stride: nat, piece: Buffer, n: nat) {
    n * stride + stride <= |bytes| && piece == bytes[n * stride..n * stride + stride]
  }

  lemma {:induction false} PiecesTile(bytes: Buffer, pieces: seq<Buffer>, stride: nat)
    requires forall n :: 0 <= n < |pieces| ==> IsStride(bytes, stride, pieces[n], n)
    ensures |pieces| * stride <= |bytes| && Concat(pieces) == bytes[..|pieces| * stride]
  {
    if pieces != [] {
      var last := |pieces| - 1;
      var init, piece := pieces[..last], pieces[last];
      PiecesTile(bytes, init, stride);
      assert IsStride(bytes, stride, piece, last);
      assert |pieces| * stride == last * stride + stride;
      assert pieces == init + [piece];
      ConcatAppend(init, [piece]);
      assert Concat([piece]) == piece;
      PrefixGrows(bytes, last * stride, stride);
    }
  }

  lemma SliceIsStride(d: Decoder, n: nat)
    requires Fits(d) && n < d.entryCount
    ensures IsStride(d.bytes, d.recordSize, Slices(d, d.entryCount)[n], n)
  {
    SliceIffCounted(d, n);
  }

  // Laid end to end, the slices are the image up to its last whole record.
  lemma SlicesTile(d: Decoder)
    requires Fits(d)
    ensures d.entryCount * d.recordSize <= |d.bytes| < d.entryCount * d.recordSize + d.recordSize
    ensures Concat(Slices(d, d.entryCount)) == d.bytes[..d.entryCount * d.recordSize]
  {
    var pieces := Slices(d, d.entryCount);
    forall n | 0 <= n < |pieces| ensures IsStride(d.bytes, d.recordSize, pieces[n], n) {
      SliceIsStride(d, n);
    }
    PiecesTile(d.bytes, pieces, d.recordSize);
  }

  // ------------------------------------------------------------------ decoding

  function Decode(crate: Crate, d: Decoder, n: nat): (r: Option<DecodedRecord>)
    ensures r.Some? ==> r.value.entry == n
  {
    match Slice(d, n)
    case None => None
    case Some(record) =>
      match ParseRecord(crate, record, n)
      case Empty => None
      case Entry(entry) => Some(DecodeEntrySafe(crate, entry, n, d.residentCap))
      case Bad(kind, msg) => Some(DiagnosticRecord(n, kind + ":" + msg))
  }

  // What an entry decodes to, case by case: nothing if its slot is missing, all
  // zero or parsed to a zero signature; a bare diagnostic under its number if
  // parsing panics or fails; and otherwise its decoded record.
  lemma DecodesExactly(crate: Crate, d: Decoder, n: nat)
    ensures Slice(d, n).None? ==> Decode(crate, d, n) == None
    ensures Slice(d, n).Some? && (forall i :: 0 <= i < |Slice(d, n).value| ==> Slice(d, n).value[i] == 0) ==>
              Decode(crate, d, n) == None
    ensures Slice(d, n).Some? && (exists i :: 0 <= i < |Slice(d, n).value| && Slice(d, n).value[i] != 0) ==>
              match crate.fromBuffer(Slice(d, n).value, n)
              case Panicked =>
                Bare(Decode(crate, d, n), n, "attr-overrun" + ":" + "parser panicked on malformed record (caught)")
              case Returned(Failed(kind, msg)) => Bare(Decode(crate, d, n), n, kind + ":" + msg)
              case Returned(Parsed(header, data, validFixup)) =>
                if header.signature == [0, 0, 0, 0] then Decode(crate, d, n) == None
                else Decode(crate, d, n)
                     == Some(DecodeEntrySafe(crate, MftEntry(n, header, data, validFixup), n, d.residentCap))
  {
  }

  /** A record of nothing but its number and one diagnostic. */
  predicate Bare(rec: Option<DecodedRecord>, n: nat, diagnostic: string) {
    && rec.Some? && rec.value.entry == n && rec.value.diagnostics == [diagnostic]
    && rec.value.sequence == 0 && rec.value.hardLinkCount == 0 && rec.value.baseRef == 0 && rec.value.lsn == 0
    && rec.value.usedSize == 0 && rec.value.allocatedSize == 0 && !rec.value.inUse && !rec.value.isDir
    && rec.value.signature == [] && rec.value.fixupOk.None? && rec.value.standardInfo.None?
    && rec.value.fileNames == [] && rec.value.attributes == []
    && rec.value.data.primary.None? && rec.value.data.ads == []
  }

  lemma ParsedSliceDecodes(crate: Crate, d: Decoder, n: nat, record: Buffer, entry: MftEntry)
    requires Slice(d, n) == Some(record) && ParseRecord(crate, record, n) == Entry(entry)
    ensures Decode(crate, d, n) == Some(DecodeEntrySafe(crate, entry, n, d.residentCap))
  {
  }

  // ------------------------------------------------------------- the index

  /** The node of entry `n`, if it decodes to a record with a name. */
  function NodeAt(crate: Crate, d: Decoder, n: nat): Option<ResolverNode> {
    match Decode(crate, d, n)
    case None => None
    case Some(rec) =>
      match PrimaryName(rec)
      case None => None
      case Some(fname) =>
        Some(ResolverNode(fname.name, fname.parentEntry, fname.parentSeq, rec.isDir, rec.sequence))
  }

  const ROOT_NODE: ResolverNode := ResolverNode(".", ROOT_ENTRY, ROOT_ENTRY, true, ROOT_ENTRY)

  function NamedBelow(crate: Crate, d: Decoder, upTo: nat): Index {
    Tabulate((n: nat) => NodeAt(crate, d, n), upTo)
  }

  function WithRoot(index: Index): Index {
    if ROOT_ENTRY in index then index else index[ROOT_ENTRY := ROOT_NODE]
  }

  /** What `build_resolver` makes of an index already holding `base`. */
  function Extended(crate: Crate, d: Decoder, base: Index): Index {
    WithRoot(base + NamedBelow(crate, d, d.entryCount))
  }

  /** The index of one image on its own. */
  function IndexOf(crate: Crate, bytes: Buffer): (index: Index)
    ensures ROOT_ENTRY in index
  {
    Extended(crate, Open(bytes, RESIDENT_CAP), map[])
  }

  // The loop as written: inserts into the caller's map, then the root entry.
  method BuildResolver(crate: Crate, d: Decoder, base: Index) returns (resolver: Index)
    ensures resolver == Extended(crate, d, base)
  {
    resolver := base;
    ghost var nodes := (n: nat) => NodeAt(crate, d, n);
    for n := 0 to d.entryCount
      invariant resolver == base + Tabulate(nodes, n)
    {
      TabulateGrows(base, nodes, n);
      var rec := Decode(crate, d, n);
      if rec.Some? {
        var fname := PrimaryName(rec.value);
        if fname.Some? {
          var node := ResolverNode(
            fname.value.name, fname.value.parentEntry, fname.value.parentSeq, rec.value.isDir, rec.value.sequence);
          assert nodes(n) == Some(node);
          resolver := resolver[rec.value.entry := node];
        }
      }
    }
    if ROOT_ENTRY !in resolver {
      resolver := resolver[ROOT_ENTRY := ROOT_NODE];
    }
  }

  lemma IndexHoldsNode(crate: Crate, bytes: Buffer, e: nat)
    ensures var index, node := IndexOf(crate, bytes), NodeAt(crate, Open(bytes, RESIDENT_CAP), e);
            && (e in index <==> node.Some? || e == ROOT_ENTRY)
            && (e in index ==> index[e] == if node.Some? then node.value else ROOT_NODE)
  {
    var d := Open(bytes, RESIDENT_CAP);
    WholeRecords(|bytes|, d.recordSize, e);
    assert NodeAt(crate, d, e).Some? ==> e < d.entryCount;
  }

  // An entry is indexed exactly when it decodes to a named record or is the
  // root, under its own name and parent link; only an unnamed root gets the
  // stand-in node.
  lemma IndexExactly(crate: Crate, bytes: Buffer, e: nat)
    ensures
      var index, rec := IndexOf(crate, bytes), Decode(crate, Open(bytes, 1024 * 1024), e);
      var named := rec.Some? && rec.value.fileNames != [];
      && (e in index <==> named || e == ROOT_ENTRY)
      && (named ==>
            var node, fname := index[e], PrimaryName(rec.value).value;
            && node.name == fname.name && node.parentEntry == fname.parentEntry && node.parentSeq == fname.parentSeq
            && node.sequence == rec.value.sequence && node.isDir == rec.value.isDir)
      && (!named && e == ROOT_ENTRY ==> index[e] == ResolverNode(".", 5, 5, true, 5))
  {
    IndexHoldsNode(crate, bytes, e);
  }

  // What building over a given index leaves: the image's own named entries, then
  // those given before, then the stand-in for the root.
  lemma ExtendsExactly(crate: Crate, d: Decoder, base: Index, e: nat)
    requires Fits(d)
    ensures var index, rec := Extended(crate, d, base), Decode(crate, d, e);
            && (e in index <==> (rec.Some? && rec.value.fileNames != []) || e in base || e == 5)
            && (rec.Some? && rec.value.fileNames != [] ==>
                  && index[e].name == PrimaryName(rec.value).value.name
                  && index[e].parentEntry == PrimaryName(rec.value).value.parentEntry
                  && index[e].parentSeq == PrimaryName(rec.value).value.parentSeq
                  && index[e].isDir == rec.value.isDir && index[e].sequence == rec.value.sequence)
            && (!(rec.Some? && rec.value.fileNames != []) && e in base ==> index[e] == base[e])
            && (!(rec.Some? && rec.value.fileNames != []) && e !in base && e == 5 ==>
                  index[e] == ResolverNode(".", 5, 5, true, 5))
  {
    SliceIffCounted(d, e);
    assert NodeAt(crate, d, e).Some? ==> e < d.entryCount;
  }

  // Building over an already built index of the same image changes nothing.
  lemma RebuildIsIdempotent(crate: Crate, bytes: Buffer)
    ensures Extended(crate, Open(bytes, RESIDENT_CAP), IndexOf(crate, bytes)) == IndexOf(crate, bytes)
  {
  }

  /** The `full_path` of one image, with a resolver built for the call. */
  function FullPath(crate: Crate, bytes: Buffer, n: nat, maxDepth: nat): Option<string> {
    var index := IndexOf(crate, bytes);
    if n in index then Some(Resolved(index, n, maxDepth).path) else None
  }

  // A path is given exactly for the root and for entries with a name, and is what
  // resolving gives against the image's index.
  lemma FullPathExactly(crate: Crate, bytes: Buffer, n: nat, maxDepth: nat)
    ensures var rec := Decode(crate, Open(bytes, 1024 * 1024), n);
            && (FullPath(crate, bytes, n, maxDepth).None? <==> n != 5 && (rec.None? || rec.value.fileNames == []))
            && (FullPath(crate, bytes, n, maxDepth).Some? ==>
                  FullPath(crate, bytes, n, maxDepth).value == Resolved(IndexOf(crate, bytes), n, maxDepth).path)
  {
    IndexExactly(crate, bytes, n);
  }
}
