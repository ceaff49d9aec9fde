// The `full_path` scalar of crates/mft-worker/src/scalar/full_path.rs: a
// resolver cached under a sampled fingerprint, against the uncached function.
module FullPathScalar {
  import opened Common
  import opened Bytes
  import opened PreScan
  import opened Record
  import opened Resolver
  import opened MftCore

  // ---------------------------------------------------------------- sampling

  /** What the fingerprint hashes: the length and up to three slices. */
  datatype Sample = Sample(len: nat, head: Buffer, tail: Buffer, middle: Buffer)

  function SampleOf(bytes: Buffer): Sample {
    var n := |bytes|;
    var head := bytes[..Min(n, 64)];
    if n <= 64 then Sample(n, head, [], [])
    else Sample(n, head, bytes[n - 64..], bytes[n / 2..Min(n / 2 + 64, n)])
  }

  type Fingerprinter = Buffer -> nat

  /** The fingerprint under a given deterministic hash of the samples. */
  function Sampled(hash: Sample -> nat): Fingerprinter {
    (b: Buffer) => hash(SampleOf(b))
  }

  // The samples cover a blob of 129 bytes or fewer whole.
  lemma ShortBlobsAreSampledWhole(a: Buffer, b: Buffer)
    requires |a| <= 129 && SampleOf(a) == SampleOf(b)
    ensures a == b
  {
    var n := |a|;
    assert |b| == n;
    forall i | 0 <= i < n ensures a[i] == b[i] {
      if i < 64 {
        assert a[i] == a[..Min(n, 64)][i] && b[i] == b[..Min(n, 64)][i];
      } else if n - 64 <= i {
        assert a[i] == a[n - 64..][i - (n - 64)] && b[i] == b[n - 64..][i - (n - 64)];
      } else {
        assert n / 2 == 64 && i == 64;
        assert a[i] == a[n / 2..Min(n / 2 + 64, n)][0] && b[i] == b[n / 2..Min(n / 2 + 64, n)][0];
      }
    }
  }

  /** Byte `k` of a blob of `n` bytes lies in one of the samples. */
  predicate IsSampled(n: nat, k: nat) {
    k < 64 || (64 < n && (n - 64 <= k || n / 2 <= k < n / 2 + 64))
  }

  // Changing one byte is seen exactly if the byte is sampled.
  lemma OneByteSeenExactly(a: Buffer, k: nat, value: byte)
    requires k < |a|
    ensures SampleOf(a[k := value]) == SampleOf(a) <==> a[k] == value || !IsSampled(|a|, k)
  {
    var b, n := a[k := value], |a|;
    if a[k] == value || !IsSampled(n, k) {
      assert b[..Min(n, 64)] == a[..Min(n, 64)];
      if 64 < n {
        assert b[n - 64..] == a[n - 64..];
        assert b[n / 2..Min(n / 2 + 64, n)] == a[n / 2..Min(n / 2 + 64, n)];
      }
    } else if k < 64 {
      assert b[..Min(n, 64)][k] == value && a[..Min(n, 64)][k] == a[k];
    } else if n - 64 <= k {
      assert b[n - 64..][k - (n - 64)] == value && a[n - 64..][k - (n - 64)] == a[k];
    } else {
      assert b[n / 2..Min(n / 2 + 64, n)][k - n / 2] == value;
      assert a[n / 2..Min(n / 2 + 64, n)][k - n / 2] == a[k];
    }
  }

  // Every byte is sampled exactly up to 129 bytes; past that byte 64 never is.
  lemma SampledWholeExactly(n: nat)
    ensures (forall k :: 0 <= k < n ==> IsSampled(n, k)) <==> n <= 129
  {
    if 129 < n {
      assert !IsSampled(n, 64);
    }
  }

  lemma LongBlobsCollide(a: Buffer, value: byte)
    requires 130 <= |a|
    ensures SampleOf(a[64 := value]) == SampleOf(a)
  {
    OneByteSeenExactly(a, 64, value);
  }

  // --------------------------------------------------------------- the loop

  /** One input row; either argument may be NULL. */
  datatype Row = Row(blob: Option<Buffer>, entry: Option<nat>)

  predicate Present(row: Row) {
    row.blob.Some? && row.entry.Some?
  }

  /** The index `build_resolver` makes of a blob from nothing. */
  type Indexer = Buffer -> Index

  function CoreIndexer(crate: Crate): Indexer {
    (b: Buffer) => IndexOf(crate, b)
  }

  /** The path of an entry by the given index of a blob; NULL if not in it. */
  function PathIn(indexOf: Indexer, bytes: Buffer, entry: nat): Option<string> {
    if entry in indexOf(bytes) then Some(Resolved(indexOf(bytes), entry, DEFAULT_MAX_DEPTH).path) else None
  }

  lemma PathInIsFullPath(crate: Crate, bytes: Buffer, entry: nat)
    ensures PathIn(CoreIndexer(crate), bytes, entry) == FullPath(crate, bytes, entry, 256)
  {
  }

  /** The row's answer without a cache. */
  function Uncached(indexOf: Indexer, row: Row): Option<string> {
    if Present(row) then PathIn(indexOf, row.blob.value, row.entry.value) else None
  }

  /** The blob whose index serves row `i`: its own, or the one an unbroken run
      of equal fingerprints before it began with. */
  function Owner(fp: Fingerprinter, rows: seq<Row>, i: nat): Option<Buffer>
    requires i <= |rows|
  {
    if i == 0 then None
    else
      var before := Owner(fp, rows, i - 1);
      var row := rows[i - 1];
      if !Present(row) then before
      else if before.Some? && fp(before.value) == fp(row.blob.value) then before
      else row.blob
  }

  // A present row's owner is the blob of some present row at or before it, and
  // has the row's own fingerprint.
  lemma {:induction false} OwnerShares(fp: Fingerprinter, rows: seq<Row>, i: nat)
    requires i <= |rows|
    ensures Owner(fp, rows, i).Some? ==>
              exists j :: 0 <= j < i && Present(rows[j]) && rows[j].blob == Owner(fp, rows, i)
    ensures 0 < i && Present(rows[i - 1]) ==>
              && Owner(fp, rows, i).Some?
              && fp(Owner(fp, rows, i).value) == fp(rows[i - 1].blob.value)
  {
    if 0 < i {
      OwnerShares(fp, rows, i - 1);
    }
  }

  /** The cached answer for row `i`. */
  function Answer(indexOf: Indexer, fp: Fingerprinter, rows: seq<Row>, i: nat): Option<string>
    requires i < |rows|
  {
    var owner := Owner(fp, rows, i + 1);
    if Present(rows[i]) && owner.Some? then PathIn(indexOf, owner.value, rows[i].entry.value) else None
  }

  function Cached(indexOf: Indexer, fp: Fingerprinter, rows: seq<Row>): (out: seq<Option<string>>)
    ensures |out| == |rows|
  {
    seq(|rows|, i requires 0 <= i < |rows| => Answer(indexOf, fp, rows, i))
  }

  // The loop as written: the cache holds a fingerprint and an index.
  method Process(indexOf: Indexer, fp: Fingerprinter, rows: seq<Row>) returns (out: seq<Option<string>>)
    ensures out == Cached(indexOf, fp, rows)
  {
    out := [];
    var cache: Option<(nat, Index)> := None;
    for i := 0 to |rows|
      invariant |out| == i && forall k :: 0 <= k < i ==> out[k] == Answer(indexOf, fp, rows, k)
      invariant match Owner(fp, rows, i)
                case None => cache.None?
                case Some(b) => cache == Some((fp(b), indexOf(b)))
    {
      if rows[i].blob.Some? && rows[i].entry.Some? {
        var bytes, idx := rows[i].blob.value, rows[i].entry.value;
        var key := fp(bytes);
        if !(cache.Some? && cache.value.0 == key) {
          cache := Some((key, indexOf(bytes)));
        }
        var index := cache.value.1;
        if idx in index {
          var r := Resolve(index, idx, DEFAULT_MAX_DEPTH);
          out := out + [Some(r.path)];
        } else {
          out := out + [None];
        }
      } else {
        out := out + [None];
      }
    }
  }

  /** Row `k` is the last before row `j` that has both a blob and an entry. */
  predicate LastBefore(rows: seq<Row>, k: nat, j: nat)
    requires j <= |rows|
  {
    && k < j && rows[k].blob.Some? && rows[k].entry.Some?
    && forall m :: k < m < j ==> rows[m].blob.None? || rows[m].entry.None?
  }

  /** Row `j` began the run of equal fingerprints that goes on to before row `i`. */
  ghost predicate Began(fp: Fingerprinter, rows: seq<Row>, j: nat, i: nat)
    requires i <= |rows|
  {
    && j < i && rows[j].blob.Some? && rows[j].entry.Some?
    && (forall k :: j <= k < i && rows[k].blob.Some? && rows[k].entry.Some? ==>
          fp(rows[k].blob.value) == fp(rows[j].blob.value))
    && (forall k: nat :: LastBefore(rows, k, j) ==> fp(rows[k].blob.value) != fp(rows[j].blob.value))
  }

  // Without a blob or an entry the answer is NULL. Otherwise it is read from the
  // blob of row `j`, which began the run of rows with the row's fingerprint, rows
  // without a blob or entry left out of account: NULL if its index lacks the
  // entry, or the path found within 256 levels.
  lemma AnswersFromRunStart(indexOf: Indexer, fp: Fingerprinter, rows: seq<Row>, i: nat) returns (j: nat)
    requires i < |rows|
    ensures rows[i].blob.None? || rows[i].entry.None? ==> Cached(indexOf, fp, rows)[i] == None
    ensures rows[i].blob.Some? && rows[i].entry.Some? ==>
              && Began(fp, rows, j, i + 1)
              && Cached(indexOf, fp, rows)[i]
                 == if rows[i].entry.value !in indexOf(rows[j].blob.value) then None
                    else Some(Resolved(indexOf(rows[j].blob.value), rows[i].entry.value, 256).path)
  {
    j := 0;
    if Present(rows[i]) {
      j := RunStart(fp, rows, i + 1, i);
    }
  }

  // The owner after `i` rows, the last present one of which is row `p`, began the
  // run that row belongs to.
  lemma {:induction false} RunStart(fp: Fingerprinter, rows: seq<Row>, i: nat, p: nat) returns (j: nat)
    requires i <= |rows| && LastBefore(rows, p, i)
    ensures Began(fp, rows, j, i) && Owner(fp, rows, i) == rows[j].blob
  {
    if p < i - 1 {
      j := RunStart(fp, rows, i - 1, p);
    } else {
      var before := PresentBefore(rows, p);
      if before < 0 {
        j := p;
        NoOwnerYet(fp, rows, p);
        assert forall k: nat :: !LastBefore(rows, k, p);
      } else {
        j := RunStart(fp, rows, p, before);
        if fp(rows[j].blob.value) != fp(rows[p].blob.value) {
          assert fp(rows[before].blob.value) == fp(rows[j].blob.value);
          j := p;
          forall k: nat | LastBefore(rows, k, p) ensures k == before {
            LastIsOne(rows, k, before, p);
          }
        }
      }
    }
  }

  lemma LastIsOne(rows: seq<Row>, k: nat, l: nat, j: nat)
    requires j <= |rows| && LastBefore(rows, k, j) && LastBefore(rows, l, j)
    ensures k == l
  {
    var a, b := rows[k], rows[l];
    assert Present(a) && Present(b);
  }

  // The last present row before row `j`, or -1 if there is none.
  lemma {:induction false} PresentBefore(rows: seq<Row>, j: nat) returns (k: int)
    requires j <= |rows|
    ensures -1 <= k < j && (0 <= k ==> LastBefore(rows, k, j))
    ensures k == -1 ==> forall m :: 0 <= m < j ==> !Present(rows[m])
  {
    if j == 0 {
      k := -1;
    } else if Present(rows[j - 1]) {
      k := j - 1;
    } else {
      k := PresentBefore(rows, j - 1);
    }
  }

  lemma {:induction false} NoOwnerYet(fp: Fingerprinter, rows: seq<Row>, i: nat)
    requires i <= |rows| && forall k :: 0 <= k < i ==> !Present(rows[k])
    ensures Owner(fp, rows, i) == None
  {
    if 0 < i {
      NoOwnerYet(fp, rows, i - 1);
    }
  }

  // -------------------------------------------------------------- agreement

  ghost predicate DrawnFrom(rows: seq<Row>, blobs: iset<Buffer>) {
    forall i :: 0 <= i < |rows| && rows[i].blob.Some? ==> rows[i].blob.value in blobs
  }

  ghost predicate Agrees(indexOf: Indexer, fp: Fingerprinter, rows: seq<Row>) {
    forall i :: 0 <= i < |rows| ==> Cached(indexOf, fp, rows)[i] == Uncached(indexOf, rows[i])
  }

  /** Blobs with equal fingerprints have equal paths for every entry. */
  ghost predicate FingerprintsTell(indexOf: Indexer, fp: Fingerprinter, blobs: iset<Buffer>) {
    forall a, b :: a in blobs && b in blobs && fp(a) == fp(b) ==>
      forall n: nat :: PathIn(indexOf, a, n) == PathIn(indexOf, b, n)
  }

  // For one way of indexing, the cache is right on every batch over some blobs
  // exactly when equal fingerprints among them never hide different paths.
  lemma CacheAgreesExactly(indexOf: Indexer, fp: Fingerprinter, blobs: iset<Buffer>)
    ensures (forall rows :: DrawnFrom(rows, blobs) ==> Agrees(indexOf, fp, rows))
            <==> FingerprintsTell(indexOf, fp, blobs)
  {
    if FingerprintsTell(indexOf, fp, blobs) {
      forall rows, i | DrawnFrom(rows, blobs) && 0 <= i < |rows|
        ensures Cached(indexOf, fp, rows)[i] == Uncached(indexOf, rows[i])
      {
        OwnerShares(fp, rows, i + 1);
      }
    }
    if forall rows :: DrawnFrom(rows, blobs) ==> Agrees(indexOf, fp, rows) {
      forall a, b, n: nat | a in blobs && b in blobs && fp(a) == fp(b)
        ensures PathIn(indexOf, a, n) == PathIn(indexOf, b, n)
      {
        PairDecides(indexOf, fp, a, b, n);
      }
    }
  }

  // Two rows, two blobs with one fingerprint: the second row is answered from
  // the first row's blob.
  lemma PairDecides(indexOf: Indexer, fp: Fingerprinter, a: Buffer, b: Buffer, n: nat)
    requires fp(a) == fp(b)
    ensures var rows := [Row(Some(a), Some(n)), Row(Some(b), Some(n))];
            && Cached(indexOf, fp, rows)[1] == PathIn(indexOf, a, n)
            && DrawnFrom(rows, iset{a, b})
            && (Agrees(indexOf, fp, rows) <==>
                  PathIn(indexOf, a, n) == PathIn(indexOf, b, n))
  {
    var rows := [Row(Some(a), Some(n)), Row(Some(b), Some(n))];
    assert Owner(fp, rows, 0) == None;
    assert Owner(fp, rows, 1) == Some(a);
    assert Owner(fp, rows, 2) == Some(a);
    assert Cached(indexOf, fp, rows)[0] == PathIn(indexOf, a, n);
    assert Cached(indexOf, fp, rows)[1] == PathIn(indexOf, a, n);
    assert Uncached(indexOf, rows[0]) == PathIn(indexOf, a, n);
    assert Uncached(indexOf, rows[1]) == PathIn(indexOf, b, n);
  }

  // Two blobs of one fingerprint with unequal paths make up a batch that the
  // cache answers wrongly.
  lemma UnequalPathsMixUp(indexOf: Indexer, fp: Fingerprinter, blobs: iset<Buffer>, a: Buffer, b: Buffer, n: nat)
    returns (rows: seq<Row>)
    requires a in blobs && b in blobs && fp(a) == fp(b)
    requires PathIn(indexOf, a, n) != PathIn(indexOf, b, n)
    ensures DrawnFrom(rows, blobs) && !Agrees(indexOf, fp, rows)
  {
    PairDecides(indexOf, fp, a, b, n);
    rows := [Row(Some(a), Some(n)), Row(Some(b), Some(n))];
  }

  // ------------------------------------------- which blobs are safe to cache

  /** However blobs are indexed, every batch over these is answered rightly. */
  ghost predicate SafeOver(fp: Fingerprinter, blobs: iset<Buffer>) {
    forall indexOf: Indexer, rows :: DrawnFrom(rows, blobs) ==> Agrees(indexOf, fp, rows)
  }

  /** Equal fingerprints among the blobs mean equal bytes. */
  ghost predicate Distinguishes(fp: Fingerprinter, blobs: iset<Buffer>) {
    forall a, b :: a in blobs && b in blobs && fp(a) == fp(b) ==> a == b
  }

  /** An indexing under which `a` and every other blob give entry 0 two paths. */
  function TellsApart(a: Buffer): Indexer {
    (b: Buffer) => map[0 := ResolverNode(if b == a then "a" else "b", ROOT_ENTRY, 0, false, 0)]
  }

  lemma TellsApartPaths(a: Buffer, b: Buffer)
    ensures PathIn(TellsApart(a), b, 0) == Some(if b == a then "a" else "b")
  {
    SingleNamePath(TellsApart(a)(b), 0, DEFAULT_MAX_DEPTH);
  }

  // In terms of bytes alone: the cache is safe over some blobs, however they
  // are indexed, exactly when the fingerprint tells all of them apart.
  lemma SafeExactly(fp: Fingerprinter, blobs: iset<Buffer>)
    ensures SafeOver(fp, blobs) <==> Distinguishes(fp, blobs)
  {
    if Distinguishes(fp, blobs) {
      forall indexOf: Indexer, rows | DrawnFrom(rows, blobs) ensures Agrees(indexOf, fp, rows) {
        CacheAgreesExactly(indexOf, fp, blobs);
      }
    } else {
      var a, b :| a in blobs && b in blobs && fp(a) == fp(b) && a != b;
      TellsApartPaths(a, a);
      TellsApartPaths(a, b);
      var rows := UnequalPathsMixUp(TellsApart(a), fp, blobs, a, b, 0);
    }
  }

  /** All blobs of at most `longest` bytes. */
  ghost function UpTo(longest: nat): iset<Buffer> {
    iset b: Buffer | |b| <= longest
  }

  ghost predicate Injective(hash: Sample -> nat) {
    forall s, t :: hash(s) == hash(t) ==> s == t
  }

  // 129 bytes is the limit. Beyond it no hash makes the cache safe; up to it a
  // hash without collisions does.
  lemma SafeUpTo129(hash: Sample -> nat, longest: nat)
    ensures 129 < longest ==> !SafeOver(Sampled(hash), UpTo(longest))
    ensures Injective(hash) ==> (SafeOver(Sampled(hash), UpTo(longest)) <==> longest <= 129)
  {
    SafeExactly(Sampled(hash), UpTo(longest));
    if 129 < longest {
      var a: Buffer := seq(130, i => 0);
      var b := a[64 := 1];
      LongBlobsCollide(a, 1);
      assert a in UpTo(longest) && b in UpTo(longest);
      assert a[64] != b[64];
      assert Sampled(hash)(a) == Sampled(hash)(b);
    } else if Injective(hash) {
      forall a, b | a in UpTo(longest) && b in UpTo(longest) && Sampled(hash)(a) == Sampled(hash)(b)
        ensures a == b
      {
        ShortBlobsAreSampledWhole(a, b);
      }
    }
  }

  // --------------------------------------------- which images are safe to cache

  /** The record of entry `n`, unless its slot is missing or empty. */
  function Live(bytes: Buffer, n: nat): Option<Buffer> {
    match Slice(Open(bytes, RESIDENT_CAP), n)
    case Some(record) => if Zeros(record) then None else Some(record)
    case None => None
  }

  /** Whatever parses records, every batch over these blobs is answered rightly. */
  ghost predicate SafeForEveryCrate(fp: Fingerprinter, blobs: iset<Buffer>) {
    forall crate: Crate, rows :: DrawnFrom(rows, blobs) ==> Agrees(CoreIndexer(crate), fp, rows)
  }

  /** Equal fingerprints among the blobs mean the same records in use. */
  ghost predicate DistinguishesRecords(fp: Fingerprinter, blobs: iset<Buffer>) {
    forall a, b :: a in blobs && b in blobs && fp(a) == fp(b) ==> forall n: nat :: Live(a, n) == Live(b, n)
  }

  // The records in use determine the index.
  lemma LiveDecides(crate: Crate, a: Buffer, b: Buffer)
    requires forall n: nat :: Live(a, n) == Live(b, n)
    ensures IndexOf(crate, a) == IndexOf(crate, b)
  {
    forall e: nat
      ensures e in IndexOf(crate, a) <==> e in IndexOf(crate, b)
      ensures e in IndexOf(crate, a) ==> IndexOf(crate, a)[e] == IndexOf(crate, b)[e]
    {
      SameLiveSameNode(crate, a, b, e);
      IndexHoldsNode(crate, a, e);
      IndexHoldsNode(crate, b, e);
    }
  }

  lemma SameLiveSameNode(crate: Crate, a: Buffer, b: Buffer, e: nat)
    requires Live(a, e) == Live(b, e)
    ensures NodeAt(crate, Open(a, RESIDENT_CAP), e) == NodeAt(crate, Open(b, RESIDENT_CAP), e)
  {
    assert Decode(crate, Open(a, RESIDENT_CAP), e) == Decode(crate, Open(b, RESIDENT_CAP), e);
  }

  /** A parser that tells one record from all others. */
  function MarkingCrate(mark: Buffer): Crate {
    Crate(
      (record: Buffer, n: nat) => Returned(Parsed(MarkedHeader(record == mark), [0xFF, 0xFF, 0xFF, 0xFF], None)),
      (entry: MftEntry) => Returned([Item(MarkedAttribute(entry.header.inUse))]))
  }

  function MarkedHeader(marked: bool): Header {
    Header(FILE, 0, marked, false, 0, 0, 1, 0, 0, 0)
  }

  function MarkedAttribute(marked: bool): Attribute {
    Attribute(FILE_NAME, 0, "", 0, Residency.Resident(0), AttrX30(MarkedName(marked)))
  }

  function MarkedName(marked: bool): FileName {
    FileName(if marked then "a" else "b", Win32, ROOT_ENTRY, ROOT_ENTRY, NO_TIMES, 0, 0)
  }

  lemma MarkedFolds(mark: Buffer, entry: MftEntry, n: nat)
    requires entry.data == [0xFF, 0xFF, 0xFF, 0xFF] && entry.header.firstAttribute == 0
    ensures DecodeEntrySafe(MarkingCrate(mark), entry, n, RESIDENT_CAP).fileNames == [MarkedName(entry.header.inUse)]
  {
    var attr := MarkedAttribute(entry.header.inUse);
    assert Scan(entry.data, 0, MAX_ATTRS) == Accept;
    assert Usable([Item(attr)]) == [attr];
    assert Collect([attr], PickFileName())
        == Collect([attr][..0], PickFileName()) + [MarkedName(entry.header.inUse)];
  }

  lemma MarkedNode(mark: Buffer, bytes: Buffer, n: nat)
    ensures var node, live := NodeAt(MarkingCrate(mark), Open(bytes, RESIDENT_CAP), n), Live(bytes, n);
            && (node.Some? <==> live.Some?)
            && (live.Some? ==> node.value.name == (if live.value == mark then "a" else "b")
                               && node.value.parentEntry == ROOT_ENTRY)
  {
    var live := Live(bytes, n);
    if live.Some? {
      var entry := MftEntry(n, MarkedHeader(live.value == mark), [0xFF, 0xFF, 0xFF, 0xFF], None);
      assert ParseRecord(MarkingCrate(mark), live.value, n) == Entry(entry);
      MarkedFolds(mark, entry, n);
      assert Decode(MarkingCrate(mark), Open(bytes, RESIDENT_CAP), n)
          == Some(DecodeEntrySafe(MarkingCrate(mark), entry, n, RESIDENT_CAP));
    }
  }

  // Under it the marked record's path is one that no other slot has.
  lemma MarkedPath(mark: Buffer, bytes: Buffer, n: nat)
    ensures PathIn(CoreIndexer(MarkingCrate(mark)), bytes, n) == Some("a") <==> Live(bytes, n) == Some(mark)
  {
    var index := IndexOf(MarkingCrate(mark), bytes);
    MarkedNode(mark, bytes, n);
    IndexHoldsNode(MarkingCrate(mark), bytes, n);
    if n in index && n != ROOT_ENTRY {
      SingleNamePath(index, n, DEFAULT_MAX_DEPTH);
    }
  }

  // In terms of the records alone: the cache is safe over some blobs, whatever
  // parses their records, exactly when equal fingerprints among them mean the
  // same records in use.
  lemma SafeForEveryCrateExactly(fp: Fingerprinter, blobs: iset<Buffer>)
    ensures SafeForEveryCrate(fp, blobs) <==> DistinguishesRecords(fp, blobs)
  {
    if DistinguishesRecords(fp, blobs) {
      forall crate: Crate, rows | DrawnFrom(rows, blobs) ensures Agrees(CoreIndexer(crate), fp, rows) {
        forall a, b, n: nat | a in blobs && b in blobs && fp(a) == fp(b)
          ensures PathIn(CoreIndexer(crate), a, n) == PathIn(CoreIndexer(crate), b, n)
        {
          LiveDecides(crate, a, b);
        }
        CacheAgreesExactly(CoreIndexer(crate), fp, blobs);
      }
    } else {
      var a, b, n: nat :| a in blobs && b in blobs && fp(a) == fp(b) && Live(a, n) != Live(b, n);
      if Live(a, n).Some? {
        RecordsTellApart(fp, blobs, a, b, n);
      } else {
        RecordsTellApart(fp, blobs, b, a, n);
      }
    }
  }

  lemma RecordsTellApart(fp: Fingerprinter, blobs: iset<Buffer>, a: Buffer, b: Buffer, n: nat)
    requires a in blobs && b in blobs && fp(a) == fp(b)
    requires Live(a, n).Some? && Live(b, n) != Live(a, n)
    ensures !SafeForEveryCrate(fp, blobs)
  {
    var mark := Live(a, n).value;
    MarkedPath(mark, a, n);
    MarkedPath(mark, b, n);
    var rows := UnequalPathsMixUp(CoreIndexer(MarkingCrate(mark)), fp, blobs, a, b, n);
  }

  /** A 512-byte record that says it is one. */
  function SmallestImage(): (image: Buffer)
    ensures |image| == 512
  {
    FILE + seq(24, i => 0) + Le32(512) + seq(480, i => 0)
  }

  lemma SmallestImageIsOneRecord(b: Buffer)
    requires |b| == 512 && b[..32] == SmallestImage()[..32]
    ensures Live(b, 0) == Some(b)
  {
    var s := SmallestImage();
    assert s[28..32] == Le32(512);
    assert b[..4] == b[..32][..4] == s[..32][..4] == FILE;
    assert b[28..32] == b[..32][28..32] == s[28..32];
    Read32(b, 0x1C, 512);
    assert RecordStride(b) == 512;
    assert b[0..512] == b;
    assert b[0] == b[..4][0];
  }

  // Two such images that differ in byte 64 alone: one sample, two records.
  lemma SmallestImagesCollide() returns (a: Buffer, b: Buffer)
    ensures |a| == |b| == 512 && SampleOf(a) == SampleOf(b)
    ensures Live(a, 0).Some? && Live(b, 0) != Live(a, 0)
  {
    a := SmallestImage();
    b := a[64 := 1];
    LongBlobsCollide(a, 1);
    assert b[..32] == a[..32];
    SmallestImageIsOneRecord(a);
    SmallestImageIsOneRecord(b);
    assert a[64] == 0 && b[64] == 1;
  }

  lemma NoRecordBelow(a: Buffer, n: nat)
    requires |a| < 512
    ensures Live(a, n) == None
  {
    WholeRecords(|a|, RecordStride(a), n);
  }

  // No hash makes the cache safe for images: it is safe for blobs of up to so
  // many bytes exactly if they are too short to hold a record at all.
  lemma SafeOnlyBelowOneRecord(hash: Sample -> nat, longest: nat)
    ensures SafeForEveryCrate(Sampled(hash), UpTo(longest)) <==> longest < 512
  {
    if longest < 512 {
      forall a, n: nat | a in UpTo(longest) ensures Live(a, n) == None {
        NoRecordBelow(a, n);
      }
      SafeForEveryCrateExactly(Sampled(hash), UpTo(longest));
    } else {
      var a, b := SmallestImagesCollide();
      RecordsTellApart(Sampled(hash), UpTo(longest), a, b, 0);
    }
  }
}
