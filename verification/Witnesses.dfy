// Images on which something the code promises does not hold: one-file images
// that the builder of crates/mft-core/src/synth.rs writes, and a corrupt record.
module Witnesses {
  import opened Common
  import opened Bytes
  import opened PreScan
  import opened Attributes
  import opened Synth
  import opened SynthImage
  import opened Record
  import opened Resolver
  import opened MftCore
  import opened Reader
  import BuiltTree
  import opened FullPathScalar

  // ------------------------------------------------------ an image of one file

  const HEADER: Fields := Fields(FILE, 0, 1, 1, 1, 0, 1)

  /** What a `$FILE_NAME` says besides the name. */
  datatype Details = Details(parentEntry: nat, parentSeq: nat, times: Times, logical: nat, physical: nat,
                             flags: nat, namespace: byte)
  {
    /** Values the fields can hold. */
    predicate Fit() {
      && parentSeq < U16 && TimesInRange(times) && logical < U64 && physical < U64 && flags < U32 && namespace < 4
    }

    /** A crate can render the times, and a name that is the unit `x`. */
    predicate Reads(conv: Conventions, x: byte) {
      ReadsTimes(conv, times) && conv.textReads([x])
    }

    /** The parent is the root directory. */
    predicate InRoot() {
      parentEntry % 0x1_0000_0000_0000 == ROOT_ENTRY
    }

    function Content(name: seq<nat>): Buffer {
      FileNameContent(parentEntry, parentSeq, times, logical, physical, flags, namespace, name)
    }
  }

  function NameAttr(d: Details, name: seq<nat>): Attr {
    Attr(FILE_NAME, 0, None, Inline(d.Content(name)))
  }

  /** The attribute's bytes, for a name of the one unit `x`. */
  function NameBytes(d: Details, x: byte): (r: Buffer)
    ensures |r| == 96
  {
    assert |Utf16Le([x])| == 2;
    Encode(NameAttr(d, [x]))
  }

  /** A one-record image: a file whose name is the unit `x`. */
  function OneFile(d: Details, x: byte): (image: Buffer)
    ensures |image| == 1024
  {
    Stored(LaidOut(HEADER, NameBytes(d, x)), FILE, false)
  }

  lemma OneEncoded(d: Details, x: byte)
    ensures EncodeAll([NameAttr(d, [x])]) == NameBytes(d, x)
  {
    assert Pieces([NameAttr(d, [x])]) == [NameBytes(d, x)];
    assert Concat([NameBytes(d, x)]) == NameBytes(d, x) + [];
  }

  method BuildRecord(d: Details, x: byte) returns (rec: RecordBuilder)
    ensures fresh(rec) && rec.Valid() && rec.entry == 0 && rec.attrs == NameBytes(d, x)
    ensures rec.HeaderFields() == HEADER && !rec.breakFixup
  {
    rec := new RecordBuilder(0, 1);
    rec.FileName(d.parentEntry, d.parentSeq, d.times, d.logical, d.physical, d.flags, d.namespace, [x]);
    OneEncoded(d, x);
    assert rec.added == [NameAttr(d, [x])];
  }

  // The builder writes exactly this image.
  method BuildOneFile(d: Details, x: byte) returns (image: array<byte>)
    ensures image[..] == OneFile(d, x)
  {
    var rec := BuildRecord(d, x);
    var mft := new MftBuilder();
    mft.Add(rec);
    assert mft.records == [(0, OneFile(d, x))];
    image := mft.Finish();
    OneSlot(image[..], OneFile(d, x));
  }

  lemma OneSlot(image: Buffer, raw: Buffer)
    requires |raw| == 1024
    ensures Images(image, [(0, raw)]) <==> image == raw
  {
    var rs: seq<Numbered> := [(0, raw)];
    assert rs[..0] == [];
    assert WithKey(rs, 0) == [] + [(0, raw)];
    assert SlotOf(rs, 0) == raw;
    assert Highest(rs) == 0;
    assert |image| == 1024 ==> image[0 * 1024..0 * 1024 + 1024] == image;
  }

  lemma OneFileBuilt(conv: Conventions, d: Details, x: byte)
    requires d.Fit() && d.Reads(conv, x)
    ensures Built(conv, OneFile(d, x), HEADER, [NameAttr(d, [x])], false) && WellStored(OneFile(d, x))
  {
    OneEncoded(d, x);
    StoredIsRecord(HEADER, [NameAttr(d, [x])], false);
    BuiltIsWellStored(OneFile(d, x), HEADER, [NameAttr(d, [x])], false);
    NameParsable(conv, d, [x]);
  }

  lemma NameParsable(conv: Conventions, d: Details, name: seq<nat>)
    requires d.Fit() && |name| < 256 && forall i :: 0 <= i < |name| ==> name[i] < U16
    requires ReadsTimes(conv, d.times) && conv.textReads(name)
    ensures Parsable(conv, NameAttr(d, name))
  {
    ShortNameUncut(name);
    FileNameAsAdded(conv, 0, d.parentEntry, d.parentSeq, d.times, d.logical, d.physical, d.flags, d.namespace, name);
  }

  lemma OnlyOneKept<T>(attrs: seq<Attribute>, pick: Pick<T>, ks: seq<nat>, kept: seq<T>)
    requires |attrs| == 1 && pick(attrs[0]).Some? && IsList(attrs, pick, ks, kept)
    ensures kept == [pick(attrs[0]).value]
  {
    assert 0 in ks;
    var first, last := ks[0], ks[|ks| - 1];
    assert first == last == 0;
  }

  lemma OneRecordImage(raw: Buffer)
    requires WellStored(raw)
    ensures var rs: seq<Numbered> := [(0, raw)];
            Images(raw, rs) && SlotOf(rs, 0) == raw && Highest(rs) == 0 && EntryCount(raw) == 1
  {
    var rs: seq<Numbered> := [(0, raw)];
    OneSlot(raw, raw);
    assert rs[..0] == [];
    assert WithKey(rs, 0) == [] + [(0, raw)];
    ImageGeometry(raw, rs);
  }

  // A one-record image of one file-name attribute decodes to that one name.
  lemma OneNameDecodes(crate: Crate, conv: Conventions, raw: Buffer, a: Attr, fname: FileName)
    requires Faithful(crate, conv) && Built(conv, raw, HEADER, [a], false) && WellStored(raw)
    requires PickFileName()(AsAttribute(conv, AsRead(a), 0)) == Some(fname)
    ensures var rec := Decode(crate, Open(raw, RESIDENT_CAP), 0);
            rec.Some? && rec.value.diagnostics == [] && rec.value.fileNames == [fname]
  {
    OneRecordImage(raw);
    BuiltImageDecodes(crate, conv, raw, [(0, raw)], RESIDENT_CAP, 0, raw, HEADER, [a], false);
    var names, _ := BuiltRecordNames(crate, conv, raw, HEADER, [a], false, 0, RESIDENT_CAP);
    OnlyOneKept(Added(conv, [a]), PickFileName(), names,
                DecodeEntrySafe(crate, EntryOf(raw, 0), 0, RESIDENT_CAP).fileNames);
  }

  /** The file name that the image holds. */
  function FileNamed(conv: Conventions, d: Details, name: seq<nat>): FileName {
    FileName(conv.text(name), NamespaceOf(d.namespace), d.parentEntry % 0x1_0000_0000_0000, d.parentSeq,
             MacbOf(conv, d.times), d.logical, d.physical)
  }

  lemma NamePicked(conv: Conventions, d: Details, name: seq<nat>)
    requires d.Fit() && |name| < 256 && forall i :: 0 <= i < |name| ==> name[i] < U16
    ensures PickFileName()(AsAttribute(conv, AsRead(NameAttr(d, name)), 0)) == Some(FileNamed(conv, d, name))
  {
    ShortNameUncut(name);
    FileNameAsAdded(conv, 0, d.parentEntry, d.parentSeq, d.times, d.logical, d.physical, d.flags, d.namespace, name);
  }

  // Any faithful crate decodes it to one file of that name.
  lemma OneFileDecodes(crate: Crate, conv: Conventions, d: Details, x: byte)
    requires Faithful(crate, conv) && d.Fit() && d.Reads(conv, x)
    ensures EntryCount(OneFile(d, x)) == 1
    ensures var rec := Decode(crate, Open(OneFile(d, x), RESIDENT_CAP), 0);
            rec.Some? && rec.value.diagnostics == [] && rec.value.fileNames == [FileNamed(conv, d, [x])]
  {
    OneFileBuilt(conv, d, x);
    OneRecordImage(OneFile(d, x));
    NamePicked(conv, d, [x]);
    OneNameDecodes(crate, conv, OneFile(d, x), NameAttr(d, [x]), FileNamed(conv, d, [x]));
  }

  // It is a tree of that one record.
  lemma OneFileIsTree(conv: Conventions, d: Details, x: byte)
    requires d.Fit() && d.Reads(conv, x)
    ensures BuiltTree.IsTree(conv, OneFile(d, x), [(0, OneFile(d, x))],
                             map[0 := BuiltTree.Spec(HEADER, [NameAttr(d, [x])], false)])
  {
    OneFileBuilt(conv, d, x);
    OneRecordImage(OneFile(d, x));
    var rs: seq<Numbered> := [(0, OneFile(d, x))];
    assert rs[0].0 == 0;
  }

  lemma SoleNamePath(crate: Crate, image: Buffer, fname: FileName)
    requires var rec := Decode(crate, Open(image, RESIDENT_CAP), 0); rec.Some? && rec.value.fileNames == [fname]
    requires fname.parentEntry == ROOT_ENTRY
    ensures FullPath(crate, image, 0, DEFAULT_MAX_DEPTH) == Some(fname.name)
  {
    IndexExactly(crate, image, 0);
    SingleNamePath(IndexOf(crate, image), 0, DEFAULT_MAX_DEPTH);
  }

  // In the root directory, its path is its name.
  lemma OneFilePath(crate: Crate, conv: Conventions, d: Details, x: byte)
    requires Faithful(crate, conv) && d.Fit() && d.InRoot() && d.Reads(conv, x)
    ensures FullPath(crate, OneFile(d, x), 0, DEFAULT_MAX_DEPTH) == Some(conv.text([x]))
  {
    OneFileDecodes(crate, conv, d, x);
    SoleNamePath(crate, OneFile(d, x), FileNamed(conv, d, [x]));
  }

  // -------------------------------------------- a batch the cache gets wrong

  // Two such images differ in the name's low byte alone, which no sample covers.
  lemma OneByteApart(d: Details, x: byte, y: byte)
    ensures OneFile(d, y) == OneFile(d, x)[146 := y]
  {
    NamesApart(d, x, y);
    LayoutsApart(NameBytes(d, x), 90, y);
    var plain := LaidOut(HEADER, NameBytes(d, x));
    FixedAt(plain);
    FixedAt(plain[146 := y]);
  }

  lemma LayoutsApart(attrs: Buffer, k: nat, y: byte)
    requires k < |attrs| <= CAPACITY
    ensures LaidOut(HEADER, attrs[k := y]) == LaidOut(HEADER, attrs)[0x38 + k := y]
  {
  }

  lemma NamesApart(d: Details, x: byte, y: byte)
    ensures NameBytes(d, y) == NameBytes(d, x)[90 := y]
  {
    assert Utf16Le([x]) == Le16(x) + [] && Utf16Le([y]) == Le16(y) + [];
    assert d.Content([y]) == d.Content([x])[66 := y];
  }

  /** A batch asking for entry 0 of two one-file images, one after the other. */
  function TwoFiles(d: Details, x: byte, y: byte): seq<Row> {
    [Row(Some(OneFile(d, x)), Some(0)), Row(Some(OneFile(d, y)), Some(0))]
  }

  // Under any hash and any faithful crate, the second file is answered with the
  // first one's name.
  lemma CacheMixesFiles(crate: Crate, conv: Conventions, hash: Sample -> nat, d: Details, x: byte, y: byte)
    requires Faithful(crate, conv) && d.Fit() && d.InRoot() && d.Reads(conv, x) && d.Reads(conv, y)
    ensures var indexOf, rows := CoreIndexer(crate), TwoFiles(d, x, y);
            && Uncached(indexOf, rows[1]) == Some(conv.text([y]))
            && Cached(indexOf, Sampled(hash), rows)[1] == Some(conv.text([x]))
  {
    OneByteApart(d, x, y);
    OneByteSeenExactly(OneFile(d, x), 146, y);
    OneFilePath(crate, conv, d, x);
    OneFilePath(crate, conv, d, y);
    PathInIsFullPath(crate, OneFile(d, x), 0);
    PathInIsFullPath(crate, OneFile(d, y), 0);
    PairDecides(CoreIndexer(crate), Sampled(hash), OneFile(d, x), OneFile(d, y), 0);
  }

  /** One-letter names in ASCII are read, as what they say. */
  predicate ReadsLetters(conv: Conventions) {
    forall x: byte {:trigger conv.text([x])} {:trigger conv.textReads([x])} :: x < 128 ==>
      conv.textReads([x]) && conv.text([x]) == [x as char]
  }

  // So, under any crate that reads such names, a file named b is reported as
  // the file named a.
  lemma CacheCanBeWrong(crate: Crate, conv: Conventions, hash: Sample -> nat, d: Details)
    requires Faithful(crate, conv) && ReadsLetters(conv) && d.Fit() && d.InRoot() && ReadsTimes(conv, d.times)
    ensures var indexOf, rows := CoreIndexer(crate), TwoFiles(d, 0x61, 0x62);
            && Uncached(indexOf, rows[1]) == Some("b")
            && Cached(indexOf, Sampled(hash), rows)[1] == Some("a")
  {
    assert conv.text([0x61]) == "a" && conv.text([0x62]) == "b";
    CacheMixesFiles(crate, conv, hash, d, 0x61, 0x62);
  }

  /** Names in ASCII, times of 63 bits, and no others. */
  function Ascii(): Conventions {
    Conventions((units: seq<nat>) => AsciiText(units), (t: nat) => Some(t), (bits: nat) => bits,
                (units: seq<nat>) => forall i :: 0 <= i < |units| ==> units[i] < 128,
                (t: nat) => t < 0x8000_0000_0000_0000)
  }

  function AsciiText(units: seq<nat>): (text: string)
    ensures |text| == |units|
  {
    seq(|units|, i requires 0 <= i < |units| => if units[i] < 128 then units[i] as char else '?')
  }

  // There is such a crate, and there are such files.
  lemma AsciiCrate() returns (crate: Crate, conv: Conventions, d: Details)
    ensures Faithful(crate, conv) && ReadsLetters(conv) && KeepsNames(conv)
    ensures d.Fit() && d.InRoot() && ReadsTimes(conv, d.times)
  {
    conv := Ascii();
    crate := ReadingCrate(conv);
    ReadingCrateFaithful(conv);
    d := Details(ROOT_ENTRY, ROOT_ENTRY, Times(0, 0, 0, 0), 0, 0, 0, 1);
    forall x: byte | x < 128 ensures AsciiText([x]) == [x as char] {
    }
  }

  // ------------------------------------ a record on which the bounds scan faults

  /** A sixteen-byte resident attribute, and the four bytes after it. */
  const CUT_OFF_ATTRIBUTE: Buffer :=
    [0x10, 0, 0, 0, 16, 0, 0, 0, 0, 0, 0, 0, 0, 0, 0, 0, 0, 0, 0, 0]

  /** A full record in use, before its fixups: a sequence number, and a first
      attribute twenty bytes before the end. */
  function CutOffLayout(sequence: nat): (plain: Buffer)
    ensures |plain| == 1024
  {
    FILE + [0x30, 0, 3, 0] + ZeroBytes(8) + Le16(sequence) + [1, 0, 0xEC, 3, 1, 0, 0, 4, 0, 0, 0, 4, 0, 0]
    + ZeroBytes(972) + CUT_OFF_ATTRIBUTE
  }

  function CutOffRecord(sequence: nat): (raw: Buffer)
    ensures |raw| == 1024
  {
    Stored(CutOffLayout(sequence), FILE, false)
  }

  lemma CutOffFields(sequence: nat)
    requires sequence < U16
    ensures var data := Unfixed(CutOffRecord(sequence));
            && IsFile(CutOffRecord(sequence)) && RecordStride(CutOffRecord(sequence)) == 1024
            && U16At(data, 0x10) == sequence && U16At(data, 0x14) == 1004 && U16At(data, 0x16) == 1
            && data[1004..] == CUT_OFF_ATTRIBUTE
  {
    var plain, raw := CutOffLayout(sequence), CutOffRecord(sequence);
    assert plain[..4] == FILE;
    StoredUnfixes(plain, FILE, false);
    UndoneAt(raw);
    var data := Unfixed(raw);
    assert plain[4..8] == [0x30, 0, 3, 0] && plain[0x12..0x20] == [1, 0, 0xEC, 3, 1, 0, 0, 4, 0, 0, 0, 4, 0, 0];
    assert plain[1004..] == CUT_OFF_ATTRIBUTE && plain[0x10..0x12] == Le16(sequence);
    assert data[4..8] == plain[4..8] && data[0x12..0x20] == plain[0x12..0x20] && data[1004..] == plain[1004..];
    assert data[0x10..0x12] == plain[0x10..0x12];
    Read16(data, 0x10, sequence);
    assert raw[4..8] == data[4..8];
    assert raw[0x1C..0x20] == [0, 4, 0, 0];
  }

  // A record the scan faults on is reported by number alone.
  lemma FaultingRecordDecodes(crate: Crate, raw: Buffer, cap: nat)
    requires ReadsHeaders(crate) && IsFile(raw) && RecordStride(raw) == 1024
    requires Scan(Unfixed(raw), U16At(Unfixed(raw), 0x14), MAX_ATTRS) == Fault
    ensures Decode(crate, Open(raw, cap), 0) == Some(DiagnosticRecord(0, CAUGHT))
  {
    assert raw[0..1024] == raw;
    assert Slice(Open(raw, cap), 0) == Some(raw);
    SignatureNotZero(raw);
    assert ParseRecord(crate, raw, 0) == Entry(EntryOf(raw, 0));
    assert Decoded(crate, EntryOf(raw, 0), cap) == Panicked;
  }

  lemma SignatureNotZero(raw: Buffer)
    requires IsFile(raw)
    ensures !Zeros(raw) && HeaderIn(Unfixed(raw)).signature != [0, 0, 0, 0]
  {
    UndoneAt(raw);
    assert raw[0] == raw[..4][0] == 0x46;
    assert Unfixed(raw)[..4][0] == raw[0];
  }

  // The scan is meant to answer `false` for any breach. On this record it reads
  // past the end instead, and the record is reported without the header it has.
  lemma CutOffRecordLosesHeader(crate: Crate, sequence: nat, cap: nat)
    requires ReadsHeaders(crate) && sequence < U16
    ensures var data := Unfixed(CutOffRecord(sequence));
            && Scan(data, U16At(data, 0x14), MAX_ATTRS) == Fault
            && HeaderIn(data).sequence == sequence && HeaderIn(data).inUse
    ensures Decode(crate, Open(CutOffRecord(sequence), cap), 0) == Some(DiagnosticRecord(0, CAUGHT))
  {
    CutOffFields(sequence);
    CutOffFaults(Unfixed(CutOffRecord(sequence)));
    FaultingRecordDecodes(crate, CutOffRecord(sequence), cap);
  }

  lemma CutOffFaults(data: Buffer)
    requires |data| == 1024 && data[1004..] == CUT_OFF_ATTRIBUTE
    ensures Scan(data, 1004, MAX_ATTRS) == Fault
  {
    forall i | 0 <= i < 20 ensures data[1004 + i] == CUT_OFF_ATTRIBUTE[i] {
      assert data[1004..][i] == data[1004 + i];
    }
    assert U32At(data, 1004) == 0x10 && U32At(data, 1008) == 16;
    ScanFollows(data, 1004, [1004], MAX_ATTRS);
  }
}
