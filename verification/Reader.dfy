// From the builder's bytes to the decoded record. The `mft` crate, which parses
// headers and attribute contents, is not part of this model; what it is assumed
// to do with a well-laid-out FILE record is written down here, a crate that does
// so is given, and under it every built record decodes to what was built.
module Reader {
  import opened Common
  import opened Bytes
  import opened PreScan
  import opened Attributes
  import opened Synth
  import opened Record

  // ------------------------------------------------------------- conventions

  /** How bare values are rendered, and which of them the crate can render:
      names, times and attribute bits. */
  datatype Conventions = Conventions(
    text: seq<nat> -> string, micros: nat -> Option<int>, dosFlags: nat -> nat,
    textReads: seq<nat> -> bool, timeReads: nat -> bool)

  /** Only the empty name is rendered as the empty string. */
  ghost predicate KeepsNames(conv: Conventions) {
    forall units: seq<nat> :: conv.text(units) == "" ==> units == []
  }

  function MacbAt(conv: Conventions, c: Buffer, off: nat): Macb
    requires off + 32 <= |c|
  {
    Macb(conv.micros(U64At(c, off)), conv.micros(U64At(c, off + 8)), conv.micros(U64At(c, off + 24)),
         conv.micros(U64At(c, off + 16)))
  }

  function NamespaceOf(b: byte): Namespace {
    if b == 0 then Posix else if b == 1 then Win32 else if b == 2 then Dos else Win32AndDos
  }

  /** Content of the form its type calls for. */
  predicate Decodable(a: Attr) {
    && a.typeId in {STANDARD_INFORMATION, FILE_NAME, DATA}
    && (a.typeId == STANDARD_INFORMATION ==> a.body.Inline? && |a.body.content| == 72)
    && (a.typeId == FILE_NAME ==>
          a.body.Inline? && CountedName(a.body.content).Some? && a.body.content[65] < 4)
  }

  /** The four times at `off` are ones the crate can render. */
  predicate TimesReadable(conv: Conventions, c: Buffer, off: nat)
    requires off + 32 <= |c|
  {
    && conv.timeReads(U64At(c, off)) && conv.timeReads(U64At(c, off + 8))
    && conv.timeReads(U64At(c, off + 16)) && conv.timeReads(U64At(c, off + 24))
  }

  /** The names and times in the attribute are ones the crate can render. */
  predicate Readable(conv: Conventions, a: Attr)
    requires Decodable(a)
  {
    && (a.name.Some? ==> conv.textReads(a.name.value))
    && (a.typeId == STANDARD_INFORMATION ==> TimesReadable(conv, a.body.content, 0))
    && (a.typeId == FILE_NAME ==>
          TimesReadable(conv, a.body.content, 8) && conv.textReads(CountedName(a.body.content).value))
  }

  /** An attribute the builder may add and the crate can parse. */
  predicate Parsable(conv: Conventions, a: Attr) {
    InRange(a) && Decodable(AsRead(a)) && Readable(conv, AsRead(a))
  }

  function ContentOf(conv: Conventions, a: Attr): Content {
    match a.body
    case Sizes(_, _) => OtherContent
    case Inline(c) =>
      if a.typeId == STANDARD_INFORMATION && 72 <= |c| then
        AttrX10(StandardInfo(MacbAt(conv, c, 0), conv.dosFlags(U32At(c, 32)), U64At(c, 64)))
      else if a.typeId == FILE_NAME && CountedName(c).Some? then
        AttrX30(FileName(conv.text(CountedName(c).value), NamespaceOf(c[65]), U64At(c, 0) % 0x1_0000_0000_0000,
                         U64At(c, 0) / 0x1_0000_0000_0000, MacbAt(conv, c, 8), U64At(c, 40), U64At(c, 48)))
      else if a.typeId == DATA then AttrX80(c)
      else OtherContent
  }

  function ResidencyOf(a: Attr): Residency {
    match a.body
    case Inline(c) => Resident(|c|)
    case Sizes(logical, physical) => NonResident(logical, physical)
  }

  /** The crate's view of an attribute read from a record. */
  function AsAttribute(conv: Conventions, a: Attr, flags: nat): Attribute {
    Attribute(a.typeId, a.instance, if a.name.Some? then conv.text(a.name.value) else "", flags, ResidencyOf(a),
              ContentOf(conv, a))
  }

  // ------------------------------------------------- what the crate is assumed

  /** A FILE record of 1024 bytes whose fixups are where the builder puts them. */
  predicate IsFile(raw: Buffer) {
    |raw| == 1024 && raw[..4] == FILE && U16At(raw, 4) == 0x30 && U16At(raw, 6) == 3
  }

  function HeaderIn(data: Buffer): Header
    requires |data| == 1024
  {
    var flags := U16At(data, 0x16);
    Header(data[..4], U16At(data, 0x10), flags % 2 == 1, flags / 2 % 2 == 1, U64At(data, 0x20) % 0x1_0000_0000_0000,
           U64At(data, 0x08), U16At(data, 0x12), U32At(data, 0x18), U32At(data, 0x1C), U16At(data, 0x14))
  }

  /** The crate's view of what was added, names cut as they are stored. */
  function Added(conv: Conventions, added: seq<Attr>): (attrs: seq<Attribute>)
    ensures |attrs| == |added|
  {
    seq(|added|, i requires 0 <= i < |added| => AsAttribute(conv, AsRead(added[i]), 0))
  }

  function Items(attrs: seq<Attribute>): (items: seq<AttributeItem>)
    ensures |items| == |attrs|
  {
    seq(|attrs|, i requires 0 <= i < |attrs| => Item(attrs[i]))
  }

  /** The record's attribute area is the encoding of `added`, terminated. */
  predicate Carries(entry: MftEntry, added: seq<Attr>) {
    |entry.data| == 1024 && Holds(entry.data, entry.header.firstAttribute, EncodeAll(added) + Le32(ALL_ONES))
  }

  /** Fixups are undone before the header is read. */
  ghost predicate ReadsHeaders(crate: Crate) {
    forall raw, n :: IsFile(raw) ==>
      crate.fromBuffer(raw, n) == Returned(Parsed(HeaderIn(Unfixed(raw)), Unfixed(raw), Some(FixupsMatch(raw))))
  }

  /** Attributes laid down as the builder does, with nothing in them the crate
      cannot parse, are iterated one by one. Of any other bytes nothing is said:
      the crate may fail on them in its own way. */
  ghost predicate ReadsAdded(crate: Crate, conv: Conventions) {
    forall entry: MftEntry, added {:trigger crate.iterAttributes(entry), Carries(entry, added)} ::
      Carries(entry, added) && (forall i :: 0 <= i < |added| ==> Parsable(conv, added[i])) ==>
        crate.iterAttributes(entry) == Returned(Items(Added(conv, added)))
  }

  ghost predicate Faithful(crate: Crate, conv: Conventions) {
    ReadsHeaders(crate) && ReadsAdded(crate, conv)
  }

  // --------------------------------------------------- a crate that is faithful

  /** A whole header of its kind, and content that can be parsed. */
  predicate CanRead(conv: Conventions, data: Buffer, off: nat) {
    && SoundAt(data, off) && (!ResidentAt(data, off) ==> off + 64 <= |data|)
    && Decodable(ReadAt(data, off)) && Readable(conv, ReadAt(data, off))
  }

  /** Read attribute after attribute, breaking at the first that cannot be. */
  function ReadChain(conv: Conventions, data: Buffer, off: nat): seq<AttributeItem>
    decreases |data| - off
  {
    if TerminatorAt(data, off) then []
    else if CanRead(conv, data, off) then
      [Item(AsAttribute(conv, ReadAt(data, off), FlagsAt(data, off)))]
      + ReadChain(conv, data, off + LengthAt(data, off))
    else [Broken("unreadable attribute")]
  }

  function ReadingCrate(conv: Conventions): Crate {
    Crate(
      (raw: Buffer, n: nat) =>
        if IsFile(raw) then Returned(Parsed(HeaderIn(Unfixed(raw)), Unfixed(raw), Some(FixupsMatch(raw))))
        else Returned(Failed("not-an-mft", "bad signature")),
      (entry: MftEntry) => Returned(ReadChain(conv, entry.data, entry.header.firstAttribute)))
  }

  lemma ReadChainStep(conv: Conventions, data: Buffer, off: nat, a: Attr)
    requires SpelledAt(data, off, a) && CanRead(conv, data, off)
    ensures ReadChain(conv, data, off)
            == [Item(AsAttribute(conv, AsRead(a), 0))] + ReadChain(conv, data, off + LengthAt(data, off))
  {
  }

  // Reading on from offset to offset, one item at a time.
  lemma {:induction false} ReadOn(read: nat -> seq<AttributeItem>, offs: seq<nat>, items: seq<AttributeItem>, i: nat)
    requires |offs| == |items| + 1 && i <= |items| && read(offs[|items|]) == []
    requires forall j :: 0 <= j < |items| ==> read(offs[j]) == [items[j]] + read(offs[j + 1])
    ensures read(offs[i]) == items[i..]
    decreases |items| - i
  {
    if i < |items| {
      ReadOn(read, offs, items, i + 1);
    }
  }

  // The assumption can be met, by a crate that fails on whatever it cannot read.
  lemma ReadingCrateFaithful(conv: Conventions)
    ensures Faithful(ReadingCrate(conv), conv)
  {
    var crate := ReadingCrate(conv);
    forall entry: MftEntry, added |
      Carries(entry, added) && (forall i :: 0 <= i < |added| ==> Parsable(conv, added[i]))
      ensures crate.iterAttributes(entry) == Returned(Items(Added(conv, added)))
    {
      CarriedReads(conv, entry, added);
    }
  }

  lemma CarriedReads(conv: Conventions, entry: MftEntry, added: seq<Attr>)
    requires Carries(entry, added) && forall i :: 0 <= i < |added| ==> Parsable(conv, added[i])
    ensures ReadChain(conv, entry.data, entry.header.firstAttribute) == Items(Added(conv, added))
  {
    var data, first := entry.data, entry.header.firstAttribute;
    var offs, items := Offsets(first, added), Items(Added(conv, added));
    var read := (off: nat) => ReadChain(conv, data, off);
    EncodedChainReads(data, first, added);
    forall i | 0 <= i < |added| ensures read(offs[i]) == [items[i]] + read(offs[i + 1]) {
      EncodedChainStep(data, first, added, i);
      LengthOfAdded(data, first, added, i);
      CarriedStep(conv, data, offs[i], offs[i + 1], added[i]);
    }
    ReadOn(read, offs, items, 0);
  }

  lemma CarriedStep(conv: Conventions, data: Buffer, off: nat, next: nat, a: Attr)
    requires SpelledAt(data, off, a) && Parsable(conv, a) && next == off + LengthAt(data, off)
    requires a.body.Sizes? ==> off + 64 <= |data|
    ensures ReadChain(conv, data, off) == [Item(AsAttribute(conv, AsRead(a), 0))] + ReadChain(conv, data, next)
  {
    AddedCanBeRead(conv, data, off, a);
    ReadChainStep(conv, data, off, a);
  }

  lemma AddedCanBeRead(conv: Conventions, data: Buffer, off: nat, a: Attr)
    requires SpelledAt(data, off, a) && Parsable(conv, a)
    requires a.body.Sizes? ==> off + 64 <= |data|
    ensures CanRead(conv, data, off)
  {
    assert ReadAt(data, off).body.Inline? <==> ResidentAt(data, off);
    assert AsRead(a).body == a.body;
  }

  // A size-only attribute has room for its whole header.
  lemma LengthOfAdded(data: Buffer, first: nat, added: seq<Attr>, i: nat)
    requires |data| < U16 && i < |added| && InRange(added[i])
    requires Holds(data, first, EncodeAll(added) + Le32(ALL_ONES))
    ensures added[i].body.Sizes? ==> Offsets(first, added)[i] + 64 <= |data|
  {
    PieceFound(data, first, Pieces(added), Le32(ALL_ONES), i);
  }

  // ------------------------------------------------ a built record, decoded

  predicate FieldsInRange(f: Fields) {
    && f.lsn < U64 && f.sequence < U16 && f.hardLinkCount < U16 && f.flags < 4 && f.baseRef < U64
    && f.nextInstance < U16
  }

  /** The header holds the builder's fields. */
  predicate HeaderShows(h: Header, f: Fields, used: nat) {
    && h.signature == f.signature && h.sequence == f.sequence && h.hardLinkCount == f.hardLinkCount
    && h.inUse == (f.flags % 2 == 1) && h.isDir == (f.flags / 2 == 1)
    && h.baseRef == f.baseRef % 0x1_0000_0000_0000 && h.lsn == f.lsn
    && h.usedSize == used && h.allocatedSize == RECORD_SIZE && h.firstAttribute == FIRST_ATTR_OFFSET
  }

  lemma HeaderReads(data: Buffer, f: Fields, used: nat)
    requires |data| == 1024 && |f.signature| == 4 && HasHeader(data, f, used) && FieldsInRange(f) && used < U32
    ensures HeaderShows(HeaderIn(data), f, used)
  {
    LowHeaderReads(data, f);
    HighHeaderReads(data, f, used);
  }

  lemma LowHeaderReads(data: Buffer, f: Fields)
    requires |data| == 1024 && |f.signature| == 4 && LowHeader(data, f) && FieldsInRange(f)
    ensures data[..4] == f.signature && U64At(data, 0x08) == f.lsn
    ensures U16At(data, 0x10) == f.sequence && U16At(data, 0x12) == f.hardLinkCount
  {
    Read64(data, 0x08, f.lsn);
    Read16(data, 0x10, f.sequence);
    Read16(data, 0x12, f.hardLinkCount);
    assert data[..4] == data[0..4];
  }

  lemma HighHeaderReads(data: Buffer, f: Fields, used: nat)
    requires |data| == 1024 && HighHeader(data, f, used) && FieldsInRange(f) && used < U32
    ensures U16At(data, 0x14) == FIRST_ATTR_OFFSET && U16At(data, 0x16) == f.flags
    ensures U32At(data, 0x18) == used && U32At(data, 0x1C) == RECORD_SIZE && U64At(data, 0x20) == f.baseRef
  {
    Read16(data, 0x14, FIRST_ATTR_OFFSET);
    Read16(data, 0x16, f.flags);
    Read32(data, 0x18, used);
    Read32(data, 0x1C, RECORD_SIZE);
    Read64(data, 0x20, f.baseRef);
  }

  // The header of a built record, field by field, once its fixups are undone.
  lemma BuiltHeaderBytes(raw: Buffer, f: Fields, added: seq<Attr>, damaged: bool)
    requires IsRecord(raw, f, added, damaged) && |f.signature| == 4 && FieldsInRange(f)
    requires |EncodeAll(added)| <= CAPACITY
    ensures var data := Unfixed(raw);
            && raw[..4] == f.signature && data[..4] == f.signature
            && U16At(data, 0x04) == 0x30 && U16At(data, 0x06) == 3 && U64At(data, 0x08) == f.lsn
            && U16At(data, 0x10) == f.sequence && U16At(data, 0x12) == f.hardLinkCount
            && U16At(data, 0x14) == 0x38 && U16At(data, 0x16) == f.flags
            && U32At(data, 0x18) == 0x38 + |EncodeAll(added)| + 4 && U32At(data, 0x1C) == 1024
            && U64At(data, 0x20) == f.baseRef && U16At(data, 0x28) == f.nextInstance
  {
    var data := Unfixed(raw);
    LowHeaderReads(data, f);
    HighHeaderReads(data, f, 0x38 + |EncodeAll(added)| + 4);
    Read16(data, 0x04, 0x30);
    Read16(data, 0x06, 3);
    Read16(data, 0x28, f.nextInstance);
  }

  // The stored bytes of a FILE record still say where its fixups are.
  lemma BuiltIsFile(raw: Buffer, f: Fields, added: seq<Attr>, damaged: bool)
    requires IsRecord(raw, f, added, damaged) && f.signature == FILE
    ensures IsFile(raw)
  {
    UndoneAt(raw);
    Read16(Unfixed(raw), 4, 0x30);
    Read16(Unfixed(raw), 6, 3);
  }

  lemma {:induction false} UsableWhole(items: seq<AttributeItem>, attrs: seq<Attribute>)
    requires items == Items(attrs)
    ensures Usable(items) == attrs
  {
    if items != [] {
      assert items[1..] == Items(attrs[1..]);
      UsableWhole(items[1..], attrs[1..]);
    }
  }

  /** The entry a faithful crate makes of a record. */
  function EntryOf(raw: Buffer, n: nat): MftEntry
    requires |raw| == 1024
  {
    MftEntry(n, HeaderIn(Unfixed(raw)), Unfixed(raw), Some(FixupsMatch(raw)))
  }

  /** A FILE record as the builder stores it, of attributes a crate can parse. */
  ghost predicate Built(conv: Conventions, raw: Buffer, f: Fields, added: seq<Attr>, damaged: bool) {
    && IsRecord(raw, f, added, damaged) && f.signature == FILE && FieldsInRange(f)
    && |EncodeAll(added)| <= CAPACITY
    && forall i :: 0 <= i < |added| ==> Parsable(conv, added[i])
  }

  // A faithful crate parses a built record to its header and iterates exactly
  // the attributes added to it.
  lemma BuiltRecordParses(crate: Crate, conv: Conventions, raw: Buffer, f: Fields, added: seq<Attr>, damaged: bool,
                          n: nat) returns (items: seq<AttributeItem>)
    requires Faithful(crate, conv) && Built(conv, raw, f, added, damaged)
    ensures ParseRecord(crate, raw, n) == Entry(EntryOf(raw, n))
    ensures HeaderShows(EntryOf(raw, n).header, f, 0x38 + |EncodeAll(added)| + 4)
    ensures EntryOf(raw, n).validFixup == Some(!damaged)
    ensures crate.iterAttributes(EntryOf(raw, n)) == Returned(items)
    ensures items == Items(Added(conv, added)) && Usable(items) == Added(conv, added)
    ensures exists offs :: WellTiled(EntryOf(raw, n).data, EntryOf(raw, n).header.firstAttribute, offs)
  {
    FewAttributes(added);
    var data, offs, entry := Unfixed(raw), Offsets(FIRST_ATTR_OFFSET, added), EntryOf(raw, n);
    BuiltIsFile(raw, f, added, damaged);
    HeaderReads(data, f, 0x38 + |EncodeAll(added)| + 4);
    assert raw[..4][0] == raw[0] && raw[0] != 0;
    assert WellTiled(entry.data, entry.header.firstAttribute, offs);
    assert Carries(entry, added);
    items := Items(Added(conv, added));
    UsableWhole(items, Added(conv, added));
  }

  // A built record, decoded: header and fixup check as built, one listed
  // attribute for each one added and in that order, and no diagnostic unless it
  // was damaged.
  lemma BuiltRecordDecodes(crate: Crate, conv: Conventions, raw: Buffer, f: Fields, added: seq<Attr>, damaged: bool,
                           n: nat, cap: nat)
    requires Faithful(crate, conv) && Built(conv, raw, f, added, damaged)
    ensures ParseRecord(crate, raw, n) == Entry(EntryOf(raw, n))
    ensures HeaderShows(EntryOf(raw, n).header, f, 0x38 + |EncodeAll(added)| + 4)
    ensures var rec := DecodeEntrySafe(crate, EntryOf(raw, n), n, cap);
            && ShowsHeader(rec, EntryOf(raw, n)) && rec.fixupOk == Some(!damaged)
            && |rec.attributes| == |added|
            && (forall i :: 0 <= i < |added| ==> rec.attributes[i] == Info(Added(conv, added)[i]))
            && rec.diagnostics == if damaged then ["fixup-mismatch"] else []
  {
    var items := BuiltRecordParses(crate, conv, raw, f, added, damaged, n);
    var _, _ := AcceptedRecordDecodes(crate, EntryOf(raw, n), n, cap, items);
    var _ := AcceptedRecordDiagnostics(crate, EntryOf(raw, n), n, cap, items);
    NoAttributeList(conv, added, items);
  }

  // Its streams are its data attributes: the last unnamed one, and the named
  // ones in the order added.
  lemma BuiltRecordStreams(crate: Crate, conv: Conventions, raw: Buffer, f: Fields, added: seq<Attr>, damaged: bool,
                           n: nat, cap: nat) returns (primary: int, ads: seq<nat>)
    requires Faithful(crate, conv) && Built(conv, raw, f, added, damaged)
    ensures var rec := DecodeEntrySafe(crate, EntryOf(raw, n), n, cap);
            && IsLast(Added(conv, added), PickPrimary(cap), primary, rec.data.primary)
            && IsList(Added(conv, added), PickAds(cap), ads, rec.data.ads)
  {
    var items := BuiltRecordParses(crate, conv, raw, f, added, damaged, n);
    primary, ads := AcceptedRecordDecodes(crate, EntryOf(raw, n), n, cap, items);
  }

  // Its names are its file-name attributes in the order added, its standard
  // information the last one added.
  lemma BuiltRecordNames(crate: Crate, conv: Conventions, raw: Buffer, f: Fields, added: seq<Attr>, damaged: bool,
                         n: nat, cap: nat) returns (names: seq<nat>, si: int)
    requires Faithful(crate, conv) && Built(conv, raw, f, added, damaged)
    ensures var rec := DecodeEntrySafe(crate, EntryOf(raw, n), n, cap);
            && IsList(Added(conv, added), PickFileName(), names, rec.fileNames)
            && rec.fileNames == Collect(Added(conv, added), PickFileName())
            && IsLast(Added(conv, added), PickStandardInfo(), si, rec.standardInfo)
  {
    var items := BuiltRecordParses(crate, conv, raw, f, added, damaged, n);
    si, names := AcceptedRecordNames(crate, EntryOf(raw, n), n, cap, items);
  }

  lemma NoAttributeList(conv: Conventions, added: seq<Attr>, items: seq<AttributeItem>)
    requires items == Items(Added(conv, added))
    requires forall i :: 0 <= i < |added| ==> Parsable(conv, added[i])
    ensures forall i :: 0 <= i < |items| ==> items[i].Item? && items[i].attr.typeId != ATTRIBUTE_LIST
  {
    forall i | 0 <= i < |items| ensures items[i].Item? && items[i].attr.typeId != ATTRIBUTE_LIST {
      assert Parsable(conv, added[i]);
    }
  }

  // ------------------------------------ what each added attribute turns into

  // Listed under its type, instance, residency and sizes; named exactly if a
  // name survives.
  lemma ListedAsAdded(conv: Conventions, a: Attr)
    requires KeepsNames(conv)
    ensures var info := Info(AsAttribute(conv, AsRead(a), 0));
            && info.typeId == a.typeId && info.attributeId == a.instance && info.flags == 0
            && (info.resident <==> a.body.Inline?)
            && (a.body.Inline? ==> info.logicalSize == info.physicalSize == |a.body.content|)
            && (a.body.Sizes? ==> info.logicalSize == a.body.logical && info.physicalSize == a.body.physical)
            && info.name == (if Kept(a.name).Some? then Some(conv.text(Kept(a.name).value)) else None)
  {
  }

  // A data attribute is the primary stream or an alternate one by its surviving
  // name, and carries the content as far as the cap allows, or the sizes alone.
  lemma StreamAsAdded(conv: Conventions, a: Attr, cap: nat)
    requires KeepsNames(conv) && a.typeId == DATA
    ensures var attr := AsAttribute(conv, AsRead(a), 0);
            var s := Stream(attr, cap);
            && PickPrimary(cap)(attr) == (if Kept(a.name).None? then Some(s) else None)
            && PickAds(cap)(attr) == (if Kept(a.name).Some? then Some(s) else None)
            && s.name == (if Kept(a.name).Some? then Some(conv.text(Kept(a.name).value)) else None)
            && (match a.body
                case Inline(c) =>
                  && s.resident && s.logicalSize == s.physicalSize == |c|
                  && s.data == (if c == [] then None else Some(c[..Min(|c|, cap)]))
                case Sizes(logical, physical) =>
                  !s.resident && s.logicalSize == logical && s.physicalSize == physical && s.data.None?)
  {
  }

  // A standard-information attribute gives back its times, flags and USN.
  lemma StandardInfoAsAdded(conv: Conventions, instance: nat, t: Times, dosFlags: nat, usn: nat)
    requires TimesInRange(t) && dosFlags < U32 && usn < U64
    ensures var a := Attr(STANDARD_INFORMATION, instance, None, Inline(StandardInfoContent(t, dosFlags, usn)));
            && Decodable(AsRead(a)) && (Readable(conv, AsRead(a)) <==> ReadsTimes(conv, t))
            && PickStandardInfo()(AsAttribute(conv, AsRead(a), 0))
               == Some(StandardInfo(MacbOf(conv, t), conv.dosFlags(dosFlags), usn))
  {
    StandardInfoReads(t, dosFlags, usn);
  }

  predicate ReadsTimes(conv: Conventions, t: Times) {
    && conv.timeReads(t.created) && conv.timeReads(t.modified)
    && conv.timeReads(t.mftModified) && conv.timeReads(t.accessed)
  }

  function MacbOf(conv: Conventions, t: Times): Macb {
    Macb(conv.micros(t.created), conv.micros(t.modified), conv.micros(t.accessed), conv.micros(t.mftModified))
  }

  // A file-name attribute gives back its parent, times, sizes, namespace and the
  // name as far as its one-byte count reaches.
  lemma FileNameAsAdded(conv: Conventions, instance: nat, parentEntry: nat, parentSeq: nat, t: Times, logical: nat,
                        physical: nat, flags: nat, namespace: byte, name: seq<nat>)
    requires TimesInRange(t) && parentSeq < U16 && logical < U64 && physical < U64 && flags < U32 && namespace < 4
    requires forall i :: 0 <= i < |name| ==> name[i] < U16
    ensures var c := FileNameContent(parentEntry, parentSeq, t, logical, physical, flags, namespace, name);
            var a := Attr(FILE_NAME, instance, None, Inline(c));
            && Decodable(AsRead(a))
            && (Readable(conv, AsRead(a)) <==> ReadsTimes(conv, t) && conv.textReads(CutName(name)))
            && PickFileName()(AsAttribute(conv, AsRead(a), 0))
               == Some(FileName(conv.text(CutName(name)), NamespaceOf(namespace), parentEntry % 0x1_0000_0000_0000,
                                parentSeq, MacbOf(conv, t), logical, physical))
  {
    FileNameReads(parentEntry, parentSeq, t, logical, physical, flags, namespace, name);
    ParentReferenceReads(parentEntry, parentSeq);
  }
}
