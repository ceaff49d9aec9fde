// Record decode: the attribute fold of crates/mft-core/src/record.rs behind its
// bounds gate, and the panic backstops of crates/mft-core/src/parse.rs.
module Record {
  import opened Common
  import opened Bytes
  import opened PreScan

  // --------------------------------------------------------- decoded values

  datatype Macb = Macb(
    created: Option<int>, modified: Option<int>, accessed: Option<int>, mftModified: Option<int>)

  const NO_TIMES: Macb := Macb(None, None, None, None)

  datatype StandardInfo = StandardInfo(macb: Macb, dosAttributes: nat, usn: nat)

  datatype Namespace = Posix | Win32 | Dos | Win32AndDos {
    predicate IsLong() {
      Win32? || Win32AndDos?
    }

    function AsStr(): string {
      match this
      case Posix => "POSIX"
      case Win32 => "Win32"
      case Dos => "DOS"
      case Win32AndDos => "Win32AndDos"
    }
  }

  datatype FileName = FileName(
    name: string, namespace: Namespace, parentEntry: nat, parentSeq: nat,
    macb: Macb, logicalSize: nat, physicalSize: nat)

  datatype DataStream = DataStream(
    name: Option<string>, logicalSize: nat, physicalSize: nat, resident: bool, data: Option<Buffer>)

  datatype DataStreams = DataStreams(primary: Option<DataStream>, ads: seq<DataStream>)

  datatype AttrInfo = AttrInfo(
    attributeId: nat, typeId: nat, typeName: string, resident: bool, name: Option<string>,
    logicalSize: nat, physicalSize: nat, flags: nat)

  datatype DecodedRecord = DecodedRecord(
    entry: nat, sequence: nat, inUse: bool, isDir: bool, baseRef: nat, lsn: nat,
    hardLinkCount: nat, usedSize: nat, allocatedSize: nat, signature: Buffer,
    fixupOk: Option<bool>, standardInfo: Option<StandardInfo>, fileNames: seq<FileName>,
    data: DataStreams, attributes: seq<AttrInfo>, diagnostics: seq<string>)

  // ------------------------------------------ the `mft` crate, as a parameter

  datatype Header = Header(
    signature: Buffer, sequence: nat, inUse: bool, isDir: bool, baseRef: nat, lsn: nat,
    hardLinkCount: nat, usedSize: nat, allocatedSize: nat, firstAttribute: nat)

  datatype MftEntry = MftEntry(
    recordNumber: nat, header: Header, data: Buffer, validFixup: Option<bool>)

  datatype Residency = Resident(dataSize: nat) | NonResident(fileSize: nat, allocatedLength: nat)

  datatype Content = AttrX10(si: StandardInfo) | AttrX30(fna: FileName) | AttrX80(bytes: Buffer) | OtherContent

  datatype Attribute = Attribute(
    typeId: nat, instance: nat, name: string, flags: nat, residency: Residency, content: Content)

  datatype AttributeItem = Item(attr: Attribute) | Broken(error: string)

  datatype Parsed = Parsed(header: Header, data: Buffer, validFixup: Option<bool>) | Failed(kind: string, msg: string)

  /** The two entry points the worker calls; any deterministic behaviour. A
      panic met before the first broken item makes the iteration `Panicked`. */
  datatype Crate = Crate(
    fromBuffer: (Buffer, nat) -> Attempt<Parsed>,
    iterAttributes: MftEntry -> Attempt<seq<AttributeItem>>)

  // ------------------------------------------------------- one attribute's view

  const STANDARD_INFORMATION: nat := 0x10
  const ATTRIBUTE_LIST: nat := 0x20
  const FILE_NAME: nat := 0x30
  const DATA: nat := 0x80

  function TypeName(typeId: nat): string {
    match typeId
    case 0x10 => "$STANDARD_INFORMATION"
    case 0x20 => "$ATTRIBUTE_LIST"
    case 0x30 => "$FILE_NAME"
    case 0x40 => "$OBJECT_ID"
    case 0x50 => "$SECURITY_DESCRIPTOR"
    case 0x60 => "$VOLUME_NAME"
    case 0x70 => "$VOLUME_INFORMATION"
    case 0x80 => "$DATA"
    case 0x90 => "$INDEX_ROOT"
    case 0xA0 => "$INDEX_ALLOCATION"
    case 0xB0 => "$BITMAP"
    case 0xC0 => "$REPARSE_POINT"
    case 0xD0 => "$EA_INFORMATION"
    case 0xE0 => "$EA"
    case 0x100 => "$LOGGED_UTILITY_STREAM"
    case _ => "$UNKNOWN"
  }

  function AttrName(a: Attribute): Option<string> {
    if a.name == "" then None else Some(a.name)
  }

  function LogicalSize(a: Attribute): nat {
    match a.residency
    case Resident(size) => size
    case NonResident(size, _) => size
  }

  function PhysicalSize(a: Attribute): nat {
    match a.residency
    case Resident(size) => size
    case NonResident(_, size) => size
  }

  function Info(a: Attribute): (r: AttrInfo)
    ensures r.resident ==> a.residency == Resident(r.logicalSize) && r.physicalSize == r.logicalSize
    ensures !r.resident ==> a.residency == NonResident(r.logicalSize, r.physicalSize)
  {
    AttrInfo(a.instance, a.typeId, TypeName(a.typeId), a.residency.Resident?, AttrName(a),
             LogicalSize(a), PhysicalSize(a), a.flags)
  }

  /** Inline bytes: a prefix of the content, at most `cap` long, if any. */
  function ResidentBytes(a: Attribute, cap: nat): (r: Option<Buffer>)
    ensures r.Some? <==> a.content.AttrX80? && a.content.bytes != []
    ensures r.Some? ==> r.value <= a.content.bytes && |r.value| == Min(|a.content.bytes|, cap)
  {
    if a.content.AttrX80? && a.content.bytes != [] then
      Some(a.content.bytes[..Min(|a.content.bytes|, cap)])
    else None
  }

  function Stream(a: Attribute, cap: nat): (r: DataStream)
    ensures r.resident ==> a.residency == Resident(r.logicalSize) && r.physicalSize == r.logicalSize
    ensures !r.resident ==> a.residency == NonResident(r.logicalSize, r.physicalSize)
  {
    DataStream(AttrName(a), LogicalSize(a), PhysicalSize(a), a.residency.Resident?, ResidentBytes(a, cap))
  }

  predicate IsUnnamedData(a: Attribute) {
    a.typeId == DATA && AttrName(a).None?
  }

  predicate IsNamedData(a: Attribute) {
    a.typeId == DATA && AttrName(a).Some?
  }

  // ------------------------------------------------------- the fold's meaning

  /** The attributes before the first broken one. */
  function Usable(items: seq<AttributeItem>): (attrs: seq<Attribute>)
    ensures |attrs| <= |items|
    ensures forall i :: 0 <= i < |attrs| ==> items[i] == Item(attrs[i])
    ensures |attrs| < |items| ==> items[|attrs|].Broken?
  {
    if items == [] || items[0].Broken? then [] else [items[0].attr] + Usable(items[1..])
  }

  function Infos(attrs: seq<Attribute>): seq<AttrInfo> {
    seq(|attrs|, i requires 0 <= i < |attrs| => Info(attrs[i]))
  }

  /** A choice of attributes, and what to keep of each one chosen. */
  type Pick<T> = Attribute -> Option<T>

  /** What is kept of every attribute chosen, in order. */
  function Collect<T>(attrs: seq<Attribute>, pick: Pick<T>): seq<T> {
    if attrs == [] then []
    else
      var last := pick(attrs[|attrs| - 1]);
      Collect(attrs[..|attrs| - 1], pick) + if last.Some? then [last.value] else []
  }

  /** What is kept of the last attribute chosen. */
  function Latest<T>(attrs: seq<Attribute>, pick: Pick<T>): Option<T> {
    if attrs == [] then None
    else
      var last := pick(attrs[|attrs| - 1]);
      if last.Some? then last else Latest(attrs[..|attrs| - 1], pick)
  }

  function PickStandardInfo(): Pick<StandardInfo> {
    (a: Attribute) => if a.typeId == STANDARD_INFORMATION && a.content.AttrX10? then Some(a.content.si) else None
  }

  function PickFileName(): Pick<FileName> {
    (a: Attribute) => if a.typeId == FILE_NAME && a.content.AttrX30? then Some(a.content.fna) else None
  }

  function PickPrimary(cap: nat): Pick<DataStream> {
    (a: Attribute) => if IsUnnamedData(a) then Some(Stream(a, cap)) else None
  }

  function PickAds(cap: nat): Pick<DataStream> {
    (a: Attribute) => if IsNamedData(a) then Some(Stream(a, cap)) else None
  }

  predicate HasAttributeList(attrs: seq<Attribute>) {
    exists i :: 0 <= i < |attrs| && attrs[i].typeId == ATTRIBUTE_LIST
  }

  function HeaderDiagnostics(entry: MftEntry): seq<string> {
    (if entry.header.signature == BAAD then ["baad"] else [])
    + if entry.validFixup == Some(false) then ["fixup-mismatch"] else []
  }

  /** A record with the entry's header fields and the given decoded parts. */
  function WithHeader(entry: MftEntry, si: Option<StandardInfo>, names: seq<FileName>, data: DataStreams,
                      attributes: seq<AttrInfo>, diagnostics: seq<string>): DecodedRecord {
    var h := entry.header;
    DecodedRecord(entry.recordNumber, h.sequence, h.inUse, h.isDir, h.baseRef, h.lsn, h.hardLinkCount,
                  h.usedSize, h.allocatedSize, h.signature, entry.validFixup, si, names, data, attributes,
                  diagnostics)
  }

  /** The record shows the entry's number and header. */
  predicate ShowsHeader(rec: DecodedRecord, entry: MftEntry) {
    && rec.entry == entry.recordNumber && rec.signature == entry.header.signature && rec.fixupOk == entry.validFixup
    && rec.sequence == entry.header.sequence && rec.hardLinkCount == entry.header.hardLinkCount
    && rec.inUse == entry.header.inUse && rec.isDir == entry.header.isDir
    && rec.baseRef == entry.header.baseRef && rec.lsn == entry.header.lsn
    && rec.usedSize == entry.header.usedSize && rec.allocatedSize == entry.header.allocatedSize
  }

  const NO_STREAMS: DataStreams := DataStreams(None, [])

  function Folded(entry: MftEntry, items: seq<AttributeItem>, cap: nat): DecodedRecord {
    var attrs := Usable(items);
    WithHeader(entry, Latest(attrs, PickStandardInfo()), Collect(attrs, PickFileName()),
               DataStreams(Latest(attrs, PickPrimary(cap)), Collect(attrs, PickAds(cap))), Infos(attrs),
               HeaderDiagnostics(entry)
               + (if |attrs| < |items| then ["decode-error:" + items[|attrs|].error] else [])
               + if HasAttributeList(attrs) then ["attr-overflow"] else [])
  }

  function Decoded(crate: Crate, entry: MftEntry, cap: nat): Attempt<DecodedRecord> {
    match Scan(entry.data, entry.header.firstAttribute, MAX_ATTRS)
    case Fault => Panicked
    case Reject =>
      Returned(WithHeader(entry, None, [], NO_STREAMS, [], HeaderDiagnostics(entry) + ["attr-overrun"]))
    case Accept =>
      match crate.iterAttributes(entry)
      case Panicked => Panicked
      case Returned(items) => Returned(Folded(entry, items, cap))
  }

  /** The vectors the loop fills. */
  datatype Parts = Parts(si: Option<StandardInfo>, names: seq<FileName>, data: DataStreams,
                         attributes: seq<AttrInfo>, sawAttrList: bool)

  function PartsOf(attrs: seq<Attribute>, cap: nat): Parts {
    Parts(Latest(attrs, PickStandardInfo()), Collect(attrs, PickFileName()),
          DataStreams(Latest(attrs, PickPrimary(cap)), Collect(attrs, PickAds(cap))),
          Infos(attrs), HasAttributeList(attrs))
  }

  lemma PartsGrow(before: seq<Attribute>, a: Attribute, cap: nat)
    ensures var was, now := PartsOf(before, cap), PartsOf(before + [a], cap);
            && now.si == (if a.typeId == STANDARD_INFORMATION && a.content.AttrX10? then Some(a.content.si) else was.si)
            && now.names == was.names + (if a.typeId == FILE_NAME && a.content.AttrX30? then [a.content.fna] else [])
            && now.data.primary == (if IsUnnamedData(a) then Some(Stream(a, cap)) else was.data.primary)
            && now.data.ads == was.data.ads + (if IsNamedData(a) then [Stream(a, cap)] else [])
            && now.attributes == was.attributes + [Info(a)]
            && now.sawAttrList == (was.sawAttrList || a.typeId == ATTRIBUTE_LIST)
  {
    assert (before + [a])[..|before|] == before;
    HasListGrows(before, a);
  }

  // One turn of the loop body.
  method FoldOne(parts: Parts, a: Attribute, cap: nat, ghost before: seq<Attribute>) returns (r: Parts)
    requires parts == PartsOf(before, cap)
    ensures r == PartsOf(before + [a], cap)
  {
    PartsGrow(before, a, cap);
    r := parts.(attributes := parts.attributes + [Info(a)]);
    if a.typeId == ATTRIBUTE_LIST {
      r := r.(sawAttrList := true);
    } else if a.typeId == STANDARD_INFORMATION {
      if a.content.AttrX10? {
        r := r.(si := Some(a.content.si));
      }
    } else if a.typeId == FILE_NAME {
      if a.content.AttrX30? {
        r := r.(names := r.names + [a.content.fna]);
      }
    } else if a.typeId == DATA {
      var stream := Stream(a, cap);
      if AttrName(a).None? {
        r := r.(data := r.data.(primary := Some(stream)));
      } else {
        r := r.(data := r.data.(ads := r.data.ads + [stream]));
      }
    }
  }

  lemma HasListGrows(before: seq<Attribute>, a: Attribute)
    ensures HasAttributeList(before + [a]) <==> HasAttributeList(before) || a.typeId == ATTRIBUTE_LIST
  {
    var after := before + [a];
    assert forall i :: 0 <= i < |before| ==> after[i] == before[i];
    assert after[|before|] == a;
  }

  // The loop as written: vectors pushed to, `primary` overwritten, and an
  // early exit at the first broken attribute.
  method FoldAttributes(items: seq<AttributeItem>, cap: nat) returns (parts: Parts, error: Option<string>)
    ensures parts == PartsOf(Usable(items), cap)
    ensures error == if |Usable(items)| < |items| then Some(items[|Usable(items)|].error) else None
  {
    parts, error := Parts(None, [], NO_STREAMS, [], false), None;
    ghost var attrs := Usable(items);
    var i := 0;
    while i < |items|
      invariant i <= |attrs|
      invariant parts == PartsOf(attrs[..i], cap)
      invariant error.None?
    {
      if items[i].Broken? {
        error := Some(items[i].error);
        break;
      }
      assert i < |attrs| && items[i] == Item(attrs[i]);
      assert attrs[..i + 1] == attrs[..i] + [attrs[i]];
      parts := FoldOne(parts, items[i].attr, cap, attrs[..i]);
      i := i + 1;
    }
    assert attrs[..i] == attrs;
  }

  method DecodeEntry(crate: Crate, entry: MftEntry, cap: nat) returns (r: Attempt<DecodedRecord>)
    ensures r == Decoded(crate, entry, cap)
  {
    var diagnostics := [];
    if entry.header.signature == BAAD {
      diagnostics := diagnostics + ["baad"];
    }
    if entry.validFixup == Some(false) {
      diagnostics := diagnostics + ["fixup-mismatch"];
    }
    assert diagnostics == HeaderDiagnostics(entry);
    var verdict, _ := AttributesWithinBounds(entry.data, entry.header.firstAttribute);
    if verdict == Fault {
      return Panicked;
    }
    if verdict == Reject {
      return Returned(WithHeader(entry, None, [], NO_STREAMS, [], diagnostics + ["attr-overrun"]));
    }
    var iteration := crate.iterAttributes(entry);
    if iteration == Panicked {
      return Panicked;
    }
    var parts, error := FoldAttributes(iteration.value, cap);
    if error.Some? {
      diagnostics := diagnostics + ["decode-error:" + error.value];
    }
    if parts.sawAttrList {
      diagnostics := diagnostics + ["attr-overflow"];
    }
    assert diagnostics == Folded(entry, iteration.value, cap).diagnostics;
    return Returned(WithHeader(entry, parts.si, parts.names, parts.data, parts.attributes, diagnostics));
  }

  // -------------------------------------------- what the fold's answers say

  /** `kept` is what `pick` makes of attribute `k`, the last one it chooses; -1
      and nothing if it chooses none. */
  ghost predicate IsLast<T>(attrs: seq<Attribute>, pick: Pick<T>, k: int, kept: Option<T>) {
    && -1 <= k < |attrs|
    && (forall j :: k < j < |attrs| ==> pick(attrs[j]).None?)
    && (kept.None? <==> k == -1)
    && (0 <= k ==> kept == pick(attrs[k]))
  }

  /** `kept` is what `pick` makes of the attributes at `ks`, ascending: exactly
      those it chooses. */
  ghost predicate IsList<T>(attrs: seq<Attribute>, pick: Pick<T>, ks: seq<nat>, kept: seq<T>) {
    && Ascending(ks) && |ks| == |kept|
    && (forall i :: 0 <= i < |ks| ==> ks[i] < |attrs| && pick(attrs[ks[i]]) == Some(kept[i]))
    && (forall j :: 0 <= j < |attrs| && pick(attrs[j]).Some? ==> j in ks)
  }

  predicate Ascending(ks: seq<nat>) {
    forall i, j :: 0 <= i < j < |ks| ==> ks[i] < ks[j]
  }

  // `Latest` is the last attribute chosen, and absent exactly when none is.
  lemma {:induction false} LatestIsLast<T>(attrs: seq<Attribute>, pick: Pick<T>) returns (k: int)
    ensures IsLast(attrs, pick, k, Latest(attrs, pick))
  {
    if attrs == [] {
      k := -1;
    } else if pick(attrs[|attrs| - 1]).Some? {
      k := |attrs| - 1;
    } else {
      var init := attrs[..|attrs| - 1];
      k := LatestIsLast(init, pick);
      forall j | k < j < |attrs| ensures pick(attrs[j]).None? {
        assert j < |init| ==> attrs[j] == init[j];
      }
    }
  }

  lemma ListGrows<T>(init: seq<Attribute>, pick: Pick<T>, ks: seq<nat>, kept: seq<T>, a: Attribute)
    requires IsList(init, pick, ks, kept)
    ensures var (ks', kept') := if pick(a).Some? then (ks + [|init|], kept + [pick(a).value]) else (ks, kept);
            IsList(init + [a], pick, ks', kept')
  {
    var attrs := init + [a];
    var (ks', kept') := if pick(a).Some? then (ks + [|init|], kept + [pick(a).value]) else (ks, kept);
    forall i | 0 <= i < |ks'| ensures ks'[i] < |attrs| && pick(attrs[ks'[i]]) == Some(kept'[i]) {
      if i < |ks| {
        assert attrs[ks[i]] == init[ks[i]];
      }
    }
    forall j | 0 <= j < |attrs| && pick(attrs[j]).Some? ensures j in ks' {
      if j < |init| {
        assert attrs[j] == init[j] && j in ks;
      } else {
        assert ks'[|ks|] == j;
      }
    }
  }

  // `Collect` keeps exactly the attributes chosen, in chain order.
  lemma {:induction false} CollectKeepsOrder<T>(attrs: seq<Attribute>, pick: Pick<T>) returns (ks: seq<nat>)
    ensures IsList(attrs, pick, ks, Collect(attrs, pick))
  {
    if attrs == [] {
      ks := [];
    } else {
      var init, last := attrs[..|attrs| - 1], attrs[|attrs| - 1];
      ks := CollectKeepsOrder(init, pick);
      ListGrows(init, pick, ks, Collect(init, pick), last);
      assert init + [last] == attrs;
      if pick(last).Some? {
        ks := ks + [|init|];
      } else {
        assert Collect(init, pick) + [] == Collect(init, pick);
      }
    }
  }

  // What decoding an accepted record yields: every usable attribute listed in
  // chain order, the last unnamed `$DATA` as primary, the named ones as
  // alternate streams in order.
  lemma AcceptedRecordDecodes(crate: Crate, entry: MftEntry, n: nat, cap: nat, items: seq<AttributeItem>)
    returns (primary: int, ads: seq<nat>)
    requires exists offs :: WellTiled(entry.data, entry.header.firstAttribute, offs)
    requires crate.iterAttributes(entry) == Returned(items)
    ensures var rec, attrs := DecodeEntrySafe(crate, entry, n, cap), Usable(items);
            && ShowsHeader(rec, entry)
            && |rec.attributes| == |attrs|
            && (forall i :: 0 <= i < |attrs| ==> rec.attributes[i] == Info(attrs[i]))
            && IsLast(attrs, PickPrimary(cap), primary, rec.data.primary)
            && IsList(attrs, PickAds(cap), ads, rec.data.ads)
  {
    ScanExactly(entry.data, entry.header.firstAttribute);
    primary := LatestIsLast(Usable(items), PickPrimary(cap));
    ads := CollectKeepsOrder(Usable(items), PickAds(cap));
  }

  // Its names are those of the `$FILE_NAME` attributes in order, and its
  // standard information that of the last attribute holding any.
  lemma AcceptedRecordNames(crate: Crate, entry: MftEntry, n: nat, cap: nat, items: seq<AttributeItem>)
    returns (si: int, names: seq<nat>)
    requires exists offs :: WellTiled(entry.data, entry.header.firstAttribute, offs)
    requires crate.iterAttributes(entry) == Returned(items)
    ensures var rec, attrs := DecodeEntrySafe(crate, entry, n, cap), Usable(items);
            && IsLast(attrs, PickStandardInfo(), si, rec.standardInfo)
            && IsList(attrs, PickFileName(), names, rec.fileNames)
            && rec.fileNames == Collect(attrs, PickFileName())
  {
    ScanExactly(entry.data, entry.header.firstAttribute);
    si := LatestIsLast(Usable(items), PickStandardInfo());
    names := CollectKeepsOrder(Usable(items), PickFileName());
  }

  // ------------------------------------- the same, by type number and raw name

  /** The items before `end` were read, and the one there, if any, broke. */
  predicate IsEnd(items: seq<AttributeItem>, end: nat) {
    && end <= |items| && (forall i :: 0 <= i < end ==> items[i].Item?)
    && (end < |items| ==> items[end].Broken?)
  }

  lemma UsableEnds(items: seq<AttributeItem>, end: nat)
    requires IsEnd(items, end)
    ensures |Usable(items)| == end && forall i :: 0 <= i < end ==> Usable(items)[i] == items[i].attr
  {
  }

  /** The stream shows the attribute's sizes, residency and capped content. */
  predicate IsStreamOf(s: DataStream, a: Attribute, cap: nat) {
    && (match a.residency
        case Resident(size) => s.resident && s.logicalSize == size && s.physicalSize == size
        case NonResident(size, physical) => !s.resident && s.logicalSize == size && s.physicalSize == physical)
    && (match a.content
        case AttrX80(bytes) =>
          s.data == (if bytes == [] then None else Some(if |bytes| <= cap then bytes else bytes[..cap]))
        case _ => s.data.None?)
  }

  lemma StreamShows(a: Attribute, cap: nat)
    ensures IsStreamOf(Stream(a, cap), a, cap)
    ensures Stream(a, cap).name == if a.name == "" then None else Some(a.name)
  {
    if a.content.AttrX80? {
      assert a.content.bytes[..|a.content.bytes|] == a.content.bytes;
    }
  }

  lemma DataPicks(a: Attribute, cap: nat)
    ensures PickPrimary(cap)(a) == if a.typeId == 0x80 && a.name == "" then Some(Stream(a, cap)) else None
    ensures PickAds(cap)(a) == if a.typeId == 0x80 && a.name != "" then Some(Stream(a, cap)) else None
  {
  }

  // The primary stream is that of the last attribute of type 0x80 without a
  // name; there is none exactly if no such attribute was read.
  lemma PrimaryStreamExactly(crate: Crate, entry: MftEntry, n: nat, cap: nat, items: seq<AttributeItem>, end: nat)
    returns (k: int)
    requires exists offs :: WellTiled(entry.data, entry.header.firstAttribute, offs)
    requires crate.iterAttributes(entry) == Returned(items) && IsEnd(items, end)
    ensures var primary := DecodeEntrySafe(crate, entry, n, cap).data.primary;
            && -1 <= k < end && (primary.None? <==> k == -1)
            && (0 <= k ==>
                  && items[k].attr.typeId == 0x80 && items[k].attr.name == ""
                  && primary.value.name.None? && IsStreamOf(primary.value, items[k].attr, cap))
            && forall j :: k < j < end ==> !(items[j].attr.typeId == 0x80 && items[j].attr.name == "")
  {
    var ads;
    k, ads := AcceptedRecordDecodes(crate, entry, n, cap, items);
    UsableEnds(items, end);
    forall i | 0 <= i < end
      ensures PickPrimary(cap)(Usable(items)[i])
              == (if items[i].attr.typeId == 0x80 && items[i].attr.name == "" then Some(Stream(items[i].attr, cap))
                  else None)
    {
      DataPicks(items[i].attr, cap);
    }
    if 0 <= k {
      StreamShows(items[k].attr, cap);
    }
  }

  // The alternate streams are those of the attributes of type 0x80 with a name,
  // in order and under that name.
  lemma AlternateStreamsExactly(crate: Crate, entry: MftEntry, n: nat, cap: nat, items: seq<AttributeItem>, end: nat)
    returns (ks: seq<nat>)
    requires exists offs :: WellTiled(entry.data, entry.header.firstAttribute, offs)
    requires crate.iterAttributes(entry) == Returned(items) && IsEnd(items, end)
    ensures var ads := DecodeEntrySafe(crate, entry, n, cap).data.ads;
            && Ascending(ks) && |ks| == |ads|
            && (forall i :: 0 <= i < |ks| ==>
                  && ks[i] < end && items[ks[i]].attr.typeId == 0x80 && items[ks[i]].attr.name != ""
                  && ads[i].name == Some(items[ks[i]].attr.name) && IsStreamOf(ads[i], items[ks[i]].attr, cap))
            && (forall j :: 0 <= j < end && items[j].attr.typeId == 0x80 && items[j].attr.name != "" ==> j in ks)
  {
    var primary;
    primary, ks := AcceptedRecordDecodes(crate, entry, n, cap, items);
    UsableEnds(items, end);
    forall i | 0 <= i < end
      ensures PickAds(cap)(Usable(items)[i])
              == (if items[i].attr.typeId == 0x80 && items[i].attr.name != "" then Some(Stream(items[i].attr, cap))
                  else None)
      ensures IsStreamOf(Stream(items[i].attr, cap), items[i].attr, cap)
      ensures items[i].attr.name != "" ==> Stream(items[i].attr, cap).name == Some(items[i].attr.name)
    {
      DataPicks(items[i].attr, cap);
      StreamShows(items[i].attr, cap);
    }
  }

  // The names are those in the attributes of type 0x30 that hold one, in order.
  lemma FileNamesExactly(crate: Crate, entry: MftEntry, n: nat, cap: nat, items: seq<AttributeItem>, end: nat)
    returns (ks: seq<nat>)
    requires exists offs :: WellTiled(entry.data, entry.header.firstAttribute, offs)
    requires crate.iterAttributes(entry) == Returned(items) && IsEnd(items, end)
    ensures var names := DecodeEntrySafe(crate, entry, n, cap).fileNames;
            && Ascending(ks) && |ks| == |names|
            && (forall i :: 0 <= i < |ks| ==>
                  ks[i] < end && items[ks[i]].attr.typeId == 0x30 && items[ks[i]].attr.content == AttrX30(names[i]))
            && (forall j :: 0 <= j < end && items[j].attr.typeId == 0x30 && items[j].attr.content.AttrX30? ==> j in ks)
  {
    var si;
    si, ks := AcceptedRecordNames(crate, entry, n, cap, items);
    var attrs := Usable(items);
    UsableEnds(items, end);
    forall i | 0 <= i < end
      ensures PickFileName()(attrs[i]).Some? <==> items[i].attr.typeId == 0x30 && items[i].attr.content.AttrX30?
    {
    }
  }

  // The standard information is that in the last attribute of type 0x10 that
  // holds any.
  lemma StandardInfoExactly(crate: Crate, entry: MftEntry, n: nat, cap: nat, items: seq<AttributeItem>, end: nat)
    returns (k: int)
    requires exists offs :: WellTiled(entry.data, entry.header.firstAttribute, offs)
    requires crate.iterAttributes(entry) == Returned(items) && IsEnd(items, end)
    ensures var si := DecodeEntrySafe(crate, entry, n, cap).standardInfo;
            && -1 <= k < end && (si.None? <==> k == -1)
            && (0 <= k ==> items[k].attr.typeId == 0x10 && items[k].attr.content == AttrX10(si.value))
            && forall j :: k < j < end ==> !(items[j].attr.typeId == 0x10 && items[j].attr.content.AttrX10?)
  {
    var names;
    k, names := AcceptedRecordNames(crate, entry, n, cap, items);
    var attrs := Usable(items);
    UsableEnds(items, end);
    forall i | 0 <= i < end
      ensures PickStandardInfo()(attrs[i]).Some? <==> items[i].attr.typeId == 0x10 && items[i].attr.content.AttrX10?
    {
    }
  }

  /** The names of the attribute types of NTFS. */
  const TYPE_NAMES: map<nat, string> := map[
    0x10 := "$STANDARD_INFORMATION", 0x20 := "$ATTRIBUTE_LIST", 0x30 := "$FILE_NAME", 0x40 := "$OBJECT_ID",
    0x50 := "$SECURITY_DESCRIPTOR", 0x60 := "$VOLUME_NAME", 0x70 := "$VOLUME_INFORMATION", 0x80 := "$DATA",
    0x90 := "$INDEX_ROOT", 0xA0 := "$INDEX_ALLOCATION", 0xB0 := "$BITMAP", 0xC0 := "$REPARSE_POINT",
    0xD0 := "$EA_INFORMATION", 0xE0 := "$EA", 0x100 := "$LOGGED_UTILITY_STREAM"]

  lemma TypeNameIs(typeId: nat)
    ensures TypeName(typeId) == if typeId in TYPE_NAMES then TYPE_NAMES[typeId] else "$UNKNOWN"
  {
  }

  // Every attribute read is listed, in order, with what its header says.
  lemma AttributesListedExactly(crate: Crate, entry: MftEntry, n: nat, cap: nat, items: seq<AttributeItem>, end: nat)
    requires exists offs :: WellTiled(entry.data, entry.header.firstAttribute, offs)
    requires crate.iterAttributes(entry) == Returned(items) && IsEnd(items, end)
    ensures var rec := DecodeEntrySafe(crate, entry, n, cap);
            && |rec.attributes| == end
            && forall i :: 0 <= i < end ==>
                 var info, a := rec.attributes[i], items[i].attr;
                 && info.attributeId == a.instance && info.typeId == a.typeId && info.flags == a.flags
                 && info.name == (if a.name == "" then None else Some(a.name))
                 && info.typeName == (if a.typeId in TYPE_NAMES then TYPE_NAMES[a.typeId] else "$UNKNOWN")
                 && (match a.residency
                     case Resident(size) => info.resident && info.logicalSize == size && info.physicalSize == size
                     case NonResident(size, physical) =>
                       !info.resident && info.logicalSize == size && info.physicalSize == physical)
    ensures var rec := DecodeEntrySafe(crate, entry, n, cap);
            && rec.entry == entry.recordNumber && rec.sequence == entry.header.sequence
            && rec.inUse == entry.header.inUse && rec.isDir == entry.header.isDir
            && rec.baseRef == entry.header.baseRef && rec.lsn == entry.header.lsn
            && rec.hardLinkCount == entry.header.hardLinkCount && rec.usedSize == entry.header.usedSize
            && rec.allocatedSize == entry.header.allocatedSize && rec.signature == entry.header.signature
            && rec.fixupOk == entry.validFixup
  {
    var _, _ := AcceptedRecordDecodes(crate, entry, n, cap, items);
    UsableEnds(items, end);
    forall i | 0 <= i < end
      ensures TypeName(items[i].attr.typeId)
              == (if items[i].attr.typeId in TYPE_NAMES then TYPE_NAMES[items[i].attr.typeId] else "$UNKNOWN")
    {
      TypeNameIs(items[i].attr.typeId);
    }
  }

  // Its diagnostics, in order: the signature, the fixups, the attribute that
  // broke, and whether an attribute list was met before that. One that broke is
  // the first broken one, and there is such a diagnostic exactly when one broke.
  lemma AcceptedRecordDiagnostics(crate: Crate, entry: MftEntry, n: nat, cap: nat, items: seq<AttributeItem>)
    returns (end: nat)
    requires exists offs :: WellTiled(entry.data, entry.header.firstAttribute, offs)
    requires crate.iterAttributes(entry) == Returned(items)
    ensures end <= |items| && forall i :: 0 <= i < end ==> items[i].Item?
    ensures end < |items| ==> items[end].Broken?
    ensures (exists i :: 0 <= i < |items| && items[i].Broken?) <==> end < |items|
    ensures var rec := DecodeEntrySafe(crate, entry, n, cap);
            && |rec.attributes| == end
            && rec.diagnostics
               == (if entry.header.signature == [0x42, 0x41, 0x41, 0x44] then ["baad"] else [])
                  + (if entry.validFixup == Some(false) then ["fixup-mismatch"] else [])
                  + (if end < |items| then ["decode-error:" + items[end].error] else [])
                  + (if exists i :: 0 <= i < end && items[i].attr.typeId == 0x20 then ["attr-overflow"] else [])
  {
    ScanExactly(entry.data, entry.header.firstAttribute);
    var attrs := Usable(items);
    end := |attrs|;
    assert forall i :: 0 <= i < end ==> items[i].attr == attrs[i];
    assert HasAttributeList(attrs) <==> exists i :: 0 <= i < end && items[i].attr.typeId == 0x20;
  }

  /** The record shows its number and no header. */
  predicate HeaderLost(rec: DecodedRecord, n: nat) {
    && rec.entry == n && rec.sequence == 0 && !rec.inUse && !rec.isDir && rec.baseRef == 0 && rec.lsn == 0
    && rec.hardLinkCount == 0 && rec.usedSize == 0 && rec.allocatedSize == 0
    && rec.signature == [] && rec.fixupOk.None?
  }

  // A panic while iterating an accepted chain loses the record and its header,
  // and leaves the one diagnostic of a caught panic.
  lemma PanicLosesAcceptedRecord(crate: Crate, entry: MftEntry, n: nat, cap: nat)
    requires exists offs :: WellTiled(entry.data, entry.header.firstAttribute, offs)
    ensures var rec := DecodeEntrySafe(crate, entry, n, cap);
            && (crate.iterAttributes(entry) == Panicked
                <==> rec.diagnostics == ["attr-overrun:decode panicked (caught)"])
            && (crate.iterAttributes(entry) == Panicked ==>
                  && HeaderLost(rec, n) && rec.attributes == [] && rec.fileNames == []
                  && rec.standardInfo.None? && rec.data.primary.None? && rec.data.ads == [])
  {
    ScanExactly(entry.data, entry.header.firstAttribute);
    if crate.iterAttributes(entry) != Panicked {
      var rec := DecodeEntrySafe(crate, entry, n, cap);
      var end := AcceptedRecordDiagnostics(crate, entry, n, cap, crate.iterAttributes(entry).value);
      assert rec.diagnostics != [] ==>
          rec.diagnostics[0][0] in {'b', 'f', 'd'} || rec.diagnostics[0] == "attr-overflow";
      assert "attr-overrun:decode panicked (caught)" != "attr-overflow";
    }
  }

  // ------------------------------------------------------- parse.rs backstops

  datatype ParseOutcome = Empty | Entry(entry: MftEntry) | Bad(kind: string, msg: string)

  predicate HasZeroSignature(parse: Attempt<Parsed>) {
    parse.Returned? && parse.value.Parsed? && parse.value.header.signature == [0, 0, 0, 0]
  }

  /** The crate stamps the entry it returns with the number it was given. */
  function ParseRecord(crate: Crate, record: Buffer, n: nat): (r: ParseOutcome)
    ensures r.Entry? ==> r.entry.recordNumber == n && !Zeros(record)
    ensures r.Empty? <==> Zeros(record) || HasZeroSignature(crate.fromBuffer(record, n))
    ensures r.Bad? ==> crate.fromBuffer(record, n) in {Panicked, Returned(Failed(r.kind, r.msg))}
  {
    if Zeros(record) then Empty
    else
      match crate.fromBuffer(record, n)
      case Panicked => Bad("attr-overrun", "parser panicked on malformed record (caught)")
      case Returned(Failed(kind, msg)) => Bad(kind, msg)
      case Returned(Parsed(header, data, validFixup)) =>
        if header.signature == [0, 0, 0, 0] then Empty else Entry(MftEntry(n, header, data, validFixup))
  }

  function DiagnosticRecord(entry: nat, diagnostic: string): DecodedRecord {
    DecodedRecord(entry, 0, false, false, 0, 0, 0, 0, 0, [], None, None, [], NO_STREAMS, [], [diagnostic])
  }

  const CAUGHT: string := "attr-overrun:decode panicked (caught)"

  function DecodeEntrySafe(crate: Crate, entry: MftEntry, n: nat, cap: nat): DecodedRecord {
    match Decoded(crate, entry, cap)
    case Returned(rec) => rec
    case Panicked => DiagnosticRecord(n, CAUGHT)
  }

  // A record the gate refuses, or faults on, decodes to nothing but a
  // diagnostic; only a fault also loses the header fields.
  lemma GateFailureYieldsDiagnosticOnly(crate: Crate, entry: MftEntry, n: nat, cap: nat)
    requires !exists offs :: WellTiled(entry.data, entry.header.firstAttribute, offs)
    ensures
      var rec := DecodeEntrySafe(crate, entry, n, cap);
      && rec.attributes == [] && rec.fileNames == [] && rec.standardInfo.None?
      && rec.data.primary.None? && rec.data.ads == []
      && ((exists offs :: ReachesCutOff(entry.data, entry.header.firstAttribute, offs)) ==>
            && rec.diagnostics == ["attr-overrun:decode panicked (caught)"]
            && HeaderLost(rec, n))
      && (!(exists offs :: ReachesCutOff(entry.data, entry.header.firstAttribute, offs)) ==>
            && rec.diagnostics
               == (if entry.header.signature == [0x42, 0x41, 0x41, 0x44] then ["baad"] else [])
                  + (if entry.validFixup == Some(false) then ["fixup-mismatch"] else []) + ["attr-overrun"]
            && ShowsHeader(rec, entry))
  {
    ScanExactly(entry.data, entry.header.firstAttribute);
  }

  // ---------------------------------------------------- the primary file name

  function PrimaryIndex(names: seq<FileName>): (r: Option<nat>)
    ensures r.None? <==> names == []
    ensures r.Some? ==> r.value < |names|
  {
    match FirstLong(names, 0)
    case Some(i) => Some(i)
    case None => if names == [] then None else Some(0)
  }

  function FirstLong(names: seq<FileName>, from: nat): (r: Option<nat>)
    requires from <= |names|
    ensures r.Some? ==> from <= r.value < |names| && names[r.value].namespace.IsLong()
    ensures forall j :: from <= j < (if r.Some? then r.value else |names|) ==> !names[j].namespace.IsLong()
    decreases |names| - from
  {
    if from == |names| then None
    else if names[from].namespace.IsLong() then Some(from)
    else FirstLong(names, from + 1)
  }

  function PrimaryName(rec: DecodedRecord): (r: Option<FileName>)
    ensures r.None? <==> rec.fileNames == []
    ensures r.Some? ==> r.value in rec.fileNames
  {
    match PrimaryIndex(rec.fileNames)
    case Some(i) => Some(rec.fileNames[i])
    case None => None
  }

  // The primary name is the first long one; without any, the first of all.
  lemma PrimaryNameIs(rec: DecodedRecord) returns (i: nat)
    requires rec.fileNames != []
    ensures i < |rec.fileNames| && PrimaryName(rec) == Some(rec.fileNames[i])
    ensures forall j :: 0 <= j < i ==> rec.fileNames[j].namespace !in {Win32, Win32AndDos}
    ensures rec.fileNames[i].namespace !in {Win32, Win32AndDos} ==>
              i == 0 && forall j :: 0 <= j < |rec.fileNames| ==> rec.fileNames[j].namespace !in {Win32, Win32AndDos}
  {
    i := PrimaryIndex(rec.fileNames).value;
    assert forall f: FileName :: f.namespace.IsLong() <==> f.namespace in {Win32, Win32AndDos};
  }
}
