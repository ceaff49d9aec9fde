// Nested records as flat columns: the builders of
// crates/mft-worker/src/arrow_map.rs. A list column is one flat run of items
// with offsets and validity; reading it back must give the records again.
module ArrowMap {
  import opened Common
  import opened Bytes
  import opened Record

  const I32_MAX: nat := 0x7FFF_FFFF

  /** A column builder: appended values and nulls. */
  type Column<T> = seq<Option<T>>

  // ------------------------------------------------ lists as offsets and items

  datatype ListColumn<T> = ListColumn(offsets: seq<nat>, items: seq<T>, validity: seq<bool>) {
    /** What the array library demands of a list. */
    ghost predicate Valid() {
      && |offsets| == |validity| + 1
      && offsets[0] == 0 && offsets[|validity|] == |items|
      && (forall i :: 0 <= i < |validity| ==> offsets[i] <= offsets[i + 1])
      && (forall i :: 0 <= i < |offsets| ==> offsets[i] <= |items|)
    }

    /** The list in row `i`, `None` for a null. */
    ghost function At(i: nat): Option<seq<T>>
      requires Valid() && i < |validity|
    {
      if validity[i] then Some(items[offsets[i]..offsets[i + 1]]) else None
    }
  }

  /** `offsets` cut `items` into exactly `parts`. */
  ghost predicate Cuts<T>(offsets: seq<nat>, items: seq<T>, parts: seq<seq<T>>) {
    && items == Concat(parts)
    && |offsets| == |parts| + 1
    && forall k :: 0 <= k <= |parts| ==> offsets[k] == |Concat(parts[..k])|
  }

  lemma CutsAppend<T>(offsets: seq<nat>, items: seq<T>, parts: seq<seq<T>>, part: seq<T>)
    requires Cuts(offsets, items, parts)
    ensures Cuts(offsets + [|items + part|], items + part, parts + [part])
  {
    ConcatAppend(parts, [part]);
    assert Concat([part]) == part;
    forall k | 0 <= k <= |parts| + 1
      ensures (offsets + [|items + part|])[k] == |Concat((parts + [part])[..k])|
    {
      if k <= |parts| {
        assert (parts + [part])[..k] == parts[..k];
      } else {
        assert (parts + [part])[..k] == parts + [part];
      }
    }
  }

  lemma CutsGiveParts<T>(list: ListColumn<T>, parts: seq<seq<T>>)
    requires Cuts(list.offsets, list.items, parts) && |list.validity| == |parts|
    ensures list.Valid()
    ensures forall i :: 0 <= i < |parts| ==> list.At(i) == if list.validity[i] then Some(parts[i]) else None
  {
    assert parts[..|parts|] == parts && parts[..0] == [];
    forall i | 0 <= i < |list.offsets|
      ensures list.offsets[i] <= |list.items|
      ensures i < |parts| ==> list.offsets[i] <= list.offsets[i + 1]
    {
      if i < |parts| {
        PartAt(parts, i);
      }
    }
    assert list.Valid();
    forall i | 0 <= i < |parts|
      ensures list.At(i) == if list.validity[i] then Some(parts[i]) else None
    {
      PartAt(parts, i);
    }
  }

  lemma PartAt<T>(parts: seq<seq<T>>, i: nat)
    requires i < |parts|
    ensures var from, to := |Concat(parts[..i])|, |Concat(parts[..i + 1])|;
            from <= to <= |Concat(parts)| && Concat(parts)[from..to] == parts[i]
  {
    var before, after := parts[..i], parts[i + 1..];
    assert parts[..i + 1] == before + [parts[i]];
    assert parts == (before + [parts[i]]) + after;
    ConcatAppend(before, [parts[i]]);
    ConcatAppend(before + [parts[i]], after);
    assert Concat([parts[i]]) == parts[i];
  }

  // ------------------------------------------------------- $FILE_NAME items

  datatype FnItem = FnItem(
    name: Option<string>, namespace: Option<string>, parentEntry: Option<nat>, parentSeq: Option<nat>,
    created: Option<int>, modified: Option<int>, accessed: Option<int>, mftModified: Option<int>,
    logicalSize: Option<nat>, physicalSize: Option<nat>)

  function FnOf(f: FileName): FnItem {
    FnItem(Some(f.name), Some(f.namespace.AsStr()), Some(f.parentEntry), Some(f.parentSeq),
           f.macb.created, f.macb.modified, f.macb.accessed, f.macb.mftModified,
           Some(f.logicalSize), Some(f.physicalSize))
  }

  function FnsOf(fs: seq<FileName>): seq<FnItem> {
    seq(|fs|, i requires 0 <= i < |fs| => FnOf(fs[i]))
  }

  /** Item `i` of ten sibling columns, for every `i`. */
  function FnItems(name: Column<string>, namespace: Column<string>, parent: Column<nat>, parentSeq: Column<nat>,
                   c: Column<int>, m: Column<int>, a: Column<int>, r: Column<int>,
                   logical: Column<nat>, physical: Column<nat>): (items: seq<FnItem>)
    requires |name| == |namespace| == |parent| == |parentSeq| == |c| == |m| == |a| == |r| == |logical| == |physical|
    ensures |items| == |name|
  {
    seq(|name|, i requires 0 <= i < |name| =>
      FnItem(name[i], namespace[i], parent[i], parentSeq[i], c[i], m[i], a[i], r[i], logical[i], physical[i]))
  }

  lemma FnItemsGrow(name: Column<string>, namespace: Column<string>, parent: Column<nat>, parentSeq: Column<nat>,
                    c: Column<int>, m: Column<int>, a: Column<int>, r: Column<int>,
                    logical: Column<nat>, physical: Column<nat>, x: FnItem)
    requires |name| == |namespace| == |parent| == |parentSeq| == |c| == |m| == |a| == |r| == |logical| == |physical|
    ensures FnItems(name + [x.name], namespace + [x.namespace], parent + [x.parentEntry], parentSeq + [x.parentSeq],
                    c + [x.created], m + [x.modified], a + [x.accessed], r + [x.mftModified],
                    logical + [x.logicalSize], physical + [x.physicalSize])
            == FnItems(name, namespace, parent, parentSeq, c, m, a, r, logical, physical) + [x]
  {
  }

  class FnFlat {
    var name: Column<string>
    var namespace: Column<string>
    var parent: Column<nat>
    var parentSeq: Column<nat>
    var c: Column<int>
    var m: Column<int>
    var a: Column<int>
    var r: Column<int>
    var logical: Column<nat>
    var physical: Column<nat>
    var len: nat

    ghost predicate Valid()
      reads this
    {
      && |name| == |namespace| == |parent| == |parentSeq| == len
      && |c| == |m| == |a| == |r| == len
      && |logical| == |physical| == len && len <= I32_MAX
    }

    function Items(): (items: seq<FnItem>)
      requires Valid()
      reads this
      ensures |items| == len
    {
      FnItems(name, namespace, parent, parentSeq, c, m, a, r, logical, physical)
    }

    constructor ()
      ensures Valid() && Items() == []
    {
      name, namespace, parent, parentSeq := [], [], [], [];
      c, m, a, r, logical, physical, len := [], [], [], [], [], [], 0;
    }

    method Push(f: FileName)
      requires Valid() && len < I32_MAX
      modifies this
      ensures Valid() && Items() == old(Items()) + [FnOf(f)]
      ensures name == old(name) + [Some(f.name)] && parent == old(parent) + [Some(f.parentEntry)]
      ensures namespace == old(namespace) + [Some(match f.namespace
                case Posix => "POSIX" case Win32 => "Win32" case Dos => "DOS" case Win32AndDos => "Win32AndDos")]
      ensures parentSeq == old(parentSeq) + [Some(f.parentSeq)]
      ensures c == old(c) + [f.macb.created] && m == old(m) + [f.macb.modified]
      ensures a == old(a) + [f.macb.accessed] && r == old(r) + [f.macb.mftModified]
      ensures logical == old(logical) + [Some(f.logicalSize)] && physical == old(physical) + [Some(f.physicalSize)]
    {
      FnItemsGrow(name, namespace, parent, parentSeq, c, m, a, r, logical, physical, FnOf(f));
      name := name + [Some(f.name)];
      namespace := namespace + [Some(f.namespace.AsStr())];
      parent := parent + [Some(f.parentEntry)];
      parentSeq := parentSeq + [Some(f.parentSeq)];
      c := c + [f.macb.created];
      m := m + [f.macb.modified];
      a := a + [f.macb.accessed];
      r := r + [f.macb.mftModified];
      logical := logical + [Some(f.logicalSize)];
      physical := physical + [Some(f.physicalSize)];
      len := len + 1;
    }

    method PushAll(fs: seq<FileName>)
      requires Valid() && len + |fs| <= I32_MAX
      modifies this
      ensures Valid() && Items() == old(Items()) + FnsOf(fs)
    {
      for i := 0 to |fs|
        invariant Valid() && Items() == old(Items()) + FnsOf(fs[..i])
      {
        assert FnsOf(fs[..i + 1]) == FnsOf(fs[..i]) + [FnOf(fs[i])];
        Push(fs[i]);
      }
      assert fs[..|fs|] == fs;
    }
  }

  // ---------------------------------------------------------- stream items

  datatype AdsItem = AdsItem(name: Option<string>, logicalSize: Option<nat>, resident: Option<bool>)

  function AdsItemOf(s: DataStream): AdsItem {
    AdsItem(s.name, Some(s.logicalSize), Some(s.resident))
  }

  function AdsItemsOf(ss: seq<DataStream>): seq<AdsItem> {
    seq(|ss|, i requires 0 <= i < |ss| => AdsItemOf(ss[i]))
  }

  class AdsFlat {
    var name: Column<string>
    var logical: Column<nat>
    var resident: Column<bool>
    var len: nat

    ghost predicate Valid()
      reads this
    {
      |name| == |logical| == |resident| == len && len <= I32_MAX
    }

    function Items(): (items: seq<AdsItem>)
      requires Valid()
      reads this
      ensures |items| == len
    {
      seq(len, i requires 0 <= i < len reads this requires Valid() => AdsItem(name[i], logical[i], resident[i]))
    }

    constructor ()
      ensures Valid() && Items() == []
    {
      name, logical, resident, len := [], [], [], 0;
    }

    method Push(s: DataStream)
      requires Valid() && len < I32_MAX
      modifies this
      ensures Valid() && Items() == old(Items()) + [AdsItemOf(s)]
      ensures name == old(name) + [s.name] && logical == old(logical) + [Some(s.logicalSize)]
      ensures resident == old(resident) + [Some(s.resident)]
    {
      name := name + [s.name];
      logical := logical + [Some(s.logicalSize)];
      resident := resident + [Some(s.resident)];
      len := len + 1;
    }

    method PushAll(ss: seq<DataStream>)
      requires Valid() && len + |ss| <= I32_MAX
      modifies this
      ensures Valid() && Items() == old(Items()) + AdsItemsOf(ss)
    {
      for i := 0 to |ss|
        invariant Valid() && Items() == old(Items()) + AdsItemsOf(ss[..i])
      {
        assert AdsItemsOf(ss[..i + 1]) == AdsItemsOf(ss[..i]) + [AdsItemOf(ss[i])];
        Push(ss[i]);
      }
      assert ss[..|ss|] == ss;
    }
  }

  // -------------------------------------------------------- attribute items

  datatype AttrItem = AttrItem(
    typeId: Option<nat>, typeName: Option<string>, resident: Option<bool>, name: Option<string>)

  function AttrItemOf(a: AttrInfo): AttrItem {
    AttrItem(Some(a.typeId), Some(a.typeName), Some(a.resident), a.name)
  }

  function AttrItemsOf(infos: seq<AttrInfo>): seq<AttrItem> {
    seq(|infos|, i requires 0 <= i < |infos| => AttrItemOf(infos[i]))
  }

  class AttrFlat {
    var typeId: Column<nat>
    var typeName: Column<string>
    var resident: Column<bool>
    var name: Column<string>
    var len: nat

    ghost predicate Valid()
      reads this
    {
      |typeId| == |typeName| == |resident| == |name| == len && len <= I32_MAX
    }

    function Items(): (items: seq<AttrItem>)
      requires Valid()
      reads this
      ensures |items| == len
    {
      seq(len, i requires 0 <= i < len reads this requires Valid() =>
        AttrItem(typeId[i], typeName[i], resident[i], name[i]))
    }

    constructor ()
      ensures Valid() && Items() == []
    {
      typeId, typeName, resident, name, len := [], [], [], [], 0;
    }

    method Push(a: AttrInfo)
      requires Valid() && len < I32_MAX
      modifies this
      ensures Valid() && Items() == old(Items()) + [AttrItemOf(a)]
      ensures typeId == old(typeId) + [Some(a.typeId)] && typeName == old(typeName) + [Some(a.typeName)]
      ensures resident == old(resident) + [Some(a.resident)] && name == old(name) + [a.name]
    {
      typeId := typeId + [Some(a.typeId)];
      typeName := typeName + [Some(a.typeName)];
      resident := resident + [Some(a.resident)];
      name := name + [a.name];
      len := len + 1;
    }

    method PushAll(infos: seq<AttrInfo>)
      requires Valid() && len + |infos| <= I32_MAX
      modifies this
      ensures Valid() && Items() == old(Items()) + AttrItemsOf(infos)
    {
      for i := 0 to |infos|
        invariant Valid() && Items() == old(Items()) + AttrItemsOf(infos[..i])
      {
        assert AttrItemsOf(infos[..i + 1]) == AttrItemsOf(infos[..i]) + [AttrItemOf(infos[i])];
        Push(infos[i]);
      }
      assert infos[..|infos|] == infos;
    }
  }

  // ------------------------------------------------- the two nested structs

  datatype SiItem = SiItem(
    created: Option<int>, modified: Option<int>, accessed: Option<int>, mftModified: Option<int>,
    dosAttributes: Option<nat>, usn: Option<nat>)

  const NULL_SI: SiItem := SiItem(None, None, None, None, None, None)

  function SiOf(si: Option<StandardInfo>): SiItem {
    match si
    case None => NULL_SI
    case Some(s) => SiItem(s.macb.created, s.macb.modified, s.macb.accessed, s.macb.mftModified,
                           Some(s.dosAttributes), Some(s.usn))
  }

  class SiColumns {
    var c: Column<int>
    var m: Column<int>
    var a: Column<int>
    var r: Column<int>
    var dos: Column<nat>
    var usn: Column<nat>
    var validity: seq<bool>

    ghost predicate Valid()
      reads this
    {
      |c| == |m| == |a| == |r| == |dos| == |usn| == |validity|
    }

    function Items(): (items: seq<SiItem>)
      requires Valid()
      reads this
      ensures |items| == |validity|
    {
      seq(|validity|, i requires 0 <= i < |validity| reads this requires Valid() =>
        SiItem(c[i], m[i], a[i], r[i], dos[i], usn[i]))
    }

    constructor ()
      ensures Valid() && Items() == [] && validity == []
    {
      c, m, a, r, dos, usn, validity := [], [], [], [], [], [], [];
    }

    method PushSi(si: Option<StandardInfo>)
      requires Valid()
      modifies this
      ensures Valid() && Items() == old(Items()) + [SiOf(si)]
      ensures validity == old(validity) + [si.Some?]
      ensures si.Some? ==>
                && c == old(c) + [si.value.macb.created] && m == old(m) + [si.value.macb.modified]
                && a == old(a) + [si.value.macb.accessed] && r == old(r) + [si.value.macb.mftModified]
                && dos == old(dos) + [Some(si.value.dosAttributes)] && usn == old(usn) + [Some(si.value.usn)]
      ensures si.None? ==>
                && c == old(c) + [None] && m == old(m) + [None] && a == old(a) + [None] && r == old(r) + [None]
                && dos == old(dos) + [None] && usn == old(usn) + [None]
    {
      match si {
        case Some(s) =>
          c := c + [s.macb.created];
          m := m + [s.macb.modified];
          a := a + [s.macb.accessed];
          r := r + [s.macb.mftModified];
          dos := dos + [Some(s.dosAttributes)];
          usn := usn + [Some(s.usn)];
        case None =>
          c, m, a, r := c + [None], m + [None], a + [None], r + [None];
          dos, usn := dos + [None], usn + [None];
      }
      validity := validity + [si.Some?];
    }
  }

  datatype DataItem = DataItem(
    resident: Option<bool>, logicalSize: Option<nat>, physicalSize: Option<nat>, bytes: Option<Buffer>)

  const NULL_DATA: DataItem := DataItem(None, None, None, None)

  function DataOf(d: Option<DataStream>): DataItem {
    match d
    case None => NULL_DATA
    case Some(s) => DataItem(Some(s.resident), Some(s.logicalSize), Some(s.physicalSize), s.data)
  }

  class DataColumns {
    var resident: Column<bool>
    var logical: Column<nat>
    var physical: Column<nat>
    var bytes: Column<Buffer>
    var validity: seq<bool>

    ghost predicate Valid()
      reads this
    {
      |resident| == |logical| == |physical| == |bytes| == |validity|
    }

    function Items(): (items: seq<DataItem>)
      requires Valid()
      reads this
      ensures |items| == |validity|
    {
      seq(|validity|, i requires 0 <= i < |validity| reads this requires Valid() =>
        DataItem(resident[i], logical[i], physical[i], bytes[i]))
    }

    constructor ()
      ensures Valid() && Items() == [] && validity == []
    {
      resident, logical, physical, bytes, validity := [], [], [], [], [];
    }

    method PushData(d: Option<DataStream>)
      requires Valid()
      modifies this
      ensures Valid() && Items() == old(Items()) + [DataOf(d)]
      ensures validity == old(validity) + [d.Some?]
      ensures d.Some? ==>
                && resident == old(resident) + [Some(d.value.resident)] && bytes == old(bytes) + [d.value.data]
                && logical == old(logical) + [Some(d.value.logicalSize)]
                && physical == old(physical) + [Some(d.value.physicalSize)]
      ensures d.None? ==>
                && resident == old(resident) + [None] && bytes == old(bytes) + [None]
                && logical == old(logical) + [None] && physical == old(physical) + [None]
    {
      match d {
        case Some(s) =>
          resident := resident + [Some(s.resident)];
          logical := logical + [Some(s.logicalSize)];
          physical := physical + [Some(s.physicalSize)];
          bytes := bytes + [s.data];
        case None =>
          resident, logical := resident + [None], logical + [None];
          physical, bytes := physical + [None], bytes + [None];
      }
      validity := validity + [d.Some?];
    }
  }

  // ----------------------------------------------------- the non-null fields

  datatype TopItem = TopItem(
    entry: nat, sequence: nat, inUse: bool, isDir: bool, baseRef: nat, lsn: nat, hardLinks: nat)

  function TopOf(rec: Option<DecodedRecord>): TopItem {
    match rec
    case None => TopItem(0, 0, false, false, 0, 0, 0)
    case Some(r) => TopItem(r.entry, r.sequence, r.inUse, r.isDir, r.baseRef, r.lsn, r.hardLinkCount)
  }

  /** Item `i` of seven sibling columns, for every `i`. */
  function TopItems(entry: seq<nat>, sequence: seq<nat>, inUse: seq<bool>, isDir: seq<bool>, baseRef: seq<nat>,
                    lsn: seq<nat>, hardLinks: seq<nat>): (items: seq<TopItem>)
    requires |entry| == |sequence| == |inUse| == |isDir| == |baseRef| == |lsn| == |hardLinks|
    ensures |items| == |entry|
  {
    seq(|entry|, i requires 0 <= i < |entry| =>
      TopItem(entry[i], sequence[i], inUse[i], isDir[i], baseRef[i], lsn[i], hardLinks[i]))
  }

  lemma TopItemsGrow(entry: seq<nat>, sequence: seq<nat>, inUse: seq<bool>, isDir: seq<bool>, baseRef: seq<nat>,
                     lsn: seq<nat>, hardLinks: seq<nat>, x: TopItem)
    requires |entry| == |sequence| == |inUse| == |isDir| == |baseRef| == |lsn| == |hardLinks|
    ensures TopItems(entry + [x.entry], sequence + [x.sequence], inUse + [x.inUse], isDir + [x.isDir],
                     baseRef + [x.baseRef], lsn + [x.lsn], hardLinks + [x.hardLinks])
            == TopItems(entry, sequence, inUse, isDir, baseRef, lsn, hardLinks) + [x]
  {
  }

  class TopColumns {
    var entry: seq<nat>
    var sequence: seq<nat>
    var inUse: seq<bool>
    var isDir: seq<bool>
    var baseRef: seq<nat>
    var lsn: seq<nat>
    var hardLinks: seq<nat>
    var validity: seq<bool>

    ghost predicate Valid()
      reads this
    {
      |entry| == |sequence| == |inUse| == |isDir| == |baseRef| == |lsn| == |hardLinks| == |validity|
    }

    function Items(): (items: seq<TopItem>)
      requires Valid()
      reads this
      ensures |items| == |validity|
    {
      TopItems(entry, sequence, inUse, isDir, baseRef, lsn, hardLinks)
    }

    constructor ()
      ensures Valid() && Items() == [] && validity == []
    {
      entry, sequence, inUse, isDir := [], [], [], [];
      baseRef, lsn, hardLinks, validity := [], [], [], [];
    }

    method Append(rec: Option<DecodedRecord>)
      requires Valid()
      modifies this
      ensures Valid() && Items() == old(Items()) + [TopOf(rec)]
      ensures validity == old(validity) + [rec.Some?]
      ensures rec.Some? ==>
                && entry == old(entry) + [rec.value.entry] && sequence == old(sequence) + [rec.value.sequence]
                && inUse == old(inUse) + [rec.value.inUse] && isDir == old(isDir) + [rec.value.isDir]
                && baseRef == old(baseRef) + [rec.value.baseRef] && lsn == old(lsn) + [rec.value.lsn]
                && hardLinks == old(hardLinks) + [rec.value.hardLinkCount]
      ensures rec.None? ==>
                && entry == old(entry) + [0] && sequence == old(sequence) + [0] && baseRef == old(baseRef) + [0]
                && inUse == old(inUse) + [false] && isDir == old(isDir) + [false]
                && lsn == old(lsn) + [0] && hardLinks == old(hardLinks) + [0]
    {
      TopItemsGrow(entry, sequence, inUse, isDir, baseRef, lsn, hardLinks, TopOf(rec));
      match rec {
        case None =>
          entry, sequence := entry + [0], sequence + [0];
          inUse, isDir := inUse + [false], isDir + [false];
          baseRef, lsn, hardLinks := baseRef + [0], lsn + [0], hardLinks + [0];
        case Some(r) =>
          entry, sequence := entry + [r.entry], sequence + [r.sequence];
          inUse, isDir := inUse + [r.inUse], isDir + [r.isDir];
          baseRef, lsn, hardLinks := baseRef + [r.baseRef], lsn + [r.lsn], hardLinks + [r.hardLinkCount];
      }
      validity := validity + [rec.Some?];
    }
  }

  // ------------------------------------------------------- the whole struct

  /** The finished array: each child column beside its validity. */
  datatype RecordArray = RecordArray(
    top: seq<TopItem>, validity: seq<bool>,
    si: seq<SiItem>, siValidity: seq<bool>,
    data: seq<DataItem>, dataValidity: seq<bool>,
    names: ListColumn<FnItem>, ads: ListColumn<AdsItem>, attributes: ListColumn<AttrItem>)
  {
    /** All children are as long as the array, and the lists are well formed. */
    ghost predicate Valid() {
      && |top| == |validity| == |si| == |siValidity| == |data| == |dataValidity|
      && |names.validity| == |ads.validity| == |attributes.validity| == |validity|
      && names.Valid() && ads.Valid() && attributes.Valid()
    }

    /** What a reader sees in row `i`. */
    ghost function At(i: nat): Option<NestedRecord>
      requires Valid() && i < |validity|
    {
      if !validity[i] then None
      else Some(NestedRecord(
        top[i],
        if siValidity[i] then Some(si[i]) else None,
        if dataValidity[i] then Some(data[i]) else None,
        names.At(i), ads.At(i), attributes.At(i)))
    }
  }

  datatype NestedRecord = NestedRecord(
    top: TopItem, si: Option<SiItem>, data: Option<DataItem>,
    names: Option<seq<FnItem>>, ads: Option<seq<AdsItem>>, attributes: Option<seq<AttrItem>>)

  /** The record as the array should show it. */
  function Projected(rec: Option<DecodedRecord>): Option<NestedRecord> {
    match rec
    case None => None
    case Some(r) => Some(NestedRecord(
      TopOf(rec),
      if r.standardInfo.Some? then Some(SiOf(r.standardInfo)) else None,
      if r.data.primary.Some? then Some(DataOf(r.data.primary)) else None,
      Some(FnsOf(r.fileNames)), Some(AdsItemsOf(r.data.ads)), Some(AttrItemsOf(r.attributes))))
  }

  // ------------------------------------------- the array read back, field by field

  predicate ReadsSi(x: Option<SiItem>, si: Option<StandardInfo>) {
    && (x.Some? <==> si.Some?)
    && (si.Some? ==>
          && x.value.created == si.value.macb.created && x.value.modified == si.value.macb.modified
          && x.value.accessed == si.value.macb.accessed && x.value.mftModified == si.value.macb.mftModified
          && x.value.dosAttributes == Some(si.value.dosAttributes) && x.value.usn == Some(si.value.usn))
  }

  predicate ReadsData(x: Option<DataItem>, d: Option<DataStream>) {
    && (x.Some? <==> d.Some?)
    && (d.Some? ==>
          && x.value.resident == Some(d.value.resident) && x.value.bytes == d.value.data
          && x.value.logicalSize == Some(d.value.logicalSize) && x.value.physicalSize == Some(d.value.physicalSize))
  }

  predicate ReadsName(x: FnItem, f: FileName) {
    && x.name == Some(f.name) && x.parentEntry == Some(f.parentEntry) && x.parentSeq == Some(f.parentSeq)
    && x.namespace == Some(match f.namespace
         case Posix => "POSIX" case Win32 => "Win32" case Dos => "DOS" case Win32AndDos => "Win32AndDos")
    && x.created == f.macb.created && x.modified == f.macb.modified
    && x.accessed == f.macb.accessed && x.mftModified == f.macb.mftModified
    && x.logicalSize == Some(f.logicalSize) && x.physicalSize == Some(f.physicalSize)
  }

  predicate ReadsStream(x: AdsItem, s: DataStream) {
    x.name == s.name && x.logicalSize == Some(s.logicalSize) && x.resident == Some(s.resident)
  }

  predicate ReadsAttribute(x: AttrItem, a: AttrInfo) {
    && x.typeId == Some(a.typeId) && x.typeName == Some(a.typeName)
    && x.resident == Some(a.resident) && x.name == a.name
  }

  /** The row shows every field of the record, item by item in the lists. */
  ghost predicate ReadsRecord(x: NestedRecord, r: DecodedRecord) {
    && x.top.entry == r.entry && x.top.sequence == r.sequence && x.top.inUse == r.inUse && x.top.isDir == r.isDir
    && x.top.baseRef == r.baseRef && x.top.lsn == r.lsn && x.top.hardLinks == r.hardLinkCount
    && ReadsSi(x.si, r.standardInfo) && ReadsData(x.data, r.data.primary)
    && x.names.Some? && |x.names.value| == |r.fileNames|
    && (forall j :: 0 <= j < |r.fileNames| ==> ReadsName(x.names.value[j], r.fileNames[j]))
    && x.ads.Some? && |x.ads.value| == |r.data.ads|
    && (forall j :: 0 <= j < |r.data.ads| ==> ReadsStream(x.ads.value[j], r.data.ads[j]))
    && x.attributes.Some? && |x.attributes.value| == |r.attributes|
    && (forall j :: 0 <= j < |r.attributes| ==> ReadsAttribute(x.attributes.value[j], r.attributes[j]))
  }

  lemma ProjectedReads(r: DecodedRecord)
    ensures Projected(Some(r)).Some? && ReadsRecord(Projected(Some(r)).value, r)
  {
  }

  /** The parts of a record that are pushed into a nested column. */
  function SiPart(rec: Option<DecodedRecord>): Option<StandardInfo> {
    if rec.Some? then rec.value.standardInfo else None
  }

  function DataPart(rec: Option<DecodedRecord>): Option<DataStream> {
    if rec.Some? then rec.value.data.primary else None
  }

  function NamesPart(rec: Option<DecodedRecord>): seq<FileName> {
    if rec.Some? then rec.value.fileNames else []
  }

  function AdsPart(rec: Option<DecodedRecord>): seq<DataStream> {
    if rec.Some? then rec.value.data.ads else []
  }

  function AttrsPart(rec: Option<DecodedRecord>): seq<AttrInfo> {
    if rec.Some? then rec.value.attributes else []
  }

  function Each<A, B>(f: A -> B, xs: seq<A>): (ys: seq<B>)
    ensures |ys| == |xs| && forall i :: 0 <= i < |xs| ==> ys[i] == f(xs[i])
  {
    seq(|xs|, i requires 0 <= i < |xs| => f(xs[i]))
  }

  lemma EachAppend<A, B>(f: A -> B, xs: seq<A>, i: nat)
    requires i < |xs|
    ensures Each(f, xs[..i + 1]) == Each(f, xs[..i]) + [f(xs[i])]
  {
  }

  lemma EachSnoc<A, B>(f: A -> B, xs: seq<A>, x: A)
    ensures Each(f, xs + [x]) == Each(f, xs) + [f(x)]
  {
  }

  function FnPart(rec: Option<DecodedRecord>): seq<FnItem> {
    FnsOf(NamesPart(rec))
  }

  function AdsItemPart(rec: Option<DecodedRecord>): seq<AdsItem> {
    AdsItemsOf(AdsPart(rec))
  }

  function AttrItemPart(rec: Option<DecodedRecord>): seq<AttrItem> {
    AttrItemsOf(AttrsPart(rec))
  }

  function SiItemOf(rec: Option<DecodedRecord>): SiItem {
    SiOf(SiPart(rec))
  }

  function DataItemOf(rec: Option<DecodedRecord>): DataItem {
    DataOf(DataPart(rec))
  }

  predicate IsRecord(rec: Option<DecodedRecord>) {
    rec.Some?
  }

  predicate HasSi(rec: Option<DecodedRecord>) {
    SiPart(rec).Some?
  }

  predicate HasData(rec: Option<DecodedRecord>) {
    DataPart(rec).Some?
  }

  /** Every running total of flat items fits a 32-bit offset. */
  ghost predicate FitsOffsets(records: seq<Option<DecodedRecord>>) {
    && |Concat(Each(FnPart, records))| <= I32_MAX
    && |Concat(Each(AdsItemPart, records))| <= I32_MAX
    && |Concat(Each(AttrItemPart, records))| <= I32_MAX
  }

  lemma ConcatPrefixFits<T>(parts: seq<seq<T>>, i: nat)
    requires i < |parts|
    ensures |Concat(parts[..i])| + |parts[i]| <= |Concat(parts)|
  {
    PartAt(parts, i);
    assert parts[..i + 1] == parts[..i] + [parts[i]];
    ConcatAppend(parts[..i], [parts[i]]);
    assert Concat([parts[i]]) == parts[i];
  }

  lemma PartsFit(records: seq<Option<DecodedRecord>>, i: nat)
    requires i < |records| && FitsOffsets(records)
    ensures |Concat(Each(FnPart, records[..i]))| + |NamesPart(records[i])| <= I32_MAX
    ensures |Concat(Each(AdsItemPart, records[..i]))| + |AdsPart(records[i])| <= I32_MAX
    ensures |Concat(Each(AttrItemPart, records[..i]))| + |AttrsPart(records[i])| <= I32_MAX
  {
    assert Each(FnPart, records)[..i] == Each(FnPart, records[..i]);
    assert Each(AdsItemPart, records)[..i] == Each(AdsItemPart, records[..i]);
    assert Each(AttrItemPart, records)[..i] == Each(AttrItemPart, records[..i]);
    ConcatPrefixFits(Each(FnPart, records), i);
    ConcatPrefixFits(Each(AdsItemPart, records), i);
    ConcatPrefixFits(Each(AttrItemPart, records), i);
  }

  /** All the accumulators of the build, filled from `done`. */
  ghost predicate Filled(top: TopColumns, si: SiColumns, data: DataColumns, done: seq<Option<DecodedRecord>>)
    reads top, si, data
  {
    && top.Valid() && top.Items() == Each(TopOf, done) && top.validity == Each(IsRecord, done)
    && si.Valid() && si.Items() == Each(SiItemOf, done) && si.validity == Each(HasSi, done)
    && data.Valid() && data.Items() == Each(DataItemOf, done) && data.validity == Each(HasData, done)
  }

  method AppendStructs(top: TopColumns, si: SiColumns, data: DataColumns, rec: Option<DecodedRecord>,
                       ghost done: seq<Option<DecodedRecord>>)
    requires Filled(top, si, data, done)
    modifies top, si, data
    ensures Filled(top, si, data, done + [rec])
  {
    StructsGrow(done, rec);
    top.Append(rec);
    match rec {
      case None =>
        si.PushSi(None);
        data.PushData(None);
      case Some(r) =>
        si.PushSi(r.standardInfo);
        data.PushData(r.data.primary);
    }
  }

  lemma StructsGrow(done: seq<Option<DecodedRecord>>, rec: Option<DecodedRecord>)
    ensures Each(TopOf, done + [rec]) == Each(TopOf, done) + [TopOf(rec)]
    ensures Each(IsRecord, done + [rec]) == Each(IsRecord, done) + [rec.Some?]
    ensures Each(SiItemOf, done + [rec]) == Each(SiItemOf, done) + [SiOf(SiPart(rec))]
    ensures Each(HasSi, done + [rec]) == Each(HasSi, done) + [SiPart(rec).Some?]
    ensures Each(DataItemOf, done + [rec]) == Each(DataItemOf, done) + [DataOf(DataPart(rec))]
    ensures Each(HasData, done + [rec]) == Each(HasData, done) + [DataPart(rec).Some?]
  {
    EachSnoc(TopOf, done, rec);
    EachSnoc(IsRecord, done, rec);
    EachSnoc(SiItemOf, done, rec);
    EachSnoc(HasSi, done, rec);
    EachSnoc(DataItemOf, done, rec);
    EachSnoc(HasData, done, rec);
  }

  /** One list column under construction, filled from `done`. */
  ghost predicate ListFilled<T>(part: Option<DecodedRecord> -> seq<T>, offsets: seq<nat>, items: seq<T>,
                                validity: seq<bool>, done: seq<Option<DecodedRecord>>) {
    Cuts(offsets, items, Each(part, done)) && validity == Each(IsRecord, done)
  }

  lemma ListGrows<T>(part: Option<DecodedRecord> -> seq<T>, offsets: seq<nat>, items: seq<T>,
                     validity: seq<bool>, done: seq<Option<DecodedRecord>>, rec: Option<DecodedRecord>)
    requires ListFilled(part, offsets, items, validity, done)
    ensures ListFilled(part, offsets + [|items + part(rec)|], items + part(rec), validity + [rec.Some?], done + [rec])
  {
    var all := done + [rec];
    assert all[..|done|] == done && all[..|done| + 1] == all;
    EachAppend(part, all, |done|);
    EachAppend(IsRecord, all, |done|);
    CutsAppend(offsets, items, Each(part, done), part(rec));
  }

  /** The offsets and validity pushed so far for one list column. */
  datatype ListState = ListState(offsets: seq<nat>, validity: seq<bool>)

  method AppendNames(flat: FnFlat, list: ListState, rec: Option<DecodedRecord>, ghost done: seq<Option<DecodedRecord>>)
    returns (list': ListState)
    requires flat.Valid() && |flat.Items()| + |NamesPart(rec)| <= I32_MAX
    requires ListFilled(FnPart, list.offsets, flat.Items(), list.validity, done)
    modifies flat
    ensures flat.Valid() && ListFilled(FnPart, list'.offsets, flat.Items(), list'.validity, done + [rec])
  {
    ListGrows(FnPart, list.offsets, flat.Items(), list.validity, done, rec);
    if rec.Some? {
      flat.PushAll(rec.value.fileNames);
    } else {
      assert flat.Items() + FnPart(rec) == flat.Items();
    }
    list' := ListState(list.offsets + [flat.len], list.validity + [rec.Some?]);
  }

  method AppendAds(flat: AdsFlat, list: ListState, rec: Option<DecodedRecord>, ghost done: seq<Option<DecodedRecord>>)
    returns (list': ListState)
    requires flat.Valid() && |flat.Items()| + |AdsPart(rec)| <= I32_MAX
    requires ListFilled(AdsItemPart, list.offsets, flat.Items(), list.validity, done)
    modifies flat
    ensures flat.Valid() && ListFilled(AdsItemPart, list'.offsets, flat.Items(), list'.validity, done + [rec])
  {
    ListGrows(AdsItemPart, list.offsets, flat.Items(), list.validity, done, rec);
    if rec.Some? {
      flat.PushAll(rec.value.data.ads);
    } else {
      assert flat.Items() + AdsItemPart(rec) == flat.Items();
    }
    list' := ListState(list.offsets + [flat.len], list.validity + [rec.Some?]);
  }

  method AppendAttributes(flat: AttrFlat, list: ListState, rec: Option<DecodedRecord>,
                          ghost done: seq<Option<DecodedRecord>>)
    returns (list': ListState)
    requires flat.Valid() && |flat.Items()| + |AttrsPart(rec)| <= I32_MAX
    requires ListFilled(AttrItemPart, list.offsets, flat.Items(), list.validity, done)
    modifies flat
    ensures flat.Valid() && ListFilled(AttrItemPart, list'.offsets, flat.Items(), list'.validity, done + [rec])
  {
    ListGrows(AttrItemPart, list.offsets, flat.Items(), list.validity, done, rec);
    if rec.Some? {
      flat.PushAll(rec.value.attributes);
    } else {
      assert flat.Items() + AttrItemPart(rec) == flat.Items();
    }
    list' := ListState(list.offsets + [flat.len], list.validity + [rec.Some?]);
  }

  ghost predicate ListsFilled(fnFlat: FnFlat, adsFlat: AdsFlat, attrFlat: AttrFlat,
                              names: ListState, ads: ListState, attrs: ListState,
                              done: seq<Option<DecodedRecord>>)
    reads fnFlat, adsFlat, attrFlat
  {
    && fnFlat.Valid() && ListFilled(FnPart, names.offsets, fnFlat.Items(), names.validity, done)
    && adsFlat.Valid() && ListFilled(AdsItemPart, ads.offsets, adsFlat.Items(), ads.validity, done)
    && attrFlat.Valid() && ListFilled(AttrItemPart, attrs.offsets, attrFlat.Items(), attrs.validity, done)
  }

  // The list half of the loop body.
  method AppendLists(fnFlat: FnFlat, adsFlat: AdsFlat, attrFlat: AttrFlat,
                     names: ListState, ads: ListState, attrs: ListState,
                     rec: Option<DecodedRecord>, ghost done: seq<Option<DecodedRecord>>)
    returns (names': ListState, ads': ListState, attrs': ListState)
    requires ListsFilled(fnFlat, adsFlat, attrFlat, names, ads, attrs, done)
    requires FitsOffsets(done + [rec])
    modifies fnFlat, adsFlat, attrFlat
    ensures ListsFilled(fnFlat, adsFlat, attrFlat, names', ads', attrs', done + [rec])
  {
    assert (done + [rec])[..|done|] == done;
    PartsFit(done + [rec], |done|);
    names' := AppendNames(fnFlat, names, rec, done);
    ads' := AppendAds(adsFlat, ads, rec, done);
    attrs' := AppendAttributes(attrFlat, attrs, rec, done);
  }

  ghost predicate AllFilled(top: TopColumns, si: SiColumns, data: DataColumns,
                            fnFlat: FnFlat, adsFlat: AdsFlat, attrFlat: AttrFlat,
                            names: ListState, ads: ListState, attrs: ListState,
                            done: seq<Option<DecodedRecord>>)
    reads top, si, data, fnFlat, adsFlat, attrFlat
  {
    Filled(top, si, data, done) && ListsFilled(fnFlat, adsFlat, attrFlat, names, ads, attrs, done)
  }

  // The loop body: one record into every column.
  method AppendRecord(top: TopColumns, si: SiColumns, data: DataColumns,
                      fnFlat: FnFlat, adsFlat: AdsFlat, attrFlat: AttrFlat,
                      names: ListState, ads: ListState, attrs: ListState,
                      rec: Option<DecodedRecord>, ghost done: seq<Option<DecodedRecord>>)
    returns (names': ListState, ads': ListState, attrs': ListState)
    requires AllFilled(top, si, data, fnFlat, adsFlat, attrFlat, names, ads, attrs, done)
    requires FitsOffsets(done + [rec])
    modifies top, si, data, fnFlat, adsFlat, attrFlat
    ensures AllFilled(top, si, data, fnFlat, adsFlat, attrFlat, names', ads', attrs', done + [rec])
  {
    AppendStructs(top, si, data, rec, done);
    names', ads', attrs' := AppendLists(fnFlat, adsFlat, attrFlat, names, ads, attrs, rec, done);
  }

  // One pass over the records, every column growing together.
  method AppendAll(top: TopColumns, si: SiColumns, data: DataColumns,
                   fnFlat: FnFlat, adsFlat: AdsFlat, attrFlat: AttrFlat, records: seq<Option<DecodedRecord>>)
    returns (names: ListState, ads: ListState, attrs: ListState)
    requires FitsOffsets(records)
    requires AllFilled(top, si, data, fnFlat, adsFlat, attrFlat, EMPTY_LIST, EMPTY_LIST, EMPTY_LIST, [])
    modifies top, si, data, fnFlat, adsFlat, attrFlat
    ensures AllFilled(top, si, data, fnFlat, adsFlat, attrFlat, names, ads, attrs, records)
  {
    names, ads, attrs := EMPTY_LIST, EMPTY_LIST, EMPTY_LIST;
    for i := 0 to |records|
      invariant AllFilled(top, si, data, fnFlat, adsFlat, attrFlat, names, ads, attrs, records[..i])
    {
      PrefixFits(records, i);
      names, ads, attrs := AppendRecord(top, si, data, fnFlat, adsFlat, attrFlat, names, ads, attrs,
                                        records[i], records[..i]);
    }
    assert records[..|records|] == records;
  }

  const EMPTY_LIST: ListState := ListState([0], [])

  // Read back, each row of the finished array shows the record it was built
  // from, field by field, and a missing record is a null row.
  method BuildMftRecordArray(records: seq<Option<DecodedRecord>>) returns (arr: RecordArray)
    requires FitsOffsets(records)
    ensures arr.Valid() && |arr.validity| == |records|
    ensures forall i :: 0 <= i < |records| ==> (arr.At(i).Some? <==> records[i].Some?)
    ensures forall i :: 0 <= i < |records| && records[i].Some? ==> ReadsRecord(arr.At(i).value, records[i].value)
  {
    var top := new TopColumns();
    var si := new SiColumns();
    var data := new DataColumns();
    var fnFlat := new FnFlat();
    var adsFlat := new AdsFlat();
    var attrFlat := new AttrFlat();
    var names, ads, attrs := AppendAll(top, si, data, fnFlat, adsFlat, attrFlat, records);
    arr := RecordArray(
      top.Items(), top.validity, si.Items(), si.validity, data.Items(), data.validity,
      ListColumn(names.offsets, fnFlat.Items(), names.validity),
      ListColumn(ads.offsets, adsFlat.Items(), ads.validity),
      ListColumn(attrs.offsets, attrFlat.Items(), attrs.validity));
    ReadsBack(arr, records);
  }

  lemma PrefixFits(records: seq<Option<DecodedRecord>>, i: nat)
    requires i < |records| && FitsOffsets(records)
    ensures records[..i + 1] == records[..i] + [records[i]] && FitsOffsets(records[..i + 1])
  {
    PartsFit(records, i);
    EachAppend(FnPart, records, i);
    EachAppend(AdsItemPart, records, i);
    EachAppend(AttrItemPart, records, i);
    ConcatAppend(Each(FnPart, records[..i]), [FnPart(records[i])]);
    ConcatAppend(Each(AdsItemPart, records[..i]), [AdsItemPart(records[i])]);
    ConcatAppend(Each(AttrItemPart, records[..i]), [AttrItemPart(records[i])]);
    assert Concat([FnPart(records[i])]) == FnPart(records[i]);
    assert Concat([AdsItemPart(records[i])]) == AdsItemPart(records[i]);
    assert Concat([AttrItemPart(records[i])]) == AttrItemPart(records[i]);
  }

  /** The finished array holds, column by column, what the records give. */
  ghost predicate Holds(arr: RecordArray, records: seq<Option<DecodedRecord>>) {
    && arr.top == Each(TopOf, records) && arr.validity == Each(IsRecord, records)
    && arr.si == Each(SiItemOf, records) && arr.siValidity == Each(HasSi, records)
    && arr.data == Each(DataItemOf, records) && arr.dataValidity == Each(HasData, records)
    && ListFilled(FnPart, arr.names.offsets, arr.names.items, arr.names.validity, records)
    && ListFilled(AdsItemPart, arr.ads.offsets, arr.ads.items, arr.ads.validity, records)
    && ListFilled(AttrItemPart, arr.attributes.offsets, arr.attributes.items, arr.attributes.validity, records)
  }

  lemma ReadsBack(arr: RecordArray, records: seq<Option<DecodedRecord>>)
    requires Holds(arr, records)
    ensures arr.Valid() && |arr.validity| == |records|
    ensures forall i :: 0 <= i < |records| ==> arr.At(i) == Projected(records[i])
    ensures forall i :: 0 <= i < |records| ==> (arr.At(i).Some? <==> records[i].Some?)
    ensures forall i :: 0 <= i < |records| && records[i].Some? ==> ReadsRecord(arr.At(i).value, records[i].value)
  {
    forall i | 0 <= i < |records| && records[i].Some?
      ensures Projected(records[i]).Some? && ReadsRecord(Projected(records[i]).value, records[i].value)
    {
      ProjectedReads(records[i].value);
    }
    CutsGiveParts(arr.names, Each(FnPart, records));
    CutsGiveParts(arr.ads, Each(AdsItemPart, records));
    CutsGiveParts(arr.attributes, Each(AttrItemPart, records));
  }
}
