// Attribute encoding in crates/mft-core/src/synth.rs, and what a reader of the
// encoded bytes finds: the chain scan steps through exactly the attributes laid
// down, with their types, names, residency and contents.
module Attributes {
  import opened Common
  import opened Bytes
  import opened PreScan

  /** An attribute's payload: inline bytes, or sizes only. */
  datatype Body = Inline(content: Buffer) | Sizes(logical: nat, physical: nat)

  /** An attribute; its name is a string of UTF-16 units. */
  datatype Attr = Attr(typeId: nat, instance: nat, name: Option<seq<nat>>, body: Body)

  /** The field widths the source's types impose. */
  predicate InRange(a: Attr) {
    && a.typeId < ALL_ONES && a.instance < U16
    && (a.name.Some? ==> forall i :: 0 <= i < |a.name.value| ==> a.name.value[i] < U16)
    && (a.body.Sizes? ==> a.body.logical < U64 && a.body.physical < U64)
  }

  function Round8(n: nat): (r: nat)
    ensures n <= r < n + 8 && r % 8 == 0
  {
    (n + 7) / 8 * 8
  }

  function ZeroBytes(n: nat): (r: Buffer)
    ensures |r| == n && Zeros(r)
  {
    seq(n, _ => 0)
  }

  function Units(name: Option<seq<nat>>): seq<nat> {
    if name.Some? then name.value else []
  }

  function Utf16Le(units: seq<nat>): (r: Buffer)
    ensures |r| == 2 * |units|
  {
    if units == [] then [] else Le16(units[0]) + Utf16Le(units[1..])
  }

  // ------------------------------------------------------------------ encoding

  /** The name-size byte; the count of units is cut to eight bits. */
  function NameSize(a: Attr): byte {
    |Units(a.name)| % 256
  }

  function CommonHeader(a: Attr, length: nat, nonResident: byte, nameOffset: nat): (r: Buffer)
    ensures |r| == 16
  {
    Le32(a.typeId) + Le32(length) + [nonResident, NameSize(a)] + Le16(nameOffset) + Le16(0) + Le16(a.instance)
  }

  function ResidentLength(a: Attr): nat
    requires a.body.Inline?
  {
    Round8(24 + 2 * |Units(a.name)| + |a.body.content|)
  }

  function ResidentHeader(a: Attr): (r: Buffer)
    requires a.body.Inline?
    ensures |r| == 24
  {
    CommonHeader(a, ResidentLength(a), 0, if NameSize(a) > 0 then 24 else 0)
    + Le32(|a.body.content|) + Le16(24 + 2 * |Units(a.name)|) + [0, 0]
  }

  function EncodeResident(a: Attr): (r: Buffer)
    requires a.body.Inline?
    ensures |r| == ResidentLength(a)
  {
    var units, content := Units(a.name), a.body.content;
    ResidentHeader(a) + Utf16Le(units) + content + ZeroBytes(ResidentLength(a) - 24 - 2 * |units| - |content|)
  }

  function NonResidentLength(a: Attr): nat {
    Round8(64 + 2 * |Units(a.name)| + 1)
  }

  /** The data-run fields, all constant but the run offset. */
  function RunFields(runOffset: nat): (r: Buffer)
    ensures |r| == 24
  {
    Le64(0) + Le64(0) + Le16(runOffset) + Le16(0) + Le32(0)
  }

  function NonResidentHeader(a: Attr): (r: Buffer)
    requires a.body.Sizes?
    ensures |r| == 64
  {
    CommonHeader(a, NonResidentLength(a), 1, if NameSize(a) > 0 then 64 else 0)
    + RunFields(64 + 2 * |Units(a.name)|) + Le64(a.body.physical) + Le64(a.body.logical) + Le64(a.body.logical)
  }

  function EncodeNonResident(a: Attr): (r: Buffer)
    requires a.body.Sizes?
    ensures |r| == NonResidentLength(a)
  {
    NonResidentHeader(a) + Utf16Le(Units(a.name)) + ZeroBytes(NonResidentLength(a) - 64 - 2 * |Units(a.name)|)
  }

  function EncodedLength(a: Attr): (n: nat)
    ensures 24 <= n && n % 8 == 0
  {
    if a.body.Inline? then ResidentLength(a) else NonResidentLength(a)
  }

  function Encode(a: Attr): (r: Buffer)
    ensures |r| == EncodedLength(a)
  {
    if a.body.Inline? then EncodeResident(a) else EncodeNonResident(a)
  }

  // The encoders as written: fields pushed one after another, then padding.
  method ResidentAttr(typeId: nat, instance: nat, name: Option<seq<nat>>, content: Buffer) returns (a: Buffer)
    ensures a == Encode(Attr(typeId, instance, name, Inline(content)))
  {
    var units := Units(name);
    var nameUnits: byte := |units| % 256;
    var nameOffset := if nameUnits > 0 then 24 else 0;
    var dataOffset := 24 + 2 * |units|;
    var recordLength := Round8(dataOffset + |content|);
    a := Le32(typeId) + Le32(recordLength);
    a := a + [0, nameUnits] + Le16(nameOffset) + Le16(0) + Le16(instance);
    a := a + Le32(|content|) + Le16(dataOffset) + [0, 0];
    a := a + Utf16Le(units) + content;
    a := a + ZeroBytes(recordLength - |a|);
  }

  method NonResidentAttr(typeId: nat, instance: nat, name: Option<seq<nat>>, logical: nat, physical: nat)
    returns (a: Buffer)
    ensures a == Encode(Attr(typeId, instance, name, Sizes(logical, physical)))
  {
    var units := Units(name);
    var nameUnits: byte := |units| % 256;
    var nameOffset := if nameUnits > 0 then 64 else 0;
    var dataRunOffset := 64 + 2 * |units|;
    var recordLength := Round8(dataRunOffset + 1);
    a := Le32(typeId) + Le32(recordLength);
    a := a + [1, nameUnits] + Le16(nameOffset) + Le16(0) + Le16(instance);
    assert a == CommonHeader(Attr(typeId, instance, name, Sizes(logical, physical)), recordLength, 1, nameOffset);
    a := a + RunFields(dataRunOffset) + Le64(physical) + Le64(logical) + Le64(logical);
    a := a + Utf16Le(units);
    a := a + ZeroBytes(recordLength - |a|);
  }

  // ------------------------------------------------------------------- reading

  function UnitsAt(data: Buffer, off: nat, n: nat): (units: seq<nat>)
    requires off + 2 * n <= |data|
    ensures |units| == n
  {
    seq(n, i requires 0 <= i < n => U16At(data, off + 2 * i))
  }

  function NameAt(data: Buffer, off: nat): Option<seq<nat>>
    requires off + 16 <= |data|
  {
    var size, at := data[off + 9] as int, U16At(data, off + 10);
    if size == 0 || |data| < off + at + 2 * size then None else Some(UnitsAt(data, off + at, size))
  }

  /** What the bytes of a sound attribute say it is. */
  function ReadAt(data: Buffer, off: nat): Attr
    requires SoundAt(data, off)
  {
    Attr(U32At(data, off), U16At(data, off + 14), NameAt(data, off),
         if ResidentAt(data, off) then
           var from := off + U16At(data, off + 20);
           Inline(data[from..from + U32At(data, off + 16)])
         else if off + 56 <= |data| then Sizes(U64At(data, off + 48), U64At(data, off + 40))
         else Sizes(0, 0))
  }

  /** The data flags, which the builder leaves clear. */
  function FlagsAt(data: Buffer, off: nat): nat
    requires off + 16 <= |data|
  {
    U16At(data, off + 12)
  }

  /** The name that survives: the first `count mod 256` units, if any. */
  function Kept(name: Option<seq<nat>>): Option<seq<nat>> {
    var units := Units(name);
    if |units| % 256 == 0 then None else Some(units[..|units| % 256])
  }

  function AsRead(a: Attr): Attr {
    a.(name := Kept(a.name))
  }

  // A name survives exactly when it has fewer than 256 units; an empty name is
  // no name.
  lemma NameSurvivesExactly(name: Option<seq<nat>>)
    ensures Kept(name) == (if Units(name) == [] then None else Some(Units(name))) <==> |Units(name)| < 256
  {
    var units := Units(name);
    if |units| < 256 {
      assert units[..|units|] == units;
    }
  }

  /** The common header's fields read as the given values. */
  predicate HeaderSays(data: Buffer, off: nat, a: Attr, length: nat, nonResident: byte, nameOffset: nat) {
    && off + 16 <= |data|
    && U32At(data, off) == a.typeId && U32At(data, off + 4) == length
    && data[off + 8] == nonResident && data[off + 9] == NameSize(a)
    && U16At(data, off + 10) == nameOffset && FlagsAt(data, off) == 0 && U16At(data, off + 14) == a.instance
  }

  lemma CommonHeaderReads(data: Buffer, off: nat, a: Attr, length: nat, nonResident: byte, nameOffset: nat)
    requires Holds(data, off, CommonHeader(a, length, nonResident, nameOffset))
    requires InRange(a) && length < U32 && nameOffset < U16
    ensures HeaderSays(data, off, a, length, nonResident, nameOffset)
  {
    var flags := [nonResident, NameSize(a)];
    var h2 := Le32(a.typeId) + Le32(length);
    var h3 := h2 + flags;
    var h4 := h3 + Le16(nameOffset);
    HoldsSplit(data, off, h4 + Le16(0), Le16(a.instance));
    HoldsSplit(data, off, h4, Le16(0));
    HoldsSplit(data, off, h3, Le16(nameOffset));
    HoldsSplit(data, off, h2, flags);
    HoldsSplit(data, off, Le32(a.typeId), Le32(length));
    Read32(data, off, a.typeId);
    Read32(data, off + 4, length);
    assert data[off + 8..off + 10] == flags;
    assert data[off + 8] == data[off + 8..off + 10][0] && data[off + 9] == data[off + 8..off + 10][1];
    Read16(data, off + 10, nameOffset);
    Read16(data, off + 12, 0);
    Read16(data, off + 14, a.instance);
  }

  lemma {:induction false} UnitsRead(data: Buffer, off: nat, units: seq<nat>, n: nat)
    requires Holds(data, off, Utf16Le(units)) && n <= |units|
    requires forall i :: 0 <= i < |units| ==> units[i] < U16
    ensures UnitsAt(data, off, n) == units[..n]
    ensures n == |units| ==> UnitsAt(data, off, n) == units
    decreases n
  {
    if n > 0 {
      HoldsSplit(data, off, Le16(units[0]), Utf16Le(units[1..]));
      Read16(data, off, units[0]);
      UnitsRead(data, off + 2, units[1..], n - 1);
      forall i | 0 <= i < n ensures UnitsAt(data, off, n)[i] == units[..n][i] {
        if 0 < i {
          assert UnitsAt(data, off + 2, n - 1)[i - 1] == units[1..][..n - 1][i - 1];
        }
      }
    }
  }

  lemma NameReads(data: Buffer, off: nat, a: Attr, at: nat)
    requires off + 16 <= |data| && InRange(a) && at < U16
    requires data[off + 9] == NameSize(a) && U16At(data, off + 10) == if NameSize(a) > 0 then at else 0
    requires Holds(data, off + at, Utf16Le(Units(a.name)))
    ensures NameAt(data, off) == Kept(a.name)
  {
    var units, kept := Units(a.name), NameSize(a) as int;
    if kept > 0 {
      UnitsRead(data, off + at, units, kept);
    }
  }

  /** Each field of a resident attribute's header in its place. */
  predicate HasResidentHeader(data: Buffer, off: nat, a: Attr)
    requires a.body.Inline?
  {
    && Holds(data, off, CommonHeader(a, ResidentLength(a), 0, if NameSize(a) > 0 then 24 else 0))
    && Holds(data, off + 16, Le32(|a.body.content|)) && Holds(data, off + 20, Le16(24 + 2 * |Units(a.name)|))
  }

  /** And its name and content. */
  predicate HasResidentFields(data: Buffer, off: nat, a: Attr)
    requires a.body.Inline?
  {
    var units, content := Units(a.name), a.body.content;
    && HasResidentHeader(data, off, a)
    && Holds(data, off + 24, Utf16Le(units)) && Holds(data, off + 24 + 2 * |units|, content)
    && off + ResidentLength(a) <= |data|
  }

  lemma ResidentHeaderFields(data: Buffer, off: nat, a: Attr)
    requires a.body.Inline? && Holds(data, off, ResidentHeader(a))
    ensures HasResidentHeader(data, off, a)
  {
    var h1 := CommonHeader(a, ResidentLength(a), 0, if NameSize(a) > 0 then 24 else 0);
    var h2 := h1 + Le32(|a.body.content|);
    var h3 := h2 + Le16(24 + 2 * |Units(a.name)|);
    HoldsSplit(data, off, h3, [0, 0]);
    HoldsSplit(data, off, h2, Le16(24 + 2 * |Units(a.name)|));
    HoldsSplit(data, off, h1, Le32(|a.body.content|));
  }

  lemma ResidentFields(data: Buffer, off: nat, a: Attr)
    requires a.body.Inline? && Holds(data, off, EncodeResident(a))
    ensures HasResidentFields(data, off, a)
  {
    var header, units, content := ResidentHeader(a), Utf16Le(Units(a.name)), a.body.content;
    HoldsSplit(data, off, header + units + content, ZeroBytes(ResidentLength(a) - 24 - |units| - |content|));
    HoldsSplit(data, off, header + units, content);
    HoldsSplit(data, off, header, units);
    ResidentHeaderFields(data, off, a);
  }

  /** What a resident attribute's fields say, wherever it lies. */
  predicate ResidentSays(data: Buffer, off: nat, a: Attr)
    requires a.body.Inline?
  {
    var units, content := Units(a.name), a.body.content;
    && 24 <= ResidentLength(a) && off + ResidentLength(a) <= |data|
    && HeaderSays(data, off, a, ResidentLength(a), 0, if NameSize(a) > 0 then 24 else 0)
    && U32At(data, off + 16) == |content| && U16At(data, off + 20) == 24 + 2 * |units|
    && Holds(data, off + 24, Utf16Le(units)) && Holds(data, off + 24 + 2 * |units|, content)
  }

  lemma ResidentFieldsRead(data: Buffer, off: nat, a: Attr)
    requires a.body.Inline? && InRange(a) && |data| < U16
    requires HasResidentFields(data, off, a)
    ensures ResidentSays(data, off, a)
  {
    CommonHeaderReads(data, off, a, ResidentLength(a), 0, if NameSize(a) > 0 then 24 else 0);
    Read32(data, off + 16, |a.body.content|);
    Read16(data, off + 20, 24 + 2 * |Units(a.name)|);
  }

  lemma ResidentSound(data: Buffer, off: nat, a: Attr)
    requires a.body.Inline? && InRange(a) && ResidentSays(data, off, a)
    ensures SoundAt(data, off) && ResidentAt(data, off) && LengthAt(data, off) == ResidentLength(a)
  {
    assert 24 + 2 * |Units(a.name)| + |a.body.content| <= ResidentLength(a);
  }

  // Wherever an encoded attribute lies in a record buffer, it is sound there,
  // as long as its encoding, and reads back as itself.
  lemma ResidentReads(data: Buffer, off: nat, a: Attr)
    requires a.body.Inline? && InRange(a) && |data| < U16
    requires ResidentSays(data, off, a)
    ensures SoundAt(data, off) && LengthAt(data, off) == ResidentLength(a)
    ensures ReadAt(data, off) == AsRead(a) && FlagsAt(data, off) == 0
  {
    ResidentSound(data, off, a);
    NameReads(data, off, a, 24);
    ResidentAssembles(data, off, a, 24 + 2 * |Units(a.name)|);
  }

  lemma ResidentAssembles(data: Buffer, off: nat, a: Attr, at: nat)
    requires SoundAt(data, off) && ResidentAt(data, off) && a.body.Inline?
    requires U32At(data, off) == a.typeId && U16At(data, off + 14) == a.instance
    requires NameAt(data, off) == Kept(a.name)
    requires U32At(data, off + 16) == |a.body.content| && U16At(data, off + 20) == at
    requires Holds(data, off + at, a.body.content)
    ensures ReadAt(data, off) == AsRead(a)
  {
  }

  /** Each field of a non-resident attribute's header in its place. */
  predicate HasNonResidentHeader(data: Buffer, off: nat, a: Attr)
    requires a.body.Sizes?
  {
    && Holds(data, off, CommonHeader(a, NonResidentLength(a), 1, if NameSize(a) > 0 then 64 else 0))
    && Holds(data, off + 16, RunFields(64 + 2 * |Units(a.name)|))
    && Holds(data, off + 40, Le64(a.body.physical)) && Holds(data, off + 48, Le64(a.body.logical))
    && Holds(data, off + 56, Le64(a.body.logical))
  }

  /** And its name. */
  predicate HasNonResidentFields(data: Buffer, off: nat, a: Attr)
    requires a.body.Sizes?
  {
    && HasNonResidentHeader(data, off, a)
    && Holds(data, off + 64, Utf16Le(Units(a.name)))
    && off + NonResidentLength(a) <= |data|
  }

  lemma NonResidentHeaderFields(data: Buffer, off: nat, a: Attr)
    requires a.body.Sizes? && Holds(data, off, NonResidentHeader(a))
    ensures HasNonResidentHeader(data, off, a)
  {
    var h1 := CommonHeader(a, NonResidentLength(a), 1, if NameSize(a) > 0 then 64 else 0);
    var runs := RunFields(64 + 2 * |Units(a.name)|);
    var h3 := h1 + runs + Le64(a.body.physical);
    HoldsSplit(data, off, h3 + Le64(a.body.logical), Le64(a.body.logical));
    HoldsSplit(data, off, h3, Le64(a.body.logical));
    HoldsSplit(data, off, h1 + runs, Le64(a.body.physical));
    HoldsSplit(data, off, h1, runs);
  }

  lemma NonResidentFields(data: Buffer, off: nat, a: Attr)
    requires a.body.Sizes? && Holds(data, off, EncodeNonResident(a))
    ensures HasNonResidentFields(data, off, a)
  {
    var header, units := NonResidentHeader(a), Utf16Le(Units(a.name));
    HoldsSplit(data, off, header + units, ZeroBytes(NonResidentLength(a) - 64 - |units|));
    HoldsSplit(data, off, header, units);
    NonResidentHeaderFields(data, off, a);
  }

  /** What a non-resident attribute's fields say, wherever it lies. */
  predicate NonResidentSays(data: Buffer, off: nat, a: Attr)
    requires a.body.Sizes?
  {
    && 64 <= NonResidentLength(a) && off + NonResidentLength(a) <= |data|
    && HeaderSays(data, off, a, NonResidentLength(a), 1, if NameSize(a) > 0 then 64 else 0)
    && U64At(data, off + 40) == a.body.physical && U64At(data, off + 48) == a.body.logical
    && Holds(data, off + 64, Utf16Le(Units(a.name)))
  }

  lemma NonResidentFieldsRead(data: Buffer, off: nat, a: Attr)
    requires a.body.Sizes? && InRange(a) && |data| < U16
    requires HasNonResidentFields(data, off, a)
    ensures NonResidentSays(data, off, a)
  {
    CommonHeaderReads(data, off, a, NonResidentLength(a), 1, if NameSize(a) > 0 then 64 else 0);
    Read64(data, off + 40, a.body.physical);
    Read64(data, off + 48, a.body.logical);
  }

  lemma NonResidentReads(data: Buffer, off: nat, a: Attr)
    requires a.body.Sizes? && InRange(a) && |data| < U16
    requires NonResidentSays(data, off, a)
    ensures SoundAt(data, off) && LengthAt(data, off) == NonResidentLength(a)
    ensures ReadAt(data, off) == AsRead(a) && FlagsAt(data, off) == 0
  {
    NameReads(data, off, a, 64);
  }

  lemma EncodedReads(data: Buffer, off: nat, a: Attr, piece: Buffer)
    requires InRange(a) && |data| < U16
    requires piece == Encode(a) && Holds(data, off, piece)
    ensures SoundAt(data, off) && LengthAt(data, off) == |piece|
    ensures ReadAt(data, off) == AsRead(a) && FlagsAt(data, off) == 0
  {
    if a.body.Inline? {
      ResidentFields(data, off, a);
      ResidentFieldsRead(data, off, a);
      ResidentReads(data, off, a);
    } else {
      NonResidentFields(data, off, a);
      NonResidentFieldsRead(data, off, a);
      NonResidentReads(data, off, a);
    }
  }

  // ------------------------------------------------------- the bytes themselves

  lemma WholeHolds(s: Buffer)
    ensures Holds(s, 0, s)
  {
    assert s[0..|s|] == s;
  }

  // An inline attribute, byte by byte: a 24-byte header, the name, the content,
  // and zeros up to a multiple of eight.
  lemma InlineBytes(a: Attr)
    requires a.body.Inline? && InRange(a) && |Encode(a)| < U16
    ensures var e, units, content := Encode(a), Units(a.name), a.body.content;
            && |e| % 8 == 0 && 24 + 2 * |units| + |content| <= |e| < 24 + 2 * |units| + |content| + 8
            && U32At(e, 0) == a.typeId && U32At(e, 4) == |e| && e[8] == 0 && e[9] == |units| % 256
            && U16At(e, 10) == (if |units| % 256 == 0 then 0 else 24) && U16At(e, 12) == 0 && U16At(e, 14) == a.instance
            && U32At(e, 16) == |content| && U16At(e, 20) == 24 + 2 * |units|
            && UnitsAt(e, 24, |units|) == units && e[24 + 2 * |units|..24 + 2 * |units| + |content|] == content
  {
    var e := Encode(a);
    WholeHolds(e);
    ResidentFields(e, 0, a);
    ResidentFieldsRead(e, 0, a);
    UnitsRead(e, 24, Units(a.name), |Units(a.name)|);
  }

  // The rest of it is zero: the index flag, the padding byte, and the fill.
  lemma InlineFill(a: Attr, i: nat)
    requires a.body.Inline? && i < |Encode(a)|
    requires i == 22 || i == 23 || 24 + 2 * |Units(a.name)| + |a.body.content| <= i
    ensures Encode(a)[i] == 0
  {
    var head, units, content := ResidentHeader(a), Utf16Le(Units(a.name)), a.body.content;
    assert Encode(a)
        == head + units + content + ZeroBytes(ResidentLength(a) - 24 - 2 * |Units(a.name)| - |content|);
    assert head[22] == 0 && head[23] == 0;
  }

  lemma RunsRead(e: Buffer, runOffset: nat)
    requires Holds(e, 16, RunFields(runOffset)) && runOffset < U16
    ensures U64At(e, 16) == 0 && U64At(e, 24) == 0 && U16At(e, 32) == runOffset && U16At(e, 34) == 0
  {
    var h2 := Le64(0) + Le64(0);
    var h3 := h2 + Le16(runOffset);
    HoldsSplit(e, 16, h3 + Le16(0), Le32(0));
    HoldsSplit(e, 16, h3, Le16(0));
    HoldsSplit(e, 16, h2, Le16(runOffset));
    HoldsSplit(e, 16, Le64(0), Le64(0));
    Read64(e, 16, 0);
    Read64(e, 24, 0);
    Read16(e, 32, runOffset);
    Read16(e, 34, 0);
  }

  // A size-only attribute: a 64-byte header with the physical size at 40 and the
  // logical one at 48, the name, and a zero byte that ends an empty run list.
  lemma SizeOnlyBytes(a: Attr)
    requires a.body.Sizes? && InRange(a) && |Encode(a)| < U16
    ensures var e, units := Encode(a), Units(a.name);
            && |e| % 8 == 0 && 64 + 2 * |units| < |e| <= 64 + 2 * |units| + 8
            && U32At(e, 0) == a.typeId && U32At(e, 4) == |e| && e[8] == 1 && e[9] == |units| % 256
            && U16At(e, 10) == (if |units| % 256 == 0 then 0 else 64) && U16At(e, 12) == 0 && U16At(e, 14) == a.instance
            && U64At(e, 40) == a.body.physical && U64At(e, 48) == a.body.logical
            && U64At(e, 16) == 0 && U64At(e, 24) == 0 && U16At(e, 32) == 64 + 2 * |units| && U16At(e, 34) == 0
            && U64At(e, 56) == a.body.logical
            && UnitsAt(e, 64, |units|) == units && e[64 + 2 * |units|] == 0
  {
    var e := Encode(a);
    WholeHolds(e);
    NonResidentFields(e, 0, a);
    Read64(e, 56, a.body.logical);
    RunsRead(e, 64 + 2 * |Units(a.name)|);
    NonResidentFieldsRead(e, 0, a);
    UnitsRead(e, 64, Units(a.name), |Units(a.name)|);
  }

  // -------------------------------------------------------------- whole chains

  /** Where piece `i` starts when the pieces are laid end to end from `off`. */
  function Start(off: nat, pieces: seq<Buffer>, i: nat): nat
    requires i <= |pieces|
  {
    off + |Concat(pieces[..i])|
  }

  lemma StartStep(off: nat, pieces: seq<Buffer>, i: nat)
    requires i < |pieces|
    ensures Start(off, pieces, i + 1) == Start(off, pieces, i) + |pieces[i]|
  {
    assert pieces[..i + 1] == pieces[..i] + [pieces[i]];
    ConcatAppend(pieces[..i], [pieces[i]]);
    assert Concat([pieces[i]]) == pieces[i];
  }

  // Pieces laid end to end are each found at their start, and what follows them
  // right after.
  lemma {:induction false} PieceFound(data: Buffer, off: nat, pieces: seq<Buffer>, end: Buffer, i: nat)
    requires i <= |pieces| && Holds(data, off, Concat(pieces) + end)
    ensures i < |pieces| ==> Holds(data, Start(off, pieces, i), pieces[i])
    ensures i == |pieces| ==> Holds(data, Start(off, pieces, i), end)
    decreases i
  {
    if pieces == [] {
      assert Concat(pieces) + end == end;
    } else {
      var first, rest := pieces[0], pieces[1..];
      assert Concat(pieces) + end == first + (Concat(rest) + end);
      HoldsSplit(data, off, first, Concat(rest) + end);
      if i > 0 {
        PieceFound(data, off + |first|, rest, end, i - 1);
        assert pieces[..i][1..] == rest[..i - 1];
      }
    }
  }

  function Pieces(attrs: seq<Attr>): (pieces: seq<Buffer>)
    ensures |pieces| == |attrs|
  {
    seq(|attrs|, i requires 0 <= i < |attrs| => Encode(attrs[i]))
  }

  function EncodeAll(attrs: seq<Attr>): Buffer {
    Concat(Pieces(attrs))
  }

  lemma EncodeAllAppend(attrs: seq<Attr>, a: Attr)
    ensures EncodeAll(attrs + [a]) == EncodeAll(attrs) + Encode(a)
  {
    var piece := Encode(a);
    assert Pieces(attrs + [a]) == Pieces(attrs) + [piece];
    ConcatAppend(Pieces(attrs), [piece]);
    assert Concat([piece]) == piece;
  }

  /** Where each attribute starts, and last where the terminator does. */
  function Offsets(off: nat, attrs: seq<Attr>): (offs: seq<nat>)
    ensures |offs| == |attrs| + 1
  {
    seq(|attrs| + 1, i requires 0 <= i <= |attrs| => Start(off, Pieces(attrs), i))
  }

  /** A sound attribute lies at `off` and reads back as `a`. */
  predicate SpelledAt(data: Buffer, off: nat, a: Attr) {
    SoundAt(data, off) && ReadAt(data, off) == AsRead(a) && FlagsAt(data, off) == 0
  }

  /** The chain from `first` is terminated and spells `attrs`. */
  ghost predicate Spells(data: Buffer, first: nat, offs: seq<nat>, attrs: seq<Attr>) {
    && |offs| == |attrs| + 1
    && Chain(data, first, offs)
    && TerminatorAt(data, offs[|attrs|])
    && forall i :: 0 <= i < |attrs| ==> SpelledAt(data, offs[i], attrs[i])
  }

  lemma EncodedChainStep(data: Buffer, off: nat, attrs: seq<Attr>, i: nat)
    requires |data| < U16 && i < |attrs| && InRange(attrs[i])
    requires Holds(data, off, EncodeAll(attrs) + Le32(ALL_ONES))
    ensures var offs := Offsets(off, attrs);
            SpelledAt(data, offs[i], attrs[i]) && offs[i + 1] == offs[i] + LengthAt(data, offs[i])
  {
    var pieces := Pieces(attrs);
    PieceFound(data, off, pieces, Le32(ALL_ONES), i);
    EncodedReads(data, Start(off, pieces, i), attrs[i], pieces[i]);
    StartStep(off, pieces, i);
  }

  lemma EncodedChainReads(data: Buffer, off: nat, attrs: seq<Attr>)
    requires |data| < U16 && forall i :: 0 <= i < |attrs| ==> InRange(attrs[i])
    requires Holds(data, off, EncodeAll(attrs) + Le32(ALL_ONES))
    ensures Spells(data, off, Offsets(off, attrs), attrs)
  {
    var pieces, offs := Pieces(attrs), Offsets(off, attrs);
    forall i | 0 <= i < |attrs|
      ensures SpelledAt(data, offs[i], attrs[i]) && offs[i + 1] == offs[i] + LengthAt(data, offs[i])
    {
      EncodedChainStep(data, off, attrs, i);
    }
    PieceFound(data, off, pieces, Le32(ALL_ONES), |pieces|);
    Read32(data, offs[|attrs|], ALL_ONES);
    assert pieces[..0] == [];
  }
}
