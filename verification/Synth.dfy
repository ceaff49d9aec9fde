// The synthetic record builder of crates/mft-core/src/synth.rs: a FILE record
// laid out in place, closed by a terminator, and sealed by the update-sequence
// fixup.
module Synth {
  import opened Common
  import opened Bytes
  import opened PreScan
  import opened Attributes

  const RECORD_SIZE: nat := 1024
  const FIRST_ATTR_OFFSET: nat := 0x38
  const UPDATE_SEQ: Buffer := [0x01, 0x00]
  const JUNK: Buffer := [0x4A, 0x55, 0x4E, 0x4B]

  /** Room for attributes: the record, less its header and the terminator. */
  const CAPACITY: nat := 964

  // ------------------------------------------------------------------- fixups

  /** Save the sector tails into the update-sequence array, stamp the tails. */
  function Fixed(s: Buffer): (r: Buffer)
    requires |s| == 1024
    ensures |r| == 1024
  {
    var saved := Splice(s, 0x30, UPDATE_SEQ + s[510..512] + s[1022..1024]);
    Splice(Splice(saved, 510, UPDATE_SEQ), 1022, UPDATE_SEQ)
  }

  /** The deliberate damage of `break_fixup`. */
  function Damaged(s: Buffer): (r: Buffer)
    requires |s| == 1024
    ensures |r| == 1024
  {
    s[1023 := 0xEE]
  }

  /** Put the saved tails back: what a reader does before parsing. */
  function Undone(s: Buffer): (r: Buffer)
    requires |s| == 1024
    ensures |r| == 1024
  {
    Splice(Splice(s, 510, s[0x32..0x34]), 1022, s[0x34..0x36])
  }

  /** Both tails carry the update-sequence value: the reader's validity check. */
  predicate FixupsMatch(s: Buffer)
    requires |s| == 1024
  {
    s[510..512] == s[0x30..0x32] && s[1022..1024] == s[0x30..0x32]
  }

  /** The bytes a reader parses; only FILE records carry fixups. */
  function Unfixed(raw: Buffer): (r: Buffer)
    requires |raw| == 1024
    ensures |r| == 1024
  {
    if raw[..4] == FILE then Undone(raw) else raw
  }

  // The check compares both tails with the update-sequence value, byte by byte.
  lemma TailsChecked(s: Buffer)
    requires |s| == 1024
    ensures FixupsMatch(s)
            <==> s[510] == s[0x30] && s[511] == s[0x31] && s[1022] == s[0x30] && s[1023] == s[0x31]
  {
    var stamp, first, second := s[0x30..0x32], s[510..512], s[1022..1024];
    assert stamp == [s[0x30], s[0x31]] && first == [s[510], s[511]] && second == [s[1022], s[1023]];
  }

  // Undoing the fixups restores every byte outside the update-sequence array,
  // damaged or not, and only damage makes the check fail.
  lemma UndoRestores(s: Buffer, damaged: bool)
    requires |s| == 1024
    ensures var sealed := if damaged then Damaged(Fixed(s)) else Fixed(s);
            && (forall i :: 0 <= i < 1024 && !(0x30 <= i < 0x36) ==> Undone(sealed)[i] == s[i])
            && (forall i :: 0 <= i < 0x30 ==> sealed[i] == s[i])
            && (FixupsMatch(sealed) <==> !damaged)
  {
    FixedAt(s);
    var sealed := if damaged then Damaged(Fixed(s)) else Fixed(s);
    UndoneAt(sealed);
    var stamp, second := sealed[0x30..0x32], sealed[1022..1024];
    assert stamp == UPDATE_SEQ && sealed[510..512] == UPDATE_SEQ;
    assert second[0] == 0x01 && second[1] == if damaged then 0xEE else 0x00;
  }

  lemma FixedAt(s: Buffer)
    requires |s| == 1024
    ensures forall i :: 0 <= i < 1024 && !(0x30 <= i < 0x36) && !(510 <= i < 512) && i < 1022 ==> Fixed(s)[i] == s[i]
    ensures var r := Fixed(s);
            && r[0x30] == r[510] == r[1022] == 0x01 && r[0x31] == r[511] == r[1023] == 0x00
            && r[0x32] == s[510] && r[0x33] == s[511] && r[0x34] == s[1022] && r[0x35] == s[1023]
  {
    var usa := UPDATE_SEQ + s[510..512] + s[1022..1024];
    var saved := Splice(s, 0x30, usa);
    SpliceAt(s, 0x30, usa);
    SpliceAt(saved, 510, UPDATE_SEQ);
    SpliceAt(Splice(saved, 510, UPDATE_SEQ), 1022, UPDATE_SEQ);
  }

  lemma UndoneAt(s: Buffer)
    requires |s| == 1024
    ensures forall i :: 0 <= i < 1022 && !(510 <= i < 512) ==> Undone(s)[i] == s[i]
    ensures var r := Undone(s);
            r[510] == s[0x32] && r[511] == s[0x33] && r[1022] == s[0x34] && r[1023] == s[0x35]
  {
    SpliceAt(s, 510, s[0x32..0x34]);
    SpliceAt(Splice(s, 510, s[0x32..0x34]), 1022, s[0x34..0x36]);
  }

  // ------------------------------------------------------------------- layout

  datatype Fields = Fields(
    signature: Buffer, lsn: nat, sequence: nat, hardLinkCount: nat, flags: nat, baseRef: nat, nextInstance: nat)

  /** Every header field holds its value; the record says how much it uses. */
  predicate HasHeader(s: Buffer, f: Fields, used: nat) {
    LowHeader(s, f) && HighHeader(s, f, used)
  }

  predicate LowHeader(s: Buffer, f: Fields) {
    && Holds(s, 0x00, f.signature) && Holds(s, 0x04, Le16(0x30)) && Holds(s, 0x06, Le16(3))
    && Holds(s, 0x08, Le64(f.lsn)) && Holds(s, 0x10, Le16(f.sequence)) && Holds(s, 0x12, Le16(f.hardLinkCount))
  }

  predicate HighHeader(s: Buffer, f: Fields, used: nat) {
    && Holds(s, 0x14, Le16(FIRST_ATTR_OFFSET)) && Holds(s, 0x16, Le16(f.flags))
    && Holds(s, 0x18, Le32(used)) && Holds(s, 0x1C, Le32(RECORD_SIZE))
    && Holds(s, 0x20, Le64(f.baseRef)) && Holds(s, 0x28, Le16(f.nextInstance))
  }

  /** The attributes and terminator from 0x38 on, then nothing. */
  predicate HasBody(s: Buffer, attrs: Buffer) {
    && Holds(s, 0x38, attrs + Le32(ALL_ONES))
    && forall i :: 0x38 + |attrs| + 4 <= i < |s| ==> s[i] == 0
  }

  function LowBytes(f: Fields): (r: Buffer)
    ensures |r| == |f.signature| + 16
  {
    f.signature + Le16(0x30) + Le16(3) + Le64(f.lsn) + Le16(f.sequence) + Le16(f.hardLinkCount)
  }

  function HighBytes(f: Fields, used: nat): (r: Buffer)
    ensures |r| == 22
  {
    Le16(FIRST_ATTR_OFFSET) + Le16(f.flags) + Le32(used) + Le32(RECORD_SIZE) + Le64(f.baseRef) + Le16(f.nextInstance)
  }

  /** Every byte of the record before its fixups. */
  function LaidOut(f: Fields, attrs: Buffer): (r: Buffer)
    requires |attrs| <= CAPACITY && |f.signature| == 4
    ensures |r| == 1024
  {
    LowBytes(f) + HighBytes(f, 0x38 + |attrs| + 4) + ZeroBytes(14) + (attrs + Le32(ALL_ONES))
    + ZeroBytes(CAPACITY - |attrs|)
  }

  lemma LowHeaderExactly(s: Buffer, f: Fields)
    requires |f.signature| == 4
    ensures LowHeader(s, f) <==> Holds(s, 0, LowBytes(f))
  {
    var h1 := f.signature + Le16(0x30);
    var h2 := h1 + Le16(3);
    var h3 := h2 + Le64(f.lsn);
    var h4 := h3 + Le16(f.sequence);
    if LowHeader(s, f) {
      HoldsJoin(s, 0, f.signature, Le16(0x30));
      HoldsJoin(s, 0, h1, Le16(3));
      HoldsJoin(s, 0, h2, Le64(f.lsn));
      HoldsJoin(s, 0, h3, Le16(f.sequence));
      HoldsJoin(s, 0, h4, Le16(f.hardLinkCount));
    }
    if Holds(s, 0, LowBytes(f)) {
      HoldsSplit(s, 0, h4, Le16(f.hardLinkCount));
      HoldsSplit(s, 0, h3, Le16(f.sequence));
      HoldsSplit(s, 0, h2, Le64(f.lsn));
      HoldsSplit(s, 0, h1, Le16(3));
      HoldsSplit(s, 0, f.signature, Le16(0x30));
    }
  }

  lemma HighHeaderExactly(s: Buffer, f: Fields, used: nat)
    ensures HighHeader(s, f, used) <==> Holds(s, 0x14, HighBytes(f, used))
  {
    var h1 := Le16(FIRST_ATTR_OFFSET) + Le16(f.flags);
    var h2 := h1 + Le32(used);
    var h3 := h2 + Le32(RECORD_SIZE);
    var h4 := h3 + Le64(f.baseRef);
    if HighHeader(s, f, used) {
      HoldsJoin(s, 0x14, Le16(FIRST_ATTR_OFFSET), Le16(f.flags));
      HoldsJoin(s, 0x14, h1, Le32(used));
      HoldsJoin(s, 0x14, h2, Le32(RECORD_SIZE));
      HoldsJoin(s, 0x14, h3, Le64(f.baseRef));
      HoldsJoin(s, 0x14, h4, Le16(f.nextInstance));
    }
    if Holds(s, 0x14, HighBytes(f, used)) {
      HoldsSplit(s, 0x14, h4, Le16(f.nextInstance));
      HoldsSplit(s, 0x14, h3, Le64(f.baseRef));
      HoldsSplit(s, 0x14, h2, Le32(RECORD_SIZE));
      HoldsSplit(s, 0x14, h1, Le32(used));
      HoldsSplit(s, 0x14, Le16(FIRST_ATTR_OFFSET), Le16(f.flags));
    }
  }

  lemma ZerosHold(s: Buffer, off: nat, n: nat)
    requires off + n <= |s|
    ensures Holds(s, off, ZeroBytes(n)) <==> forall i :: off <= i < off + n ==> s[i] == 0
  {
    if Holds(s, off, ZeroBytes(n)) {
      assert forall i :: off <= i < off + n ==> s[i] == s[off..off + n][i - off];
    }
  }

  // The layout is the one record with these fields, this body and nothing else.
  lemma LaidOutExactly(s: Buffer, f: Fields, attrs: Buffer)
    requires |s| == 1024 && |f.signature| == 4 && |attrs| <= CAPACITY
    ensures s == LaidOut(f, attrs)
            <==> && HasHeader(s, f, 0x38 + |attrs| + 4) && HasBody(s, attrs)
                 && forall i :: 0x2A <= i < 0x38 ==> s[i] == 0
  {
    var used, body := 0x38 + |attrs| + 4, attrs + Le32(ALL_ONES);
    var h1 := LowBytes(f) + HighBytes(f, used);
    var h2 := h1 + ZeroBytes(14);
    var h3 := h2 + body;
    LowHeaderExactly(s, f);
    HighHeaderExactly(s, f, used);
    ZerosHold(s, 0x2A, 14);
    ZerosHold(s, used, CAPACITY - |attrs|);
    if Holds(s, 0, LaidOut(f, attrs)) {
      HoldsSplit(s, 0, h3, ZeroBytes(CAPACITY - |attrs|));
      HoldsSplit(s, 0, h2, body);
      HoldsSplit(s, 0, h1, ZeroBytes(14));
      HoldsSplit(s, 0, LowBytes(f), HighBytes(f, used));
    }
    if HasHeader(s, f, used) && HasBody(s, attrs) && Holds(s, 0x2A, ZeroBytes(14)) {
      HoldsJoin(s, 0, LowBytes(f), HighBytes(f, used));
      HoldsJoin(s, 0, h1, ZeroBytes(14));
      HoldsJoin(s, 0, h2, body);
      HoldsJoin(s, 0, h3, ZeroBytes(CAPACITY - |attrs|));
    }
    WholeHolds(s);
  }

  method CopyInto(buf: array<byte>, off: nat, part: Buffer)
    requires off + |part| <= buf.Length
    modifies buf
    ensures buf[off..off + |part|] == part
    ensures forall i :: 0 <= i < buf.Length && !(off <= i < off + |part|) ==> buf[i] == old(buf[i])
    ensures forall lo, hi :: 0 <= lo <= hi <= buf.Length && (hi <= off || off + |part| <= lo) ==>
              buf[lo..hi] == old(buf[lo..hi])
    ensures buf[..] == Splice(old(buf[..]), off, part)
  {
    forall i | 0 <= i < |part| {
      buf[off + i] := part[i];
    }
    SpliceAt(old(buf[..]), off, part);
  }

  lemma SplicesJoin(s: Buffer, off: nat, a: Buffer, b: Buffer, c: Buffer)
    requires off + |a| + |b| + |c| <= |s|
    ensures Splice(Splice(Splice(s, off, a), off + |a|, b), off + |a| + |b|, c) == Splice(s, off, a + b + c)
  {
    SpliceAt(s, off, a);
    SpliceAt(Splice(s, off, a), off + |a|, b);
    SpliceAt(Splice(Splice(s, off, a), off + |a|, b), off + |a| + |b|, c);
    SpliceAt(s, off, a + b + c);
  }

  // The header fields, in place.
  method WriteHeader(buf: array<byte>, f: Fields, used: nat)
    requires buf.Length == 1024 && |f.signature| == 4
    modifies buf
    ensures HasHeader(buf[..], f, used)
    ensures forall i :: 0x2A <= i < 1024 ==> buf[i] == old(buf[i])
  {
    WriteLowHeader(buf, f);
    ghost var low := buf[..];
    WriteHighHeader(buf, f, used);
    LowHeaderSurvives(low, buf[..], f);
  }

  method WriteLowHeader(buf: array<byte>, f: Fields)
    requires buf.Length == 1024 && |f.signature| == 4
    modifies buf
    ensures LowHeader(buf[..], f)
    ensures forall i :: 0x14 <= i < 1024 ==> buf[i] == old(buf[i])
  {
    CopyInto(buf, 0x00, f.signature);
    CopyInto(buf, 0x04, Le16(0x30));
    CopyInto(buf, 0x06, Le16(3));
    CopyInto(buf, 0x08, Le64(f.lsn));
    CopyInto(buf, 0x10, Le16(f.sequence));
    CopyInto(buf, 0x12, Le16(f.hardLinkCount));
    assert forall lo, hi :: 0 <= lo <= hi <= 1024 ==> buf[..][lo..hi] == buf[lo..hi];
  }

  method WriteHighHeader(buf: array<byte>, f: Fields, used: nat)
    requires buf.Length == 1024
    modifies buf
    ensures HighHeader(buf[..], f, used)
    ensures forall i :: 0 <= i < 1024 && !(0x14 <= i < 0x2A) ==> buf[i] == old(buf[i])
  {
    CopyInto(buf, 0x14, Le16(FIRST_ATTR_OFFSET));
    CopyInto(buf, 0x16, Le16(f.flags));
    CopyInto(buf, 0x18, Le32(used));
    CopyInto(buf, 0x1C, Le32(RECORD_SIZE));
    CopyInto(buf, 0x20, Le64(f.baseRef));
    CopyInto(buf, 0x28, Le16(f.nextInstance));
    assert forall lo, hi :: 0 <= lo <= hi <= 1024 ==> buf[..][lo..hi] == buf[lo..hi];
  }

  lemma LowHeaderSurvives(s: Buffer, t: Buffer, f: Fields)
    requires |s| == |t| == 1024 && |f.signature| == 4 && LowHeader(s, f)
    requires forall i :: 0 <= i < 0x14 ==> t[i] == s[i]
    ensures LowHeader(t, f)
  {
    assert forall lo, hi :: 0 <= lo <= hi <= 0x14 ==> t[lo..hi] == s[lo..hi];
  }

  // The attributes and the terminator, in place.
  method WriteBody(buf: array<byte>, attrs: Buffer)
    requires buf.Length == 1024 && |attrs| <= CAPACITY
    requires forall i :: 0x38 <= i < 1024 ==> buf[i] == 0
    modifies buf
    ensures HasBody(buf[..], attrs)
    ensures forall i :: 0 <= i < 0x38 ==> buf[i] == old(buf[i])
  {
    var end := 0x38 + |attrs|;
    CopyInto(buf, 0x38, attrs);
    CopyInto(buf, end, Le32(ALL_ONES));
    assert buf[0x38..end + 4] == buf[0x38..end] + buf[end..end + 4];
  }

  // The record before its fixups.
  method LayOut(f: Fields, attrs: Buffer) returns (buf: array<byte>)
    requires |attrs| <= CAPACITY && |f.signature| == 4
    ensures fresh(buf) && buf.Length == 1024
    ensures buf[..] == LaidOut(f, attrs)
  {
    buf := new byte[1024](_ => 0);
    WriteHeader(buf, f, 0x38 + |attrs| + 4);
    ghost var header := buf[..];
    WriteBody(buf, attrs);
    HeaderSurvives(header, buf[..], f, 0x38 + |attrs| + 4);
    LaidOutExactly(buf[..], f, attrs);
  }

  // The fixup, in place: tails saved, then stamped, then perhaps damaged.
  method ApplyFixup(buf: array<byte>, damage: bool)
    requires buf.Length == 1024
    modifies buf
    ensures buf[..] == if damage then Damaged(Fixed(old(buf[..]))) else Fixed(old(buf[..]))
    ensures buf[0x30] == buf[510] == buf[1022] == 1 && buf[0x31] == buf[511] == 0
    ensures buf[1023] == if damage then 0xEE else 0
    ensures buf[0x32] == old(buf[510]) && buf[0x33] == old(buf[511])
    ensures buf[0x34] == old(buf[1022]) && buf[0x35] == old(buf[1023])
    ensures forall i :: 0 <= i < 1022 && !(0x30 <= i < 0x36) && !(510 <= i < 512) ==> buf[i] == old(buf[i])
  {
    ghost var plain := buf[..];
    var tail1, tail2 := buf[510..512], buf[1022..1024];
    CopyInto(buf, 0x30, UPDATE_SEQ);
    CopyInto(buf, 0x32, tail1);
    CopyInto(buf, 0x34, tail2);
    SplicesJoin(plain, 0x30, UPDATE_SEQ, tail1, tail2);
    CopyInto(buf, 510, UPDATE_SEQ);
    CopyInto(buf, 1022, UPDATE_SEQ);
    if damage {
      buf[1023] := 0xEE;
    }
    SealBytes(plain, buf[..], damage);
  }

  lemma SealBytes(s: Buffer, sealed: Buffer, damage: bool)
    requires |s| == 1024 && sealed == if damage then Damaged(Fixed(s)) else Fixed(s)
    ensures sealed[0x30] == sealed[510] == sealed[1022] == 1 && sealed[0x31] == sealed[511] == 0
    ensures sealed[1023] == if damage then 0xEE else 0
    ensures sealed[0x32] == s[510] && sealed[0x33] == s[511] && sealed[0x34] == s[1022] && sealed[0x35] == s[1023]
    ensures forall i :: 0 <= i < 1022 && !(0x30 <= i < 0x36) && !(510 <= i < 512) ==> sealed[i] == s[i]
  {
    FixedAt(s);
  }

  // Bytes outside the update-sequence array carry the layout.
  lemma LayoutSurvives(s: Buffer, t: Buffer, f: Fields, used: nat, attrs: Buffer)
    requires |s| == |t| == 1024 && |attrs| <= CAPACITY && |f.signature| == 4
    requires forall i :: 0 <= i < 1024 && !(0x30 <= i < 0x36) ==> t[i] == s[i]
    requires HasHeader(s, f, used) && HasBody(s, attrs)
    ensures HasHeader(t, f, used) && HasBody(t, attrs)
  {
    HeaderSurvives(s, t, f, used);
    var end := 0x38 + |attrs| + 4;
    assert t[0x38..end] == s[0x38..end];
  }

  // ------------------------------------------------- attribute contents

  datatype Times = Times(created: nat, modified: nat, mftModified: nat, accessed: nat)

  function TimesBytes(t: Times): (r: Buffer)
    ensures |r| == 32
  {
    Le64(t.created) + Le64(t.modified) + Le64(t.mftModified) + Le64(t.accessed)
  }

  function StandardInfoContent(t: Times, dosFlags: nat, usn: nat): (r: Buffer)
    ensures |r| == 72
  {
    TimesBytes(t) + Le32(dosFlags) + Le32(0) + Le32(0) + Le32(0) + Le32(0) + Le32(0) + Le64(0) + Le64(usn)
  }

  /** A parent reference: 48 bits of entry number under 16 bits of sequence. */
  function ParentReference(entry: nat, sequence: nat): nat {
    entry % 0x1_0000_0000_0000 + sequence * 0x1_0000_0000_0000
  }

  function FileNameContent(parentEntry: nat, parentSeq: nat, t: Times, logical: nat, physical: nat, flags: nat,
                           namespace: byte, name: seq<nat>): Buffer {
    Le64(ParentReference(parentEntry, parentSeq)) + TimesBytes(t) + Le64(logical) + Le64(physical) + Le32(flags)
    + Le32(0) + [|name| % 256, namespace] + Utf16Le(name)
  }

  /** The name a reader finds in the content: as long as byte 64 says. */
  function CountedName(c: Buffer): Option<seq<nat>> {
    if |c| < 66 then None
    else
      var size: nat := c[64];
      if |c| < 66 + 2 * size then None else Some(UnitsAt(c, 66, size))
  }

  /** The units of a name that an eight-bit count admits. */
  function CutName(name: seq<nat>): seq<nat> {
    name[..|name| % 256]
  }

  // Times read back in the order created, modified, record-modified, accessed.
  predicate TimesAt(data: Buffer, off: nat, t: Times) {
    && off + 32 <= |data|
    && U64At(data, off) == t.created && U64At(data, off + 8) == t.modified
    && U64At(data, off + 16) == t.mftModified && U64At(data, off + 24) == t.accessed
  }

  predicate TimesInRange(t: Times) {
    t.created < U64 && t.modified < U64 && t.mftModified < U64 && t.accessed < U64
  }

  lemma TimesRead(data: Buffer, off: nat, t: Times)
    requires Holds(data, off, TimesBytes(t)) && TimesInRange(t)
    ensures TimesAt(data, off, t)
  {
    var h2 := Le64(t.created) + Le64(t.modified);
    HoldsSplit(data, off, h2 + Le64(t.mftModified), Le64(t.accessed));
    HoldsSplit(data, off, h2, Le64(t.mftModified));
    HoldsSplit(data, off, Le64(t.created), Le64(t.modified));
    Read64(data, off, t.created);
    Read64(data, off + 8, t.modified);
    Read64(data, off + 16, t.mftModified);
    Read64(data, off + 24, t.accessed);
  }

  // The content of a standard-information attribute reads back field by field.
  lemma StandardInfoReads(t: Times, dosFlags: nat, usn: nat)
    requires TimesInRange(t) && dosFlags < U32 && usn < U64
    ensures var c := StandardInfoContent(t, dosFlags, usn);
            && U64At(c, 0) == t.created && U64At(c, 8) == t.modified
            && U64At(c, 16) == t.mftModified && U64At(c, 24) == t.accessed
            && U32At(c, 32) == dosFlags && U64At(c, 64) == usn && TimesAt(c, 0, t)
  {
    var c, h1 := StandardInfoContent(t, dosFlags, usn), TimesBytes(t) + Le32(dosFlags);
    var zeros := Le32(0) + Le32(0) + Le32(0) + Le32(0) + Le32(0) + Le64(0);
    assert c == h1 + zeros + Le64(usn);
    WholeHolds(c);
    HoldsSplit(c, 0, h1 + zeros, Le64(usn));
    HoldsSplit(c, 0, h1, zeros);
    HoldsSplit(c, 0, TimesBytes(t), Le32(dosFlags));
    TimesRead(c, 0, t);
    Read32(c, 32, dosFlags);
    Read64(c, 64, usn);
  }

  // The content of a file-name attribute reads back field by field: the parent
  // reference, the times, the sizes, the flags, the namespace and as much of the
  // name as the one-byte count admits, which is all of it below 256 units.
  lemma FileNameReads(parentEntry: nat, parentSeq: nat, t: Times, logical: nat, physical: nat, flags: nat,
                      namespace: byte, name: seq<nat>)
    requires TimesInRange(t) && parentSeq < U16 && logical < U64 && physical < U64 && flags < U32
    requires forall i :: 0 <= i < |name| ==> name[i] < U16
    ensures var c := FileNameContent(parentEntry, parentSeq, t, logical, physical, flags, namespace, name);
            && |c| == 66 + 2 * |name|
            && U64At(c, 0) == ParentReference(parentEntry, parentSeq) && TimesAt(c, 8, t)
            && U64At(c, 8) == t.created && U64At(c, 16) == t.modified
            && U64At(c, 24) == t.mftModified && U64At(c, 32) == t.accessed
            && U64At(c, 40) == logical && U64At(c, 48) == physical && U32At(c, 56) == flags
            && c[64] == |name| % 256 && c[65] == namespace
            && CountedName(c) == Some(CutName(name)) && (CountedName(c) == Some(name) <==> |name| < 256)
  {
    var c := FileNameContent(parentEntry, parentSeq, t, logical, physical, flags, namespace, name);
    var h1 := Le64(ParentReference(parentEntry, parentSeq));
    var h2 := h1 + TimesBytes(t);
    var h3 := h2 + Le64(logical);
    var h4 := h3 + Le64(physical);
    var h5 := h4 + Le32(flags);
    var size: Buffer := [|name| % 256, namespace];
    WholeHolds(c);
    HoldsSplit(c, 0, h5 + Le32(0) + size, Utf16Le(name));
    HoldsSplit(c, 0, h5 + Le32(0), size);
    HoldsSplit(c, 0, h5, Le32(0));
    HoldsSplit(c, 0, h4, Le32(flags));
    HoldsSplit(c, 0, h3, Le64(physical));
    HoldsSplit(c, 0, h2, Le64(logical));
    HoldsSplit(c, 0, h1, TimesBytes(t));
    ParentReferenceReads(parentEntry, parentSeq);
    FileNameNumbers(c, ParentReference(parentEntry, parentSeq), t, logical, physical, flags);
    PairAt(c, 64, size);
    CountedNameReads(c, name);
    CountedNameIsWhole(c, name);
  }

  lemma ByteCount(n: nat)
    ensures n % 256 <= n && (n % 256 == n <==> n < 256)
  {
  }

  lemma CountedNameReads(c: Buffer, name: seq<nat>)
    requires |c| == 66 + 2 * |name| && c[64] == |name| % 256 && Holds(c, 66, Utf16Le(name))
    requires forall i :: 0 <= i < |name| ==> name[i] < U16
    ensures CountedName(c) == Some(CutName(name))
  {
    ByteCount(|name|);
    UnitsRead(c, 66, name, |name| % 256);
  }

  lemma ShortNameUncut(name: seq<nat>)
    requires |name| < 256
    ensures CutName(name) == name
  {
    ByteCount(|name|);
  }

  // A name is read back whole exactly when it has fewer than 256 units.
  lemma CountedNameIsWhole(c: Buffer, name: seq<nat>)
    requires CountedName(c) == Some(CutName(name))
    ensures CountedName(c) == Some(name) <==> |name| < 256
  {
    var kept := CutName(name);
    ByteCount(|name|);
    if |name| < 256 {
      assert kept == name;
    } else {
      assert |kept| != |name|;
    }
  }

  lemma FileNameNumbers(c: Buffer, reference: nat, t: Times, logical: nat, physical: nat, flags: nat)
    requires reference < U64 && TimesInRange(t) && logical < U64 && physical < U64 && flags < U32
    requires Holds(c, 0, Le64(reference)) && Holds(c, 8, TimesBytes(t)) && Holds(c, 40, Le64(logical))
    requires Holds(c, 48, Le64(physical)) && Holds(c, 56, Le32(flags))
    ensures U64At(c, 0) == reference && TimesAt(c, 8, t)
    ensures U64At(c, 40) == logical && U64At(c, 48) == physical && U32At(c, 56) == flags
  {
    Read64(c, 0, reference);
    TimesRead(c, 8, t);
    Read64(c, 40, logical);
    Read64(c, 48, physical);
    Read32(c, 56, flags);
  }

  lemma PairAt(c: Buffer, off: nat, pair: Buffer)
    requires |pair| == 2 && Holds(c, off, pair)
    ensures c[off] == pair[0] && c[off + 1] == pair[1]
  {
    assert c[off] == c[off..off + 2][0] && c[off + 1] == c[off..off + 2][1];
  }

  // The reference splits back into the entry's low 48 bits and the sequence.
  lemma ParentReferenceReads(entry: nat, sequence: nat)
    requires sequence < U16
    ensures ParentReference(entry, sequence) < U64
    ensures ParentReference(entry, sequence) % 0x1_0000_0000_0000 == entry % 0x1_0000_0000_0000
    ensures ParentReference(entry, sequence) / 0x1_0000_0000_0000 == sequence
  {
    ModIs(ParentReference(entry, sequence), sequence, entry % 0x1_0000_0000_0000, 0x1_0000_0000_0000);
  }

  // --------------------------------------------------------- the record builder

  /** What a finished record is, whatever fixups or damage it carries. */
  ghost predicate IsRecord(raw: Buffer, f: Fields, added: seq<Attr>, damaged: bool) {
    && |raw| == 1024 && raw[..4] == f.signature
    && (f.signature == FILE ==> (FixupsMatch(raw) <==> !damaged))
    && HasHeader(Unfixed(raw), f, 0x38 + |EncodeAll(added)| + 4)
    && HasBody(Unfixed(raw), EncodeAll(added))
    && Spells(Unfixed(raw), FIRST_ATTR_OFFSET, Offsets(FIRST_ATTR_OFFSET, added), added)
    && Scan(Unfixed(raw), FIRST_ATTR_OFFSET, MAX_ATTRS) == Accept
  }

  lemma BodyScans(data: Buffer, added: seq<Attr>)
    requires |data| == 1024 && |EncodeAll(added)| <= CAPACITY
    requires forall i :: 0 <= i < |added| ==> InRange(added[i])
    requires HasBody(data, EncodeAll(added))
    ensures Spells(data, FIRST_ATTR_OFFSET, Offsets(FIRST_ATTR_OFFSET, added), added)
    ensures |added| <= 40
    ensures Scan(data, FIRST_ATTR_OFFSET, MAX_ATTRS) == Accept
  {
    EncodedChainReads(data, FIRST_ATTR_OFFSET, added);
    FewAttributes(added);
    ScanFollows(data, FIRST_ATTR_OFFSET, Offsets(FIRST_ATTR_OFFSET, added), MAX_ATTRS);
  }

  lemma {:induction false} FewAttributes(added: seq<Attr>)
    ensures 24 * |added| <= |EncodeAll(added)|
  {
    if added != [] {
      var last := |added| - 1;
      FewAttributes(added[..last]);
      EncodeAllAppend(added[..last], added[last]);
      assert added[..last] + [added[last]] == added;
    }
  }

  /** Bit 0: in use; bit 1: a directory. */
  function FlagBits(isAllocated: bool, isDirectory: bool): (flags: nat)
    ensures flags < 4 && (isAllocated <==> flags % 2 == 1) && (isDirectory <==> flags / 2 == 1)
  {
    (if isAllocated then 1 else 0) + if isDirectory then 2 else 0
  }

  class RecordBuilder {
    const entry: nat
    const sequence: nat
    var hardLinkCount: nat
    var isAllocated: bool
    var isDirectory: bool
    var baseRef: nat
    var lsn: nat
    var nextInstance: nat
    var attrs: Buffer
    var overrideSignature: Option<Buffer>
    var breakFixup: bool
    ghost var added: seq<Attr>

    ghost predicate Valid()
      reads this
    {
      && attrs == EncodeAll(added) && nextInstance == |added| < U16
      && (forall i :: 0 <= i < |added| ==> InRange(added[i]) && added[i].instance == i)
      && overrideSignature in {None, Some(BAAD), Some(JUNK)}
    }

    function Signature(): Buffer
      reads this
    {
      if overrideSignature.Some? then overrideSignature.value else FILE
    }

    function HeaderFields(): Fields
      reads this
    {
      Fields(Signature(), lsn, sequence, hardLinkCount,
             FlagBits(isAllocated, isDirectory), baseRef, nextInstance)
    }

    constructor (entry: nat, sequence: nat)
      ensures Valid() && added == [] && this.entry == entry && this.sequence == sequence
      ensures HeaderFields() == Fields(FILE, 0, sequence, 1, 1, 0, 0) && !breakFixup
    {
      this.entry, this.sequence := entry, sequence;
      hardLinkCount, isAllocated, isDirectory := 1, true, false;
      baseRef, lsn, nextInstance := 0, 0, 0;
      attrs, overrideSignature, breakFixup := [], None, false;
      added := [];
    }

    method Allocated(yes: bool)
      requires Valid()
      modifies this`isAllocated
      ensures Valid() && HeaderFields() == old(HeaderFields()).(flags := FlagBits(yes, isDirectory))
    {
      isAllocated := yes;
    }

    method Directory(yes: bool)
      requires Valid()
      modifies this`isDirectory
      ensures Valid() && HeaderFields() == old(HeaderFields()).(flags := FlagBits(isAllocated, yes))
    {
      isDirectory := yes;
    }

    method HardLinks(n: nat)
      requires Valid()
      modifies this`hardLinkCount
      ensures Valid() && HeaderFields() == old(HeaderFields()).(hardLinkCount := n)
    {
      hardLinkCount := n;
    }

    method Lsn(n: nat)
      requires Valid()
      modifies this`lsn
      ensures Valid() && HeaderFields() == old(HeaderFields()).(lsn := n)
    {
      lsn := n;
    }

    method BreakFixup()
      requires Valid()
      modifies this`breakFixup
      ensures Valid() && breakFixup
    {
      breakFixup := true;
    }

    method Baad()
      requires Valid()
      modifies this`overrideSignature
      ensures Valid() && HeaderFields() == old(HeaderFields()).(signature := [0x42, 0x41, 0x41, 0x44])
    {
      overrideSignature := Some(BAAD);
    }

    method BadSignature()
      requires Valid()
      modifies this`overrideSignature
      ensures Valid() && HeaderFields() == old(HeaderFields()).(signature := [0x4A, 0x55, 0x4E, 0x4B])
    {
      overrideSignature := Some(JUNK);
    }

    // Append one encoded attribute under the next instance number.
    method Extend(a: Attr, bytes: Buffer)
      requires Valid() && nextInstance + 1 < U16
      requires InRange(a) && a.instance == nextInstance && bytes == Encode(a)
      modifies this`attrs, this`nextInstance, this`added
      ensures Valid() && added == old(added) + [a]
    {
      EncodeAllAppend(added, a);
      attrs := attrs + bytes;
      nextInstance := nextInstance + 1;
      added := added + [a];
    }

    method StandardInfo(t: Times, dosFlags: nat, usn: nat)
      requires Valid() && nextInstance + 1 < U16
      modifies this`attrs, this`nextInstance, this`added
      ensures Valid()
      ensures added == old(added) + [Attr(0x10, old(nextInstance), None, Inline(StandardInfoContent(t, dosFlags, usn)))]
    {
      var content := StandardInfoContent(t, dosFlags, usn);
      var bytes := ResidentAttr(0x10, nextInstance, None, content);
      Extend(Attr(0x10, nextInstance, None, Inline(content)), bytes);
    }

    method FileName(parentEntry: nat, parentSeq: nat, t: Times, logical: nat, physical: nat, flags: nat,
                    namespace: byte, name: seq<nat>)
      requires Valid() && nextInstance + 1 < U16
      modifies this`attrs, this`nextInstance, this`added
      ensures Valid()
      ensures added == old(added) + [Attr(0x30, old(nextInstance), None, Inline(
                FileNameContent(parentEntry, parentSeq, t, logical, physical, flags, namespace, name)))]
    {
      var content := FileNameContent(parentEntry, parentSeq, t, logical, physical, flags, namespace, name);
      var bytes := ResidentAttr(0x30, nextInstance, None, content);
      Extend(Attr(0x30, nextInstance, None, Inline(content)), bytes);
    }

    method DataResident(content: Buffer)
      requires Valid() && nextInstance + 1 < U16
      modifies this`attrs, this`nextInstance, this`added
      ensures Valid()
      ensures added == old(added) + [Attr(0x80, old(nextInstance), None, Inline(content))]
    {
      var bytes := ResidentAttr(0x80, nextInstance, None, content);
      Extend(Attr(0x80, nextInstance, None, Inline(content)), bytes);
    }

    method DataNonResident(logical: nat, physical: nat)
      requires Valid() && nextInstance + 1 < U16 && logical < U64 && physical < U64
      modifies this`attrs, this`nextInstance, this`added
      ensures Valid()
      ensures added == old(added) + [Attr(0x80, old(nextInstance), None, Sizes(logical, physical))]
    {
      var bytes := NonResidentAttr(0x80, nextInstance, None, logical, physical);
      Extend(Attr(0x80, nextInstance, None, Sizes(logical, physical)), bytes);
    }

    method AdsResident(name: seq<nat>, content: Buffer)
      requires Valid() && nextInstance + 1 < U16
      requires forall i :: 0 <= i < |name| ==> name[i] < U16
      modifies this`attrs, this`nextInstance, this`added
      ensures Valid()
      ensures added == old(added) + [Attr(0x80, old(nextInstance), Some(name), Inline(content))]
    {
      var bytes := ResidentAttr(0x80, nextInstance, Some(name), content);
      Extend(Attr(0x80, nextInstance, Some(name), Inline(content)), bytes);
    }

    // Serialize to 1024 bytes. A record that does not fit is a panic in the
    // source. Read back, the bytes hold every header field, and the scan steps
    // through exactly the added attributes, in order.
    method Build() returns (buf: array<byte>)
      requires Valid() && |attrs| <= CAPACITY
      ensures fresh(buf) && buf[..] == Stored(LaidOut(HeaderFields(), attrs), Signature(), breakFixup)
      ensures IsRecord(buf[..], HeaderFields(), added, breakFixup)
    {
      buf := LayOut(HeaderFields(), attrs);
      Seal(buf, Signature(), breakFixup);
      StoredIsRecord(HeaderFields(), added, breakFixup);
    }
  }

  // Only FILE records are sealed.
  method Seal(buf: array<byte>, signature: Buffer, damage: bool)
    requires buf.Length == 1024
    modifies buf
    ensures buf[..] == Stored(old(buf[..]), signature, damage)
  {
    if signature == FILE {
      ApplyFixup(buf, damage);
    }
  }

  lemma HeaderSurvives(s: Buffer, t: Buffer, f: Fields, used: nat)
    requires |s| == |t| == 1024 && |f.signature| == 4 && HasHeader(s, f, used)
    requires forall i :: 0 <= i < 0x30 ==> t[i] == s[i]
    ensures HasHeader(t, f, used)
  {
    assert forall lo, hi :: 0 <= lo <= hi <= 0x30 ==> t[lo..hi] == s[lo..hi];
  }

  /** The laid-out record as it is stored: sealed if it is a FILE record. */
  function Stored(plain: Buffer, signature: Buffer, damaged: bool): Buffer
    requires |plain| == 1024
  {
    if signature != FILE then plain else if damaged then Damaged(Fixed(plain)) else Fixed(plain)
  }

  lemma SealedIsRecord(plain: Buffer, f: Fields, added: seq<Attr>, damaged: bool)
    requires |plain| == 1024 && |f.signature| == 4 && |EncodeAll(added)| <= CAPACITY
    requires HasHeader(plain, f, 0x38 + |EncodeAll(added)| + 4) && HasBody(plain, EncodeAll(added))
    requires forall i :: 0 <= i < |added| ==> InRange(added[i])
    ensures IsRecord(Stored(plain, f.signature, damaged), f, added, damaged)
  {
    var attrs, unfixed := EncodeAll(added), Unfixed(Stored(plain, f.signature, damaged));
    assert plain[..4] == f.signature;
    StoredUnfixes(plain, f.signature, damaged);
    LayoutSurvives(plain, unfixed, f, 0x38 + |attrs| + 4, attrs);
    BodyScans(unfixed, added);
  }

  lemma StoredIsRecord(f: Fields, added: seq<Attr>, damaged: bool)
    requires |f.signature| == 4 && |EncodeAll(added)| <= CAPACITY
    requires forall i :: 0 <= i < |added| ==> InRange(added[i])
    ensures IsRecord(Stored(LaidOut(f, EncodeAll(added)), f.signature, damaged), f, added, damaged)
  {
    LaidOutExactly(LaidOut(f, EncodeAll(added)), f, EncodeAll(added));
    SealedIsRecord(LaidOut(f, EncodeAll(added)), f, added, damaged);
  }

  // A reader of the stored bytes sees the signature, is told whether they are
  // damaged, and gets back every byte outside the update-sequence array.
  lemma StoredUnfixes(plain: Buffer, signature: Buffer, damaged: bool)
    requires |plain| == 1024 && plain[..4] == signature
    ensures var raw := Stored(plain, signature, damaged);
            && raw[..4] == signature
            && (signature == FILE ==> (FixupsMatch(raw) <==> !damaged))
            && forall i :: 0 <= i < 1024 && !(0x30 <= i < 0x36) ==> Unfixed(raw)[i] == plain[i]
  {
    UndoRestores(plain, damaged);
    assert Stored(plain, signature, damaged)[..4] == plain[..4];
  }
}
