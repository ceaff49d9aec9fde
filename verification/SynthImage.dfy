// The image builder of crates/mft-core/src/synth.rs against the decoder of
// crates/mft-core/src/lib.rs: what is added is what is sliced out again.
module SynthImage {
  import opened Common
  import opened Bytes
  import opened Attributes
  import opened Synth
  import Record
  import MftCore
  import Reader

  /** A numbered record, as kept until the image is finished. */
  type Numbered = (nat, Buffer)

  // ------------------------------------------------------------- a stable sort

  predicate Sorted(rs: seq<Numbered>) {
    forall i, j :: 0 <= i < j < |rs| ==> rs[i].0 <= rs[j].0
  }

  function Insert(rs: seq<Numbered>, r: Numbered): (out: seq<Numbered>)
    ensures |out| == |rs| + 1
  {
    if rs == [] || rs[|rs| - 1].0 <= r.0 then rs + [r]
    else Insert(rs[..|rs| - 1], r) + [rs[|rs| - 1]]
  }

  /** `sort_by_key` on the record number. */
  function StableSort(rs: seq<Numbered>): (out: seq<Numbered>)
    ensures |out| == |rs|
  {
    if rs == [] then [] else Insert(StableSort(rs[..|rs| - 1]), rs[|rs| - 1])
  }

  /** The records numbered `n`, in the order they were added. */
  function WithKey(rs: seq<Numbered>, n: nat): seq<Numbered> {
    if rs == [] then []
    else WithKey(rs[..|rs| - 1], n) + if rs[|rs| - 1].0 == n then [rs[|rs| - 1]] else []
  }

  lemma WithKeySnoc(rs: seq<Numbered>, r: Numbered, n: nat)
    ensures WithKey(rs + [r], n) == WithKey(rs, n) + if r.0 == n then [r] else []
  {
    assert (rs + [r])[..|rs|] == rs;
  }

  lemma {:induction false} InsertKeepsOrder(rs: seq<Numbered>, r: Numbered, n: nat)
    ensures WithKey(Insert(rs, r), n) == WithKey(rs, n) + if r.0 == n then [r] else []
  {
    if rs == [] || rs[|rs| - 1].0 <= r.0 {
      WithKeySnoc(rs, r, n);
    } else {
      var init, last := rs[..|rs| - 1], rs[|rs| - 1];
      InsertKeepsOrder(init, r, n);
      WithKeySnoc(Insert(init, r), last, n);
    }
  }

  lemma {:induction false} InsertKeepsAll(rs: seq<Numbered>, r: Numbered)
    ensures multiset(Insert(rs, r)) == multiset(rs) + multiset{r}
  {
    if rs != [] && r.0 < rs[|rs| - 1].0 {
      InsertKeepsAll(rs[..|rs| - 1], r);
      assert rs == rs[..|rs| - 1] + [rs[|rs| - 1]];
    }
  }

  lemma {:induction false} InsertSorts(rs: seq<Numbered>, r: Numbered)
    requires Sorted(rs)
    ensures Sorted(Insert(rs, r))
  {
    if rs != [] && r.0 < rs[|rs| - 1].0 {
      var init, last := rs[..|rs| - 1], rs[|rs| - 1];
      var inserted := Insert(init, r);
      InsertSorts(init, r);
      InsertKeepsAll(init, r);
      forall i | 0 <= i < |inserted| ensures inserted[i].0 <= last.0 {
        assert inserted[i] in multiset(inserted);
        if inserted[i] != r {
          assert inserted[i] in multiset(init);
          var j :| 0 <= j < |init| && init[j] == inserted[i];
          assert rs[j] == init[j];
        }
      }
    }
  }

  lemma {:induction false} SortPermutes(rs: seq<Numbered>)
    ensures multiset(StableSort(rs)) == multiset(rs)
  {
    if rs != [] {
      var init, last := rs[..|rs| - 1], rs[|rs| - 1];
      SortPermutes(init);
      InsertKeepsAll(StableSort(init), last);
      assert rs == init + [last];
    }
  }

  lemma {:induction false} SortKeepsOrder(rs: seq<Numbered>, n: nat)
    ensures WithKey(StableSort(rs), n) == WithKey(rs, n)
  {
    if rs != [] {
      SortKeepsOrder(rs[..|rs| - 1], n);
      InsertKeepsOrder(StableSort(rs[..|rs| - 1]), rs[|rs| - 1], n);
    }
  }

  lemma {:induction false} SortSorts(rs: seq<Numbered>)
    ensures Sorted(StableSort(rs))
  {
    if rs != [] {
      SortSorts(rs[..|rs| - 1]);
      InsertSorts(StableSort(rs[..|rs| - 1]), rs[|rs| - 1]);
    }
  }

  // Sorting is a permutation, orders by number, and keeps the records of one
  // number in added order.
  lemma SortIsStable(rs: seq<Numbered>, n: nat)
    ensures Sorted(StableSort(rs)) && WithKey(StableSort(rs), n) == WithKey(rs, n)
    ensures multiset(StableSort(rs)) == multiset(rs)
  {
    SortSorts(rs);
    SortKeepsOrder(rs, n);
    SortPermutes(rs);
  }

  // ------------------------------------------------------------------ the image

  /** The highest number added; 0 if nothing was. */
  function Highest(rs: seq<Numbered>): nat {
    if rs == [] then 0 else Max(Highest(rs[..|rs| - 1]), rs[|rs| - 1].0)
  }

  lemma {:induction false} HighestBounds(rs: seq<Numbered>)
    ensures forall x :: x in rs ==> x.0 <= Highest(rs)
    ensures rs != [] ==> exists x :: x in rs && x.0 == Highest(rs)
  {
    if rs != [] {
      var init, last := rs[..|rs| - 1], rs[|rs| - 1];
      HighestBounds(init);
      assert rs == init + [last];
      var top := if init != [] && last.0 <= Highest(init) then Highest(init) else last.0;
      assert top == Highest(rs);
      if top == last.0 {
        assert last in rs;
      } else {
        var x :| x in init && x.0 == Highest(init);
        assert x in rs;
      }
    }
  }

  // Sorting keeps the records.
  lemma SortKeepsMembers(rs: seq<Numbered>, x: Numbered)
    ensures x in StableSort(rs) <==> x in rs
  {
    SortPermutes(rs);
    assert x in StableSort(rs) <==> x in multiset(StableSort(rs));
    assert x in rs <==> x in multiset(rs);
  }

  lemma LastIsHighest(rs: seq<Numbered>)
    requires rs != []
    ensures StableSort(rs)[|rs| - 1].0 == Highest(rs)
  {
    var sorted := StableSort(rs);
    SortSorts(rs);
    HighestBounds(rs);
    var top :| top in rs && top.0 == Highest(rs);
    SortKeepsMembers(rs, top);
    SortKeepsMembers(rs, sorted[|rs| - 1]);
    var i :| 0 <= i < |sorted| && sorted[i] == top;
    assert sorted[i].0 <= sorted[|rs| - 1].0;
  }

  /** What slot `n` should hold: the record last added under `n`, or zeros. */
  function SlotOf(rs: seq<Numbered>, n: nat): Buffer {
    var own := WithKey(rs, n);
    if own == [] then ZeroBytes(1024) else own[|own| - 1].1
  }

  /** A stored record: a known signature, and a FILE record says 1024 bytes. */
  predicate WellStored(b: Buffer) {
    && |b| == 1024 && b[..4] in {FILE, BAAD, JUNK}
    && (b[..4] == FILE ==> U32At(b, 0x1C) == 1024)
  }

  lemma {:induction false} SlotIsStored(rs: seq<Numbered>, n: nat)
    requires forall i :: 0 <= i < |rs| ==> WellStored(rs[i].1)
    ensures |SlotOf(rs, n)| == 1024
    ensures WithKey(rs, n) != [] ==> WellStored(SlotOf(rs, n))
  {
    if rs != [] {
      SlotIsStored(rs[..|rs| - 1], n);
    }
  }

  lemma {:induction false} NeverAdded(rs: seq<Numbered>, n: nat)
    ensures WithKey(rs, n) == [] <==> forall i :: 0 <= i < |rs| ==> rs[i].0 != n
  {
    if rs != [] {
      NeverAdded(rs[..|rs| - 1], n);
    }
  }

  /** The image holds `rs`, slot by slot. */
  ghost predicate Images(image: Buffer, rs: seq<Numbered>) {
    && |image| == (Highest(rs) + 1) * 1024
    && forall n: nat :: n <= Highest(rs) ==> image[n * 1024..n * 1024 + 1024] == SlotOf(rs, n)
  }

  // In terms of the records added: the image ends with the highest number.
  lemma ImageEndsAtHighest(image: Buffer, rs: seq<Numbered>) returns (top: nat)
    requires Images(image, rs) && rs != []
    ensures top < |rs| && |image| == (rs[top].0 + 1) * 1024
    ensures forall j :: 0 <= j < |rs| ==> rs[j].0 <= rs[top].0
  {
    HighestBounds(rs);
    var x :| x in rs && x.0 == Highest(rs);
    top :| top < |rs| && rs[top] == x;
    assert forall j :: 0 <= j < |rs| ==> rs[j] in rs;
  }

  // It holds a record at its number unless another was added there later, and
  // zeros where none was.
  lemma SlotsByRecords(image: Buffer, rs: seq<Numbered>, n: nat)
    requires Images(image, rs) && (n + 1) * 1024 <= |image|
    ensures forall k :: 0 <= k < |rs| && rs[k].0 == n && (forall j :: k < j < |rs| ==> rs[j].0 != n) ==>
              image[n * 1024..n * 1024 + 1024] == rs[k].1
    ensures (forall k :: 0 <= k < |rs| ==> rs[k].0 != n) ==>
              forall i :: n * 1024 <= i < n * 1024 + 1024 ==> image[i] == 0
  {
    assert n <= Highest(rs);
    var slot := image[n * 1024..n * 1024 + 1024];
    assert slot == SlotOf(rs, n);
    forall k | 0 <= k < |rs| && rs[k].0 == n && (forall j :: k < j < |rs| ==> rs[j].0 != n)
      ensures slot == rs[k].1
    {
      LastAdded(rs, k);
    }
    if forall k :: 0 <= k < |rs| ==> rs[k].0 != n {
      NeverAdded(rs, n);
      forall i | n * 1024 <= i < n * 1024 + 1024 ensures image[i] == 0 {
        assert image[i] == slot[i - n * 1024];
      }
    }
  }

  lemma {:induction false} LastAdded(rs: seq<Numbered>, k: nat)
    requires k < |rs| && forall j :: k < j < |rs| ==> rs[j].0 != rs[k].0
    ensures SlotOf(rs, rs[k].0) == rs[k].1
  {
    if k < |rs| - 1 {
      var init := rs[..|rs| - 1];
      LastAdded(init, k);
      assert WithKey(rs, rs[k].0) == WithKey(init, rs[k].0);
    }
  }

  class MftBuilder {
    var records: seq<Numbered>

    ghost predicate Valid()
      reads this
    {
      forall i :: 0 <= i < |records| ==> WellStored(records[i].1)
    }

    constructor ()
      ensures Valid() && records == []
    {
      records := [];
    }

    method Add(rec: RecordBuilder)
      requires Valid() && rec.Valid() && |rec.attrs| <= CAPACITY
      modifies this
      ensures Valid() && |records| == |old(records)| + 1
      ensures records[..|old(records)|] == old(records)
      ensures records[|old(records)|].0 == rec.entry
      ensures IsRecord(records[|old(records)|].1, rec.HeaderFields(), rec.added, rec.breakFixup)
      ensures records[|old(records)|].1
              == Stored(LaidOut(rec.HeaderFields(), rec.attrs), rec.Signature(), rec.breakFixup)
    {
      var buf := rec.Build();
      BuiltIsWellStored(buf[..], rec.HeaderFields(), rec.added, rec.breakFixup);
      records := records + [(rec.entry, buf[..])];
    }

    // Sort, then copy each record over its slot of a zeroed image.
    method Finish() returns (out: array<byte>)
      requires Valid()
      modifies this
      ensures fresh(out) && Images(out[..], old(records))
    {
      ghost var added := records;
      records := StableSort(records);
      SortedFacts(added);
      var maxEntry := if records == [] then 0 else records[|records| - 1].0;
      out := new byte[(maxEntry + 1) * 1024](_ => 0);
      CopyAll(out, records, maxEntry);
      SlotsAreSorted(out[..], added);
    }
  }

  /** The slots of an image up to number `top` hold `rs`. */
  ghost predicate SlotsHold(image: Buffer, rs: seq<Numbered>, top: nat) {
    && |image| == (top + 1) * 1024
    && forall n: nat :: n <= top ==> image[n * 1024..n * 1024 + 1024] == SlotOf(rs, n)
  }

  lemma SortedFacts(rs: seq<Numbered>)
    requires forall i :: 0 <= i < |rs| ==> WellStored(rs[i].1)
    ensures var sorted := StableSort(rs);
            && (sorted == [] <==> rs == [])
            && (sorted != [] ==> sorted[|sorted| - 1].0 == Highest(rs))
            && forall i :: 0 <= i < |sorted| ==> WellStored(sorted[i].1) && sorted[i].0 <= Highest(rs)
  {
    var sorted := StableSort(rs);
    SortIsStable(rs, 0);
    HighestBounds(rs);
    if rs != [] {
      LastIsHighest(rs);
    }
    forall i | 0 <= i < |sorted| ensures WellStored(sorted[i].1) && sorted[i].0 <= Highest(rs) {
      assert sorted[i] in multiset(rs);
      var j :| 0 <= j < |rs| && rs[j] == sorted[i];
    }
  }

  lemma SlotsAreSorted(image: Buffer, rs: seq<Numbered>)
    requires SlotsHold(image, StableSort(rs), Highest(rs))
    ensures Images(image, rs)
  {
    forall n: nat | n <= Highest(rs) ensures image[n * 1024..n * 1024 + 1024] == SlotOf(rs, n) {
      SortIsStable(rs, n);
      assert image[n * 1024..n * 1024 + 1024] == SlotOf(StableSort(rs), n);
    }
  }

  // Copying a record over its slot changes that slot alone.
  lemma CopySteps(before: Buffer, after: Buffer, rs: seq<Numbered>, r: Numbered, top: nat)
    requires SlotsHold(before, rs, top) && |after| == |before| && r.0 <= top && |r.1| == 1024
    requires after[r.0 * 1024..r.0 * 1024 + 1024] == r.1
    requires forall i :: 0 <= i < |before| && !(r.0 * 1024 <= i < r.0 * 1024 + 1024) ==> after[i] == before[i]
    ensures SlotsHold(after, rs + [r], top)
  {
    forall n: nat | n <= top ensures after[n * 1024..n * 1024 + 1024] == SlotOf(rs + [r], n) {
      WithKeySnoc(rs, r, n);
      assert before[n * 1024..n * 1024 + 1024] == SlotOf(rs, n);
      if n != r.0 {
        SliceKept(before, after, n * 1024, r.0 * 1024);
      }
    }
  }

  lemma SliceKept(before: Buffer, after: Buffer, at: nat, changed: nat)
    requires |after| == |before| && at + 1024 <= |before| && (at + 1024 <= changed || changed + 1024 <= at)
    requires forall i :: 0 <= i < |before| && !(changed <= i < changed + 1024) ==> after[i] == before[i]
    ensures after[at..at + 1024] == before[at..at + 1024]
  {
  }

  method CopyAll(out: array<byte>, rs: seq<Numbered>, top: nat)
    requires out.Length == (top + 1) * 1024 && forall i :: 0 <= i < out.Length ==> out[i] == 0
    requires forall i :: 0 <= i < |rs| ==> WellStored(rs[i].1) && rs[i].0 <= top
    modifies out
    ensures SlotsHold(out[..], rs, top)
  {
    assert rs[..0] == [];
    for i := 0 to |rs|
      invariant SlotsHold(out[..], rs[..i], top)
    {
      ghost var before := out[..];
      CopyInto(out, rs[i].0 * 1024, rs[i].1);
      CopySteps(before, out[..], rs[..i], rs[i], top);
      assert rs[..i + 1] == rs[..i] + [rs[i]];
    }
    assert rs[..|rs|] == rs;
  }

  lemma BuiltIsWellStored(raw: Buffer, f: Fields, added: seq<Attr>, damaged: bool)
    requires IsRecord(raw, f, added, damaged) && f.signature in {FILE, BAAD, JUNK}
    ensures WellStored(raw)
  {
    if raw[..4] == FILE {
      UndoneAt(raw);
      Read32(Unfixed(raw), 0x1C, 1024);
    }
  }

  // ------------------------------------------------------- through the decoder

  // Whatever was added, the image's stride is 1024 and its count reaches the
  // highest number.
  lemma ImageGeometry(image: Buffer, rs: seq<Numbered>)
    requires Images(image, rs) && forall i :: 0 <= i < |rs| ==> WellStored(rs[i].1)
    ensures MftCore.RecordStride(image) == 1024
    ensures MftCore.EntryCount(image) == Highest(rs) + 1
  {
    var slot := SlotOf(rs, 0);
    SlotIsStored(rs, 0);
    assert image[0 * 1024..0 * 1024 + 1024] == slot;
    assert image[..4] == slot[..4];
    assert forall i :: 0 <= i < 1024 ==> image[i] == slot[i];
    if WithKey(rs, 0) == [] {
      assert slot[..4][0] == 0;
    } else {
      assert U32At(image, 0x1C) == U32At(slot, 0x1C);
    }
    ModIs((Highest(rs) + 1) * 1024, Highest(rs) + 1, 0, 1024);
  }

  // Slicing gives back the record last added under a number, zeros for a number
  // skipped, and nothing past the highest.
  lemma SlicesAreSlots(image: Buffer, rs: seq<Numbered>, cap: nat, n: nat)
    requires Images(image, rs) && forall i :: 0 <= i < |rs| ==> WellStored(rs[i].1)
    requires |image| <= MftCore.MAX_LEN
    ensures MftCore.Slice(MftCore.Open(image, cap), n)
            == if n <= Highest(rs) then Some(SlotOf(rs, n)) else None
  {
    ImageGeometry(image, rs);
    MftCore.SliceIffCounted(MftCore.Open(image, cap), n);
    assert n <= Highest(rs) ==> image[n * 1024..n * 1024 + 1024] == SlotOf(rs, n);
  }

  // A slot is empty exactly when nothing was added under its number.
  lemma EmptyExactlyIfNeverAdded(rs: seq<Numbered>, n: nat)
    requires forall i :: 0 <= i < |rs| ==> WellStored(rs[i].1)
    ensures Zeros(SlotOf(rs, n)) <==> forall i :: 0 <= i < |rs| ==> rs[i].0 != n
  {
    NeverAdded(rs, n);
    SlotIsStored(rs, n);
    var slot := SlotOf(rs, n);
    if WithKey(rs, n) != [] {
      assert slot[..4][0] == slot[0] && slot[0] != 0;
    }
  }

  lemma NeverAddedDecodesToNothing(crate: Record.Crate, image: Buffer, rs: seq<Numbered>, cap: nat, n: nat)
    requires Images(image, rs) && forall i :: 0 <= i < |rs| ==> WellStored(rs[i].1)
    requires |image| <= MftCore.MAX_LEN && forall i :: 0 <= i < |rs| ==> rs[i].0 != n
    ensures MftCore.Decode(crate, MftCore.Open(image, cap), n) == None
  {
    SlicesAreSlots(image, rs, cap, n);
    EmptyExactlyIfNeverAdded(rs, n);
  }

  // The image, decoded: the slot of a built FILE record decodes to that record,
  // under its slot's number, with one attribute listed for each one added.
  lemma BuiltImageDecodes(crate: Record.Crate, conv: Reader.Conventions, image: Buffer, rs: seq<Numbered>, cap: nat,
                          n: nat, raw: Buffer, f: Fields, added: seq<Attr>, damaged: bool)
    requires Images(image, rs) && forall i :: 0 <= i < |rs| ==> WellStored(rs[i].1)
    requires |image| <= MftCore.MAX_LEN && n <= Highest(rs) && raw == SlotOf(rs, n)
    requires Reader.Faithful(crate, conv) && Reader.Built(conv, raw, f, added, damaged)
    ensures var decoded := MftCore.Decode(crate, MftCore.Open(image, cap), n);
            && decoded == Some(Record.DecodeEntrySafe(crate, Reader.EntryOf(raw, n), n, cap))
            && decoded.value.entry == n && decoded.value.sequence == f.sequence
            && |decoded.value.attributes| == |added|
            && (forall i :: 0 <= i < |added| ==>
                  decoded.value.attributes[i] == Record.Info(Reader.Added(conv, added)[i]))
            && decoded.value.diagnostics == if damaged then ["fixup-mismatch"] else []
  {
    SlicesAreSlots(image, rs, cap, n);
    Reader.BuiltRecordDecodes(crate, conv, raw, f, added, damaged, n, cap);
    MftCore.ParsedSliceDecodes(crate, MftCore.Open(image, cap), n, raw, Reader.EntryOf(raw, n));
  }
}
