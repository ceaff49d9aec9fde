// The bounded-allocation gate of crates/mft-core/src/record.rs: a walk over the
// attribute headers of one record buffer, before any content is parsed.
module PreScan {
  import opened Bytes

  const MAX_ATTRS: nat := 256

  /** `Fault` is an out-of-range byte read, a panic in the source. */
  datatype Verdict = Accept | Reject | Fault

  // ------------------------------------------------- one attribute header

  predicate TerminatorAt(data: Buffer, off: nat) {
    off + 4 <= |data| && U32At(data, off) == ALL_ONES
  }

  /** A readable 16-byte common header that is not the terminator. */
  predicate HeaderAt(data: Buffer, off: nat) {
    off + 16 <= |data| && !TerminatorAt(data, off)
  }

  function LengthAt(data: Buffer, off: nat): nat
    requires HeaderAt(data, off)
  {
    U32At(data, off + 4)
  }

  predicate ResidentAt(data: Buffer, off: nat)
    requires HeaderAt(data, off)
  {
    data[off + 8] == 0
  }

  /** The attribute is at least a header long and ends inside the buffer. */
  predicate EnclosedAt(data: Buffer, off: nat) {
    HeaderAt(data, off) && 16 <= LengthAt(data, off) && off + LengthAt(data, off) <= |data|
  }

  /** The resident content range lies inside the buffer. */
  predicate ContentAt(data: Buffer, off: nat)
    requires off + 22 <= |data|
  {
    off + U16At(data, off + 20) + U32At(data, off + 16) <= |data|
  }

  predicate SoundAt(data: Buffer, off: nat) {
    && EnclosedAt(data, off)
    && (ResidentAt(data, off) ==> off + 22 <= |data| && ContentAt(data, off))
  }

  /** A resident attribute, enclosed, whose size and offset fields are cut off. */
  predicate CutOffAt(data: Buffer, off: nat) {
    EnclosedAt(data, off) && ResidentAt(data, off) && |data| < off + 22
  }

  // ------------------------------------------------------------ the chain

  /** Sound attributes start at each of `offs` but the last and tile the bytes. */
  predicate Chain(data: Buffer, first: nat, offs: seq<nat>) {
    && offs != [] && offs[0] == first
    && forall i :: 0 <= i < |offs| - 1 ==>
         SoundAt(data, offs[i]) && offs[i + 1] == offs[i] + LengthAt(data, offs[i])
  }

  predicate WellTiled(data: Buffer, first: nat, offs: seq<nat>) {
    Chain(data, first, offs) && |offs| <= MAX_ATTRS && TerminatorAt(data, offs[|offs| - 1])
  }

  predicate ReachesCutOff(data: Buffer, first: nat, offs: seq<nat>) {
    Chain(data, first, offs) && |offs| <= MAX_ATTRS && CutOffAt(data, offs[|offs| - 1])
  }

  /** The verdict with `budget` iterations left; the loop in closed form. */
  function Scan(data: Buffer, off: nat, budget: nat): Verdict
    decreases budget
  {
    if budget == 0 then Reject
    else if TerminatorAt(data, off) then Accept
    else if !EnclosedAt(data, off) then Reject
    else if CutOffAt(data, off) then Fault
    else if !SoundAt(data, off) then Reject
    else Scan(data, off + LengthAt(data, off), budget - 1)
  }

  // The loop as written; `steps` counts the iterations it enters.
  method AttributesWithinBounds(data: Buffer, first: nat) returns (verdict: Verdict, ghost steps: nat)
    ensures verdict == Scan(data, first, MAX_ATTRS)
    ensures steps <= MAX_ATTRS
    ensures verdict == Accept <==> exists offs :: WellTiled(data, first, offs)
    ensures verdict == Fault <==> exists offs :: ReachesCutOff(data, first, offs)
  {
    ScanExactly(data, first);
    var off: nat := first;
    steps := 0;
    for i := 0 to MAX_ATTRS
      invariant steps == i
      invariant Scan(data, first, MAX_ATTRS) == Scan(data, off, MAX_ATTRS - i)
    {
      steps := steps + 1;
      if off + 4 > |data| {
        return Reject, steps;
      }
      var typeCode := U32At(data, off);
      if typeCode == ALL_ONES {
        return Accept, steps;
      }
      if off + 16 > |data| {
        return Reject, steps;
      }
      var recordLength := U32At(data, off + 4);
      if recordLength < 16 || off + recordLength > |data| {
        return Reject, steps;
      }
      var resident := data[off + 8] == 0;
      if resident {
        if off + 22 > |data| {
          return Fault, steps;
        }
        var dataSize := U32At(data, off + 16);
        var dataOffset := U16At(data, off + 20);
        if off + dataOffset + dataSize > |data| {
          return Reject, steps;
        }
      }
      off := off + recordLength;
    }
    return Reject, steps;
  }

  // ----------------------------------------------------------- exactness

  // A chain with more than one offset is a sound attribute and a shorter chain.
  lemma ChainUnfolds(data: Buffer, off: nat, offs: seq<nat>)
    requires |offs| > 1
    ensures Chain(data, off, offs)
            <==> offs[0] == off && SoundAt(data, off) && Chain(data, off + LengthAt(data, off), offs[1..])
  {
    if Chain(data, off, offs) {
      assert SoundAt(data, offs[0]) && offs[0 + 1] == offs[0] + LengthAt(data, offs[0]);
      forall i | 0 <= i < |offs[1..]| - 1
        ensures SoundAt(data, offs[1..][i]) && offs[1..][i + 1] == offs[1..][i] + LengthAt(data, offs[1..][i])
      {
        assert SoundAt(data, offs[i + 1]) && offs[i + 1 + 1] == offs[i + 1] + LengthAt(data, offs[i + 1]);
      }
    }
    if offs[0] == off && SoundAt(data, off) && Chain(data, off + LengthAt(data, off), offs[1..]) {
      forall i | 0 <= i < |offs| - 1
        ensures SoundAt(data, offs[i]) && offs[i + 1] == offs[i] + LengthAt(data, offs[i])
      {
        if 0 < i {
          assert SoundAt(data, offs[1..][i - 1]);
        }
      }
    }
  }

  // The chain of a terminated or cut-off walk is unique, and the scan follows it.
  lemma {:induction false} ScanFollows(data: Buffer, off: nat, offs: seq<nat>, budget: nat)
    requires Chain(data, off, offs) && |offs| <= budget
    ensures TerminatorAt(data, offs[|offs| - 1]) ==> Scan(data, off, budget) == Accept
    ensures CutOffAt(data, offs[|offs| - 1]) ==> Scan(data, off, budget) == Fault
    decreases |offs|
  {
    if |offs| > 1 {
      ChainUnfolds(data, off, offs);
      ScanFollows(data, off + LengthAt(data, off), offs[1..], budget - 1);
    }
  }

  lemma {:induction false} ScanWitness(data: Buffer, off: nat, budget: nat) returns (offs: seq<nat>)
    requires Scan(data, off, budget) != Reject
    ensures Chain(data, off, offs) && |offs| <= budget
    ensures Scan(data, off, budget) == Accept ==> TerminatorAt(data, offs[|offs| - 1])
    ensures Scan(data, off, budget) == Fault ==> CutOffAt(data, offs[|offs| - 1])
    decreases budget
  {
    if TerminatorAt(data, off) || CutOffAt(data, off) {
      offs := [off];
    } else {
      var rest := ScanWitness(data, off + LengthAt(data, off), budget - 1);
      offs := [off] + rest;
      assert offs[1..] == rest;
      ChainUnfolds(data, off, offs);
    }
  }

  lemma ScanExactly(data: Buffer, first: nat)
    ensures Scan(data, first, MAX_ATTRS) == Accept <==> exists offs :: WellTiled(data, first, offs)
    ensures Scan(data, first, MAX_ATTRS) == Fault <==> exists offs :: ReachesCutOff(data, first, offs)
  {
    if Scan(data, first, MAX_ATTRS) != Reject {
      var offs := ScanWitness(data, first, MAX_ATTRS);
      assert WellTiled(data, first, offs) || ReachesCutOff(data, first, offs);
    }
    forall offs | WellTiled(data, first, offs) || ReachesCutOff(data, first, offs)
      ensures Scan(data, first, MAX_ATTRS) == if WellTiled(data, first, offs) then Accept else Fault
    {
      ScanFollows(data, first, offs, MAX_ATTRS);
    }
  }

  // ------------------------------------------------- the verdicts, byte by byte

  /** The 32-bit little-endian number at `o`. */
  function Number(data: Buffer, o: nat): nat
    requires o + 4 <= |data|
  {
    data[o] as nat + 0x100 * (data[o + 1] as nat) + 0x1_0000 * (data[o + 2] as nat) + 0x100_0000 * (data[o + 3] as nat)
  }

  /** Four bytes of ones. */
  predicate EndsAt(data: Buffer, o: nat) {
    o + 4 <= |data| && data[o] == 255 && data[o + 1] == 255 && data[o + 2] == 255 && data[o + 3] == 255
  }

  /** A whole header at `o`, no terminator, of a length that stays in the buffer. */
  predicate SpansTo(data: Buffer, o: nat, next: nat) {
    o + 16 <= |data| && !EndsAt(data, o) && 16 <= Number(data, o + 4) && next == o + Number(data, o + 4) <= |data|
  }

  /** And, if it is resident, content that stays in the buffer too. */
  predicate StepsTo(data: Buffer, o: nat, next: nat) {
    && SpansTo(data, o, next)
    && (data[o + 8] == 0 ==>
          && o + 22 <= |data|
          && o + (data[o + 20] as nat + 0x100 * (data[o + 21] as nat)) + Number(data, o + 16) <= |data|)
  }

  /** A resident attribute whose size and offset fields are past the end. */
  predicate EndsShort(data: Buffer, o: nat) {
    o + 16 <= |data| && SpansTo(data, o, o + Number(data, o + 4)) && data[o + 8] == 0 && |data| < o + 22
  }

  lemma NumberIsRead(data: Buffer, o: nat)
    requires o + 4 <= |data|
    ensures U32At(data, o) == Number(data, o)
    ensures TerminatorAt(data, o) <==> EndsAt(data, o)
  {
  }

  lemma StepIsSound(data: Buffer, o: nat, next: nat)
    ensures StepsTo(data, o, next) <==> SoundAt(data, o) && next == o + LengthAt(data, o)
    ensures EndsShort(data, o) <==> CutOffAt(data, o)
  {
    if o + 16 <= |data| {
      NumberIsRead(data, o);
      NumberIsRead(data, o + 4);
      assert SpansTo(data, o, o + Number(data, o + 4)) <==> EnclosedAt(data, o);
      if o + 22 <= |data| {
        NumberIsRead(data, o + 16);
      }
    }
  }

  /** Attributes lead from `first` through `offs`, each to the next. */
  predicate Leads(data: Buffer, first: nat, offs: seq<nat>) {
    && 1 <= |offs| <= 256 && offs[0] == first
    && forall i, j :: 0 <= i && j == i + 1 < |offs| ==> StepsTo(data, offs[i], offs[j])
  }

  lemma LeadsIsChain(data: Buffer, first: nat, offs: seq<nat>)
    ensures Leads(data, first, offs) <==> Chain(data, first, offs) && |offs| <= 256
  {
    forall i | 0 <= i < |offs| - 1
      ensures StepsTo(data, offs[i], offs[i + 1])
              <==> SoundAt(data, offs[i]) && offs[i + 1] == offs[i] + LengthAt(data, offs[i])
    {
      StepIsSound(data, offs[i], offs[i + 1]);
    }
    if Leads(data, first, offs) {
      forall i | 0 <= i < |offs| - 1
        ensures SoundAt(data, offs[i]) && offs[i + 1] == offs[i] + LengthAt(data, offs[i])
      {
        assert StepsTo(data, offs[i], offs[i + 1]);
      }
    }
  }

  // In bytes: the scan accepts exactly if at most 255 attributes lead to a
  // terminator, and faults exactly if they lead to a resident header that is
  // cut off by the end of the buffer.
  lemma ScanByBytes(data: Buffer, first: nat)
    ensures Scan(data, first, MAX_ATTRS) == Accept
            <==> exists offs :: Leads(data, first, offs) && EndsAt(data, offs[|offs| - 1])
    ensures Scan(data, first, MAX_ATTRS) == Fault
            <==> exists offs :: Leads(data, first, offs) && EndsShort(data, offs[|offs| - 1])
  {
    ScanExactly(data, first);
    if offs :| WellTiled(data, first, offs) {
      LeadsIsChain(data, first, offs);
      NumberIsRead(data, offs[|offs| - 1]);
    }
    if offs :| Leads(data, first, offs) && EndsAt(data, offs[|offs| - 1]) {
      LeadsIsChain(data, first, offs);
      NumberIsRead(data, offs[|offs| - 1]);
      assert WellTiled(data, first, offs);
    }
    if offs :| ReachesCutOff(data, first, offs) {
      LeadsIsChain(data, first, offs);
      StepIsSound(data, offs[|offs| - 1], 0);
    }
    if offs :| Leads(data, first, offs) && EndsShort(data, offs[|offs| - 1]) {
      LeadsIsChain(data, first, offs);
      StepIsSound(data, offs[|offs| - 1], 0);
      assert ReachesCutOff(data, first, offs);
    }
  }
}
