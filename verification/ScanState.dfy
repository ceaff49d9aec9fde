// The externalized scan state of crates/mft-core/src/cursor.rs. It is plain
// data threaded by value; its JSON form is taken to be lossless.
module ScanState {
  import opened Bytes
  import opened Resolver
  import opened MftCore

  datatype MftCursor = MftCursor(source: string, byteOffset: nat, recordsEmitted: nat)

  datatype MftScanState = MftScanState(
    cursor: MftCursor, resolver: Index, pendingPaths: seq<nat>, recordSize: nat, maxDepth: nat,
    resolverBuilt: bool, sourceIndex: nat)
  {
    function NextEntry(): nat {
      if recordSize == 0 then 0 else Quotient(cursor.byteOffset, recordSize)
    }

    function Advance(count: nat): MftScanState {
      this.(cursor := cursor.(byteOffset := cursor.byteOffset + count * recordSize,
                              recordsEmitted := cursor.recordsEmitted + count))
    }
  }

  const DEFAULT_STATE: MftScanState :=
    MftScanState(MftCursor("", 0, 0), map[], [], 1024, DEFAULT_MAX_DEPTH, false, 0)

  /** Serialized state: bytes that decode, or bytes that do not. */
  datatype Token = Encoded(state: MftScanState) | Malformed

  function ToBytes(state: MftScanState): Token {
    Encoded(state)
  }

  function FromBytes(token: Token): MftScanState {
    match token
    case Encoded(state) => state
    case Malformed => DEFAULT_STATE
  }

  // Advancing by whole records moves the next entry by as many, wherever inside
  // a record the cursor stood; under a record size of 0 it stays at 0.
  lemma AdvanceMovesNextEntry(state: MftScanState, count: nat)
    ensures state.Advance(count).NextEntry() == state.NextEntry() + if state.recordSize == 0 then 0 else count
    ensures state.Advance(count)
            == state.(cursor := MftCursor(state.cursor.source, state.cursor.byteOffset + count * state.recordSize,
                                          state.cursor.recordsEmitted + count))
    ensures state.recordSize == 0 ==> state.NextEntry() == 0
    ensures state.recordSize != 0 ==> state.NextEntry() == state.cursor.byteOffset / state.recordSize
  {
    var rs, off := state.recordSize, state.cursor.byteOffset;
    if rs != 0 {
      var k := Quotient(off, rs);
      assert off + count * rs == (k + count) * rs + off % rs;
      ModIs(off + count * rs, k + count, off % rs, rs);
    }
  }

  // A cursor at an entry boundary is read back as that entry, and its byte
  // offset stays inside the image, hence inside 64 bits.
  lemma OffsetInverts(bytes: Buffer, entry: nat)
    requires entry <= EntryCount(bytes)
    ensures Quotient(entry * RecordStride(bytes), RecordStride(bytes)) == entry
    ensures entry * RecordStride(bytes) <= |bytes|
  {
    var stride := RecordStride(bytes);
    ModIs(entry * stride, entry, 0, stride);
    MulMono(entry, Quotient(|bytes|, stride), stride);
  }
}
