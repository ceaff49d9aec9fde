// A whole tree of files, from the builder of crates/mft-core/src/synth.rs to the
// index and the paths of crates/mft-core/src/lib.rs.
module BuiltTree {
  import opened Common
  import opened Bytes
  import opened Attributes
  import opened Synth
  import opened SynthImage
  import opened Record
  import opened Resolver
  import opened MftCore
  import opened Reader

  /** A FILE record as it was described to the builder. */
  datatype Spec = Spec(fields: Fields, added: seq<Attr>, damaged: bool)

  /** The image is that of the records described, number by number. */
  ghost predicate IsTree(conv: Conventions, image: Buffer, rs: seq<Numbered>, specs: map<nat, Spec>) {
    && Images(image, rs) && |image| <= MAX_LEN
    && (forall i :: 0 <= i < |rs| ==> WellStored(rs[i].1))
    && (forall n: nat :: n in specs <==> exists i :: 0 <= i < |rs| && rs[i].0 == n)
    && forall n: nat :: n in specs ==>
         Built(conv, SlotOf(rs, n), specs[n].fields, specs[n].added, specs[n].damaged)
  }

  /** The names given to a record, in the order given. */
  function NamesGiven(conv: Conventions, spec: Spec): seq<FileName> {
    Collect(Added(conv, spec.added), PickFileName())
  }

  /** The node of a record: its primary name, and where that name says it is. */
  function NodeGiven(conv: Conventions, spec: Spec): Option<ResolverNode> {
    var names := NamesGiven(conv, spec);
    match PrimaryIndex(names)
    case None => None
    case Some(i) =>
      Some(ResolverNode(names[i].name, names[i].parentEntry, names[i].parentSeq, spec.fields.flags / 2 == 1,
                        spec.fields.sequence))
  }

  function NodesGiven(conv: Conventions, specs: map<nat, Spec>): Index {
    map n | n in specs && NodeGiven(conv, specs[n]).Some? :: NodeGiven(conv, specs[n]).value
  }

  lemma RecordNode(crate: Crate, conv: Conventions, raw: Buffer, spec: Spec, n: nat, cap: nat)
    requires Faithful(crate, conv) && Built(conv, raw, spec.fields, spec.added, spec.damaged)
    ensures var rec := DecodeEntrySafe(crate, EntryOf(raw, n), n, cap);
            && ParseRecord(crate, raw, n) == Entry(EntryOf(raw, n))
            && rec.fileNames == NamesGiven(conv, spec)
            && rec.sequence == spec.fields.sequence && rec.isDir == (spec.fields.flags / 2 == 1)
  {
    BuiltRecordDecodes(crate, conv, raw, spec.fields, spec.added, spec.damaged, n, cap);
    var _, _ := BuiltRecordNames(crate, conv, raw, spec.fields, spec.added, spec.damaged, n, cap);
  }

  lemma DecodedNode(crate: Crate, conv: Conventions, d: Decoder, n: nat, spec: Spec, rec: DecodedRecord)
    requires Decode(crate, d, n) == Some(rec) && rec.fileNames == NamesGiven(conv, spec)
    requires rec.sequence == spec.fields.sequence && rec.isDir == (spec.fields.flags / 2 == 1)
    ensures NodeAt(crate, d, n) == NodeGiven(conv, spec)
  {
  }

  // Each slot's node is the one described; a slot that was skipped has none.
  lemma SlotNode(crate: Crate, conv: Conventions, image: Buffer, rs: seq<Numbered>, specs: map<nat, Spec>, n: nat)
    requires Faithful(crate, conv) && IsTree(conv, image, rs, specs)
    ensures NodeAt(crate, Open(image, RESIDENT_CAP), n)
            == if n in specs then NodeGiven(conv, specs[n]) else None
  {
    var d := Open(image, RESIDENT_CAP);
    if n in specs {
      var raw := SlotOf(rs, n);
      HighestBounds(rs);
      SlicesAreSlots(image, rs, RESIDENT_CAP, n);
      RecordNode(crate, conv, raw, specs[n], n, RESIDENT_CAP);
      ParsedSliceDecodes(crate, d, n, raw, EntryOf(raw, n));
      DecodedNode(crate, conv, d, n, specs[n], DecodeEntrySafe(crate, EntryOf(raw, n), n, RESIDENT_CAP));
    } else {
      NeverAddedDecodesToNothing(crate, image, rs, RESIDENT_CAP, n);
    }
  }

  lemma SlotIndexed(crate: Crate, conv: Conventions, image: Buffer, rs: seq<Numbered>, specs: map<nat, Spec>, n: nat)
    requires Faithful(crate, conv) && IsTree(conv, image, rs, specs)
    ensures var index, given := IndexOf(crate, image), WithRoot(NodesGiven(conv, specs));
            (n in index <==> n in given) && (n in index ==> index[n] == given[n])
  {
    SlotNode(crate, conv, image, rs, specs, n);
    IndexHoldsNode(crate, image, n);
  }

  // The index of a built image is the tree described, and the root.
  lemma BuiltIndex(crate: Crate, conv: Conventions, image: Buffer, rs: seq<Numbered>, specs: map<nat, Spec>)
    requires Faithful(crate, conv) && IsTree(conv, image, rs, specs)
    ensures IndexOf(crate, image) == WithRoot(NodesGiven(conv, specs))
  {
    forall n: nat
      ensures var index, given := IndexOf(crate, image), WithRoot(NodesGiven(conv, specs));
              (n in index <==> n in given) && (n in index ==> index[n] == given[n])
    {
      SlotIndexed(crate, conv, image, rs, specs, n);
    }
    SameIndex(IndexOf(crate, image), WithRoot(NodesGiven(conv, specs)));
  }

  lemma SameIndex(a: Index, b: Index)
    requires forall n: nat :: (n in a <==> n in b) && (n in a ==> a[n] == b[n])
    ensures a == b
  {
  }

  // The paths of a built image are those of the tree described: where folder
  // after folder leads from an entry to the root, the names on the way down.
  lemma BuiltPath(crate: Crate, conv: Conventions, image: Buffer, rs: seq<Numbered>, specs: map<nat, Spec>,
                  n: nat, maxDepth: nat)
    requires Faithful(crate, conv) && IsTree(conv, image, rs, specs)
    ensures var tree := WithRoot(NodesGiven(conv, specs));
            && FullPath(crate, image, n, maxDepth)
               == (if n in tree then Some(Resolved(tree, n, maxDepth).path) else None)
            && forall es :: BoundedWalk(tree, n, es, maxDepth) && NextParent(tree, es) == ROOT_ENTRY
                            && n != ROOT_ENTRY ==>
                 FullPath(crate, image, n, maxDepth) == Some(Tail(Names(tree, es)))
  {
    var tree := WithRoot(NodesGiven(conv, specs));
    BuiltIndex(crate, conv, image, rs, specs);
    forall es | BoundedWalk(tree, n, es, maxDepth) && NextParent(tree, es) == ROOT_ENTRY && n != ROOT_ENTRY
      ensures FullPath(crate, image, n, maxDepth) == Some(Tail(Names(tree, es)))
    {
      WalkDecides(tree, n, maxDepth, es, AtRoot);
    }
  }
}
