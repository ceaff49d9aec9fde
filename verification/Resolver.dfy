// Parent-reference path reconstruction: crates/mft-core/src/resolver.rs, with
// the index node of crates/mft-core/src/cursor.rs.
module Resolver {
  import opened Common

  const ROOT_ENTRY: nat := 5
  const SEP: string := "\\"
  const ORPHAN_PARENT: string := "orphan-parent"
  const CYCLE: string := "cycle"

  datatype ResolverNode = ResolverNode(
    name: string, parentEntry: nat, parentSeq: nat, isDir: bool, sequence: nat)

  type Index = map<nat, ResolverNode>

  datatype ResolvedPath = ResolvedPath(path: string, diagnostic: Option<string>)

  // ---------------------------------------------------------------- strings

  /** The pieces between separators; `Split("")` is one empty piece. */
  function Split(s: string): (parts: seq<string>)
    ensures parts != []
  {
    if s == "" then [""]
    else if s[0] == SEP[0] then [""] + Split(s[1..])
    else var rest := Split(s[1..]); [[s[0]] + rest[0]] + rest[1..]
  }

  function Decimal(n: nat): string {
    if n < 10 then [Digit(n)] else Decimal(n / 10) + [Digit(n % 10)]
  }

  function Digit(d: nat): char
    requires d < 10
  {
    '0' + d as char
  }

  /** The tail of a path: the collected names, topmost first. */
  function Tail(components: seq<string>): string {
    Join(SEP, Reverse(components))
  }

  function OrphanPath(parent: nat, components: seq<string>): ResolvedPath {
    ResolvedPath(SEP + "$Orphan" + SEP + Decimal(parent) + SEP + Tail(components), Some(ORPHAN_PARENT))
  }

  function CyclePath(components: seq<string>): ResolvedPath {
    ResolvedPath(SEP + "$Cycle" + SEP + Tail(components), Some(CYCLE))
  }

  // ------------------------------------------------------- what a walk means

  /** Why a walk ends. */
  datatype Stop = AtRoot | Looped | Missing(parent: nat) | Stale(parent: nat)

  /** `parent` is the present, current, non-root parent of `child`. */
  predicate Link(index: Index, child: nat, parent: nat)
    requires child in index
  {
    && parent == index[child].parentEntry
    && parent != ROOT_ENTRY
    && parent in index
    && index[parent].sequence == index[child].parentSeq
  }

  /** `es` climbs from `entry` over distinct present entries by sound links. */
  predicate IsWalk(index: Index, entry: nat, es: seq<nat>) {
    && es != [] && es[0] == entry
    && (forall i :: 0 <= i < |es| ==> es[i] in index)
    && Distinct(es)
    && (forall i :: 0 <= i < |es| - 1 ==> Link(index, es[i], es[i + 1]))
  }

  predicate BoundedWalk(index: Index, entry: nat, es: seq<nat>, maxDepth: nat) {
    IsWalk(index, entry, es) && |es| <= Max(1, maxDepth)
  }

  /** The parent recorded by the topmost entry reached. */
  function NextParent(index: Index, es: seq<nat>): nat
    requires es != [] && es[|es| - 1] in index
  {
    index[es[|es| - 1]].parentEntry
  }

  /** The first failing check above the topmost entry, in checking order. */
  function StopAt(index: Index, es: seq<nat>, maxDepth: nat): Option<Stop>
    requires es != [] && es[|es| - 1] in index
  {
    var p := NextParent(index, es);
    if p == ROOT_ENTRY then Some(AtRoot)
    else if maxDepth <= |es| || p in es then Some(Looped)
    else if p !in index then Some(Missing(p))
    else if index[p].sequence != index[es[|es| - 1]].parentSeq then Some(Stale(p))
    else None
  }

  function NameOf(index: Index, e: nat): string {
    if e in index then index[e].name else ""
  }

  function Names(index: Index, es: seq<nat>): (names: seq<string>)
    ensures |names| == |es|
  {
    seq(|es|, i requires 0 <= i < |es| => NameOf(index, es[i]))
  }

  function Render(index: Index, es: seq<nat>, stop: Stop): ResolvedPath {
    match stop
    case AtRoot => ResolvedPath(Tail(Names(index, es)), None)
    case Looped => CyclePath(Names(index, es))
    case Missing(p) => OrphanPath(p, Names(index, es))
    case Stale(p) => OrphanPath(p, Names(index, es))
  }

  // -------------------------------------------------- the walk as a function

  /** Climb on from a partial walk until a check stops it. */
  function Climb(index: Index, es: seq<nat>, maxDepth: nat): (seq<nat>, Stop)
    requires es != [] && es[|es| - 1] in index
    decreases maxDepth - |es|
  {
    match StopAt(index, es, maxDepth)
    case Some(stop) => (es, stop)
    case None => Climb(index, es + [NextParent(index, es)], maxDepth)
  }

  lemma {:induction false} ClimbWalks(index: Index, es: seq<nat>, maxDepth: nat)
    requires es != [] && BoundedWalk(index, es[0], es, maxDepth)
    ensures var (ws, stop) := Climb(index, es, maxDepth);
            && es <= ws && BoundedWalk(index, es[0], ws, maxDepth)
            && StopAt(index, ws, maxDepth) == Some(stop)
    decreases maxDepth - |es|
  {
    if StopAt(index, es, maxDepth).None? {
      ClimbWalks(index, es + [NextParent(index, es)], maxDepth);
    }
  }

  function Resolved(index: Index, entry: nat, maxDepth: nat): ResolvedPath {
    if entry !in index then
      ResolvedPath(SEP + "$Orphan" + SEP + Decimal(entry), Some(ORPHAN_PARENT))
    else if entry == ROOT_ENTRY then ResolvedPath(index[entry].name, None)
    else
      var (es, stop) := Climb(index, [entry], maxDepth);
      Render(index, es, stop)
  }

  // The loop as written: vectors pushed to, `current` reassigned.
  method Resolve(index: Index, entry: nat, maxDepth: nat) returns (r: ResolvedPath)
    ensures r == Resolved(index, entry, maxDepth)
  {
    if entry !in index {
      return ResolvedPath(SEP + "$Orphan" + SEP + Decimal(entry), Some(ORPHAN_PARENT));
    }
    var node := index[entry];
    if entry == ROOT_ENTRY {
      return ResolvedPath(node.name, None);
    }
    var components, visited, current := [node.name], [entry], node;
    while true
      invariant BoundedWalk(index, entry, visited, maxDepth)
      invariant current == index[visited[|visited| - 1]]
      invariant components == Names(index, visited)
      invariant Climb(index, visited, maxDepth) == Climb(index, [entry], maxDepth)
      decreases maxDepth - |visited|
    {
      var parentEntry := current.parentEntry;
      if parentEntry == ROOT_ENTRY {
        break;
      }
      if maxDepth <= |visited| || parentEntry in visited {
        return CyclePath(components);
      }
      if parentEntry !in index {
        return OrphanPath(parentEntry, components);
      }
      var parent := index[parentEntry];
      if parent.sequence != current.parentSeq {
        return OrphanPath(parentEntry, components);
      }
      components := components + [parent.name];
      visited := visited + [parentEntry];
      current := parent;
    }
    components := Reverse(components);
    return ResolvedPath(Join(SEP, components), None);
  }

  // ------------------------------------------------------ exact walk semantics

  // Two stopped walks from one entry are the same walk.
  lemma {:induction false} ClimbFindsWalk(index: Index, done: seq<nat>, es: seq<nat>, stop: Stop, maxDepth: nat)
    requires done != [] && done <= es
    requires BoundedWalk(index, done[0], es, maxDepth)
    requires StopAt(index, es, maxDepth) == Some(stop)
    ensures BoundedWalk(index, done[0], done, maxDepth)
    ensures Climb(index, done, maxDepth) == (es, stop)
    decreases |es| - |done|
  {
    if |done| == |es| {
      assert done == es;
    } else {
      var k := |done|;
      assert Link(index, es[k - 1], es[k]);
      assert StopAt(index, done, maxDepth) == None;
      assert done + [NextParent(index, done)] == es[..k + 1];
      ClimbFindsWalk(index, es[..k + 1], es, stop, maxDepth);
    }
  }

  lemma WalkDecides(index: Index, entry: nat, maxDepth: nat, es: seq<nat>, stop: Stop)
    requires entry in index && entry != ROOT_ENTRY
    requires BoundedWalk(index, entry, es, maxDepth)
    requires StopAt(index, es, maxDepth) == Some(stop)
    ensures Resolved(index, entry, maxDepth) == Render(index, es, stop)
  {
    ClimbFindsWalk(index, [entry], es, stop, maxDepth);
  }

  lemma WalkExists(index: Index, entry: nat, maxDepth: nat) returns (es: seq<nat>, stop: Stop)
    requires entry in index && entry != ROOT_ENTRY
    ensures BoundedWalk(index, entry, es, maxDepth)
    ensures StopAt(index, es, maxDepth) == Some(stop)
    ensures Resolved(index, entry, maxDepth) == Render(index, es, stop)
  {
    ClimbWalks(index, [entry], maxDepth);
    var r := Climb(index, [entry], maxDepth);
    es, stop := r.0, r.1;
  }

  ghost predicate ReachesRoot(index: Index, entry: nat, maxDepth: nat) {
    exists es :: BoundedWalk(index, entry, es, maxDepth) && NextParent(index, es) == ROOT_ENTRY
  }

  ghost predicate Breaks(index: Index, entry: nat, maxDepth: nat) {
    exists es ::
      && BoundedWalk(index, entry, es, maxDepth)
      && NextParent(index, es) != ROOT_ENTRY
      && (maxDepth <= |es| || NextParent(index, es) in es)
  }

  lemma CleanExactly(index: Index, entry: nat, maxDepth: nat)
    requires entry in index && entry != ROOT_ENTRY
    ensures Resolved(index, entry, maxDepth).diagnostic.None? <==> ReachesRoot(index, entry, maxDepth)
    ensures Resolved(index, entry, maxDepth).diagnostic == Some(CYCLE) <==> Breaks(index, entry, maxDepth)
  {
    var es, stop := WalkExists(index, entry, maxDepth);
    assert stop.AtRoot? ==> ReachesRoot(index, entry, maxDepth);
    assert stop.Looped? ==> Breaks(index, entry, maxDepth);
    if ReachesRoot(index, entry, maxDepth) {
      var ws :| BoundedWalk(index, entry, ws, maxDepth) && NextParent(index, ws) == ROOT_ENTRY;
      WalkDecides(index, entry, maxDepth, ws, AtRoot);
    }
    if Breaks(index, entry, maxDepth) {
      var ws :| && BoundedWalk(index, entry, ws, maxDepth) && NextParent(index, ws) != ROOT_ENTRY
                && (maxDepth <= |ws| || NextParent(index, ws) in ws);
      WalkDecides(index, entry, maxDepth, ws, Looped);
    }
  }

  // ------------------------------------------------- depth bound completeness

  /** A walk that truly comes back to an entry it has visited. */
  ghost predicate Revisits(index: Index, entry: nat) {
    exists es ::
      IsWalk(index, entry, es) && NextParent(index, es) != ROOT_ENTRY && NextParent(index, es) in es
  }

  lemma WalkFits(index: Index, entry: nat, es: seq<nat>)
    requires IsWalk(index, entry, es)
    ensures |es| <= |index|
  {
    DistinctFits(es, index.Keys);
  }

  /** The whole climb: under a limit that no walk can reach. */
  function WholeClimb(index: Index, entry: nat): (seq<nat>, Stop)
    requires entry in index
  {
    Climb(index, [entry], |index| + 1)
  }

  // What the whole climb is: a walk, stopped by the index and not by its limit.
  lemma WholeClimbStops(index: Index, entry: nat)
    requires entry in index && entry != ROOT_ENTRY
    ensures var (es, stop) := WholeClimb(index, entry);
            && IsWalk(index, entry, es) && |es| <= |index|
            && forall d: nat :: |es| < d ==> StopAt(index, es, d) == Some(stop)
  {
    var (es, stop) := WholeClimb(index, entry);
    ClimbWalks(index, [entry], |index| + 1);
    WalkFits(index, entry, es);
  }

  /** The limit lets a walk of `len` entries end as it does without a limit:
      the root and a revisit are noticed at the limit, anything else past it. */
  predicate DepthAllows(len: nat, stop: Stop, maxDepth: nat) {
    if stop.AtRoot? || stop.Looped? then len <= Max(1, maxDepth) else len < maxDepth
  }

  // What the depth limit does, at every limit: a climb it allows is answered
  // as without it, any other is cut off and called a cycle, under the names of
  // the first entries met.
  lemma DepthDecides(index: Index, entry: nat, maxDepth: nat)
    requires entry in index && entry != ROOT_ENTRY
    ensures var (es, stop) := WholeClimb(index, entry);
            && (DepthAllows(|es|, stop, maxDepth) ==> Resolved(index, entry, maxDepth) == Render(index, es, stop))
            && (!DepthAllows(|es|, stop, maxDepth) ==>
                  && Max(1, maxDepth) <= |es|
                  && Resolved(index, entry, maxDepth) == CyclePath(Names(index, es[..Max(1, maxDepth)])))
  {
    var (es, stop) := WholeClimb(index, entry);
    WholeClimbStops(index, entry);
    assert StopAt(index, es, |es| + 1) == Some(stop);
    if DepthAllows(|es|, stop, maxDepth) {
      WalkDecides(index, entry, maxDepth, es, stop);
    } else {
      var cut := es[..Max(1, maxDepth)];
      forall i | 0 <= i < |cut| - 1 ensures Link(index, cut[i], cut[i + 1]) {
        assert Link(index, es[i], es[i + 1]);
      }
      if |cut| < |es| {
        assert Link(index, es[|cut| - 1], es[|cut| - 1 + 1]);
      } else {
        assert cut == es;
      }
      WalkDecides(index, entry, maxDepth, cut, Looped);
    }
  }

  // When `cycle` is answered, at every limit: on a true revisit, or on a climb
  // the limit does not allow.
  lemma CycleExactly(index: Index, entry: nat, maxDepth: nat)
    requires entry in index && entry != ROOT_ENTRY
    ensures var (es, stop) := WholeClimb(index, entry);
            && (Revisits(index, entry) <==> stop.Looped?)
            && (Resolved(index, entry, maxDepth).diagnostic == Some(CYCLE)
                <==> Revisits(index, entry) || !DepthAllows(|es|, stop, maxDepth))
  {
    var (es, stop) := WholeClimb(index, entry);
    WholeClimbStops(index, entry);
    assert StopAt(index, es, |es| + 1) == Some(stop);
    DepthDecides(index, entry, maxDepth);
    if Revisits(index, entry) {
      var ws :| IsWalk(index, entry, ws) && NextParent(index, ws) != ROOT_ENTRY && NextParent(index, ws) in ws;
      WalkFits(index, entry, ws);
      ClimbFindsWalk(index, [entry], ws, Looped, |index| + 1);
    }
  }

  // Pigeonhole: past the size of the index the limit plays no part.
  lemma CycleMeansRevisit(index: Index, entry: nat, maxDepth: nat)
    requires entry in index && entry != ROOT_ENTRY
    requires |index| < maxDepth
    ensures Resolved(index, entry, maxDepth).diagnostic == Some(CYCLE) <==> Revisits(index, entry)
  {
    CycleExactly(index, entry, maxDepth);
    WholeClimbStops(index, entry);
  }

  /** A file in a folder of the root. */
  function FileInFolder(): Index {
    map[7 := ResolverNode("f", 8, 0, false, 0), 8 := ResolverNode("d", ROOT_ENTRY, 0, true, 0)]
  }

  // A `cycle` that is none, and the same two entries answered cleanly one level
  // deeper.
  lemma CycleWithoutLoop(maxDepth: nat)
    ensures var index := FileInFolder();
            && !Revisits(index, 7)
            && Resolved(index, 7, maxDepth)
               == if maxDepth < 2 then ResolvedPath(SEP + "$Cycle" + SEP + "f", Some(CYCLE))
                  else ResolvedPath("d" + SEP + "f", None)
  {
    var index := FileInFolder();
    var es := [7, 8];
    assert Link(index, es[0], es[0 + 1]);
    assert IsWalk(index, 7, es);
    assert |index| == 2;
    ClimbFindsWalk(index, [7], es, AtRoot, |index| + 1);
    DepthDecides(index, 7, maxDepth);
    CycleExactly(index, 7, maxDepth);
    assert Names(index, es) == ["f", "d"];
    assert Names(index, es[..1]) == ["f"];
    assert ["f", "d"][1..] == ["d"];
    assert Reverse(["d"]) == Reverse(["d"][1..]) + ["d"];
    assert Reverse(["f", "d"]) == Reverse(["d"]) + ["f"] == ["d", "f"];
    assert Join(SEP, ["d", "f"][1..]) == "f";
    assert Reverse(["f"]) == Reverse(["f"][1..]) + ["f"];
  }

  // ---------------------------------------------------------------- stability

  lemma DeeperKeepsAnswer(index: Index, entry: nat, maxDepth: nat, deeper: nat)
    requires maxDepth <= deeper
    requires Resolved(index, entry, maxDepth).diagnostic != Some(CYCLE)
    ensures Resolved(index, entry, deeper) == Resolved(index, entry, maxDepth)
  {
    if entry in index && entry != ROOT_ENTRY {
      var es, stop := WalkExists(index, entry, maxDepth);
      WalkDecides(index, entry, deeper, es, stop);
    }
  }

  /** The walk from `entry` ends because something is not in the index. */
  predicate LacksSomething(index: Index, entry: nat, maxDepth: nat) {
    entry !in index || (entry != ROOT_ENTRY && Climb(index, [entry], maxDepth).1.Missing?)
  }

  lemma LargerIndexKeepsAnswer(index: Index, larger: Index, entry: nat, maxDepth: nat)
    requires forall e :: e in index ==> e in larger && larger[e] == index[e]
    requires !LacksSomething(index, entry, maxDepth)
    ensures Resolved(larger, entry, maxDepth) == Resolved(index, entry, maxDepth)
  {
    if entry != ROOT_ENTRY {
      ClimbWalks(index, [entry], maxDepth);
      var (es, stop) := Climb(index, [entry], maxDepth);
      assert forall i :: 0 <= i < |es| - 1 ==> Link(index, es[i], es[i + 1]);
      assert IsWalk(larger, entry, es);
      WalkDecides(larger, entry, maxDepth, es, stop);
      assert Names(larger, es) == Names(index, es);
    }
  }

  // And an answer that does rest on a missing entry can change: some larger
  // index resolves the entry cleanly.
  lemma LackingAnswerCanChange(index: Index, entry: nat, maxDepth: nat) returns (larger: Index)
    requires LacksSomething(index, entry, maxDepth)
    ensures forall e :: e in index ==> e in larger && larger[e] == index[e]
    ensures Resolved(index, entry, maxDepth).diagnostic == Some(ORPHAN_PARENT)
    ensures Resolved(larger, entry, maxDepth).diagnostic == None
  {
    if entry !in index {
      larger := index[entry := ResolverNode("", ROOT_ENTRY, 0, false, 0)];
      if entry != ROOT_ENTRY {
        WalkDecides(larger, entry, maxDepth, [entry], AtRoot);
      }
    } else {
      ClimbWalks(index, [entry], maxDepth);
      var (es, stop) := Climb(index, [entry], maxDepth);
      var p := stop.parent;
      larger := index[p := ResolverNode("", ROOT_ENTRY, 0, true, index[es[|es| - 1]].parentSeq)];
      var up := es + [p];
      forall i | 0 <= i < |up| - 1 ensures Link(larger, up[i], up[i + 1]) {
        if i < |es| - 1 { assert Link(index, es[i], es[i + 1]); }
      }
      WalkDecides(larger, entry, maxDepth, up, AtRoot);
    }
  }

  // The last hop is never looked up: whatever the index says about the root
  // entry, or if it says nothing, every other entry resolves alike.
  lemma RootNodeIrrelevant(index: Index, other: Index, entry: nat, maxDepth: nat)
    requires entry != ROOT_ENTRY
    requires index - {ROOT_ENTRY} == other - {ROOT_ENTRY}
    ensures Resolved(index, entry, maxDepth) == Resolved(other, entry, maxDepth)
  {
    assert forall e :: e in index && e != ROOT_ENTRY ==> e in index - {ROOT_ENTRY};
    assert forall e :: e in other && e != ROOT_ENTRY ==> e in other - {ROOT_ENTRY};
    if entry in index {
      var es, stop := WalkExists(index, entry, maxDepth);
      assert forall i :: 0 <= i < |es| - 1 ==> Link(index, es[i], es[i + 1]);
      assert forall i :: 0 <= i < |es| ==> es[i] != ROOT_ENTRY by {
        forall i | 0 <= i < |es| ensures es[i] != ROOT_ENTRY {
          if 0 < i { assert Link(index, es[i - 1], es[i - 1 + 1]); }
        }
      }
      assert forall i :: 0 <= i < |es| ==> es[i] in other && other[es[i]] == index[es[i]];
      assert IsWalk(other, entry, es);
      WalkDecides(other, entry, maxDepth, es, stop);
      assert Names(other, es) == Names(index, es);
    }
  }

  // ------------------------------------------------- composition and inversion

  // A clean entry below a non-root parent: the parent is clean too, and the
  // path is the parent's path with the entry's own name appended.
  lemma PathComposes(index: Index, entry: nat, maxDepth: nat)
    requires entry in index && entry != ROOT_ENTRY
    requires index[entry].parentEntry != ROOT_ENTRY
    requires Resolved(index, entry, maxDepth).diagnostic.None?
    ensures
      var p := index[entry].parentEntry;
      var above := Resolved(index, p, maxDepth);
      && p in index && above.diagnostic.None?
      && Resolved(index, entry, maxDepth).path == above.path + SEP + index[entry].name
  {
    var es, stop := WalkExists(index, entry, maxDepth);
    var p, up := index[entry].parentEntry, es[1..];
    assert Link(index, es[0], es[0 + 1]);
    forall i | 0 <= i < |up| - 1 ensures Link(index, up[i], up[i + 1]) {
      assert Link(index, es[i + 1], es[i + 1 + 1]);
    }
    assert BoundedWalk(index, p, up, maxDepth);
    WalkDecides(index, p, maxDepth, up, AtRoot);
    assert Names(index, es)[1..] == Names(index, up);
    JoinSnoc(SEP, Reverse(Names(index, up)), index[entry].name);
  }

  // The converse step: an entry linked soundly to a clean parent is clean
  // whenever the parent's walk leaves room for one more component.
  lemma CleanExtendsDownward(index: Index, entry: nat, maxDepth: nat)
    requires entry in index && entry != ROOT_ENTRY
    requires Link(index, entry, index[entry].parentEntry)
    requires Resolved(index, index[entry].parentEntry, maxDepth).diagnostic.None?
    ensures Resolved(index, entry, maxDepth).diagnostic.None?
            <==> |Climb(index, [index[entry].parentEntry], maxDepth).0| < Max(1, maxDepth)
  {
    var p := index[entry].parentEntry;
    var up, stop := WalkExists(index, p, maxDepth);
    WalkDecides(index, p, maxDepth, up, stop);
    ClimbFindsWalk(index, [p], up, stop, maxDepth);
    forall j | 0 <= j < |up| ensures up[j] != entry {
      if j < |up| - 1 {
        assert Link(index, up[j], up[j + 1]);
      }
    }
    var es := [entry] + up;
    forall i | 0 <= i < |es| - 1 ensures Link(index, es[i], es[i + 1]) {
      if 0 < i { assert Link(index, up[i - 1], up[i - 1 + 1]); }
    }
    assert IsWalk(index, entry, es);
    if |up| < Max(1, maxDepth) {
      WalkDecides(index, entry, maxDepth, es, AtRoot);
    } else {
      assert |up| == Max(1, maxDepth);
      var cut := es[..|up|];
      forall i | 0 <= i < |cut| - 1 ensures Link(index, cut[i], cut[i + 1]) {
        assert Link(index, es[i], es[i + 1]);
      }
      assert NextParent(index, cut) == up[|up| - 1] by {
        assert Link(index, es[|cut| - 1], es[|cut| - 1 + 1]);
      }
      assert Link(index, es[|cut| - 1], es[|cut| - 1 + 1]);
      WalkDecides(index, entry, maxDepth, cut, Looped);
    }
  }

  // Right below the root, a path is the entry's own name.
  lemma SingleNamePath(index: Index, entry: nat, maxDepth: nat)
    requires entry in index && index[entry].parentEntry == ROOT_ENTRY
    ensures Resolved(index, entry, maxDepth) == ResolvedPath(index[entry].name, None)
  {
    if entry != ROOT_ENTRY {
      WalkDecides(index, entry, maxDepth, [entry], AtRoot);
      assert Names(index, [entry]) == [index[entry].name];
      assert Reverse([index[entry].name]) == [] + [index[entry].name];
    }
  }

  predicate NoSep(s: string) {
    forall i :: 0 <= i < |s| ==> s[i] != SEP[0]
  }

  lemma {:induction false} SplitHead(head: string, rest: string)
    requires NoSep(head)
    ensures Split(head) == [head]
    ensures Split(head + SEP + rest) == [head] + Split(rest)
  {
    var s := head + SEP + rest;
    if head == "" {
      assert s[1..] == rest;
    } else {
      assert s[1..] == head[1..] + SEP + rest;
      SplitHead(head[1..], rest);
      assert [head[0]] + head[1..] == head;
    }
  }

  lemma {:induction false} SplitJoin(parts: seq<string>)
    requires parts != [] && forall i :: 0 <= i < |parts| ==> NoSep(parts[i])
    ensures Split(Join(SEP, parts)) == parts
  {
    SplitHead(parts[0], if |parts| == 1 then "" else Join(SEP, parts[1..]));
    if |parts| > 1 {
      SplitJoin(parts[1..]);
    }
  }

  lemma {:induction false} ReverseAt<T>(s: seq<T>, i: nat)
    requires i < |s|
    ensures Reverse(s)[i] == s[|s| - 1 - i]
  {
    if i < |s| - 1 {
      ReverseAt(s[1..], i);
    }
  }

  // Splitting a clean path gives back the names met on the walk, topmost first.
  lemma CleanPathSplits(index: Index, entry: nat, maxDepth: nat, es: seq<nat>)
    requires entry in index && entry != ROOT_ENTRY
    requires BoundedWalk(index, entry, es, maxDepth) && NextParent(index, es) == ROOT_ENTRY
    requires forall i :: 0 <= i < |es| ==> NoSep(index[es[i]].name)
    ensures
      var parts := Split(Resolved(index, entry, maxDepth).path);
      && |parts| == |es|
      && forall i :: 0 <= i < |es| ==> parts[i] == index[es[|es| - 1 - i]].name
  {
    WalkDecides(index, entry, maxDepth, es, AtRoot);
    var names := Names(index, es);
    forall i | 0 <= i < |es| ensures Reverse(names)[i] == names[|es| - 1 - i] {
      ReverseAt(names, i);
    }
    SplitJoin(Reverse(names));
  }

  function DecimalValue(s: string): nat {
    if s == "" then 0
    else
      var d := s[|s| - 1] as int - '0' as int;
      DecimalValue(s[..|s| - 1]) * 10 + if 0 <= d then d else 0
  }

  lemma {:induction false} DecimalReadsBack(n: nat)
    ensures DecimalValue(Decimal(n)) == n && NoSep(Decimal(n))
  {
    if n < 10 {
      assert Decimal(n) == [] + [Digit(n)];
      assert DecimalValue([]) == 0;
      assert Decimal(n)[..0] == [];
    } else {
      DecimalReadsBack(n / 10);
      assert Decimal(n)[..|Decimal(n)| - 1] == Decimal(n / 10);
    }
  }

  // The number is written in decimal digits, without a leading zero.
  lemma {:induction false} DecimalDigits(n: nat)
    ensures Decimal(n) != "" && (10 <= n ==> Decimal(n)[0] != '0')
    ensures forall i :: 0 <= i < |Decimal(n)| ==> '0' <= Decimal(n)[i] <= '9'
  {
    if 10 <= n {
      DecimalDigits(n / 10);
      if n < 100 {
        assert Decimal(n / 10) == [Digit(n / 10)];
      }
    }
  }

  // What an entry outside the index is answered.
  lemma UnindexedAnswer(index: Index, entry: nat, maxDepth: nat)
    requires entry !in index
    ensures Resolved(index, entry, maxDepth) == ResolvedPath("\\$Orphan\\" + Decimal(entry), Some("orphan-parent"))
    ensures Split(Resolved(index, entry, maxDepth).path) == ["", "$Orphan", Decimal(entry)]
    ensures DecimalValue(Decimal(entry)) == entry
  {
    DecimalReadsBack(entry);
    SplitHead(Decimal(entry), "");
    Split2("$Orphan", Decimal(entry));
  }

  // And the root: its own name, wherever its record says it is.
  lemma RootAnswer(index: Index, maxDepth: nat)
    requires 5 in index
    ensures Resolved(index, 5, maxDepth) == ResolvedPath(index[5].name, None)
  {
  }

  /** The names of the entries walked, the last one first. */
  function TopDown(index: Index, es: seq<nat>): (names: seq<string>)
    requires forall i :: 0 <= i < |es| ==> es[i] in index
    ensures |names| == |es|
  {
    seq(|es|, i requires 0 <= i < |es| => index[es[|es| - 1 - i]].name)
  }

  lemma TopDownIsReversed(index: Index, es: seq<nat>)
    requires forall i :: 0 <= i < |es| ==> es[i] in index
    ensures Reverse(Names(index, es)) == TopDown(index, es)
  {
    forall i | 0 <= i < |es| ensures Reverse(Names(index, es))[i] == TopDown(index, es)[i] {
      ReverseAt(Names(index, es), i);
    }
  }

  // The answer for an entry, in terms of the index alone. Any climb from it over
  // distinct entries, each the current parent of the one before and none the
  // root, within the limit: if the next parent is the root the names are the
  // path; if not, and the limit is reached or that parent was visited, it is a
  // cycle; if not, and that parent is missing or stale, it is an orphan of it.
  lemma AnswersExactly(index: Index, entry: nat, maxDepth: nat, es: seq<nat>)
    requires entry in index && entry != 5
    requires es != [] && es[0] == entry && (|es| == 1 || |es| <= maxDepth)
    requires forall i :: 0 <= i < |es| ==> es[i] in index
    requires forall i, j :: 0 <= i < j < |es| ==> es[i] != es[j]
    requires forall i, j :: 0 <= i && j == i + 1 < |es| ==>
               && es[j] == index[es[i]].parentEntry && es[j] != 5
               && index[es[j]].sequence == index[es[i]].parentSeq
    ensures var r, top, names := Resolved(index, entry, maxDepth), index[es[|es| - 1]], Join("\\", TopDown(index, es));
            var p := top.parentEntry;
            && (p == 5 ==> r == ResolvedPath(names, None))
            && (p != 5 && (maxDepth <= |es| || p in es) ==>
                  r == ResolvedPath("\\$Cycle\\" + names, Some("cycle")))
            && (p != 5 && |es| < maxDepth && p !in es && (p !in index || index[p].sequence != top.parentSeq) ==>
                  r == ResolvedPath("\\$Orphan\\" + Decimal(p) + "\\" + names, Some("orphan-parent")))
  {
    forall i | 0 <= i < |es| - 1 ensures Link(index, es[i], es[i + 1]) {
    }
    assert BoundedWalk(index, entry, es, maxDepth);
    TopDownIsReversed(index, es);
    if StopAt(index, es, maxDepth).Some? {
      WalkDecides(index, entry, maxDepth, es, StopAt(index, es, maxDepth).value);
      SentinelText(Join("\\", TopDown(index, es)), Decimal(index[es[|es| - 1]].parentEntry));
    }
  }

  lemma SentinelText(names: string, number: string)
    ensures SEP + "$Cycle" + SEP + names == "\\$Cycle\\" + names
    ensures SEP + "$Orphan" + SEP + number + SEP + names == "\\$Orphan\\" + number + "\\" + names
  {
  }

  lemma StopMeans(index: Index, es: seq<nat>, maxDepth: nat)
    requires es != [] && es[|es| - 1] in index && StopAt(index, es, maxDepth).Some?
    ensures var p := index[es[|es| - 1]].parentEntry;
            p == 5 || maxDepth <= |es| || p in es || p !in index || index[p].sequence != index[es[|es| - 1]].parentSeq
  {
  }

  // And every indexed entry but the root has such a climb that ends in one of
  // these ways.
  lemma SomeClimbAnswers(index: Index, entry: nat, maxDepth: nat) returns (es: seq<nat>)
    requires entry in index && entry != 5
    ensures es != [] && es[0] == entry && (|es| == 1 || |es| <= maxDepth)
    ensures forall i :: 0 <= i < |es| ==> es[i] in index
    ensures forall i, j :: 0 <= i < j < |es| ==> es[i] != es[j]
    ensures forall i, j :: 0 <= i && j == i + 1 < |es| ==>
              && es[j] == index[es[i]].parentEntry && es[j] != 5
              && index[es[j]].sequence == index[es[i]].parentSeq
    ensures var p := index[es[|es| - 1]].parentEntry;
            p == 5 || maxDepth <= |es| || p in es || p !in index || index[p].sequence != index[es[|es| - 1]].parentSeq
  {
    var stop;
    es, stop := WalkExists(index, entry, maxDepth);
    StopMeans(index, es, maxDepth);
    forall i, j | 0 <= i && j == i + 1 < |es|
      ensures es[j] == index[es[i]].parentEntry && es[j] != 5
      ensures index[es[j]].sequence == index[es[i]].parentSeq
    {
      assert Link(index, es[i], es[i + 1]);
    }
  }

  // An orphan path carries, piece by piece, the sentinel, the entry number that
  // is missing or stale, and the names met below it, topmost first.
  lemma OrphanPathSplits(index: Index, entry: nat, maxDepth: nat, es: seq<nat>, parent: nat)
    requires entry in index && entry != ROOT_ENTRY
    requires BoundedWalk(index, entry, es, maxDepth)
    requires StopAt(index, es, maxDepth) in {Some(Missing(parent)), Some(Stale(parent))}
    requires forall i :: 0 <= i < |es| ==> NoSep(index[es[i]].name)
    ensures Split(Resolved(index, entry, maxDepth).path)
            == ["", "$Orphan", Decimal(parent)] + TopDown(index, es)
    ensures DecimalValue(Decimal(parent)) == parent
  {
    WalkDecides(index, entry, maxDepth, es, StopAt(index, es, maxDepth).value);
    TopDownIsReversed(index, es);
    DecimalReadsBack(parent);
    SentinelSplits("$Orphan", Decimal(parent), TopDown(index, es));
  }

  // A cycle path carries the sentinel and the names met, topmost first.
  lemma CyclePathSplits(index: Index, entry: nat, maxDepth: nat, es: seq<nat>)
    requires entry in index && entry != ROOT_ENTRY
    requires BoundedWalk(index, entry, es, maxDepth) && StopAt(index, es, maxDepth) == Some(Looped)
    requires forall i :: 0 <= i < |es| ==> NoSep(index[es[i]].name)
    ensures Resolved(index, entry, maxDepth).diagnostic == Some("cycle")
    ensures Split(Resolved(index, entry, maxDepth).path) == ["", "$Cycle"] + TopDown(index, es)
  {
    WalkDecides(index, entry, maxDepth, es, Looped);
    TopDownIsReversed(index, es);
    SplitJoin(TopDown(index, es));
    Split2("$Cycle", Join(SEP, TopDown(index, es)));
  }

  lemma Split2(a: string, b: string)
    requires NoSep(a)
    ensures Split(SEP + a + SEP + b) == [""] + ([a] + Split(b))
  {
    SplitHead(a, b);
    SplitHead("", a + SEP + b);
    assert SEP + a + SEP + b == "" + SEP + (a + SEP + b);
  }

  lemma SentinelSplits(sentinel: string, number: string, names: seq<string>)
    requires NoSep(sentinel) && NoSep(number)
    requires names != [] && forall i :: 0 <= i < |names| ==> NoSep(names[i])
    ensures Split(SEP + sentinel + SEP + number + SEP + Join(SEP, names)) == ["", sentinel, number] + names
  {
    SplitJoin(names);
    Split3(sentinel, number, Join(SEP, names));
    assert [""] + ([sentinel] + ([number] + names)) == ["", sentinel, number] + names;
  }

  lemma Split3(a: string, b: string, c: string)
    requires NoSep(a) && NoSep(b)
    ensures Split(SEP + a + SEP + b + SEP + c) == [""] + ([a] + ([b] + Split(c)))
  {
    SplitHead(b, c);
    SplitHead(a, b + SEP + c);
    SplitHead("", a + SEP + (b + SEP + c));
    PathRegroups(a, b, c);
  }

  lemma PathRegroups(a: string, b: string, c: string)
    ensures SEP + a + SEP + b + SEP + c == "" + SEP + (a + SEP + (b + SEP + c))
  {
    assert SEP + a + SEP + b + SEP + c == SEP + a + SEP + (b + SEP + c);
  }
}
