/**
 Runs of the membership index. Every operation leaves a version behind (an outer root, its depth and
 the index it stood for); whatever is done later, every version keeps its own index, and what a crash
 may do to the pages a transaction wrote cannot touch the version it started from.
 */
module MembershipHistory {
  import opened Pages
  import opened RadixTree
  import opened MembershipPages
  import opened MembershipModel
  import opened MembershipIndex

  datatype Op = Add(tag: u32, handle: u64) | Drop(tag: u32, handle: u64)

  datatype Version = Version(root: u64, depth: nat, index: map<nat, set<nat>>)

  /** The reference: what an operation does to the index, if it is not refused. */
  ghost function Applied(m: map<nat, set<nat>>, op: Op): map<nat, set<nat>> {
    match op
    case Add(tag, handle) => m[tag := MembersOf(m, tag) + {handle}]
    case Drop(tag, handle) => if handle in MembersOf(m, tag) then WithoutPair(m, tag, handle) else m
  }

  /** The reference over a run: every operation that was not refused, in order. */
  ghost function Replay(m: map<nat, set<nat>>, ops: seq<Op>, done: seq<Result<()>>): map<nat, set<nat>>
    requires |ops| == |done|
  {
    if ops == [] then m
    else
      var n := |ops| - 1;
      var before := Replay(m, ops[..n], done[..n]);
      if done[n].Ok? then Applied(before, ops[n]) else before
  }

  /** After a run a pair is there exactly when the last operation on it that went through added it. */
  lemma {:induction false} LastWord(m: map<nat, set<nat>>, ops: seq<Op>, done: seq<Result<()>>, i: nat)
    requires |ops| == |done| && i < |ops| && done[i].Ok?
    requires forall j | i < j < |ops| && done[j].Ok? :: ops[j].tag != ops[i].tag || ops[j].handle != ops[i].handle
    ensures ops[i].handle in MembersOf(Replay(m, ops, done), ops[i].tag) <==> ops[i].Add?
    decreases |ops|
  {
    var n := |ops| - 1;
    if i < n {
      LastWord(m, ops[..n], done[..n], i);
    }
  }

  /** A pair no operation on which went through is as it was. */
  lemma {:induction false} LeftAlone(m: map<nat, set<nat>>, ops: seq<Op>, done: seq<Result<()>>, tag: nat, handle: nat)
    requires |ops| == |done| && forall j | 0 <= j < |ops| && done[j].Ok? :: ops[j].tag != tag || ops[j].handle != handle
    ensures handle in MembersOf(Replay(m, ops, done), tag) <==> handle in MembersOf(m, tag)
    decreases |ops|
  {
    if ops != [] {
      LeftAlone(m, ops[..|ops| - 1], done[..|ops| - 1], tag, handle);
    }
  }

  /** A run leaves no tag without handles. */
  lemma {:induction false} NoEmptyTag(m: map<nat, set<nat>>, ops: seq<Op>, done: seq<Result<()>>)
    requires |ops| == |done| && forall tag | tag in m :: m[tag] != {}
    ensures forall tag | tag in Replay(m, ops, done) :: Replay(m, ops, done)[tag] != {}
    decreases |ops|
  {
    if ops != [] {
      NoEmptyTag(m, ops[..|ops| - 1], done[..|ops| - 1]);
    }
  }

  /** The version is there and still means what it meant. */
  ghost predicate Alive(pages: map<nat, Image>, v: Version) {
    ValidAt(pages, v.root, v.depth) && IndexOf(pages, v.root, v.depth) == v.index
  }

  /** Each version follows from the one before it: the next operation was applied, or the allocator refused it a page. */
  ghost predicate Follows(versions: seq<Version>, ops: seq<Op>, done: seq<Result<()>>) {
    && |versions| == |ops| + 1 == |done| + 1
    && forall i: nat | i < |ops| ::
         && (done[i].Ok? || done[i] == Err(AllocFailed))
         && versions[i + 1].index == if done[i].Ok? then Applied(versions[i].index, ops[i]) else versions[i].index
  }

  lemma {:induction false} FollowsReplay(versions: seq<Version>, ops: seq<Op>, done: seq<Result<()>>)
    requires Follows(versions, ops, done)
    ensures |versions| == |ops| + 1 && |done| == |ops|
    ensures versions[|ops|].index == Replay(versions[0].index, ops, done)
    ensures forall i | 0 <= i < |done| :: done[i].Ok? || done[i] == Err(AllocFailed)
    decreases |ops|
  {
    hide Applied;
    if ops != [] {
      var n := |ops| - 1;
      FollowsReplay(versions[..|ops|], ops[..n], done[..n]);
    }
  }

  /** Every version is alive and lies within the pages `within`. */
  ghost predicate AllAlive(pages: map<nat, Image>, versions: seq<Version>, within: set<nat>) {
    forall i: nat | i < |versions| ::
      Alive(pages, versions[i]) && OccupiesOf(pages, versions[i].root, versions[i].depth) <= within
  }

  /** What one operation does: a new version, or the old one after a refusal. */
  method Apply(store: PageStore, index: MembershipIndex, root: u64, op: Op) returns (newRoot: u64, r: Result<()>, freed: seq<nat>)
    requires Ready(store.pages, store.supply, root, index.outerDepth) && index.outerDepth <= MAX_DEPTH && SmallIds(store.supply)
    modifies store, index
    ensures store.asked <= old(store.asked) + 6 * MAX_DEPTH + 4
    ensures store.refusals == old(store.refusals) + if r.Err? then 1 else 0
    ensures store.supply <= old(store.supply) && Wrote(old(store.pages), store.pages, old(store.supply) - store.supply)
    ensures ValidAt(store.pages, newRoot, index.outerDepth) && index.outerDepth <= MAX_DEPTH
    ensures OccupiesOf(store.pages, newRoot, index.outerDepth)
         <= old(OccupiesOf(store.pages, root, index.outerDepth)) + (old(store.supply) - store.supply)
    ensures IndexOf(store.pages, newRoot, index.outerDepth)
         == if r.Ok? then Applied(old(IndexOf(store.pages, root, index.outerDepth)), op) else old(IndexOf(store.pages, root, index.outerDepth))
    ensures r.Err? ==> r.error == AllocFailed && newRoot == root && index.outerDepth == old(index.outerDepth) && freed == []
    ensures r.Ok? ==> Conserved(old(OccupiesOf(store.pages, root, index.outerDepth)), old(store.supply) - store.supply,
                                OccupiesOf(store.pages, newRoot, index.outerDepth), freed)
    ensures r.Err? ==> OccupiesOf(store.pages, newRoot, index.outerDepth) == old(OccupiesOf(store.pages, root, index.outerDepth))
  {
    hide Valid, Index, Occupies, Wrote, Nodes, WithoutPair;
    ghost var p0, s0, d0 := store.pages, store.supply, index.outerDepth;
    match op {
      case Add(tag, handle) =>
        var ins, f := index.Insert(store, root, tag, handle);
        IndexPersists(p0, store.pages, s0, store.supply, root, d0);
        if ins.Err? {
          return root, Err(ins.error), [];
        }
        IdInRange(store.pages, ins.value, index.outerDepth);
        return ins.value, Ok(()), f;
      case Drop(tag, handle) =>
        var del, f := index.Remove(store, root, tag, handle);
        IndexPersists(p0, store.pages, s0, store.supply, root, d0);
        if del.Err? {
          return root, Err(del.error), [];
        }
        if !del.value.1 {
          assert s0 - s0 == {};
          assert Elems([]) == {};
          return root, Ok(()), [];
        }
        IdInRange(store.pages, del.value.0, index.outerDepth);
        return del.value.0, Ok(()), f;
    }
  }

  lemma IdInRange(pages: map<nat, Image>, root: nat, depth: nat)
    requires ValidAt(pages, root, depth) && root != PAGE_ID_NONE
    ensures root <= U64_MAX && depth <= MAX_DEPTH
  {
  }

  lemma StillAlive(p0: map<nat, Image>, p1: map<nat, Image>, s0: set<nat>, s1: set<nat>, versions: seq<Version>, within: set<nat>)
    requires AllAlive(p0, versions, within) && s1 <= s0 && Wrote(p0, p1, s0 - s1) && s0 !! within
    ensures AllAlive(p1, versions, within)
  {
    hide ValidAt, IndexOf, OccupiesOf, Wrote;
    forall i: nat | i < |versions|
      ensures Alive(p1, versions[i]) && OccupiesOf(p1, versions[i].root, versions[i].depth) <= within
    {
      assert Alive(p0, versions[i]);
      IndexPersists(p0, p1, s0, s1, versions[i].root, versions[i].depth);
    }
  }

  lemma MoreAlive(pages: map<nat, Image>, versions: seq<Version>, v: Version, within: set<nat>, more: set<nat>)
    requires AllAlive(pages, versions, within) && within <= more && Alive(pages, v) && OccupiesOf(pages, v.root, v.depth) <= more
    ensures AllAlive(pages, versions + [v], more)
  {
    hide Alive, OccupiesOf;
    var all := versions + [v];
    forall i: nat | i < |all| ensures Alive(pages, all[i]) && OccupiesOf(pages, all[i].root, all[i].depth) <= more {
      if i < |versions| {
        assert all[i] == versions[i];
      }
    }
  }

  lemma FollowsMore(versions: seq<Version>, ops: seq<Op>, done: seq<Result<()>>, k: nat, v: Version, r: Result<()>)
    requires k < |ops| && Follows(versions, ops[..k], done) && (r.Ok? || r == Err(AllocFailed))
    requires v.index == if r.Ok? then Applied(versions[k].index, ops[k]) else versions[k].index
    ensures Follows(versions + [v], ops[..k + 1], done + [r])
  {
    hide Applied;
    var all, results := versions + [v], done + [r];
    forall i: nat | i < k + 1
      ensures results[i].Ok? || results[i] == Err(AllocFailed)
      ensures all[i + 1].index == if results[i].Ok? then Applied(all[i].index, ops[..k + 1][i]) else all[i].index
    {
      assert ops[..k + 1][i] == ops[i];
      if i < k {
        assert ops[..k][i] == ops[i];
        assert all[i + 1] == versions[i + 1] && all[i] == versions[i] && results[i] == done[i];
      }
    }
  }

  /**
   Any sequence of additions and removals, any of which the allocator may refuse. Every version ever
   produced still stands for its own index at the end; every page is accounted for; and on any disk
   that differs from the starting one only in pages the run was handed the starting version still
   stands for its index.
   */
  method Run(store: PageStore, index: MembershipIndex, root: u64, ops: seq<Op>)
    returns (newRoot: u64, done: seq<Result<()>>, freed: seq<nat>, ghost versions: seq<Version>, ghost lost: set<nat>)
    requires Ready(store.pages, store.supply, root, index.outerDepth) && index.outerDepth <= MAX_DEPTH && SmallIds(store.supply)
    modifies store, index
    ensures store.refusals == old(store.refusals) + Failures(done)
    ensures store.supply <= old(store.supply) && Wrote(old(store.pages), store.pages, old(store.supply) - store.supply)
    ensures Follows(versions, ops, done)
    ensures versions[0] == Version(root, old(index.outerDepth), old(IndexOf(store.pages, root, index.outerDepth)))
    ensures versions[|ops|] == Version(newRoot, index.outerDepth, IndexOf(store.pages, newRoot, index.outerDepth))
    ensures forall i: nat | i < |versions| :: Alive(store.pages, versions[i])
    ensures OccupiesOf(store.pages, newRoot, index.outerDepth)
         <= old(OccupiesOf(store.pages, root, index.outerDepth)) + (old(store.supply) - store.supply)
    ensures Accounted(old(OccupiesOf(store.pages, root, index.outerDepth)), old(store.supply) - store.supply,
                      OccupiesOf(store.pages, newRoot, index.outerDepth), freed, lost)
    ensures forall disk: map<nat, Image> | Wrote(old(store.pages), disk, old(store.supply) - store.supply) :: Alive(disk, versions[0])
  {
    hide ValidAt, IndexOf, OccupiesOf, Wrote, Applied, Follows, AllAlive, Accounted, Conserved;
    ghost var p0, s0, d0 := store.pages, store.supply, index.outerDepth;
    ghost var occ := OccupiesOf(p0, root, d0);
    ghost var within := occ;
    assert s0 - s0 == {};
    WroteNone(p0, {});
    versions := [Version(root, d0, IndexOf(p0, root, d0))];
    lost := {};
    newRoot, done, freed := root, [], [];
    Begun(p0, versions, occ, ops);
    for k := 0 to |ops|
      invariant |versions| == k + 1 && versions[0] == Version(root, d0, IndexOf(p0, root, d0)) && index.outerDepth <= MAX_DEPTH
      invariant store.supply <= s0 && within == occ + (s0 - store.supply) && Wrote(p0, store.pages, s0 - store.supply)
      invariant AllAlive(store.pages, versions, within) && Follows(versions, ops[..k], done)
      invariant store.refusals == old(store.refusals) + Failures(done)
      invariant versions[k] == Version(newRoot, index.outerDepth, IndexOf(store.pages, newRoot, index.outerDepth))
      invariant Accounted(occ, s0 - store.supply, OccupiesOf(store.pages, newRoot, index.outerDepth), freed, lost)
    {
      ghost var p1, s1, r1, d1 := store.pages, store.supply, newRoot, index.outerDepth;
      LastAlive(p1, versions, within, k);
      assert s1 !! within;
      var r: Result<()>, f: seq<nat>;
      newRoot, r, f := Apply(store, index, newRoot, ops[k]);
      ghost var drawn := s1 - store.supply;
      assert s0 - store.supply == (s0 - s1) + drawn;
      WroteTrans(p0, p1, store.pages, s0 - s1, drawn, s0 - store.supply);
      StillAlive(p1, store.pages, s1, store.supply, versions, within);
      ghost var v := Version(newRoot, index.outerDepth, IndexOf(store.pages, newRoot, index.outerDepth));
      MoreAlive(store.pages, versions, v, within, within + drawn);
      FollowsMore(versions, ops, done, k, v, r);
      AccountedMore(occ, s0 - s1, OccupiesOf(p1, r1, d1), freed, lost, drawn, OccupiesOf(store.pages, newRoot, index.outerDepth), f, r.Ok?);
      versions := versions + [v];
      FailuresMore(done, r);
      done := done + [r];
      lost := if r.Ok? then lost else lost + drawn;
      freed := freed + f;
      within := within + drawn;
    }
    assert ops[..|ops|] == ops;
    LastAlive(store.pages, versions, within, |ops|);
    Finished(store.pages, versions, within, ops, done);
    forall disk: map<nat, Image> | Wrote(p0, disk, s0 - store.supply) ensures Alive(disk, versions[0]) {
      IndexPersists(p0, disk, s0, store.supply, root, d0);
    }
  }

  lemma Begun(pages: map<nat, Image>, versions: seq<Version>, occ: set<nat>, ops: seq<Op>)
    requires |versions| == 1 && Alive(pages, versions[0]) && occ == OccupiesOf(pages, versions[0].root, versions[0].depth)
    ensures AllAlive(pages, versions, occ) && Follows(versions, ops[..0], []) && Accounted(occ, {}, occ, [], {})
  {
    hide Alive, OccupiesOf;
    assert Elems([]) == {};
  }

  lemma LastAlive(pages: map<nat, Image>, versions: seq<Version>, within: set<nat>, k: nat)
    requires AllAlive(pages, versions, within) && k < |versions|
    ensures ValidAt(pages, versions[k].root, versions[k].depth) && OccupiesOf(pages, versions[k].root, versions[k].depth) <= within
  {
    hide ValidAt, OccupiesOf, IndexOf;
    assert Alive(pages, versions[k]);
  }

  lemma Finished(pages: map<nat, Image>, versions: seq<Version>, within: set<nat>, ops: seq<Op>, done: seq<Result<()>>)
    requires AllAlive(pages, versions, within) && Follows(versions, ops, done)
    ensures forall i: nat | i < |versions| :: Alive(pages, versions[i])
    ensures |versions| == |ops| + 1
  {
    hide Alive, OccupiesOf;
  }
}
