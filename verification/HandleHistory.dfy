/**
 Runs of the handle table. Every operation leaves a version behind (a root, its depth and the map
 it stood for); whatever is done later, every version keeps its own map, and what a crash may do to
 the pages a transaction wrote cannot touch the version it started from.
 */
module HandleHistory {
  import opened Pages
  import opened RadixTree
  import opened HandlePages
  import opened HandleTable

  datatype Op = Put(handle: u64, entry: HandleEntry) | Drop(handle: u64)

  datatype Version = Version(root: nat, depth: nat, contents: map<nat, HandleEntry>)

  /** The reference: what an operation does to the map, if it is not refused. */
  ghost function Applied(m: map<nat, HandleEntry>, op: Op): map<nat, HandleEntry> {
    match op
    case Put(handle, entry) => Bind(m, handle, entry)
    case Drop(handle) => m - {handle}
  }

  /** The reference over a run: every operation that was not refused, in order. */
  ghost function Replay(m: map<nat, HandleEntry>, ops: seq<Op>, done: seq<Result<()>>): map<nat, HandleEntry>
    requires |ops| == |done|
  {
    if ops == [] then m
    else
      var n := |ops| - 1;
      var before := Replay(m, ops[..n], done[..n]);
      if done[n].Ok? then Applied(before, ops[n]) else before
  }

  /** After a run a handle is as the last operation on it that went through left it: bound by a live put, unbound by a drop. */
  lemma {:induction false} LastWord(m: map<nat, HandleEntry>, ops: seq<Op>, done: seq<Result<()>>, i: nat)
    requires |ops| == |done| && i < |ops| && done[i].Ok?
    requires forall j | i < j < |ops| && done[j].Ok? :: ops[j].handle != ops[i].handle
    ensures var end, k := Replay(m, ops, done), ops[i].handle;
            && (k in end <==> ops[i].Put? && ops[i].entry.flags != Deleted)
            && (k in end ==> ops[i].Put? && end[k] == ops[i].entry)
    decreases |ops|
  {
    var n := |ops| - 1;
    if i < n {
      LastWord(m, ops[..n], done[..n], i);
    }
  }

  /** A handle no operation on which went through is as it was. */
  lemma {:induction false} LeftAlone(m: map<nat, HandleEntry>, ops: seq<Op>, done: seq<Result<()>>, k: nat)
    requires |ops| == |done| && forall j | 0 <= j < |ops| && done[j].Ok? :: ops[j].handle != k
    ensures k in Replay(m, ops, done) <==> k in m
    ensures k in m ==> Replay(m, ops, done)[k] == m[k]
    decreases |ops|
  {
    if ops != [] {
      LeftAlone(m, ops[..|ops| - 1], done[..|ops| - 1], k);
    }
  }

  /** The version is there and still means what it meant. */
  ghost predicate Alive(pages: map<nat, Image>, v: Version) {
    Valid(pages, v.root, v.depth) && Map(pages, v.root, v.depth) == v.contents
  }

  /** Each version follows from the one before it: the next operation was applied, or the allocator refused it a page. */
  ghost predicate Follows(versions: seq<Version>, ops: seq<Op>, done: seq<Result<()>>) {
    && |versions| == |ops| + 1 == |done| + 1
    && forall i: nat | i < |ops| ::
         && (done[i].Ok? || done[i] == Err(AllocFailed))
         && versions[i + 1].contents == if done[i].Ok? then Applied(versions[i].contents, ops[i]) else versions[i].contents
  }

  lemma {:induction false} FollowsReplay(versions: seq<Version>, ops: seq<Op>, done: seq<Result<()>>)
    requires Follows(versions, ops, done)
    ensures |versions| == |ops| + 1 && |done| == |ops|
    ensures versions[|ops|].contents == Replay(versions[0].contents, ops, done)
    ensures forall i | 0 <= i < |done| :: done[i].Ok? || done[i] == Err(AllocFailed)
    decreases |ops|
  {
    hide Applied;
    if ops != [] {
      var n := |ops| - 1;
      FollowsReplay(versions[..|ops|], ops[..n], done[..n]);
    }
  }

  /** Every version is alive and lies within the pages `within`. */
  ghost predicate AllAlive(pages: map<nat, Image>, versions: seq<Version>, within: set<nat>) {
    forall i: nat | i < |versions| ::
      Alive(pages, versions[i]) && Occupies(pages, versions[i].root, versions[i].depth) <= within
  }

  /** What one operation does: a new version, or the old one after a refusal. */
  method Apply(store: PageStore, table: HandleTable, root: nat, op: Op) returns (newRoot: nat, r: Result<()>, freed: seq<nat>)
    requires Valid(store.pages, root, table.depth) && GoodSupply(store.supply, Occupies(store.pages, root, table.depth))
    modifies store, table
    ensures store.asked <= old(store.asked) + 3 * MAX_DEPTH + 1
    ensures store.refusals == old(store.refusals) + if r.Err? then 1 else 0
    ensures store.supply <= old(store.supply) && Wrote(old(store.pages), store.pages, old(store.supply) - store.supply)
    ensures Valid(store.pages, newRoot, table.depth)
    ensures Occupies(store.pages, newRoot, table.depth) <= old(Occupies(store.pages, root, table.depth)) + (old(store.supply) - store.supply)
    ensures Map(store.pages, newRoot, table.depth)
         == if r.Ok? then Applied(old(Map(store.pages, root, table.depth)), op) else old(Map(store.pages, root, table.depth))
    ensures r.Err? ==> r.error == AllocFailed && newRoot == root && table.depth == old(table.depth) && freed == []
    ensures r.Ok? ==> Conserved(old(Occupies(store.pages, root, table.depth)), old(store.supply) - store.supply,
                             Occupies(store.pages, newRoot, table.depth), freed)
    ensures r.Err? ==> Occupies(store.pages, newRoot, table.depth) == old(Occupies(store.pages, root, table.depth))
  {
    hide Valid, Map, Occupies, Wrote, GoodSupply;
    ghost var p0, s0, d0 := store.pages, store.supply, table.depth;
    SupplyApart(s0, Occupies(p0, root, d0));
    match op {
      case Put(handle, entry) =>
        var ins, f := table.Insert(store, root, handle, entry);
        Persists(p0, store.pages, s0 - store.supply, root, d0);
        if ins.Err? {
          return root, Err(ins.error), [];
        }
        return ins.value, Ok(()), f;
      case Drop(handle) =>
        NotNone(p0, root, d0);
        var del, f := table.Delete(store, root, handle);
        Persists(p0, store.pages, s0 - store.supply, root, d0);
        if del.Err? {
          return root, Err(del.error), [];
        }
        NothingFreed(Occupies(p0, root, d0), s0);
        return del.value.0, Ok(()), f;
    }
  }

  lemma SupplyApart(supply: set<nat>, keep: set<nat>)
    requires GoodSupply(supply, keep)
    ensures supply !! keep
  {
  }

  lemma NotNone(pages: map<nat, Image>, root: nat, depth: nat)
    requires Valid(pages, root, depth)
    ensures root < PAGE_ID_NONE && depth <= MAX_DEPTH
  {
  }

  lemma NothingFreed(before: set<nat>, supply: set<nat>)
    ensures Conserved(before, supply - supply, before, [])
  {
    assert Elems([]) == {};
  }

  /** Writing pages that no version uses leaves them all alive. */
  lemma StillAlive(p0: map<nat, Image>, p1: map<nat, Image>, A: set<nat>, versions: seq<Version>, within: set<nat>)
    requires AllAlive(p0, versions, within) && Wrote(p0, p1, A) && A !! within
    ensures AllAlive(p1, versions, within)
  {
    hide Valid, Map, Occupies, Wrote;
    forall i: nat | i < |versions|
      ensures Alive(p1, versions[i]) && Occupies(p1, versions[i].root, versions[i].depth) <= within
    {
      assert Alive(p0, versions[i]);
      Persists(p0, p1, A, versions[i].root, versions[i].depth);
    }
  }

  lemma MoreAlive(pages: map<nat, Image>, versions: seq<Version>, v: Version, within: set<nat>, more: set<nat>)
    requires AllAlive(pages, versions, within) && within <= more && Alive(pages, v) && Occupies(pages, v.root, v.depth) <= more
    ensures AllAlive(pages, versions + [v], more)
  {
    hide Alive, Occupies;
    var all := versions + [v];
    forall i: nat | i < |all| ensures Alive(pages, all[i]) && Occupies(pages, all[i].root, all[i].depth) <= more {
      if i < |versions| {
        assert all[i] == versions[i];
      }
    }
  }

  lemma FollowsMore(versions: seq<Version>, ops: seq<Op>, done: seq<Result<()>>, k: nat, v: Version, r: Result<()>)
    requires k < |ops| && Follows(versions, ops[..k], done) && (r.Ok? || r == Err(AllocFailed))
    requires v.contents == if r.Ok? then Applied(versions[k].contents, ops[k]) else versions[k].contents
    ensures Follows(versions + [v], ops[..k + 1], done + [r])
  {
    hide Applied;
    var all, results := versions + [v], done + [r];
    forall i: nat | i < k + 1
      ensures results[i].Ok? || results[i] == Err(AllocFailed)
      ensures all[i + 1].contents == if results[i].Ok? then Applied(all[i].contents, ops[..k + 1][i]) else all[i].contents
    {
      assert ops[..k + 1][i] == ops[i];
      if i < k {
        assert ops[..k][i] == ops[i];
        assert all[i + 1] == versions[i + 1] && all[i] == versions[i] && results[i] == done[i];
      }
    }
  }

  /**
   Any sequence of inserts and deletes, any of which the allocator may refuse. Every version ever
   produced still stands for its own map at the end; every page is accounted for; and on any disk
   that differs from the starting one only in pages the run was handed (a crash at any point of
   writing them out, in any order, torn or not) the starting version still stands for its map.
   */
  method Run(store: PageStore, table: HandleTable, root: nat, ops: seq<Op>)
    returns (newRoot: nat, done: seq<Result<()>>, freed: seq<nat>, ghost versions: seq<Version>, ghost lost: set<nat>)
    requires Valid(store.pages, root, table.depth) && GoodSupply(store.supply, Occupies(store.pages, root, table.depth))
    modifies store, table
    ensures store.refusals == old(store.refusals) + Failures(done)
    ensures store.supply <= old(store.supply) && Wrote(old(store.pages), store.pages, old(store.supply) - store.supply)
    ensures Follows(versions, ops, done)
    ensures versions[0] == Version(root, old(table.depth), old(Map(store.pages, root, table.depth)))
    ensures versions[|ops|] == Version(newRoot, table.depth, Map(store.pages, newRoot, table.depth))
    ensures forall i: nat | i < |versions| :: Alive(store.pages, versions[i])
    ensures Occupies(store.pages, newRoot, table.depth) <= old(Occupies(store.pages, root, table.depth)) + (old(store.supply) - store.supply)
    ensures Accounted(old(Occupies(store.pages, root, table.depth)), old(store.supply) - store.supply,
                      Occupies(store.pages, newRoot, table.depth), freed, lost)
    ensures forall disk: map<nat, Image> | Wrote(old(store.pages), disk, old(store.supply) - store.supply) :: Alive(disk, versions[0])
  {
    hide Valid, Map, Occupies, Wrote, Applied, GoodSupply, Follows, AllAlive, Accounted, Conserved;
    ghost var p0, s0, d0 := store.pages, store.supply, table.depth;
    ghost var occ := Occupies(p0, root, d0);
    ghost var within := occ;
    assert s0 - s0 == {};
    WroteNone(p0, {});
    SupplyApart(s0, occ);
    versions := [Version(root, d0, Map(p0, root, d0))];
    lost := {};
    newRoot, done, freed := root, [], [];
    Begun(p0, versions, occ, ops);
    for k := 0 to |ops|
      invariant |versions| == k + 1 && versions[0] == Version(root, d0, Map(p0, root, d0))
      invariant store.supply <= s0 && within == occ + (s0 - store.supply) && Wrote(p0, store.pages, s0 - store.supply)
      invariant AllAlive(store.pages, versions, within) && Follows(versions, ops[..k], done)
      invariant store.refusals == old(store.refusals) + Failures(done)
      invariant versions[k] == Version(newRoot, table.depth, Map(store.pages, newRoot, table.depth))
      invariant Accounted(occ, s0 - store.supply, Occupies(store.pages, newRoot, table.depth), freed, lost)
    {
      ghost var p1, s1, r1, d1 := store.pages, store.supply, newRoot, table.depth;
      LastAlive(p1, versions, within, k);
      SupplyLeft(s0, s1, occ, Occupies(p1, r1, d1), within);
      var r: Result<()>, f: seq<nat>;
      newRoot, r, f := Apply(store, table, newRoot, ops[k]);
      ghost var drawn := s1 - store.supply;
      assert s0 - store.supply == (s0 - s1) + drawn;
      WroteTrans(p0, p1, store.pages, s0 - s1, drawn, s0 - store.supply);
      StillAlive(p1, store.pages, drawn, versions, within);
      MoreAlive(store.pages, versions, Version(newRoot, table.depth, Map(store.pages, newRoot, table.depth)), within, within + drawn);
      FollowsMore(versions, ops, done, k, Version(newRoot, table.depth, Map(store.pages, newRoot, table.depth)), r);
      AccountedMore(occ, s0 - s1, Occupies(p1, r1, d1), freed, lost, drawn, Occupies(store.pages, newRoot, table.depth), f, r.Ok?);
      versions := versions + [Version(newRoot, table.depth, Map(store.pages, newRoot, table.depth))];
      FailuresMore(done, r);
      done := done + [r];
      lost := if r.Ok? then lost else lost + drawn;
      freed := freed + f;
      within := within + drawn;
    }
    assert ops[..|ops|] == ops;
    LastAlive(store.pages, versions, within, |ops|);
    Finished(store.pages, versions, within, ops, done);
    forall disk: map<nat, Image> | Wrote(p0, disk, s0 - store.supply) ensures Alive(disk, versions[0]) {
      Persists(p0, disk, s0 - store.supply, root, d0);
    }
  }

  lemma Begun(pages: map<nat, Image>, versions: seq<Version>, occ: set<nat>, ops: seq<Op>)
    requires |versions| == 1 && Alive(pages, versions[0]) && occ == Occupies(pages, versions[0].root, versions[0].depth)
    ensures AllAlive(pages, versions, occ) && Follows(versions, ops[..0], []) && Accounted(occ, {}, occ, [], {})
  {
    hide Alive, Occupies;
    assert Elems([]) == {};
  }

  lemma LastAlive(pages: map<nat, Image>, versions: seq<Version>, within: set<nat>, k: nat)
    requires AllAlive(pages, versions, within) && k < |versions|
    ensures Valid(pages, versions[k].root, versions[k].depth) && Occupies(pages, versions[k].root, versions[k].depth) <= within
  {
    hide Valid, Occupies, Map;
    assert Alive(pages, versions[k]);
  }

  lemma SupplyLeft(s0: set<nat>, s1: set<nat>, occ: set<nat>, now: set<nat>, within: set<nat>)
    requires GoodSupply(s0, occ) && s1 <= s0 && within == occ + (s0 - s1) && now <= within
    ensures GoodSupply(s1, now) && s1 !! within
  {
  }

  lemma Finished(pages: map<nat, Image>, versions: seq<Version>, within: set<nat>, ops: seq<Op>, done: seq<Result<()>>)
    requires AllAlive(pages, versions, within) && Follows(versions, ops, done)
    ensures forall i: nat | i < |versions| :: Alive(pages, versions[i])
    ensures |versions| == |ops| + 1
  {
    hide Alive, Occupies;
  }
}
