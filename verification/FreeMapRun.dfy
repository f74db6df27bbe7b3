/**
 Whole freemap sessions: any sequence of frees and allocations, any of which may be refused a page.
 */
module FreeMapRun {
  import opened Pages
  import opened RadixTree
  import opened FreeMapPages
  import opened FreeMapSession
  import opened FreeMapTree

  datatype Op = Free(id: u64) | Take(hint: u64)

  /** What an operation did. */
  datatype Event = Freed(id: nat) | Taken(id: nat) | Empty | Refused(error: Error)

  /** The reference: a set of ids. */
  ghost function Step(free: iset<nat>, e: Event): iset<nat> {
    match e
    case Freed(id) => free + iset{id}
    case Taken(id) => free - iset{id}
    case _ => free
  }

  ghost function Replay(free: iset<nat>, events: seq<Event>): iset<nat> {
    if events == [] then free else Step(Replay(free, events[..|events| - 1]), events[|events| - 1])
  }

  /** How many operations were refused. */
  ghost function Refusals(events: seq<Event>): nat {
    if events == [] then 0 else Refusals(events[..|events| - 1]) + if events[|events| - 1].Refused? then 1 else 0
  }

  /** The event is one the set allows: a free adds its id, a take removes the lowest id at
   or above its hint, or finds none (a hint of 2^64 - 1 finds none in any case), and a refusal is the allocator's. */
  ghost predicate Allowed(free: iset<nat>, op: Op, e: Event) {
    match e
    case Freed(id) => op.Free? && op.id == id
    case Taken(id) => op.Take? && LowestFrom(free, op.hint, id)
    case Empty => op.Take? && (op.hint == U64_MAX || NoneFrom(free, op.hint))
    case Refused(error) => error == AllocFailed
  }

  ghost predicate AllAllowed(free: iset<nat>, ops: seq<Op>, events: seq<Event>) {
    |ops| == |events| && forall i: nat | i < |ops| :: Allowed(Replay(free, events[..i]), ops[i], events[i])
  }

  method Apply(tree: FreeMapTree, store: PageStore, op: Op) returns (e: Event)
    requires tree.Valid(store)
    modifies tree, store
    ensures store.asked <= old(store.asked) + 2 * MAX_DEPTH + 1
    ensures store.refusals == old(store.refusals) + if e.Refused? then 1 else 0
    ensures tree.Valid(store) && tree.Kept(store)
    ensures tree.Free(store) == Step(old(tree.Free(store)), e) && Allowed(old(tree.Free(store)), op, e)
  {
    hide Session, FreeIds;
    DepthOk(store.hash, tree.start, store.pages, store.supply, tree.root, tree.depth, tree.pending, tree.owned, true);
    NotOwned(store.hash, tree.start, store.pages, store.supply, tree.root, tree.depth, tree.pending, tree.owned);
    match op {
      case Free(id) =>
        var r := tree.MarkFreeGrowing(store, id);
        e := if r.Ok? then Freed(id) else Refused(r.error);
      case Take(hint) =>
        var r, _ := tree.AllocateFirst(store, hint);
        e := if r.Err? then Refused(r.error) else if r.value.Some? then Taken(r.value.value) else Empty;
    }
  }

  lemma MoreAllowed(free: iset<nat>, ops: seq<Op>, events: seq<Event>, k: nat, e: Event)
    requires k < |ops| && AllAllowed(free, ops[..k], events) && Allowed(Replay(free, events), ops[k], e)
    ensures AllAllowed(free, ops[..k + 1], events + [e]) && Replay(free, events + [e]) == Step(Replay(free, events), e)
    ensures Refusals(events + [e]) == Refusals(events) + if e.Refused? then 1 else 0
  {
    hide Allowed, Step;
    var more := events + [e];
    assert more[..|events|] == events;
    forall i: nat | i < k + 1 ensures Allowed(Replay(free, more[..i]), ops[..k + 1][i], more[i]) {
      assert more[..i] == events[..i];
      if i < k {
        assert ops[..k][i] == ops[..k + 1][i];
      } else {
        assert events[..i] == events;
      }
    }
  }

  /** Over any session the tree stays a faithful set, and the session's page accounting holds throughout. */
  method Run(tree: FreeMapTree, store: PageStore, ops: seq<Op>) returns (events: seq<Event>)
    requires tree.Valid(store)
    modifies tree, store
    ensures tree.Valid(store) && tree.Kept(store)
    ensures AllAllowed(old(tree.Free(store)), ops, events) && store.refusals == old(store.refusals) + Refusals(events)
    ensures tree.Free(store) == Replay(old(tree.Free(store)), events)
  {
    hide Session, FreeIds, Replay, AllAllowed, Allowed, Step, Wrote;
    ghost var free, p0, s0, o0 := tree.Free(store), store.pages, store.supply, tree.owned;
    WroteNone(p0, o0);
    assert o0 + (s0 - s0) == o0;
    events := [];
    NoneYet(free, ops);
    for k := 0 to |ops|
      invariant tree.Valid(store) && tree.Kept(store)
      invariant AllAllowed(free, ops[..k], events) && tree.Free(store) == Replay(free, events)
      invariant store.refusals == old(store.refusals) + Refusals(events)
    {
      ghost var p1, s1, o1 := store.pages, store.supply, tree.owned;
      var e := Apply(tree, store, ops[k]);
      WroteOwned(p0, p1, o0, o1, store.pages, s0, s1, store.supply);
      MoreAllowed(free, ops, events, k, e);
      events := events + [e];
    }
    assert ops[..|ops|] == ops;
  }

  /** An id is free exactly when the last event about it freed it, or there was none and it was free before. */
  lemma {:induction false} LastEvent(free: iset<nat>, events: seq<Event>, id: nat)
    ensures id in Replay(free, events) <==>
            if About(events, id) == 0 then id in free else events[About(events, id) - 1] == Freed(id)
  {
    if events != [] {
      var n := |events| - 1;
      LastEvent(free, events[..n], id);
    }
  }

  /** The length of the run up to its last event about `id`; 0 if there is none. */
  ghost function About(events: seq<Event>, id: nat): (n: nat)
    ensures n <= |events|
    ensures n > 0 ==> events[n - 1] in {Freed(id), Taken(id)}
    ensures forall i | n <= i < |events| :: events[i] !in {Freed(id), Taken(id)}
  {
    if events == [] then 0
    else if events[|events| - 1] in {Freed(id), Taken(id)} then |events|
    else About(events[..|events| - 1], id)
  }

  lemma NoneYet(free: iset<nat>, ops: seq<Op>)
    ensures AllAllowed(free, ops[..0], []) && Replay(free, []) == free && Refusals([]) == 0
  {
  }
}
