/**
 RadixU64: the copy-on-write radix from u64 keys to non-zero u64 values that the membership
 index uses twice. Unlike the handle table it checks every page's type against its level
 before using it, so its operations are defined on any pages at all: what they promise of a
 well-formed tree is guarded by `Ready`, and what they promise always is not.
 */
module RadixU64 {
  import opened Pages
  import opened RadixTree
  import opened RadixItems
  import opened MembershipPages

  ghost predicate IdsOk(supply: set<nat>) {
    forall id | id in supply :: 0 < id < PAGE_ID_NONE
  }

  /** A well-formed tree that the allocator stays clear of. */
  ghost predicate Ready(pages: map<nat, Image>, supply: set<nat>, page: nat, level: nat) {
    0 < page && Tree(SHAPE, Nodes(pages), page, level) && supply !! Reach(Nodes(pages), page, level)
  }

  /** Every page offered for reuse was drawn by this call or is a membership page. */
  ghost predicate FreedTyped(p0: map<nat, Image>, drawn: set<nat>, freed: seq<nat>) {
    forall q | q in freed :: q in drawn || (q in p0 && IsNode(p0[q]))
  }

  /** A mutation that rebuilt the tree with `v` at `key`. */
  ghost predicate Rebuilt(hash: Hash, p0: map<nat, Image>, s0: set<nat>, page: nat, l0: nat, key: nat, v: nat,
                          p1: map<nat, Image>, s1: set<nat>, q: nat, l1: nat, freed: seq<nat>)
  {
    && Built(SHAPE, Nodes(p0), page, l0, Nodes(p1), q, l1, s0 - s1, freed)
    && PutAt(SHAPE, Nodes(p0), page, l0, Nodes(p1), q, l1, key, v)
    && AllStamped(hash, p1, s0 - s1)
  }

  lemma FreedTypedStep(p0: map<nat, Image>, pm: map<nat, Image>, A: set<nat>, B: set<nat>, all: set<nat>,
                       fc: seq<nat>, page: nat, freed: seq<nat>)
    requires Wrote(p0, pm, A) && FreedTyped(pm, B, fc) && A + B <= all
    requires page in all || (page in p0 && IsNode(p0[page]))
    requires forall q | q in freed :: q in fc || q == page
    ensures FreedTyped(p0, all, freed)
  {
  }

  /** An interior page copied to `n`, with a child to descend into at slot `i`: the old one, or a new empty one. */
  ghost predicate Opened(hash: Hash, p0: map<nat, Image>, s0: set<nat>, page: nat, level: nat, i: nat, n: nat,
                         pm: map<nat, Image>, sm: set<nat>, child: nat)
    requires level > 0 && i < FANOUT
  {
    && page in p0 && n in pm && pm[n] == p0[page] && sm <= s0 && Wrote(p0, pm, s0 - sm)
    && page in Nodes(p0) && Nodes(p0)[page].Interior? && i < |Nodes(p0)[page].children|
    && Prepared(SHAPE, Nodes(p0), s0, page, level, i, n, Nodes(pm), sm, child)
    && AllStamped(hash, pm, s0 - sm - {n})
  }

  lemma ChildOpened(hash: Hash, p0: map<nat, Image>, s0: set<nat>, page: nat, level: nat, i: nat, n: nat,
                    pm: map<nat, Image>, sm: set<nat>, child: nat)
    requires 0 < level && i < FANOUT && Ready(p0, s0, page, level) && IdsOk(s0) && n in s0 && sm <= s0 && Wrote(p0, pm, s0 - sm)
    requires page in p0 && n in pm && pm[n] == if n == page then Zeros() else p0[page]
    requires if ReadSlot(pm[n], i) != 0 then child == ReadSlot(pm[n], i) && sm == s0 - {n}
             else child in s0 - {n} && sm == s0 - {n} - {child} && child in pm && pm[child] == Stamp(hash, NewPage(TypeAt(level - 1)))
    ensures Opened(hash, p0, s0, page, level, i, n, pm, sm, child) && Ready(pm, sm, child, level - 1)
  {
    hide Tree, Reach, Get, Stamp, Stamped, WriteSlot, ReadSlot, NewPage, Nodes, Wrote, EmptyNode, Slots;
    RootPage(p0, page, level);
    LinkedNodes(hash, p0, page, level, i, 0, p0, n);
    NodesWrote(p0, pm, s0 - sm);
    if ReadSlot(pm[n], i) == 0 {
      NewPageNode(hash, pm, child, level - 1);
      assert s0 - sm - {n} == {child};
    } else {
      assert s0 - sm - {n} == {};
    }
    BeforeDescent(SHAPE, Nodes(p0), s0, page, level, i, n, Nodes(pm), sm, child);
  }

  /** One level of an insertion: the rebuilt child linked into the copy. */
  lemma LevelRebuilt(hash: Hash, p0: map<nat, Image>, s0: set<nat>, page: nat, level: nat, key: nat, v: nat, n: nat,
                     pm: map<nat, Image>, sm: set<nat>, child: nat, p2: map<nat, Image>, s2: set<nat>, c: u64, fc: seq<nat>)
    requires 0 < level && Ready(p0, s0, page, level) && IdsOk(s0) && Digit(key, Cap(SLOTS_PER_PAGE, level - 1)) < FANOUT
    requires Opened(hash, p0, s0, page, level, Digit(key, Cap(SLOTS_PER_PAGE, level - 1)), n, pm, sm, child)
    requires s2 <= sm && Wrote(pm, p2, sm - s2)
    requires Rebuilt(hash, pm, sm, child, level - 1, Rem(key, Cap(SLOTS_PER_PAGE, level - 1)), v, p2, s2, c, level - 1, fc)
    ensures Rebuilt(hash, p0, s0, page, level, key, v,
                    p2[n := Stamp(hash, WriteSlot(p0[page], Digit(key, Cap(SLOTS_PER_PAGE, level - 1)), c))], s2, n, level, [page] + fc)
  {
    hide Built, PutAt, Tree, Reach, Get, Stamp, Stamped, WriteSlot, ReadSlot, Digit, Rem, Cap, Nodes, Wrote, Slots;
    var i := Digit(key, Cap(SLOTS_PER_PAGE, level - 1));
    RootPage(p0, page, level);
    WriteSlotNode(hash, p0[page], i, c);
    StampedLevel(hash, pm, s0 - sm - {n}, p2, sm - s2, n, Stamp(hash, WriteSlot(p0[page], i, c)), s0 - s2);
    NodesWrote(pm, p2, sm - s2);
    LinkedNodes(hash, p0, page, level, i, c, p2, n);
    AfterDescent(SHAPE, Nodes(p0), s0, page, level, key, v, n, Nodes(pm), sm, child, Nodes(p2), s2, c, fc);
  }

  /** One level of a deletion: the rebuilt child linked into a copy drawn after it. */
  lemma LevelDeleted(hash: Hash, p0: map<nat, Image>, s0: set<nat>, page: nat, level: nat, key: nat,
                     p2: map<nat, Image>, s2: set<nat>, c: u64, fc: seq<nat>, n: nat)
    requires 0 < level && Ready(p0, s0, page, level) && IdsOk(s0) && Digit(key, Cap(SLOTS_PER_PAGE, level - 1)) < FANOUT && page in p0
    requires s2 <= s0 && n in s2 && Wrote(p0, p2, s0 - s2)
    requires Rebuilt(hash, p0, s0, ReadSlot(p0[page], Digit(key, Cap(SLOTS_PER_PAGE, level - 1))), level - 1,
                     Rem(key, Cap(SLOTS_PER_PAGE, level - 1)), 0, p2, s2, c, level - 1, fc)
    ensures Rebuilt(hash, p0, s0, page, level, key, 0,
                    p2[n := Stamp(hash, WriteSlot(p0[page], Digit(key, Cap(SLOTS_PER_PAGE, level - 1)), c))], s2 - {n}, n, level, fc + [page])
  {
    hide Built, PutAt, Tree, Reach, Get, Stamp, Stamped, WriteSlot, ReadSlot, Digit, Rem, Cap, Nodes, Wrote, Slots;
    var i := Digit(key, Cap(SLOTS_PER_PAGE, level - 1));
    var buf := Stamp(hash, WriteSlot(p0[page], i, c));
    RootPage(p0, page, level);
    assert s0 - (s2 - {n}) == s0 - s2 + {n};
    NodesWrote(p0, p2, s0 - s2);
    WriteSlotNode(hash, p0[page], i, c);
    LinkedNodes(hash, p0, page, level, i, c, p2, n);
    AfterDelete(SHAPE, Nodes(p0), s0, page, level, key, 0, Nodes(p2), s2, c, fc, n);
    StampedLevel(hash, p2, {}, p2, s0 - s2, n, buf, s0 - (s2 - {n}));
  }

  lemma AnyFull(pages: map<nat, Image>)
    ensures FullNodes(SHAPE, Nodes(pages))
  {
  }

  lemma StepOn(pages: map<nat, Image>, page: nat, level: nat, k: nat)
    requires 0 < page && 0 < level && Digit(k, Cap(SLOTS_PER_PAGE, level - 1)) < FANOUT
    ensures !(page in pages && pages[page][0] == TypeAt(level)) ==> !Passable(SHAPE, Nodes(pages), page, level, k, true)
    ensures page in pages && pages[page][0] == TypeAt(level) ==>
              var h, span := Nodes(pages), Cap(SLOTS_PER_PAGE, level - 1);
              var child := ReadSlot(pages[page], Digit(k, span));
              && Get(SHAPE, h, page, level, k) == Get(SHAPE, h, child, level - 1, Rem(k, span))
              && (child == 0 ==> Passable(SHAPE, h, page, level, k, true) && Get(SHAPE, h, page, level, k) == 0)
              && (child != 0 ==> (Passable(SHAPE, h, page, level, k, true) <==> Passable(SHAPE, h, child, level - 1, Rem(k, span), true)))
  {
    hide Get, Cap, Digit, Rem, Passable, ReadSlot;
    AnyFull(pages);
    PassStep(SHAPE, Nodes(pages), page, level, k, true);
  }

  lemma AtLeaf(pages: map<nat, Image>, page: nat, k: nat)
    requires k < SLOTS_PER_PAGE
    ensures k % SLOTS_PER_PAGE == k
    ensures Passable(SHAPE, Nodes(pages), page, 0, k, true) <==> page in pages && pages[page][0] == TypeAt(0)
  {
  }

  lemma LeafSlot(pages: map<nat, Image>, page: nat, i: nat)
    requires 0 < page && page in pages && pages[page][0] == TypeAt(0) && i < SLOTS_PER_PAGE
    ensures Get(SHAPE, Nodes(pages), page, 0, i) == ReadSlot(pages[page], i)
  {
  }

  class RadixU64 {
    var depth: nat

    constructor (depth: nat)
      ensures this.depth == depth
    {
      this.depth := depth;
    }

    /** A fresh empty node of the given type. */
    static method InitPage(store: PageStore, pageType: byte) returns (r: Result<nat>)
      modifies store
      ensures store.asked <= old(store.asked) + 1
      ensures store.refusals == old(store.refusals) + if r.Err? then 1 else 0
      ensures r.Err? ==> store.pages == old(store.pages) && store.supply == old(store.supply) && r.error == AllocFailed
      ensures r.Ok? ==> r.value in old(store.supply) && store.supply == old(store.supply) - {r.value}
      ensures r.Ok? ==> store.pages == old(store.pages)[r.value := Stamp(store.hash, NewPage(pageType))]
    {
      r := store.Alloc();
      if r.Ok? {
        store.pages := store.pages[r.value := Stamp(store.hash, NewPage(pageType))];
      }
    }

    method CreateRoot(store: PageStore) returns (r: Result<nat>)
      modifies this, store
      ensures store.asked <= old(store.asked) + 1
      ensures store.refusals == old(store.refusals) + if r.Err? then 1 else 0
      ensures depth == 0
      ensures r.Err? ==> store.pages == old(store.pages) && store.supply == old(store.supply) && r.error == AllocFailed
      ensures r.Ok? ==> r.value in old(store.supply) && store.supply == old(store.supply) - {r.value}
      ensures r.Ok? ==> store.pages == old(store.pages)[r.value := Stamp(store.hash, NewPage(TYPE_MEMBERSHIP_LEAF))]
    {
      depth := 0;
      r := InitPage(store, TYPE_MEMBERSHIP_LEAF);
    }

    method InsertLeaf(store: PageStore, page: nat, key: nat, value: u64) returns (r: Result<nat>, freed: seq<nat>)
      requires key < SLOTS_PER_PAGE && IdsOk(store.supply)
      requires page in store.pages && store.pages[page][0] == TYPE_MEMBERSHIP_LEAF
      modifies store
      ensures store.asked <= old(store.asked) + 1
      ensures store.refusals == old(store.refusals) + if r.Err? then 1 else 0
      ensures store.supply <= old(store.supply)
      ensures Wrote(old(store.pages), store.pages, old(store.supply) - store.supply)
      ensures FreedTyped(old(store.pages), old(store.supply) - store.supply, freed)
      ensures r.Err? ==> r.error == AllocFailed
      ensures r.Ok? ==> r.value in old(store.supply)
      ensures r.Ok? && old(Ready(store.pages, store.supply, page, 0)) ==>
                Rebuilt(store.hash, old(store.pages), old(store.supply), page, 0, key, value,
                        store.pages, store.supply, r.value, 0, freed)
    {
      hide Built, PutAt, Tree, Reach, Stamp, Stamped, WriteSlot, Nodes;
      ghost var p0, s0 := store.pages, store.supply;
      var a := store.AllocCopy(page);
      if a.Err? {
        return a, [];
      }
      var n := a.value;
      var i := key % SLOTS_PER_PAGE;
      ghost var buf := store.pages[n];
      store.pages := store.pages[n := Stamp(store.hash, WriteSlot(store.pages[n], i, value))];
      assert s0 - store.supply == {n};
      WriteSlotNode(store.hash, buf, i, value);
      if Ready(p0, s0, page, 0) {
        RootPage(p0, page, 0);
        LeafWritten(store.hash, p0, page, i, value, n);
        assert store.pages == p0[n := Stamp(store.hash, WriteSlot(p0[page], i, value))];
      }
      return Ok(n), [page];
    }

    method InsertRecursive(store: PageStore, page: nat, key: nat, value: u64, level: nat)
      returns (r: Result<nat>, freed: seq<nat>)
      requires level <= MAX_DEPTH && key < Cap(SLOTS_PER_PAGE, level) && IdsOk(store.supply)
      modifies store
      ensures store.asked <= old(store.asked) + 2 * level + 1
      ensures store.refusals == old(store.refusals) + if r == Err(AllocFailed) then 1 else 0
      ensures store.supply <= old(store.supply)
      ensures Wrote(old(store.pages), store.pages, old(store.supply) - store.supply)
      ensures FreedTyped(old(store.pages), old(store.supply) - store.supply, freed)
      ensures r.Ok? ==> r.value in old(store.supply)
      ensures r.Err? && old(Ready(store.pages, store.supply, page, level)) ==> r.error == AllocFailed
      ensures r.Ok? && old(Ready(store.pages, store.supply, page, level)) ==>
                Rebuilt(store.hash, old(store.pages), old(store.supply), page, level, key, value,
                        store.pages, store.supply, r.value, level, freed)
      decreases level
    {
      hide Built, PutAt, Tree, Reach, Get, Stamp, Stamped, WriteSlot, ReadSlot, NewPage, Digit, Rem, Nodes, Wrote, EmptyNode, FreedTyped, Slots;
      ghost var p0, s0 := store.pages, store.supply;
      ghost var ok := Ready(p0, s0, page, level);
      if ok {
        RootPage(p0, page, level);
      }
      assert s0 - s0 == {};
      WroteNone(p0, {});
      FreedNone(p0, {});
      if page !in store.pages {
        return Err(MissingPage(page)), [];
      }
      if store.pages[page][0] != TypeAt(level) {
        return Err(CorruptPage(page)), [];
      }
      if level == 0 {
        r, freed := InsertLeaf(store, page, key, value);
        return;
      }
      var span := Saturated(SLOTS_PER_PAGE, level - 1);
      DepthBound();
      DigitInPage(SLOTS_PER_PAGE, MAX_DEPTH, key, level);
      var i := key / span;
      var down, copied := CopyDown(store, page, i, level);
      if down.Err? {
        return Err(down.error), copied;
      }
      var n, child := down.value.0, down.value.1;
      ghost var pm, sm := store.pages, store.supply;
      var sub, fc := InsertRecursive(store, child, key % span, value, level - 1);
      freed := [page] + fc;
      ghost var p2, s2 := store.pages, store.supply;
      WroteTrans(p0, pm, p2, s0 - sm, sm - s2, s0 - s2);
      FreedTypedStep(p0, pm, s0 - sm, sm - s2, s0 - s2, fc, page, freed);
      if sub.Err? {
        return sub, freed;
      }
      WroteAt(pm, p2, sm - s2, n);
      store.pages := store.pages[n := Stamp(store.hash, WriteSlot(store.pages[n], i, sub.value))];
      WroteMore(p0, p2, s0 - s2, n, store.pages[n]);
      if ok {
        LevelRebuilt(store.hash, p0, s0, page, level, key, value, n, pm, sm, child, p2, s2, sub.value, fc);
      }
      return Ok(n), freed;
    }

    /** Copy an interior page to `n`, and make sure there is a child to descend into at slot `i`. */
    static method CopyDown(store: PageStore, page: nat, i: nat, level: nat) returns (r: Result<(nat, nat)>, freed: seq<nat>)
      requires page in store.pages && store.pages[page][0] == TypeAt(level) && 0 < level && i < FANOUT && IdsOk(store.supply)
      modifies store
      ensures store.asked <= old(store.asked) + 2
      ensures store.refusals == old(store.refusals) + if r.Err? then 1 else 0
      ensures store.supply <= old(store.supply)
      ensures Wrote(old(store.pages), store.pages, old(store.supply) - store.supply)
      ensures FreedTyped(old(store.pages), old(store.supply) - store.supply, freed)
      ensures r.Err? ==> r.error == AllocFailed
      ensures r.Ok? ==> r.value.0 in old(store.supply) - store.supply && r.value.0 in store.pages
      ensures r.Ok? && old(Ready(store.pages, store.supply, page, level)) ==>
                Opened(store.hash, old(store.pages), old(store.supply), page, level, i, r.value.0, store.pages, store.supply, r.value.1)
      ensures r.Ok? && old(Ready(store.pages, store.supply, page, level)) ==> Ready(store.pages, store.supply, r.value.1, level - 1)
    {
      hide Tree, Reach, Get, Stamp, Stamped, WriteSlot, ReadSlot, NewPage, Nodes, Wrote, EmptyNode, FreedTyped, Slots;
      ghost var p0, s0 := store.pages, store.supply;
      ghost var ok := Ready(p0, s0, page, level);
      assert s0 - s0 == {};
      WroteNone(p0, {});
      FreedNone(p0, {});
      var a := store.AllocCopy(page);
      if a.Err? {
        return Err(a.error), [];
      }
      var n := a.value;
      freed := [page];
      assert s0 - store.supply == {n};
      WroteNone(p0, {n});
      WroteMore(p0, p0, {n}, n, store.pages[n]);
      FreedTypedOne(p0, {n}, page);
      ghost var p1 := store.pages;
      var child := ReadSlot(store.pages[n], i);
      if child == 0 {
        a := InitPage(store, TypeAt(level - 1));
        if a.Err? {
          return Err(a.error), freed;
        }
        child := a.value;
        assert s0 - store.supply == {n, child};
        WroteNone(p0, {n, child});
        WroteMore(p0, p0, {n, child}, n, p1[n]);
        WroteMore(p0, p1, {n, child}, child, store.pages[child]);
        FreedTypedOne(p0, {n, child}, page);
      }
      if ok {
        ChildOpened(store.hash, p0, s0, page, level, i, n, store.pages, store.supply, child);
      }
      return Ok((n, child)), freed;
    }

    method Grow(store: PageStore, oldRoot: u64) returns (r: Result<nat>)
      requires IdsOk(store.supply)
      modifies this, store
      ensures store.asked <= old(store.asked) + 1
      ensures store.refusals == old(store.refusals) + if r.Err? then 1 else 0
      ensures r.Err? ==> store.pages == old(store.pages) && store.supply == old(store.supply)
      ensures r.Err? ==> r.error == AllocFailed && depth == old(depth)
      ensures r.Ok? ==> depth == old(depth) + 1 && r.value in old(store.supply) && store.supply == old(store.supply) - {r.value}
      ensures r.Ok? ==> store.pages == old(store.pages)[r.value := Stamp(store.hash, WriteSlot(NewPage(TYPE_MEMBERSHIP_INTERIOR), 0, oldRoot))]
    {
      var a := store.Alloc();
      if a.Err? {
        return a;
      }
      store.pages := store.pages[a.value := Stamp(store.hash, WriteSlot(NewPage(TYPE_MEMBERSHIP_INTERIOR), 0, oldRoot))];
      depth := depth + 1;
      return a;
    }

    /**
     Store `value` at `key`, growing the tree until the key fits. `depth` is this handle's
     working depth: on failure it may be left grown, and the caller discards the handle.
     */
    method Insert(store: PageStore, root: nat, key: u64, value: u64) returns (r: Result<nat>, freed: seq<nat>)
      requires value != 0 && depth <= MAX_DEPTH && root < PAGE_ID_NONE && IdsOk(store.supply)
      modifies this, store
      ensures store.asked <= old(store.asked) + 3 * MAX_DEPTH + 1
      ensures store.refusals == old(store.refusals) + if r == Err(AllocFailed) then 1 else 0
      ensures depth <= MAX_DEPTH && store.supply <= old(store.supply)
      ensures Wrote(old(store.pages), store.pages, old(store.supply) - store.supply)
      ensures FreedTyped(old(store.pages), old(store.supply) - store.supply, freed)
      ensures r.Ok? ==> r.value in old(store.supply)
      ensures r.Err? && old(Ready(store.pages, store.supply, root, depth)) ==> r.error == AllocFailed
      ensures r.Ok? && old(Ready(store.pages, store.supply, root, depth)) ==>
                Rebuilt(store.hash, old(store.pages), old(store.supply), root, old(depth), key, value,
                        store.pages, store.supply, r.value, depth, freed)
    {
      hide Built, SameValues, PutAt, Tree, Reach, Get, Stamp, Stamped, WriteSlot, NewPage, Nodes, Wrote, Cap, FreedTyped;
      ghost var p0, s0, d0 := store.pages, store.supply, depth;
      ghost var ok := Ready(p0, s0, root, depth);
      var current: nat := root;
      var cap := Saturated(SLOTS_PER_PAGE, depth);
      assert s0 - s0 == {};
      WroteNone(p0, {});
      FreedNone(p0, {});
      if ok {
        BuiltSelf(SHAPE, Nodes(p0), root, depth);
      }
      while depth < MAX_DEPTH && key >= cap
        invariant d0 <= depth <= MAX_DEPTH && current < PAGE_ID_NONE
        invariant store.asked <= old(store.asked) + (depth - d0) && store.refusals == old(store.refusals)
        invariant cap == Min(Cap(SLOTS_PER_PAGE, depth), U64_MAX)
        invariant store.supply <= s0 && Wrote(p0, store.pages, s0 - store.supply)
        invariant ok ==> Growth(store.hash, p0, root, d0, store.pages, current, depth, s0 - store.supply)
        decreases MAX_DEPTH - depth
      {
        ghost var p1, s1, d1 := store.pages, store.supply, depth;
        var g := Grow(store, current);
        FreedNone(p0, s0 - store.supply);
        if g.Err? {
          return g, [];
        }
        assert s1 - store.supply == {g.value};
        assert s0 - store.supply == (s0 - s1) + {g.value};
        WroteTrans(p0, p0, p1, {}, s0 - s1, s0 - store.supply);
        WroteMore(p0, p1, s0 - store.supply, g.value, store.pages[g.value]);
        if ok {
          GrowthStep(store.hash, p0, root, d0, p1, current, d1, s0 - s1, g.value);
        }
        current := g.value;
        cap := Saturated(SLOTS_PER_PAGE, depth);
      }
      ghost var p1, s1 := store.pages, store.supply;
      DepthBound();
      assert key < Cap(SLOTS_PER_PAGE, depth);
      if ok {
        GrowthReady(store.hash, p0, root, d0, p1, current, depth, s0, s1);
      }
      r, freed := InsertRecursive(store, current, key, value, depth);
      WroteTrans(p0, p1, store.pages, s0 - s1, s1 - store.supply, s0 - store.supply);
      FreedTypedLater(p0, p1, s0 - s1, s1 - store.supply, s0 - store.supply, freed);
      if ok && r.Ok? {
        assert s0 - store.supply == (s0 - s1) + (s1 - store.supply);
        BuiltAfterGrowth(SHAPE, Nodes(p0), root, d0, Nodes(p1), current, depth, s0 - s1,
                         Nodes(store.pages), r.value, depth, s1 - store.supply, freed);
        PutAfterSame(SHAPE, Nodes(p0), root, d0, Nodes(p1), current, depth, Nodes(store.pages), r.value, depth, key, value);
        StampedMore(store.hash, p1, s0 - s1, store.pages, s1 - store.supply, s0 - store.supply);
      }
    }

    method DeleteLeaf(store: PageStore, page: nat, key: nat) returns (r: Result<(nat, u64)>, freed: seq<nat>)
      requires key < SLOTS_PER_PAGE && IdsOk(store.supply)
      requires page in store.pages && store.pages[page][0] == TYPE_MEMBERSHIP_LEAF
      modifies store
      ensures store.asked <= old(store.asked) + 1
      ensures store.refusals == old(store.refusals) + if r.Err? then 1 else 0
      ensures store.supply <= old(store.supply)
      ensures Wrote(old(store.pages), store.pages, old(store.supply) - store.supply)
      ensures FreedTyped(old(store.pages), old(store.supply) - store.supply, freed)
      ensures r.Err? ==> r.error == AllocFailed
      ensures r.Ok? ==> Deletion(store.hash, old(store.pages), old(store.supply), page, 0, key,
                                 store.pages, store.supply, r.value.0, r.value.1, freed)
    {
      hide Built, PutAt, Tree, Reach, Get, Stamp, Stamped, WriteSlot, ReadSlot, Nodes;
      ghost var p0, s0 := store.pages, store.supply;
      var i := key % SLOTS_PER_PAGE;
      var prev := ReadSlot(store.pages[page], i);
      ghost var ok := Ready(p0, s0, page, 0);
      if ok {
        RootPage(p0, page, 0);
        LeafValue(p0, page, i);
      }
      if prev == 0 {
        return Ok((page, 0)), [];
      }
      var a := store.AllocCopy(page);
      if a.Err? {
        return Err(a.error), [];
      }
      var n := a.value;
      ghost var buf := store.pages[n];
      store.pages := store.pages[n := Stamp(store.hash, WriteSlot(store.pages[n], i, 0))];
      assert s0 - store.supply == {n};
      WriteSlotNode(store.hash, buf, i, 0);
      if ok {
        LeafWritten(store.hash, p0, page, i, 0, n);
        assert store.pages == p0[n := Stamp(store.hash, WriteSlot(p0[page], i, 0))];
      }
      return Ok((n, prev)), [page];
    }

    method DeleteRecursive(store: PageStore, page: nat, key: nat, level: nat) returns (r: Result<(nat, u64)>, freed: seq<nat>)
      requires level <= MAX_DEPTH && key < Cap(SLOTS_PER_PAGE, level) && IdsOk(store.supply)
      modifies store
      ensures store.asked <= old(store.asked) + level + 1
      ensures store.refusals == old(store.refusals) + if r == Err(AllocFailed) then 1 else 0
      ensures store.supply <= old(store.supply)
      ensures Wrote(old(store.pages), store.pages, old(store.supply) - store.supply)
      ensures FreedTyped(old(store.pages), old(store.supply) - store.supply, freed)
      ensures r.Err? && old(Ready(store.pages, store.supply, page, level)) ==> r.error == AllocFailed
      ensures r.Ok? ==> Deletion(store.hash, old(store.pages), old(store.supply), page, level, key,
                                 store.pages, store.supply, r.value.0, r.value.1, freed)
      decreases level
    {
      hide Built, PutAt, Tree, Reach, Get, Stamp, Stamped, WriteSlot, ReadSlot, Digit, Rem, Nodes, Wrote, FreedTyped;
      ghost var p0, s0 := store.pages, store.supply;
      ghost var ok := Ready(p0, s0, page, level);
      if ok {
        RootPage(p0, page, level);
      }
      assert s0 - s0 == {};
      WroteNone(p0, {});
      FreedNone(p0, {});
      if page !in store.pages {
        return Err(MissingPage(page)), [];
      }
      if store.pages[page][0] != TypeAt(level) {
        return Err(CorruptPage(page)), [];
      }
      if level == 0 {
        r, freed := DeleteLeaf(store, page, key);
        return;
      }
      var span := Saturated(SLOTS_PER_PAGE, level - 1);
      DepthBound();
      DigitInPage(SLOTS_PER_PAGE, MAX_DEPTH, key, level);
      var i := key / span;
      var child := ReadSlot(store.pages[page], i);
      if ok {
        LinkedNodes(store.hash, p0, page, level, i, 0, p0, page);
        GetStep(SHAPE, Nodes(p0), page, level, key);
        KidIsTree(SHAPE, Nodes(p0), page, level, i);
      }
      if child == 0 {
        NoSubtree(p0, level - 1, key % span);
        return Ok((page, 0)), [];
      }
      var sub, fc := DeleteRecursive(store, child, key % span, level - 1);
      if sub.Err? {
        return sub, fc;
      }
      if sub.value.1 == 0 {
        return Ok((page, 0)), fc;
      }
      ghost var p2, s2 := store.pages, store.supply;
      if ok {
        WroteAt(p0, p2, s0 - s2, page);
      }
      if page !in store.pages {
        return Err(MissingPage(page)), fc;
      }
      var copy := CopyLinked(store, page, i, sub.value.0);
      if copy.Err? {
        return Err(copy.error), fc;
      }
      var n := copy.value;
      assert s0 - store.supply == s0 - s2 + {n};
      WroteTrans(p0, p0, p2, {}, s0 - s2, s0 - store.supply);
      WroteMore(p0, p2, s0 - store.supply, n, store.pages[n]);
      FreedTypedStep(p0, p0, {}, s0 - s2, s0 - store.supply, fc, page, fc + [page]);
      if ok {
        LevelDeleted(store.hash, p0, s0, page, level, key, p2, s2, sub.value.0, fc, n);
      }
      return Ok((n, sub.value.1)), fc + [page];
    }

    /** A stamped copy of a page with one slot written. */
    static method CopyLinked(store: PageStore, page: nat, i: nat, c: u64) returns (r: Result<nat>)
      requires page in store.pages && i < SLOTS_PER_PAGE
      modifies store
      ensures store.asked <= old(store.asked) + 1
      ensures store.refusals == old(store.refusals) + if r.Err? then 1 else 0
      ensures r.Err? ==> r.error == AllocFailed && store.pages == old(store.pages) && store.supply == old(store.supply)
      ensures r.Ok? ==> r.value in old(store.supply) && store.supply == old(store.supply) - {r.value}
      ensures r.Ok? ==> store.pages == old(store.pages)[r.value :=
                          Stamp(store.hash, WriteSlot(if r.value == page then Zeros() else old(store.pages)[page], i, c))]
    {
      hide Stamp, WriteSlot, Zeros;
      r := store.AllocCopy(page);
      if r.Ok? {
        store.pages := store.pages[r.value := Stamp(store.hash, WriteSlot(store.pages[r.value], i, c))];
      }
    }

    /** Clear `key`, returning its previous value; 0 means it was absent and nothing was copied. */
    method Delete(store: PageStore, root: nat, key: u64) returns (r: Result<(nat, u64)>, freed: seq<nat>)
      requires depth <= MAX_DEPTH && IdsOk(store.supply)
      modifies store
      ensures store.asked <= old(store.asked) + depth + 1
      ensures store.refusals == old(store.refusals) + if r == Err(AllocFailed) then 1 else 0
      ensures store.supply <= old(store.supply)
      ensures Wrote(old(store.pages), store.pages, old(store.supply) - store.supply)
      ensures FreedTyped(old(store.pages), old(store.supply) - store.supply, freed)
      ensures root == PAGE_ID_NONE ==> r == Ok((root, 0))
      ensures r.Err? && old(Ready(store.pages, store.supply, root, depth)) ==> r.error == AllocFailed
      ensures r.Ok? && root != PAGE_ID_NONE ==>
                Deletion(store.hash, old(store.pages), old(store.supply), root, depth, key,
                         store.pages, store.supply, r.value.0, r.value.1, freed)
    {
      hide Built, PutAt, Tree, Reach, Get, Stamped, Nodes, Wrote, FreedTyped, Cap;
      assert store.supply - store.supply == {};
      WroteNone(store.pages, {});
      FreedNone(store.pages, {});
      var cap := Saturated(SLOTS_PER_PAGE, depth);
      if root == PAGE_ID_NONE || (cap != U64_MAX && key >= cap) {
        if root != PAGE_ID_NONE && Ready(store.pages, store.supply, root, depth) {
          OutOfReach(SHAPE, Nodes(store.pages), root, depth, key);
        }
        return Ok((root, 0)), [];
      }
      DepthBound();
      InReach(SLOTS_PER_PAGE, MAX_DEPTH, key, depth);
      r, freed := DeleteRecursive(store, root, key, depth);
    }

    /** The leaf and slot of a key, with every interior page's type checked on the way. */
    method FindLeaf(store: PageStore, root: nat, key: u64) returns (r: Result<Option<(nat, nat)>>)
      requires depth <= MAX_DEPTH
      ensures r != Err(AllocFailed)
      ensures r.Ok? && r.value.Some? ==> r.value.value.1 < SLOTS_PER_PAGE
      ensures 0 < root && r.Err? ==> key < Cap(SLOTS_PER_PAGE, depth) && !Passable(SHAPE, Nodes(store.pages), root, depth, key, true)
      ensures 0 < root && r.Ok? && r.value.None? ==>
                && Get(SHAPE, Nodes(store.pages), root, depth, key) == 0
                && (key < Cap(SLOTS_PER_PAGE, depth) ==> Passable(SHAPE, Nodes(store.pages), root, depth, key, true))
      ensures 0 < root && r.Ok? && r.value.Some? ==>
                var (leaf, i) := r.value.value;
                && 0 < leaf && key < Cap(SLOTS_PER_PAGE, depth)
                && (Passable(SHAPE, Nodes(store.pages), root, depth, key, true) <==> leaf in store.pages && store.pages[leaf][0] == TypeAt(0))
                && Get(SHAPE, Nodes(store.pages), root, depth, key) == Get(SHAPE, Nodes(store.pages), leaf, 0, i)
    {
      hide Get, Nodes, Cap, ReadSlot, Digit, Rem, Passable, Quotient, Remainder;
      var cap := Saturated(SLOTS_PER_PAGE, depth);
      DepthBound();
      if cap != U64_MAX && key >= cap {
        AnyFull(store.pages);
        FarOut(SHAPE, Nodes(store.pages), root, depth, key);
        return Ok(None);
      }
      InReach(SLOTS_PER_PAGE, MAX_DEPTH, key, depth);
      ghost var h := Nodes(store.pages);
      var current: nat, remaining: nat, level: nat := root, key, depth;
      while level > 0
        invariant level <= depth && remaining < Cap(SLOTS_PER_PAGE, level)
        invariant 0 < root ==> 0 < current
        invariant 0 < root ==> (Passable(SHAPE, h, root, depth, key, true) <==> Passable(SHAPE, h, current, level, remaining, true))
        invariant 0 < root ==> Get(SHAPE, h, root, depth, key) == Get(SHAPE, h, current, level, remaining)
      {
        var span := Saturated(SLOTS_PER_PAGE, level - 1);
        SplitInPage(SLOTS_PER_PAGE, MAX_DEPTH, remaining, level);
        var childIdx := Quotient(remaining, span);
        if 0 < root {
          StepOn(store.pages, current, level, remaining);
        }
        remaining := Remainder(remaining, span);
        if current !in store.pages {
          return Err(MissingPage(current));
        }
        if store.pages[current][0] != TypeAt(level) {
          return Err(CorruptPage(current));
        }
        var child := ReadSlot(store.pages[current], childIdx);
        if child == 0 {
          return Ok(None);
        }
        current := child;
        level := level - 1;
      }
      CapZero(SLOTS_PER_PAGE);
      AtLeaf(store.pages, current, remaining);
      return Ok(Some((current, remaining % SLOTS_PER_PAGE)));
    }

    /**
     The value at a key. On any pages it succeeds exactly if every page on the way is there and of the
     right kind, and then answers what those pages hold; so it does on every tree.
     */
    method Lookup(store: PageStore, root: nat, key: u64) returns (r: Result<u64>)
      requires depth <= MAX_DEPTH
      ensures r != Err(AllocFailed)
      ensures root == PAGE_ID_NONE ==> r == Ok(0)
      ensures 0 < root != PAGE_ID_NONE ==>
                (r.Ok? <==> key >= Cap(SLOTS_PER_PAGE, depth) || Passable(SHAPE, Nodes(store.pages), root, depth, key, true))
      ensures 0 < root != PAGE_ID_NONE && r.Ok? ==> r.value == Get(SHAPE, Nodes(store.pages), root, depth, key)
      ensures root != PAGE_ID_NONE && IsTree(store.pages, root, depth) ==> r == Ok(Get(SHAPE, Nodes(store.pages), root, depth, key))
    {
      hide Get, Reach, Nodes, ReadSlot, Tree, Passable, Cap;
      if root == PAGE_ID_NONE {
        return Ok(0);
      }
      if IsTree(store.pages, root, depth) && key < Cap(SLOTS_PER_PAGE, depth) {
        TreePassable(SHAPE, Nodes(store.pages), root, depth, key, true);
      }
      var found := FindLeaf(store, root, key);
      match found
      case Err(e) => return Err(e);
      case Ok(None) => return Ok(0);
      case Ok(Some((leaf, i))) =>
        if leaf !in store.pages {
          return Err(MissingPage(leaf));
        }
        if store.pages[leaf][0] != TypeAt(0) {
          return Err(CorruptPage(leaf));
        }
        if 0 < leaf {
          LeafSlot(store.pages, leaf, i);
        }
        return Ok(ReadSlot(store.pages[leaf], i));
    }

    method IterBoundedLeaf(store: PageStore, page: nat, base: nat, limit: nat, out: seq<(nat, nat)>, ghost trueBase: nat)
      returns (r: Result<seq<(nat, nat)>>)
      requires page in store.pages && |out| <= limit && base == Min(trueBase, U64_MAX)
      ensures IsTree(store.pages, page, 0) && InRange(store.pages, page, 0, trueBase) ==>
                r == Ok(Take(limit, out + ItemsOf(store.pages, page, 0, trueBase)))
      ensures r.Ok? && |r.value| <= limit
    {
      hide Tree, Get, Reach, Nodes, ReadSlot, LeafItems, Items;
      ghost var ok := IsTree(store.pages, page, 0) && InRange(store.pages, page, 0, trueBase);
      var res := out;
      assert out + [] == out;
      if ok {
        LeafAll(store.pages, page, trueBase, 0);
      }
      var i := 0;
      while i < SLOTS_PER_PAGE && |res| < limit
        invariant i <= SLOTS_PER_PAGE && |res| <= limit
        invariant ok ==> res == Take(limit, out + LeafUpTo(store.pages, page, trueBase, i))
      {
        var v := ReadSlot(store.pages[page], i);
        if ok {
          LeafStep(store.pages, page, trueBase, i);
          TakeMore(limit, out + LeafUpTo(store.pages, page, trueBase, i), if v != 0 then [(trueBase + i, v)] else []);
          SeqAssoc(out, LeafUpTo(store.pages, page, trueBase, i), if v != 0 then [(trueBase + i, v)] else []);
        }
        if v != 0 {
          res := res + [(SatAdd(base, i), v)];
        }
        i := i + 1;
      }
      if ok {
        LeafAll(store.pages, page, trueBase, i);
        if i < SLOTS_PER_PAGE {
          TakeFull(limit, out + LeafUpTo(store.pages, page, trueBase, i), out + ItemsOf(store.pages, page, 0, trueBase));
        }
      }
      return Ok(res);
    }

    /** Lists at most `limit` pairs after those in `out`; base is the saturated image of trueBase. */
    method IterBoundedRecursive(store: PageStore, page: nat, base: nat, level: nat, limit: nat, out: seq<(nat, nat)>, ghost trueBase: nat)
      returns (r: Result<seq<(nat, nat)>>)
      requires level <= MAX_DEPTH && |out| <= limit && base == Min(trueBase, U64_MAX)
      ensures IsTree(store.pages, page, level) && InRange(store.pages, page, level, trueBase) ==>
                r == Ok(Take(limit, out + ItemsOf(store.pages, page, level, trueBase)))
      ensures r.Ok? ==> |r.value| <= limit
      ensures r.Ok? && |out| < limit ==> page in store.pages && store.pages[page][0] == TypeAt(level)
      decreases level
    {
      hide Tree, Get, Reach, Nodes, Cap, ReadSlot, KidItems, LeafItems, Items;
      ghost var ok := IsTree(store.pages, page, level) && InRange(store.pages, page, level, trueBase);
      if |out| >= limit {
        assert Take(limit, out + ItemsOf(store.pages, page, level, trueBase)) == out;
        return Ok(out);
      }
      if ok {
        RootPage(store.pages, page, level);
      }
      if page !in store.pages {
        return Err(MissingPage(page));
      }
      if store.pages[page][0] != TypeAt(level) {
        return Err(CorruptPage(page));
      }
      if level == 0 {
        r := IterBoundedLeaf(store, page, base, limit, out, trueBase);
        return;
      }
      var res := out;
      assert out + [] == out;
      var span := Saturated(SLOTS_PER_PAGE, level - 1);
      DepthBound();
      SpanFits(SLOTS_PER_PAGE, MAX_DEPTH, level);
      if ok {
        KidsAll(store.pages, page, level, trueBase, 0);
      }
      var i := 0;
      while i < FANOUT && |res| < limit
        invariant i <= FANOUT && |res| <= limit
        invariant ok ==> res == Take(limit, out + KidsUpTo(store.pages, page, level, trueBase, i))
      {
        var child := ReadSlot(store.pages[page], i);
        if ok {
          KidStep(store.pages, page, level, trueBase, i);
        }
        if child != 0 {
          var sub := IterBoundedRecursive(store, child, SatAdd(base, SatMul(i, span)), level - 1, limit, res, trueBase + i * span);
          if sub.Err? {
            return sub;
          }
          if ok {
            TakeMore(limit, out + KidsUpTo(store.pages, page, level, trueBase, i), ItemsOf(store.pages, child, level - 1, trueBase + i * span));
            SeqAssoc(out, KidsUpTo(store.pages, page, level, trueBase, i), ItemsOf(store.pages, child, level - 1, trueBase + i * span));
          }
          res := sub.value;
        }
        i := i + 1;
      }
      if ok {
        KidsAll(store.pages, page, level, trueBase, i);
        if i < FANOUT {
          TakeFull(limit, out + KidsUpTo(store.pages, page, level, trueBase, i), out + ItemsOf(store.pages, page, level, trueBase));
        }
      }
      return Ok(res);
    }

    /** The first `limit` pairs of the full enumeration. */
    method IterBounded(store: PageStore, root: nat, limit: nat) returns (r: Result<seq<(nat, nat)>>)
      requires depth <= MAX_DEPTH
      ensures root == PAGE_ID_NONE ==> r == Ok([])
      ensures root != PAGE_ID_NONE && IsTree(store.pages, root, depth) && InRange(store.pages, root, depth, 0) ==>
                r == Ok(Take(limit, ItemsOf(store.pages, root, depth, 0)))
    {
      if root == PAGE_ID_NONE || limit == 0 {
        return Ok([]);
      }
      r := IterBoundedRecursive(store, root, 0, depth, limit, [], 0);
      assert [] + ItemsOf(store.pages, root, depth, 0) == ItemsOf(store.pages, root, depth, 0);
    }

    method IterRecursive(store: PageStore, page: nat, base: nat, level: nat, ghost trueBase: nat) returns (r: Result<seq<(nat, nat)>>)
      requires level <= MAX_DEPTH && base == Min(trueBase, U64_MAX)
      ensures IsTree(store.pages, page, level) && InRange(store.pages, page, level, trueBase) ==>
                r == Ok(ItemsOf(store.pages, page, level, trueBase))
      ensures r.Ok? ==> page in store.pages && store.pages[page][0] == TypeAt(level)
      decreases level
    {
      hide Tree, Get, Reach, Nodes, Cap, ReadSlot, KidItems, LeafItems, Items;
      ghost var ok := IsTree(store.pages, page, level) && InRange(store.pages, page, level, trueBase);
      if ok {
        RootPage(store.pages, page, level);
      }
      if page !in store.pages {
        return Err(MissingPage(page));
      }
      if store.pages[page][0] != TypeAt(level) {
        return Err(CorruptPage(page));
      }
      var out := [];
      if level == 0 {
        if ok {
          LeafAll(store.pages, page, trueBase, 0);
        }
        for i := 0 to SLOTS_PER_PAGE
          invariant ok ==> out == LeafUpTo(store.pages, page, trueBase, i)
        {
          var v := ReadSlot(store.pages[page], i);
          if ok {
            LeafStep(store.pages, page, trueBase, i);
          }
          if v != 0 {
            out := out + [(SatAdd(base, i), v)];
          }
        }
        if ok {
          LeafAll(store.pages, page, trueBase, SLOTS_PER_PAGE);
        }
        return Ok(out);
      }
      var span := Saturated(SLOTS_PER_PAGE, level - 1);
      DepthBound();
      SpanFits(SLOTS_PER_PAGE, MAX_DEPTH, level);
      if ok {
        KidsAll(store.pages, page, level, trueBase, 0);
      }
      for i := 0 to FANOUT
        invariant ok ==> out == KidsUpTo(store.pages, page, level, trueBase, i)
      {
        var child := ReadSlot(store.pages[page], i);
        if ok {
          KidStep(store.pages, page, level, trueBase, i);
        }
        if child != 0 {
          var sub := IterRecursive(store, child, SatAdd(base, SatMul(i, span)), level - 1, trueBase + i * span);
          if sub.Err? {
            return sub;
          }
          out := out + sub.value;
        }
      }
      if ok {
        KidsAll(store.pages, page, level, trueBase, FANOUT);
      }
      return Ok(out);
    }

    /** Every (key, value) pair with a non-zero value, in ascending key order. */
    method Iter(store: PageStore, root: nat) returns (r: Result<seq<(nat, nat)>>)
      requires depth <= MAX_DEPTH
      ensures root == PAGE_ID_NONE ==> r == Ok([])
      ensures root != PAGE_ID_NONE && IsTree(store.pages, root, depth) && InRange(store.pages, root, depth, 0) ==>
                r == Ok(ItemsOf(store.pages, root, depth, 0))
    {
      if root == PAGE_ID_NONE {
        return Ok([]);
      }
      r := IterRecursive(store, root, 0, depth, 0);
    }

    static method AnyRecursive(store: PageStore, page: nat, level: nat) returns (r: Result<bool>)
      ensures r != Err(AllocFailed)
      ensures IsTree(store.pages, page, level) ==> r == Ok(ItemsOf(store.pages, page, level, 0) != [])
      ensures r.Ok? ==> page in store.pages && store.pages[page][0] == TypeAt(level)
      decreases level
    {
      hide Tree, Get, Reach, Nodes, Cap, ReadSlot, KidItems, LeafItems, Items;
      ghost var ok := IsTree(store.pages, page, level);
      if ok {
        RootPage(store.pages, page, level);
      }
      if page !in store.pages {
        return Err(MissingPage(page));
      }
      if store.pages[page][0] != TypeAt(level) {
        return Err(CorruptPage(page));
      }
      if level == 0 {
        if ok {
          LeafAll(store.pages, page, 0, 0);
        }
        for i := 0 to SLOTS_PER_PAGE
          invariant ok ==> LeafUpTo(store.pages, page, 0, i) == []
        {
          if ok {
            LeafStep(store.pages, page, 0, i);
            LeafAll(store.pages, page, 0, i + 1);
          }
          if ReadSlot(store.pages[page], i) != 0 {
            return Ok(true);
          }
        }
        if ok {
          LeafAll(store.pages, page, 0, SLOTS_PER_PAGE);
        }
        return Ok(false);
      }
      if ok {
        KidsAll(store.pages, page, level, 0, 0);
      }
      for i := 0 to FANOUT
        invariant ok ==> KidsUpTo(store.pages, page, level, 0, i) == []
      {
        var child := ReadSlot(store.pages[page], i);
        if ok {
          KidStep(store.pages, page, level, 0, i);
          KidsAll(store.pages, page, level, 0, i + 1);
          EmptyAtAnyBase(store.pages, child, level - 1, 0 + i * Cap(SLOTS_PER_PAGE, level - 1), 0);
        }
        if child != 0 {
          var sub := AnyRecursive(store, child, level - 1);
          if sub.Err? || sub.value {
            return sub;
          }
        }
      }
      if ok {
        KidsAll(store.pages, page, level, 0, FANOUT);
      }
      return Ok(false);
    }

    /** Does any key have a value? */
    method AnyPresent(store: PageStore, root: nat) returns (r: Result<bool>)
      ensures r != Err(AllocFailed)
      ensures root == PAGE_ID_NONE ==> r == Ok(false)
      ensures root != PAGE_ID_NONE && IsTree(store.pages, root, depth) ==> r == Ok(ItemsOf(store.pages, root, depth, 0) != [])
    {
      if root == PAGE_ID_NONE {
        return Ok(false);
      }
      r := AnyRecursive(store, root, depth);
    }

    /** Walk child 0 to recover a tree's depth; terminates on any pages, cyclic spines included. */
    static method RecoverDepth(store: PageStore, root: nat) returns (r: Result<nat>)
      ensures r.Ok? ==> r.value <= MAX_DEPTH
      ensures root == PAGE_ID_NONE ==> r == Ok(0)
      ensures root != PAGE_ID_NONE ==> forall d: nat | d <= MAX_DEPTH && OnSpine(store.pages, root, d) :: r == Ok(d)
    {
      hide OnSpine, Tree, Spine, Nodes, Reach, ReadSlot;
      if root == PAGE_ID_NONE {
        return Ok(0);
      }
      var depth: nat, current: nat := 0, root;
      while true
        invariant depth <= MAX_DEPTH
        invariant forall d: nat | d <= MAX_DEPTH && OnSpine(store.pages, root, d) :: depth <= d && OnSpine(store.pages, current, d - depth)
        decreases MAX_DEPTH - depth
      {
        forall d: nat | d <= MAX_DEPTH && OnSpine(store.pages, root, d) ensures current in store.pages {
          SpineStep(store.pages, current, d - depth);
        }
        if current !in store.pages {
          return Err(MissingPage(current));
        }
        var buf := store.pages[current];
        forall d: nat | d <= MAX_DEPTH && OnSpine(store.pages, root, d)
          ensures d == depth <==> buf[0] != TYPE_MEMBERSHIP_INTERIOR
          ensures d > depth ==> ReadSlot(buf, 0) != 0 && OnSpine(store.pages, ReadSlot(buf, 0), d - depth - 1)
        {
          SpineStep(store.pages, current, d - depth);
        }
        if buf[0] != TYPE_MEMBERSHIP_INTERIOR {
          return Ok(depth);
        }
        depth := depth + 1;
        if depth > MAX_DEPTH {
          return Err(CorruptPage(current));
        }
        var child := ReadSlot(buf, 0);
        if child == 0 {
          return Ok(depth);
        }
        current := child;
      }
    }
  }

  // ----- freeing a whole tree -----

  /** The pages of the first `n` children's subtrees. */
  ghost function KidsReach(h: Heap<nat>, p: nat, level: nat, n: nat): set<nat>
    requires level > 0 && p in h && h[p].Interior? && n <= |h[p].children|
  {
    set i, q | 0 <= i < n && q in KidReach(h, p, level, i) :: q
  }

  /**
   Queue every page of the tree at `root`, children before parent. On any pages it queues
   only membership pages; on a tree it queues each page of the tree exactly once.
   */
  method FreeSubtree(store: PageStore, root: nat, depth: nat) returns (r: Result<()>, freed: seq<nat>)
    ensures r != Err(AllocFailed)
    ensures forall q | q in freed :: q in store.pages && IsNode(store.pages[q])
    ensures root != PAGE_ID_NONE && IsTree(store.pages, root, depth) && Below(store.pages, root, depth) ==>
              r.Ok? && Elems(freed) == Reach(Nodes(store.pages), root, depth) && Distinct(freed)
    decreases depth
  {
    hide Tree, Reach, Nodes, ReadSlot, KidsReach, Elems, Distinct, Below;
    ghost var ok := root != PAGE_ID_NONE && IsTree(store.pages, root, depth) && Below(store.pages, root, depth);
    freed := [];
    if root == PAGE_ID_NONE {
      return Ok(()), freed;
    }
    if ok {
      RootPage(store.pages, root, depth);
    }
    if root !in store.pages {
      return Err(MissingPage(root)), freed;
    }
    if store.pages[root][0] != TypeAt(depth) {
      return Err(CorruptPage(root)), freed;
    }
    if depth > 0 {
      if ok {
        FreedKidsNone(store.pages, root, depth);
      }
      for i := 0 to FANOUT
        invariant forall q | q in freed :: q in store.pages && IsNode(store.pages[q])
        invariant ok ==> FreedKids(store.pages, root, depth, i, freed)
      {
        var child := ReadSlot(store.pages[root], i);
        ghost var before := freed;
        if ok {
          FreedKidReady(store.pages, root, depth, i);
        }
        var sub := [];
        if child != 0 {
          var res;
          res, sub := FreeSubtree(store, child, depth - 1);
          freed := freed + sub;
          if res.Err? {
            return res, freed;
          }
        }
        if ok {
          FreedKidsStep(store.pages, root, depth, i, before, sub);
          assert child == 0 ==> before + sub == freed;
        }
      }
    }
    if ok {
      FreedAll(store.pages, root, depth, freed);
    }
    freed := freed + [root];
    return Ok(()), freed;
  }

  /** Page ids below the sentinel throughout a tree. */
  ghost predicate Below(pages: map<nat, Image>, page: nat, level: nat) {
    forall q | q in Reach(Nodes(pages), page, level) :: q < PAGE_ID_NONE
  }

  ghost predicate FreedKids(pages: map<nat, Image>, root: nat, depth: nat, n: nat, freed: seq<nat>) {
    && IsTree(pages, root, depth) && depth > 0 && n <= FANOUT
    && Elems(freed) == KidsReach(Nodes(pages), root, depth, n) && Distinct(freed)
  }

  lemma FreedKidsNone(pages: map<nat, Image>, root: nat, depth: nat)
    requires IsTree(pages, root, depth) && depth > 0
    ensures FreedKids(pages, root, depth, 0, [])
  {
    assert KidsReach(Nodes(pages), root, depth, 0) == {};
    assert Elems([]) == {};
  }

  lemma FreedKidReady(pages: map<nat, Image>, root: nat, depth: nat, i: nat)
    requires IsTree(pages, root, depth) && depth > 0 && i < FANOUT && root in pages && Below(pages, root, depth)
    ensures root in Nodes(pages) && Nodes(pages)[root].Interior? && i < |Nodes(pages)[root].children|
    ensures ReadSlot(pages[root], i) == Nodes(pages)[root].children[i]
    ensures ReadSlot(pages[root], i) != 0 ==>
              && IsTree(pages, ReadSlot(pages[root], i), depth - 1) && Below(pages, ReadSlot(pages[root], i), depth - 1)
              && ReadSlot(pages[root], i) < PAGE_ID_NONE
  {
    RootPage(pages, root, depth);
    var c := ReadSlot(pages[root], i);
    assert Slots(pages[root])[i] == c;
    KidIsTree(SHAPE, Nodes(pages), root, depth, i);
    assert c != 0 ==> c in Reach(Nodes(pages), c, depth - 1);
  }

  lemma FreedKidsStep(pages: map<nat, Image>, root: nat, depth: nat, i: nat, freed: seq<nat>, sub: seq<nat>)
    requires FreedKids(pages, root, depth, i, freed) && i < FANOUT
    requires root in Nodes(pages) && Nodes(pages)[root].Interior? && i < |Nodes(pages)[root].children|
    requires if Nodes(pages)[root].children[i] == 0 then sub == []
             else Elems(sub) == Reach(Nodes(pages), Nodes(pages)[root].children[i], depth - 1) && Distinct(sub)
    ensures FreedKids(pages, root, depth, i + 1, freed + sub)
  {
    var h := Nodes(pages);
    assert Elems(sub) == KidReach(h, root, depth, i);
    forall j | 0 <= j < i ensures KidReach(h, root, depth, j) !! KidReach(h, root, depth, i) {
    }
    assert KidsReach(h, root, depth, i + 1) == KidsReach(h, root, depth, i) + KidReach(h, root, depth, i);
    ElemsConcat(freed, sub);
  }

  lemma FreedAll(pages: map<nat, Image>, root: nat, depth: nat, freed: seq<nat>)
    requires IsTree(pages, root, depth)
    requires if depth == 0 then freed == [] else FreedKids(pages, root, depth, FANOUT, freed)
    ensures Elems(freed + [root]) == Reach(Nodes(pages), root, depth) && Distinct(freed + [root])
  {
    var h := Nodes(pages);
    assert Elems([root]) == {root};
    ElemsConcat(freed, [root]);
    if depth > 0 {
      assert Reach(h, root, depth) == {root} + KidsReach(h, root, depth, FANOUT);
      assert root !in KidsReach(h, root, depth, FANOUT);
    }
  }

  ghost predicate OnSpine(pages: map<nat, Image>, page: nat, level: nat) {
    IsTree(pages, page, level) && Spine(Nodes(pages), page, level)
  }

  lemma SpineStep(pages: map<nat, Image>, page: nat, level: nat)
    requires OnSpine(pages, page, level)
    ensures page in pages
    ensures level == 0 <==> pages[page][0] != TYPE_MEMBERSHIP_INTERIOR
    ensures level > 0 ==> ReadSlot(pages[page], 0) != 0 && OnSpine(pages, ReadSlot(pages[page], 0), level - 1)
  {
    RootPage(pages, page, level);
    if level > 0 {
      KidIsTree(SHAPE, Nodes(pages), page, level, 0);
      assert Spine(Nodes(pages), Nodes(pages)[page].children[0], level - 1);
    }
  }

  // ----- enumeration -----

  predicate Present(v: nat) {
    v != 0
  }

  ghost function ItemsOf(pages: map<nat, Image>, page: nat, level: nat, base: nat): seq<(nat, nat)> {
    Items(SHAPE, Nodes(pages), page, level, base, Present)
  }

  ghost predicate InRange(pages: map<nat, Image>, page: nat, level: nat, base: nat) {
    forall k: nat | Present(Get(SHAPE, Nodes(pages), page, level, k)) :: base + k <= U64_MAX
  }

  ghost function LeafUpTo(pages: map<nat, Image>, page: nat, base: nat, n: nat): seq<(nat, nat)>
    requires page in pages && n <= SLOTS_PER_PAGE
  {
    LeafItems<nat>(Slots(pages[page]), n, base, Present)
  }

  ghost function KidsUpTo(pages: map<nat, Image>, page: nat, level: nat, base: nat, n: nat): seq<(nat, nat)> {
    if level > 0 && page in Nodes(pages) && Nodes(pages)[page].Interior? && n <= |Nodes(pages)[page].children|
    then KidItems(SHAPE, Nodes(pages), page, level, base, Present, n) else []
  }

  lemma SeqAssoc<T>(a: seq<T>, b: seq<T>, c: seq<T>)
    ensures (a + b) + c == a + (b + c)
  {
  }

  lemma LeafStep(pages: map<nat, Image>, page: nat, base: nat, i: nat)
    requires IsTree(pages, page, 0) && page in pages && i < SLOTS_PER_PAGE
    ensures LeafUpTo(pages, page, base, 0) == []
    ensures LeafUpTo(pages, page, base, i + 1)
         == LeafUpTo(pages, page, base, i) + if ReadSlot(pages[page], i) != 0 then [(base + i, ReadSlot(pages[page], i))] else []
    ensures InRange(pages, page, 0, base) && ReadSlot(pages[page], i) != 0 ==> base + i <= U64_MAX
  {
    LeafValue(pages, page, i);
    assert Slots(pages[page])[i] == ReadSlot(pages[page], i);
  }

  lemma LeafAll(pages: map<nat, Image>, page: nat, base: nat, n: nat)
    requires IsTree(pages, page, 0) && page in pages && n <= SLOTS_PER_PAGE
    ensures LeafUpTo(pages, page, base, n) <= ItemsOf(pages, page, 0, base)
    ensures LeafUpTo(pages, page, base, SLOTS_PER_PAGE) == ItemsOf(pages, page, 0, base)
    ensures LeafUpTo(pages, page, base, 0) == []
  {
    RootPage(pages, page, 0);
    LeafPrefix<nat>(Slots(pages[page]), n, SLOTS_PER_PAGE, base, Present);
  }

  lemma KidStep(pages: map<nat, Image>, page: nat, level: nat, base: nat, i: nat)
    requires IsTree(pages, page, level) && page in pages && 0 < level && i < FANOUT
    ensures KidsUpTo(pages, page, level, base, 0) == []
    ensures KidsUpTo(pages, page, level, base, i + 1)
         == KidsUpTo(pages, page, level, base, i)
            + ItemsOf(pages, ReadSlot(pages[page], i), level - 1, base + i * Cap(SLOTS_PER_PAGE, level - 1))
    ensures ReadSlot(pages[page], i) == 0 ==> KidsUpTo(pages, page, level, base, i + 1) == KidsUpTo(pages, page, level, base, i)
    ensures ReadSlot(pages[page], i) != 0 ==> IsTree(pages, ReadSlot(pages[page], i), level - 1)
    ensures InRange(pages, page, level, base) ==>
              InRange(pages, ReadSlot(pages[page], i), level - 1, base + i * Cap(SLOTS_PER_PAGE, level - 1))
  {
    hide Tree, Reach, Cap, ReadSlot, Get, InRange;
    RootPage(pages, page, level);
    assert Slots(pages[page])[i] == ReadSlot(pages[page], i);
    KidIsTree(SHAPE, Nodes(pages), page, level, i);
    if InRange(pages, page, level, base) {
      KidInRange(pages, page, level, base, i);
    }
  }

  lemma KidInRange(pages: map<nat, Image>, page: nat, level: nat, base: nat, i: nat)
    requires IsTree(pages, page, level) && page in pages && 0 < level && i < FANOUT && InRange(pages, page, level, base)
    ensures InRange(pages, ReadSlot(pages[page], i), level - 1, base + i * Cap(SLOTS_PER_PAGE, level - 1))
  {
    hide Tree, Reach, Cap, ReadSlot, Get, Nodes;
    var span := Cap(SLOTS_PER_PAGE, level - 1);
    var below := level - 1;
    RootPage(pages, page, level);
    var c := ReadSlot(pages[page], i);
    assert Slots(pages[page])[i] == c;
    KidIsTree(SHAPE, Nodes(pages), page, level, i);
    forall k: nat | Present(Get(SHAPE, Nodes(pages), c, below, k)) ensures base + i * span + k <= U64_MAX {
      if k >= span {
        OutOfReach(SHAPE, Nodes(pages), c, below, k);
      } else {
        KidGet(SHAPE, Nodes(pages), page, level, i, i * span + k);
        assert Present(Get(SHAPE, Nodes(pages), page, level, i * span + k));
      }
    }
  }

  lemma KidsAll(pages: map<nat, Image>, page: nat, level: nat, base: nat, n: nat)
    requires IsTree(pages, page, level) && page in pages && 0 < level && n <= FANOUT
    ensures KidsUpTo(pages, page, level, base, n) <= ItemsOf(pages, page, level, base)
    ensures KidsUpTo(pages, page, level, base, FANOUT) == ItemsOf(pages, page, level, base)
    ensures KidsUpTo(pages, page, level, base, 0) == []
  {
    hide Tree, Reach;
    RootPage(pages, page, level);
    KidPrefix(SHAPE, Nodes(pages), page, level, base, Present, n, FANOUT);
  }

  /** Whether a tree is empty does not depend on the offset it is listed at. */
  lemma EmptyAtAnyBase(pages: map<nat, Image>, page: nat, level: nat, a: nat, b: nat)
    requires Tree(SHAPE, Nodes(pages), page, level)
    ensures ItemsOf(pages, page, level, a) == [] <==> ItemsOf(pages, page, level, b) == []
  {
    EmptyIffAbsent(pages, page, level, a);
    EmptyIffAbsent(pages, page, level, b);
  }

  lemma EmptyIffAbsent(pages: map<nat, Image>, page: nat, level: nat, base: nat)
    requires Tree(SHAPE, Nodes(pages), page, level)
    ensures ItemsOf(pages, page, level, base) == [] <==> forall k: nat :: Get(SHAPE, Nodes(pages), page, level, k) == 0
  {
    hide Tree, Reach, Get, Nodes, Items;
    var xs := ItemsOf(pages, page, level, base);
    ItemsList(SHAPE, Nodes(pages), page, level, base, Present);
    if xs == [] {
      forall k: nat ensures Get(SHAPE, Nodes(pages), page, level, k) == 0 {
        if k >= Cap(SLOTS_PER_PAGE, level) {
          OutOfReach(SHAPE, Nodes(pages), page, level, k);
        }
      }
    } else {
      assert xs[0] in xs;
      var k: nat := xs[0].0 - base;
      assert Get(SHAPE, Nodes(pages), page, level, k) != 0;
    }
  }

  ghost predicate IsTree(pages: map<nat, Image>, page: nat, level: nat) {
    0 < page && Tree(SHAPE, Nodes(pages), page, level)
  }

  /** What deleting `key` did: nothing if it was absent, otherwise a rebuilt path with 0 at `key`. */
  ghost predicate Deletion(hash: Hash, p0: map<nat, Image>, s0: set<nat>, page: nat, level: nat, key: nat,
                           p1: map<nat, Image>, s1: set<nat>, q: nat, prev: nat, freed: seq<nat>)
  {
    if prev == 0 then
      && p1 == p0 && s1 == s0 && q == page && freed == []
      && (Ready(p0, s0, page, level) ==> Get(SHAPE, Nodes(p0), page, level, key) == 0)
    else
      && q in s0
      && (Ready(p0, s0, page, level) ==>
            prev == Get(SHAPE, Nodes(p0), page, level, key) && Rebuilt(hash, p0, s0, page, level, key, 0, p1, s1, q, level, freed))
  }

  /** What the growth loop has done so far. */
  ghost predicate Growth(hash: Hash, p0: map<nat, Image>, root: nat, d0: nat, p1: map<nat, Image>, r: nat, d1: nat, A: set<nat>) {
    && Built(SHAPE, Nodes(p0), root, d0, Nodes(p1), r, d1, A, [])
    && SameValues(SHAPE, Nodes(p0), root, d0, Nodes(p1), r, d1)
    && AllStamped(hash, p1, A)
  }

  lemma GrowthStep(hash: Hash, p0: map<nat, Image>, root: nat, d0: nat, p1: map<nat, Image>, r: nat, d1: nat, A: set<nat>, n: nat)
    requires Growth(hash, p0, root, d0, p1, r, d1, A) && r < PAGE_ID_NONE
    requires 0 < n && n !in A && n !in Reach(Nodes(p0), root, d0)
    ensures Growth(hash, p0, root, d0, p1[n := Stamp(hash, WriteSlot(NewPage(TYPE_MEMBERSHIP_INTERIOR), 0, r))], n, d1 + 1, A + {n})
  {
    hide Tree, Get, SameValues, Stamp, Stamped, WriteSlot, NewPage, Reach, Nodes, Spine, Built;
    var p2 := p1[n := Stamp(hash, WriteSlot(NewPage(TYPE_MEMBERSHIP_INTERIOR), 0, r))];
    WriteSlotNode(hash, NewPage(TYPE_MEMBERSHIP_INTERIOR), 0, r);
    GrowthTree(hash, p0, root, d0, p1, r, d1, A);
    Grown(hash, p1, r, d1, n);
    BuiltAfterGrowth(SHAPE, Nodes(p0), root, d0, Nodes(p1), r, d1, A, Nodes(p2), n, d1 + 1, {n}, []);
    SameTrans(SHAPE, Nodes(p0), root, d0, Nodes(p1), r, d1, Nodes(p2), n, d1 + 1);
  }

  lemma GrowthTree(hash: Hash, p0: map<nat, Image>, root: nat, d0: nat, p1: map<nat, Image>, r: nat, d1: nat, A: set<nat>)
    requires Growth(hash, p0, root, d0, p1, r, d1, A)
    ensures 0 < r && Tree(SHAPE, Nodes(p1), r, d1)
    ensures Reach(Nodes(p1), r, d1) == Reach(Nodes(p0), root, d0) + A
  {
    hide Tree, Reach, SameValues, Nodes, Spine;
  }

  lemma GrowthReady(hash: Hash, p0: map<nat, Image>, root: nat, d0: nat, p1: map<nat, Image>, r: nat, d1: nat, s0: set<nat>, s1: set<nat>)
    requires Growth(hash, p0, root, d0, p1, r, d1, s0 - s1) && s1 <= s0 && Ready(p0, s0, root, d0)
    ensures Ready(p1, s1, r, d1)
  {
    hide Tree, Reach, SameValues, Nodes;
  }

  lemma FreedTypedLater(p0: map<nat, Image>, p1: map<nat, Image>, A: set<nat>, B: set<nat>, all: set<nat>, freed: seq<nat>)
    requires Wrote(p0, p1, A) && FreedTyped(p1, B, freed) && A + B <= all
    ensures FreedTyped(p0, all, freed)
  {
  }

  lemma FreedNone(p0: map<nat, Image>, drawn: set<nat>)
    ensures FreedTyped(p0, drawn, [])
  {
  }

  lemma FreedTypedOne(p0: map<nat, Image>, drawn: set<nat>, page: nat)
    requires page in p0 && IsNode(p0[page])
    ensures FreedTyped(p0, drawn, [page])
  {
  }
}
