/**
 FreeMapTree: the multi-page freemap. Every page it allocates comes from the caller's `extend`,
 never from the freemap itself. Within a session a committed page is copied the first time it is
 touched and edited in place afterwards.

 Types are checked on the way down, so the operations are defined on any pages at all; what they
 promise of a well-formed tree is guarded by `Session`.
 */
module FreeMapTree {
  import opened Pages
  import opened RadixTree
  import opened RadixPath
  import opened FreeMap
  import opened FreeMapPages
  import opened FreeMapSession
  import opened FreeMapScan

  class FreeMapTree {
    var root: u64
    var depth: nat
    var pending: seq<nat>
    var owned: set<nat>
    ghost var start: Start

    ghost predicate Valid(store: PageStore)
      reads this, store
    {
      Session(store.hash, start, store.pages, store.supply, root, depth, pending, owned)
    }

    ghost function Free(store: PageStore): iset<nat>
      reads this, store
    {
      FreeIds(store.pages, root, depth)
    }

    /** A committed tree the allocator stays clear of. */
    static ghost predicate Loadable(store: PageStore, root: nat, depth: nat)
      reads store
    {
      && 0 < root && depth <= MAX_DEPTH
      && Tree(SHAPE, Nodes(store.pages), root, depth) && InRange(store.pages, root, depth)
      && GoodSupply(store.supply, Reach(Nodes(store.pages), root, depth))
      && AllStamped(store.hash, store.pages, Reach(Nodes(store.pages), root, depth))
    }

    /** Open a session on a committed tree. */
    constructor FromRoots(ghost store: PageStore, root: u64, depth: nat)
      ensures this.root == root && this.depth == depth && pending == [] && owned == {}
      ensures start == Start(store.pages, root, depth)
      ensures Loadable(store, root, depth) ==> Valid(store)
    {
      this.root := root;
      this.depth := depth;
      this.pending := [];
      this.owned := {};
      this.start := Start(store.pages, root, depth);
      new;
      hide Tree, Reach, InRange, Nodes, Stamped;
      assert Elems([]) == {};
    }

    /** Pages the session may write: its own. */
    twostate predicate Kept(store: PageStore)
      reads this, store
    {
      && store.supply <= old(store.supply)
      && owned == old(owned) + (old(store.supply) - store.supply)
      && Wrote(old(store.pages), store.pages, owned)
      && old(pending) <= pending
      && start == old(start)
    }

    /** A descent in progress. */
    ghost predicate OnPath(store: PageStore, id: nat, current: nat, level: nat, rem: nat)
      reads this, store
    {
      Descending(store.hash, start, store.pages, store.supply, root, depth, pending, owned, id, current, level, rem)
    }

    method CowNode(store: PageStore, page: u64, expected: byte) returns (r: Result<u64>)
      requires IdsOk(store.supply)
      modifies this, store
      ensures store.asked <= old(store.asked) + 1
      ensures store.refusals == old(store.refusals) + if r == Err(AllocFailed) then 1 else 0
      ensures root == old(root) && depth == old(depth) && start == old(start)
      ensures r.Err? || page in old(owned) ==>
                store.pages == old(store.pages) && store.supply == old(store.supply) && owned == old(owned) && pending == old(pending)
      ensures page in old(owned) ==> r == Ok(page)
      ensures r.Err? ==>
                && page !in old(owned)
                && (r.error == AllocFailed || page !in store.pages || store.pages[page][0] != expected)
      ensures r.Ok? && page !in old(owned) ==>
                && r.value in old(store.supply) && store.supply == old(store.supply) - {r.value}
                && owned == old(owned) + {r.value} && pending == old(pending) + [page]
                && page in old(store.pages) && old(store.pages)[page][0] == expected
                && store.pages == old(store.pages)[r.value := if r.value == page then Zeros() else old(store.pages)[page]]
      ensures r.Ok? ==> r.value in owned
    {
      if page in owned {
        return Ok(page);
      }
      if page !in store.pages {
        return Err(MissingPage(page));
      }
      if store.pages[page][0] != expected {
        return Err(CorruptPage(page));
      }
      var a := store.AllocCopy(page);
      if a.Err? {
        return Err(a.error);
      }
      owned := owned + {a.value};
      pending := pending + [page];
      return Ok(a.value);
    }

    /** A node to stand where the descent found none. */
    method Materialize(store: PageStore, pageType: byte) returns (r: Result<u64>)
      requires IdsOk(store.supply)
      modifies this, store
      ensures store.asked <= old(store.asked) + 1
      ensures store.refusals == old(store.refusals) + if r == Err(AllocFailed) then 1 else 0
      ensures root == old(root) && depth == old(depth) && pending == old(pending) && start == old(start)
      ensures r.Err? ==>
                && r.error == AllocFailed
                && store.pages == old(store.pages) && store.supply == old(store.supply) && owned == old(owned)
      ensures r.Ok? ==>
                && r.value in old(store.supply) && store.supply == old(store.supply) - {r.value}
                && owned == old(owned) + {r.value}
                && store.pages == old(store.pages)[r.value := Stamp(store.hash, NewPage(pageType))]
    {
      var a := store.Alloc();
      if a.Err? {
        return Err(a.error);
      }
      store.pages := store.pages[a.value := Stamp(store.hash, NewPage(pageType))];
      owned := owned + {a.value};
      return Ok(a.value);
    }

    /**
     One level of the descent: make the child in slot `i` of `current` the session's own, creating
     it if absent, and point `current` at it. `id` and `rem` only say which descent this is part of.
     */
    method CowChild(store: PageStore, current: u64, i: nat, level: nat, ghost id: nat, ghost rem: nat) returns (r: Result<u64>)
      requires IdsOk(store.supply) && current in owned && i < FANOUT && 0 < level
      modifies this, store
      ensures store.asked <= old(store.asked) + 1
      ensures store.refusals == old(store.refusals) + if r == Err(AllocFailed) then 1 else 0
      ensures root == old(root) && depth == old(depth)
      ensures Kept(store) && IdsOk(store.supply)
      ensures r.Ok? ==> r.value in owned
      ensures old(OnPath(store, id, current, level, rem)) && i == Digit(rem, Cap(BITS_PER_LEAF, level - 1)) ==>
                if r.Ok? then
                  && OnPath(store, id, r.value, level - 1, Rem(rem, Cap(BITS_PER_LEAF, level - 1)))
                  && SameValues(SHAPE, old(Nodes(store.pages)), root, depth, Nodes(store.pages), root, depth)
                else
                  && r.error == AllocFailed && store.pages == old(store.pages) && store.supply == old(store.supply)
                  && pending == old(pending) && owned == old(owned)
    {
      hide Session, On, Tree, Reach, Digit, Rem, Cap, Stamp, Stamped, WriteSlot, ReadSlot, NewPage, Nodes, SameValues, Wrote;
      ghost var ok := OnPath(store, id, current, level, rem) && i == Digit(rem, Cap(BITS_PER_LEAF, level - 1));
      ghost var p0, s0, o0, pend0 := store.pages, store.supply, owned, pending;
      assert s0 - s0 == {};
      WroteNone(p0, owned);
      if ok {
        HereTyped(store.hash, start, p0, s0, root, depth, pending, owned, id, current, level, rem);
        ChildTyped(store.hash, start, p0, s0, root, depth, pending, owned, id, current, level, rem);
      }
      if current !in store.pages {
        return Err(MissingPage(current));
      }
      var child := ReadSlot(store.pages[current], i);
      if child == 0 {
        r := Materialize(store, TypeAt(level - 1));
      } else {
        r := CowNode(store, child, TypeAt(level - 1));
      }
      if r.Err? {
        return;
      }
      ghost var p1 := store.pages;
      WroteDrawn(p0, p1, o0, s0, store.supply, r.value);
      assert owned == o0 + (s0 - store.supply);
      store.pages := store.pages[current := Stamp(store.hash, WriteSlot(store.pages[current], i, r.value))];
      WroteMore(p0, p1, owned, current, store.pages[current]);
      if ok {
        DescendStep(store.hash, start, p0, s0, root, depth, pend0, o0, id, current, level, rem,
                    child, r.value, p1, store.pages, store.supply, pending, owned);
      }
    }

    /** The start of a descent: depth and range are checked, and the root is the session's own. */
    method CowRoot(store: PageStore, id: u64) returns (r: Result<()>)
      requires IdsOk(store.supply)
      modifies this, store
      ensures store.asked <= old(store.asked) + 1
      ensures store.refusals == old(store.refusals) + if r == Err(AllocFailed) then 1 else 0
      ensures Kept(store) && depth == old(depth)
      ensures r.Err? ==> store.pages == old(store.pages) && store.supply == old(store.supply) && root == old(root)
                         && owned == old(owned) && pending == old(pending)
      ensures old(Valid(store)) && r.Err? ==> r.error == AllocFailed || id >= Cap(BITS_PER_LEAF, depth)
      ensures r.Ok? ==> depth <= MAX_DEPTH && id < Cap(BITS_PER_LEAF, depth) && root in owned
      ensures old(Valid(store)) && r.Ok? ==> OnPath(store, id, root, depth, id)
      ensures old(Valid(store)) && r.Ok? ==> SameValues(SHAPE, old(Nodes(store.pages)), old(root), depth, Nodes(store.pages), root, depth)
    {
      hide Session, On, Tree, Reach, Digit, Rem, Cap, Get, Stamp, Stamped, Nodes, SameValues, Wrote, Descending;
      ghost var ok := Valid(store);
      ghost var p0, s0, o0, pend0, root0 := store.pages, store.supply, owned, pending, root;
      assert s0 - s0 == {};
      WroteNone(p0, owned);
      if depth > MAX_DEPTH {
        DepthOk(store.hash, start, p0, s0, root, depth, pending, owned, ok);
        return Err(CorruptPage(root));
      }
      var cap := Saturated(BITS_PER_LEAF, depth);
      if cap != U64_MAX && id >= cap {
        return Err(CorruptPage(root));
      }
      DepthBound();
      InReach(BITS_PER_LEAF, MAX_DEPTH, id, depth);
      var top := CowNode(store, root, TypeAt(depth));
      if top.Err? {
        if ok { RootTyped(store.hash, start, p0, s0, root, depth, pending, owned); }
        return Err(top.error);
      }
      root := top.value;
      if ok {
        RootReady(store.hash, start, p0, s0, root0, depth, pend0, o0, store.pages, store.supply, root, pending, owned, id);
      }
      WroteDrawn(p0, store.pages, o0, s0, store.supply, root);
      assert owned == o0 + (s0 - store.supply);
      return Ok(());
    }

    /**
     Copy the path to `id` where it is still committed, create what is missing, and apply the
     leaf operation. The loop works top down on a live tree: the root always leads to a whole
     tree that stands for the same set, until the last statement changes one bit of it.
     */
    method CowDescend(store: PageStore, id: u64, free: bool) returns (r: Result<()>)
      requires IdsOk(store.supply)
      modifies this, store
      ensures store.asked <= old(store.asked) + depth + 1
      ensures store.refusals == old(store.refusals) + if r == Err(AllocFailed) then 1 else 0
      ensures Kept(store) && depth == old(depth)
      ensures old(Valid(store)) ==> Valid(store)
      ensures old(Valid(store)) && r.Err? ==>
                && Free(store) == old(Free(store))
                && (r.error == AllocFailed || id >= Cap(BITS_PER_LEAF, depth))
      ensures old(Valid(store)) && r.Ok? ==>
                Free(store) == if free then old(Free(store)) + iset{id} else old(Free(store)) - iset{id}
    {
      hide Session, On, Tree, Reach, Digit, Rem, Cap, Get, Stamp, Stamped, WriteSlot, ReadSlot, NewPage, Edited, Nodes, SameValues,
        PutAt, FreeIds, Wrote, Descending;
      ghost var ok := Valid(store);
      ghost var p0, s0, o0, pend0, root0 := store.pages, store.supply, owned, pending, root;
      r := CowRoot(store, id);
      if r.Err? {
        return;
      }
      DepthBound();
      var current := root;
      var remaining: nat := id;
      var level: nat := depth;
      while level > 0
        invariant level <= depth <= MAX_DEPTH && depth == old(depth) && remaining < Cap(BITS_PER_LEAF, level)
        invariant store.asked <= old(store.asked) + 1 + (depth - level) && store.refusals == old(store.refusals)
        invariant current in owned && IdsOk(store.supply)
        invariant store.supply <= s0 && owned == o0 + (s0 - store.supply) && Wrote(p0, store.pages, owned)
        invariant pend0 <= pending && start == old(start)
        invariant ok ==> Descending(store.hash, start, store.pages, store.supply, root, depth, pending, owned, id, current, level, remaining)
        invariant ok ==> SameValues(SHAPE, Nodes(p0), root0, depth, Nodes(store.pages), root, depth)
      {
        ghost var p1, s1, o1 := store.pages, store.supply, owned;
        if ok {
          HereTyped(store.hash, start, p1, s1, root, depth, pending, owned, id, current, level, remaining);
          SameFree(p0, root0, depth, p1, root, depth);
        }
        var span := Saturated(BITS_PER_LEAF, level - 1);
        DigitInPage(BITS_PER_LEAF, MAX_DEPTH, remaining, level);
        var next := CowChild(store, current, remaining / span, level, id, remaining);
        WroteOwned(p0, p1, o0, o1, store.pages, s0, s1, store.supply);
        if next.Err? {
          return Err(next.error);
        }
        if ok {
          SameTrans(SHAPE, Nodes(p0), root0, depth, Nodes(p1), root, depth, Nodes(store.pages), root, depth);
        }
        remaining := remaining % span;
        current := next.value;
        level := level - 1;
      }
      CapZero(BITS_PER_LEAF);
      ghost var p1 := store.pages;
      if ok {
        SameFree(p0, root0, depth, p1, root, depth);
      }
      r := EditLeaf(store, current, remaining, free, id);
      WroteTrans(p0, p1, store.pages, owned, owned, owned);
    }

    /** The edit at the end of the descent. */
    method EditLeaf(store: PageStore, current: u64, remaining: nat, free: bool, ghost id: u64) returns (r: Result<()>)
      requires current in owned && remaining < BITS_PER_LEAF
      modifies store
      ensures store.asked == old(store.asked) && store.refusals == old(store.refusals) && r != Err(AllocFailed)
      ensures store.supply == old(store.supply) && Wrote(old(store.pages), store.pages, owned)
      ensures old(OnPath(store, id, current, 0, remaining)) ==>
                && r.Ok? && Valid(store)
                && Free(store) == if free then old(Free(store)) + iset{id} else old(Free(store)) - iset{id}
    {
      hide Session, On, Tree, Reach, Digit, Rem, Cap, Get, Stamp, Stamped, WriteSlot, ReadSlot, NewPage, Edited, Nodes, SameValues,
        PutAt, FreeIds, Wrote, Descending;
      ghost var p1 := store.pages;
      ghost var ok := OnPath(store, id, current, 0, remaining);
      WroteNone(p1, owned);
      if ok {
        HereTyped(store.hash, start, p1, store.supply, root, depth, pending, owned, id, current, 0, remaining);
      }
      if current !in store.pages {
        return Err(MissingPage(current));
      }
      if store.pages[current][0] != TYPE_FREEMAP {
        return Err(CorruptPage(current));
      }
      var bit := remaining % BITS_PER_LEAF;
      store.pages := store.pages[current := Stamp(store.hash, Edited(store.pages[current], bit, free))];
      WroteMore(p1, p1, owned, current, store.pages[current]);
      if ok {
        LeafStep(store.hash, start, p1, store.supply, root, depth, pending, owned, id, current, remaining, free, store.pages);
      }
      return Ok(());
    }

    /** A fresh freemap: one empty leaf, nothing free. */
    method Create(store: PageStore) returns (r: Result<()>)
      requires IdsOk(store.supply)
      modifies this, store
      ensures store.asked <= old(store.asked) + 1
      ensures store.refusals == old(store.refusals) + if r == Err(AllocFailed) then 1 else 0
      ensures r.Err? ==> r.error == AllocFailed && store.pages == old(store.pages) && store.supply == old(store.supply)
      ensures r.Ok? ==> Valid(store) && Free(store) == iset{} && depth == 0 && pending == [] && owned == {root}
      ensures r.Ok? ==> root in old(store.supply) && store.supply == old(store.supply) - {root}
      ensures r.Ok? ==> Wrote(old(store.pages), store.pages, {root})
    {
      ghost var p0 := store.pages;
      var a := store.Alloc();
      if a.Err? {
        return Err(a.error);
      }
      store.pages := store.pages[a.value := Stamp(store.hash, NewPage(TYPE_FREEMAP))];
      root := a.value;
      depth := 0;
      pending := [];
      owned := {root};
      start := Start(p0, 0, 0);
      CreatedSession(store.hash, p0, store.supply, root);
      return Ok(());
    }

    /** One more level above the root, unless the tree already covers every u64. */
    method Grow(store: PageStore) returns (r: Result<()>)
      requires IdsOk(store.supply)
      modifies this, store
      ensures store.asked <= old(store.asked) + 1
      ensures store.refusals == old(store.refusals) + if r == Err(AllocFailed) then 1 else 0
      ensures Kept(store) && IdsOk(store.supply)
      ensures r.Ok? ==> depth == if old(depth) >= MAX_DEPTH then old(depth) else old(depth) + 1
      ensures r.Err? ==> r.error == AllocFailed && root == old(root) && depth == old(depth) && pending == old(pending)
      ensures old(Valid(store)) ==> Valid(store) && Free(store) == old(Free(store))
    {
      hide Session, Stamp, WriteSlot, NewPage, Nodes, FreeIds, SameValues, InRange;
      ghost var p0, s0, o0 := store.pages, store.supply, owned;
      assert s0 - s0 == {};
      if depth >= MAX_DEPTH {
        return Ok(());
      }
      var a := store.Alloc();
      if a.Err? {
        return Err(a.error);
      }
      var buf := Stamp(store.hash, WriteSlot(NewPage(TYPE_FREEMAP_INTERIOR), 0, root));
      store.pages := store.pages[a.value := buf];
      assert s0 - store.supply == {a.value};
      assert store.pages == p0[a.value := buf];
      if old(Valid(store)) {
        SessionGrow(store.hash, start, p0, s0, root, depth, pending, owned, a.value, buf);
        SameFree(p0, root, depth, store.pages, a.value, depth + 1);
      }
      owned := owned + {a.value};
      root := a.value;
      depth := depth + 1;
      return Ok(());
    }

    method MarkFree(store: PageStore, id: u64) returns (r: Result<()>)
      requires IdsOk(store.supply)
      modifies this, store
      ensures store.asked <= old(store.asked) + depth + 1
      ensures store.refusals == old(store.refusals) + if r == Err(AllocFailed) then 1 else 0
      ensures Kept(store) && depth == old(depth)
      ensures old(Valid(store)) ==> Valid(store)
      ensures old(Valid(store)) && r.Err? ==>
                && Free(store) == old(Free(store))
                && (r.error == AllocFailed || id >= Cap(BITS_PER_LEAF, depth))
      ensures old(Valid(store)) && r.Ok? ==> Free(store) == old(Free(store)) + iset{id}
    {
      r := CowDescend(store, id, true);
    }

    method ClearBit(store: PageStore, id: u64) returns (r: Result<()>)
      requires IdsOk(store.supply)
      modifies this, store
      ensures store.asked <= old(store.asked) + depth + 1
      ensures store.refusals == old(store.refusals) + if r == Err(AllocFailed) then 1 else 0
      ensures Kept(store) && depth == old(depth)
      ensures old(Valid(store)) ==> Valid(store)
      ensures old(Valid(store)) && r.Err? ==>
                && Free(store) == old(Free(store))
                && (r.error == AllocFailed || id >= Cap(BITS_PER_LEAF, depth))
      ensures old(Valid(store)) && r.Ok? ==> Free(store) == old(Free(store)) - iset{id}
    {
      r := CowDescend(store, id, false);
    }

    /** Free any page id at all: grow until it is in range, then mark it. */
    method MarkFreeGrowing(store: PageStore, id: u64) returns (r: Result<()>)
      requires IdsOk(store.supply)
      modifies this, store
      ensures store.asked <= old(store.asked) + 2 * MAX_DEPTH + 1
      ensures store.refusals == old(store.refusals) + if r == Err(AllocFailed) then 1 else 0
      ensures Kept(store)
      ensures old(Valid(store)) ==> Valid(store)
      ensures old(Valid(store)) && r.Err? ==> r.error == AllocFailed && Free(store) == old(Free(store))
      ensures old(Valid(store)) && r.Ok? ==> Free(store) == old(Free(store)) + iset{id}
    {
      hide Session, FreeIds, Wrote, Cap;
      ghost var ok := Valid(store);
      ghost var p0, s0, o0 := store.pages, store.supply, owned;
      assert s0 - s0 == {};
      WroteNone(p0, owned);
      DepthOk(store.hash, start, p0, s0, root, depth, pending, owned, ok);
      if depth > MAX_DEPTH {
        return Err(CorruptPage(root));
      }
      var cap := Saturated(BITS_PER_LEAF, depth);
      while cap <= id && depth < MAX_DEPTH
        invariant old(depth) <= depth <= MAX_DEPTH && cap == Min(Cap(BITS_PER_LEAF, depth), U64_MAX)
        invariant store.asked <= old(store.asked) + (depth - old(depth)) && store.refusals == old(store.refusals)
        invariant IdsOk(store.supply) && Kept(store)
        invariant ok ==> Valid(store) && Free(store) == old(Free(store))
        decreases MAX_DEPTH - depth
      {
        ghost var p1, s1, o1 := store.pages, store.supply, owned;
        var g := Grow(store);
        WroteOwned(p0, p1, o0, o1, store.pages, s0, s1, store.supply);
        if g.Err? {
          return g;
        }
        cap := Saturated(BITS_PER_LEAF, depth);
      }
      DepthBound();
      ghost var p1, s1, o1 := store.pages, store.supply, owned;
      r := MarkFree(store, id);
      WroteOwned(p0, p1, o0, o1, store.pages, s0, s1, store.supply);
    }

    /**
     The leaf covering `id`, if there is one. On any pages it succeeds exactly if the depth is legal and
     every page on the way, the leaf too, is there and of the right kind.
     */
    method FindLeaf(store: PageStore, id: u64) returns (r: Result<Option<u64>>)
      ensures r.Ok? && r.value.Some? ==> r.value.value in store.pages && store.pages[r.value.value][0] == TYPE_FREEMAP
      ensures 0 < root ==>
                (r.Ok? <==> depth <= MAX_DEPTH
                            && (id >= Cap(BITS_PER_LEAF, depth) || Passable(SHAPE, Nodes(store.pages), root, depth, id, true)))
      ensures 0 < root && r.Ok? && r.value.None? ==> !FreeBit(store.pages, root, depth, id)
      ensures 0 < root && r.Ok? && r.value.Some? ==>
                0 < r.value.value && FreeBit(store.pages, root, depth, id) == FreeBit(store.pages, r.value.value, 0, id % BITS_PER_LEAF)
    {
      hide Get, Nodes, Cap, ReadSlot, Passable, Reached, Quotient, Remainder, Digit, Rem;
      if depth > MAX_DEPTH {
        return Err(CorruptPage(root));
      }
      var cap := Saturated(BITS_PER_LEAF, depth);
      if cap != U64_MAX && id >= cap {
        AnyFull(store.pages);
        FarOut(SHAPE, Nodes(store.pages), root, depth, id);
        return Ok(None);
      }
      DepthBound();
      InReach(BITS_PER_LEAF, MAX_DEPTH, id, depth);
      if 0 < root {
        ReachedStart(store.pages, root, depth, id);
      }
      var current: u64, remaining: nat, level: nat := root, id, depth;
      while level > 0
        invariant level <= depth <= MAX_DEPTH && remaining < Cap(BITS_PER_LEAF, level)
        invariant 0 < root ==> Reached(store.pages, root, depth, id, current, level, remaining)
      {
        var span := Saturated(BITS_PER_LEAF, level - 1);
        SplitInPage(BITS_PER_LEAF, MAX_DEPTH, remaining, level);
        var childIdx := Quotient(remaining, span);
        if 0 < root {
          ReachedStep(store.pages, root, depth, id, current, level, remaining);
        }
        if current !in store.pages {
          return Err(MissingPage(current));
        }
        if store.pages[current][0] != TYPE_FREEMAP_INTERIOR {
          return Err(CorruptPage(current));
        }
        var child := ReadSlot(store.pages[current], childIdx);
        if child == 0 {
          return Ok(None);
        }
        remaining := Remainder(remaining, span);
        current := child;
        level := level - 1;
      }
      if 0 < root {
        ReachedLeaf(store.pages, root, depth, id, current, remaining);
      }
      if current !in store.pages {
        return Err(MissingPage(current));
      }
      if store.pages[current][0] != TYPE_FREEMAP {
        return Err(CorruptPage(current));
      }
      return Ok(Some(current));
    }

    /** Is a page id free? On any pages the answer is what the pages on the way hold, or an error. */
    method IsFree(store: PageStore, id: u64) returns (r: Result<bool>)
      ensures 0 < root ==>
                (r.Ok? <==> depth <= MAX_DEPTH
                            && (id >= Cap(BITS_PER_LEAF, depth) || Passable(SHAPE, Nodes(store.pages), root, depth, id, true)))
      ensures 0 < root && r.Ok? ==> r.value == FreeBit(store.pages, root, depth, id)
      ensures Valid(store) ==> r == Ok(id in Free(store))
    {
      hide Tree, Reach, Get, Nodes, BitAt, Bitmap, Wrote, Accounts, GoodSupply, AllStamped, InRange, Passable, Cap;
      if Valid(store) && id < Cap(BITS_PER_LEAF, depth) {
        TreePassable(SHAPE, Nodes(store.pages), root, depth, id, true);
      }
      var found := FindLeaf(store, id);
      match found
      case Err(e) => return Err(e);
      case Ok(None) => return Ok(false);
      case Ok(Some(leaf)) =>
        if 0 < leaf {
          AnyLeafBit(store.pages, leaf, id % BITS_PER_LEAF);
        }
        return Ok(BitAt(Bitmap(store.pages[leaf]), id % BITS_PER_LEAF));
    }

    /** The lowest free id at or above `lo` beneath `page`; `trueBase` is where its ids really start. */
    method ScanNode(store: PageStore, page: nat, level: nat, base: nat, lo: u64, ghost trueBase: nat) returns (r: Result<Option<nat>>)
      requires level <= MAX_DEPTH && base == Min(trueBase, U64_MAX)
      ensures r != Err(AllocFailed)
      ensures IsTree(store.pages, page, level) ==> r.Ok?
      ensures r.Ok? ==> page in store.pages && store.pages[page][0] == TypeAt(level)
      ensures IsTree(store.pages, page, level) && level > 0 && lo == U64_MAX ==> r == Ok(None)
      ensures IsTree(store.pages, page, level) && Fits(store.pages, page, level, trueBase) && (lo < U64_MAX || level == 0) ==>
                Scanned(store.pages, page, level, trueBase, lo, r.value)
      decreases level
    {
      hide Tree, Reach, FreeBit, Nodes, Cap, ReadSlot, BitAt, Bitmap, Fits, Nothing, Lowest, Scanned, SatMul, SatAdd;
      ghost var tree := IsTree(store.pages, page, level);
      ghost var ok := tree && Fits(store.pages, page, level, trueBase) && (lo < U64_MAX || level == 0);
      if tree {
        RootPage(store.pages, page, level);
      }
      if page !in store.pages {
        return Err(MissingPage(page));
      }
      if store.pages[page][0] != TypeAt(level) {
        return Err(CorruptPage(page));
      }
      if level == 0 {
        var localLo := if lo > base then lo - base else 0;
        var found := FirstFreeBitFrom(store.pages[page], localLo);
        if ok {
          LeafScanned(store.pages, page, trueBase, lo, found);
        }
        return Ok(if found.None? then None else Some(base + found.value));
      }
      var span := Saturated(BITS_PER_LEAF, level - 1);
      DepthBound();
      SpanFits(BITS_PER_LEAF, MAX_DEPTH, level);
      if ok {
        NothingYet(store.pages, page, level, trueBase, lo);
      }
      for i := 0 to FANOUT
        invariant ok ==> Nothing(store.pages, page, level, trueBase, lo, i * span)
      {
        var child := ReadSlot(store.pages[page], i);
        if child != 0 {
          var childBase := SatAdd(base, SatMul(i, span));
          var childEnd := SatAdd(childBase, span);
          SaturatedBase(trueBase, i, span);
          if childEnd > lo {
            if tree {
              KidSlot(store.pages, page, level, i);
            }
            if ok {
              KidFits(store.pages, page, level, trueBase, i);
            }
            var sub := ScanNode(store, child, level - 1, childBase, lo, trueBase + i * span);
            if sub.Err? || sub.value.Some? {
              if ok {
                SubFound(store.pages, page, level, trueBase, lo, i, sub.value);
              }
              return sub;
            }
            if ok {
              SubNothing(store.pages, child, level - 1, trueBase + i * span, lo);
            }
          }
        }
        if ok {
          KidNothing(store.pages, page, level, trueBase, lo, i);
        }
      }
      if ok {
        NothingLeft(store.pages, page, level, trueBase, lo);
      }
      return Ok(None);
    }

    method ScanFrom(store: PageStore, lo: u64) returns (r: Result<Option<nat>>)
      ensures r != Err(AllocFailed)
      ensures depth > MAX_DEPTH ==> r == Err(CorruptPage(root))
      ensures Valid(store) ==> r.Ok?
      ensures Valid(store) && depth > 0 && lo == U64_MAX ==> r == Ok(None)
      ensures Valid(store) && (lo < U64_MAX || depth == 0) && r.value.Some? ==> LowestFrom(Free(store), lo, r.value.value)
      ensures Valid(store) && (lo < U64_MAX || depth == 0) && r.value.None? ==> NoneFrom(Free(store), lo)
    {
      hide Tree, Reach, Get, Nodes, Cap, Fits, Wrote, Accounts, GoodSupply, AllStamped, Nothing, Lowest;
      if depth > MAX_DEPTH {
        return Err(CorruptPage(root));
      }
      if Valid(store) {
        AllFit(store.pages, root, depth);
      }
      r := ScanNode(store, root, depth, 0, lo, 0);
      if Valid(store) && (lo < U64_MAX || depth == 0) {
        ScanMeans(store.pages, root, depth, lo, r.value);
      }
    }

    /**
     Claim the lowest free id at or above the hint. Exactly one hint is answered wrongly: with
     2^64 - 1 free, a scan from 2^64 - 1 misses it.
     */
    method AllocateFirst(store: PageStore, hint: u64) returns (r: Result<Option<nat>>, newHint: u64)
      requires IdsOk(store.supply)
      modifies this, store
      ensures store.asked <= old(store.asked) + depth + 1
      ensures store.refusals == old(store.refusals) + if r == Err(AllocFailed) then 1 else 0
      ensures Kept(store) && depth == old(depth)
      ensures old(Valid(store)) ==> Valid(store)
      ensures r.Err? || r.value.None? ==> newHint == hint
      ensures old(Valid(store)) && r.Err? ==> r.error == AllocFailed && Free(store) == old(Free(store))
      ensures old(Valid(store)) && r.Ok? && r.value.None? ==>
                Free(store) == old(Free(store)) && store.pages == old(store.pages) && store.supply == old(store.supply)
      ensures old(Valid(store)) && r.Ok? && r.value.Some? ==>
                && LowestFrom(old(Free(store)), hint, r.value.value) && newHint == r.value.value
                && Free(store) == old(Free(store)) - iset{r.value.value}
      ensures old(Valid(store)) && r.Ok? ==>
                ((r.value.None? <==> NoneFrom(old(Free(store)), hint)) <==> hint < U64_MAX || U64_MAX !in old(Free(store)))
    {
      hide Session, FreeIds, Wrote, Cap;
      newHint := hint;
      ghost var p0, s0, o0, free := store.pages, store.supply, owned, Free(store);
      assert s0 - s0 == {};
      WroteNone(p0, owned);
      var found := ScanFrom(store, hint);
      if Valid(store) {
        LastId(store.hash, start, p0, s0, root, depth, pending, owned);
      }
      if found.Err? || found.value.None? {
        return found, hint;
      }
      if found.value.value > U64_MAX {
        return Err(CorruptPage(root)), hint;
      }
      if Valid(store) {
        InCapacity(store.hash, start, p0, s0, root, depth, pending, owned, found.value.value);
      }
      var c := ClearBit(store, found.value.value);
      if c.Err? {
        return Err(c.error), hint;
      }
      return Ok(Some(found.value.value)), found.value.value;
    }

    /** The pages the tree occupies, each type-checked; the walk terminates on any pages. */
    method CollectReachable(store: PageStore, page: nat, level: nat, acc: set<nat>) returns (r: Result<set<nat>>)
      ensures page != 0 && r.Ok? ==> r.value == acc + Reach(Nodes(store.pages), page, level)
      ensures r.Ok? ==> page in store.pages && store.pages[page][0] == TypeAt(level)
      ensures IsTree(store.pages, page, level) ==> r.Ok?
      decreases level
    {
      hide Tree, Reach, Nodes, ReadSlot, UpTo;
      var all := acc + {page};
      ghost var tree := IsTree(store.pages, page, level);
      if tree {
        RootPage(store.pages, page, level);
      }
      if page !in store.pages {
        return Err(MissingPage(page));
      }
      if store.pages[page][0] != TypeAt(level) {
        return Err(CorruptPage(page));
      }
      if level == 0 {
        if page != 0 {
          LeafReach(store.pages, page);
        }
        return Ok(all);
      }
      UpToNext(store.pages, page, level, 0);
      for i := 0 to FANOUT
        invariant all == acc + {page} + UpTo(store.pages, page, level, i)
      {
        var child := ReadSlot(store.pages[page], i);
        if tree {
          KidSlot(store.pages, page, level, i);
        }
        UpToNext(store.pages, page, level, i);
        NoPages(store.pages, level - 1);
        if child != 0 {
          var sub := CollectReachable(store, child, level - 1, all);
          if sub.Err? {
            return sub;
          }
          all := sub.value;
        }
      }
      if page != 0 {
        UpToAll(store.pages, page, level);
      }
      return Ok(all);
    }

    method ReachablePages(store: PageStore) returns (r: Result<set<nat>>)
      ensures depth <= MAX_DEPTH && root == PAGE_ID_NONE ==> r == Ok({})
      ensures root != PAGE_ID_NONE && root != 0 && r.Ok? ==> r.value == Reach(Nodes(store.pages), root, depth)
      ensures Valid(store) ==> r.Ok?
    {
      hide Tree, Reach, Nodes, Wrote, Accounts, GoodSupply, AllStamped, InRange;
      if depth > MAX_DEPTH {
        return Err(CorruptPage(root));
      }
      if root == PAGE_ID_NONE {
        return Ok({});
      }
      r := CollectReachable(store, root, depth, {});
    }
  }

  // ----- reading on any pages -----

  lemma AnyFull(pages: map<nat, Image>)
    ensures FullNodes(SHAPE, Nodes(pages))
  {
    hide BitAt, ReadSlot;
  }

  /** A descent from (p, level, k) has come to (q, m, j): the rest of the way decides. */
  ghost predicate Reached(pages: map<nat, Image>, p: nat, level: nat, k: nat, q: nat, m: nat, j: nat) {
    && 0 < q && j < Cap(BITS_PER_LEAF, m) && j % BITS_PER_LEAF == k % BITS_PER_LEAF
    && FreeBit(pages, p, level, k) == FreeBit(pages, q, m, j)
    && (Passable(SHAPE, Nodes(pages), p, level, k, true) <==> Passable(SHAPE, Nodes(pages), q, m, j, true))
  }

  lemma ReachedStart(pages: map<nat, Image>, p: nat, level: nat, k: nat)
    requires 0 < p && k < Cap(BITS_PER_LEAF, level)
    ensures Reached(pages, p, level, k, p, level, k)
  {
  }

  lemma ReachedStep(pages: map<nat, Image>, p: nat, level: nat, k: nat, q: nat, m: nat, j: nat)
    requires Reached(pages, p, level, k, q, m, j) && 0 < m <= MAX_DEPTH
    ensures Quotient(j, Cap(BITS_PER_LEAF, m - 1)) < FANOUT
    ensures !(q in pages && pages[q][0] == TYPE_FREEMAP_INTERIOR) ==> !Passable(SHAPE, Nodes(pages), p, level, k, true)
    ensures q in pages && pages[q][0] == TYPE_FREEMAP_INTERIOR ==>
              var span := Cap(BITS_PER_LEAF, m - 1);
              var child := ReadSlot(pages[q], Quotient(j, span));
              && (child == 0 ==> Passable(SHAPE, Nodes(pages), p, level, k, true) && !FreeBit(pages, p, level, k))
              && (child != 0 ==> Reached(pages, p, level, k, child, m - 1, Remainder(j, span)))
  {
    hide Get, Cap, Digit, Rem, Passable, ReadSlot, BitAt, Bitmap;
    DepthBound();
    DigitInPage(BITS_PER_LEAF, MAX_DEPTH, j, m);
    LeafLocal(j, m - 1);
    AnyFull(pages);
    PassStep(SHAPE, Nodes(pages), q, m, j, true);
  }

  lemma ReachedLeaf(pages: map<nat, Image>, p: nat, level: nat, k: nat, q: nat, j: nat)
    requires Reached(pages, p, level, k, q, 0, j)
    ensures 0 < q && FreeBit(pages, p, level, k) == FreeBit(pages, q, 0, k % BITS_PER_LEAF)
    ensures Passable(SHAPE, Nodes(pages), p, level, k, true) <==> q in pages && pages[q][0] == TYPE_FREEMAP
  {
    hide BitAt, Bitmap, ReadSlot, Get;
    assert j % BITS_PER_LEAF == j;
  }

  lemma AnyLeafBit(pages: map<nat, Image>, page: nat, k: nat)
    requires 0 < page && page in pages && pages[page][0] == TYPE_FREEMAP && k < BITS_PER_LEAF
    ensures FreeBit(pages, page, 0, k) <==> BitAt(Bitmap(pages[page]), k)
  {
    hide BitAt, Bitmap;
  }

  /** A descent in progress: a whole session state, with `current` on the path of `id`. */
  ghost predicate Descending(hash: Hash, start: Start, pages: map<nat, Image>, supply: set<nat>, root: nat, depth: nat,
                             pending: seq<nat>, owned: set<nat>, id: nat, current: nat, level: nat, rem: nat)
  {
    && Session(hash, start, pages, supply, root, depth, pending, owned)
    && 0 < current && On(SHAPE, Nodes(pages), root, depth, id, current, level, rem)
  }

  lemma DepthOk(hash: Hash, start: Start, pages: map<nat, Image>, supply: set<nat>, root: nat, depth: nat,
                pending: seq<nat>, owned: set<nat>, ok: bool)
    requires ok <==> Session(hash, start, pages, supply, root, depth, pending, owned)
    ensures ok ==> depth <= MAX_DEPTH
  {
  }

  lemma RootTyped(hash: Hash, start: Start, pages: map<nat, Image>, supply: set<nat>, root: nat, depth: nat,
                  pending: seq<nat>, owned: set<nat>)
    requires Session(hash, start, pages, supply, root, depth, pending, owned)
    ensures root in pages && pages[root][0] == TypeAt(depth)
  {
    RootPage(pages, root, depth);
  }

  lemma WroteOwned(p0: map<nat, Image>, p1: map<nat, Image>, o0: set<nat>, o1: set<nat>, p2: map<nat, Image>,
                   s0: set<nat>, s1: set<nat>, s2: set<nat>)
    requires s2 <= s1 <= s0 && o1 == o0 + (s0 - s1) && Wrote(p0, p1, o1) && Wrote(p1, p2, o1 + (s1 - s2))
    ensures Wrote(p0, p2, o0 + (s0 - s2)) && o0 + (s0 - s2) == o1 + (s1 - s2)
  {
  }

  lemma WroteDrawn(p0: map<nat, Image>, p1: map<nat, Image>, o0: set<nat>, s0: set<nat>, s1: set<nat>, n: nat)
    requires (s1 == s0 && p1 == p0) || (n in s0 && s1 == s0 - {n} && n in p1 && p1 == p0[n := p1[n]])
    ensures Wrote(p0, p1, o0 + (s0 - s1)) && (n in s0 && s1 == s0 - {n} ==> s0 - s1 == {n})
  {
  }

  lemma RootReady(hash: Hash, start: Start, p0: map<nat, Image>, s0: set<nat>, root0: nat, depth: nat, pend0: seq<nat>, o0: set<nat>,
                  p1: map<nat, Image>, s1: set<nat>, root: nat, pending: seq<nat>, owned: set<nat>, id: nat)
    requires Session(hash, start, p0, s0, root0, depth, pend0, o0)
    requires root0 in o0 ==> p1 == p0 && s1 == s0 && root == root0 && pending == pend0 && owned == o0
    requires root0 !in o0 ==>
               && root in s0 && s1 == s0 - {root} && owned == o0 + {root} && pending == pend0 + [root0]
               && root0 in p0 && p1 == p0[root := if root == root0 then Zeros() else p0[root0]]
    ensures Descending(hash, start, p1, s1, root, depth, pending, owned, id, root, depth, id)
    ensures SameValues(SHAPE, Nodes(p0), root0, depth, Nodes(p1), root, depth)
  {
    hide Tree, Reach, Nodes, Stamped, InRange, Wrote;
    if root0 !in o0 {
      InTree(hash, start, p0, s0, root0, depth, pend0, o0);
      SessionRoot(hash, start, p0, s0, root0, depth, pend0, o0, root);
    }
  }

  /** The root is a page of the tree, so the allocator does not hand it out. */
  lemma InTree(hash: Hash, start: Start, pages: map<nat, Image>, supply: set<nat>, root: nat, depth: nat, pending: seq<nat>, owned: set<nat>)
    requires Session(hash, start, pages, supply, root, depth, pending, owned)
    ensures root !in supply && Reach(Nodes(pages), root, depth) !! supply
  {
    RootPage(pages, root, depth);
    hide Tree, Reach, Nodes;
    assert Reach(Nodes(pages), root, depth) <= Committed(start) + owned;
  }

  lemma HereTyped(hash: Hash, start: Start, pages: map<nat, Image>, supply: set<nat>, root: nat, depth: nat,
                  pending: seq<nat>, owned: set<nat>, id: nat, current: nat, level: nat, rem: nat)
    requires Descending(hash, start, pages, supply, root, depth, pending, owned, id, current, level, rem)
    ensures Session(hash, start, pages, supply, root, depth, pending, owned)
    ensures current in pages && pages[current][0] == TypeAt(level) && current !in supply
  {
    hide On, Tree, Reach, Nodes;
    OnNode(pages, root, depth, id, current, level, rem);
    InTree(hash, start, pages, supply, root, depth, pending, owned);
  }

  lemma ChildTyped(hash: Hash, start: Start, pages: map<nat, Image>, supply: set<nat>, root: nat, depth: nat,
                   pending: seq<nat>, owned: set<nat>, id: nat, current: nat, level: nat, rem: nat)
    requires Descending(hash, start, pages, supply, root, depth, pending, owned, id, current, level, rem)
    requires level > 0 && current in pages && Digit(rem, Cap(BITS_PER_LEAF, level - 1)) < FANOUT
    ensures var child := ReadSlot(pages[current], Digit(rem, Cap(BITS_PER_LEAF, level - 1)));
            child != 0 ==> child in pages && pages[child][0] == TypeAt(level - 1) && child !in supply
  {
    hide On, Tree, Reach, Nodes, Digit, Rem, Cap, ReadSlot;
    var child := ReadSlot(pages[current], Digit(rem, Cap(BITS_PER_LEAF, level - 1)));
    OnNode(pages, root, depth, id, current, level, rem);
    if child != 0 {
      OnStep(SHAPE, Nodes(pages), root, depth, id, current, level, rem);
      OnNode(pages, root, depth, id, child, level - 1, Rem(rem, Cap(BITS_PER_LEAF, level - 1)));
      InTree(hash, start, pages, supply, root, depth, pending, owned);
    }
  }

  lemma DescendStep(hash: Hash, start: Start, p1: map<nat, Image>, s1: set<nat>, root: nat, depth: nat, pend1: seq<nat>, o1: set<nat>,
                    id: nat, current: nat, level: nat, rem: nat, child: u64, next: u64,
                    p2: map<nat, Image>, p3: map<nat, Image>, s3: set<nat>, pending: seq<nat>, owned: set<nat>)
    requires Descending(hash, start, p1, s1, root, depth, pend1, o1, id, current, level, rem)
    requires level > 0 && current in o1 && current in p1 && current in p2 && Digit(rem, Cap(BITS_PER_LEAF, level - 1)) < FANOUT
    requires child == ReadSlot(p1[current], Digit(rem, Cap(BITS_PER_LEAF, level - 1)))
    requires child != 0 && child in o1 ==> p2 == p1 && s3 == s1 && next == child && pending == pend1 && owned == o1
    requires child == 0 ==>
               && next in s1 && s3 == s1 - {next} && owned == o1 + {next} && pending == pend1
               && p2 == p1[next := Stamp(hash, NewPage(TypeAt(level - 1)))]
    requires child != 0 && child !in o1 ==>
               && next in s1 && s3 == s1 - {next} && owned == o1 + {next} && pending == pend1 + [child]
               && child in p1 && p2 == p1[next := if next == child then Zeros() else p1[child]]
    requires p3 == p2[current := Stamp(hash, WriteSlot(p2[current], Digit(rem, Cap(BITS_PER_LEAF, level - 1)), next))]
    ensures Descending(hash, start, p3, s3, root, depth, pending, owned, id, next, level - 1, Rem(rem, Cap(BITS_PER_LEAF, level - 1)))
    ensures SameValues(SHAPE, Nodes(p1), root, depth, Nodes(p3), root, depth)
  {
    hide Session, On, Tree, Reach, Nodes, Digit, Rem, Cap, Stamp, WriteSlot, ReadSlot, NewPage, SameValues;
    HereTyped(hash, start, p1, s1, root, depth, pend1, o1, id, current, level, rem);
    ChildTyped(hash, start, p1, s1, root, depth, pend1, o1, id, current, level, rem);
    if child != 0 && child in o1 {
      SessionStay(hash, start, p1, s1, root, depth, pend1, o1, id, current, level, rem, p3);
    } else {
      NotOwned(hash, start, p1, s1, root, depth, pend1, o1);
      assert pend1 + [] == pend1;
      SessionStep(hash, start, p1, s1, root, depth, pend1, o1, id, current, level, rem, next, p2, p3, pending);
    }
  }

  lemma NotOwned(hash: Hash, start: Start, pages: map<nat, Image>, supply: set<nat>, root: nat, depth: nat, pending: seq<nat>, owned: set<nat>)
    requires Session(hash, start, pages, supply, root, depth, pending, owned)
    ensures IdsOk(supply) && supply !! owned
  {
  }

  lemma LeafStep(hash: Hash, start: Start, p1: map<nat, Image>, supply: set<nat>, root: nat, depth: nat, pending: seq<nat>, owned: set<nat>,
                 id: u64, current: nat, rem: nat, free: bool, p2: map<nat, Image>)
    requires Descending(hash, start, p1, supply, root, depth, pending, owned, id, current, 0, rem)
    requires rem < BITS_PER_LEAF && current in owned && current in p1
    requires p2 == p1[current := Stamp(hash, Edited(p1[current], rem, free))]
    ensures Session(hash, start, p2, supply, root, depth, pending, owned)
    ensures FreeIds(p2, root, depth) == if free then FreeIds(p1, root, depth) + iset{id} else FreeIds(p1, root, depth) - iset{id}
  {
    hide Session, On, Nodes, Stamp, Edited, PutAt, FreeIds, InRange;
    SessionLeaf(hash, start, p1, supply, root, depth, pending, owned, id, current, rem, free, p2);
    PutFree(p1, root, depth, p2, root, depth, id, free);
  }

  lemma CreatedSession(hash: Hash, p0: map<nat, Image>, supply: set<nat>, n: nat)
    requires IdsOk(supply) && 0 < n < PAGE_ID_NONE && n !in supply
    ensures var p1 := p0[n := Stamp(hash, NewPage(TYPE_FREEMAP))];
            Session(hash, Start(p0, 0, 0), p1, supply, n, 0, [], {n}) && FreeIds(p1, n, 0) == iset{}
  {
    hide Stamp, NewPage, Nodes, Stamped;
    var p1 := p0[n := Stamp(hash, NewPage(TYPE_FREEMAP))];
    NewPageNode(hash, p1, n, 0);
    EmptyNodeIsTree(SHAPE, Nodes(p1), n, 0);
    hide Tree;
    assert Reach(Nodes(p0), 0, 0) == {};
    hide Reach;
    assert Elems([]) == {};
  }

  /** Reducing a key modulo a span keeps its position within its leaf. */
  lemma LeafLocal(k: nat, level: nat)
    ensures (k % Cap(BITS_PER_LEAF, level)) % BITS_PER_LEAF == k % BITS_PER_LEAF
  {
    var q, t := Digit(k, Cap(BITS_PER_LEAF, level)), Rem(k, Cap(BITS_PER_LEAF, level));
    DigitIsDiv(k, Cap(BITS_PER_LEAF, level));
    DigitCompose(k, Cap(BITS_PER_LEAF, level));
    LeafCount(level);
    hide Cap, Digit, Rem;
    Regroup(q, Cap(1, level), BITS_PER_LEAF);
    ModAdd(q * Cap(1, level), t);
  }

  /** A span is a whole number of leaves. */
  lemma {:induction false} LeafCount(level: nat)
    ensures Cap(BITS_PER_LEAF, level) == Cap(1, level) * BITS_PER_LEAF
  {
    if level > 0 {
      LeafCount(level - 1);
    }
  }

  lemma Regroup(a: nat, b: nat, c: nat)
    ensures a * (b * c) == (a * b) * c
  {
  }

  lemma ModAdd(a: nat, b: nat)
    ensures (a * BITS_PER_LEAF + b) % BITS_PER_LEAF == b % BITS_PER_LEAF
  {
  }

  lemma NoPages(pages: map<nat, Image>, level: nat)
    ensures Reach(Nodes(pages), 0, level) == {}
  {
  }

  ghost predicate LowestFrom(free: iset<nat>, lo: nat, x: nat) {
    x in free && x >= lo && forall y: nat | y in free && y >= lo :: x <= y
  }

  ghost predicate NoneFrom(free: iset<nat>, lo: nat) {
    forall y: nat | y in free :: y < lo
  }

  lemma AllFit(pages: map<nat, Image>, root: nat, depth: nat)
    requires InRange(pages, root, depth)
    ensures Fits(pages, root, depth, 0)
  {
    hide Get, Nodes;
  }

  /** A scan of the whole tree, in terms of the free set. */
  lemma ScanMeans(pages: map<nat, Image>, root: nat, depth: nat, lo: nat, r: Option<nat>)
    requires IsTree(pages, root, depth) && Scanned(pages, root, depth, 0, lo, r)
    ensures r.Some? ==> LowestFrom(FreeIds(pages, root, depth), lo, r.value)
    ensures r.None? ==> NoneFrom(FreeIds(pages, root, depth), lo)
  {
    hide Get, Nodes, Tree;
    if r.Some? {
      assert FreeBit(pages, root, depth, r.value - 0);
      forall y: nat | y in FreeIds(pages, root, depth) && y >= lo ensures r.value <= y {
        assert FreeBit(pages, root, depth, y);
      }
    } else {
      forall y: nat | y in FreeIds(pages, root, depth) ensures y < lo {
        NothingAtAll(pages, root, depth, 0, lo, y);
      }
    }
  }

  lemma LastId(hash: Hash, start: Start, pages: map<nat, Image>, supply: set<nat>, root: nat, depth: nat,
               pending: seq<nat>, owned: set<nat>)
    requires Session(hash, start, pages, supply, root, depth, pending, owned)
    ensures NoneFrom(FreeIds(pages, root, depth), U64_MAX) <==> U64_MAX !in FreeIds(pages, root, depth)
    ensures U64_MAX in FreeIds(pages, root, depth) ==> depth > 0
    ensures forall x: nat | x in FreeIds(pages, root, depth) :: x <= U64_MAX
  {
    hide Get, Nodes, Tree;
    forall x: nat | x in FreeIds(pages, root, depth) ensures x <= U64_MAX {
      assert Get(SHAPE, Nodes(pages), root, depth, x);
    }
    if U64_MAX in FreeIds(pages, root, depth) {
      InCapacity(hash, start, pages, supply, root, depth, pending, owned, U64_MAX);
      CapZero(BITS_PER_LEAF);
    }
  }

  lemma InCapacity(hash: Hash, start: Start, pages: map<nat, Image>, supply: set<nat>, root: nat, depth: nat,
                   pending: seq<nat>, owned: set<nat>, x: nat)
    requires Session(hash, start, pages, supply, root, depth, pending, owned) && x in FreeIds(pages, root, depth)
    ensures x < Cap(BITS_PER_LEAF, depth)
  {
    hide Get, Nodes, Tree, Cap;
    if x >= Cap(BITS_PER_LEAF, depth) {
      OutOfReach(SHAPE, Nodes(pages), root, depth, x);
    }
  }
}
