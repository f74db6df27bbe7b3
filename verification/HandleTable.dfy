/**
 The handle table: a copy-on-write radix tree from u64 handles to entries.

 A table is a root page and a depth. `Map` is what it means: the handles that look up to a
 live or overflow entry. Every mutation writes only pages the allocator just handed it,
 so every older root keeps its meaning.
 */
module HandleTable {
  import opened Pages
  import opened RadixTree
  import opened HandlePages
  import opened RadixItems

  // ----- what a table means -----

  ghost function At(pages: map<nat, Image>, root: nat, depth: nat, k: nat): HandleEntry {
    Get(SHAPE, Nodes(pages), root, depth, k)
  }

  ghost function Map(pages: map<nat, Image>, root: nat, depth: nat): map<nat, HandleEntry> {
    map k: nat | 0 <= k <= U64_MAX && At(pages, root, depth, k).flags != Deleted :: At(pages, root, depth, k)
  }

  ghost function Occupies(pages: map<nat, Image>, root: nat, depth: nat): set<nat> {
    Reach(Nodes(pages), root, depth)
  }

  ghost predicate Valid(pages: map<nat, Image>, root: nat, depth: nat) {
    && 0 < root < PAGE_ID_NONE && depth <= MAX_DEPTH
    && Tree(SHAPE, Nodes(pages), root, depth)
    && Spine(Nodes(pages), root, depth)
    && (forall k: nat | k > U64_MAX :: At(pages, root, depth, k).flags == Deleted)
  }

  /** The map with `handle` bound to `e`; a deleted entry unbinds it. */
  ghost function Bind(m: map<nat, HandleEntry>, handle: nat, e: HandleEntry): map<nat, HandleEntry> {
    if e.flags == Deleted then m - {handle} else m[handle := e]
  }

  // ----- lifting tree facts to the map -----

  lemma MapAfterPut(p0: map<nat, Image>, r0: nat, d0: nat, p1: map<nat, Image>, r1: nat, d1: nat,
                    handle: u64, e: HandleEntry)
    requires PutAt(SHAPE, Nodes(p0), r0, d0, Nodes(p1), r1, d1, handle, e)
    ensures Map(p1, r1, d1) == Bind(Map(p0, r0, d0), handle, e)
  {
    forall k: nat ensures At(p1, r1, d1, k) == if k == handle then e else At(p0, r0, d0, k) {
    }
  }

  /** An older root keeps its pages and its map, whatever is written to other pages. */
  lemma Persists(p0: map<nat, Image>, p1: map<nat, Image>, A: set<nat>, root: nat, depth: nat)
    requires Wrote(p0, p1, A) && A !! Occupies(p0, root, depth)
    ensures Occupies(p1, root, depth) == Occupies(p0, root, depth)
    ensures Map(p1, root, depth) == Map(p0, root, depth)
    ensures Valid(p1, root, depth) <==> Valid(p0, root, depth)
  {
    NodesWrote(p0, p1, A);
    FrameAll(SHAPE, Nodes(p0), Nodes(p1), root, depth);
    forall k: nat ensures At(p1, root, depth, k) == At(p0, root, depth, k) {
    }
  }

  /** Two page spaces with equal bodies on the table's pages, such as two views of the cache, hold the same table. */
  lemma BodiesDecide(p0: map<nat, Image>, p1: map<nat, Image>, root: nat, depth: nat)
    requires forall q | q in Occupies(p0, root, depth) :: (q in p0 <==> q in p1) && (q in p0 ==> Body(p0[q]) == Body(p1[q]))
    ensures Occupies(p1, root, depth) == Occupies(p0, root, depth)
    ensures Map(p1, root, depth) == Map(p0, root, depth)
    ensures Valid(p1, root, depth) <==> Valid(p0, root, depth)
  {
    forall q | q in Occupies(p0, root, depth) ensures SameAt(Nodes(p0), Nodes(p1), q) {
      if q in p0 {
        BodyDecides(p0[q], p1[q]);
      }
    }
    hide Body, NodeOf;
    FrameAll(SHAPE, Nodes(p0), Nodes(p1), root, depth);
    forall k: nat ensures At(p1, root, depth, k) == At(p0, root, depth, k) {
    }
  }

  /** What the pages of a tree's root look like. */
  lemma RootPage(pages: map<nat, Image>, page: nat, level: nat)
    requires 0 < page && Tree(SHAPE, Nodes(pages), page, level)
    ensures page in pages && page in Occupies(pages, page, level)
    ensures level == 0 ==> NodeOf(pages[page]).Leaf? && IsLeaf(pages[page])
    ensures level > 0 ==> NodeOf(pages[page]).Interior? && IsInterior(pages[page])
  {
    assert Nodes(pages)[page] == NodeOf(pages[page]);
  }

  lemma LinkedNodes(hash: Hash, p0: map<nat, Image>, page: nat, level: nat, i: nat, c: u64, p2: map<nat, Image>, n: nat)
    requires 0 < page && 0 < level && Tree(SHAPE, Nodes(p0), page, level) && i < FANOUT && page in p0
    ensures page in Nodes(p0) && Nodes(p0)[page].Interior? && i < |Nodes(p0)[page].children|
    ensures Nodes(p2[n := Stamp(hash, WriteSlot(p0[page], i, c))])
         == Nodes(p2)[n := Interior(Nodes(p0)[page].children[i := c])]
  {
    RootPage(p0, page, level);
    WriteChildNode(hash, p0[page], i, c);
  }

  /** A leaf copied to `n` with one entry written. */
  lemma LeafWritten(hash: Hash, p0: map<nat, Image>, page: nat, index: nat, entry: HandleEntry, n: nat)
    requires 0 < page && page in p0 && Tree(SHAPE, Nodes(p0), page, 0) && index < ENTRIES_PER_LEAF
    requires 0 < n && n !in Occupies(p0, page, 0)
    ensures Built(SHAPE, Nodes(p0), page, 0, Nodes(p0[n := Stamp(hash, WriteEntry(p0[page], index, entry))]), n, 0, {n}, [page])
    ensures PutAt(SHAPE, Nodes(p0), page, 0, Nodes(p0[n := Stamp(hash, WriteEntry(p0[page], index, entry))]), n, 0, index, entry)
    ensures Stamped(hash, Stamp(hash, WriteEntry(p0[page], index, entry)))
  {
    hide Stamp, WriteEntry, Stamped;
    RootPage(p0, page, 0);
    WriteEntryNode(hash, p0[page], index, entry);
    CowLeaf(SHAPE, Nodes(p0), page, index, entry, Nodes(p0[n := Stamp(hash, WriteEntry(p0[page], index, entry))]), n);
  }

  lemma RootChild(pages: map<nat, Image>, page: nat, level: nat, i: nat)
    requires 0 < page && 0 < level && Tree(SHAPE, Nodes(pages), page, level) && i < FANOUT && page in pages
    ensures page in Nodes(pages) && Nodes(pages)[page].Interior? && |Nodes(pages)[page].children| == FANOUT
    ensures Nodes(pages)[page].children[i] == ReadSlot(pages[page], i)
  {
    RootPage(pages, page, level);
  }

  lemma Grown(hash: Hash, p0: map<nat, Image>, oldRoot: nat, depth: nat, n: nat)
    requires 0 < oldRoot < PAGE_ID_NONE && Tree(SHAPE, Nodes(p0), oldRoot, depth)
    requires 0 < n && n !in Occupies(p0, oldRoot, depth)
    ensures Built(SHAPE, Nodes(p0), oldRoot, depth,
                  Nodes(p0[n := Stamp(hash, WriteSlot(NewPage(FLAG_INTERIOR), 0, oldRoot))]), n, depth + 1, {n}, [])
    ensures SameValues(SHAPE, Nodes(p0), oldRoot, depth,
                       Nodes(p0[n := Stamp(hash, WriteSlot(NewPage(FLAG_INTERIOR), 0, oldRoot))]), n, depth + 1)
    ensures Stamped(hash, Stamp(hash, WriteSlot(NewPage(FLAG_INTERIOR), 0, oldRoot)))
  {
    hide Built, SameValues, Tree, Reach, Stamped, Stamp, WriteSlot;
    var p1 := p0[n := Stamp(hash, WriteSlot(NewPage(FLAG_INTERIOR), 0, oldRoot))];
    WriteChildNode(hash, NewPage(FLAG_INTERIOR), 0, oldRoot);
    GrowRoot(SHAPE, Nodes(p0), oldRoot, depth, Nodes(p1), n);
  }

  /** After growth the remaining supply still avoids the tree. */
  lemma BuiltSupply(p0: map<nat, Image>, root: nat, d0: nat, p1: map<nat, Image>, r: nat, d1: nat, s0: set<nat>, s1: set<nat>)
    requires Built(SHAPE, Nodes(p0), root, d0, Nodes(p1), r, d1, s0 - s1, []) && s1 <= s0
    requires GoodSupply(s0, Occupies(p0, root, d0))
    ensures r != 0 && Tree(SHAPE, Nodes(p1), r, d1) && GoodSupply(s1, Occupies(p1, r, d1))
  {
    hide Tree, Reach;
  }

  lemma BuiltValid(p0: map<nat, Image>, r0: nat, d0: nat, p1: map<nat, Image>, r1: nat, d1: nat, A: set<nat>, f: seq<nat>,
                   handle: u64, e: HandleEntry)
    requires Valid(p0, r0, d0) && r1 < PAGE_ID_NONE && d1 <= MAX_DEPTH
    requires Built(SHAPE, Nodes(p0), r0, d0, Nodes(p1), r1, d1, A, f)
    requires PutAt(SHAPE, Nodes(p0), r0, d0, Nodes(p1), r1, d1, handle, e)
    ensures Valid(p1, r1, d1)
    ensures Conserved(Occupies(p0, r0, d0), A, Occupies(p1, r1, d1), f)
  {
    hide Tree, Reach, Get, Spine, Nodes;
    forall k: nat | k > U64_MAX ensures At(p1, r1, d1, k).flags == Deleted {
      assert At(p0, r0, d0, k).flags == Deleted;
    }
  }

  ghost function Find(m: map<nat, HandleEntry>, handle: nat): Option<HandleEntry> {
    if handle in m then Some(m[handle]) else None
  }

  /** What deleting `handle` from the tree at `page` did: nothing if absent, otherwise a rebuilt path. */
  ghost predicate Deletion(hash: Hash, p0: map<nat, Image>, s0: set<nat>, page: nat, level: nat, handle: nat,
                           p1: map<nat, Image>, s1: set<nat>, q: nat, prev: Option<HandleEntry>, freed: seq<nat>)
  {
    match prev
    case None =>
      && p1 == p0 && s1 == s0 && q == page && freed == []
      && Get(SHAPE, Nodes(p0), page, level, handle).flags == Deleted
    case Some(e) =>
      && e == Get(SHAPE, Nodes(p0), page, level, handle) && e.flags != Deleted && q in s0
      && Built(SHAPE, Nodes(p0), page, level, Nodes(p1), q, level, s0 - s1, freed)
      && PutAt(SHAPE, Nodes(p0), page, level, Nodes(p1), q, level, handle, TOMBSTONE)
      && AllStamped(hash, p1, s0 - s1)
  }

  lemma LeafEntry(pages: map<nat, Image>, page: nat, index: nat)
    requires 0 < page && page in pages && Tree(SHAPE, Nodes(pages), page, 0) && index < ENTRIES_PER_LEAF
    ensures Get(SHAPE, Nodes(pages), page, 0, index) == ReadEntry(pages[page], index)
  {
    RootPage(pages, page, 0);
  }

  lemma NoSubtree(pages: map<nat, Image>, level: nat, k: nat)
    ensures Get(SHAPE, Nodes(pages), 0, level, k) == TOMBSTONE
  {
  }

  ghost predicate OnSpine(pages: map<nat, Image>, page: nat, level: nat) {
    0 < page && Tree(SHAPE, Nodes(pages), page, level) && Spine(Nodes(pages), page, level)
  }

  lemma ValidOnSpine(pages: map<nat, Image>, root: nat, depth: nat)
    requires Valid(pages, root, depth)
    ensures OnSpine(pages, root, depth)
  {
  }

  lemma SpineStep(pages: map<nat, Image>, page: nat, level: nat)
    requires OnSpine(pages, page, level)
    ensures page in pages
    ensures level == 0 <==> pages[page][1] != FLAG_INTERIOR
    ensures level > 0 ==> IsInterior(pages[page]) && ReadSlot(pages[page], 0) != 0
    ensures level > 0 ==> OnSpine(pages, ReadSlot(pages[page], 0), level - 1)
  {
    RootPage(pages, page, level);
    if level > 0 {
      RootChild(pages, page, level, 0);
      KidIsTree(SHAPE, Nodes(pages), page, level, 0);
      assert Spine(Nodes(pages), Nodes(pages)[page].children[0], level - 1);
    }
  }

  // ----- enumeration -----

  predicate IsLive(e: HandleEntry) {
    e.flags != Deleted
  }

  /** No live key beneath `page` exceeds u64. */
  ghost predicate InRange(pages: map<nat, Image>, page: nat, level: nat, trueBase: nat) {
    forall k: nat | IsLive(Get(SHAPE, Nodes(pages), page, level, k)) :: trueBase + k <= U64_MAX
  }

  lemma RootInRange(pages: map<nat, Image>, root: nat, depth: nat)
    requires Valid(pages, root, depth)
    ensures InRange(pages, root, depth, 0)
  {
    forall k: nat | IsLive(Get(SHAPE, Nodes(pages), root, depth, k)) ensures 0 + k <= U64_MAX {
      assert At(pages, root, depth, k).flags != Deleted;
    }
  }

  /** The leaf walk, one slot at a time. */
  lemma LeafItemsStep(pages: map<nat, Image>, page: nat, base: nat, i: nat)
    requires 0 < page && page in pages && Tree(SHAPE, Nodes(pages), page, 0) && i < ENTRIES_PER_LEAF
    requires InRange(pages, page, 0, base)
    ensures LeafItems(Entries(pages[page]), 0, base, IsLive) == []
    ensures LeafItems(Entries(pages[page]), i + 1, base, IsLive)
         == LeafItems(Entries(pages[page]), i, base, IsLive)
            + if IsLive(ReadEntry(pages[page], i)) then [(base + i, ReadEntry(pages[page], i))] else []
    ensures IsLive(ReadEntry(pages[page], i)) ==> base + i <= U64_MAX
    ensures Items(SHAPE, Nodes(pages), page, 0, base, IsLive) == LeafItems(Entries(pages[page]), ENTRIES_PER_LEAF, base, IsLive)
  {
    RootPage(pages, page, 0);
    LeafEntry(pages, page, i);
    assert Nodes(pages)[page] == Leaf(Entries(pages[page]));
    assert Entries(pages[page])[i] == ReadEntry(pages[page], i);
  }

  ghost function KidsOf(pages: map<nat, Image>, page: nat, level: nat, base: nat, n: nat): seq<(nat, HandleEntry)> {
    if level > 0 && page in Nodes(pages) && Nodes(pages)[page].Interior? && n <= |Nodes(pages)[page].children|
    then KidItems(SHAPE, Nodes(pages), page, level, base, IsLive, n) else []
  }

  /** The interior walk, one child at a time. */
  lemma KidItemsStep(pages: map<nat, Image>, page: nat, level: nat, base: nat, i: nat)
    requires 0 < page && page in pages && 0 < level && Tree(SHAPE, Nodes(pages), page, level) && i < FANOUT
    ensures KidsOf(pages, page, level, base, 0) == []
    ensures KidsOf(pages, page, level, base, i + 1)
         == KidsOf(pages, page, level, base, i)
            + Items(SHAPE, Nodes(pages), ReadSlot(pages[page], i), level - 1, base + i * Cap(ENTRIES_PER_LEAF, level - 1), IsLive)
    ensures ReadSlot(pages[page], i) == 0 ==> KidsOf(pages, page, level, base, i + 1) == KidsOf(pages, page, level, base, i)
    ensures Items(SHAPE, Nodes(pages), page, level, base, IsLive) == KidsOf(pages, page, level, base, FANOUT)
    ensures Tree(SHAPE, Nodes(pages), ReadSlot(pages[page], i), level - 1)
  {
    hide Tree, Reach, Cap, ReadSlot;
    RootChild(pages, page, level, i);
    KidIsTree(SHAPE, Nodes(pages), page, level, i);
  }

  lemma KidInRange(pages: map<nat, Image>, page: nat, level: nat, base: nat, i: nat)
    requires 0 < page && page in pages && 0 < level && Tree(SHAPE, Nodes(pages), page, level) && i < FANOUT
    requires InRange(pages, page, level, base)
    ensures InRange(pages, ReadSlot(pages[page], i), level - 1, base + i * Cap(ENTRIES_PER_LEAF, level - 1))
  {
    hide Tree, Reach, Cap, ReadSlot, Get, Nodes;
    var span := Cap(ENTRIES_PER_LEAF, level - 1);
    RootChild(pages, page, level, i);
    KidIsTree(SHAPE, Nodes(pages), page, level, i);
    var below := level - 1;
    forall k: nat | IsLive(Get(SHAPE, Nodes(pages), ReadSlot(pages[page], i), below, k))
      ensures base + i * span + k <= U64_MAX
    {
      if k >= span {
        OutOfReach(SHAPE, Nodes(pages), ReadSlot(pages[page], i), level - 1, k);
      } else {
        KidGet(SHAPE, Nodes(pages), page, level, i, i * span + k);
        assert IsLive(Get(SHAPE, Nodes(pages), page, level, i * span + k));
      }
    }
  }

  /** The enumeration of a table is its map. */
  lemma ItemsAreMap(pages: map<nat, Image>, root: nat, depth: nat)
    requires Valid(pages, root, depth)
    ensures Ascending(Items(SHAPE, Nodes(pages), root, depth, 0, IsLive))
    ensures forall k: nat, e :: (k, e) in Items(SHAPE, Nodes(pages), root, depth, 0, IsLive)
                       <==> k in Map(pages, root, depth) && Map(pages, root, depth)[k] == e
  {
    hide Tree, Reach, Cap, Get, Nodes, Items, Spine;
    ItemsList(SHAPE, Nodes(pages), root, depth, 0, IsLive);
    var xs := Items(SHAPE, Nodes(pages), root, depth, 0, IsLive);
    forall k: nat, e
      ensures (k, e) in xs <==> k in Map(pages, root, depth) && Map(pages, root, depth)[k] == e
    {
      if k >= Cap(ENTRIES_PER_LEAF, depth) {
        OutOfReach(SHAPE, Nodes(pages), root, depth, k);
      }
      if k > U64_MAX {
        assert At(pages, root, depth, k).flags == Deleted;
      }
    }
  }

  /** An interior page copied to `n`, with a child to descend into at slot `i`: the old one, or a new empty one. */
  ghost predicate Opened(hash: Hash, p0: map<nat, Image>, s0: set<nat>, page: nat, level: nat, i: nat, n: nat,
                         pm: map<nat, Image>, sm: set<nat>, child: nat)
    requires level > 0 && i < FANOUT
  {
    && page in p0 && n in pm && pm[n] == p0[page] && n !in sm && sm <= s0 && Wrote(p0, pm, s0 - sm)
    && page in Nodes(p0) && Nodes(p0)[page].Interior? && i < |Nodes(p0)[page].children|
    && Prepared(SHAPE, Nodes(p0), s0, page, level, i, n, Nodes(pm), sm, child)
    && AllStamped(hash, pm, s0 - sm - {n})
  }

  /** One level of an insertion: the rebuilt child linked into the copy. */
  lemma LevelRebuilt(hash: Hash, p0: map<nat, Image>, s0: set<nat>, page: nat, level: nat, key: nat, e: HandleEntry, n: nat,
                     pm: map<nat, Image>, sm: set<nat>, child: nat, p2: map<nat, Image>, s2: set<nat>, c: u64, fc: seq<nat>)
    requires 0 < level && 0 < page && Tree(SHAPE, Nodes(p0), page, level) && GoodSupply(s0, Occupies(p0, page, level))
    requires Digit(key, Cap(ENTRIES_PER_LEAF, level - 1)) < FANOUT
    requires Opened(hash, p0, s0, page, level, Digit(key, Cap(ENTRIES_PER_LEAF, level - 1)), n, pm, sm, child)
    requires s2 <= sm && Wrote(pm, p2, sm - s2) && AllStamped(hash, p2, sm - s2)
    requires Built(SHAPE, Nodes(pm), child, level - 1, Nodes(p2), c, level - 1, sm - s2, fc)
    requires PutAt(SHAPE, Nodes(pm), child, level - 1, Nodes(p2), c, level - 1, Rem(key, Cap(ENTRIES_PER_LEAF, level - 1)), e)
    ensures var p3 := p2[n := Stamp(hash, WriteSlot(p0[page], Digit(key, Cap(ENTRIES_PER_LEAF, level - 1)), c))];
            && Built(SHAPE, Nodes(p0), page, level, Nodes(p3), n, level, s0 - s2, [page] + fc)
            && PutAt(SHAPE, Nodes(p0), page, level, Nodes(p3), n, level, key, e)
            && AllStamped(hash, p3, s0 - s2)
  {
    hide Built, PutAt, Tree, Reach, Get, Stamp, Stamped, WriteSlot, ReadSlot, Digit, Rem, Cap, Nodes, Wrote;
    var i := Digit(key, Cap(ENTRIES_PER_LEAF, level - 1));
    StampVerifies(hash, WriteSlot(p0[page], i, c));
    StampedLevel(hash, pm, s0 - sm - {n}, p2, sm - s2, n, Stamp(hash, WriteSlot(p0[page], i, c)), s0 - s2);
    NodesWrote(pm, p2, sm - s2);
    LinkedNodes(hash, p0, page, level, i, c, p2, n);
    AfterDescent(SHAPE, Nodes(p0), s0, page, level, key, e, n, Nodes(pm), sm, child, Nodes(p2), s2, c, fc);
  }

  // ----- reading on any pages -----

  /** From `p` down child 0 there are `d` interior pages of a handle table, ending at a page that is none or at an empty slot. */
  ghost predicate LeftWay(pages: map<nat, Image>, p: nat, d: nat)
    decreases d
  {
    p in pages &&
    if d == 0 then pages[p][1] != FLAG_INTERIOR
    else IsInterior(pages[p]) && if ReadSlot(pages[p], 0) == 0 then d == 1 else LeftWay(pages, ReadSlot(pages[p], 0), d - 1)
  }

  lemma LeftSteps(pages: map<nat, Image>, p: nat)
    requires p in pages
    ensures pages[p][1] != FLAG_INTERIOR ==> LeftWay(pages, p, 0)
    ensures IsInterior(pages[p]) && ReadSlot(pages[p], 0) == 0 ==> LeftWay(pages, p, 1)
    ensures IsInterior(pages[p]) && ReadSlot(pages[p], 0) != 0 ==>
              forall d: nat :: LeftWay(pages, ReadSlot(pages[p], 0), d) ==> LeftWay(pages, p, d + 1)
  {
    hide ReadSlot;
  }

  /** What a reader sees of an entry. */
  function Unless(e: HandleEntry): Option<HandleEntry> {
    if e.flags == Deleted then None else Some(e)
  }

  lemma FoundIn(pages: map<nat, Image>, root: nat, depth: nat, handle: u64)
    ensures Find(Map(pages, root, depth), handle) == Unless(At(pages, root, depth, handle))
  {
    hide Get, Nodes;
  }

  lemma AnyFull(pages: map<nat, Image>)
    ensures FullNodes(SHAPE, Nodes(pages))
  {
    hide ReadEntry, ReadSlot;
  }

  /** An error only where the way is blocked, nothing only where nothing is stored, otherwise the leaf that decides. */
  ghost predicate LeafAnswer(pages: map<nat, Image>, p: nat, level: nat, k: nat, r: Result<Option<(nat, nat)>>) {
    match r
    case Err(_) => k < Cap(ENTRIES_PER_LEAF, level) && !Passable(SHAPE, Nodes(pages), p, level, k, false)
    case Ok(None) =>
      && At(pages, p, level, k) == TOMBSTONE
      && (k < Cap(ENTRIES_PER_LEAF, level) ==> Passable(SHAPE, Nodes(pages), p, level, k, false))
    case Ok(Some((leaf, index))) =>
      && 0 < leaf && k < Cap(ENTRIES_PER_LEAF, level) && index < ENTRIES_PER_LEAF
      && (Passable(SHAPE, Nodes(pages), p, level, k, false) <==> leaf in pages)
      && (Passable(SHAPE, Nodes(pages), p, level, k, true) <==> leaf in pages && IsLeaf(pages[leaf]))
      && At(pages, p, level, k) == Get(SHAPE, Nodes(pages), leaf, 0, index)
  }

  lemma FarAnswer(pages: map<nat, Image>, p: nat, level: nat, k: nat)
    requires k >= Cap(ENTRIES_PER_LEAF, level)
    ensures LeafAnswer(pages, p, level, k, Ok(None))
  {
    hide Get, Cap, Passable, Nodes;
    AnyFull(pages);
    FarOut(SHAPE, Nodes(pages), p, level, k);
  }

  /** A descent from (p, level, k) has come to (q, m, j): the rest of the way decides. */
  ghost predicate Reached(pages: map<nat, Image>, p: nat, level: nat, k: nat, q: nat, m: nat, j: nat) {
    && k < Cap(ENTRIES_PER_LEAF, level) && 0 < q && j < Cap(ENTRIES_PER_LEAF, m) && At(pages, p, level, k) == At(pages, q, m, j)
    && (Passable(SHAPE, Nodes(pages), p, level, k, true) <==> Passable(SHAPE, Nodes(pages), q, m, j, true))
    && (Passable(SHAPE, Nodes(pages), p, level, k, false) <==> Passable(SHAPE, Nodes(pages), q, m, j, false))
  }

  lemma ReachedStart(pages: map<nat, Image>, p: nat, level: nat, k: nat)
    requires 0 < p && k < Cap(ENTRIES_PER_LEAF, level)
    ensures Reached(pages, p, level, k, p, level, k)
  {
  }

  lemma ReachedStep(pages: map<nat, Image>, p: nat, level: nat, k: nat, q: nat, m: nat, j: nat)
    requires Reached(pages, p, level, k, q, m, j) && 0 < m <= MAX_DEPTH
    ensures Quotient(j, Cap(ENTRIES_PER_LEAF, m - 1)) < FANOUT && Cap(ENTRIES_PER_LEAF, m - 1) <= U64_MAX
    ensures q !in pages ==> LeafAnswer(pages, p, level, k, Err(MissingPage(q)))
    ensures q in pages && !IsInterior(pages[q]) ==> LeafAnswer(pages, p, level, k, Err(CorruptPage(q)))
    ensures q in pages && IsInterior(pages[q]) ==>
              var span := Cap(ENTRIES_PER_LEAF, m - 1);
              var child := ReadSlot(pages[q], Quotient(j, span));
              && (child == 0 ==> LeafAnswer(pages, p, level, k, Ok(None)))
              && (child != 0 ==> Reached(pages, p, level, k, child, m - 1, Remainder(j, span)))
  {
    hide Get, Cap, Digit, Rem, Passable, ReadSlot, ReadEntry;
    DepthBound();
    DigitInPage(ENTRIES_PER_LEAF, MAX_DEPTH, j, m);
    AnyFull(pages);
    PassStep(SHAPE, Nodes(pages), q, m, j, true);
    PassStep(SHAPE, Nodes(pages), q, m, j, false);
  }

  lemma ReachedLeaf(pages: map<nat, Image>, p: nat, level: nat, k: nat, q: nat, j: nat)
    requires Reached(pages, p, level, k, q, 0, j)
    ensures LeafAnswer(pages, p, level, k, Ok(Some((q, j % ENTRIES_PER_LEAF))))
  {
    hide ReadEntry, ReadSlot, Get;
    assert j % ENTRIES_PER_LEAF == j;
  }

  lemma LeafSlot(pages: map<nat, Image>, page: nat, i: nat)
    requires 0 < page && page in pages && IsLeaf(pages[page]) && i < ENTRIES_PER_LEAF
    ensures Get(SHAPE, Nodes(pages), page, 0, i) == ReadEntry(pages[page], i)
  {
    hide ReadEntry, ReadSlot;
  }

  class HandleTable {
    var depth: nat

    constructor ()
      ensures depth == 0
    {
      depth := 0;
    }

    /** The empty table: one zeroed leaf. */
    method CreateRoot(store: PageStore) returns (r: Result<nat>)
      requires GoodSupply(store.supply, {})
      modifies this, store
      ensures store.asked <= old(store.asked) + 1
      ensures store.refusals == old(store.refusals) + if r.Err? then 1 else 0
      ensures store.supply <= old(store.supply)
      ensures Wrote(old(store.pages), store.pages, old(store.supply) - store.supply)
      ensures r.Err? ==> depth == old(depth)
      ensures r.Ok? ==> depth == 0 && Valid(store.pages, r.value, depth)
      ensures r.Ok? ==> Map(store.pages, r.value, depth) == map[]
      ensures r.Ok? ==> Occupies(store.pages, r.value, depth) == old(store.supply) - store.supply
    {
      var a := store.Alloc();
      if a.Err? {
        return a;
      }
      store.pages := store.pages[a.value := Stamp(store.hash, NewPage(FLAG_LEAF))];
      depth := 0;
      NewPageNode(store.hash, store.pages, a.value, 0);
      EmptyNodeIsTree(SHAPE, Nodes(store.pages), a.value, 0);
      return a;
    }

    /** A fresh empty node. */
    method AllocNode(store: PageStore, flag: byte) returns (r: Result<nat>)
      modifies store
      ensures store.asked <= old(store.asked) + 1
      ensures store.refusals == old(store.refusals) + if r.Err? then 1 else 0
      ensures r.Err? ==> store.pages == old(store.pages) && store.supply == old(store.supply) && r.error == AllocFailed
      ensures r.Ok? ==> r.value in old(store.supply) && store.supply == old(store.supply) - {r.value}
      ensures r.Ok? ==> store.pages == old(store.pages)[r.value := Stamp(store.hash, NewPage(flag))]
    {
      r := store.Alloc();
      if r.Ok? {
        store.pages := store.pages[r.value := Stamp(store.hash, NewPage(flag))];
      }
    }

    method InsertLeaf(store: PageStore, page: nat, handle: nat, entry: HandleEntry)
      returns (r: Result<nat>, freed: seq<nat>)
      requires 0 < page && Tree(SHAPE, Nodes(store.pages), page, 0) && handle < ENTRIES_PER_LEAF
      requires GoodSupply(store.supply, Occupies(store.pages, page, 0))
      modifies store
      ensures store.asked <= old(store.asked) + 1
      ensures store.refusals == old(store.refusals) + if r.Err? then 1 else 0
      ensures store.supply <= old(store.supply)
      ensures Wrote(old(store.pages), store.pages, old(store.supply) - store.supply)
      ensures r.Err? ==> r.error == AllocFailed
      ensures r.Ok? ==> r.value in old(store.supply)
      ensures r.Ok? ==> Built(SHAPE, old(Nodes(store.pages)), page, 0, Nodes(store.pages), r.value, 0,
                              old(store.supply) - store.supply, freed)
      ensures r.Ok? ==> PutAt(SHAPE, old(Nodes(store.pages)), page, 0, Nodes(store.pages), r.value, 0, handle, entry)
      ensures r.Ok? ==> AllStamped(store.hash, store.pages, old(store.supply) - store.supply)
    {
      hide Built, PutAt, Tree, Reach, Get, Stamp, Stamped, WriteEntry, Nodes;
      ghost var p0, s0 := store.pages, store.supply;
      RootPage(p0, page, 0);
      var a := store.AllocCopy(page);
      if a.Err? {
        return a, [];
      }
      var n := a.value;
      var index := handle % ENTRIES_PER_LEAF;
      LeafWritten(store.hash, p0, page, index, entry, n);
      store.pages := store.pages[n := Stamp(store.hash, WriteEntry(store.pages[n], index, entry))];
      assert store.pages == p0[n := Stamp(store.hash, WriteEntry(p0[page], index, entry))];
      assert s0 - store.supply == {n};
      return Ok(n), [page];
    }

    method InsertRecursive(store: PageStore, page: nat, handle: nat, entry: HandleEntry, level: nat)
      returns (r: Result<nat>, freed: seq<nat>)
      requires 0 < page && Tree(SHAPE, Nodes(store.pages), page, level)
      requires level <= MAX_DEPTH && handle < Cap(ENTRIES_PER_LEAF, level)
      requires GoodSupply(store.supply, Occupies(store.pages, page, level))
      modifies store
      ensures store.asked <= old(store.asked) + 2 * level + 1
      ensures store.refusals == old(store.refusals) + if r.Err? then 1 else 0
      ensures store.supply <= old(store.supply)
      ensures Wrote(old(store.pages), store.pages, old(store.supply) - store.supply)
      ensures r.Err? ==> r.error == AllocFailed
      ensures r.Ok? ==> r.value in old(store.supply)
      ensures r.Ok? ==> Built(SHAPE, old(Nodes(store.pages)), page, level, Nodes(store.pages), r.value, level,
                              old(store.supply) - store.supply, freed)
      ensures r.Ok? ==> PutAt(SHAPE, old(Nodes(store.pages)), page, level, Nodes(store.pages), r.value, level, handle, entry)
      ensures r.Ok? ==> AllStamped(store.hash, store.pages, old(store.supply) - store.supply)
      decreases level
    {
      hide Built, PutAt, Tree, Reach, Get, Stamp, Stamped, WriteSlot, NewPage, Digit, Rem, Nodes, Wrote, EmptyNode;
      RootPage(store.pages, page, level);
      if level == 0 {
        r, freed := InsertLeaf(store, page, handle, entry);
        return;
      }
      ghost var p0, s0 := store.pages, store.supply;
      var span := Saturated(ENTRIES_PER_LEAF, level - 1);
      DepthBound();
      DigitInPage(ENTRIES_PER_LEAF, MAX_DEPTH, handle, level);
      var i := handle / span;
      var down, copied := CopyDown(store, page, i, level);
      if down.Err? {
        return Err(down.error), copied;
      }
      var n, child := down.value.0, down.value.1;
      ghost var pm, sm := store.pages, store.supply;
      var sub, fc := InsertRecursive(store, child, handle % span, entry, level - 1);
      ghost var p2, s2 := store.pages, store.supply;
      WroteTrans(p0, pm, p2, s0 - sm, sm - s2, s0 - s2);
      if sub.Err? {
        return sub, [page] + fc;
      }
      WroteAt(pm, p2, sm - s2, n);
      store.pages := store.pages[n := Stamp(store.hash, WriteSlot(store.pages[n], i, sub.value))];
      WroteMore(p0, p2, s0 - s2, n, store.pages[n]);
      LevelRebuilt(store.hash, p0, s0, page, level, handle, entry, n, pm, sm, child, p2, s2, sub.value, fc);
      return Ok(n), [page] + fc;
    }

    /** Copy an interior page to `n`, and make sure there is a child to descend into at slot `i`. */
    method CopyDown(store: PageStore, page: nat, i: nat, level: nat) returns (r: Result<(nat, nat)>, freed: seq<nat>)
      requires 0 < page && 0 < level && i < FANOUT && Tree(SHAPE, Nodes(store.pages), page, level)
      requires GoodSupply(store.supply, Occupies(store.pages, page, level))
      modifies store
      ensures store.asked <= old(store.asked) + 2
      ensures store.refusals == old(store.refusals) + if r.Err? then 1 else 0
      ensures store.supply <= old(store.supply)
      ensures Wrote(old(store.pages), store.pages, old(store.supply) - store.supply)
      ensures r.Err? ==> r.error == AllocFailed
      ensures r.Ok? ==> Opened(store.hash, old(store.pages), old(store.supply), page, level, i, r.value.0, store.pages, store.supply, r.value.1)
      ensures r.Ok? ==> 0 < r.value.1 && Tree(SHAPE, Nodes(store.pages), r.value.1, level - 1)
      ensures r.Ok? ==> GoodSupply(store.supply, Occupies(store.pages, r.value.1, level - 1))
    {
      hide Built, PutAt, Tree, Reach, Get, Stamp, Stamped, WriteSlot, NewPage, Digit, Rem, Nodes, Wrote, EmptyNode;
      RootPage(store.pages, page, level);
      ghost var p0, s0 := store.pages, store.supply;
      WroteNone(p0, {});
      assert s0 - s0 == {};
      var a := store.AllocCopy(page);
      if a.Err? {
        return Err(a.error), [];
      }
      var n := a.value;
      WroteNone(p0, {n});
      WroteMore(p0, p0, {n}, n, p0[page]);
      assert s0 - store.supply == {n};
      var child := ReadSlot(store.pages[n], i);
      RootChild(p0, page, level, i);
      if child == 0 {
        a := AllocNode(store, if level == 1 then FLAG_LEAF else FLAG_INTERIOR);
        if a.Err? {
          return Err(a.error), [page];
        }
        child := a.value;
        NewPageNode(store.hash, store.pages, child, level - 1);
        assert s0 - store.supply == {n, child};
        assert s0 - store.supply - {n} == {child};
        WroteNone(p0, {n, child});
        WroteMore(p0, p0, {n, child}, n, p0[page]);
        WroteMore(p0, p0[n := p0[page]], {n, child}, child, store.pages[child]);
      }
      NodesWrote(p0, store.pages, s0 - store.supply);
      BeforeDescent(SHAPE, Nodes(p0), s0, page, level, i, n, Nodes(store.pages), store.supply, child);
      return Ok((n, child)), [page];
    }

    /** A new interior root with the old root as child 0; depth is bumped before anything else can fail. */
    method Grow(store: PageStore, oldRoot: nat) returns (r: Result<nat>)
      requires 0 < oldRoot < PAGE_ID_NONE && Tree(SHAPE, Nodes(store.pages), oldRoot, depth)
      requires GoodSupply(store.supply, Occupies(store.pages, oldRoot, depth))
      modifies this, store
      ensures store.asked <= old(store.asked) + 1
      ensures store.refusals == old(store.refusals) + if r.Err? then 1 else 0
      ensures store.supply <= old(store.supply)
      ensures Wrote(old(store.pages), store.pages, old(store.supply) - store.supply)
      ensures r.Err? ==> r.error == AllocFailed && depth == old(depth)
      ensures r.Ok? ==> depth == old(depth) + 1 && r.value in old(store.supply)
      ensures r.Ok? ==> Built(SHAPE, old(Nodes(store.pages)), oldRoot, old(depth), Nodes(store.pages), r.value, depth,
                              old(store.supply) - store.supply, [])
      ensures r.Ok? ==> SameValues(SHAPE, old(Nodes(store.pages)), oldRoot, old(depth), Nodes(store.pages), r.value, depth)
      ensures r.Ok? ==> AllStamped(store.hash, store.pages, old(store.supply) - store.supply)
    {
      hide Built, SameValues, Tree, Reach, Stamp, Stamped, Nodes;
      ghost var p0, s0 := store.pages, store.supply;
      var a := store.Alloc();
      if a.Err? {
        return a;
      }
      var n := a.value;
      store.pages := store.pages[n := Stamp(store.hash, WriteSlot(NewPage(FLAG_INTERIOR), 0, oldRoot))];
      assert s0 - store.supply == {n};
      assert store.pages == p0[n := store.pages[n]];
      Grown(store.hash, p0, oldRoot, depth, n);
      depth := depth + 1;
      return Ok(n);
    }

    /**
     Insert or update. On success the map is the old map with `handle` bound to `entry`,
     and every page is accounted for. On failure at any allocation the depth is restored.
     Either way the old root still means what it meant.
     */
    method Insert(store: PageStore, root: nat, handle: u64, entry: HandleEntry)
      returns (r: Result<nat>, freed: seq<nat>)
      requires Valid(store.pages, root, depth)
      requires GoodSupply(store.supply, Occupies(store.pages, root, depth))
      modifies this, store
      ensures store.asked <= old(store.asked) + 3 * MAX_DEPTH + 1
      ensures store.refusals == old(store.refusals) + if r.Err? then 1 else 0
      ensures store.supply <= old(store.supply)
      ensures Wrote(old(store.pages), store.pages, old(store.supply) - store.supply)
      ensures Valid(store.pages, root, old(depth)) && Map(store.pages, root, old(depth)) == old(Map(store.pages, root, depth))
      ensures r.Err? ==> r.error == AllocFailed && depth == old(depth)
      ensures r.Ok? ==> Valid(store.pages, r.value, depth)
      ensures r.Ok? ==> Map(store.pages, r.value, depth) == Bind(old(Map(store.pages, root, depth)), handle, entry)
      ensures r.Ok? ==> Conserved(old(Occupies(store.pages, root, depth)), old(store.supply) - store.supply,
                                  Occupies(store.pages, r.value, depth), freed)
      ensures r.Ok? ==> AllStamped(store.hash, store.pages, old(store.supply) - store.supply)
    {
      hide Built, SameValues, PutAt, Tree, Reach, Get, Wrote, Nodes, Stamped, Map, Cap;
      ghost var p0, s0 := store.pages, store.supply;
      var savedDepth := depth;
      var current := root;
      var cap := Saturated(ENTRIES_PER_LEAF, depth);
      assert s0 - s0 == {};
      WroteNone(p0, {});
      BuiltSelf(SHAPE, Nodes(p0), root, depth);
      while depth < MAX_DEPTH && handle >= cap
        invariant savedDepth <= depth <= MAX_DEPTH && 0 < current < PAGE_ID_NONE
        invariant store.asked <= old(store.asked) + (depth - savedDepth) && store.refusals == old(store.refusals)
        invariant cap == Min(Cap(ENTRIES_PER_LEAF, depth), U64_MAX)
        invariant store.supply <= s0 && Wrote(p0, store.pages, s0 - store.supply)
        invariant Built(SHAPE, Nodes(p0), root, savedDepth, Nodes(store.pages), current, depth, s0 - store.supply, [])
        invariant SameValues(SHAPE, Nodes(p0), root, savedDepth, Nodes(store.pages), current, depth)
        invariant AllStamped(store.hash, store.pages, s0 - store.supply)
        decreases MAX_DEPTH - depth
      {
        ghost var p1, s1, d1 := store.pages, store.supply, depth;
        BuiltSupply(p0, root, savedDepth, p1, current, depth, s0, s1);
        var g := Grow(store, current);
        WroteTrans(p0, p1, store.pages, s0 - s1, s1 - store.supply, s0 - store.supply);
        if g.Err? {
          depth := savedDepth;
          Persists(p0, store.pages, s0 - store.supply, root, savedDepth);
          return g, [];
        }
        assert s0 - store.supply == (s0 - s1) + (s1 - store.supply);
        BuiltAfterGrowth(SHAPE, Nodes(p0), root, savedDepth, Nodes(p1), current, d1, s0 - s1,
                         Nodes(store.pages), g.value, depth, s1 - store.supply, []);
        SameTrans(SHAPE, Nodes(p0), root, savedDepth, Nodes(p1), current, d1, Nodes(store.pages), g.value, depth);
        StampedMore(store.hash, p1, s0 - s1, store.pages, s1 - store.supply, s0 - store.supply);
        current := g.value;
        cap := Saturated(ENTRIES_PER_LEAF, depth);
      }
      ghost var p1, s1 := store.pages, store.supply;
      BuiltSupply(p0, root, savedDepth, p1, current, depth, s0, s1);
      DepthBound();
      assert handle < Cap(ENTRIES_PER_LEAF, depth);
      var sub, f := InsertRecursive(store, current, handle, entry, depth);
      WroteTrans(p0, p1, store.pages, s0 - s1, s1 - store.supply, s0 - store.supply);
      Persists(p0, store.pages, s0 - store.supply, root, savedDepth);
      if sub.Err? {
        depth := savedDepth;
        return sub, f;
      }
      assert s0 - store.supply == (s0 - s1) + (s1 - store.supply);
      BuiltAfterGrowth(SHAPE, Nodes(p0), root, savedDepth, Nodes(p1), current, depth, s0 - s1,
                       Nodes(store.pages), sub.value, depth, s1 - store.supply, f);
      PutAfterSame(SHAPE, Nodes(p0), root, savedDepth, Nodes(p1), current, depth, Nodes(store.pages), sub.value, depth,
                   handle, entry);
      MapAfterPut(p0, root, savedDepth, store.pages, sub.value, depth, handle, entry);
      BuiltValid(p0, root, savedDepth, store.pages, sub.value, depth, s0 - store.supply, f, handle, entry);
      StampedMore(store.hash, p1, s0 - s1, store.pages, s1 - store.supply, s0 - store.supply);
      return sub, f;
    }

    /** Deletes from a leaf: no copy unless there is something to delete. */
    method DeleteLeaf(store: PageStore, page: nat, handle: nat)
      returns (r: Result<(nat, Option<HandleEntry>)>, freed: seq<nat>)
      requires 0 < page && Tree(SHAPE, Nodes(store.pages), page, 0) && handle < ENTRIES_PER_LEAF
      requires GoodSupply(store.supply, Occupies(store.pages, page, 0))
      modifies store
      ensures store.asked <= old(store.asked) + 1
      ensures store.refusals == old(store.refusals) + if r.Err? then 1 else 0
      ensures store.supply <= old(store.supply)
      ensures Wrote(old(store.pages), store.pages, old(store.supply) - store.supply)
      ensures r.Err? ==> r.error == AllocFailed
      ensures r.Ok? ==> Deletion(store.hash, old(store.pages), old(store.supply), page, 0, handle,
                                 store.pages, store.supply, r.value.0, r.value.1, freed)
    {
      hide Built, PutAt, Tree, Reach, Get, Stamp, Stamped, WriteEntry, Nodes, ReadEntry;
      ghost var p0, s0 := store.pages, store.supply;
      RootPage(p0, page, 0);
      var index := handle % ENTRIES_PER_LEAF;
      var entry := ReadEntry(store.pages[page], index);
      LeafEntry(p0, page, index);
      if entry.flags == Deleted {
        return Ok((page, None)), [];
      }
      var a := store.AllocCopy(page);
      if a.Err? {
        return Err(a.error), [];
      }
      var n := a.value;
      LeafWritten(store.hash, p0, page, index, TOMBSTONE, n);
      store.pages := store.pages[n := Stamp(store.hash, WriteEntry(store.pages[n], index, TOMBSTONE))];
      assert store.pages == p0[n := Stamp(store.hash, WriteEntry(p0[page], index, TOMBSTONE))];
      assert s0 - store.supply == {n};
      return Ok((n, Some(entry))), [page];
    }

    method DeleteRecursive(store: PageStore, page: nat, handle: nat, level: nat)
      returns (r: Result<(nat, Option<HandleEntry>)>, freed: seq<nat>)
      requires 0 < page && Tree(SHAPE, Nodes(store.pages), page, level)
      requires level <= MAX_DEPTH && handle < Cap(ENTRIES_PER_LEAF, level)
      requires GoodSupply(store.supply, Occupies(store.pages, page, level))
      modifies store
      ensures store.asked <= old(store.asked) + level + 1
      ensures store.refusals == old(store.refusals) + if r.Err? then 1 else 0
      ensures store.supply <= old(store.supply)
      ensures Wrote(old(store.pages), store.pages, old(store.supply) - store.supply)
      ensures r.Err? ==> r.error == AllocFailed
      ensures r.Ok? ==> Deletion(store.hash, old(store.pages), old(store.supply), page, level, handle,
                                 store.pages, store.supply, r.value.0, r.value.1, freed)
      decreases level
    {
      hide Built, PutAt, Tree, Reach, Get, Stamp, Stamped, WriteSlot, Digit, Rem, Nodes, Wrote;
      RootPage(store.pages, page, level);
      if level == 0 {
        r, freed := DeleteLeaf(store, page, handle);
        return;
      }
      ghost var p0, s0 := store.pages, store.supply;
      var span := Saturated(ENTRIES_PER_LEAF, level - 1);
      DepthBound();
      DigitInPage(ENTRIES_PER_LEAF, MAX_DEPTH, handle, level);
      var i := handle / span;
      var child := ReadSlot(store.pages[page], i);
      RootChild(p0, page, level, i);
      GetStep(SHAPE, Nodes(p0), page, level, handle);
      KidIsTree(SHAPE, Nodes(p0), page, level, i);
      assert s0 - s0 == {};
      WroteNone(p0, {});
      if child == 0 {
        NoSubtree(p0, level - 1, handle % span);
        return Ok((page, None)), [];
      }
      var sub, fc := DeleteRecursive(store, child, handle % span, level - 1);
      if sub.Err? {
        return sub, fc;
      }
      if sub.value.1.None? {
        return Ok((page, None)), fc;
      }
      ghost var p2, s2 := store.pages, store.supply;
      WroteAt(p0, p2, s0 - s2, page);
      var a := store.AllocCopy(page);
      if a.Err? {
        return Err(a.error), fc;
      }
      var n := a.value;
      store.pages := store.pages[n := Stamp(store.hash, WriteSlot(store.pages[n], i, sub.value.0))];
      assert store.pages == p2[n := Stamp(store.hash, WriteSlot(p0[page], i, sub.value.0))];
      assert s0 - store.supply == s0 - s2 + {n};
      WroteTrans(p0, p0, p2, {}, s0 - s2, s0 - store.supply);
      WroteMore(p0, p2, s0 - store.supply, n, store.pages[n]);
      StampVerifies(store.hash, WriteSlot(p0[page], i, sub.value.0));
      NodesWrote(p0, p2, s0 - s2);
      LinkedNodes(store.hash, p0, page, level, i, sub.value.0, p2, n);
      AfterDelete(SHAPE, Nodes(p0), s0, page, level, handle, TOMBSTONE, Nodes(p2), s2, sub.value.0, fc, n);
      return Ok((n, sub.value.1)), fc + [page];
    }

    /**
     Remove a handle, returning the entry it had. An absent handle costs nothing: same root,
     same pages, nothing freed. On failure, and for every older root, nothing changes.
     */
    method Delete(store: PageStore, root: nat, handle: u64)
      returns (r: Result<(nat, Option<HandleEntry>)>, freed: seq<nat>)
      requires root == PAGE_ID_NONE || Valid(store.pages, root, depth)
      requires root != PAGE_ID_NONE ==> GoodSupply(store.supply, Occupies(store.pages, root, depth))
      modifies store
      ensures store.asked <= old(store.asked) + depth + 1
      ensures store.refusals == old(store.refusals) + if r.Err? then 1 else 0
      ensures store.supply <= old(store.supply)
      ensures Wrote(old(store.pages), store.pages, old(store.supply) - store.supply)
      ensures root != PAGE_ID_NONE ==>
                Valid(store.pages, root, depth) && Map(store.pages, root, depth) == old(Map(store.pages, root, depth))
      ensures r.Err? ==> r.error == AllocFailed
      ensures r.Ok? && root == PAGE_ID_NONE ==> r.value == (root, None)
      ensures r.Ok? && root != PAGE_ID_NONE ==> r.value.1 == Find(old(Map(store.pages, root, depth)), handle)
      ensures r.Ok? && r.value.1.None? ==>
                r.value.0 == root && freed == [] && store.pages == old(store.pages) && store.supply == old(store.supply)
      ensures r.Ok? && r.value.1.Some? ==> Valid(store.pages, r.value.0, depth)
      ensures r.Ok? && r.value.1.Some? ==>
                Map(store.pages, r.value.0, depth) == old(Map(store.pages, root, depth)) - {handle}
      ensures r.Ok? && r.value.1.Some? ==>
                Conserved(old(Occupies(store.pages, root, depth)), old(store.supply) - store.supply,
                          Occupies(store.pages, r.value.0, depth), freed)
      ensures r.Ok? ==> AllStamped(store.hash, store.pages, old(store.supply) - store.supply)
    {
      hide Built, PutAt, Tree, Reach, Get, Stamped, Nodes, Wrote, Cap;
      ghost var p0, s0 := store.pages, store.supply;
      assert s0 - s0 == {};
      WroteNone(p0, {});
      if root == PAGE_ID_NONE {
        return Ok((root, None)), [];
      }
      var cap := Saturated(ENTRIES_PER_LEAF, depth);
      if cap != U64_MAX && handle >= cap {
        OutOfReach(SHAPE, Nodes(p0), root, depth, handle);
        return Ok((root, None)), [];
      }
      DepthBound();
      InReach(ENTRIES_PER_LEAF, MAX_DEPTH, handle, depth);
      r, freed := DeleteRecursive(store, root, handle, depth);
      Persists(p0, store.pages, s0 - store.supply, root, depth);
      if r.Ok? && r.value.1.Some? {
        MapAfterPut(p0, root, depth, store.pages, r.value.0, depth, handle, TOMBSTONE);
        BuiltValid(p0, root, depth, store.pages, r.value.0, depth, s0 - store.supply, freed, handle, TOMBSTONE);
      }
    }

    /**
     The leaf and slot that hold a handle. On any pages it succeeds exactly if every interior page on
     the way is there and is one; the leaf is left to the reader.
     */
    method FindLeaf(store: PageStore, root: nat, handle: u64) returns (r: Result<Option<(nat, nat)>>)
      ensures r.Ok? && r.value.Some? ==> r.value.value.1 < ENTRIES_PER_LEAF
      ensures 0 < root && depth <= MAX_DEPTH ==> LeafAnswer(store.pages, root, depth, handle, r)
    {
      hide Cap, ReadSlot, Reached, LeafAnswer, Quotient, Remainder;
      var cap := Saturated(ENTRIES_PER_LEAF, depth);
      ghost var ok := 0 < root && depth <= MAX_DEPTH;
      if cap != U64_MAX && handle >= cap {
        FarAnswer(store.pages, root, depth, handle);
        return Ok(None);
      }
      if ok {
        DepthBound();
        InReach(ENTRIES_PER_LEAF, MAX_DEPTH, handle, depth);
        ReachedStart(store.pages, root, depth, handle);
      }
      var current: nat, remaining: nat, level: nat := root, handle, depth;
      while level > 0
        invariant level <= depth && (ok ==> Reached(store.pages, root, depth, handle, current, level, remaining))
      {
        var span := Saturated(ENTRIES_PER_LEAF, level - 1);
        var childIdx := Quotient(remaining, span);
        if ok {
          ReachedStep(store.pages, root, depth, handle, current, level, remaining);
        }
        if childIdx >= FANOUT {
          return Ok(None);
        }
        remaining := Remainder(remaining, span);
        if current !in store.pages {
          return Err(MissingPage(current));
        }
        if !IsInterior(store.pages[current]) {
          return Err(CorruptPage(current));
        }
        var child := ReadSlot(store.pages[current], childIdx);
        if child == 0 {
          return Ok(None);
        }
        current := child;
        level := level - 1;
      }
      if ok {
        ReachedLeaf(store.pages, root, depth, handle, current, remaining);
      }
      return Ok(Some((current, remaining % ENTRIES_PER_LEAF)));
    }

    /**
     Map lookup; deleted entries read as absent. On any pages it succeeds exactly if it can pass every
     interior page on the way and the leaf is there, and answers what the leaf holds.
     */
    method Lookup(store: PageStore, root: nat, handle: u64) returns (r: Result<Option<HandleEntry>>)
      ensures root == PAGE_ID_NONE ==> r == Ok(None)
      ensures 0 < root != PAGE_ID_NONE && depth <= MAX_DEPTH ==>
                (r.Ok? <==> handle >= Cap(ENTRIES_PER_LEAF, depth) || Passable(SHAPE, Nodes(store.pages), root, depth, handle, false))
      ensures 0 < root != PAGE_ID_NONE && depth <= MAX_DEPTH
              && (handle >= Cap(ENTRIES_PER_LEAF, depth) || Passable(SHAPE, Nodes(store.pages), root, depth, handle, true)) ==>
                r == Ok(Unless(At(store.pages, root, depth, handle)))
      ensures Valid(store.pages, root, depth) ==> r == Ok(Find(Map(store.pages, root, depth), handle))
      ensures r.Ok? && r.value.Some? ==> r.value.value.flags != Deleted
    {
      hide Get, Nodes, Cap, ReadEntry, Passable, Tree, Spine, Reach;
      if root == PAGE_ID_NONE {
        return Ok(None);
      }
      if Valid(store.pages, root, depth) {
        FoundIn(store.pages, root, depth, handle);
        if handle < Cap(ENTRIES_PER_LEAF, depth) {
          TreePassable(SHAPE, Nodes(store.pages), root, depth, handle, true);
          TreePassable(SHAPE, Nodes(store.pages), root, depth, handle, false);
        }
      }
      if 0 < root && handle < Cap(ENTRIES_PER_LEAF, depth) {
        StrictPasses(SHAPE, Nodes(store.pages), root, depth, handle);
      }
      var found := FindLeaf(store, root, handle);
      match found
      case Err(e) => return Err(e);
      case Ok(None) => return Ok(None);
      case Ok(Some((leaf, index))) =>
        if leaf !in store.pages {
          return Err(MissingPage(leaf));
        }
        var entry := ReadEntry(store.pages[leaf], index);
        if 0 < leaf && IsLeaf(store.pages[leaf]) {
          LeafSlot(store.pages, leaf, index);
        }
        return Ok(Unless(entry));
    }

    /**
     Recover the depth by walking child 0. It terminates on any pages, cyclic spines
     included, never answers more than MAX_DEPTH, and on a table answers its depth.
     */
    static method RecoverDepth(store: PageStore, root: nat) returns (r: Result<nat>)
      ensures r.Ok? ==> r.value <= MAX_DEPTH
      ensures root == PAGE_ID_NONE ==> r == Ok(0)
      ensures forall d: nat | Valid(store.pages, root, d) :: r == Ok(d)
      ensures root != PAGE_ID_NONE && r.Ok? ==> LeftWay(store.pages, root, r.value)
    {
      hide LeftWay, OnSpine, Tree, Spine, Nodes, Reach, ReadSlot, At;
      if root == PAGE_ID_NONE {
        return Ok(0);
      }
      forall d: nat | Valid(store.pages, root, d) ensures OnSpine(store.pages, root, d) {
        ValidOnSpine(store.pages, root, d);
      }
      var depth: nat, current: nat := 0, root;
      while true
        invariant depth <= MAX_DEPTH
        invariant forall d: nat | Valid(store.pages, root, d) :: depth <= d && OnSpine(store.pages, current, d - depth)
        invariant forall d: nat :: LeftWay(store.pages, current, d) ==> LeftWay(store.pages, root, depth + d)
        decreases MAX_DEPTH - depth
      {
        forall d: nat | Valid(store.pages, root, d) ensures current in store.pages {
          SpineStep(store.pages, current, d - depth);
        }
        if current !in store.pages {
          return Err(MissingPage(current));
        }
        var buf := store.pages[current];
        LeftSteps(store.pages, current);
        forall d: nat | Valid(store.pages, root, d)
          ensures d == depth <==> buf[1] != FLAG_INTERIOR
          ensures d > depth ==> IsInterior(buf) && ReadSlot(buf, 0) != 0 && OnSpine(store.pages, ReadSlot(buf, 0), d - depth - 1)
        {
          SpineStep(store.pages, current, d - depth);
        }
        if buf[1] != FLAG_INTERIOR {
          return Ok(depth);
        }
        if buf[0] != TYPE_HANDLE_TABLE {
          return Err(CorruptPage(current));
        }
        depth := depth + 1;
        if depth > MAX_DEPTH {
          return Err(CorruptPage(current));
        }
        var child := ReadSlot(buf, 0);
        if child == 0 {
          return Ok(depth);
        }
        current := child;
      }
    }

    /** The live entries beneath `page`; `base` is the saturated image of the true prefix `trueBase`. */
    method IterRecursive(store: PageStore, page: nat, base: nat, level: nat, ghost trueBase: nat)
      returns (out: seq<(nat, HandleEntry)>)
      requires 0 < page && level <= MAX_DEPTH && Tree(SHAPE, Nodes(store.pages), page, level)
      requires base == Min(trueBase, U64_MAX)
      requires InRange(store.pages, page, level, trueBase)
      ensures out == Items(SHAPE, Nodes(store.pages), page, level, trueBase, IsLive)
      decreases level
    {
      hide Tree, Get, Reach, Nodes, Cap, ReadSlot, ReadEntry, KidItems, LeafItems;
      RootPage(store.pages, page, level);
      out := [];
      if level == 0 {
        LeafItemsStep(store.pages, page, trueBase, 0);
        for i := 0 to ENTRIES_PER_LEAF
          invariant out == LeafItems(Entries(store.pages[page]), i, trueBase, IsLive)
        {
          var entry := ReadEntry(store.pages[page], i);
          LeafItemsStep(store.pages, page, trueBase, i);
          if entry.flags != Deleted {
            out := out + [(SatAdd(base, i), entry)];
          }
        }
        LeafItemsStep(store.pages, page, trueBase, 0);
        return;
      }
      var span := Saturated(ENTRIES_PER_LEAF, level - 1);
      DepthBound();
      SpanFits(ENTRIES_PER_LEAF, MAX_DEPTH, level);
      KidItemsStep(store.pages, page, level, trueBase, 0);
      for i := 0 to FANOUT
        invariant out == KidsOf(store.pages, page, level, trueBase, i)
      {
        var child := ReadSlot(store.pages[page], i);
        KidItemsStep(store.pages, page, level, trueBase, i);
        if child != 0 {
          KidInRange(store.pages, page, level, trueBase, i);
          var more := IterRecursive(store, child, SatAdd(base, SatMul(i, span)), level - 1, trueBase + i * span);
          out := out + more;
        }
      }
      KidItemsStep(store.pages, page, level, trueBase, 0);
    }

    /** Every live handle with its entry, once, in ascending order: the map as a sorted list. */
    method IterLive(store: PageStore, root: nat) returns (out: seq<(nat, HandleEntry)>)
      requires root == PAGE_ID_NONE || Valid(store.pages, root, depth)
      ensures root == PAGE_ID_NONE ==> out == []
      ensures root != PAGE_ID_NONE ==> Ascending(out)
      ensures root != PAGE_ID_NONE ==>
                forall k: nat, e :: (k, e) in out <==> k in Map(store.pages, root, depth) && Map(store.pages, root, depth)[k] == e
    {
      if root == PAGE_ID_NONE {
        return [];
      }
      RootInRange(store.pages, root, depth);
      out := IterRecursive(store, root, 0, depth, 0);
      ItemsAreMap(store.pages, root, depth);
    }
  }
}
