/**
 A freemap session: everything one transaction does to the freemap tree between loading the
 committed root and publishing the new one. `Start` is what was committed; `owned` are the pages
 this session made, `pending` the committed pages it has superseded so far.

 `Session` is what every mutation keeps, at every return, and also what holds between any two
 steps inside one mutation.
 */
module FreeMapSession {
  import opened Pages
  import opened RadixTree
  import opened RadixPath
  import opened FreeMap
  import opened FreeMapPages

  datatype Start = Start(pages: map<nat, Image>, root: nat, depth: nat)

  ghost predicate IdsOk(supply: set<nat>) {
    forall id | id in supply :: 0 < id < PAGE_ID_NONE
  }

  ghost function Committed(start: Start): set<nat> {
    Reach(Nodes(start.pages), start.root, start.depth)
  }

  /** The set of free page ids the tree stands for. */
  ghost function FreeIds(pages: map<nat, Image>, root: nat, depth: nat): iset<nat> {
    iset id: nat | Get(SHAPE, Nodes(pages), root, depth, id)
  }

  ghost predicate InRange(pages: map<nat, Image>, root: nat, depth: nat) {
    forall id: nat :: Get(SHAPE, Nodes(pages), root, depth, id) ==> id <= U64_MAX
  }

  /**
   Page accounting: what was committed together with what the session made is what the tree
   occupies now together with what is queued, nothing counted twice, and only committed pages
   queued.
   */
  ghost predicate Accounts(committed: set<nat>, reach: set<nat>, pending: seq<nat>, owned: set<nat>) {
    && committed + owned == reach + Elems(pending) && committed !! owned
    && reach !! Elems(pending) && owned !! Elems(pending) && Distinct(pending)
  }

  ghost predicate Session(hash: Hash, start: Start, pages: map<nat, Image>, supply: set<nat>,
                          root: nat, depth: nat, pending: seq<nat>, owned: set<nat>)
  {
    && 0 < root <= U64_MAX && depth <= MAX_DEPTH && Tree(SHAPE, Nodes(pages), root, depth)
    && Wrote(start.pages, pages, owned)
    && Accounts(Committed(start), Reach(Nodes(pages), root, depth), pending, owned)
    && GoodSupply(supply, Committed(start) + owned)
    && AllStamped(hash, pages, Reach(Nodes(pages), root, depth))
    && InRange(pages, root, depth)
  }

  lemma SameFree(p0: map<nat, Image>, r0: nat, d0: nat, p1: map<nat, Image>, r1: nat, d1: nat)
    requires SameValues(SHAPE, Nodes(p0), r0, d0, Nodes(p1), r1, d1)
    ensures FreeIds(p1, r1, d1) == FreeIds(p0, r0, d0)
    ensures InRange(p0, r0, d0) ==> InRange(p1, r1, d1)
  {
    hide Nodes;
    forall id: nat ensures id in FreeIds(p1, r1, d1) <==> id in FreeIds(p0, r0, d0) {
      assert Get(SHAPE, Nodes(p1), r1, d1, id) == Get(SHAPE, Nodes(p0), r0, d0, id);
    }
    if InRange(p0, r0, d0) {
      forall id: nat | Get(SHAPE, Nodes(p1), r1, d1, id) ensures id <= U64_MAX {
        assert Get(SHAPE, Nodes(p0), r0, d0, id);
      }
    }
  }

  lemma PutFree(p0: map<nat, Image>, r0: nat, d0: nat, p1: map<nat, Image>, r1: nat, d1: nat, key: u64, free: bool)
    requires PutAt(SHAPE, Nodes(p0), r0, d0, Nodes(p1), r1, d1, key, free)
    ensures FreeIds(p1, r1, d1) == if free then FreeIds(p0, r0, d0) + iset{key} else FreeIds(p0, r0, d0) - iset{key}
    ensures InRange(p0, r0, d0) ==> InRange(p1, r1, d1)
  {
    hide Nodes;
    forall id: nat ensures id in FreeIds(p1, r1, d1) <==> if id == key then free else id in FreeIds(p0, r0, d0) {
      assert Get(SHAPE, Nodes(p1), r1, d1, id) == if id == key then free else Get(SHAPE, Nodes(p0), r0, d0, id);
    }
    if InRange(p0, r0, d0) {
      forall id: nat | Get(SHAPE, Nodes(p1), r1, d1, id) ensures id <= U64_MAX {
        assert id == key || Get(SHAPE, Nodes(p0), r0, d0, id);
      }
    }
  }

  /** One page of the tree exchanged for a fresh one, the old one queued if there was one. */
  lemma AccountsStep(committed: set<nat>, R0: set<nat>, pending: seq<nat>, owned: set<nat>, x: nat, n: nat, R1: set<nat>, queue: seq<nat>)
    requires Accounts(committed, R0, pending, owned)
    requires n !in committed + owned && Page(x) <= R0 && (x == 0 || x !in owned)
    requires R1 == R0 - Page(x) + {n} && queue == pending + (if x == 0 then [] else [x])
    ensures Accounts(committed, R1, queue, owned + {n})
  {
    var more := if x == 0 then [] else [x];
    ElemsConcat(pending, more);
    assert Elems(more) == Page(x);
    assert Distinct(more);
  }

  /** A page still free to be handed out is neither committed, nor in the tree, nor queued. */
  lemma FreshPage(committed: set<nat>, R: set<nat>, pending: seq<nat>, owned: set<nat>, supply: set<nat>, n: nat)
    requires Accounts(committed, R, pending, owned) && GoodSupply(supply, committed + owned) && n in supply
    ensures n !in R && n !in committed + owned && n !in Elems(pending) && 0 < n < PAGE_ID_NONE
    ensures GoodSupply(supply - {n}, committed + (owned + {n}))
  {
    assert R <= committed + owned;
  }

  lemma StampedExchange(hash: Hash, p0: map<nat, Image>, R0: set<nat>, p1: map<nat, Image>, W: set<nat>, R1: set<nat>)
    requires AllStamped(hash, p0, R0) && Wrote(p0, p1, W) && R1 <= R0 + W
    requires forall q | q in W :: q in p1 && Stamped(hash, p1[q])
    ensures AllStamped(hash, p1, R1)
  {
    hide Stamped;
  }

  /** A fresh page becomes the root, standing for the same set. */
  lemma SessionNewRoot(hash: Hash, start: Start, p0: map<nat, Image>, s0: set<nat>, root: nat, d0: nat,
                       pending: seq<nat>, owned: set<nat>, n: nat, buf: Image, d1: nat, x: nat, queue: seq<nat>)
    requires Session(hash, start, p0, s0, root, d0, pending, owned) && n in s0 && d1 <= MAX_DEPTH && Stamped(hash, buf)
    requires Page(x) <= Reach(Nodes(p0), root, d0) && (x == 0 || x !in owned)
    requires queue == pending + (if x == 0 then [] else [x])
    requires Tree(SHAPE, Nodes(p0[n := buf]), n, d1)
    requires Reach(Nodes(p0[n := buf]), n, d1) == Reach(Nodes(p0), root, d0) - Page(x) + {n}
    requires SameValues(SHAPE, Nodes(p0), root, d0, Nodes(p0[n := buf]), n, d1)
    ensures Session(hash, start, p0[n := buf], s0 - {n}, n, d1, queue, owned + {n})
  {
    hide Tree, Reach, SameValues, Stamped, Nodes, InRange, Accounts, GoodSupply, Wrote;
    var p1 := p0[n := buf];
    var R0 := Reach(Nodes(p0), root, d0);
    FreshPage(Committed(start), R0, pending, owned, s0, n);
    AccountsStep(Committed(start), R0, pending, owned, x, n, Reach(Nodes(p1), n, d1), queue);
    WroteNone(p0, {n});
    WroteMore(p0, p0, {n}, n, buf);
    WroteTrans(start.pages, p0, p1, owned, {n}, owned + {n});
    StampedExchange(hash, p0, R0, p1, {n}, Reach(Nodes(p1), n, d1));
    SameFree(p0, root, d0, p1, n, d1);
  }

  /** Copy on first touch of the root. */
  lemma SessionRoot(hash: Hash, start: Start, p0: map<nat, Image>, s0: set<nat>, root: nat, depth: nat,
                    pending: seq<nat>, owned: set<nat>, n: nat)
    requires Session(hash, start, p0, s0, root, depth, pending, owned) && root !in owned && n in s0 && root in p0
    ensures Session(hash, start, p0[n := p0[root]], s0 - {n}, n, depth, pending + [root], owned + {n})
    ensures SameValues(SHAPE, Nodes(p0), root, depth, Nodes(p0[n := p0[root]]), n, depth)
  {
    hide Tree, Reach, SameValues, Stamped, InRange, Accounts, GoodSupply, Elems, Distinct, NodeOf, Wrote;
    var p1 := p0[n := p0[root]];
    RootPage(p0, root, depth);
    NodesAt(p0, n, p0[root]);
    assert NodeOf(p0[root]) == Nodes(p0)[root];
    hide Nodes;
    FreshPage(Committed(start), Reach(Nodes(p0), root, depth), pending, owned, s0, n);
    CopyNode(SHAPE, Nodes(p0), root, depth, Nodes(p1), n);
    SessionNewRoot(hash, start, p0, s0, root, depth, pending, owned, n, p0[root], depth, root, pending + [root]);
  }

  /** One step of a descent that replaces the child on the path. */
  lemma SessionStep(hash: Hash, start: Start, p0: map<nat, Image>, s0: set<nat>, root: nat, depth: nat,
                    pending: seq<nat>, owned: set<nat>, key: nat, cur: nat, level: nat, rem: nat,
                    n: nat, p1: map<nat, Image>, p2: map<nat, Image>, queue: seq<nat>)
    requires Session(hash, start, p0, s0, root, depth, pending, owned)
    requires On(SHAPE, Nodes(p0), root, depth, key, cur, level, rem) && level > 0 && 0 < cur && cur in owned && cur in p0
    requires Digit(rem, Cap(BITS_PER_LEAF, level - 1)) < FANOUT && n in s0 && n < PAGE_ID_NONE
    requires var x := ReadSlot(p0[cur], Digit(rem, Cap(BITS_PER_LEAF, level - 1)));
             && (x == 0 || x !in owned)
             && (x == 0 ==> p1 == p0[n := Stamp(hash, NewPage(TypeAt(level - 1)))])
             && (x != 0 ==> x in p0 && p1 == p0[n := p0[x]])
             && queue == pending + (if x == 0 then [] else [x])
    requires n != cur ==> cur in p1
    requires p2 == p1[cur := Stamp(hash, WriteSlot(p0[cur], Digit(rem, Cap(BITS_PER_LEAF, level - 1)), n))]
    ensures Session(hash, start, p2, s0 - {n}, root, depth, queue, owned + {n})
    ensures SameValues(SHAPE, Nodes(p0), root, depth, Nodes(p2), root, depth)
    ensures On(SHAPE, Nodes(p2), root, depth, key, n, level - 1, Rem(rem, Cap(BITS_PER_LEAF, level - 1)))
  {
    hide Digit, Rem, Cap, On, SameValues, Stamp, WriteSlot, Nodes, InRange, Accounts, EmptyNode, Elems, Distinct;
    var i := Digit(rem, Cap(BITS_PER_LEAF, level - 1));
    var x := ReadSlot(p0[cur], i);
    var R0 := Reach(Nodes(p0), root, depth);
    OnNode(p0, root, depth, key, cur, level, rem);
    hide Tree, Reach, ReadSlot, GoodSupply, Wrote;
    FreshPage(Committed(start), R0, pending, owned, s0, n);
    StepNodes(hash, p0, cur, level, i, n, p1, p2);
    PathStep(SHAPE, Nodes(p0), root, depth, key, cur, level, rem, Nodes(p2), n);
    AccountsStep(Committed(start), R0, pending, owned, x, n, Reach(Nodes(p2), root, depth), queue);
    StepBytes(hash, start, p0, R0, pending, owned, cur, level, i, n, p1, p2, Reach(Nodes(p2), root, depth));
    SameFree(p0, root, depth, p2, root, depth);
  }

  /** The node a descent stands on, in bytes. */
  lemma OnNode(pages: map<nat, Image>, root: nat, depth: nat, key: nat, cur: nat, level: nat, rem: nat)
    requires On(SHAPE, Nodes(pages), root, depth, key, cur, level, rem) && Tree(SHAPE, Nodes(pages), root, depth) && 0 < cur
    ensures cur in pages && cur in Nodes(pages) && cur in Reach(Nodes(pages), root, depth) && pages[cur][0] == TypeAt(level)
    ensures level > 0 ==> Nodes(pages)[cur] == Interior(Slots(pages[cur]))
    ensures level > 0 ==> forall i: nat | i < SLOTS_PER_PAGE :: Nodes(pages)[cur].children[i] == ReadSlot(pages[cur], i)
    ensures level == 0 ==> Nodes(pages)[cur] == Leaf(LeafBits(pages[cur]))
  {
    OnTree(SHAPE, Nodes(pages), root, depth, key, cur, level, rem);
    RootPage(pages, cur, level);
  }

  lemma StepNodes(hash: Hash, p0: map<nat, Image>, cur: nat, level: nat, i: nat, n: nat, p1: map<nat, Image>, p2: map<nat, Image>)
    requires level > 0 && cur in p0 && i < FANOUT && 0 < n < PAGE_ID_NONE && n != cur
    requires cur in Nodes(p0) && Nodes(p0)[cur] == Interior(Slots(p0[cur]))
    requires var x := ReadSlot(p0[cur], i);
             && (x == 0 ==> p1 == p0[n := Stamp(hash, NewPage(TypeAt(level - 1)))])
             && (x != 0 ==> x in p0 && p1 == p0[n := p0[x]])
    requires p2 == p1[cur := Stamp(hash, WriteSlot(p0[cur], i, n))]
    ensures Replaces(SHAPE, Nodes(p0), Nodes(p0)[cur].children[i], level - 1, Nodes(p2), n)
    ensures cur in Nodes(p2) && Nodes(p2)[cur] == Interior(Nodes(p0)[cur].children[i := n])
    ensures Wrote(Nodes(p0), Nodes(p2), {n, cur})
  {
    hide Stamp, WriteSlot, NewPage, Slots, ReadSlot;
    assert Slots(p0[cur])[i] == ReadSlot(p0[cur], i) by {
      SlotIs(p0[cur], i);
    }
    assert NodeOf(p0[cur]) == Nodes(p0)[cur];
    WriteSlotNode(hash, p0[cur], i, n);
    if ReadSlot(p0[cur], i) == 0 {
      NewPageNode(hash, p2, n, level - 1);
    }
  }

  lemma SlotIs(buf: Image, i: nat)
    requires i < SLOTS_PER_PAGE
    ensures Slots(buf)[i] == ReadSlot(buf, i)
  {
  }

  lemma StepBytes(hash: Hash, start: Start, p0: map<nat, Image>, R0: set<nat>, pending: seq<nat>, owned: set<nat>,
                  cur: nat, level: nat, i: nat, n: nat, p1: map<nat, Image>, p2: map<nat, Image>, R2: set<nat>)
    requires level > 0 && cur in p0 && cur in owned && i < FANOUT && 0 < n < PAGE_ID_NONE && n != cur
    requires Wrote(start.pages, p0, owned) && AllStamped(hash, p0, R0)
    requires var x := ReadSlot(p0[cur], i);
             && (x == 0 ==> p1 == p0[n := Stamp(hash, NewPage(TypeAt(level - 1)))])
             && (x != 0 ==> x in p0 && x in R0 && p1 == p0[n := p0[x]])
    requires p2 == p1[cur := Stamp(hash, WriteSlot(p0[cur], i, n))] && R2 <= R0 + {n}
    ensures Wrote(start.pages, p2, owned + {n}) && AllStamped(hash, p2, R2)
  {
    hide ReadSlot;
    StampVerifies(hash, WriteSlot(p0[cur], i, n));
    StampVerifies(hash, NewPage(TypeAt(level - 1)));
    hide Stamp, WriteSlot, NewPage, Stamped;
    StampedExchange(hash, p0, R0, p2, {n, cur}, R2);
  }

  /** A child the session already owns is entered as it is: rewriting its pointer changes nothing. */
  lemma SessionStay(hash: Hash, start: Start, p0: map<nat, Image>, s0: set<nat>, root: nat, depth: nat,
                    pending: seq<nat>, owned: set<nat>, key: nat, cur: nat, level: nat, rem: nat, p1: map<nat, Image>)
    requires Session(hash, start, p0, s0, root, depth, pending, owned)
    requires On(SHAPE, Nodes(p0), root, depth, key, cur, level, rem) && level > 0 && 0 < cur && cur in owned && cur in p0
    requires Digit(rem, Cap(BITS_PER_LEAF, level - 1)) < FANOUT
    requires var i := Digit(rem, Cap(BITS_PER_LEAF, level - 1));
             p1 == p0[cur := Stamp(hash, WriteSlot(p0[cur], i, ReadSlot(p0[cur], i)))]
    ensures Session(hash, start, p1, s0, root, depth, pending, owned)
    ensures SameValues(SHAPE, Nodes(p0), root, depth, Nodes(p1), root, depth)
    ensures On(SHAPE, Nodes(p1), root, depth, key, ReadSlot(p0[cur], Digit(rem, Cap(BITS_PER_LEAF, level - 1))), level - 1,
               Rem(rem, Cap(BITS_PER_LEAF, level - 1)))
  {
    hide Digit, Rem, Cap, On, Stamp, Stamped, WriteSlot, InRange, Accounts, GoodSupply;
    var i := Digit(rem, Cap(BITS_PER_LEAF, level - 1));
    var x := ReadSlot(p0[cur], i);
    OnNode(p0, root, depth, key, cur, level, rem);
    WriteSlotNode(hash, p0[cur], i, x);
    hide Tree, Reach, ReadSlot;
    assert Nodes(p0)[cur].children[i := x] == Nodes(p0)[cur].children;
    assert Nodes(p1) == Nodes(p0);
    assert NodeOf(p0[cur]) == Nodes(p0)[cur];
    hide Nodes, NodeOf;
    OnStep(SHAPE, Nodes(p0), root, depth, key, cur, level, rem);
    StampedExchange(hash, p0, Reach(Nodes(p0), root, depth), p1, {cur}, Reach(Nodes(p0), root, depth));
    SameFree(p0, root, depth, p1, root, depth);
  }

  /** The edit at the end of the path: exactly one id changes. */
  lemma SessionLeaf(hash: Hash, start: Start, p0: map<nat, Image>, s0: set<nat>, root: nat, depth: nat,
                    pending: seq<nat>, owned: set<nat>, key: u64, cur: nat, rem: nat, free: bool, p1: map<nat, Image>)
    requires Session(hash, start, p0, s0, root, depth, pending, owned)
    requires On(SHAPE, Nodes(p0), root, depth, key, cur, 0, rem) && rem < BITS_PER_LEAF && 0 < cur && cur in owned && cur in p0
    requires p1 == p0[cur := Stamp(hash, Edited(p0[cur], rem, free))]
    ensures Session(hash, start, p1, s0, root, depth, pending, owned)
    ensures PutAt(SHAPE, Nodes(p0), root, depth, Nodes(p1), root, depth, key, free)
  {
    hide On, Stamp, Stamped, Edited, InRange, Accounts, GoodSupply, PutAt;
    OnNode(p0, root, depth, key, cur, 0, rem);
    EditNode(hash, p0[cur], rem, free);
    assert NodeOf(p0[cur]) == Nodes(p0)[cur];
    NodesAt(p0, cur, p1[cur]);
    hide Tree, Reach, Nodes, NodeOf, LeafBits;
    PathLeaf(SHAPE, Nodes(p0), root, depth, key, cur, rem, free, Nodes(p1));
    StampedExchange(hash, p0, Reach(Nodes(p0), root, depth), p1, {cur}, Reach(Nodes(p0), root, depth));
    PutFree(p0, root, depth, p1, root, depth, key, free);
  }

  /** A new root above the old one. */
  lemma SessionGrow(hash: Hash, start: Start, p0: map<nat, Image>, s0: set<nat>, root: u64, depth: nat,
                    pending: seq<nat>, owned: set<nat>, n: nat, buf: Image)
    requires Session(hash, start, p0, s0, root, depth, pending, owned) && n in s0 && depth < MAX_DEPTH
    requires buf == Stamp(hash, WriteSlot(NewPage(TYPE_FREEMAP_INTERIOR), 0, root))
    ensures Session(hash, start, p0[n := buf], s0 - {n}, n, depth + 1, pending, owned + {n})
    ensures SameValues(SHAPE, Nodes(p0), root, depth, Nodes(p0[n := buf]), n, depth + 1)
  {
    hide Tree, Reach, SameValues, Stamp, Stamped, InRange, Accounts, GoodSupply, Distinct, NodeOf, WriteSlot, Nodes, Wrote, NewPage;
    EmptyInterior();
    WriteSlotNode(hash, NewPage(TYPE_FREEMAP_INTERIOR), 0, root);
    FreshPage(Committed(start), Reach(Nodes(p0), root, depth), pending, owned, s0, n);
    NodesAt(p0, n, buf);
    GrowRoot(SHAPE, Nodes(p0), root, depth, Nodes(p0[n := buf]), n);
    assert Elems([]) == {};
    assert pending + [] == pending;
    SessionNewRoot(hash, start, p0, s0, root, depth, pending, owned, n, buf, depth + 1, 0, pending);
  }

  lemma EmptyInterior()
    ensures NodeOf(NewPage(TYPE_FREEMAP_INTERIOR)).Interior? && |NodeOf(NewPage(TYPE_FREEMAP_INTERIOR)).children| == FANOUT
    ensures forall i | 0 <= i < FANOUT :: NodeOf(NewPage(TYPE_FREEMAP_INTERIOR)).children[i] == 0
  {
  }

  /**
   What a session never does: no committed page changes a byte, so the committed root still stands
   for the committed set; and only committed pages are queued, each once, none still in the tree.
   */
  lemma CommittedIntact(hash: Hash, start: Start, pages: map<nat, Image>, supply: set<nat>, root: nat, depth: nat,
                        pending: seq<nat>, owned: set<nat>)
    requires Session(hash, start, pages, supply, root, depth, pending, owned)
    ensures forall q | q in Committed(start) && q in start.pages :: q in pages && pages[q] == start.pages[q]
    ensures FreeIds(pages, start.root, start.depth) == FreeIds(start.pages, start.root, start.depth)
    ensures Elems(pending) <= Committed(start) && Distinct(pending) && Elems(pending) !! Reach(Nodes(pages), root, depth)
    ensures Elems(pending) == Committed(start) - Reach(Nodes(pages), root, depth)
    ensures owned <= Reach(Nodes(pages), root, depth)
  {
    hide Tree, Reach, Nodes, InRange, AllStamped, GoodSupply, FreeIds, Elems, Distinct;
    NodesWrote(start.pages, pages, owned);
    hide Wrote;
    WroteKeeps(Nodes(start.pages), Nodes(pages), owned, Committed(start));
    FrameAll(SHAPE, Nodes(start.pages), Nodes(pages), start.root, start.depth);
    SameFree(start.pages, start.root, start.depth, pages, start.root, start.depth);
    Unchanged(start.pages, pages, owned, Committed(start));
  }

  lemma Unchanged(p0: map<nat, Image>, p1: map<nat, Image>, A: set<nat>, keep: set<nat>)
    requires Wrote(p0, p1, A) && A !! keep
    ensures forall q | q in keep && q in p0 :: q in p1 && p1[q] == p0[q]
  {
  }
}
