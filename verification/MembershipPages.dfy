/**
 Membership-index pages at byte level. Leaf values and child pointers are the same 1021
 u64 slots; the page type alone says which they are.
 */
module MembershipPages {
  import opened Pages
  import opened RadixTree

  const MAX_DEPTH: nat := 6
  const SHAPE: Shape<nat> := Shape(SLOTS_PER_PAGE, 0)

  /** Depth 6 is the first whose true capacity exceeds u64. */
  lemma DepthBound()
    ensures DepthFits(SLOTS_PER_PAGE, MAX_DEPTH)
  {
  }

  /** The type a page at `level` must carry. */
  function TypeAt(level: nat): byte {
    if level == 0 then TYPE_MEMBERSHIP_LEAF else TYPE_MEMBERSHIP_INTERIOR
  }

  predicate IsNode(buf: Image) {
    buf[0] == TYPE_MEMBERSHIP_LEAF || buf[0] == TYPE_MEMBERSHIP_INTERIOR
  }

  function NewPage(pageType: byte): Image {
    Zeros()[0 := pageType]
  }

  function NodeOf(buf: Image): Node<nat> {
    if buf[0] == TYPE_MEMBERSHIP_LEAF then Leaf(Slots(buf))
    else if buf[0] == TYPE_MEMBERSHIP_INTERIOR then Interior(Slots(buf))
    else Other
  }

  ghost function Nodes(pages: map<nat, Image>): Heap<nat> {
    map q | q in pages :: NodeOf(pages[q])
  }

  /** What a page means is decided by its body: the checksum bytes play no part. */
  lemma BodyDecides(a: Image, b: Image)
    requires Body(a) == Body(b)
    ensures NodeOf(a) == NodeOf(b)
  {
    BodySlots(a, b);
  }

  lemma NodesWrote(p0: map<nat, Image>, p1: map<nat, Image>, A: set<nat>)
    requires Wrote(p0, p1, A)
    ensures Wrote(Nodes(p0), Nodes(p1), A)
  {
  }

  lemma StampKeepsNode(hash: Hash, buf: Image)
    ensures NodeOf(Stamp(hash, buf)) == NodeOf(buf) && Stamp(hash, buf)[0] == buf[0]
    ensures Stamped(hash, Stamp(hash, buf))
  {
    StampVerifies(hash, buf);
    assert Stamp(hash, buf)[0] == Body(Stamp(hash, buf))[0];
  }

  /** Writing a slot of a leaf or an interior page changes exactly that slot of the node. */
  lemma WriteSlotNode(hash: Hash, buf: Image, i: nat, v: u64)
    requires i < SLOTS_PER_PAGE
    ensures NodeOf(buf).Leaf? ==> NodeOf(Stamp(hash, WriteSlot(buf, i, v))) == Leaf(NodeOf(buf).slots[i := v])
    ensures NodeOf(buf).Interior? ==> NodeOf(Stamp(hash, WriteSlot(buf, i, v))) == Interior(NodeOf(buf).children[i := v])
    ensures Stamped(hash, Stamp(hash, WriteSlot(buf, i, v)))
  {
    var w := WriteSlot(buf, i, v);
    SlotsAfterWrite(buf, i, v);
    assert w[0] == w[..HEADER_SIZE][0];
    StampKeepsNode(hash, w);
  }

  lemma NewPageNode(hash: Hash, pages: map<nat, Image>, c: nat, level: nat)
    requires c != 0 && c in pages && pages[c] == Stamp(hash, NewPage(TypeAt(level)))
    ensures EmptyNode(SHAPE, Nodes(pages), c, level) && Stamped(hash, pages[c]) && pages[c][0] == TypeAt(level)
  {
    StampKeepsNode(hash, NewPage(TypeAt(level)));
  }

  /** The page of a tree's root carries the type its level asks for, and its slots are the node's. */
  lemma RootPage(pages: map<nat, Image>, page: nat, level: nat)
    requires 0 < page && Tree(SHAPE, Nodes(pages), page, level)
    ensures page in pages && pages[page][0] == TypeAt(level) && page in Reach(Nodes(pages), page, level)
    ensures page in Nodes(pages)
    ensures level > 0 ==> Nodes(pages)[page] == Interior(Slots(pages[page]))
    ensures level == 0 ==> Nodes(pages)[page] == Leaf(Slots(pages[page]))
  {
    assert Nodes(pages)[page] == NodeOf(pages[page]);
  }

  lemma LeafValue(pages: map<nat, Image>, page: nat, i: nat)
    requires 0 < page && page in pages && Tree(SHAPE, Nodes(pages), page, 0) && i < SLOTS_PER_PAGE
    ensures Get(SHAPE, Nodes(pages), page, 0, i) == ReadSlot(pages[page], i)
  {
    RootPage(pages, page, 0);
  }

  lemma NoSubtree(pages: map<nat, Image>, level: nat, k: nat)
    ensures Get(SHAPE, Nodes(pages), 0, level, k) == 0
  {
  }

  lemma LinkedNodes(hash: Hash, p0: map<nat, Image>, page: nat, level: nat, i: nat, c: u64, p2: map<nat, Image>, n: nat)
    requires 0 < page && 0 < level && Tree(SHAPE, Nodes(p0), page, level) && i < FANOUT && page in p0
    ensures page in Nodes(p0) && Nodes(p0)[page].Interior? && i < |Nodes(p0)[page].children|
    ensures Nodes(p0)[page].children[i] == ReadSlot(p0[page], i)
    ensures Nodes(p2[n := Stamp(hash, WriteSlot(p0[page], i, c))])
         == Nodes(p2)[n := Interior(Nodes(p0)[page].children[i := c])]
  {
    RootPage(p0, page, level);
    WriteSlotNode(hash, p0[page], i, c);
  }

  /** A leaf copied to `n` with one slot written. */
  lemma LeafWritten(hash: Hash, p0: map<nat, Image>, page: nat, i: nat, v: u64, n: nat)
    requires 0 < page && page in p0 && Tree(SHAPE, Nodes(p0), page, 0) && i < SLOTS_PER_PAGE
    requires 0 < n && n !in Reach(Nodes(p0), page, 0)
    ensures Built(SHAPE, Nodes(p0), page, 0, Nodes(p0[n := Stamp(hash, WriteSlot(p0[page], i, v))]), n, 0, {n}, [page])
    ensures PutAt(SHAPE, Nodes(p0), page, 0, Nodes(p0[n := Stamp(hash, WriteSlot(p0[page], i, v))]), n, 0, i, v)
  {
    hide Stamp, WriteSlot, Stamped;
    RootPage(p0, page, 0);
    WriteSlotNode(hash, p0[page], i, v);
    CowLeaf(SHAPE, Nodes(p0), page, i, v, Nodes(p0[n := Stamp(hash, WriteSlot(p0[page], i, v))]), n);
  }

  lemma Grown(hash: Hash, p0: map<nat, Image>, oldRoot: nat, depth: nat, n: nat)
    requires 0 < oldRoot < PAGE_ID_NONE && Tree(SHAPE, Nodes(p0), oldRoot, depth)
    requires 0 < n && n !in Reach(Nodes(p0), oldRoot, depth)
    ensures Built(SHAPE, Nodes(p0), oldRoot, depth,
                  Nodes(p0[n := Stamp(hash, WriteSlot(NewPage(TYPE_MEMBERSHIP_INTERIOR), 0, oldRoot))]), n, depth + 1, {n}, [])
    ensures SameValues(SHAPE, Nodes(p0), oldRoot, depth,
                       Nodes(p0[n := Stamp(hash, WriteSlot(NewPage(TYPE_MEMBERSHIP_INTERIOR), 0, oldRoot))]), n, depth + 1)
  {
    hide Built, SameValues, Tree, Reach, Stamped, Stamp, WriteSlot;
    var p1 := p0[n := Stamp(hash, WriteSlot(NewPage(TYPE_MEMBERSHIP_INTERIOR), 0, oldRoot))];
    WriteSlotNode(hash, NewPage(TYPE_MEMBERSHIP_INTERIOR), 0, oldRoot);
    GrowRoot(SHAPE, Nodes(p0), oldRoot, depth, Nodes(p1), n);
  }
}
