/**
 Freemap-tree pages at byte level: bitmap leaves and interior pages of child pointers. Decoded,
 the tree maps every page id to a bit, and an absent subtree means "all in use".
 */
module FreeMapPages {
  import opened Pages
  import opened RadixTree
  import opened FreeMap

  const MAX_DEPTH: nat := 5
  const SHAPE: Shape<bool> := Shape(BITS_PER_LEAF, false)

  /** Depth 5 is the first whose true capacity exceeds u64. */
  lemma DepthBound()
    ensures DepthFits(BITS_PER_LEAF, MAX_DEPTH)
  {
  }

  function TypeAt(level: nat): byte {
    if level == 0 then TYPE_FREEMAP else TYPE_FREEMAP_INTERIOR
  }

  function NewPage(pageType: byte): Image {
    Zeros()[0 := pageType]
  }

  function LeafBits(buf: Image): (s: seq<bool>)
    ensures |s| == BITS_PER_LEAF
  {
    seq(BITS_PER_LEAF, k requires 0 <= k < BITS_PER_LEAF => BitAt(Bitmap(buf), k))
  }

  function NodeOf(buf: Image): Node<bool> {
    if buf[0] == TYPE_FREEMAP then Leaf(LeafBits(buf))
    else if buf[0] == TYPE_FREEMAP_INTERIOR then Interior(Slots(buf))
    else Other
  }

  ghost function Nodes(pages: map<nat, Image>): Heap<bool> {
    map q | q in pages :: NodeOf(pages[q])
  }

  /** What a page means is decided by its body: the checksum bytes play no part. */
  lemma BodyDecides(a: Image, b: Image)
    requires Body(a) == Body(b)
    ensures NodeOf(a) == NodeOf(b)
  {
    BodySlots(a, b);
    hide BitAt;
    assert Bitmap(a) == Body(a)[HEADER_SIZE..] == Bitmap(b);
  }

  lemma NodesWrote(p0: map<nat, Image>, p1: map<nat, Image>, A: set<nat>)
    requires Wrote(p0, p1, A)
    ensures Wrote(Nodes(p0), Nodes(p1), A)
  {
  }

  lemma NodesAt(pages: map<nat, Image>, n: nat, buf: Image)
    ensures Nodes(pages[n := buf]) == Nodes(pages)[n := NodeOf(buf)]
  {
  }

  lemma StampKeepsNode(hash: Hash, buf: Image)
    ensures NodeOf(Stamp(hash, buf)) == NodeOf(buf) && Stamp(hash, buf)[0] == buf[0]
    ensures Stamped(hash, Stamp(hash, buf))
  {
    StampVerifies(hash, buf);
    hide BitAt;
    assert Stamp(hash, buf)[0] == Body(Stamp(hash, buf))[0];
    assert Bitmap(Stamp(hash, buf)) == Body(Stamp(hash, buf))[HEADER_SIZE..] == Bitmap(buf);
  }

  lemma WriteSlotNode(hash: Hash, buf: Image, i: nat, v: u64)
    requires i < SLOTS_PER_PAGE
    ensures NodeOf(buf).Interior? ==> NodeOf(Stamp(hash, WriteSlot(buf, i, v))) == Interior(NodeOf(buf).children[i := v])
    ensures Stamped(hash, Stamp(hash, WriteSlot(buf, i, v)))
  {
    var w := WriteSlot(buf, i, v);
    SlotsAfterWrite(buf, i, v);
    assert w[0] == w[..HEADER_SIZE][0];
    StampKeepsNode(hash, w);
  }

  /** The page a leaf operation leaves: bit `k` set (freed) or cleared (claimed). */
  function Edited(buf: Image, k: nat, free: bool): Image {
    if free then Marked(buf, k) else Cleared(buf, k)
  }

  /** A leaf operation changes exactly its bit of the node. */
  lemma EditNode(hash: Hash, buf: Image, k: nat, free: bool)
    requires k < BITS_PER_LEAF
    ensures NodeOf(buf).Leaf? ==> NodeOf(Stamp(hash, Edited(buf, k, free))) == Leaf(NodeOf(buf).slots[k := free])
    ensures Stamped(hash, Stamp(hash, Edited(buf, k, free)))
  {
    var w := Edited(buf, k, free);
    forall j | 0 <= j < BITS_PER_LEAF
      ensures LeafBits(w)[j] == LeafBits(buf)[k := free][j]
    {
      BitAfterWrite(buf, k, j);
    }
    BitAfterWrite(buf, k, k);
    assert w[0] == w[..HEADER_SIZE][0];
    StampKeepsNode(hash, w);
  }

  lemma NewPageNode(hash: Hash, pages: map<nat, Image>, c: nat, level: nat)
    requires c != 0 && c in pages && pages[c] == Stamp(hash, NewPage(TypeAt(level)))
    ensures EmptyNode(SHAPE, Nodes(pages), c, level) && Stamped(hash, pages[c]) && pages[c][0] == TypeAt(level)
  {
    var buf := NewPage(TypeAt(level));
    StampKeepsNode(hash, buf);
    if level == 0 {
      forall k | 0 <= k < BITS_PER_LEAF ensures !LeafBits(buf)[k] {
        assert Bitmap(buf)[k / 8] == buf[HEADER_SIZE + k / 8] == 0;
        ZeroHasNoBits(k % 8);
      }
    }
  }

  lemma RootPage(pages: map<nat, Image>, page: nat, level: nat)
    requires 0 < page && Tree(SHAPE, Nodes(pages), page, level)
    ensures page in pages && pages[page][0] == TypeAt(level) && page in Reach(Nodes(pages), page, level)
    ensures page in Nodes(pages)
    ensures level > 0 ==> Nodes(pages)[page] == Interior(Slots(pages[page]))
    ensures level == 0 ==> Nodes(pages)[page] == Leaf(LeafBits(pages[page]))
  {
    assert Nodes(pages)[page] == NodeOf(pages[page]);
  }
}
