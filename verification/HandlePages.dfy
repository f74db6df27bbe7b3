/**
 Handle-table pages at byte level: 510 sixteen-byte entries per leaf, 1021 child pointers
 per interior page, and the flag in byte 1 that tells the two apart.
 */
module HandlePages {
  import opened Pages
  import opened RadixTree

  const ENTRIES_PER_LEAF: Positive := 510
  const ENTRY_SIZE: nat := 16
  const FLAG_LEAF: byte := 0x01
  const FLAG_INTERIOR: byte := 0x02
  const MAX_DEPTH: nat := 6

  datatype Flags = Live | Deleted | Overflow

  datatype HandleEntry = HandleEntry(pageId: u64, slotIndex: u16, flags: Flags, tag: u32, clientByte: byte)

  /** What a zeroed leaf slot reads as, and what delete writes. */
  const TOMBSTONE := HandleEntry(0, 0, Deleted, 0, 0)

  const SHAPE: Shape<HandleEntry> := Shape(ENTRIES_PER_LEAF, TOMBSTONE)

  /** Depth 6 is the first whose true capacity exceeds u64. */
  lemma DepthBound()
    ensures DepthFits(ENTRIES_PER_LEAF, MAX_DEPTH)
  {
  }

  function FlagByte(f: Flags): byte {
    match f
    case Live => 0x01
    case Deleted => 0x00
    case Overflow => 0x02
  }

  function FlagOf(b: byte): Flags {
    if b == 0x01 then Live else if b == 0x02 then Overflow else Deleted
  }

  /** The flag codes of the format: 1 is live, 2 is an overflow chain, anything else is a deleted slot. */
  lemma FlagCodes(buf: Image, i: nat)
    requires i < ENTRIES_PER_LEAF
    ensures var e, b := ReadEntry(buf, i), buf[HEADER_SIZE + 16 * i + 10];
            (e.flags == Live <==> b == 1) && (e.flags == Overflow <==> b == 2) && (e.flags == Deleted <==> b != 1 && b != 2)
  {
  }

  function ReadEntry(buf: Image, i: nat): HandleEntry
    requires i < ENTRIES_PER_LEAF
  {
    var base := HEADER_SIZE + i * ENTRY_SIZE;
    HandleEntry(U64At(buf, base), U16At(buf, base + 8), FlagOf(buf[base + 10]), U32At(buf, base + 11), buf[base + 15])
  }

  function EncodeEntry(e: HandleEntry): (s: seq<byte>)
    ensures |s| == ENTRY_SIZE
  {
    Le64(e.pageId) + Le16(e.slotIndex) + [FlagByte(e.flags)] + Le32(e.tag) + [e.clientByte]
  }

  function WriteEntry(buf: Image, i: nat, e: HandleEntry): Image
    requires i < ENTRIES_PER_LEAF
  {
    Splice(buf, HEADER_SIZE + i * ENTRY_SIZE, EncodeEntry(e))
  }

  /** Where the fields of an entry lie. */
  lemma EntryLayout(buf: Image, i: nat, e: HandleEntry)
    requires i < ENTRIES_PER_LEAF
    ensures var w, base := WriteEntry(buf, i, e), HEADER_SIZE + 16 * i;
            && w[base..base + 8] == Le64(e.pageId) && w[base + 8..base + 10] == Le16(e.slotIndex)
            && w[base + 10] == FlagByte(e.flags) && w[base + 11..base + 15] == Le32(e.tag) && w[base + 15] == e.clientByte
  {
    hide Le64, Le32, Le16;
    var w, base, s := WriteEntry(buf, i, e), HEADER_SIZE + 16 * i, EncodeEntry(e);
    assert w[base..base + 16] == s;
    SliceOf(w, base, 16, 0, 8);
    SliceOf(w, base, 16, 8, 10);
    SliceOf(w, base, 16, 11, 15);
    assert w[base + 10] == s[10] && w[base + 15] == s[15];
  }

  /** An entry reads back as written. */
  lemma EntryRoundTrip(buf: Image, i: nat, e: HandleEntry)
    requires i < ENTRIES_PER_LEAF
    ensures ReadEntry(WriteEntry(buf, i, e), i) == e
  {
    var w := WriteEntry(buf, i, e);
    var base := HEADER_SIZE + i * ENTRY_SIZE;
    var s := EncodeEntry(e);
    SpliceReads(buf, base, s);
    assert w[base..base + 16] == s;
    assert w[base..base + 8] == s[..8] == Le64(e.pageId);
    assert w[base + 8..base + 10] == s[8..10] == Le16(e.slotIndex);
    assert w[base + 10] == s[10] && w[base + 15] == s[15];
    assert w[base + 11..base + 15] == s[11..15] == Le32(e.tag);
    U64Decodes(w, base, e.pageId);
    U16Decodes(w, base + 8, e.slotIndex);
    U32Decodes(w, base + 11, e.tag);
  }

  lemma EntryUntouched(a: Image, b: Image, i: nat)
    requires i < ENTRIES_PER_LEAF
    requires forall j | HEADER_SIZE + i * ENTRY_SIZE <= j < HEADER_SIZE + (i + 1) * ENTRY_SIZE :: a[j] == b[j]
    ensures ReadEntry(a, i) == ReadEntry(b, i)
  {
  }

  function Entries(buf: Image): (s: seq<HandleEntry>)
    ensures |s| == ENTRIES_PER_LEAF
  {
    seq(ENTRIES_PER_LEAF, i requires 0 <= i < ENTRIES_PER_LEAF => ReadEntry(buf, i))
  }

  /** Writing one entry changes exactly that entry, and no header byte. */
  lemma EntriesAfterWrite(buf: Image, i: nat, e: HandleEntry)
    requires i < ENTRIES_PER_LEAF
    ensures Entries(WriteEntry(buf, i, e)) == Entries(buf)[i := e]
    ensures WriteEntry(buf, i, e)[..HEADER_SIZE] == buf[..HEADER_SIZE]
  {
    var w := WriteEntry(buf, i, e);
    EntryRoundTrip(buf, i, e);
    forall j | 0 <= j < ENTRIES_PER_LEAF && j != i ensures ReadEntry(w, j) == ReadEntry(buf, j) {
      EntryUntouched(w, buf, j);
    }
  }

  function NewPage(flag: byte): Image {
    Zeros()[0 := TYPE_HANDLE_TABLE][1 := flag]
  }

  predicate IsInterior(buf: Image) {
    buf[0] == TYPE_HANDLE_TABLE && buf[1] == FLAG_INTERIOR
  }

  predicate IsLeaf(buf: Image) {
    buf[0] == TYPE_HANDLE_TABLE && buf[1] == FLAG_LEAF
  }

  /** The node a page holds. */
  function NodeOf(buf: Image): Node<HandleEntry> {
    if IsLeaf(buf) then Leaf(Entries(buf))
    else if IsInterior(buf) then Interior(Slots(buf))
    else Other
  }

  ghost function Nodes(pages: map<nat, Image>): Heap<HandleEntry> {
    map q | q in pages :: NodeOf(pages[q])
  }

  /** What a page means is decided by its body: the checksum bytes play no part. */
  lemma BodyDecides(a: Image, b: Image)
    requires Body(a) == Body(b)
    ensures NodeOf(a) == NodeOf(b)
  {
    BodySlots(a, b);
    assert forall i | 0 <= i < CHECKSUM_OFFSET :: a[i] == Body(a)[i] && b[i] == Body(b)[i];
    forall i | 0 <= i < ENTRIES_PER_LEAF ensures Entries(a)[i] == Entries(b)[i] {
      EntryUntouched(a, b, i);
    }
  }

  lemma NodesWrote(p0: map<nat, Image>, p1: map<nat, Image>, A: set<nat>)
    requires Wrote(p0, p1, A)
    ensures Wrote(Nodes(p0), Nodes(p1), A)
  {
  }

  /** The checksum lies outside everything a node stores. */
  lemma StampKeepsNode(hash: Hash, buf: Image)
    ensures NodeOf(Stamp(hash, buf)) == NodeOf(buf)
  {
    StampVerifies(hash, buf);
    var s := Stamp(hash, buf);
    assert s[0] == Body(s)[0] && s[1] == Body(s)[1];
    forall j | 0 <= j < ENTRIES_PER_LEAF ensures ReadEntry(s, j) == ReadEntry(buf, j) {
      EntryUntouched(s, buf, j);
    }
    assert Entries(s) == Entries(buf);
  }

  lemma WriteEntryNode(hash: Hash, buf: Image, i: nat, e: HandleEntry)
    requires i < ENTRIES_PER_LEAF && NodeOf(buf).Leaf?
    ensures NodeOf(Stamp(hash, WriteEntry(buf, i, e))) == Leaf(NodeOf(buf).slots[i := e])
    ensures Stamped(hash, Stamp(hash, WriteEntry(buf, i, e)))
  {
    var w := WriteEntry(buf, i, e);
    EntriesAfterWrite(buf, i, e);
    assert w[0] == w[..HEADER_SIZE][0] && w[1] == w[..HEADER_SIZE][1];
    StampKeepsNode(hash, w);
    StampVerifies(hash, w);
  }

  lemma WriteChildNode(hash: Hash, buf: Image, i: nat, c: u64)
    requires i < FANOUT && NodeOf(buf).Interior?
    ensures NodeOf(Stamp(hash, WriteSlot(buf, i, c))) == Interior(NodeOf(buf).children[i := c])
    ensures Stamped(hash, Stamp(hash, WriteSlot(buf, i, c)))
  {
    var w := WriteSlot(buf, i, c);
    SlotsAfterWrite(buf, i, c);
    assert w[0] == w[..HEADER_SIZE][0] && w[1] == w[..HEADER_SIZE][1];
    StampKeepsNode(hash, w);
    StampVerifies(hash, w);
  }

  /** A page fresh from the allocator, initialised, is an empty node of the right kind. */
  lemma NewPageNode(hash: Hash, pages: map<nat, Image>, c: nat, level: nat)
    requires c != 0 && c in pages
    requires pages[c] == Stamp(hash, NewPage(if level == 0 then FLAG_LEAF else FLAG_INTERIOR))
    ensures EmptyNode(SHAPE, Nodes(pages), c, level) && Stamped(hash, pages[c])
  {
    var buf := NewPage(if level == 0 then FLAG_LEAF else FLAG_INTERIOR);
    StampKeepsNode(hash, buf);
    StampVerifies(hash, buf);
  }
}
