/**
 The slotted data page. A directory of 6-byte slots (offset, length, flags) grows up from the
 16-byte header, payloads grow down from the checksum. Grown from an empty page by inserts, it
 refines an append-only list of values.
 */
module DataPage {
  import opened Pages

  const SLOT_ENTRY_SIZE: nat := 6
  const SLOT_FLAG_LIVE: u16 := 1

  datatype Header = Header(freeStart: nat, freeEnd: nat, slotCount: nat)
  datatype Slot = Slot(offset: nat, length: nat, flags: nat)

  function DirEnd(slotCount: nat): nat {
    HEADER_SIZE + SLOT_ENTRY_SIZE * slotCount
  }

  /** The header, if every field is consistent with the format. */
  function ValidateHeader(buf: Image): (r: Option<Header>)
    ensures r.Some? ==> HEADER_SIZE <= DirEnd(r.value.slotCount) <= r.value.freeStart <= r.value.freeEnd <= CHECKSUM_OFFSET
    ensures r.Some? ==> buf[0] == TYPE_DATA
  {
    var h := Header(U16At(buf, 4), U16At(buf, 6), U16At(buf, 2));
    if buf[0] != TYPE_DATA || h.freeStart < HEADER_SIZE || h.freeEnd > CHECKSUM_OFFSET || h.freeStart > h.freeEnd then None
    else if DirEnd(h.slotCount) > h.freeStart then None
    else Some(h)
  }

  function ReadSlotEntry(buf: Image, slot: nat): (r: Option<Slot>)
    ensures r.Some? ==> HEADER_SIZE <= r.value.offset && r.value.offset + r.value.length <= CHECKSUM_OFFSET
  {
    var base := DirEnd(slot);
    if base + SLOT_ENTRY_SIZE > CHECKSUM_OFFSET then None
    else
      var s := Slot(U16At(buf, base), U16At(buf, base + 2), U16At(buf, base + 4));
      if s.offset < HEADER_SIZE || s.offset + s.length > CHECKSUM_OFFSET then None else Some(s)
  }

  function Read(buf: Image, slot: nat): Option<seq<byte>> {
    var h := ValidateHeader(buf);
    if h.None? || slot >= h.value.slotCount then None
    else
      var s := ReadSlotEntry(buf, slot);
      if s.None? || s.value.flags != SLOT_FLAG_LIVE then None
      else Some(buf[s.value.offset..s.value.offset + s.value.length])
  }

  /** A slot that is not live, or past the count, or on a page of another kind, reads as nothing. */
  lemma OnlyLive(buf: Image, slot: nat)
    requires Read(buf, slot).Some?
    ensures buf[0] == TYPE_DATA && slot < U16At(buf, 2) && DirEnd(slot) + SLOT_ENTRY_SIZE <= CHECKSUM_OFFSET
    ensures U16At(buf, DirEnd(slot) + 4) == SLOT_FLAG_LIVE && |Read(buf, slot).value| == U16At(buf, DirEnd(slot) + 2)
  {
    hide U16At;
  }

  // ----- writing -----

  /** Copy `data` into the buffer at `off`. */
  method CopyInto(buf: array<byte>, off: nat, data: seq<byte>)
    requires off + |data| <= buf.Length
    modifies buf
    ensures buf[..] == Splice(old(buf[..]), off, data)
  {
    ghost var was := buf[..];
    for i := 0 to |data|
      invariant forall k | 0 <= k < buf.Length :: buf[k] == if off <= k < off + i then data[k - off] else was[k]
    {
      buf[off + i] := data[i];
    }
  }

  function EmptyPage(): Image {
    Splice(Splice(Zeros()[0 := TYPE_DATA], 4, Le16(HEADER_SIZE)), 6, Le16(CHECKSUM_OFFSET))
  }

  method InitPage(buf: array<byte>)
    requires buf.Length == PAGE_SIZE
    modifies buf
    ensures buf[..] == EmptyPage()
  {
    for i := 0 to PAGE_SIZE
      invariant forall k | 0 <= k < i :: buf[k] == 0
    {
      buf[i] := 0;
    }
    assert buf[..] == Zeros();
    buf[0] := TYPE_DATA;
    assert buf[..] == Zeros()[0 := TYPE_DATA];
    CopyInto(buf, 4, Le16(HEADER_SIZE));
    CopyInto(buf, 6, Le16(CHECKSUM_OFFSET));
  }

  function Fits(h: Header, value: seq<byte>): bool
    requires h.freeStart <= h.freeEnd
  {
    SLOT_ENTRY_SIZE + |value| <= h.freeEnd - h.freeStart
  }

  /** The page after `value` was put in as the next slot. */
  function Inserted(buf: Image, h: Header, value: seq<byte>): Image
    requires HEADER_SIZE <= DirEnd(h.slotCount) <= h.freeStart <= h.freeEnd <= CHECKSUM_OFFSET && Fits(h, value)
  {
    var off := h.freeEnd - |value|;
    var entry := Le16(off) + Le16(|value|) + Le16(SLOT_FLAG_LIVE);
    var header := Le16(h.slotCount + 1) + Le16(h.freeStart + SLOT_ENTRY_SIZE) + Le16(off);
    Splice(Splice(Splice(buf, off, value), h.freeStart, entry), 2, header)
  }

  /** Append a value in place. `values` is only there to say what the page held. */
  method Insert(buf: array<byte>, value: seq<byte>, ghost values: seq<seq<byte>>) returns (r: Option<nat>)
    requires buf.Length == PAGE_SIZE
    modifies buf
    ensures var h := ValidateHeader(old(buf[..]));
            && (r.Some? <==> h.Some? && Fits(h.value, value))
            && (r.Some? ==> r.value == h.value.slotCount && buf[..] == Inserted(old(buf[..]), h.value, value))
            && (r.None? ==> buf[..] == old(buf[..]))
    ensures Lists(old(buf[..]), values) ==>
              && (r.Some? <==> Room(values) >= SLOT_ENTRY_SIZE + |value|)
              && (r.Some? ==> r.value == |values| && Lists(buf[..], values + [value]))
              && (r.None? ==> Lists(buf[..], values))
  {
    hide ValidateHeader, Inserted, Lists, Splice;
    ghost var was := buf[..];
    if Lists(was, values) {
      ListsHeader(was, values);
    }
    var header := ValidateHeader(buf[..]);
    if header.None? {
      return None;
    }
    var h := header.value;
    HeaderOrder(was, h);
    if h.freeEnd - h.freeStart < SLOT_ENTRY_SIZE + |value| {
      return None;
    }
    var off := h.freeEnd - |value|;
    CopyInto(buf, off, value);
    CopyInto(buf, h.freeStart, Le16(off));
    CopyInto(buf, h.freeStart + 2, Le16(|value|));
    CopyInto(buf, h.freeStart + 4, Le16(SLOT_FLAG_LIVE));
    CopyInto(buf, 2, Le16(h.slotCount + 1));
    CopyInto(buf, 4, Le16(h.freeStart + SLOT_ENTRY_SIZE));
    CopyInto(buf, 6, Le16(off));
    StepByStep(was, h, value);
    if Lists(was, values) {
      ListsMore(was, values, h, value);
    }
    return Some(h.slotCount);
  }

  lemma HeaderOrder(buf: Image, h: Header)
    requires ValidateHeader(buf) == Some(h)
    ensures HEADER_SIZE <= DirEnd(h.slotCount) <= h.freeStart <= h.freeEnd <= CHECKSUM_OFFSET
  {
  }

  lemma SpliceTwice(buf: seq<byte>, off: nat, a: seq<byte>, b: seq<byte>)
    requires off + |a| + |b| <= |buf|
    ensures Splice(Splice(buf, off, a), off + |a|, b) == Splice(buf, off, a + b)
  {
  }

  /** The writes one after the other make the inserted page. */
  lemma StepByStep(buf: Image, h: Header, value: seq<byte>)
    requires HEADER_SIZE <= DirEnd(h.slotCount) <= h.freeStart <= h.freeEnd <= CHECKSUM_OFFSET && Fits(h, value)
    ensures var off := h.freeEnd - |value|;
            var a := Splice(buf, off, value);
            var b := Splice(Splice(Splice(a, h.freeStart, Le16(off)), h.freeStart + 2, Le16(|value|)), h.freeStart + 4, Le16(SLOT_FLAG_LIVE));
            var c := Splice(Splice(Splice(b, 2, Le16(h.slotCount + 1)), 4, Le16(h.freeStart + SLOT_ENTRY_SIZE)), 6, Le16(off));
            c == Inserted(buf, h, value)
  {
    hide Splice, Le16;
    var off := h.freeEnd - |value|;
    var a := Splice(buf, off, value);
    SpliceTwice(a, h.freeStart, Le16(off), Le16(|value|));
    SpliceTwice(a, h.freeStart, Le16(off) + Le16(|value|), Le16(SLOT_FLAG_LIVE));
    var b := Splice(a, h.freeStart, Le16(off) + Le16(|value|) + Le16(SLOT_FLAG_LIVE));
    SpliceTwice(b, 2, Le16(h.slotCount + 1), Le16(h.freeStart + SLOT_ENTRY_SIZE));
    SpliceTwice(b, 2, Le16(h.slotCount + 1) + Le16(h.freeStart + SLOT_ENTRY_SIZE), Le16(off));
  }

  // ----- the list a page stands for -----

  function Total(values: seq<seq<byte>>): nat {
    if values == [] then 0 else Total(values[..|values| - 1]) + |values[|values| - 1]|
  }

  /** Where the payload of the last of `values` starts. */
  function Start(values: seq<seq<byte>>): int {
    CHECKSUM_OFFSET - Total(values)
  }

  /** Bytes left between the directory and the payloads. */
  function Room(values: seq<seq<byte>>): int {
    Start(values) - DirEnd(|values|)
  }

  /** Slot `i` points at the payload of value `i`, in its own stretch of the page. */
  ghost predicate SlotHolds(buf: Image, values: seq<seq<byte>>, i: nat)
    requires i < |values|
  {
    var off := Start(values[..i + 1]);
    && DirEnd(|values|) <= off && off + |values[i]| <= CHECKSUM_OFFSET
    && buf[DirEnd(i)..DirEnd(i) + SLOT_ENTRY_SIZE] == Le16(off) + Le16(|values[i]|) + Le16(SLOT_FLAG_LIVE)
    && buf[off..off + |values[i]|] == values[i]
  }

  /** The page lists exactly `values`: directory flush against the free space, payloads packed below the checksum. */
  ghost predicate Lists(buf: Image, values: seq<seq<byte>>) {
    && Room(values) >= 0
    && buf[0] == TYPE_DATA
    && buf[2..8] == Le16(|values|) + Le16(DirEnd(|values|)) + Le16(Start(values))
    && forall i: nat | i < |values| :: SlotHolds(buf, values, i)
  }

  lemma {:induction false} TotalPrefix(values: seq<seq<byte>>, i: nat)
    requires i <= |values|
    ensures Total(values[..i]) <= Total(values)
  {
    if i == |values| {
      assert values[..i] == values;
    } else {
      var front := values[..|values| - 1];
      TotalPrefix(front, i);
      assert front[..i] == values[..i];
    }
  }

  /** Three u16 fields in a row. */
  lemma ThreeFields(buf: Image, off: nat, a: u16, b: u16, c: u16)
    requires off + 6 <= PAGE_SIZE && buf[off..off + 6] == Le16(a) + Le16(b) + Le16(c)
    ensures U16At(buf, off) == a && U16At(buf, off + 2) == b && U16At(buf, off + 4) == c
  {
    hide Le16, U16At;
    var s := Le16(a) + Le16(b) + Le16(c);
    SliceOf(buf, off, 6, 0, 2);
    SliceOf(buf, off, 6, 2, 4);
    SliceOf(buf, off, 6, 4, 6);
    assert s[0..2] == Le16(a) && s[2..4] == Le16(b) && s[4..6] == Le16(c);
    U16Decodes(buf, off, a);
    U16Decodes(buf, off + 2, b);
    U16Decodes(buf, off + 4, c);
  }

  lemma ListsHeader(buf: Image, values: seq<seq<byte>>)
    requires Lists(buf, values)
    ensures DirEnd(|values|) <= Start(values) && ValidateHeader(buf) == Some(Header(DirEnd(|values|), Start(values), |values|))
  {
    hide Le16, U16At, SlotHolds;
    ThreeFields(buf, 2, |values|, DirEnd(|values|), Start(values));
  }

  lemma SlotReads(buf: Image, values: seq<seq<byte>>, i: nat)
    requires i < |values| && SlotHolds(buf, values, i) && DirEnd(|values|) <= CHECKSUM_OFFSET
    ensures Start(values[..i + 1]) >= 0
    ensures ReadSlotEntry(buf, i) == Some(Slot(Start(values[..i + 1]), |values[i]|, SLOT_FLAG_LIVE))
  {
    hide Le16, U16At, Total;
    ThreeFields(buf, DirEnd(i), Start(values[..i + 1]), |values[i]|, SLOT_FLAG_LIVE);
  }

  /** Reading a page that lists `values`: slot `i` gives value `i`, other slots nothing. */
  lemma ListsRead(buf: Image, values: seq<seq<byte>>, slot: nat)
    requires Lists(buf, values)
    ensures Read(buf, slot) == if slot < |values| then Some(values[slot]) else None
  {
    hide ValidateHeader, ReadSlotEntry, Total, Le16;
    ListsHeader(buf, values);
    if slot < |values| {
      assert SlotHolds(buf, values, slot);
      SlotReads(buf, values, slot);
    }
  }

  /** An initialised page lists nothing. */
  lemma EmptyLists()
    ensures Lists(EmptyPage(), []) && Room([]) == CHECKSUM_OFFSET - HEADER_SIZE
  {
    assert Total([]) == 0;
    var p := EmptyPage();
    assert p[2..8] == Le16(0) + Le16(HEADER_SIZE) + Le16(CHECKSUM_OFFSET);
  }

  /** Inserting appends: earlier slots are not disturbed, and the new one holds the value. */
  lemma ListsMore(buf: Image, values: seq<seq<byte>>, h: Header, value: seq<byte>)
    requires Lists(buf, values) && h == Header(DirEnd(|values|), Start(values), |values|) && h.freeStart <= h.freeEnd && Fits(h, value)
    ensures Lists(Inserted(buf, h, value), values + [value])
  {
    var more := values + [value];
    assert more[..|values|] == values;
    assert Total(more) == Total(values) + |value|;
    hide SlotHolds, Total, Inserted, Le16;
    InsertedHeader(buf, h, value);
    forall i: nat | i < |more| ensures SlotHolds(Inserted(buf, h, value), more, i) {
      if i < |values| {
        assert SlotHolds(buf, values, i);
        SlotKept(buf, values, h, value, i);
      } else {
        SlotNew(buf, values, h, value);
      }
    }
  }

  lemma InsertedHeader(buf: Image, h: Header, value: seq<byte>)
    requires HEADER_SIZE <= DirEnd(h.slotCount) <= h.freeStart <= h.freeEnd <= CHECKSUM_OFFSET && Fits(h, value)
    ensures Inserted(buf, h, value)[0] == buf[0]
    ensures Inserted(buf, h, value)[2..8] == Le16(h.slotCount + 1) + Le16(h.freeStart + SLOT_ENTRY_SIZE) + Le16(h.freeEnd - |value|)
  {
    hide Le16;
    var off := h.freeEnd - |value|;
    var a := Splice(Splice(buf, off, value), h.freeStart, Le16(off) + Le16(|value|) + Le16(SLOT_FLAG_LIVE));
    SpliceReads(a, 2, Le16(h.slotCount + 1) + Le16(h.freeStart + SLOT_ENTRY_SIZE) + Le16(off));
  }

  /** Bytes of the page an insert does not touch. */
  lemma InsertedFrames(buf: Image, h: Header, value: seq<byte>, a: nat, b: nat)
    requires HEADER_SIZE <= DirEnd(h.slotCount) <= h.freeStart <= h.freeEnd <= CHECKSUM_OFFSET && Fits(h, value)
    requires a <= b && ((8 <= a && b <= h.freeStart) || (h.freeEnd <= a && b <= PAGE_SIZE))
    ensures Inserted(buf, h, value)[a..b] == buf[a..b]
  {
    hide Le16, Splice;
    var off := h.freeEnd - |value|;
    var entry := Le16(off) + Le16(|value|) + Le16(SLOT_FLAG_LIVE);
    var header := Le16(h.slotCount + 1) + Le16(h.freeStart + SLOT_ENTRY_SIZE) + Le16(off);
    SpliceFrames(buf, off, value, a, b);
    SpliceFrames(Splice(buf, off, value), h.freeStart, entry, a, b);
    SpliceFrames(Splice(Splice(buf, off, value), h.freeStart, entry), 2, header, a, b);
  }

  lemma SlotKept(buf: Image, values: seq<seq<byte>>, h: Header, value: seq<byte>, i: nat)
    requires i < |values| && SlotHolds(buf, values, i) && Room(values) >= 0
    requires h == Header(DirEnd(|values|), Start(values), |values|) && h.freeStart <= h.freeEnd && Fits(h, value)
    ensures SlotHolds(Inserted(buf, h, value), values + [value], i)
  {
    hide Total, Inserted, Le16;
    assert (values + [value])[..i + 1] == values[..i + 1];
    TotalPrefix(values, i + 1);
    var off := Start(values[..i + 1]);
    InsertedFrames(buf, h, value, DirEnd(i), DirEnd(i) + SLOT_ENTRY_SIZE);
    InsertedFrames(buf, h, value, off, off + |values[i]|);
  }

  lemma SlotNew(buf: Image, values: seq<seq<byte>>, h: Header, value: seq<byte>)
    requires Room(values) >= 0 && h == Header(DirEnd(|values|), Start(values), |values|) && h.freeStart <= h.freeEnd && Fits(h, value)
    ensures SlotHolds(Inserted(buf, h, value), values + [value], |values|)
  {
    var more := values + [value];
    assert more[..|values| + 1] == more && more[..|values|] == values;
    assert Total(more) == Total(values) + |value|;
    hide Total, Inserted, Le16;
    InsertedNew(buf, h, value);
  }

  lemma InsertedNew(buf: Image, h: Header, value: seq<byte>)
    requires HEADER_SIZE <= DirEnd(h.slotCount) <= h.freeStart <= h.freeEnd <= CHECKSUM_OFFSET && Fits(h, value)
    ensures var off := h.freeEnd - |value|;
            && Inserted(buf, h, value)[h.freeStart..h.freeStart + SLOT_ENTRY_SIZE] == Le16(off) + Le16(|value|) + Le16(SLOT_FLAG_LIVE)
            && Inserted(buf, h, value)[off..off + |value|] == value
  {
    hide Le16, Splice;
    var off := h.freeEnd - |value|;
    var entry := Le16(off) + Le16(|value|) + Le16(SLOT_FLAG_LIVE);
    var header := Le16(h.slotCount + 1) + Le16(h.freeStart + SLOT_ENTRY_SIZE) + Le16(off);
    var a := Splice(buf, off, value);
    var b := Splice(a, h.freeStart, entry);
    SpliceReads(buf, off, value);
    SpliceFrames(a, h.freeStart, entry, off, off + |value|);
    SpliceReads(a, h.freeStart, entry);
    SpliceFrames(b, 2, header, off, off + |value|);
    SpliceFrames(b, 2, header, h.freeStart, h.freeStart + SLOT_ENTRY_SIZE);
  }

  /** All live slots in order; on a page that lists `values`, exactly those. */
  method IterLive(buf: Image, ghost values: seq<seq<byte>>) returns (r: seq<(nat, seq<byte>)>)
    ensures Lists(buf, values) ==> |r| == |values| && forall i: nat | i < |r| :: r[i] == (i, values[i])
    ensures ValidateHeader(buf).None? ==> r == []
  {
    hide ReadSlotEntry, ValidateHeader, Lists;
    r := [];
    if Lists(buf, values) {
      ListsHeader(buf, values);
    }
    var h := ValidateHeader(buf);
    if h.None? {
      return;
    }
    for i := 0 to h.value.slotCount
      invariant Lists(buf, values) ==> |r| == i && forall j: nat | j < i :: r[j] == (j, values[j])
    {
      if Lists(buf, values) {
        ListsSlot(buf, values, i);
      }
      var slot := ReadSlotEntry(buf, i);
      if slot.None? {
        return [];
      }
      EntryInPage(buf, i);
      if slot.value.flags == SLOT_FLAG_LIVE {
        r := r + [(i, buf[slot.value.offset..slot.value.offset + slot.value.length])];
      }
    }
  }

  lemma EntryInPage(buf: Image, slot: nat)
    ensures ReadSlotEntry(buf, slot).Some? ==>
              ReadSlotEntry(buf, slot).value.offset + ReadSlotEntry(buf, slot).value.length <= CHECKSUM_OFFSET
  {
  }

  lemma ListsSlot(buf: Image, values: seq<seq<byte>>, i: nat)
    requires Lists(buf, values) && i < |values|
    ensures var s := ReadSlotEntry(buf, i);
            && s.Some? && s.value.flags == SLOT_FLAG_LIVE && s.value.offset + s.value.length <= PAGE_SIZE
            && buf[s.value.offset..s.value.offset + s.value.length] == values[i]
  {
    hide ReadSlotEntry, Total, Le16;
    assert SlotHolds(buf, values, i);
    SlotReads(buf, values, i);
  }

  /** A page filled from empty by any sequence of inserts: every value that was accepted reads back from its slot, for good. */
  method Fill(buf: array<byte>, values: seq<seq<byte>>) returns (slots: seq<Option<nat>>, ghost kept: seq<seq<byte>>)
    requires buf.Length == PAGE_SIZE
    modifies buf
    ensures |slots| == |values| && Lists(buf[..], kept)
    ensures forall i | 0 <= i < |values| && slots[i].Some? :: Read(buf[..], slots[i].value) == Some(values[i])
    ensures (forall i | 0 <= i < |values| :: slots[i].Some?) ==> kept == values
  {
    hide Lists, Read, EmptyPage, Inserted, ValidateHeader;
    InitPage(buf);
    EmptyLists();
    slots, kept := [], [];
    for k := 0 to |values|
      invariant |slots| == k && Lists(buf[..], kept)
      invariant forall i | 0 <= i < k && slots[i].Some? :: slots[i].value < |kept| && kept[slots[i].value] == values[i]
      invariant (forall i | 0 <= i < k :: slots[i].Some?) ==> kept == values[..k]
    {
      var slot := Insert(buf, values[k], kept);
      if slot.Some? {
        kept := kept + [values[k]];
      }
      ghost var was := slots;
      slots := slots + [slot];
      assert values[..k] + [values[k]] == values[..k + 1];
      assert forall i | 0 <= i < k :: was[i] == slots[i];
      assert slots[k] == slot;
    }
    assert values[..|values|] == values;
    forall i | 0 <= i < |values| && slots[i].Some? ensures Read(buf[..], slots[i].value) == Some(values[i]) {
      ListsRead(buf[..], kept, slots[i].value);
    }
  }

  // ----- pages with a gap between the directory and the free space -----

  /** Every value that fits reads back from the slot it was given. */
  ghost predicate ReadsBack(buf: Image, h: Header)
    requires HEADER_SIZE <= DirEnd(h.slotCount) <= h.freeStart <= h.freeEnd <= CHECKSUM_OFFSET
  {
    forall value: seq<byte> | Fits(h, value) :: Read(Inserted(buf, h, value), h.slotCount) == Some(value)
  }

  /**
   The header check also admits pages whose free space starts beyond the directory's end. On those
   an insert writes its slot where a read does not look for it: on a page with room for one byte,
   inserted values read back if and only if the directory is flush against the free space.
   */
  lemma ReadsBackExactly(buf: Image, h: Header)
    requires ValidateHeader(buf) == Some(h) && SLOT_ENTRY_SIZE + 1 <= h.freeEnd - h.freeStart
    ensures ReadsBack(buf, h) <==> h.freeStart == DirEnd(h.slotCount)
  {
    hide ValidateHeader, Read, Inserted;
    HeaderOrder(buf, h);
    if h.freeStart == DirEnd(h.slotCount) {
      forall value: seq<byte> | Fits(h, value) ensures Read(Inserted(buf, h, value), h.slotCount) == Some(value) {
        FlushReads(buf, h, value);
      }
    } else {
      var none: seq<byte>, one: seq<byte> := [], [0];
      assert Fits(h, none) && Fits(h, one);
      GapLoses(buf, h, none, one);
    }
  }

  lemma InsertedValid(buf: Image, h: Header, value: seq<byte>)
    requires ValidateHeader(buf) == Some(h) && Fits(h, value)
    ensures ValidateHeader(Inserted(buf, h, value))
         == Some(Header(h.freeStart + SLOT_ENTRY_SIZE, h.freeEnd - |value|, h.slotCount + 1))
  {
    hide Inserted, Le16, U16At;
    InsertedHeader(buf, h, value);
    ThreeFields(Inserted(buf, h, value), 2, h.slotCount + 1, h.freeStart + SLOT_ENTRY_SIZE, h.freeEnd - |value|);
  }

  lemma FlushReads(buf: Image, h: Header, value: seq<byte>)
    requires ValidateHeader(buf) == Some(h) && Fits(h, value) && h.freeStart == DirEnd(h.slotCount)
    ensures Read(Inserted(buf, h, value), h.slotCount) == Some(value)
  {
    hide ValidateHeader, Inserted, Le16, U16At;
    InsertedValid(buf, h, value);
    InsertedNew(buf, h, value);
    ThreeFields(Inserted(buf, h, value), h.freeStart, h.freeEnd - |value|, |value|, SLOT_FLAG_LIVE);
  }

  /** What a read of the new slot decodes when there is a gap of `g` bytes: old bytes first, then the start of the new entry. */
  lemma GapEntry(buf: Image, h: Header, value: seq<byte>, i: nat)
    requires ValidateHeader(buf) == Some(h) && Fits(h, value) && DirEnd(h.slotCount) < h.freeStart && i < SLOT_ENTRY_SIZE
    ensures var at := DirEnd(h.slotCount) + i;
            var entry := Le16(h.freeEnd - |value|) + Le16(|value|) + Le16(SLOT_FLAG_LIVE);
            Inserted(buf, h, value)[at] == if at < h.freeStart then buf[at] else entry[at - h.freeStart]
  {
    hide ValidateHeader, Inserted, Le16;
    HeaderOrder(buf, h);
    var at := DirEnd(h.slotCount) + i;
    var page := Inserted(buf, h, value);
    if at < h.freeStart {
      InsertedFrames(buf, h, value, at, at + 1);
      assert page[at] == page[at..at + 1][0] && buf[at] == buf[at..at + 1][0];
    } else {
      InsertedNew(buf, h, value);
      assert page[at] == page[h.freeStart..h.freeStart + SLOT_ENTRY_SIZE][at - h.freeStart];
    }
  }

  /** With a gap, the empty value and a one-byte value cannot both read back. */
  lemma GapLoses(buf: Image, h: Header, none: seq<byte>, one: seq<byte>)
    requires ValidateHeader(buf) == Some(h) && DirEnd(h.slotCount) < h.freeStart && Fits(h, one) && |none| == 0 && |one| == 1
    ensures !(Read(Inserted(buf, h, none), h.slotCount) == Some(none) && Read(Inserted(buf, h, one), h.slotCount) == Some(one))
  {
    hide ValidateHeader, Inserted, Read;
    HeaderOrder(buf, h);
    var a, b := Inserted(buf, h, none), Inserted(buf, h, one);
    if Read(a, h.slotCount) == Some(none) && Read(b, h.slotCount) == Some(one) {
      ReadLength(a, h.slotCount, none);
      ReadLength(b, h.slotCount, one);
      GapEntry(buf, h, none, 2);
      GapEntry(buf, h, none, 3);
      GapEntry(buf, h, one, 2);
      GapEntry(buf, h, one, 3);
      GapLength(buf, h);
    }
  }

  /** A value read from a slot has the length the slot says. */
  lemma ReadLength(page: Image, slot: nat, value: seq<byte>)
    requires Read(page, slot) == Some(value)
    ensures DirEnd(slot) + SLOT_ENTRY_SIZE <= CHECKSUM_OFFSET && U16At(page, DirEnd(slot) + 2) == |value|
  {
  }

  /** The length field seen through the gap cannot be 0 for the one insert and 1 for the other. */
  lemma GapLength(buf: Image, h: Header)
    requires HEADER_SIZE <= DirEnd(h.slotCount) < h.freeStart && h.freeStart + SLOT_ENTRY_SIZE + 1 <= h.freeEnd <= CHECKSUM_OFFSET
    ensures !(GapByte(buf, h, 0, 2) + 0x100 * GapByte(buf, h, 0, 3) == 0 && GapByte(buf, h, 1, 2) + 0x100 * GapByte(buf, h, 1, 3) == 1)
  {
  }

  ghost function GapByte(buf: Image, h: Header, length: nat, i: nat): byte
    requires DirEnd(h.slotCount) <= h.freeStart && length <= 1 <= h.freeEnd <= CHECKSUM_OFFSET && i < SLOT_ENTRY_SIZE
    requires DirEnd(h.slotCount) + SLOT_ENTRY_SIZE <= PAGE_SIZE
  {
    var at := DirEnd(h.slotCount) + i;
    if at < h.freeStart then buf[at] else (Le16(h.freeEnd - length) + Le16(length) + Le16(SLOT_FLAG_LIVE))[at - h.freeStart]
  }

  /** Such a page: an empty one whose free space starts one slot too high. */
  lemma GapPage()
    ensures var buf := Splice(EmptyPage(), 4, Le16(22));
            var h := Header(22, CHECKSUM_OFFSET, 0);
            ValidateHeader(buf) == Some(h) && !ReadsBack(buf, h)
  {
    var buf := Splice(EmptyPage(), 4, Le16(22));
    assert buf[2..8] == Le16(0) + Le16(22) + Le16(CHECKSUM_OFFSET);
    ThreeFields(buf, 2, 0, 22, CHECKSUM_OFFSET);
    ReadsBackExactly(buf, Header(22, CHECKSUM_OFFSET, 0));
  }
}
