/**
 The on-disk page: 8192 bytes, little-endian integers, and an 8-byte checksum in the
 last 8 bytes over everything before it. The hash itself is a parameter throughout:
 nothing below depends on which function it is.
 */
module Pages {

  const PAGE_SIZE: nat := 8192
  const CHECKSUM_OFFSET: nat := 8184
  const HEADER_SIZE: nat := 16
  const PAGE_BODY_SIZE: nat := 8168

  const U64_MAX: nat := 0xFFFF_FFFF_FFFF_FFFF
  const PAGE_ID_NONE: nat := U64_MAX

  type byte = x: int | 0 <= x < 0x100
  type u16 = x: int | 0 <= x < 0x1_0000
  type u32 = x: int | 0 <= x < 0x1_0000_0000
  type u64 = x: int | 0 <= x <= U64_MAX

  type Image = s: seq<byte> | |s| == PAGE_SIZE witness seq(PAGE_SIZE, _ => 0)
  type Hash = seq<byte> -> u64

  // Page-type tags, stored in byte 0 of every page.
  const TYPE_HANDLE_TABLE: byte := 0x01
  const TYPE_DATA: byte := 0x02
  const TYPE_OVERFLOW: byte := 0x03
  const TYPE_FREEMAP: byte := 0x04
  const TYPE_MEMBERSHIP_INTERIOR: byte := 0x05
  const TYPE_MEMBERSHIP_LEAF: byte := 0x06
  const TYPE_FREEMAP_INTERIOR: byte := 0x07

  datatype Option<+T> = None | Some(value: T)

  datatype Error =
    | AllocFailed
    | MissingPage(id: nat)
    | InvalidPageId(id: nat)
    | ShortRead
    | CorruptPage(id: nat)
    | ChecksumMismatch(id: nat)
    | CacheFull
    | SpillwayFull

  datatype Result<+T> = Ok(value: T) | Err(error: Error)

  function Zeros(): Image {
    seq(PAGE_SIZE, _ => 0)
  }

  /** `buf` with `data` written over the bytes from `off` on. */
  function Splice(buf: seq<byte>, off: nat, data: seq<byte>): (r: seq<byte>)
    requires off + |data| <= |buf|
    ensures |r| == |buf|
  {
    seq(|buf|, i requires 0 <= i < |buf| => if off <= i < off + |data| then data[i - off] else buf[i])
  }

  function Min(a: nat, b: nat): nat {
    if a <= b then a else b
  }

  function SatMul(a: nat, b: nat): nat {
    Min(a * b, U64_MAX)
  }

  function SatAdd(a: nat, b: nat): nat {
    Min(a + b, U64_MAX)
  }

  // ----- little-endian integers -----

  function Le16(v: u16): (s: seq<byte>)
    ensures |s| == 2
  {
    [v % 0x100, v / 0x100]
  }

  function Le32(v: u32): (s: seq<byte>)
    ensures |s| == 4
  {
    Le16(v % 0x1_0000) + Le16(v / 0x1_0000)
  }

  function Le64(v: u64): (s: seq<byte>)
    ensures |s| == 8
  {
    Le32(v % 0x1_0000_0000) + Le32(v / 0x1_0000_0000)
  }

  function U16At(buf: seq<byte>, off: nat): u16
    requires off + 2 <= |buf|
  {
    buf[off] as int + 0x100 * buf[off + 1] as int
  }

  function U32At(buf: seq<byte>, off: nat): u32
    requires off + 4 <= |buf|
  {
    U16At(buf, off) as int + 0x1_0000 * U16At(buf, off + 2) as int
  }

  function U64At(buf: seq<byte>, off: nat): u64
    requires off + 8 <= |buf|
  {
    U32At(buf, off) as int + 0x1_0000_0000 * U32At(buf, off + 4) as int
  }

  lemma U16Decodes(buf: seq<byte>, off: nat, v: u16)
    requires off + 2 <= |buf| && buf[off..off + 2] == Le16(v)
    ensures U16At(buf, off) == v
  {
    assert buf[off] == buf[off..off + 2][0] && buf[off + 1] == buf[off..off + 2][1];
  }

  lemma U32Decodes(buf: seq<byte>, off: nat, v: u32)
    requires off + 4 <= |buf| && buf[off..off + 4] == Le32(v)
    ensures U32At(buf, off) == v
  {
    assert buf[off..off + 2] == buf[off..off + 4][..2] == Le16(v % 0x1_0000);
    assert buf[off + 2..off + 4] == buf[off..off + 4][2..] == Le16(v / 0x1_0000);
    U16Decodes(buf, off, v % 0x1_0000);
    U16Decodes(buf, off + 2, v / 0x1_0000);
  }

  /** Decoding what was encoded gives the integer back. */
  lemma U64Decodes(buf: seq<byte>, off: nat, v: u64)
    requires off + 8 <= |buf| && buf[off..off + 8] == Le64(v)
    ensures U64At(buf, off) == v
  {
    assert buf[off..off + 4] == buf[off..off + 8][..4] == Le32(v % 0x1_0000_0000);
    assert buf[off + 4..off + 8] == buf[off..off + 8][4..] == Le32(v / 0x1_0000_0000);
    U32Decodes(buf, off, v % 0x1_0000_0000);
    U32Decodes(buf, off + 4, v / 0x1_0000_0000);
  }

  lemma U16Encodes(buf: seq<byte>, off: nat)
    requires off + 2 <= |buf|
    ensures Le16(U16At(buf, off)) == buf[off..off + 2]
  {
  }

  lemma U32Encodes(buf: seq<byte>, off: nat)
    requires off + 4 <= |buf|
    ensures Le32(U32At(buf, off)) == buf[off..off + 4]
  {
    U16Encodes(buf, off);
    U16Encodes(buf, off + 2);
    hide Le16, U16At;
    var lo: int, hi: int := U16At(buf, off), U16At(buf, off + 2);
    assert (lo + 0x1_0000 * hi) % 0x1_0000 == lo && (lo + 0x1_0000 * hi) / 0x1_0000 == hi;
    assert buf[off..off + 4] == buf[off..off + 2] + buf[off + 2..off + 4];
  }

  /** Encoding what was decoded gives the bytes back, so different bytes decode to different integers. */
  lemma U64Encodes(buf: seq<byte>, off: nat)
    requires off + 8 <= |buf|
    ensures Le64(U64At(buf, off)) == buf[off..off + 8]
  {
    U32Encodes(buf, off);
    U32Encodes(buf, off + 4);
    hide Le32, U32At;
    var lo: int, hi: int := U32At(buf, off), U32At(buf, off + 4);
    assert (lo + 0x1_0000_0000 * hi) % 0x1_0000_0000 == lo && (lo + 0x1_0000_0000 * hi) / 0x1_0000_0000 == hi;
    assert buf[off..off + 8] == buf[off..off + 4] + buf[off + 4..off + 8];
  }

  /** The least significant byte comes first. */
  lemma LittleEndian(v: u64)
    ensures Le64(v)[0] == v % 0x100 && Le64(v)[1] == v / 0x100 % 0x100
    ensures Le64(v)[2] == v / 0x1_0000 % 0x100 && Le64(v)[3] == v / 0x100_0000 % 0x100
    ensures Le64(v)[4] == v / 0x1_0000_0000 % 0x100 && Le64(v)[5] == v / 0x100_0000_0000 % 0x100
    ensures Le64(v)[6] == v / 0x1_0000_0000_0000 % 0x100 && Le64(v)[7] == v / 0x100_0000_0000_0000 % 0x100
  {
    hide Le32, Le64;
    Le64Halves(v);
    LittleEndian32(v % 0x1_0000_0000);
    LittleEndian32(v / 0x1_0000_0000);
    LowByte0(v);
    LowByte1(v);
    LowByte2(v);
    LowByte3(v);
    HighBytes(v);
  }

  lemma Le64Halves(v: u64)
    ensures var s, lo, hi := Le64(v), Le32(v % 0x1_0000_0000), Le32(v / 0x1_0000_0000);
            && s[0] == lo[0] && s[1] == lo[1] && s[2] == lo[2] && s[3] == lo[3]
            && s[4] == hi[0] && s[5] == hi[1] && s[6] == hi[2] && s[7] == hi[3]
  {
    hide Le32;
  }

  lemma HighBytes(v: nat)
    ensures v / 0x1_0000_0000 / 0x100 == v / 0x100_0000_0000
    ensures v / 0x1_0000_0000 / 0x1_0000 == v / 0x1_0000_0000_0000
    ensures v / 0x1_0000_0000 / 0x100_0000 == v / 0x100_0000_0000_0000
  {
  }

  // Bytes below the thirty-second bit do not depend on the bits above it.

  lemma LowByte0(v: nat)
    ensures v % 0x1_0000_0000 % 0x100 == v % 0x100
  {
    var lo, hi := v % 0x1_0000_0000, v / 0x1_0000_0000;
    assert v == lo + 0x100 * (0x100_0000 * hi);
    ModShift(lo, 0x100_0000 * hi);
  }

  lemma LowByte1(v: nat)
    ensures v % 0x1_0000_0000 / 0x100 % 0x100 == v / 0x100 % 0x100
  {
    var lo, hi := v % 0x1_0000_0000, v / 0x1_0000_0000;
    assert v / 0x100 == lo / 0x100 + 0x100 * (0x1_0000 * hi);
    ModShift(lo / 0x100, 0x1_0000 * hi);
  }

  lemma LowByte2(v: nat)
    ensures v % 0x1_0000_0000 / 0x1_0000 % 0x100 == v / 0x1_0000 % 0x100
  {
    var lo, hi := v % 0x1_0000_0000, v / 0x1_0000_0000;
    assert v / 0x1_0000 == lo / 0x1_0000 + 0x100 * (0x100 * hi);
    ModShift(lo / 0x1_0000, 0x100 * hi);
  }

  lemma LowByte3(v: nat)
    ensures v % 0x1_0000_0000 / 0x100_0000 % 0x100 == v / 0x100_0000 % 0x100
  {
    var lo, hi := v % 0x1_0000_0000, v / 0x1_0000_0000;
    assert v / 0x100_0000 == lo / 0x100_0000 + 0x100 * hi;
    ModShift(lo / 0x100_0000, hi);
  }

  lemma ModShift(a: nat, b: nat)
    ensures (a + 0x100 * b) % 0x100 == a % 0x100
  {
  }

  lemma LittleEndian32(v: u32)
    ensures Le32(v)[0] == v % 0x100 && Le32(v)[1] == v / 0x100 % 0x100
    ensures Le32(v)[2] == v / 0x1_0000 % 0x100 && Le32(v)[3] == v / 0x100_0000 % 0x100
  {
  }

  lemma SpliceReads(buf: seq<byte>, off: nat, data: seq<byte>)
    requires off + |data| <= |buf|
    ensures Splice(buf, off, data)[off..off + |data|] == data
  {
  }

  /** A write does not disturb any range it does not overlap. */
  lemma SpliceFrames(buf: seq<byte>, off: nat, data: seq<byte>, a: nat, b: nat)
    requires off + |data| <= |buf| && a <= b <= |buf|
    requires b <= off || off + |data| <= a
    ensures Splice(buf, off, data)[a..b] == buf[a..b]
  {
  }

  lemma SliceOf(s: seq<byte>, off: nat, size: nat, i: nat, j: nat)
    requires off + size <= |s| && i <= j <= size
    ensures s[off..off + size][i..j] == s[off + i..off + j]
  {
    var a, b := s[off..off + size][i..j], s[off + i..off + j];
    forall k | 0 <= k < j - i ensures a[k] == b[k] {
      assert a[k] == s[off..off + size][i + k];
    }
  }

  // ----- 64-bit slots after the 16-byte header: child pointers and radix values -----

  const SLOTS_PER_PAGE: nat := 1021

  function ReadSlot(buf: Image, i: nat): u64
    requires i < SLOTS_PER_PAGE
  {
    U64At(buf, HEADER_SIZE + 8 * i)
  }

  function WriteSlot(buf: Image, i: nat, v: u64): Image
    requires i < SLOTS_PER_PAGE
  {
    Splice(buf, HEADER_SIZE + 8 * i, Le64(v))
  }

  function Slots(buf: Image): (s: seq<u64>)
    ensures |s| == SLOTS_PER_PAGE
  {
    seq(SLOTS_PER_PAGE, i requires 0 <= i < SLOTS_PER_PAGE => ReadSlot(buf, i))
  }

  /** Writing one slot changes exactly that slot, and no header byte. */
  lemma SlotsAfterWrite(buf: Image, i: nat, v: u64)
    requires i < SLOTS_PER_PAGE
    ensures Slots(WriteSlot(buf, i, v)) == Slots(buf)[i := v]
    ensures WriteSlot(buf, i, v)[..HEADER_SIZE] == buf[..HEADER_SIZE]
  {
    var w := WriteSlot(buf, i, v);
    U64Decodes(w, HEADER_SIZE + 8 * i, v);
    forall j | 0 <= j < SLOTS_PER_PAGE
      ensures Slots(w)[j] == Slots(buf)[i := v][j]
    {
      if j != i {
        SameU64(w, buf, HEADER_SIZE + 8 * j);
      }
    }
  }

  lemma SameU64(a: seq<byte>, b: seq<byte>, off: nat)
    requires off + 8 <= |a| && off + 8 <= |b|
    requires forall i | off <= i < off + 8 :: a[i] == b[i]
    ensures U64At(a, off) == U64At(b, off)
  {
  }

  // ----- checksum -----

  function Body(buf: Image): seq<byte> {
    buf[..CHECKSUM_OFFSET]
  }

  /** Pages with equal bodies hold equal slots. */
  lemma BodySlots(a: Image, b: Image)
    requires Body(a) == Body(b)
    ensures Slots(a) == Slots(b) && a[0] == b[0] && a[1] == b[1]
  {
    assert forall i | 0 <= i < CHECKSUM_OFFSET :: a[i] == Body(a)[i] && b[i] == Body(b)[i];
    forall j | 0 <= j < SLOTS_PER_PAGE ensures Slots(a)[j] == Slots(b)[j] {
      SameU64(a, b, HEADER_SIZE + 8 * j);
    }
  }

  function Stamp(hash: Hash, buf: Image): Image {
    Splice(buf, CHECKSUM_OFFSET, Le64(hash(Body(buf))))
  }

  predicate Stamped(hash: Hash, buf: Image) {
    U64At(buf, CHECKSUM_OFFSET) == hash(Body(buf))
  }

  /** Stamping makes the checksum verify and leaves every body byte alone. */
  lemma StampVerifies(hash: Hash, buf: Image)
    ensures Body(Stamp(hash, buf)) == Body(buf)
    ensures Stamped(hash, Stamp(hash, buf))
    ensures Slots(Stamp(hash, buf)) == Slots(buf)
  {
    var s := Stamp(hash, buf);
    assert Body(s) == Body(buf);
    U64Decodes(s, CHECKSUM_OFFSET, hash(Body(buf)));
    forall j | 0 <= j < SLOTS_PER_PAGE
      ensures Slots(s)[j] == Slots(buf)[j]
    {
      SameU64(s, buf, HEADER_SIZE + 8 * j);
    }
  }

  /** A page verifies exactly when stamping it changes nothing: no other checksum bytes are accepted for its body. */
  lemma StampedIff(hash: Hash, buf: Image)
    ensures Stamped(hash, buf) <==> Stamp(hash, buf) == buf
  {
    hide U64At, Le64;
    U64Encodes(buf, CHECKSUM_OFFSET);
    if Stamped(hash, buf) {
      assert Stamp(hash, buf) == buf[..CHECKSUM_OFFSET] + buf[CHECKSUM_OFFSET..CHECKSUM_OFFSET + 8];
    }
    StampVerifies(hash, buf);
  }

  /** A damaged page does not verify, unless its body hashes to the very same value: the checksum field decides. */
  lemma DamageShows(hash: Hash, a: Image, b: Image)
    requires Stamped(hash, a) && a[CHECKSUM_OFFSET..] == b[CHECKSUM_OFFSET..]
    ensures Stamped(hash, b) <==> hash(Body(b)) == hash(Body(a))
  {
    hide U64At;
    assert forall i | CHECKSUM_OFFSET <= i < PAGE_SIZE :: a[i] == a[CHECKSUM_OFFSET..][i - CHECKSUM_OFFSET];
    assert forall i | CHECKSUM_OFFSET <= i < PAGE_SIZE :: b[i] == b[CHECKSUM_OFFSET..][i - CHECKSUM_OFFSET];
    SameU64(a, b, CHECKSUM_OFFSET);
  }

  /** How many of a run's operations failed. */
  ghost function Failures(done: seq<Result<()>>): nat {
    if done == [] then 0 else Failures(done[..|done| - 1]) + if done[|done| - 1].Err? then 1 else 0
  }

  lemma FailuresMore(done: seq<Result<()>>, r: Result<()>)
    ensures Failures(done + [r]) == Failures(done) + if r.Err? then 1 else 0
  {
    assert (done + [r])[..|done|] == done;
  }

  // ----- the page space the tree modules work on -----

  /**
   The pages as every module above the cache sees them: one flat map (PageCache shows
   that the cache, the spillway and the disk together are indistinguishable from it).
   The allocator closure a mutation is given is modelled by `supply`, the ids it may
   still hand out: it hands them out in any order, each at most once, and may refuse at
   any call, whether or not it refused before. `asked` counts the
   calls, `refusals` those it refused.
   */
  class PageStore {
    var pages: map<nat, Image>
    var supply: set<nat>
    ghost var asked: nat
    ghost var refusals: nat
    const hash: Hash

    constructor (pages: map<nat, Image>, supply: set<nat>, hash: Hash)
      ensures this.pages == pages && this.supply == supply && this.hash == hash
    {
      this.pages := pages;
      this.supply := supply;
      this.asked, this.refusals := 0, 0;
      this.hash := hash;
    }

    /** A fresh zeroed page, or a refusal that changes nothing. */
    method Alloc() returns (r: Result<nat>)
      modifies this
      ensures r.Err? ==> pages == old(pages) && supply == old(supply) && r.error == AllocFailed
      ensures asked == old(asked) + 1 && refusals == old(refusals) + if r.Err? then 1 else 0
      ensures r.Ok? ==> r.value in old(supply) && supply == old(supply) - {r.value}
      ensures r.Ok? ==> pages == old(pages)[r.value := Zeros()]
      ensures old(supply) == {} ==> r.Err?
    {
      asked := asked + 1;
      var refuses: bool := *;
      if supply == {} || refuses {
        refusals := refusals + 1;
        return Err(AllocFailed);
      }
      var id :| id in supply;
      supply := supply - {id};
      pages := pages[id := Zeros()];
      return Ok(id);
    }

    /** A fresh page holding a copy of `page`. */
    method AllocCopy(page: nat) returns (r: Result<nat>)
      requires page in pages
      modifies this
      ensures r.Err? ==> pages == old(pages) && supply == old(supply) && r.error == AllocFailed
      ensures asked == old(asked) + 1 && refusals == old(refusals) + if r.Err? then 1 else 0
      ensures r.Ok? ==> r.value in old(supply) && supply == old(supply) - {r.value}
      ensures r.Ok? ==> pages == old(pages)[r.value := if r.value == page then Zeros() else old(pages)[page]]
    {
      r := Alloc();
      if r.Ok? {
        pages := pages[r.value := pages[page]];
      }
    }
  }
}
