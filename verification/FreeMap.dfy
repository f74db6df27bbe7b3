/**
 The freemap leaf: one bit per page id, LSB first within each byte, 1 = free. The bitmap is
 the 8168 bytes between the header and the checksum.
 */
module FreeMap {
  import opened Pages

  const BITS_PER_LEAF: nat := 65344

  // ----- bits, one shift at a time -----

  /** (b >> i) & 1 == 1. */
  predicate Bit(b: nat, i: nat) {
    if i == 0 then b % 2 == 1 else Bit(b / 2, i - 1)
  }

  /** b | (1 << i). */
  function SetBit(b: nat, i: nat): nat {
    if i == 0 then b - b % 2 + 1 else 2 * SetBit(b / 2, i - 1) + b % 2
  }

  /** b & !(1 << i). */
  function ClearBit(b: nat, i: nat): (r: nat)
    ensures r <= b
  {
    if i == 0 then b - b % 2 else 2 * ClearBit(b / 2, i - 1) + b % 2
  }

  /** b & !((1 << i) - 1): `b` with the bits below `i` cleared. */
  function MaskBelow(b: nat, i: nat): (r: nat)
    ensures r <= b
  {
    if i == 0 then b else 2 * MaskBelow(b / 2, i - 1)
  }

  /** The number of clear bits below the lowest set bit. */
  function TrailingZeros(b: nat): nat {
    if b == 0 || b % 2 == 1 then 0 else 1 + TrailingZeros(b / 2)
  }

  function Pow2(n: nat): nat {
    if n == 0 then 1 else 2 * Pow2(n - 1)
  }

  lemma Pow2Eight()
    ensures Pow2(8) == 0x100
  {
    assert Pow2(4) == 16;
  }

  lemma {:induction false} BitAfterSet(b: nat, i: nat, j: nat)
    ensures Bit(SetBit(b, i), j) <==> j == i || Bit(b, j)
  {
    if i > 0 && j > 0 {
      BitAfterSet(b / 2, i - 1, j - 1);
    }
  }

  lemma {:induction false} BitAfterClear(b: nat, i: nat, j: nat)
    ensures Bit(ClearBit(b, i), j) <==> j != i && Bit(b, j)
  {
    if i > 0 && j > 0 {
      BitAfterClear(b / 2, i - 1, j - 1);
    }
  }

  lemma {:induction false} BitAfterMask(b: nat, i: nat, j: nat)
    ensures Bit(MaskBelow(b, i), j) <==> j >= i && Bit(b, j)
  {
    if i > 0 && j > 0 {
      BitAfterMask(b / 2, i - 1, j - 1);
    }
  }

  /** Setting a bit below the width keeps a number within the width. */
  lemma {:induction false} SetFits(b: nat, i: nat, n: nat)
    requires b < Pow2(n) && i < n
    ensures SetBit(b, i) < Pow2(n)
  {
    var half := Pow2(n - 1);
    assert Pow2(n) == 2 * half;
    if i > 0 {
      SetFits(b / 2, i - 1, n - 1);
      assert SetBit(b / 2, i - 1) <= half - 1;
    }
  }

  lemma {:induction false} ZeroHasNoBits(i: nat)
    ensures !Bit(0, i)
  {
    if i > 0 {
      ZeroHasNoBits(i - 1);
    }
  }

  lemma {:induction false} TrailingZerosLowest(b: nat, n: nat)
    requires 0 < b < Pow2(n)
    ensures TrailingZeros(b) < n && Bit(b, TrailingZeros(b))
    ensures forall i: nat | i < TrailingZeros(b) :: !Bit(b, i)
  {
    if b % 2 == 0 {
      TrailingZerosLowest(b / 2, n - 1);
    }
  }

  // ----- the same on a byte -----

  function SetByte(b: byte, i: nat): byte
    requires i < 8
  {
    Pow2Eight();
    SetFits(b, i, 8);
    SetBit(b, i)
  }

  function ClearByte(b: byte, i: nat): byte {
    ClearBit(b, i)
  }

  function MaskByte(b: byte, i: nat): byte {
    MaskBelow(b, i)
  }

  // ----- bitmap of a leaf -----

  function Bitmap(buf: Image): (s: seq<byte>)
    ensures |s| == PAGE_BODY_SIZE
  {
    buf[HEADER_SIZE..CHECKSUM_OFFSET]
  }

  /** Is bit `k` of a bitmap set? Past its end nothing is. */
  predicate BitAt(s: seq<byte>, k: nat) {
    k / 8 < |s| && Bit(s[k / 8], k % 8)
  }

  /** Mark one id free in place; ids past the leaf are ignored. */
  method MarkFree(buf: array<byte>, id: nat)
    requires buf.Length == PAGE_SIZE
    modifies buf
    ensures buf[..] == Marked(old(buf[..]), id)
  {
    var byteIdx := id / 8;
    if byteIdx < PAGE_BODY_SIZE {
      buf[HEADER_SIZE + byteIdx] := SetByte(buf[HEADER_SIZE + byteIdx], id % 8);
    }
  }

  /** Mark one id in use in place; ids past the leaf are ignored. */
  method MarkUsed(buf: array<byte>, id: nat)
    requires buf.Length == PAGE_SIZE
    modifies buf
    ensures buf[..] == Cleared(old(buf[..]), id)
  {
    var byteIdx := id / 8;
    if byteIdx < PAGE_BODY_SIZE {
      buf[HEADER_SIZE + byteIdx] := ClearByte(buf[HEADER_SIZE + byteIdx], id % 8);
    }
  }

  function Marked(buf: Image, id: nat): Image {
    if id / 8 < PAGE_BODY_SIZE then buf[HEADER_SIZE + id / 8 := SetByte(buf[HEADER_SIZE + id / 8], id % 8)] else buf
  }

  function Cleared(buf: Image, id: nat): Image {
    if id / 8 < PAGE_BODY_SIZE then buf[HEADER_SIZE + id / 8 := ClearByte(buf[HEADER_SIZE + id / 8], id % 8)] else buf
  }

  lemma SameBit(k: nat, id: nat)
    ensures k == id <==> k / 8 == id / 8 && k % 8 == id % 8
  {
  }

  /** A mark or a clear changes the bit it names, no other bit, and nothing outside the bitmap. */
  lemma BitAfterWrite(buf: Image, id: nat, k: nat)
    requires id < BITS_PER_LEAF
    ensures BitAt(Bitmap(Marked(buf, id)), k) <==> k == id || BitAt(Bitmap(buf), k)
    ensures BitAt(Bitmap(Cleared(buf, id)), k) <==> k != id && BitAt(Bitmap(buf), k)
    ensures Marked(buf, id)[..HEADER_SIZE] == buf[..HEADER_SIZE] == Cleared(buf, id)[..HEADER_SIZE]
  {
    hide Bit, SetBit, ClearBit;
    SameBit(k, id);
    if k / 8 < PAGE_BODY_SIZE {
      assert Bitmap(buf)[k / 8] == buf[HEADER_SIZE + k / 8];
      BitAfterSet(buf[HEADER_SIZE + id / 8], id % 8, k % 8);
      BitAfterClear(buf[HEADER_SIZE + id / 8], id % 8, k % 8);
    }
  }

  /** The lowest free id at or above `lo`, if this leaf has one. */
  method FirstFreeBitFrom(buf: Image, lo: nat) returns (r: Option<nat>)
    ensures r.Some? ==> lo <= r.value < BITS_PER_LEAF && BitAt(Bitmap(buf), r.value)
    ensures r.Some? ==> forall k: nat | lo <= k < r.value :: !BitAt(Bitmap(buf), k)
    ensures r.None? ==> forall k: nat | lo <= k :: !BitAt(Bitmap(buf), k)
  {
    hide Bit, MaskBelow, TrailingZeros;
    ghost var s := Bitmap(buf);
    var startByte := lo / 8;
    if startByte >= PAGE_BODY_SIZE {
      return None;
    }
    var startBit := lo % 8;
    for i := startByte to PAGE_BODY_SIZE
      invariant startByte <= i
      invariant forall k: nat | lo <= k < 8 * i :: !BitAt(s, k)
    {
      var b := buf[HEADER_SIZE + i];
      assert b == s[i];
      var m := b;
      if i == startByte {
        m := MaskByte(b, startBit);
      }
      ScanByte(s, i, lo, m);
      if m != 0 {
        return Some(8 * i + TrailingZeros(m));
      }
    }
    r := None;
  }

  /** What one byte of the scan, with the bits below `lo` masked off, says about the bitmap. */
  lemma ScanByte(s: seq<byte>, i: nat, lo: nat, m: byte)
    requires i < |s| && lo / 8 <= i
    requires m == if i == lo / 8 then MaskByte(s[i], lo % 8) else s[i]
    ensures m == 0 ==> forall k: nat | lo <= k && 8 * i <= k < 8 * (i + 1) :: !BitAt(s, k)
    ensures m != 0 ==> TrailingZeros(m) < 8 && lo <= 8 * i + TrailingZeros(m) && BitAt(s, 8 * i + TrailingZeros(m))
    ensures m != 0 ==> forall k: nat | lo <= k && 8 * i <= k < 8 * i + TrailingZeros(m) :: !BitAt(s, k)
  {
    hide Bit, MaskBelow, TrailingZeros;
    forall j: nat | j < 8 ensures Bit(m, j) <==> lo <= 8 * i + j && Bit(s[i], j) {
      BitAfterMask(s[i], lo % 8, j);
    }
    Pow2Eight();
    if m != 0 {
      TrailingZerosLowest(m, 8);
      BitPosition(i, TrailingZeros(m));
    }
    forall k: nat | lo <= k && 8 * i <= k < 8 * (i + 1) && (m == 0 || k < 8 * i + TrailingZeros(m)) ensures !BitAt(s, k) {
      BitPosition(i, k - 8 * i);
      ZeroHasNoBits(k - 8 * i);
      assert !Bit(m, k - 8 * i);
    }
  }

  lemma BitPosition(i: nat, j: nat)
    requires j < 8
    ensures (8 * i + j) / 8 == i && (8 * i + j) % 8 == j
  {
  }
}
