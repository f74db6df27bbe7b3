/**
 The superblock: the page that names the roots of a committed state. N of them sit in pages
 0..N; the one with the highest transaction counter among those that validate is the database.
 */
module Superblock {
  import opened Pages

  const MAGIC: u32 := 0x4348534C
  const MIN_SUPERBLOCKS: nat := 2
  const MAX_SUPERBLOCKS: nat := 16
  const MAX_TXN_COUNTER: nat := 0xFFFF_FFFE_FFFF_FFFF

  const NAMED_ROOTS_SIZE: nat := 256
  const HEAD_SIZE: nat := 324
  const COUNT_OFFSET: nat := 308
  const CRYPTO_OFFSET: nat := 324

  type NamedRoots = s: seq<byte> | |s| == NAMED_ROOTS_SIZE witness seq(NAMED_ROOTS_SIZE, _ => 0)

  /** What a committed state consists of. `namedRoots` is the raw table of eight named handles. */
  datatype Roots = Roots(handleTable: u64, freemap: u64, totalPages: u64, nextHandle: u64, namedRoots: NamedRoots,
                         membership: u64, freemapDepth: u32)

  datatype Superblock = Superblock(formatVersion: u32, txnCounter: u64, pageSize: u32, superblockCount: u32, roots: Roots)

  predicate Writable(sb: Superblock) {
    MIN_SUPERBLOCKS <= sb.superblockCount <= MAX_SUPERBLOCKS && sb.txnCounter <= MAX_TXN_COUNTER
  }

  function Head(sb: Superblock): (s: seq<byte>)
    ensures |s| == HEAD_SIZE
  {
    Le32(MAGIC) + Le32(sb.formatVersion) + Le64(sb.txnCounter) + Le64(sb.roots.handleTable) + Le64(sb.roots.freemap)
    + Le64(sb.roots.totalPages) + Le64(sb.roots.nextHandle) + Le32(sb.pageSize) + sb.roots.namedRoots
    + Le32(sb.superblockCount) + Le64(sb.roots.membership) + Le32(sb.roots.freemapDepth)
  }

  function Serialize(hash: Hash, sb: Superblock): Image {
    Stamp(hash, Splice(Zeros(), 0, Head(sb)))
  }

  /** Checksum first, then magic, slot count and counter range. */
  predicate Validates(hash: Hash, buf: Image) {
    && Stamped(hash, buf)
    && U32At(buf, 0) == MAGIC
    && MIN_SUPERBLOCKS <= U32At(buf, COUNT_OFFSET) <= MAX_SUPERBLOCKS
    && U64At(buf, 8) <= MAX_TXN_COUNTER
  }

  /** A slot of a plaintext database. (A slot with a crypto header keeps its roots in a sealed body, not modelled.) */
  function Deserialize(hash: Hash, buf: Image): Option<Superblock> {
    if !Validates(hash, buf) || buf[CRYPTO_OFFSET] != 0 then None
    else
      Some(Superblock(U32At(buf, 4), U64At(buf, 8), U32At(buf, 48), U32At(buf, COUNT_OFFSET),
                      Roots(U64At(buf, 16), U64At(buf, 24), U64At(buf, 32), U64At(buf, 40), buf[52..308],
                            U64At(buf, 312), U32At(buf, 320))))
  }

  /** The counter the next commit carries; refused before it would leave the readable range. */
  function NextTxnCounter(current: u64): (r: Option<u64>)
    ensures r.Some? ==> r.value == current + 1 && r.value <= MAX_TXN_COUNTER
    ensures r.None? <==> current >= MAX_TXN_COUNTER
  {
    if SatAdd(current, 1) > MAX_TXN_COUNTER then None else Some(current + 1)
  }

  // ----- round trip -----

  lemma HeadAt(sb: Superblock)
    ensures var s := Head(sb);
            && s[0..4] == Le32(MAGIC) && s[4..8] == Le32(sb.formatVersion) && s[8..16] == Le64(sb.txnCounter)
            && s[16..24] == Le64(sb.roots.handleTable) && s[24..32] == Le64(sb.roots.freemap)
            && s[32..40] == Le64(sb.roots.totalPages) && s[40..48] == Le64(sb.roots.nextHandle)
            && s[48..52] == Le32(sb.pageSize) && s[52..308] == sb.roots.namedRoots
  {
    hide Le32, Le64;
  }

  lemma HeadAtEnd(sb: Superblock)
    ensures var s := Head(sb);
            s[308..312] == Le32(sb.superblockCount) && s[312..320] == Le64(sb.roots.membership) && s[320..324] == Le32(sb.roots.freemapDepth)
  {
    hide Le32, Le64;
  }

  /** The serialized page carries the head byte for byte, then zeros. */
  lemma Carries(hash: Hash, sb: Superblock, a: nat, b: nat)
    requires a <= b <= HEAD_SIZE
    ensures Serialize(hash, sb)[a..b] == Head(sb)[a..b]
    ensures Serialize(hash, sb)[CRYPTO_OFFSET] == 0 && Stamped(hash, Serialize(hash, sb))
  {
    hide Head;
    var p := Splice(Zeros(), 0, Head(sb));
    StampVerifies(hash, p);
    var s := Stamp(hash, p);
    assert forall i | 0 <= i < CHECKSUM_OFFSET :: s[i] == Body(s)[i] && p[i] == Body(p)[i];
  }

  /** What is written is read back, and only a superblock in the readable range is written. */
  lemma RoundTrip(hash: Hash, sb: Superblock)
    requires Writable(sb)
    ensures Deserialize(hash, Serialize(hash, sb)) == Some(sb)
  {
    hide Serialize, Head;
    Carries(hash, sb, 0, HEAD_SIZE);
    assert Head(sb)[0..HEAD_SIZE] == Head(sb);
    ReadsHead(hash, Serialize(hash, sb), sb);
  }

  /**
   Exactly what is read: a page reads as `sb` if and only if its checksum verifies, `sb` is in the readable
   range, the page carries its head byte for byte, and there is no crypto header.
   */
  lemma ReadsExactly(hash: Hash, buf: Image, sb: Superblock)
    ensures Deserialize(hash, buf) == Some(sb)
       <==> Stamp(hash, buf) == buf && Writable(sb) && buf[..HEAD_SIZE] == Head(sb) && buf[CRYPTO_OFFSET] == 0
  {
    hide Deserialize, Stamp, Head;
    if Deserialize(hash, buf) == Some(sb) {
      ReadsOnly(hash, buf);
    } else if Stamp(hash, buf) == buf && Writable(sb) && buf[..HEAD_SIZE] == Head(sb) && buf[CRYPTO_OFFSET] == 0 {
      StampedIff(hash, buf);
      ReadsHead(hash, buf, sb);
    }
  }

  /** In one direction: a slot whose checksum does not verify is never read. */
  lemma ReadsOnly(hash: Hash, buf: Image)
    requires Deserialize(hash, buf).Some?
    ensures var sb := Deserialize(hash, buf).value;
            Stamp(hash, buf) == buf && Writable(sb) && buf[..HEAD_SIZE] == Head(sb) && buf[CRYPTO_OFFSET] == 0
  {
    hide Le32, Le64, U32At, U64At, Stamped, Stamp;
    StampedIff(hash, buf);
    U32Encodes(buf, 0);
    U32Encodes(buf, 4);
    U64Encodes(buf, 8);
    U64Encodes(buf, 16);
    U64Encodes(buf, 24);
    U64Encodes(buf, 32);
    U64Encodes(buf, 40);
    U32Encodes(buf, 48);
    U32Encodes(buf, COUNT_OFFSET);
    U64Encodes(buf, 312);
    U32Encodes(buf, 320);
    HeadOf(buf);
  }

  lemma ReadsHead(hash: Hash, buf: Image, sb: Superblock)
    requires Stamped(hash, buf) && Writable(sb) && buf[..HEAD_SIZE] == Head(sb) && buf[CRYPTO_OFFSET] == 0
    ensures Deserialize(hash, buf) == Some(sb)
  {
    hide Head, Le32, Le64, U32At, U64At, Stamped;
    HeadAt(sb);
    HeadAtEnd(sb);
    HeadField32(buf, sb, 0, MAGIC);
    HeadField32(buf, sb, 4, sb.formatVersion);
    HeadField64(buf, sb, 8, sb.txnCounter);
    HeadField64(buf, sb, 16, sb.roots.handleTable);
    HeadField64(buf, sb, 24, sb.roots.freemap);
    HeadField64(buf, sb, 32, sb.roots.totalPages);
    HeadField64(buf, sb, 40, sb.roots.nextHandle);
    HeadField32(buf, sb, 48, sb.pageSize);
    HeadField32(buf, sb, COUNT_OFFSET, sb.superblockCount);
    HeadField64(buf, sb, 312, sb.roots.membership);
    HeadField32(buf, sb, 320, sb.roots.freemapDepth);
    assert buf[52..308] == buf[..HEAD_SIZE][52..308];
  }

  lemma HeadField32(buf: Image, sb: Superblock, off: nat, v: u32)
    requires buf[..HEAD_SIZE] == Head(sb) && off + 4 <= HEAD_SIZE && Head(sb)[off..off + 4] == Le32(v)
    ensures U32At(buf, off) == v
  {
    hide Head, Le32, U32At;
    assert buf[off..off + 4] == buf[..HEAD_SIZE][off..off + 4];
    U32Decodes(buf, off, v);
  }

  lemma HeadField64(buf: Image, sb: Superblock, off: nat, v: u64)
    requires buf[..HEAD_SIZE] == Head(sb) && off + 8 <= HEAD_SIZE && Head(sb)[off..off + 8] == Le64(v)
    ensures U64At(buf, off) == v
  {
    hide Head, Le64, U64At;
    assert buf[off..off + 8] == buf[..HEAD_SIZE][off..off + 8];
    U64Decodes(buf, off, v);
  }

  lemma HeadOf(buf: Image)
    ensures buf[..HEAD_SIZE] == buf[0..4] + buf[4..8] + buf[8..16] + buf[16..24] + buf[24..32] + buf[32..40] + buf[40..48] + buf[48..52]
                                + buf[52..308] + buf[308..312] + buf[312..320] + buf[320..324]
  {
  }

  /** No page of the other kinds can pass for a superblock: their type tags differ from the magic's first byte. */
  lemma OtherPagesFail(hash: Hash, buf: Image)
    requires TYPE_HANDLE_TABLE <= buf[0] <= TYPE_FREEMAP_INTERIOR
    ensures Deserialize(hash, buf) == None
  {
    hide Stamped;
  }
}
