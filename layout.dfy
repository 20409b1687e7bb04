/**
 * The on-disk layout of an ECS150-FS volume: the superblock in block 0, the
 * FAT in blocks 1 .. fat_block_amount, and the root directory block, each as
 * a record type with its byte codec.
 */
module Layout {
  import opened Bytes

  /** "ECS150FS" in ASCII. */
  const SIGNATURE: seq<u8> := [0x45, 0x43, 0x53, 0x31, 0x35, 0x30, 0x46, 0x53]
  const SIGNATURE_LENGTH: nat := 8
  const SUPERBLOCK_PADDING: nat := 4079
  const MAX_ROOT_ENTRIES: nat := 128
  const MAX_FILENAME: nat := 16
  const ROOT_PADDING: nat := 10
  /** Bytes of one packed root directory record. */
  const ENTRY_SIZE: nat := 32
  /** 16-bit FAT entries held by one block (BLOCK_SIZE / 2). */
  const FAT_ENTRIES_PER_BLOCK: nat := 2048

  /** A FAT entry of a free data block. */
  const FAT_FREE: u16 := 0
  /** A FAT entry that ends a chain. */
  const FAT_EOC: u16 := 0xFFFF
  /**
   * The first-block index of a file that owns no data block. It is the same
   * value as FAT_EOC: a file whose first block is FAT_EOC has an empty chain,
   * and the chain walk of a deletion stops on it before touching the FAT.
   */
  const NO_BLOCKS: u16 := FAT_EOC

  /** The packed superblock, without its zero padding. */
  datatype SuperBlock = SuperBlock(
    signature: seq<u8>,
    totalBlocks: u16,
    rootIndex: u16,
    dataIndex: u16,
    dataBlocks: u16,
    fatBlocks: u8)

  /**
   * Reads the superblock fields at byte offsets 0, 8, 10, 12, 14 and 16;
   * laying the result out again gives back the 17 packed bytes.
   */
  function ParseSuperBlock(b: Block): (sb: SuperBlock)
    ensures |sb.signature| == SIGNATURE_LENGTH
    ensures EncodeSuperBlock(sb)[..17] == b[..17]
  {
    Le16BytesOfLe16(b[8], b[9]);
    Le16BytesOfLe16(b[10], b[11]);
    Le16BytesOfLe16(b[12], b[13]);
    Le16BytesOfLe16(b[14], b[15]);
    var sb := SuperBlock(b[..SIGNATURE_LENGTH], Le16(b[8], b[9]), Le16(b[10], b[11]),
                         Le16(b[12], b[13]), Le16(b[14], b[15]), b[16]);
    assert EncodeSuperBlock(sb)[..17]
        == b[..8] + [b[8], b[9]] + [b[10], b[11]] + [b[12], b[13]] + [b[14], b[15]] + [b[16]];
    sb
  }

  /** Lays a superblock out as a block, padding with zeros. */
  function EncodeSuperBlock(sb: SuperBlock): Block
    requires |sb.signature| == SIGNATURE_LENGTH
  {
    sb.signature + Le16Bytes(sb.totalBlocks) + Le16Bytes(sb.rootIndex)
      + Le16Bytes(sb.dataIndex) + Le16Bytes(sb.dataBlocks) + [sb.fatBlocks]
      + Zeros(SUPERBLOCK_PADDING)
  }

  lemma SuperBlockRoundTrip(sb: SuperBlock)
    requires |sb.signature| == SIGNATURE_LENGTH
    ensures ParseSuperBlock(EncodeSuperBlock(sb)) == sb
  {
    var b := EncodeSuperBlock(sb);
    assert b[..SIGNATURE_LENGTH] == sb.signature;
    assert b[8..10] == Le16Bytes(sb.totalBlocks);
    assert b[10..12] == Le16Bytes(sb.rootIndex);
    assert b[12..14] == Le16Bytes(sb.dataIndex);
    assert b[14..16] == Le16Bytes(sb.dataBlocks);
  }

  /** One packed root directory record. */
  datatype RootEntry = RootEntry(
    fileName: seq<u8>,
    fileSize: u32,
    firstDataBlock: u16,
    padding: seq<u8>)

  /** A root directory record whose byte fields have their on-disk widths. */
  type Slot = e: RootEntry | |e.fileName| == MAX_FILENAME && |e.padding| == ROOT_PADDING
    witness RootEntry(Zeros(16), 0, 0, Zeros(10))

  /** An all-zero record: what `memset(.., 0, sizeof(RootEntry))` leaves behind. */
  const ZERO_ENTRY: Slot := RootEntry(Zeros(MAX_FILENAME), 0, 0, Zeros(ROOT_PADDING))

  function EncodeEntry(e: Slot): (b: seq<u8>)
    ensures |b| == ENTRY_SIZE
  {
    e.fileName + Le32Bytes(e.fileSize) + Le16Bytes(e.firstDataBlock) + e.padding
  }

  /**
   * Reads a record: name at offset 0, size at 16, first block at 20, padding
   * at 22. Every 32 bytes are some record's encoding.
   */
  function DecodeEntry(b: seq<u8>): (e: Slot)
    requires |b| == ENTRY_SIZE
    ensures EncodeEntry(e) == b
  {
    Le32BytesOfLe32(b[16], b[17], b[18], b[19]);
    Le16BytesOfLe16(b[20], b[21]);
    assert b == b[..16] + [b[16], b[17], b[18], b[19]] + [b[20], b[21]] + b[22..];
    RootEntry(b[..16], Le32(b[16], b[17], b[18], b[19]), Le16(b[20], b[21]), b[22..])
  }

  lemma EntryRoundTrip(e: Slot)
    ensures DecodeEntry(EncodeEntry(e)) == e
  {
    var b := EncodeEntry(e);
    assert b[..16] == e.fileName;
    assert b[16..20] == Le32Bytes(e.fileSize);
    assert b[20..22] == Le16Bytes(e.firstDataBlock);
    assert b[22..] == e.padding;
  }

  /** The records of a directory, packed one after the other. */
  function EncodeRoot(es: seq<Slot>): (b: seq<u8>)
    ensures |b| == ENTRY_SIZE * |es|
  {
    if es == [] then [] else EncodeEntry(es[0]) + EncodeRoot(es[1..])
  }

  /** The records packed in `b`; packing them again gives back `b`. */
  function DecodeRoot(b: seq<u8>): (es: seq<Slot>)
    requires |b| % ENTRY_SIZE == 0
    ensures ENTRY_SIZE * |es| == |b|
    ensures EncodeRoot(es) == b
  {
    if b == [] then []
    else
      var es := [DecodeEntry(b[..ENTRY_SIZE])] + DecodeRoot(b[ENTRY_SIZE..]);
      assert es[1..] == DecodeRoot(b[ENTRY_SIZE..]);
      assert b == b[..ENTRY_SIZE] + b[ENTRY_SIZE..];
      es
  }

  lemma {:induction false} DecodeEncodeRoot(es: seq<Slot>)
    ensures DecodeRoot(EncodeRoot(es)) == es
  {
    if es != [] {
      var b := EncodeRoot(es);
      assert b[..ENTRY_SIZE] == EncodeEntry(es[0]);
      assert b[ENTRY_SIZE..] == EncodeRoot(es[1..]);
      EntryRoundTrip(es[0]);
      DecodeEncodeRoot(es[1..]);
    }
  }

  /** The root directory block holding `es`. */
  function RootBlock(es: seq<Slot>): Block
    requires |es| == MAX_ROOT_ENTRIES
  {
    EncodeRoot(es)
  }

  /**
   * The flat FAT that mount loads: FAT block i (disk block 1 + i) supplies
   * entries 2048 * i .. 2048 * i + 2047, for the first `count` FAT blocks.
   */
  function FatFromDisk(disk: seq<Block>, count: nat): (fat: seq<u16>)
    requires count < |disk|
    ensures |fat| == FAT_ENTRIES_PER_BLOCK * count
  {
    if count == 0 then [] else FatFromDisk(disk, count - 1) + DecodeU16s(disk[count])
  }

  /** The bytes of FAT block `k` of a flat FAT, as it is written to disk block 1 + k. */
  function FatBlockBytes(fat: seq<u16>, k: nat): Block
    requires FAT_ENTRIES_PER_BLOCK * (k + 1) <= |fat|
  {
    EncodeU16s(fat[FAT_ENTRIES_PER_BLOCK * k .. FAT_ENTRIES_PER_BLOCK * (k + 1)])
  }

  /** FAT block k of the loaded FAT is exactly what disk block 1 + k decodes to. */
  lemma {:induction false} FatFromDiskBlock(disk: seq<Block>, count: nat, k: nat)
    requires count < |disk| && k < count
    ensures FatFromDisk(disk, count)[FAT_ENTRIES_PER_BLOCK * k .. FAT_ENTRIES_PER_BLOCK * (k + 1)]
            == DecodeU16s(disk[1 + k])
  {
    var fat := FatFromDisk(disk, count);
    var prev := FatFromDisk(disk, count - 1);
    assert fat == prev + DecodeU16s(disk[count]);
    if k == count - 1 {
      assert fat[FAT_ENTRIES_PER_BLOCK * k ..] == DecodeU16s(disk[count]);
    } else {
      FatFromDiskBlock(disk, count - 1, k);
      assert fat[FAT_ENTRIES_PER_BLOCK * k .. FAT_ENTRIES_PER_BLOCK * (k + 1)]
          == prev[FAT_ENTRIES_PER_BLOCK * k .. FAT_ENTRIES_PER_BLOCK * (k + 1)];
    }
  }

  /**
   * FAT entry b of the loaded FAT is the little-endian pair at offset
   * 2 * (b % 2048) of disk block 1 + b / 2048.
   */
  lemma FatEntryOnDisk(disk: seq<Block>, count: nat, b: nat)
    requires count < |disk| && b < FAT_ENTRIES_PER_BLOCK * count
    ensures var blk := disk[1 + b / FAT_ENTRIES_PER_BLOCK];
            var off := 2 * (b % FAT_ENTRIES_PER_BLOCK);
            FatFromDisk(disk, count)[b] == Le16(blk[off], blk[off + 1])
  {
    var k := b / FAT_ENTRIES_PER_BLOCK;
    var r := b % FAT_ENTRIES_PER_BLOCK;
    assert b == FAT_ENTRIES_PER_BLOCK * k + r;
    FatFromDiskBlock(disk, count, k);
    DecodeU16sAt(disk[1 + k], r);
    assert FatFromDisk(disk, count)[b]
        == FatFromDisk(disk, count)[FAT_ENTRIES_PER_BLOCK * k .. FAT_ENTRIES_PER_BLOCK * (k + 1)][r];
  }

  /** Writing back a FAT block that was just loaded writes the same bytes. */
  lemma FatBlockBytesOfLoaded(disk: seq<Block>, count: nat, k: nat)
    requires count < |disk| && k < count
    ensures FatBlockBytes(FatFromDisk(disk, count), k) == disk[1 + k]
  {
    FatFromDiskBlock(disk, count, k);
    EncodeDecodeU16s(disk[1 + k]);
  }

  /** Entry r of a written FAT block reads back as FAT entry 2048 * k + r. */
  lemma FatBlockBytesAt(fat: seq<u16>, k: nat, r: nat)
    requires FAT_ENTRIES_PER_BLOCK * (k + 1) <= |fat| && r < FAT_ENTRIES_PER_BLOCK
    ensures DecodeU16s(FatBlockBytes(fat, k))[r] == fat[FAT_ENTRIES_PER_BLOCK * k + r]
  {
    DecodeEncodeU16s(fat[FAT_ENTRIES_PER_BLOCK * k .. FAT_ENTRIES_PER_BLOCK * (k + 1)]);
  }

  /** FAT entry b belongs to FAT block b / 2048, which lies inside a FAT of `count` blocks. */
  lemma FatBlockOf(b: nat, count: nat)
    requires b < FAT_ENTRIES_PER_BLOCK * count
    ensures b / FAT_ENTRIES_PER_BLOCK < count
    ensures FAT_ENTRIES_PER_BLOCK * (b / FAT_ENTRIES_PER_BLOCK) <= b
    ensures b < FAT_ENTRIES_PER_BLOCK * (b / FAT_ENTRIES_PER_BLOCK + 1) <= FAT_ENTRIES_PER_BLOCK * count
  {
  }

  /** Changing an entry of FAT block k leaves the bytes of every other FAT block as they were. */
  lemma FatBlockBytesOther(fat: seq<u16>, b: nat, k: nat, x: u16, j: nat)
    requires b < |fat| && FAT_ENTRIES_PER_BLOCK * k <= b < FAT_ENTRIES_PER_BLOCK * (k + 1)
    requires FAT_ENTRIES_PER_BLOCK * (j + 1) <= |fat| && j != k
    ensures FatBlockBytes(fat[b := x], j) == FatBlockBytes(fat, j)
  {
    var lo := FAT_ENTRIES_PER_BLOCK * j;
    assert b < lo || lo + FAT_ENTRIES_PER_BLOCK <= b by {
      if j < k {
        assert FAT_ENTRIES_PER_BLOCK * (j + 1) <= FAT_ENTRIES_PER_BLOCK * k;
      } else {
        assert FAT_ENTRIES_PER_BLOCK * (k + 1) <= FAT_ENTRIES_PER_BLOCK * j;
      }
    }
    assert fat[b := x][lo .. lo + FAT_ENTRIES_PER_BLOCK] == fat[lo .. lo + FAT_ENTRIES_PER_BLOCK];
  }

  /** An entry between 2048 * k and 2048 * (k + 1) belongs to FAT block k. */
  lemma EntryInBlock(b: nat, k: nat)
    requires FAT_ENTRIES_PER_BLOCK * k <= b < FAT_ENTRIES_PER_BLOCK * (k + 1)
    ensures b / FAT_ENTRIES_PER_BLOCK == k
  {
  }
}
