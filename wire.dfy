/** The flash geometry and the page-write command layout that the device
    bootloader and the host flasher share: both `protocol.h` headers and the
    bootloader's own `main.c` declare the same four constants and the same
    `struct write_cmd`. */
module Wire {

  import opened Bytes

  /** Where the application image starts in flash. */
  const APP_OFFSET: nat := 0x1000
  /** Size of one flash page, the unit a write command carries. */
  const PAGE_SIZE: nat := 256
  /** Number of flash pages the protocol may address. */
  const NUM_PAGES: nat := 256
  /** First page a write command may target: everything below holds the
      bootloader itself. */
  const START_PAGE: nat := APP_OFFSET / PAGE_SIZE

  /** Byte offsets of the fields of `struct write_cmd` and its size:
      a `uint32_t` page, `PAGE_SIZE` data bytes, a `uint32_t` crc; all
      offsets are multiples of four, so the struct has no padding. */
  const PAGE_FIELD: nat := 0
  const DATA_FIELD: nat := 4
  const CRC_FIELD: nat := DATA_FIELD + PAGE_SIZE
  const WRITE_CMD_SIZE: nat := CRC_FIELD + 4

  /** The response bytes the bootloader sends and the flasher checks. */
  const ACK: byte := 0x42
  const NACK: byte := 0xFF

  /** CRC-32 of a byte buffer, as the host's `crc32(buf, size)` computes it.
      Its definition is not part of this model: every use takes it as a
      parameter. */
  type Crc32 = seq<byte> -> u32

  type PageData = s: seq<byte> | |s| == PAGE_SIZE witness seq(PAGE_SIZE, i => 0)

  /** `struct write_cmd`: one page of payload for page number `page`. */
  datatype WriteCmd = WriteCmd(page: u32, data: PageData, crc: u32)

  /** The memory image of a `struct write_cmd`: the page number, the data
      and the crc at their field offsets. */
  function EncodeWrite(c: WriteCmd): (r: seq<byte>)
    ensures |r| == WRITE_CMD_SIZE
  {
    LE32(c.page) + c.data + LE32(c.crc)
  }

  /** Each field of a write command sits at its offset in the image. */
  lemma EncodeWriteFields(c: WriteCmd)
    ensures EncodeWrite(c)[PAGE_FIELD..DATA_FIELD] == LE32(c.page)
    ensures EncodeWrite(c)[DATA_FIELD..CRC_FIELD] == c.data
    ensures EncodeWrite(c)[CRC_FIELD..] == LE32(c.crc)
  {
  }

  /** Zeroing the crc field in the image of a command gives the image of
      the command with crc zero. */
  lemma ZeroCrcField(c: WriteCmd)
    ensures Splice(EncodeWrite(c), CRC_FIELD, LE32(0)) == EncodeWrite(c.(crc := 0))
  {
    var z := Splice(EncodeWrite(c), CRC_FIELD, LE32(0));
    EncodeWriteFields(c);
    EncodeWriteFields(c.(crc := 0));
    assert z == z[..CRC_FIELD] + z[CRC_FIELD..];
  }

  /** A `struct write_cmd` read from its memory image. */
  function DecodeWrite(b: seq<byte>): WriteCmd
    requires |b| == WRITE_CMD_SIZE
  {
    WriteCmd(U32At(b, PAGE_FIELD), b[DATA_FIELD..CRC_FIELD], U32At(b, CRC_FIELD))
  }

  /** A load depends only on the four bytes it reads. */
  lemma U32AtSlice(s: seq<byte>, off: nat)
    requires off + 4 <= |s|
    ensures U32At(s, off) == U32At(s[off..off + 4], 0)
  {
  }

  /** Decoding the image of a write command gives the command back. */
  lemma DecodeEncodeWrite(c: WriteCmd)
    ensures DecodeWrite(EncodeWrite(c)) == c
  {
    var r := EncodeWrite(c);
    EncodeWriteFields(c);
    U32RoundTrip(c.page);
    U32RoundTrip(c.crc);
    U32AtSlice(r, PAGE_FIELD);
    U32AtSlice(r, CRC_FIELD);
  }

  /** Every 264-byte buffer is the image of exactly the write command it
      decodes to: the receiver can interpret any full-length read. */
  lemma EncodeDecodeWrite(b: seq<byte>)
    requires |b| == WRITE_CMD_SIZE
    ensures EncodeWrite(DecodeWrite(b)) == b
  {
    var r := EncodeWrite(DecodeWrite(b));
    EncodeWriteFields(DecodeWrite(b));
    LE32RoundTrip(b, PAGE_FIELD);
    LE32RoundTrip(b, CRC_FIELD);
    assert r[..4] == b[..4];
    assert r[CRC_FIELD..] == b[CRC_FIELD..];
    assert r == r[..4] + r[DATA_FIELD..CRC_FIELD] + r[CRC_FIELD..];
    assert b == b[..4] + b[DATA_FIELD..CRC_FIELD] + b[CRC_FIELD..];
  }

  /** The layout arithmetic both sides rely on. */
  lemma LayoutConstants()
    ensures START_PAGE == 16
    ensures WRITE_CMD_SIZE == 264 && WRITE_CMD_SIZE % 4 == 0 && WRITE_CMD_SIZE / 4 == 66
    ensures START_PAGE * PAGE_SIZE == APP_OFFSET
    ensures NUM_PAGES * PAGE_SIZE == 0x10000
  {
  }
}
