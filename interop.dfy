/** How the host flasher's write commands meet the bootloader's checks.
    Both sides lay out `struct write_cmd` the same way (module Wire); the
    flasher's frames put the 4-byte command tag in front of it, which the
    bootloader's loop does not read (see module Bootloader). The lemmas
    here are about the bytes of a frame after its tag. */
module Compatibility {

  import opened Bytes
  import opened Wire
  import opened FlasherProtocol
  import opened Flasher
  import opened FlasherProperties
  import opened Bootloader

  /** The bootloader accepts the command read from `received` when its
      page is in range and its crc field matches. */
  lemma ExamineAccepts(received: seq<byte>, cmd: WriteCmd, engine: CrcEngine)
    requires |received| == WRITE_CMD_SIZE && DecodeWrite(received) == cmd
    requires START_PAGE <= cmd.page < NUM_PAGES
    requires DeviceCrc(engine, Splice(received, CRC_FIELD, LE32(0))) == cmd.crc
    ensures Examine(received, engine) == Accept(cmd)
  {
  }

  /** A write command for a page of the application region whose crc
      field holds the host CRC of its own image with that field zero is
      accepted as it is, when the host's `crc32` and the device's engine
      agree. */
  lemma SealedAccepted(c: WriteCmd, crc32: Crc32, engine: CrcEngine)
    requires SameCrc(crc32, engine)
    requires START_PAGE <= c.page < NUM_PAGES
    requires c.crc == crc32(EncodeWrite(c.(crc := 0)))
    ensures Examine(EncodeWrite(c), engine) == Accept(c)
  {
    DecodeEncodeWrite(c);
    var unsigned := EncodeWrite(c.(crc := 0));
    ZeroCrcField(c);
    SameCrcOnCommand(crc32, engine, unsigned);
    ExamineAccepts(EncodeWrite(c), c, engine);
  }

  /** The bootloader accepts every write command the flasher builds, and
      accepts it as built. */
  lemma PageAccepted(image: seq<byte>, j: nat, crc32: Crc32, engine: CrcEngine)
    requires SameCrc(crc32, engine)
    requires j < PAGE_COUNT && j * PAGE_SIZE <= |image|
    ensures Examine(PageFrame(image, j, crc32)[TYPED_OFFSET..], engine) == Accept(PageCmd(image, j, crc32))
  {
    var c := PageCmd(image, j, crc32);
    PageFrameDecodes(image, j, crc32);
    PageCmdFields(image, j, crc32);
    SealedAccepted(c, crc32, engine);
  }

  /** The flasher's frame is one tag longer than the command the
      bootloader reads. */
  lemma FrameIsTaggedCommand(image: seq<byte>, j: nat, crc32: Crc32)
    requires j < PAGE_COUNT && j * PAGE_SIZE <= |image|
    ensures |PageFrame(image, j, crc32)| == TYPE_SIZE + WRITE_CMD_SIZE
    ensures PageFrame(image, j, crc32)[TYPED_OFFSET..] == EncodeWrite(PageCmd(image, j, crc32))
  {
    PageFrameDecodes(image, j, crc32);
  }
}
