/** The older two-command framing of the bootloader's `protocol.h`: a
    `flasher_cmd` is an `int`-sized tag followed by a union of a write and a
    boot payload. The bootloader's command loop does not read this frame
    (it reads bare `struct write_cmd`s, see module Bootloader); the header
    is modelled as the layout it declares. */
module BootloaderProtocol {

  import opened Bytes
  import opened Wrappers
  import opened Wire

  /** `struct boot_cmd`: the requested boot mode. */
  datatype BootCmd = BootCmd(mode: byte)

  /** The two tags of this revision. */
  datatype CmdType = WriteType | BootType

  datatype FlasherCmd = Write(write: WriteCmd) | Boot(boot: BootCmd)
  {
    function Type(): CmdType
    {
      match this
      case Write(_) => WriteType
      case Boot(_) => BootType
    }
  }

  function Tag(t: CmdType): u32
  {
    match t
    case WriteType => 0x42
    case BootType => 0x69
  }

  function TypeOfTag(v: u32): (r: Option<CmdType>)
    ensures r.Some? ==> Tag(r.value) == v
  {
    if v == 0x42 then Some(WriteType)
    else if v == 0x69 then Some(BootType)
    else None
  }

  /** Exactly two values are tags, and they are distinct. */
  lemma OnlyTwoTags(v: u32)
    ensures TypeOfTag(v).Some? <==> v == 0x42 || v == 0x69
    ensures Tag(WriteType) != Tag(BootType)
  {
  }

  const TYPE_SIZE: nat := 4
  const TYPED_OFFSET: nat := TYPE_SIZE
  const UNION_SIZE: nat := WRITE_CMD_SIZE
  const FLASHER_CMD_SIZE: nat := TYPE_SIZE + UNION_SIZE

  type Frame = s: seq<byte> | |s| == FLASHER_CMD_SIZE witness seq(FLASHER_CMD_SIZE, i => 0)

  /** Assigning the tag and the variant's fields into the frame `f`. */
  function Store(f: Frame, cmd: FlasherCmd): (r: Frame)
  {
    var g := Splice(f, 0, LE32(Tag(cmd.Type())));
    match cmd
    case Write(w) => Splice(g, TYPED_OFFSET, EncodeWrite(w))
    case Boot(b) => Splice(g, TYPED_OFFSET, [b.mode])
  }

  function Decode(f: Frame): Option<FlasherCmd>
  {
    match TypeOfTag(U32At(f, 0))
    case None => None
    case Some(WriteType) => Some(Write(DecodeWrite(f[TYPED_OFFSET..])))
    case Some(BootType) => Some(Boot(BootCmd(f[TYPED_OFFSET])))
  }

  /** Storing a command into any frame and decoding gives it back. */
  lemma DecodeStore(f: Frame, cmd: FlasherCmd)
    ensures Decode(Store(f, cmd)) == Some(cmd)
  {
    var r := Store(f, cmd);
    assert U32At(r, 0) == Tag(cmd.Type()) by {
      U32AtSlice(r, 0);
      U32RoundTrip(Tag(cmd.Type()));
    }
    match cmd
    case Write(w) =>
      assert r[TYPED_OFFSET..] == EncodeWrite(w);
      DecodeEncodeWrite(w);
    case Boot(b) =>
  }
}
