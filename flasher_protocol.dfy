/** The four-command framing of the host flasher's `protocol.h`: a
    `flasher_cmd` is an `int`-sized `enum cmd_type` tag followed by a union
    of the start, write, stop and boot payloads. The union is as large as
    its largest member, `struct write_cmd`, so every command occupies the
    same number of bytes on the wire whatever its tag. */
module FlasherProtocol {

  import opened Bytes
  import opened Wrappers
  import opened Wire

  /** `struct start_cmd`: the number of bytes to flash and a version tag. */
  datatype StartCmd = StartCmd(length: u32, version: u16)
  /** `struct stop_cmd`: two bytes that carry no meaning yet. */
  datatype StopCmd = StopCmd(idk: byte, whatever: byte)
  /** `struct boot_cmd`: the requested boot mode. */
  datatype BootCmd = BootCmd(mode: byte)

  datatype CmdType = StartType | WriteType | StopType | BootType

  /** `struct flasher_cmd`, the tag being implied by the variant. */
  datatype FlasherCmd =
    | Start(start: StartCmd)
    | Write(write: WriteCmd)
    | Stop(stop: StopCmd)
    | Boot(boot: BootCmd)
  {
    function Type(): CmdType
    {
      match this
      case Start(_) => StartType
      case Write(_) => WriteType
      case Stop(_) => StopType
      case Boot(_) => BootType
    }
  }

  /** `enum cmd_type` values. */
  function Tag(t: CmdType): u32
  {
    match t
    case StartType => 0x13
    case WriteType => 0x42
    case StopType => 0x37
    case BootType => 0x69
  }

  /** Which command a tag denotes, if any. */
  function TypeOfTag(v: u32): (r: Option<CmdType>)
    ensures r.Some? ==> Tag(r.value) == v
  {
    if v == 0x13 then Some(StartType)
    else if v == 0x42 then Some(WriteType)
    else if v == 0x37 then Some(StopType)
    else if v == 0x69 then Some(BootType)
    else None
  }

  /** The four tags are distinct, and each is recognised as its command. */
  lemma TagsDistinct(t: CmdType, u: CmdType)
    ensures Tag(t) == Tag(u) <==> t == u
    ensures TypeOfTag(Tag(t)) == Some(t)
  {
  }

  /** Sizes and offsets of the frame: the tag is a 4-byte `int`; the union
      is 4-byte aligned and as large as `struct write_cmd`;
      `struct start_cmd` is a `uint32_t` and a `uint16_t` padded to 8 bytes. */
  const TYPE_SIZE: nat := 4
  const TYPED_OFFSET: nat := TYPE_SIZE
  const START_CMD_SIZE: nat := 8
  const STOP_CMD_SIZE: nat := 2
  const BOOT_CMD_SIZE: nat := 1
  const UNION_SIZE: nat := WRITE_CMD_SIZE
  const FLASHER_CMD_SIZE: nat := TYPE_SIZE + UNION_SIZE

  /** Number of payload bytes a variant defines. */
  function PayloadSize(t: CmdType): nat
  {
    match t
    case StartType => START_CMD_SIZE
    case WriteType => WRITE_CMD_SIZE
    case StopType => STOP_CMD_SIZE
    case BootType => BOOT_CMD_SIZE
  }

  /** The union holds the largest variant, so each variant fits and the
      frame is 268 bytes for all of them. */
  lemma UnionSizedToLargest()
    ensures forall t: CmdType :: PayloadSize(t) <= UNION_SIZE
    ensures exists t: CmdType :: PayloadSize(t) == UNION_SIZE
    ensures FLASHER_CMD_SIZE == 268
  {
    assert PayloadSize(WriteType) == UNION_SIZE;
  }

  type Frame = s: seq<byte> | |s| == FLASHER_CMD_SIZE witness seq(FLASHER_CMD_SIZE, i => 0)

  /** `cmd.type = t`: only the tag bytes of the frame change. */
  function SetType(f: Frame, t: CmdType): (r: Frame)
    ensures r[..TYPE_SIZE] == LE32(Tag(t))
    ensures r[TYPED_OFFSET..] == f[TYPED_OFFSET..]
  {
    Splice(f, 0, LE32(Tag(t)))
  }

  /** After `cmd.type = t` the tag reads back as `t`. */
  lemma SetTypeTag(f: Frame, t: CmdType)
    ensures U32At(SetType(f, t), 0) == Tag(t)
    ensures TypeOfTag(U32At(SetType(f, t), 0)) == Some(t)
  {
    U32RoundTrip(Tag(t));
    U32AtSlice(SetType(f, t), 0);
  }

  /** Assigning the tag and every field of `cmd`'s variant into the frame
      `f`; union bytes the variant does not define keep their old value. */
  function Store(f: Frame, cmd: FlasherCmd): (r: Frame)
    ensures r[TYPED_OFFSET + PayloadSize(cmd.Type())..] == f[TYPED_OFFSET + PayloadSize(cmd.Type())..]
  {
    var g := SetType(f, cmd.Type());
    match cmd
    case Start(s) =>
      Splice(Splice(g, TYPED_OFFSET, LE32(s.length)), TYPED_OFFSET + 4, LE16(s.version))
    case Write(w) =>
      Splice(g, TYPED_OFFSET, EncodeWrite(w))
    case Stop(s) =>
      Splice(g, TYPED_OFFSET, [s.idk, s.whatever])
    case Boot(b) =>
      Splice(g, TYPED_OFFSET, [b.mode])
  }

  /** A frame holding the write tag followed by the image of `w` is what
      storing `w` into any frame gives. */
  lemma StoreWriteBytes(f: Frame, w: WriteCmd, r: Frame)
    requires r[..TYPE_SIZE] == LE32(Tag(WriteType))
    requires r[TYPED_OFFSET..] == EncodeWrite(w)
    ensures r == Store(f, Write(w))
  {
    var s := Store(f, Write(w));
    assert s[..TYPE_SIZE] == LE32(Tag(WriteType));
    assert s[TYPED_OFFSET..] == EncodeWrite(w);
    assert r == r[..TYPE_SIZE] + r[TYPED_OFFSET..];
    assert s == s[..TYPE_SIZE] + s[TYPED_OFFSET..];
  }

  /** The receiver's reading of a frame: the tag selects the variant.
      A tag outside `enum cmd_type` gives `None`. */
  function Decode(f: Frame): Option<FlasherCmd>
  {
    match TypeOfTag(U32At(f, 0))
    case None => None
    case Some(StartType) => Some(Start(StartCmd(U32At(f, TYPED_OFFSET), U16At(f, TYPED_OFFSET + 4))))
    case Some(WriteType) => Some(Write(DecodeWrite(f[TYPED_OFFSET..])))
    case Some(StopType) => Some(Stop(StopCmd(f[TYPED_OFFSET], f[TYPED_OFFSET + 1])))
    case Some(BootType) => Some(Boot(BootCmd(f[TYPED_OFFSET])))
  }

  /** Storing a command leaves its tag in the first word of the frame. */
  lemma StoreTag(f: Frame, cmd: FlasherCmd)
    ensures U32At(Store(f, cmd), 0) == Tag(cmd.Type())
  {
    var r := Store(f, cmd);
    var g := SetType(f, cmd.Type());
    assert r[..4] == g[..4];
    U32AtSlice(r, 0);
    U32AtSlice(g, 0);
    SetTypeTag(f, cmd.Type());
  }

  /** Whatever the frame held before, storing a command into it and
      decoding gives that command back. */
  lemma DecodeStore(f: Frame, cmd: FlasherCmd)
    ensures Decode(Store(f, cmd)) == Some(cmd)
  {
    var r := Store(f, cmd);
    StoreTag(f, cmd);
    TagsDistinct(cmd.Type(), cmd.Type());
    match cmd
    case Start(s) =>
      U32RoundTrip(s.length);
      U16RoundTrip(s.version);
      U32AtSlice(r, TYPED_OFFSET);
    case Write(w) =>
      assert r[TYPED_OFFSET..] == EncodeWrite(w);
      DecodeEncodeWrite(w);
    case Stop(s) =>
    case Boot(b) =>
  }
}
