/** The host flasher of `flasher/flasher.c`: parse the command line, open
    the serial port and the image file, then send a start command, one write
    command per page, a stop command and a boot command, checking the
    device's one-byte responses.

    The operating system is a parameter (`Host`): opening the port and the
    file, `atoi`, `crc32`, and what each serial write/read pair does. The
    result is the process exit code and the frames handed to
    `serial_write`, in order. */
module Flasher {

  import opened Bytes
  import opened Wrappers
  import opened Wire
  import opened FlasherProtocol

  const EXIT_SUCCESS: int := 0
  const EXIT_FAILURE: int := 1

  /** Number of pages a write command may address. */
  const PAGE_COUNT: nat := NUM_PAGES - START_PAGE

  /** What the `serial_write` of one frame and the `serial_read` of its
      response did: whether the write succeeded and, when the read
      succeeded, the byte read. */
  datatype Exchange = Exchange(written: bool, response: Option<byte>)

  /** The flasher's environment. `link(k)` is the exchange for the `k`-th
      frame sent; `initial` is what the uninitialised local `cmd` holds. */
  datatype Host = Host(
    openPort: string -> bool,
    openFile: string -> Option<seq<byte>>,
    atoi: string -> int,
    crc32: Crc32,
    link: nat -> Exchange,
    initial: Frame)

  /** The exit code and the frames passed to `serial_write`. */
  datatype Outcome = Outcome(exit: int, frames: seq<Frame>)

  /** The serial exchange of a frame completed with some response. */
  predicate Answered(ex: Exchange)
  {
    ex.written && ex.response.Some?
  }

  /** The serial exchange of a frame completed with the ack byte. */
  predicate Acked(ex: Exchange)
  {
    Answered(ex) && ex.response.value == ACK
  }

  // ---------------------------------------------------------------------
  // Specification of one run

  /** The declared image length: the file size padded to whole pages. */
  function PaddedLength(size: nat): nat
  {
    if size % PAGE_SIZE > 0 then size + (PAGE_SIZE - size % PAGE_SIZE) else size
  }

  /** The version sent with the start command: 0 unless a fourth argument
      is given, then `atoi` of it converted to `uint16_t`. */
  function VersionArg(args: seq<string>, atoi: string -> int): u16
  {
    if |args| == 4 then ToU16(atoi(args[3])) else 0
  }

  /** The file bytes `fread` delivers for the `j`-th page, when the file
      position is at the start of that page. */
  function PageChunk(image: seq<byte>, j: nat): (r: seq<byte>)
    requires j * PAGE_SIZE <= |image|
    ensures |r| <= PAGE_SIZE
  {
    var from := j * PAGE_SIZE;
    image[from..if |image| - from < PAGE_SIZE then |image| else from + PAGE_SIZE]
  }

  /** A partial page completed with zeros. */
  function PadPage(chunk: seq<byte>): PageData
    requires |chunk| <= PAGE_SIZE
  {
    chunk + Zeros(PAGE_SIZE - |chunk|)
  }

  /** The write command for the `j`-th page of the image: page number
      `START_PAGE + j`, the padded page data, and the CRC-32 of the command
      with its crc field zero. */
  function PageCmd(image: seq<byte>, j: nat, crc32: Crc32): WriteCmd
    requires j < PAGE_COUNT && j * PAGE_SIZE <= |image|
  {
    Sealed(START_PAGE + j, PadPage(PageChunk(image, j)), crc32)
  }

  /** The write command for `page` and `data` whose crc is the CRC-32 of
      its own image with the crc field zero. */
  function Sealed(page: u32, data: PageData, crc32: Crc32): WriteCmd
  {
    var unsigned := WriteCmd(page, data, 0);
    unsigned.(crc := crc32(EncodeWrite(unsigned)))
  }

  /** How the page loop ended: `count` write commands were sent, and
      `completed` tells whether every one of them was acked. */
  datatype Pages = Pages(count: nat, completed: bool)

  /** The page loop from its `j`-th page on, with `left` bytes of the file
      still unread: it stops after a write that is not acked, after the
      page that `fread` could not fill, or after the last page the
      protocol allows. The exchange of the `j`-th write is the
      `(j + 1)`-th of the run. */
  function PagesSent(left: nat, link: nat -> Exchange, j: nat): (r: Pages)
    requires j <= PAGE_COUNT
    ensures j <= r.count <= PAGE_COUNT && (j < PAGE_COUNT ==> j < r.count)
    ensures r.count == 0 || (r.count - 1 - j) * PAGE_SIZE <= left
    decreases left
  {
    if j == PAGE_COUNT then Pages(j, true)
    else if !Acked(link(j + 1)) then Pages(j + 1, false)
    else if left < PAGE_SIZE then Pages(j + 1, true)
    else PagesSent(left - PAGE_SIZE, link, j + 1)
  }

  /** The frame that carries the write command of the `j`-th page. The
      command covers the whole frame, so the frame does not depend on what
      `cmd` held before. */
  function PageFrame(image: seq<byte>, j: nat, crc32: Crc32): Frame
    requires j < PAGE_COUNT && j * PAGE_SIZE <= |image|
  {
    LE32(Tag(WriteType)) + EncodeWrite(PageCmd(image, j, crc32))
  }

  /** The start frame followed by the frames of the first `n` pages. */
  function WriteFrames(image: seq<byte>, crc32: Crc32, start: Frame, n: nat): (r: seq<Frame>)
    requires n <= PAGE_COUNT && (n == 0 || (n - 1) * PAGE_SIZE <= |image|)
    ensures |r| == n + 1 && r[0] == start
  {
    [start] + seq(n, k requires 0 <= k < n => PageFrame(image, k, crc32))
  }

  lemma WriteFramesNext(image: seq<byte>, crc32: Crc32, start: Frame, n: nat)
    requires n < PAGE_COUNT && n * PAGE_SIZE <= |image|
    ensures WriteFrames(image, crc32, start, n + 1) == WriteFrames(image, crc32, start, n) + [PageFrame(image, n, crc32)]
  {
  }

  /** After the page loop: the stop command (only its tag is set, the rest
      of `cmd` is left from the last write) and the boot command. */
  function StopAndBoot(h: Host, frames: seq<Frame>, last: Frame): Outcome
  {
    var stop := SetType(last, StopType);
    if !Answered(h.link(|frames|)) then Outcome(EXIT_FAILURE, frames + [stop])
    else
      var boot := Store(stop, Boot(BootCmd(0x42)));
      if !Acked(h.link(|frames| + 1)) then Outcome(EXIT_FAILURE, frames + [stop, boot])
      else Outcome(EXIT_SUCCESS, frames + [stop, boot])
  }

  /** The start command for the image size and version. */
  function StartFrame(initial: Frame, size: nat, version: u16): Frame
  {
    Store(initial, Start(StartCmd(ToU32(PaddedLength(size)), version)))
  }

  /** What a run of the flasher with arguments `args` (as `argv`, the
      program name first) does. */
  function Flashing(args: seq<string>, h: Host): Outcome
  {
    if |args| < 3 || |args| > 4 then Outcome(EXIT_FAILURE, [])
    else if !h.openPort(args[1]) then Outcome(EXIT_FAILURE, [])
    else
      match h.openFile(args[2])
      case None => Outcome(EXIT_FAILURE, [])
      case Some(image) => Transfer(image, VersionArg(args, h.atoi), h)
  }

  /** The commands sent for an open image file: start, the pages, stop and
      boot, each only when every exchange before it went through. */
  function Transfer(image: seq<byte>, version: u16, h: Host): Outcome
  {
    var start := StartFrame(h.initial, |image|, version);
    if !Answered(h.link(0)) then Outcome(EXIT_FAILURE, [start])
    else
      var p := PagesSent(|image|, h.link, 0);
      var frames := WriteFrames(image, h.crc32, start, p.count);
      if !p.completed then Outcome(EXIT_FAILURE, frames)
      else StopAndBoot(h, frames, frames[p.count])
  }

  // ---------------------------------------------------------------------
  // The program

  /** `main` of the flasher. */
  method Flash(args: seq<string>, h: Host) returns (exit: int, frames: seq<Frame>)
    ensures Outcome(exit, frames) == Flashing(args, h)
  {
    if |args| < 3 || |args| > 4 {
      return EXIT_FAILURE, [];
    }
    var argPort := args[1];
    var argFile := args[2];
    var versionNo: u16 := 0;
    if |args| == 4 {
      versionNo := ToU16(h.atoi(args[3]));
    }
    if !h.openPort(argPort) {
      return EXIT_FAILURE, [];
    }
    var file := h.openFile(argFile);
    if file.None? {
      return EXIT_FAILURE, [];
    }
    exit, frames := SendImage(file.value, versionNo, h);
  }

  /** Everything `main` does once the port and the file are open. */
  method SendImage(image: seq<byte>, versionNo: u16, h: Host) returns (exit: int, frames: seq<Frame>)
    ensures Outcome(exit, frames) == Transfer(image, versionNo, h)
  {
    var lengthToFlash := |image|;
    if lengthToFlash % PAGE_SIZE > 0 {
      lengthToFlash := lengthToFlash + (PAGE_SIZE - lengthToFlash % PAGE_SIZE);
    }

    // Start command
    var cmd: Frame := h.initial;
    cmd := SetType(cmd, StartType);
    cmd := Splice(cmd, TYPED_OFFSET, LE32(ToU32(lengthToFlash)));
    cmd := Splice(cmd, TYPED_OFFSET + 4, LE16(versionNo));
    frames := [cmd];
    var ex := h.link(0);
    if !ex.written || ex.response.None? {
      return EXIT_FAILURE, frames;
    }

    // Pages
    var completed;
    completed, frames := SendPages(image, h, cmd);
    if !completed {
      return EXIT_FAILURE, frames;
    }
    exit, frames := SendStopAndBoot(h, frames, frames[|frames| - 1]);
  }

  /** The stop command, built on the last frame sent, then the boot
      command; `sent` are the frames sent before them. */
  method SendStopAndBoot(h: Host, sent: seq<Frame>, last: Frame) returns (exit: int, frames: seq<Frame>)
    ensures Outcome(exit, frames) == StopAndBoot(h, sent, last)
  {
    // Stop command
    var cmd := SetType(last, StopType);
    frames := sent + [cmd];
    var ex := h.link(|frames| - 1);
    if !ex.written || ex.response.None? {
      return EXIT_FAILURE, frames;
    }

    // Boot command
    cmd := SetType(cmd, BootType);
    cmd := Splice(cmd, TYPED_OFFSET, [0x42]);
    frames := frames + [cmd];
    ex := h.link(|frames| - 1);
    if !ex.written || ex.response.None? || ex.response.value != ACK {
      return EXIT_FAILURE, frames;
    }
    return EXIT_SUCCESS, frames;
  }

  /** The page loop, after the start command `start` was sent: `completed`
      is false when it ended by `goto cleanup`. */
  method SendPages(image: seq<byte>, h: Host, start: Frame) returns (completed: bool, frames: seq<Frame>)
    ensures PagesSent(|image|, h.link, 0).completed == completed
    ensures frames == WriteFrames(image, h.crc32, start, PagesSent(|image|, h.link, 0).count)
  {
    frames := [start];
    var cmd := start;
    var pos := 0;
    for page := START_PAGE to NUM_PAGES
      invariant pos == (page - START_PAGE) * PAGE_SIZE <= |image|
      invariant frames == WriteFrames(image, h.crc32, start, page - START_PAGE)
      invariant PagesSent(|image|, h.link, 0) == PagesSent(|image| - pos, h.link, page - START_PAGE)
    {
      var fileNread, acked;
      cmd, fileNread, acked := SendPage(image, h, page, pos, cmd, start, frames);
      pos := pos + fileNread;
      frames := frames + [cmd];
      if !acked {
        return false, frames;
      }
      if fileNread < PAGE_SIZE {
        return true, frames;
      }
    }
    return true, frames;
  }

  /** One pass of the page loop: the write command of the page is filled
      in and sent, and the response is read. The command is the one after
      `frames`; `acked` tells whether the device acknowledged it. */
  method SendPage(image: seq<byte>, h: Host, page: nat, pos: nat, prev: Frame, ghost start: Frame, ghost frames: seq<Frame>)
    returns (cmd: Frame, fileNread: nat, acked: bool)
    requires START_PAGE <= page < NUM_PAGES && pos == (page - START_PAGE) * PAGE_SIZE <= |image|
    requires frames == WriteFrames(image, h.crc32, start, page - START_PAGE)
    ensures frames + [cmd] == WriteFrames(image, h.crc32, start, page - START_PAGE + 1)
    ensures fileNread == if |image| - pos < PAGE_SIZE then |image| - pos else PAGE_SIZE
    ensures acked == Acked(h.link(page - START_PAGE + 1))
    ensures acked && fileNread == PAGE_SIZE ==>
      PagesSent(|image| - pos, h.link, page - START_PAGE) == PagesSent(|image| - pos - PAGE_SIZE, h.link, page - START_PAGE + 1)
    ensures !(acked && fileNread == PAGE_SIZE) ==>
      PagesSent(|image| - pos, h.link, page - START_PAGE) == Pages(page - START_PAGE + 1, acked)
  {
    cmd, fileNread := FillPage(prev, image, pos, page, h.crc32);
    WriteFramesNext(image, h.crc32, start, page - START_PAGE);
    var ex := h.link(page - START_PAGE + 1);
    acked := ex.written && ex.response.Some? && ex.response.value == ACK;
  }

  /** One pass of the page loop up to `serial_write`: the page is read
      and padded, then the command fields are filled in. Every byte of the
      frame is overwritten, so the result is the stored `PageCmd`. */
  method FillPage(prev: Frame, image: seq<byte>, pos: nat, page: nat, crc32: Crc32)
    returns (cmd: Frame, fileNread: nat)
    requires START_PAGE <= page < NUM_PAGES && pos == (page - START_PAGE) * PAGE_SIZE <= |image|
    ensures cmd == PageFrame(image, page - START_PAGE, crc32)
    ensures fileNread == if |image| - pos < PAGE_SIZE then |image| - pos else PAGE_SIZE
  {
    cmd, fileNread := ReadPage(prev, image, pos, page);
    cmd := SealPage(cmd, page, crc32);
    assert cmd == cmd[..TYPED_OFFSET] + cmd[TYPED_OFFSET..];
  }

  /** `fread` of up to a page from file position `pos` into the data field
      (after the page field is set), and zero padding of a partial page. */
  method ReadPage(prev: Frame, image: seq<byte>, pos: nat, page: nat) returns (cmd: Frame, fileNread: nat)
    requires START_PAGE <= page < NUM_PAGES && pos == (page - START_PAGE) * PAGE_SIZE <= |image|
    ensures cmd[TYPED_OFFSET + DATA_FIELD..TYPED_OFFSET + CRC_FIELD] == PadPage(PageChunk(image, page - START_PAGE))
    ensures fileNread == |PageChunk(image, page - START_PAGE)| && pos + fileNread <= |image|
    ensures fileNread < PAGE_SIZE <==> |image| - pos < PAGE_SIZE
  {
    cmd := Splice(prev, TYPED_OFFSET + PAGE_FIELD, LE32(page));
    fileNread := if |image| - pos < PAGE_SIZE then |image| - pos else PAGE_SIZE;
    ghost var chunk := image[pos..pos + fileNread];
    assert chunk == PageChunk(image, page - START_PAGE);
    cmd := Splice(cmd, TYPED_OFFSET + DATA_FIELD, image[pos..pos + fileNread]);
    if fileNread < PAGE_SIZE {
      ghost var c2 := cmd;
      cmd := Splice(cmd, TYPED_OFFSET + DATA_FIELD + fileNread, Zeros(PAGE_SIZE - fileNread));
      SpliceAfter(c2, TYPED_OFFSET + DATA_FIELD, chunk, Zeros(PAGE_SIZE - fileNread));
    }
  }

  /** The tag, the page number and the crc: the crc is computed over the
      `struct write_cmd` with its crc field zero, then stored. */
  method SealPage(filled: Frame, page: u32, crc32: Crc32) returns (cmd: Frame)
    ensures cmd[..TYPE_SIZE] == LE32(Tag(WriteType))
    ensures cmd[TYPED_OFFSET..] == EncodeWrite(Sealed(page, filled[TYPED_OFFSET + DATA_FIELD..TYPED_OFFSET + CRC_FIELD], crc32))
  {
    ghost var unsigned := WriteCmd(page, filled[TYPED_OFFSET + DATA_FIELD..TYPED_OFFSET + CRC_FIELD], 0);
    cmd := SetType(filled, WriteType);
    cmd := Splice(cmd, TYPED_OFFSET + PAGE_FIELD, LE32(page));
    cmd := Splice(cmd, TYPED_OFFSET + CRC_FIELD, LE32(0));
    FieldsMakeImage(cmd, unsigned);
    var crc := crc32(cmd[TYPED_OFFSET..]);
    cmd := Splice(cmd, TYPED_OFFSET + CRC_FIELD, LE32(crc));
    FieldsMakeImage(cmd, unsigned.(crc := crc));
  }

  /** Storing `b` right after a stretch that holds `a` leaves `a + b`
      there. */
  lemma SpliceAfter(s: seq<byte>, off: nat, a: seq<byte>, b: seq<byte>)
    requires off + |a| + |b| <= |s| && s[off..off + |a|] == a
    ensures Splice(s, off + |a|, b)[off..off + |a| + |b|] == a + b
  {
    var r := Splice(s, off + |a|, b);
    assert r[off..off + |a|] == a;
    assert r[off..off + |a| + |b|] == r[off..off + |a|] + r[off + |a|..off + |a| + |b|];
  }

  /** A frame whose page, data and crc fields hold those of `w` carries
      the image of `w` after its tag. */
  lemma FieldsMakeImage(f: Frame, w: WriteCmd)
    requires f[TYPED_OFFSET + PAGE_FIELD..TYPED_OFFSET + DATA_FIELD] == LE32(w.page)
    requires f[TYPED_OFFSET + DATA_FIELD..TYPED_OFFSET + CRC_FIELD] == w.data
    requires f[TYPED_OFFSET + CRC_FIELD..] == LE32(w.crc)
    ensures f[TYPED_OFFSET..] == EncodeWrite(w)
  {
    var b := f[TYPED_OFFSET..];
    assert b == f[TYPED_OFFSET + PAGE_FIELD..TYPED_OFFSET + DATA_FIELD] + f[TYPED_OFFSET + DATA_FIELD..TYPED_OFFSET + CRC_FIELD] + f[TYPED_OFFSET + CRC_FIELD..];
  }
}
