/** What a run of the flasher (module Flasher) promises: when it sends
    nothing, how long the declared image is, how many write commands it
    sends and what each frame decodes to, and that it stops at the first
    exchange that fails. */
module FlasherProperties {

  import opened Bytes
  import opened Wrappers
  import opened Wire
  import opened FlasherProtocol
  import opened Flasher

  function Min(a: nat, b: nat): nat
  {
    if a < b then a else b
  }

  // ---------------------------------------------------------------------
  // Before the first frame

  /** The arguments are well formed, the port opened and the file opened. */
  ghost predicate Opened(args: seq<string>, h: Host)
  {
    3 <= |args| <= 4 && h.openPort(args[1]) && h.openFile(args[2]).Some?
  }

  /** A usage error, a port that does not open or a file that does not
      open fails the run before any frame is sent; otherwise at least the
      start frame is sent. */
  lemma NothingSentUnlessOpened(args: seq<string>, h: Host)
    ensures !Opened(args, h) ==> Flashing(args, h) == Outcome(EXIT_FAILURE, [])
    ensures Opened(args, h) ==>
      Flashing(args, h) == Transfer(h.openFile(args[2]).value, VersionArg(args, h.atoi), h) &&
      |Flashing(args, h).frames| >= 1
  {
  }

  /** The version is 0 unless a fourth argument is given. */
  lemma VersionDefaultsToZero(args: seq<string>, atoi: string -> int)
    ensures |args| != 4 ==> VersionArg(args, atoi) == 0
    ensures |args| == 4 ==> VersionArg(args, atoi) == atoi(args[3]) % 0x1_0000
  {
  }

  /** The declared length is the least multiple of the page size that is
      at least the file size. */
  lemma PaddedLengthIsLeastMultiple(size: nat)
    ensures PaddedLength(size) % PAGE_SIZE == 0
    ensures size <= PaddedLength(size) < size + PAGE_SIZE
    ensures PaddedLength(size) == size <==> size % PAGE_SIZE == 0
  {
    if size % PAGE_SIZE > 0 {
      var q := size / PAGE_SIZE;
      assert size == q * PAGE_SIZE + size % PAGE_SIZE;
      assert PaddedLength(size) == (q + 1) * PAGE_SIZE;
    }
  }

  // ---------------------------------------------------------------------
  // The page loop

  /** When every write is acked, the loop sends one command per page the
      file starts, plus one when the file ends exactly on a page boundary,
      but never more than the protocol's pages. */
  lemma {:induction false} PagesSentAllAcked(left: nat, link: nat -> Exchange, j: nat)
    requires j <= PAGE_COUNT
    requires forall k :: j < k <= PAGE_COUNT ==> Acked(link(k))
    ensures PagesSent(left, link, j) == Pages(Min(j + left / PAGE_SIZE + 1, PAGE_COUNT), true)
    decreases left
  {
    if j < PAGE_COUNT && left >= PAGE_SIZE {
      assert Acked(link(j + 1));
      PagesSentAllAcked(left - PAGE_SIZE, link, j + 1);
      assert (left - PAGE_SIZE) / PAGE_SIZE + 1 == left / PAGE_SIZE;
    }
  }

  /** The loop completes exactly when every write it sent was acked; when
      it does not, the last write it sent is the one that was not. */
  lemma {:induction false} PagesSentCompleted(left: nat, link: nat -> Exchange, j: nat)
    requires j <= PAGE_COUNT
    ensures var r := PagesSent(left, link, j);
      (r.completed <==> forall k :: j < k <= r.count ==> Acked(link(k))) &&
      (!r.completed ==> !Acked(link(r.count)) && forall k :: j < k < r.count ==> Acked(link(k)))
    decreases left
  {
    if j < PAGE_COUNT && Acked(link(j + 1)) && left >= PAGE_SIZE {
      PagesSentCompleted(left - PAGE_SIZE, link, j + 1);
    }
  }

  /** The number of write commands of a run whose writes are all acked:
      `|image| / PAGE_SIZE + 1` pages, so a file that ends on a page
      boundary gets a trailing page, and a file longer than the
      `PAGE_COUNT` pages the protocol addresses is cut short. */
  lemma PageCount(image: seq<byte>, link: nat -> Exchange)
    requires forall k :: 0 < k <= PAGE_COUNT ==> Acked(link(k))
    ensures PagesSent(|image|, link, 0) == Pages(Min(|image| / PAGE_SIZE + 1, PAGE_COUNT), true)
  {
    PagesSentAllAcked(|image|, link, 0);
  }

  /** Byte `i` of the data of the `j`-th write command: the file byte at
      offset `j * PAGE_SIZE + i`, or zero past the end of the file. */
  lemma PageCmdFields(image: seq<byte>, j: nat, crc32: Crc32)
    requires j < PAGE_COUNT && j * PAGE_SIZE <= |image|
    ensures var c := PageCmd(image, j, crc32);
      && c.page == START_PAGE + j
      && (forall i :: 0 <= i < PAGE_SIZE ==>
            c.data[i] == if j * PAGE_SIZE + i < |image| then image[j * PAGE_SIZE + i] else 0)
      && c.crc == crc32(EncodeWrite(c.(crc := 0)))
  {
    var chunk := PageChunk(image, j);
    forall i | 0 <= i < PAGE_SIZE
      ensures PadPage(chunk)[i] == if j * PAGE_SIZE + i < |image| then image[j * PAGE_SIZE + i] else 0
    {
      if i < |chunk| {
        assert PadPage(chunk)[i] == chunk[i];
      }
    }
  }

  /** An image that ends exactly on a page boundary is followed by a write
      command of zeros for the next page. */
  lemma TrailingZeroPage(image: seq<byte>, crc32: Crc32)
    requires |image| % PAGE_SIZE == 0 && |image| / PAGE_SIZE < PAGE_COUNT
    ensures |image| / PAGE_SIZE * PAGE_SIZE == |image|
    ensures PageCmd(image, |image| / PAGE_SIZE, crc32).data == Zeros(PAGE_SIZE)
  {
    var j := |image| / PAGE_SIZE;
    assert j * PAGE_SIZE == |image|;
    assert PageChunk(image, j) == [];
  }

  // ---------------------------------------------------------------------
  // The frames of a run

  /** The frame of the `j`-th page decodes as its write command, and its
      bytes after the tag are the image of that command. */
  lemma PageFrameDecodes(image: seq<byte>, j: nat, crc32: Crc32)
    requires j < PAGE_COUNT && j * PAGE_SIZE <= |image|
    ensures Decode(PageFrame(image, j, crc32)) == Some(Write(PageCmd(image, j, crc32)))
    ensures PageFrame(image, j, crc32)[TYPED_OFFSET..] == EncodeWrite(PageCmd(image, j, crc32))
  {
    var f := PageFrame(image, j, crc32);
    var c := PageCmd(image, j, crc32);
    StoreWriteBytes(f, c, f);
    DecodeStore(f, Write(c));
  }

  /** Setting the stop tag on any frame makes it decode as the stop
      command made of the first two union bytes. */
  lemma SetStopDecodes(f: Frame)
    ensures Decode(SetType(f, StopType)) == Some(Stop(StopCmd(f[TYPED_OFFSET], f[TYPED_OFFSET + 1])))
  {
    SetTypeTag(f, StopType);
  }

  /** The stop frame reuses the union of the last write frame: its two
      bytes are the low bytes of the last page number. */
  lemma StopFrameDecodes(image: seq<byte>, j: nat, crc32: Crc32)
    requires j < PAGE_COUNT && j * PAGE_SIZE <= |image|
    ensures Decode(SetType(PageFrame(image, j, crc32), StopType)) == Some(Stop(StopCmd(START_PAGE + j, 0)))
  {
    var f := PageFrame(image, j, crc32);
    var c := PageCmd(image, j, crc32);
    PageFrameDecodes(image, j, crc32);
    EncodeWriteFields(c);
    assert f[TYPED_OFFSET..TYPED_OFFSET + 4] == LE32(START_PAGE + j);
    SetStopDecodes(f);
  }

  /** After the start frame, the `k`-th frame of the page loop decodes as
      the write command of page `k - 1`. */
  lemma WriteFramesDecode(image: seq<byte>, crc32: Crc32, start: Frame, n: nat)
    requires n <= PAGE_COUNT && (n == 0 || (n - 1) * PAGE_SIZE <= |image|)
    ensures forall k :: 1 <= k <= n ==>
      (k - 1) * PAGE_SIZE <= |image| &&
      Decode(WriteFrames(image, crc32, start, n)[k]) == Some(Write(PageCmd(image, k - 1, crc32)))
  {
    var frames := WriteFrames(image, crc32, start, n);
    forall k | 1 <= k <= n
      ensures (k - 1) * PAGE_SIZE <= |image|
      ensures Decode(frames[k]) == Some(Write(PageCmd(image, k - 1, crc32)))
    {
      assert (k - 1) * PAGE_SIZE <= (n - 1) * PAGE_SIZE;
      assert frames[k] == PageFrame(image, k - 1, crc32);
      PageFrameDecodes(image, k - 1, crc32);
    }
  }

  /** The stop and boot phase appends the stop frame, built on `last`,
      and then, if the stop exchange went through, the boot frame. */
  lemma StopAndBootFrames(h: Host, frames: seq<Frame>, last: Frame)
    ensures var o := StopAndBoot(h, frames, last);
      && |frames| < |o.frames| <= |frames| + 2
      && o.frames[..|frames|] == frames
      && o.frames[|frames|] == SetType(last, StopType)
      && (|o.frames| == |frames| + 2 ==> Decode(o.frames[|frames| + 1]) == Some(Boot(BootCmd(0x42))))
  {
    var stop := SetType(last, StopType);
    DecodeStore(stop, Boot(BootCmd(0x42)));
  }

  /** The frames of a run: the start frame alone when its exchange fails,
      otherwise the frames of the page loop followed, when the loop
      completed, by those of the stop and boot phase. */
  lemma TransferShape(image: seq<byte>, version: u16, h: Host)
    ensures var o := Transfer(image, version, h);
      var p := PagesSent(|image|, h.link, 0);
      var start := StartFrame(h.initial, |image|, version);
      && 1 <= |o.frames| <= p.count + 3
      && (|o.frames| == 1 || p.count + 1 <= |o.frames|)
      && o.frames[0] == start
      && (|o.frames| > 1 ==> o.frames[..p.count + 1] == WriteFrames(image, h.crc32, start, p.count))
      && (|o.frames| > p.count + 1 ==>
            o.frames[p.count + 1] == SetType(PageFrame(image, p.count - 1, h.crc32), StopType))
      && (|o.frames| > p.count + 2 ==> o.frames[p.count + 2] == Store(o.frames[p.count + 1], Boot(BootCmd(0x42))))
  {
    var p := PagesSent(|image|, h.link, 0);
    var start := StartFrame(h.initial, |image|, version);
    if Answered(h.link(0)) && p.completed {
      var frames := WriteFrames(image, h.crc32, start, p.count);
      assert frames[p.count] == PageFrame(image, p.count - 1, h.crc32);
      StopAndBootFrames(h, frames, frames[p.count]);
    }
  }

  /** What the frames of a run decode to, when laid out as
      `TransferShape` describes: after the start frame, the write command
      of every page in order, then the stop and the boot command. */
  lemma ShapedFramesDecode(frames: seq<Frame>, image: seq<byte>, crc32: Crc32, start: Frame, n: nat)
    requires 1 <= n <= PAGE_COUNT && (n - 1) * PAGE_SIZE <= |image|
    requires 1 <= |frames| <= n + 3 && frames[0] == start && (|frames| == 1 || n + 1 <= |frames|)
    requires |frames| > 1 ==> frames[..n + 1] == WriteFrames(image, crc32, start, n)
    requires |frames| > n + 1 ==> frames[n + 1] == SetType(PageFrame(image, n - 1, crc32), StopType)
    requires |frames| > n + 2 ==> frames[n + 2] == Store(frames[n + 1], Boot(BootCmd(0x42)))
    ensures forall k :: 1 <= k < |frames| && k <= n ==>
      (k - 1) * PAGE_SIZE <= |image| && Decode(frames[k]) == Some(Write(PageCmd(image, k - 1, crc32)))
    ensures n + 1 < |frames| ==> Decode(frames[n + 1]) == Some(Stop(StopCmd(START_PAGE + n - 1, 0)))
    ensures n + 2 < |frames| ==> Decode(frames[n + 2]) == Some(Boot(BootCmd(0x42)))
  {
    if |frames| > 1 {
      var w := WriteFrames(image, crc32, start, n);
      WriteFramesDecode(image, crc32, start, n);
      forall k | 1 <= k < |frames| && k <= n
        ensures frames[k] == w[k]
      {
        assert frames[k] == frames[..n + 1][k];
      }
    }
    if n + 1 < |frames| {
      StopFrameDecodes(image, n - 1, crc32);
    }
    if n + 2 < |frames| {
      DecodeStore(frames[n + 1], Boot(BootCmd(0x42)));
    }
  }

  /** The start frame decodes as the start command with the padded length,
      converted to `uint32_t`, and the version. */
  lemma StartFrameDecodes(initial: Frame, size: nat, version: u16)
    ensures Decode(StartFrame(initial, size, version)) == Some(Start(StartCmd(ToU32(PaddedLength(size)), version)))
  {
    DecodeStore(initial, Start(StartCmd(ToU32(PaddedLength(size)), version)));
  }

  // ---------------------------------------------------------------------
  // The exchanges of a run

  /** The `k`-th exchange of a run whose page loop sent `n` writes went
      through: the start and the stop command only need a response, every
      write and the boot command need the ack. */
  ghost predicate WentThrough(link: nat -> Exchange, n: nat, k: nat)
  {
    if k == 0 || k == n + 1 then Answered(link(k)) else Acked(link(k))
  }

  /** The run stops at the first exchange that does not go through and
      then fails; it succeeds exactly when all `n + 3` exchanges went
      through. */
  lemma TransferStopsAtFirstFailure(image: seq<byte>, version: u16, h: Host)
    ensures var o := Transfer(image, version, h);
      var n := PagesSent(|image|, h.link, 0).count;
      && 1 <= |o.frames| <= n + 3
      && (forall k :: 0 <= k < |o.frames| - 1 ==> WentThrough(h.link, n, k))
      && (o.exit == EXIT_SUCCESS <==> |o.frames| == n + 3 && WentThrough(h.link, n, n + 2))
      && (o.exit != EXIT_SUCCESS ==> o.exit == EXIT_FAILURE && !WentThrough(h.link, n, |o.frames| - 1))
  {
    var p := PagesSent(|image|, h.link, 0);
    PagesSentCompleted(|image|, h.link, 0);
  }
}
