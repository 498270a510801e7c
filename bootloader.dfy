/** The device bootloader of `bootloader/main.c`: the boot-mode decision
    at reset, the page-write command loop that runs when the BOOTMODE pin is
    low, and the loads of the application's vector table before the jump.

    The command loop never returns: it either keeps reading commands or
    halts for good after its first rejection. It is modelled over a finite
    sequence `input` of what successive `io_read` calls deliver; the model
    says how many of them the loop consumes and what it does to flash and to
    the serial line, as a trace of events. */
module Bootloader {

  import opened Bytes
  import opened Wire

  /** The microcontroller's CRC-32 engine: given an initial value and
      the 32-bit words to process, it yields the raw CRC register. Its
      algorithm is not part of this model. */
  type CrcEngine = (u32, seq<u32>) -> u32

  const CRC_INIT: u32 := 0xFFFF_FFFF

  /** The CRC the bootloader computes over a memory image: the engine is
      seeded with all ones, fed the image word by word, and its result is
      complemented. */
  function DeviceCrc(engine: CrcEngine, image: seq<byte>): u32
    requires |image| % 4 == 0
  {
    Complement32(engine(CRC_INIT, Words(image)))
  }

  /** The host's `crc32` and the device's engine compute the same CRC-32
      over every word-aligned buffer. */
  ghost predicate SameCrc(crc32: Crc32, engine: CrcEngine)
  {
    forall b: seq<byte> :: |b| % 4 == 0 ==> crc32(b) == DeviceCrc(engine, b)
  }

  /** Either CRC of a command image, which is word-aligned. */
  lemma SameCrcOnCommand(crc32: Crc32, engine: CrcEngine, b: seq<byte>)
    requires SameCrc(crc32, engine) && |b| == WRITE_CMD_SIZE
    ensures crc32(b) == DeviceCrc(engine, b)
  {
  }

  /** What the loop does that the outside world sees. */
  datatype Event =
    | FlashWrite(address: nat, data: seq<byte>)  // flash_write(&FLASH_0, address, data, |data|)
    | Respond(code: byte)                        // io_write of one response byte

  /** How the loop treats one `io_read` result. */
  datatype Verdict = Ignore | Reject | Accept(cmd: WriteCmd)

  /** The decision the loop body takes for the bytes `received` of one
      read: a short read is skipped, a page outside
      `[START_PAGE, NUM_PAGES)` or a CRC mismatch is rejected, anything
      else is accepted. The CRC is computed over the memory image of the
      command with its `crc` field set to zero. */
  function Examine(received: seq<byte>, engine: CrcEngine): Verdict
  {
    if |received| != WRITE_CMD_SIZE then Ignore
    else
      var cmd := DecodeWrite(received);
      if cmd.page < START_PAGE || cmd.page >= NUM_PAGES then Reject
      else if DeviceCrc(engine, Splice(received, CRC_FIELD, LE32(0))) != cmd.crc then Reject
      else Accept(cmd)
  }

  /** The outcome of the command loop: the events in order, whether it
      halted, and how many reads it performed. */
  datatype Session = Session(trace: seq<Event>, halted: bool, consumed: nat)

  /** The session `s` that follows `consumed` reads which produced the
      events `trace`. */
  function Then(trace: seq<Event>, consumed: nat, s: Session): Session
  {
    Session(trace + s.trace, s.halted, consumed + s.consumed)
  }

  /** The events for one accepted command: the page write, then the ack. */
  function Accepted(cmd: WriteCmd): seq<Event>
  {
    [FlashWrite(cmd.page * PAGE_SIZE, cmd.data), Respond(ACK)]
  }

  /** What the command loop does with the successive reads `input`. */
  function Run(input: seq<seq<byte>>, engine: CrcEngine): Session
    decreases |input|
  {
    if input == [] then Session([], false, 0)
    else
      match Examine(input[0], engine)
      case Ignore => Then([], 1, Run(input[1..], engine))
      case Reject => Session([Respond(NACK)], true, 1)
      case Accept(cmd) => Then(Accepted(cmd), 1, Run(input[1..], engine))
  }

  /** `run_flasher`: read a command, check its page and its CRC, write the
      page and acknowledge; on the first failure send the failure byte and
      stop. */
  method RunFlasher(input: seq<seq<byte>>, engine: CrcEngine)
    returns (trace: seq<Event>, halted: bool, consumed: nat)
    ensures Session(trace, halted, consumed) == Run(input, engine)
  {
    trace, halted, consumed := [], false, 0;
    while consumed < |input|
      invariant consumed <= |input|
      invariant Run(input, engine) == Then(trace, consumed, Run(input[consumed..], engine))
    {
      var received := input[consumed];
      RunUnfold(input, consumed, engine);
      consumed := consumed + 1;
      var verdict := CheckCommand(received, engine);
      if verdict.Ignore? {
        continue;
      }
      if verdict.Reject? {
        halted := true;
        break;
      }
      var cmd := verdict.cmd;
      trace := trace + [FlashWrite(cmd.page * PAGE_SIZE, cmd.data), Respond(ACK)];
    }
    if halted {
      trace := trace + [Respond(NACK)];
    }
  }

  /** The checks of one pass of `run_flasher` on the bytes `received` of
      one `io_read`: the read size, the page range, then the CRC over the
      command with its `crc` field zeroed. */
  method CheckCommand(received: seq<byte>, engine: CrcEngine) returns (verdict: Verdict)
    ensures verdict == Examine(received, engine)
  {
    if |received| != WRITE_CMD_SIZE {
      return Ignore;
    }
    var cmd := DecodeWrite(received);
    if cmd.page < START_PAGE || cmd.page >= NUM_PAGES {
      return Reject;
    }
    var crcFromCmd := cmd.crc;
    var zeroed := Splice(received, CRC_FIELD, LE32(0));  // cmd.crc = 0, in the struct's memory
    var calculatedCrc := engine(CRC_INIT, Words(zeroed));
    calculatedCrc := Complement32(calculatedCrc);
    if calculatedCrc != crcFromCmd {
      return Reject;
    }
    return Accept(cmd);
  }

  /** One step of `Run` from position `i` of the input. */
  lemma RunUnfold(input: seq<seq<byte>>, i: nat, engine: CrcEngine)
    requires i < |input|
    ensures Run(input[i..], engine) == match Examine(input[i], engine)
      case Ignore => Then([], 1, Run(input[i + 1..], engine))
      case Reject => Session([Respond(NACK)], true, 1)
      case Accept(cmd) => Then(Accepted(cmd), 1, Run(input[i + 1..], engine))
  {
    assert input[i..][0] == input[i];
    assert input[i..][1..] == input[i + 1..];
  }

  // ---------------------------------------------------------------------
  // Properties of one command

  /** A read of any length other than `sizeof(struct write_cmd)` is
      skipped: no event, and the loop reads again. */
  lemma ShortReadSkipped(received: seq<byte>, rest: seq<seq<byte>>, engine: CrcEngine)
    requires |received| != WRITE_CMD_SIZE
    ensures Run([received] + rest, engine) == Then([], 1, Run(rest, engine))
  {
    assert ([received] + rest)[1..] == rest;
  }

  /** A command for a page outside `[START_PAGE, NUM_PAGES)` is rejected
      whatever its CRC field holds and whichever engine is used. */
  lemma PageFenced(received: seq<byte>, engine: CrcEngine)
    requires |received| == WRITE_CMD_SIZE
    requires U32At(received, PAGE_FIELD) < START_PAGE || U32At(received, PAGE_FIELD) >= NUM_PAGES
    ensures Examine(received, engine) == Reject
  {
  }

  /** For a page inside the application region, the command is accepted
      exactly when its CRC field equals the device CRC of the same bytes
      with the CRC field zeroed; what is accepted is the command read. */
  lemma CrcChecked(received: seq<byte>, engine: CrcEngine)
    requires |received| == WRITE_CMD_SIZE
    requires START_PAGE <= U32At(received, PAGE_FIELD) < NUM_PAGES
    ensures Examine(received, engine).Accept?
        <==> U32At(received, CRC_FIELD) == DeviceCrc(engine, Splice(received, CRC_FIELD, [0, 0, 0, 0]))
    ensures Examine(received, engine) != Ignore
    ensures Examine(received, engine).Accept? ==> Examine(received, engine).cmd == DecodeWrite(received)
  {
  }

  // ---------------------------------------------------------------------
  // Properties of a whole session

  /** Every page write of a session lies in the application region
      `[APP_OFFSET, NUM_PAGES * PAGE_SIZE)`, is page aligned and writes
      exactly one page. */
  lemma {:induction false} WritesInApplicationRegion(input: seq<seq<byte>>, engine: CrcEngine)
    ensures forall e :: e in Run(input, engine).trace && e.FlashWrite? ==>
      && APP_OFFSET <= e.address
      && e.address + |e.data| <= NUM_PAGES * PAGE_SIZE
      && e.address % PAGE_SIZE == 0
      && |e.data| == PAGE_SIZE
    decreases |input|
  {
    if input != [] {
      WritesInApplicationRegion(input[1..], engine);
    }
  }

  /** The loop reads until its first rejection and not beyond: if it did
      not halt it consumed every read; if it halted, the last read it
      consumed is the only rejected one among those it consumed. */
  lemma {:induction false} ReadsUntilFirstRejection(input: seq<seq<byte>>, engine: CrcEngine)
    ensures var s := Run(input, engine);
      && s.consumed <= |input|
      && (!s.halted ==> s.consumed == |input|)
      && (s.halted ==> 0 < s.consumed && Examine(input[s.consumed - 1], engine) == Reject)
      && (forall j :: 0 <= j < s.consumed - 1 ==> Examine(input[j], engine) != Reject)
      && (!s.halted ==> forall j :: 0 <= j < |input| ==> Examine(input[j], engine) != Reject)
    decreases |input|
  {
    if input != [] && Examine(input[0], engine) != Reject {
      ReadsUntilFirstRejection(input[1..], engine);
      var s := Run(input, engine);
      var t := Run(input[1..], engine);
      assert s.consumed == t.consumed + 1 && s.halted == t.halted;
      forall j | 1 <= j < |input|
        ensures input[j] == input[1..][j - 1]
      {
      }
    }
  }

  /** Once halted, the loop input nothing more: appending further input
      leaves the session unchanged. */
  lemma {:induction false} HaltIsFinal(input: seq<seq<byte>>, more: seq<seq<byte>>, engine: CrcEngine)
    requires Run(input, engine).halted
    ensures Run(input + more, engine) == Run(input, engine)
    decreases |input|
  {
    assert input != [];
    assert (input + more)[0] == input[0];
    assert (input + more)[1..] == input[1..] + more;
    if Examine(input[0], engine) != Reject {
      HaltIsFinal(input[1..], more, engine);
    }
  }

  /** Number of page writes in a trace. */
  function WriteCount(t: seq<Event>): nat
  {
    if t == [] then 0 else (if t[0].FlashWrite? then 1 else 0) + WriteCount(t[1..])
  }

  /** Responses: one ack per page write, and the failure byte exactly once
      when and only when the loop halted; `flash_write`'s status never
      changes the response. */
  lemma {:induction false} OneResponsePerCommand(input: seq<seq<byte>>, engine: CrcEngine)
    ensures var s := Run(input, engine);
      && multiset(s.trace)[Respond(ACK)] == WriteCount(s.trace)
      && multiset(s.trace)[Respond(NACK)] == (if s.halted then 1 else 0)
    decreases |input|
  {
    if input != [] {
      var t := Run(input[1..], engine);
      OneResponsePerCommand(input[1..], engine);
      match Examine(input[0], engine)
      case Ignore =>
        assert [] + t.trace == t.trace;
      case Reject =>
      case Accept(cmd) =>
        var a := Accepted(cmd);
        var s := a + t.trace;
        assert s[1..][1..] == t.trace;
        assert WriteCount(s) == 1 + WriteCount(t.trace);
        assert multiset(s) == multiset(a) + multiset(t.trace);
    }
  }

  /** The failure byte, when sent, is the last event. */
  lemma {:induction false} NackIsLast(input: seq<seq<byte>>, engine: CrcEngine)
    ensures var s := Run(input, engine);
      s.halted ==> |s.trace| > 0 && s.trace[|s.trace| - 1] == Respond(NACK)
    decreases |input|
  {
    if input != [] {
      NackIsLast(input[1..], engine);
    }
  }

  /** In `t`, every page write is immediately followed by an ack. */
  ghost predicate AcksFollowWrites(t: seq<Event>)
  {
    forall k :: 0 <= k < |t| && t[k].FlashWrite? ==> k + 1 < |t| && t[k + 1] == Respond(ACK)
  }

  /** The events of an accepted command keep the property. */
  lemma AcceptedKeepsAcks(cmd: WriteCmd, t: seq<Event>)
    requires AcksFollowWrites(t)
    ensures AcksFollowWrites(Accepted(cmd) + t)
  {
    var s := Accepted(cmd) + t;
    forall k | 0 <= k < |s| && s[k].FlashWrite?
      ensures k + 1 < |s| && s[k + 1] == Respond(ACK)
    {
      if k >= 2 {
        assert s[k] == t[k - 2];
        assert s[k + 1] == t[k - 1];
      }
    }
  }

  /** Every page write is immediately followed by its ack. */
  lemma {:induction false} AckFollowsEachWrite(input: seq<seq<byte>>, engine: CrcEngine)
    ensures AcksFollowWrites(Run(input, engine).trace)
    decreases |input|
  {
    if input != [] {
      AckFollowsEachWrite(input[1..], engine);
      var v := Examine(input[0], engine);
      if v.Accept? {
        AcceptedKeepsAcks(v.cmd, Run(input[1..], engine).trace);
      } else if v.Ignore? {
        assert Run(input, engine).trace == Run(input[1..], engine).trace;
      }
    }
  }

  // ---------------------------------------------------------------------
  // Flash contents

  /** Size of the device's flash: every address the protocol can form. */
  const FLASH_SIZE: nat := NUM_PAGES * PAGE_SIZE

  /** The flash contents after the page writes of `t`, in order. */
  function ApplyWrites(flash: seq<byte>, t: seq<Event>): (r: seq<byte>)
    requires forall e :: e in t && e.FlashWrite? ==> e.address + |e.data| <= |flash|
    ensures |r| == |flash|
    decreases |t|
  {
    if t == [] then flash
    else
      var f := if t[0].FlashWrite? then Splice(flash, t[0].address, t[0].data) else flash;
      ApplyWrites(f, t[1..])
  }

  /** The bootloader's own flash, below `APP_OFFSET`, comes out of any
      session unchanged. */
  lemma {:induction false} ApplyWritesKeepsBootloader(flash: seq<byte>, t: seq<Event>)
    requires forall e :: e in t && e.FlashWrite? ==>
      APP_OFFSET <= e.address && e.address + |e.data| <= |flash|
    requires APP_OFFSET <= |flash|
    ensures ApplyWrites(flash, t)[..APP_OFFSET] == flash[..APP_OFFSET]
    decreases |t|
  {
    if t != [] {
      var f := if t[0].FlashWrite? then Splice(flash, t[0].address, t[0].data) else flash;
      assert f[..APP_OFFSET] == flash[..APP_OFFSET] by {
        if t[0].FlashWrite? {
          assert t[0] in t;
        }
      }
      forall e | e in t[1..] ensures e in t { }
      ApplyWritesKeepsBootloader(f, t[1..]);
    }
  }

  lemma SessionKeepsBootloader(flash: seq<byte>, input: seq<seq<byte>>, engine: CrcEngine)
    requires |flash| == FLASH_SIZE
    ensures var t := Run(input, engine).trace;
      (forall e :: e in t && e.FlashWrite? ==> e.address + |e.data| <= |flash|) &&
      ApplyWrites(flash, t)[..APP_OFFSET] == flash[..APP_OFFSET]
  {
    WritesInApplicationRegion(input, engine);
    ApplyWritesKeepsBootloader(flash, Run(input, engine).trace);
  }

  // ---------------------------------------------------------------------
  // Boot decision and the application's vector table

  /** Where `main` goes after its set-up. */
  datatype BootPath =
    | Flasher(session: Session)
    | Application(stack: u32, reset: u32)

  /** `run_application` before the jump: the initial stack pointer is the
      word at `APP_OFFSET`, the entry point the word after it. */
  function ApplicationVectors(flash: seq<byte>): (r: (u32, u32))
    requires |flash| == FLASH_SIZE
  {
    (U32At(flash, APP_OFFSET), U32At(flash, APP_OFFSET + 4))
  }

  /** `main`: a low BOOTMODE pin selects the command loop, a high one the
      application. */
  function Boot(bootModePin: bool, flash: seq<byte>, input: seq<seq<byte>>, engine: CrcEngine): (r: BootPath)
    requires |flash| == FLASH_SIZE
    ensures !bootModePin <==> r.Flasher?
    ensures r.Flasher? ==> r.session == Run(input, engine)
    ensures r.Application? ==> (r.stack, r.reset) == ApplicationVectors(flash)
  {
    if !bootModePin then Flasher(Run(input, engine))
    else
      var (stack, reset) := ApplicationVectors(flash);
      Application(stack, reset)
  }

  /** An accepted write of page `START_PAGE` supplies the vector table the
      next application boot input: its first two words. */
  lemma VectorsFromFirstApplicationPage(flash: seq<byte>, cmd: WriteCmd)
    requires |flash| == FLASH_SIZE
    requires cmd.page == START_PAGE
    ensures var f := ApplyWrites(flash, Accepted(cmd));
      |f| == FLASH_SIZE && ApplicationVectors(f) == (U32At(cmd.data, 0), U32At(cmd.data, 4))
  {
    var a := Accepted(cmd);
    var f1 := Splice(flash, APP_OFFSET, cmd.data);
    assert a[1..][1..] == [];
    assert ApplyWrites(flash, a) == ApplyWrites(f1, a[1..]);
    assert ApplyWrites(f1, a[1..]) == ApplyWrites(f1, a[1..][1..]);
    var f := ApplyWrites(flash, a);
    assert f == f1;
    U32AtSlice(f, APP_OFFSET);
    U32AtSlice(f, APP_OFFSET + 4);
    U32AtSlice(cmd.data, 0);
    U32AtSlice(cmd.data, 4);
  }
}
