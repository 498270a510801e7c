# sam-fd: flasher, bootloader and bare-metal runtime, in Dafny

This project models the firmware-update path of sam-fd, a SAMC21 board, together
with the small pieces of its bare-metal runtime. It also states and proves what
these parts promise. The pieces are:

- **The host flasher** (`software/flasher/flasher.c`, `software/flasher/protocol.h`).
  It parses `flasher <port> <file> [version]` and opens the serial port and the
  image file. It sends a start command, then one write command per 256-byte page
  of the image. Each write command is zero-padded and carries a CRC-32. A stop
  command and a boot command follow. Each command waits for the device's one-byte
  response. Modules: `FlasherProtocol` (the 268-byte tagged `flasher_cmd` frame),
  `Flasher` (the program, as methods proved against the specification function
  `Flashing`), `FlasherProperties`.
- **The device bootloader** (`software/bootloader/main.c`, `software/bootloader/protocol.h`).
  The BOOTMODE pin chooses between the command loop and the application. The loop
  skips short reads. It rejects a page outside `[16, 256)` and a CRC mismatch,
  writes an accepted page and answers `0x42`. On the first rejection it answers
  `0xFF` and hangs. Booting loads the application's stack pointer and reset
  vector from `0x1000`. Modules: `Wire` (the constants and `struct write_cmd`
  that both sides share), `BootloaderProtocol`, `Bootloader`, and
  `Compatibility`, which shows that the bootloader accepts every page command the
  flasher builds.
- **The UART transmit ring buffer** (`software/baremetal/src/uart.c`), module `Uart`:
  `uart_write_char` and the transmit-complete interrupt, proved never to lose or
  reorder an accepted character: each is either transmitted or still queued,
  oldest first.
- **The LED driver** (`software/led.c`, `software/application/led.h`), module `Leds`:
  `register_led`, `led_cycle` over the registry of LED objects, and `flash_led`.
- **The system start-up and tick** (`software/baremetal/src/system.c`), module
  `System`: the `reset_handler` loops that copy `.data` and clear `.bss`, and the
  staggered 1/10/100/1000 ms scheduler of `sys_tick_handler`.
- **`optional<T>`** (`software/baremetal/src/optional.cpp`), module `Optionals`.

Modelling choices:

- A C struct that goes onto the wire is a memory image, `seq<byte>`, in
  little-endian order (module `Bytes`). Fixed-width integers are subset types.
  C's wrap-around is written out: `ToU32`, `ToU16` and `Inc32`.
- The CRC-32 algorithm is a parameter on both sides. The host's `crc32` is a
  function of the bytes. The device's CRC engine is a function from a seed and
  the 32-bit words. Agreement of the two is the predicate `Bootloader.SameCrc`.
  The cross-side lemmas require it.
- I/O is a parameter or a result. For the flasher, the OS calls are the `Host`
  value and the frames handed to `serial_write` are the result. For the
  bootloader, the successive `io_read` results are the input sequence, and the
  flash writes and response bytes are a trace of events. The LED driver returns
  its `gpio_set_pin_level` calls. For the UART, the data register is the
  sequence of transmitted characters, and DRE and TXC are parameters.
- State that the C code updates in place is a class:
  - `Uart.UartTx`, whose buffer is an `array<byte>`;
  - `Leds.Led` and `Leds.LedDriver`, whose registry is an `array<Led?>` of
    references to the application's own LEDs;
  - `System.SysTick`, which holds the `static` counters;
  - `Optionals.Optional`.
- The start-up loops work on an `array<u32>` of RAM words.

Behaviours of the code worth noting:

- A file whose size is an exact multiple of 256 gets one more write command
  of zeros (`FlasherProperties.TrailingZeroPage`). A file longer than the 240
  pages from page 16 to page 255 is cut short without an error
  (`FlasherProperties.PageCount`).
- The flasher does not check the responses to the start and stop commands. It
  only needs some byte to arrive. It checks for `0x42` only after a write and
  after the boot command (`FlasherProperties.TransferStopsAtFirstFailure`).
- The flasher sends 268-byte frames: a 4-byte tag followed by the
  `struct write_cmd` union. The bootloader in this repository reads bare 264-byte
  `struct write_cmd`s, and its loop knows no start, stop or boot command.
  `Compatibility` therefore relates the bytes after the tag to what the
  bootloader accepts (`Compatibility.FrameIsTaggedCommand`,
  `Compatibility.PageAccepted`). It does not claim the two programs
  interoperate as written.
- The stop frame only sets the tag, so its two payload bytes are the low bytes
  of the last page number (`FlasherProperties.StopFrameDecodes`).

## Model

| member | source | states |
|---|---|---|
| Bytes.ToU32 | software/flasher/flasher.c:75 | storing a `long` into the `uint32_t` length keeps a value that fits and otherwise a value congruent to it modulo 2^32 |
| Bytes.ToU16 | software/flasher/flasher.c:44 | storing `atoi`'s `int` into the `uint16_t` version keeps a value that fits and otherwise a value congruent to it modulo 2^16 |
| Bytes.U32RoundTrip | software/flasher/protocol.h:19-24 | loading a stored `uint32_t` field gives the value back |
| Bytes.LE32RoundTrip | software/flasher/protocol.h:19-24 | storing a loaded word gives the same four bytes back |
| Bytes.LE32Injective | software/flasher/protocol.h:19-24 | two words are equal exactly when their memory images are |
| Bytes.U16RoundTrip | software/flasher/protocol.h:12-16 | loading a stored `uint16_t` field gives the value back |
| Bytes.Splice | software/bootloader/main.c:72 | a store into a struct changes exactly the bytes of that field, which then hold the stored bytes |
| Bytes.Zeros | software/flasher/flasher.c:103-104 | `memset(p, 0, n)` writes `n` zero bytes |
| Bytes.Words | software/bootloader/main.c:75-76 | the engine reads `sizeof(struct write_cmd) / 4` words |
| Wire.EncodeWriteFields | software/bootloader/main.c:36-42 | the page number, the data and the crc sit at offsets 0, 4 and 260 of `struct write_cmd` |
| Wire.ZeroCrcField | software/bootloader/main.c:71-72 | zeroing the crc field in memory gives the image of the same command with crc 0 |
| Wire.DecodeEncodeWrite | software/bootloader/main.c:36-42 | reading back a stored `struct write_cmd` gives the same command |
| Wire.EncodeDecodeWrite | software/bootloader/main.c:54-58 | every 264-byte read is the image of exactly the command it decodes to |
| Wire.LayoutConstants | software/bootloader/main.c:3-6 | `START_PAGE` is 16, page 16 starts at `APP_OFFSET`, the command is 264 bytes or 66 words, and 256 pages span 64 KiB |
| FlasherProtocol.TypeOfTag | software/flasher/protocol.h:39-45 | a recognised tag value is the tag of the command found |
| FlasherProtocol.TagsDistinct | software/flasher/protocol.h:39-45 | the four tag values are pairwise distinct, and each is recognised as its own command |
| FlasherProtocol.UnionSizedToLargest | software/flasher/protocol.h:47-57 | every variant fits in the union, the largest fills it, and a frame is 268 bytes |
| FlasherProtocol.SetType | software/flasher/protocol.h:49 | `cmd.type = t` writes the tag and leaves the union untouched |
| FlasherProtocol.SetTypeTag | software/flasher/protocol.h:49 | after `cmd.type = t`, the tag reads back as `t` |
| FlasherProtocol.Store | software/flasher/protocol.h:47-57 | storing a variant leaves the union bytes after it unchanged |
| FlasherProtocol.StoreWriteBytes | software/flasher/protocol.h:47-57 | a frame with the write tag and a command's image is that command stored, whatever the frame held before |
| FlasherProtocol.StoreTag | software/flasher/protocol.h:47-57 | storing a command leaves its tag in the first word |
| FlasherProtocol.DecodeStore | software/flasher/protocol.h:47-57 | storing any command into any frame and decoding gives the command back |
| BootloaderProtocol.TypeOfTag | software/bootloader/protocol.h:25-29 | a recognised tag value is the tag of the command found |
| BootloaderProtocol.OnlyTwoTags | software/bootloader/protocol.h:25-29 | exactly `0x42` and `0x69` are tags, and they are distinct |
| BootloaderProtocol.DecodeStore | software/bootloader/protocol.h:31-39 | storing a write or boot command into any frame and decoding gives it back |
| Bootloader.SameCrcOnCommand | software/bootloader/main.c:74-77 | when the host and device CRCs agree, they agree on every command image |
| Bootloader.RunFlasher | software/bootloader/main.c:44-101 | the command loop's events, halt flag and number of reads are those of the specification `Run` |
| Bootloader.CheckCommand | software/bootloader/main.c:54-83 | one loop pass's verdict on a read is `Examine`: skip, reject or accept |
| Bootloader.RunUnfold | software/bootloader/main.c:51-90 | from any position, the loop handles one read and then the rest |
| Bootloader.ShortReadSkipped | software/bootloader/main.c:54-58 | a read of the wrong size gives no event and the loop reads again |
| Bootloader.PageFenced | software/bootloader/main.c:61-67 | a page outside `[16, 256)` is rejected whatever the crc field holds |
| Bootloader.CrcChecked | software/bootloader/main.c:69-83 | for a page in range, the command is accepted if and only if its crc equals the device CRC of the image with the crc zeroed; what is accepted is the command read |
| Bootloader.WritesInApplicationRegion | software/bootloader/main.c:60-86 | every flash write is one whole, page-aligned page between `APP_OFFSET` and the end of flash |
| Bootloader.ReadsUntilFirstRejection | software/bootloader/main.c:51-100 | the loop consumes every read unless one is rejected; it halts right after the first rejection, and none before it was rejected |
| Bootloader.HaltIsFinal | software/bootloader/main.c:97-100 | after the failure, further input changes nothing |
| Bootloader.OneResponsePerCommand | software/bootloader/main.c:85-95 | there is one ack per page write, and the failure byte appears once exactly when the loop halted |
| Bootloader.NackIsLast | software/bootloader/main.c:92-100 | the failure byte is the last event |
| Bootloader.AcceptedKeepsAcks | software/bootloader/main.c:85-89 | the events of one accepted command keep every write followed by its ack |
| Bootloader.AckFollowsEachWrite | software/bootloader/main.c:85-89 | every page write is immediately followed by the ack |
| Bootloader.ApplyWrites | software/bootloader/main.c:86 | page writes keep the size of flash |
| Bootloader.ApplyWritesKeepsBootloader | software/bootloader/main.c:61-67 | writes at or above `APP_OFFSET` leave the bootloader's flash unchanged |
| Bootloader.SessionKeepsBootloader | software/bootloader/main.c:44-101 | no session can change the flash below `APP_OFFSET` |
| Bootloader.Boot | software/bootloader/main.c:23-33 | a low BOOTMODE pin runs the command loop; a high one jumps to the application with the words at `0x1000` and `0x1004` |
| Bootloader.VectorsFromFirstApplicationPage | software/bootloader/main.c:103-108 | after page 16 is written, the application's stack pointer and reset vector are that page's first two words |
| Flasher.PageChunk | software/flasher/flasher.c:98 | `fread` delivers at most one page |
| Flasher.PagesSent | software/flasher/flasher.c:94-142 | the page loop sends at least one page and never more than the 240 pages the protocol addresses, and only pages the file starts |
| Flasher.WriteFrames | software/flasher/flasher.c:94-142 | the frames are the start frame followed by one frame per page sent |
| Flasher.WriteFramesNext | software/flasher/flasher.c:114 | sending one more page appends that page's frame |
| Flasher.Flash | software/flasher/flasher.c:10-197 | the exit code and the frames of `main` are those of the specification `Flashing` |
| Flasher.SendImage | software/flasher/flasher.c:62-182 | once the port and the file are open, `main` does what `Transfer` says |
| Flasher.SendStopAndBoot | software/flasher/flasher.c:144-182 | the stop frame is built on the last frame, then the boot frame is sent, with the exit code of `StopAndBoot` |
| Flasher.SendPages | software/flasher/flasher.c:94-142 | the page loop sends exactly the frames of `PagesSent` and completes exactly when it does |
| Flasher.SendPage | software/flasher/flasher.c:96-132 | one pass sends the next page's frame and reports the ack and the bytes read, and the loop goes on exactly after an ack of a full page |
| Flasher.FillPage | software/flasher/flasher.c:96-112 | the filled frame is the page's frame, whatever the buffer held before |
| Flasher.ReadPage | software/flasher/flasher.c:96-105 | the data field holds the file bytes of the page, zero-padded, and the read is short exactly at the end of the file |
| Flasher.SealPage | software/flasher/flasher.c:107-112 | the crc stored is `crc32` of the command with its crc field zero |
| FlasherProperties.NothingSentUnlessOpened | software/flasher/flasher.c:27-60 | a usage error, a port failure or a file failure exits with failure before any frame; otherwise the start frame is sent |
| FlasherProperties.VersionDefaultsToZero | software/flasher/flasher.c:40-45 | the version is 0 without a fourth argument, and otherwise `atoi` of it modulo 2^16 |
| FlasherProperties.PaddedLengthIsLeastMultiple | software/flasher/flasher.c:66-71 | the declared length is the least multiple of 256 that is not below the file size |
| FlasherProperties.PagesSentAllAcked | software/flasher/flasher.c:94-142 | when every write is acked, the loop sends `left / 256 + 1` more pages, at most up to the last page |
| FlasherProperties.PagesSentCompleted | software/flasher/flasher.c:126-132 | the loop completes if and only if every write was acked; otherwise the last write sent is the unacked one |
| FlasherProperties.PageCount | software/flasher/flasher.c:94-142 | with every write acked, `min(size / 256 + 1, 240)` write commands are sent |
| FlasherProperties.PageCmdFields | software/flasher/flasher.c:96-112 | write command `j` is for page `16 + j`, byte `i` is file byte `256 j + i` or zero past the end, and its crc covers the command with crc zero |
| FlasherProperties.TrailingZeroPage | software/flasher/flasher.c:96-141 | a file that ends on a page boundary is followed by a write command of zeros |
| FlasherProperties.PageFrameDecodes | software/flasher/flasher.c:107-114 | a page frame decodes as its write command |
| FlasherProperties.SetStopDecodes | software/flasher/flasher.c:145 | setting the stop tag makes any frame decode as a stop command of its first two union bytes |
| FlasherProperties.StopFrameDecodes | software/flasher/flasher.c:144-146 | the stop frame carries the low bytes of the last page number |
| FlasherProperties.WriteFramesDecode | software/flasher/flasher.c:94-118 | after the start frame, frame `k` decodes as the write command of page `k - 1` |
| FlasherProperties.StopAndBootFrames | software/flasher/flasher.c:144-168 | the stop frame is appended, then the boot frame with mode `0x42` if the stop exchange went through |
| FlasherProperties.TransferShape | software/flasher/flasher.c:73-168 | a run's frames are the start frame, the page frames, then the stop and boot frames, each sent only after the exchanges before it |
| FlasherProperties.ShapedFramesDecode | software/flasher/flasher.c:73-168 | the frames decode, in order, as start, the page writes, stop and boot |
| FlasherProperties.StartFrameDecodes | software/flasher/flasher.c:73-77 | the start frame decodes as the padded length, modulo 2^32, and the version |
| FlasherProperties.TransferStopsAtFirstFailure | software/flasher/flasher.c:77-182 | the run stops at the first exchange that fails and then exits with failure; it succeeds if and only if all `n + 3` exchanges went through |
| Compatibility.ExamineAccepts | software/bootloader/main.c:60-83 | a full read whose page is in range and whose crc matches is accepted as the command read |
| Compatibility.SealedAccepted | software/bootloader/main.c:69-83 | a command whose crc field holds the host CRC of its crc-zeroed image is accepted as it is, when the CRCs agree |
| Compatibility.PageAccepted | software/flasher/flasher.c:107-112 | the bootloader accepts every page command the flasher builds, unchanged |
| Compatibility.FrameIsTaggedCommand | software/flasher/flasher.c:114 | a flasher frame is the 4-byte tag followed by the 264-byte command the bootloader reads |
| Uart.Next | software/baremetal/src/uart.c:113-114 | the index advances modulo `BUFLEN` |
| Uart.Distance | software/baremetal/src/uart.c:16-20 | the fill level is `(write - read) mod BUFLEN` |
| Uart.Ring | software/baremetal/src/uart.c:16-20 | the buffer contents from the read index to the write index have that length |
| Uart.RingCapacity | software/baremetal/src/uart.c:97-101 | the buffer holds at most 127 characters; it is full exactly when `(write + 1) % BUFLEN == read`, and empty exactly when the indices are equal |
| Uart.RingPush | software/baremetal/src/uart.c:111-114 | storing at the write index and advancing it appends the character |
| Uart.UartTx.constructor | software/baremetal/src/uart.c:18-20 | the static buffer starts empty |
| Uart.UartTx.WriteChar | software/baremetal/src/uart.c:77-121 | the character is sent at once, discarded when the buffer is full, or queued; the result is 1 unless it is discarded; characters still arrive in order |
| Uart.UartTx.TxcHandler | software/baremetal/src/uart.c:123-147 | on TXC, the oldest queued character is sent, or the interrupt is only acknowledged when the buffer is empty; queued characters stay in order |
| Leds.Level | software/led.c:14-17 | `state ^ wiring` drives the pin high exactly when an active-high LED is on or an active-low LED is off |
| Leds.Inc32 | software/led.c:28 | the `uint32_t` counter increments and wraps to 0 |
| Leds.CycleStepEffect | software/led.c:25-47 | one cycle counts in the counter of the current state, never switches an LED on, leaves it not overdue, and writes the pin exactly when it switches the LED off |
| Leds.FlashStep | software/led.c:51-65 | an LED that has been off for its minimum off-time is switched on with a restarted counter and one pin write; any other LED is left as it is |
| Leds.DefaultLedFlashesAtOnce | software/application/led.h:42-50 | a default LED is off with minimum times of 50, and the first flash switches it on |
| Leds.CyclePass | software/led.c:20-49 | a pass keeps the set of LEDs |
| Leds.CyclePassEffect | software/led.c:20-49 | after a pass, no registered LED is overdue, unregistered LEDs are untouched, and no configuration changes |
| Leds.PassStep | software/led.c:23 | one more loop iteration steps the next entry's LED |
| Leds.CyclePassDistinct | software/led.c:20-49 | with distinct entries, each LED is stepped exactly once and the writes come in registry order |
| Leds.Led.constructor | software/application/led.h:42-50 | a new LED has `DEFAULT_LED_CONFIG` |
| Leds.Led.Cycle | software/led.c:25-47 | the loop body on one LED does what `CycleStep` says |
| Leds.Led.Flash | software/led.c:51-65 | `flash_led` does what `FlashStep` says |
| Leds.LedDriver.constructor | software/led.c:5-6 | the registry starts empty |
| Leds.LedDriver.RegisterLed | software/led.c:8-18 | the LED is appended to the registry and its state is shown on its pin |
| Leds.LedDriver.LedCycle | software/led.c:20-49 | the registered LEDs end as `CyclePass` says, with its pin writes, and none is left overdue |
| Leds.LedDriver.CycleEntry | software/led.c:25-47 | one iteration advances the pass by one entry |
| System.Staggered | software/baremetal/src/system.c:437-459 | the 1 ms task runs on every tick; the 10, 100 and 1000 ms tasks run only when the tick is 9, 8 and 7 modulo 10, so never two of them together |
| System.FirstRuns | software/baremetal/src/system.c:432-435 | the 10, 100 and 1000 ms tasks first run on ticks 9, 98 and 997 |
| System.Spacing10 | software/baremetal/src/system.c:443-447 | the 10 ms task runs again ten ticks later and not in between |
| System.Spacing100 | software/baremetal/src/system.c:449-453 | the 100 ms task runs again 100 ticks later and not in between |
| System.Spacing1000 | software/baremetal/src/system.c:455-459 | the 1000 ms task runs again 1000 ticks later and not in between |
| System.SysTick.constructor | software/baremetal/src/system.c:432-435 | the counters start at 0, 1, 2 and 3 |
| System.SysTick.Tick | software/baremetal/src/system.c:430-460 | each call starts the tasks `DueTasks` lists for the tick, in order, and keeps each counter below its period at `(ticks + phase) mod period` |
| System.Relocated | software/baremetal/src/system.c:337-343 | after the copy, word `k` of the data section holds image word `_sdata + (k - _sdata_reloc)`, and every other word is unchanged |
| System.Cleared | software/baremetal/src/system.c:345-350 | after clearing, the bss words are 0 and every other word is unchanged |
| System.RelocateData | software/baremetal/src/system.c:337-343 | the copy loop leaves RAM as `Relocated` says |
| System.ClearBss | software/baremetal/src/system.c:345-350 | the zero loop leaves RAM as `Cleared` says |
| System.ResetMemory | software/baremetal/src/system.c:337-350 | the copy runs first, then the clear |
| System.StartupLayout | software/baremetal/src/system.c:337-350 | when the sections do not overlap, the data section holds the image, bss is zero, and the rest of RAM is unchanged |
| Optionals.Optional.Empty | software/baremetal/src/optional.cpp:13-18 | a default-constructed container holds nothing |
| Optionals.Optional.constructor | software/baremetal/src/optional.cpp:20-26 | a container constructed from `v` holds `v` |
| Optionals.Optional.GetValue | software/baremetal/src/optional.cpp:28-32 | once a value is set, `get_value` returns it; it does not check the flag and changes nothing |
| Optionals.Optional.SetValue | software/baremetal/src/optional.cpp:34-39 | afterwards the container holds `v`, whatever it held before |
| Optionals.Optional.HasValue | software/baremetal/src/optional.cpp:41-45 | `has_value` is true exactly when a value is held, and it changes nothing |

## Left out

- The CRC-32 algorithm: the host side's `crc.h` is only a declaration, and the
  device uses its CRC hardware. Both are parameters, related by
  `Bootloader.SameCrc`.
- `calculated_crc ^= 0xFFFFFFFF` is modelled as `0xFFFF_FFFF - x`
  (`Bytes.Complement32`). This is equal for 32-bit words and avoids bit-vector
  arithmetic.
- Serial, file and console I/O are left out: `serial_open`, `serial_write`,
  `serial_read`, `fopen`, `fread`, `atoi`, `printf`, `perror`, `serial_close`
  and `fclose`. They are parameters of the `Host`, or have no visible effect.
  The exit code and the frames stay in the model.
- `flash_write` is an event in the trace. Its result is ignored, as in the code.
  `io_read` is the input sequence; `io_write` is an event.
- The bootloader start-up (`atmel_start_init`, the USART and CRC enables), the
  hang loops, and the jump to the application are left out. The jump covers
  `__set_MSP` and the call through the reset vector. The model ends with the two
  vector words loaded.
- The start, stop and boot commands are not handled by this bootloader's loop,
  and the tagged frame differs from the bare command it reads. Both are
  described above; no model of a device that reads tagged frames is included.
- Pin levels and UART data-register writes are results: `PinWrite` events and
  the `transmitted` sequence. Register-level effects such as the TXC
  acknowledge and the DRE and TXC flags are parameters.
- Uart.UartTx.WriteChar and Uart.UartTx.TxcHandler: interrupt masking is not
  modelled. Each call is one atomic step, as `cpsid`/`cpsie` and the handler
  make it. `setup_uart` is register configuration and is left out. The receive
  side is not part of `uart.c`.
- Leds.LedDriver.RegisterLed requires fewer than `MAX_LEDS` registrations. The C
  code does not check the bound, and a third call would write past `p_leds`.
- `SCB_VTOR`, the constructor loop over `_sinit_array`, the call of `main`, and
  the task functions are calls into code outside this model. `Tick` reports which
  tasks it starts.
- System.RelocateData and System.ClearBss: memory is word-addressed, the linker
  symbols are word indices, and flash is the read-only sequence `image`. The
  loops' pointer comparisons become index comparisons.
- Optionals.Optional: `_value` of a default-constructed container is an
  arbitrary value of `T`, standing for C++'s uninitialised member. The explicit
  template instantiations for the `port` enumerations are not modelled, since
  the class is generic.
- The register-level drivers, the flash driver, CAN, the clock set-up and the
  DSU self-test are not part of this model.
