/** Two parts of `software/baremetal/src/system.c`: the SysTick scheduler,
    which runs the 1, 10, 100 and 1000 ms tasks from a 1 ms tick with
    staggered phases, and the start-up loops of `reset_handler`, which
    copy the initialised data from flash to RAM and clear the zero-filled
    data. The tasks themselves, the constructor and destructor calls and
    `main` are calls into code outside this model. */
module System {

  import opened Bytes

  /** The tasks `sys_tick_handler` can start, in the order it starts them. */
  datatype Task = Task1ms | Task10ms | Task100ms | Task1000ms

  /** `(tick + offset) % period == 0`: the task with this period and phase
      offset is due at handler call number `tick`. */
  predicate Due(tick: nat, offset: nat, period: nat)
    requires period > 0
  {
    (tick + offset) % period == 0
  }

  /** The tasks due at handler call number `tick` (counted from 1), in
      the order the handler starts them. Each task's counter starts
      at its `static` initial value 0, 1, 2 or 3. */
  function DueTasks(tick: nat): seq<Task>
  {
    [Task1ms]
    + (if Due(tick, 1, 10) then [Task10ms] else [])
    + (if Due(tick, 2, 100) then [Task100ms] else [])
    + (if Due(tick, 3, 1000) then [Task1000ms] else [])
  }

  /** The 1 ms task runs on every tick. The 10 ms task first runs on the
      9th tick, the 100 ms task on the 98th and the 1000 ms task on the
      997th; the 10, 100 and 1000 ms tasks never run on the same tick,
      since the tick number is 9, 8 and 7 modulo 10 when they do. */
  lemma {:induction false} Staggered(tick: nat)
    ensures DueTasks(tick)[0] == Task1ms
    ensures Task10ms in DueTasks(tick) ==> tick % 10 == 9
    ensures Task100ms in DueTasks(tick) ==> tick % 10 == 8
    ensures Task1000ms in DueTasks(tick) ==> tick % 10 == 7
    ensures |DueTasks(tick)| <= 2
  {
    if Due(tick, 2, 100) {
      var q := (tick + 2) / 100;
      assert tick + 2 == 100 * q;
      assert tick == 10 * (10 * q - 1) + 8;
    }
    if Due(tick, 3, 1000) {
      var q := (tick + 3) / 1000;
      assert tick + 3 == 1000 * q;
      assert tick == 10 * (100 * q - 1) + 7;
    }
  }

  /** The first ticks on which each task runs. */
  lemma FirstRuns()
    ensures Task10ms in DueTasks(9) && forall t :: 1 <= t < 9 ==> Task10ms !in DueTasks(t)
    ensures Task100ms in DueTasks(98) && forall t :: 1 <= t < 98 ==> Task100ms !in DueTasks(t)
    ensures Task1000ms in DueTasks(997) && forall t :: 1 <= t < 997 ==> Task1000ms !in DueTasks(t)
  {
  }

  /** The 10 ms task runs again ten ticks after it ran, and not on any
      tick in between. */
  lemma Spacing10(t: nat, u: nat)
    requires Task10ms in DueTasks(t)
    ensures Task10ms in DueTasks(t + 10)
    ensures t < u < t + 10 ==> Task10ms !in DueTasks(u)
  {
  }

  /** The 100 ms task runs again 100 ticks after it ran, and not on any
      tick in between. */
  lemma Spacing100(t: nat, u: nat)
    requires Task100ms in DueTasks(t)
    ensures Task100ms in DueTasks(t + 100)
    ensures t < u < t + 100 ==> Task100ms !in DueTasks(u)
  {
  }

  /** The 1000 ms task runs again 1000 ticks after it ran, and not on any
      tick in between. */
  lemma Spacing1000(t: nat, u: nat)
    requires Task1000ms in DueTasks(t)
    ensures Task1000ms in DueTasks(t + 1000)
    ensures t < u < t + 1000 ==> Task1000ms !in DueTasks(u)
  {
  }

  /** A counter kept modulo the literal period `p` steps to 0 exactly when
      it reaches `p`. */
  lemma NextTick10(x: nat)
    ensures (x + 1) % 10 == if x % 10 + 1 == 10 then 0 else x % 10 + 1
  {
  }

  lemma NextTick100(x: nat)
    ensures (x + 1) % 100 == if x % 100 + 1 == 100 then 0 else x % 100 + 1
  {
  }

  lemma NextTick1000(x: nat)
    ensures (x + 1) % 1000 == if x % 1000 + 1 == 1000 then 0 else x % 1000 + 1
  {
  }

  /** The `static` counters of `sys_tick_handler`; `ticks` counts the
      handler calls so far. */
  class SysTick {
    var cycle1ms: u32
    var cycle10ms: u32
    var cycle100ms: u32
    var cycle1000ms: u32
    ghost var ticks: nat

    /** Between ticks the 1 ms counter is 0 and each other counter, which
        stays strictly below its period, is the number of ticks so far
        plus its initial value, modulo its period. */
    ghost predicate Valid()
      reads this
    {
      cycle1ms == 0 &&
      cycle10ms == (ticks + 1) % 10 &&
      cycle100ms == (ticks + 2) % 100 &&
      cycle1000ms == (ticks + 3) % 1000
    }

    /** The initial values 0, 1, 2 and 3. */
    constructor ()
      ensures Valid() && ticks == 0
      ensures cycle1ms == 0 && cycle10ms == 1 && cycle100ms == 2 && cycle1000ms == 3
    {
      cycle1ms, cycle10ms, cycle100ms, cycle1000ms := 0, 1, 2, 3;
      ticks := 0;
    }

    /** One call of `sys_tick_handler`: each counter is incremented and,
        when it reaches its period, its task runs and it restarts at 0.
        `ran` lists the tasks started, in order. */
    method Tick() returns (ran: seq<Task>)
      requires Valid()
      modifies this
      ensures Valid() && ticks == old(ticks) + 1
      ensures ran == DueTasks(ticks)
      ensures cycle10ms < 10 && cycle100ms < 100 && cycle1000ms < 1000
    {
      NextTick10(ticks + 1);
      NextTick100(ticks + 2);
      NextTick1000(ticks + 3);
      ticks := ticks + 1;
      ran := [];
      cycle1ms := cycle1ms + 1;
      if cycle1ms == 1 {
        ran := ran + [Task1ms];
        cycle1ms := 0;
      }
      cycle10ms := cycle10ms + 1;
      if cycle10ms == 10 {
        ran := ran + [Task10ms];
        cycle10ms := 0;
      }
      cycle100ms := cycle100ms + 1;
      if cycle100ms == 100 {
        ran := ran + [Task100ms];
        cycle100ms := 0;
      }
      cycle1000ms := cycle1000ms + 1;
      if cycle1000ms == 1000 {
        ran := ran + [Task1000ms];
        cycle1000ms := 0;
      }
    }
  }

  /** The words from `dst` up to, not including, `end`: the loop
      `while (dst < end)` runs this many times, none when `end` is not
      above `dst`. */
  function Span(dst: nat, end: nat): nat
  {
    if dst < end then end - dst else 0
  }

  /** RAM `ram` after the data section is copied: the words from `reloc`
      up to `end` take the words of the flash image from `sdata` on. */
  function Relocated(ram: seq<u32>, image: seq<u32>, sdata: nat, reloc: nat, end: nat): (r: seq<u32>)
    requires reloc + Span(reloc, end) <= |ram| && sdata + Span(reloc, end) <= |image|
    ensures |r| == |ram|
    ensures forall k :: 0 <= k < |ram| ==>
      r[k] == if reloc <= k < reloc + Span(reloc, end) then image[sdata + k - reloc] else ram[k]
  {
    ram[..reloc] + image[sdata..sdata + Span(reloc, end)] + ram[reloc + Span(reloc, end)..]
  }

  /** RAM `ram` after the bss section from `sbss` up to `ebss` is cleared. */
  function Cleared(ram: seq<u32>, sbss: nat, ebss: nat): (r: seq<u32>)
    requires sbss + Span(sbss, ebss) <= |ram|
    ensures |r| == |ram|
    ensures forall k :: 0 <= k < |ram| ==>
      r[k] == if sbss <= k < sbss + Span(sbss, ebss) then 0 else ram[k]
  {
    ram[..sbss] + seq(Span(sbss, ebss), _ => 0) + ram[sbss + Span(sbss, ebss)..]
  }

  /** The first loop of `reset_handler`: `*dst++ = *src++` from
      `_sdata_reloc` up to `_edata_reloc`, reading from `_sdata`. Memory is
      word-addressed; flash is the read-only `image`. */
  method RelocateData(ram: array<u32>, image: seq<u32>, sdata: nat, reloc: nat, end: nat)
    requires reloc + Span(reloc, end) <= ram.Length && sdata + Span(reloc, end) <= |image|
    modifies ram
    ensures ram[..] == Relocated(old(ram[..]), image, sdata, reloc, end)
  {
    var src, dst := sdata, reloc;
    while dst < end
      invariant reloc <= dst <= reloc + Span(reloc, end) && src == sdata + (dst - reloc)
      invariant forall k :: 0 <= k < ram.Length ==>
        ram[k] == if reloc <= k < dst then image[sdata + k - reloc] else old(ram[k])
    {
      ram[dst] := image[src];
      dst, src := dst + 1, src + 1;
    }
  }

  /** The second loop of `reset_handler`: `*dst++ = 0` from `_sbss` up to
      `_ebss`. */
  method ClearBss(ram: array<u32>, sbss: nat, ebss: nat)
    requires sbss + Span(sbss, ebss) <= ram.Length
    modifies ram
    ensures ram[..] == Cleared(old(ram[..]), sbss, ebss)
  {
    var dst := sbss;
    while dst < ebss
      invariant sbss <= dst <= sbss + Span(sbss, ebss)
      invariant forall k :: 0 <= k < ram.Length ==>
        ram[k] == if sbss <= k < dst then 0 else old(ram[k])
    {
      ram[dst] := 0;
      dst := dst + 1;
    }
  }

  /** The memory set-up of `reset_handler`, before the constructors run. */
  method ResetMemory(ram: array<u32>, image: seq<u32>, sdata: nat, reloc: nat, end: nat,
                     sbss: nat, ebss: nat)
    requires reloc + Span(reloc, end) <= ram.Length && sdata + Span(reloc, end) <= |image|
    requires sbss + Span(sbss, ebss) <= ram.Length
    modifies ram
    ensures ram[..] == Cleared(Relocated(old(ram[..]), image, sdata, reloc, end), sbss, ebss)
  {
    RelocateData(ram, image, sdata, reloc, end);
    ClearBss(ram, sbss, ebss);
  }

  /** After start-up the data section holds the flash image and the bss
      section is zero, when the two sections do not overlap (as the linker
      lays them out); every other word of RAM is as it was. */
  lemma StartupLayout(ram: seq<u32>, image: seq<u32>, sdata: nat, reloc: nat, end: nat,
                      sbss: nat, ebss: nat)
    requires reloc + Span(reloc, end) <= |ram| && sdata + Span(reloc, end) <= |image|
    requires sbss + Span(sbss, ebss) <= |ram|
    requires reloc + Span(reloc, end) <= sbss
    ensures var r := Cleared(Relocated(ram, image, sdata, reloc, end), sbss, ebss);
      r[reloc..reloc + Span(reloc, end)] == image[sdata..sdata + Span(reloc, end)] &&
      (forall k :: sbss <= k < sbss + Span(sbss, ebss) ==> r[k] == 0) &&
      (forall k ::
         (0 <= k < |ram| && !(reloc <= k < reloc + Span(reloc, end)) &&
          !(sbss <= k < sbss + Span(sbss, ebss))) ==> r[k] == ram[k])
  {
  }
}
