/** The LED driver of `software/led.c`, with the types and defaults of
    `software/application/led.h`. An application registers up to
    `MAX_LEDS` LEDs, asks for a flash with `flash_led`, and calls
    `led_cycle` periodically; the driver keeps an LED on for at least its
    minimum on-time and off for at least its minimum off-time.

    The C registry `p_leds` holds pointers to the application's own
    `struct led` objects, so an LED is a class here and the registry an
    array of references to it. The calls of `gpio_set_pin_level` an
    operation makes are its result, in order. */
module Leds {

  import opened Bytes

  /** `MAX_LEDS`. */
  const MAX_LEDS: nat := 2
  /** `DEFAULT_LED_MIN_ON_CYCLES` and `DEFAULT_LED_MIN_OFF_CYCLES`. */
  const DEFAULT_MIN_ON_CYCLES: u32 := 50
  const DEFAULT_MIN_OFF_CYCLES: u32 := 50

  /** `enum led_wiring`. */
  datatype Wiring = ActiveHigh | ActiveLow

  /** `enum led_state`. */
  datatype LedState = Off | On

  /** The numeric values of the two enumerations. */
  function WiringCode(w: Wiring): nat
  {
    match w
    case ActiveHigh => 0
    case ActiveLow => 1
  }

  function StateCode(s: LedState): nat
  {
    match s
    case Off => 0
    case On => 1
  }

  /** `state ^ wiring`, the level driven onto the pin: high exactly when an
      active-high LED is on or an active-low LED is off, so the LED is lit
      exactly when it is on. */
  function Level(s: LedState, w: Wiring): (level: nat)
    ensures level < 2
    ensures level == 1 <==> (s == On) == (w == ActiveHigh)
    ensures level == 0 <==> (s == On) == (w == ActiveLow)
  {
    if StateCode(s) == WiringCode(w) then 0 else 1
  }

  /** `cycles++` on a `uint32_t` counter, which wraps around to 0. */
  function Inc32(x: u32): (r: u32)
    ensures x < 0xFFFF_FFFF ==> r == x + 1
    ensures x == 0xFFFF_FFFF ==> r == 0
  {
    (x + 1) % 0x1_0000_0000
  }

  /** The contents of one `struct led`. */
  datatype LedVal = LedVal(
    pin: byte,
    wiring: Wiring,
    state: LedState,
    minOnCycles: u32,
    minOffCycles: u32,
    cyclesSinceOn: u32,
    cyclesSinceOff: u32)

  /** One call of `gpio_set_pin_level(pin, level)`. */
  datatype PinWrite = PinWrite(pin: byte, level: nat)

  /** What one step does to an LED: its new contents and the pin writes. */
  datatype Step = Step(led: LedVal, writes: seq<PinWrite>)

  /** `{ .pin = pin, .wiring = wiring, DEFAULT_LED_CONFIG }`. */
  function DefaultLed(pin: byte, wiring: Wiring): LedVal
  {
    LedVal(pin, wiring, Off, DEFAULT_MIN_ON_CYCLES, DEFAULT_MIN_OFF_CYCLES,
           DEFAULT_MIN_OFF_CYCLES, DEFAULT_MIN_OFF_CYCLES)
  }

  /** The pin write that shows the LED's current state. */
  function Show(v: LedVal): PinWrite
  {
    PinWrite(v.pin, Level(v.state, v.wiring))
  }

  /** An LED that is on and has been on for its minimum on-time. */
  predicate Overdue(v: LedVal)
  {
    v.state == On && v.cyclesSinceOn >= v.minOnCycles
  }

  /** Every write of `writes` shows the state of `v` on its pin. */
  predicate ShowsState(writes: seq<PinWrite>, v: LedVal)
  {
    forall k :: 0 <= k < |writes| ==> writes[k] == Show(v)
  }

  /** The configuration of an LED: everything but its state and counters. */
  predicate SameConfig(a: LedVal, b: LedVal)
  {
    a.pin == b.pin && a.wiring == b.wiring &&
    a.minOnCycles == b.minOnCycles && a.minOffCycles == b.minOffCycles
  }

  /** The body of the `led_cycle` loop for one LED: count the cycle in the
      counter of the current state, then switch an LED that has been on
      long enough off, restart its off counter and show it on the pin. */
  function CycleStep(v: LedVal): Step
  {
    var counted :=
      if v.state == Off then v.(cyclesSinceOff := Inc32(v.cyclesSinceOff))
      else v.(cyclesSinceOn := Inc32(v.cyclesSinceOn));
    if Overdue(counted) then
      var off := counted.(state := Off, cyclesSinceOff := 0);
      Step(off, [Show(off)])
    else
      Step(counted, [])
  }

  /** One cycle counts in the counter of the LED's state, never switches
      an LED on, leaves no LED on past its minimum on-time, and writes the
      pin exactly when it switches the LED off, and then shows the new
      state. */
  lemma CycleStepEffect(v: LedVal)
    ensures var r := CycleStep(v);
      SameConfig(r.led, v) && ShowsState(r.writes, r.led) &&
      !Overdue(r.led) &&
      (r.led.state == On ==> v.state == On) &&
      |r.writes| <= 1 &&
      (|r.writes| == 1 <==> v.state == On && r.led.state == Off) &&
      (v.state == Off ==>
        r.led.cyclesSinceOff == Inc32(v.cyclesSinceOff) && r.led.cyclesSinceOn == v.cyclesSinceOn) &&
      (v.state == On ==>
        r.led.cyclesSinceOn == Inc32(v.cyclesSinceOn) &&
        (r.led.state == Off <==> Inc32(v.cyclesSinceOn) >= v.minOnCycles) &&
        r.led.cyclesSinceOff == (if r.led.state == Off then 0 else v.cyclesSinceOff))
  {
  }

  /** `flash_led` on one LED: an LED that has been off for its minimum
      off-time is switched on, its on counter restarted and its state
      shown on the pin; any other LED, in particular one already on, is
      left exactly as it is. */
  function FlashStep(v: LedVal): (r: Step)
    ensures SameConfig(r.led, v) && ShowsState(r.writes, r.led)
    ensures v.state == Off && v.cyclesSinceOff >= v.minOffCycles ==>
      r.led == v.(state := On, cyclesSinceOn := 0) && |r.writes| == 1
    ensures !(v.state == Off && v.cyclesSinceOff >= v.minOffCycles) ==> r == Step(v, [])
  {
    if v.state == Off && v.cyclesSinceOff >= v.minOffCycles then
      var on := v.(state := On, cyclesSinceOn := 0);
      Step(on, [Show(on)])
    else
      Step(v, [])
  }

  /** A freshly configured LED is off with the default minimum times, and
      its off counter already equals the minimum off-time, so the first
      flash switches it on. */
  lemma DefaultLedFlashesAtOnce(pin: byte, wiring: Wiring)
    ensures DefaultLed(pin, wiring).state == Off
    ensures DefaultLed(pin, wiring).minOnCycles == 50 && DefaultLed(pin, wiring).minOffCycles == 50
    ensures FlashStep(DefaultLed(pin, wiring)).led.state == On
    ensures FlashStep(DefaultLed(pin, wiring)).writes == [PinWrite(pin, Level(On, wiring))]
  {
  }

  /** A pass of `led_cycle` over the registry `regs`, one entry after the
      other, on the LED contents `m`. The same LED may be registered more
      than once, and then it is stepped once per entry. (An entry without
      contents in `m`, which `Contents` never produces, is passed over.) */
  datatype Pass = Pass(leds: map<Led, LedVal>, writes: seq<PinWrite>)

  function CyclePass(m: map<Led, LedVal>, regs: seq<Led>): (r: Pass)
    ensures r.leds.Keys == m.Keys
    decreases |regs|
  {
    if regs == [] then Pass(m, [])
    else
      var before := CyclePass(m, regs[..|regs| - 1]);
      var o := regs[|regs| - 1];
      if o !in before.leds then before
      else
        var step := CycleStep(before.leds[o]);
        Pass(before.leds[o := step.led], before.writes + step.writes)
  }

  /** After a pass no registered LED is on past its minimum on-time, LEDs
      that are not registered are untouched, and no configuration changes. */
  lemma {:induction false} CyclePassEffect(m: map<Led, LedVal>, regs: seq<Led>)
    ensures forall o :: o in m && o !in regs ==> CyclePass(m, regs).leds[o] == m[o]
    ensures forall o :: o in m && o in regs ==> !Overdue(CyclePass(m, regs).leds[o])
    ensures forall o :: o in m ==> SameConfig(CyclePass(m, regs).leds[o], m[o])
    decreases |regs|
  {
    if regs != [] {
      var init := regs[..|regs| - 1];
      CyclePassEffect(m, init);
      if regs[|regs| - 1] in m {
        CycleStepEffect(CyclePass(m, init).leds[regs[|regs| - 1]]);
      }
      forall o | o in m && o in regs
        ensures !Overdue(CyclePass(m, regs).leds[o])
      {
        if o != regs[|regs| - 1] {
          var k :| 0 <= k < |regs| && regs[k] == o;
          assert o in init by { assert init[k] == o; }
        }
      }
    }
  }

  /** A pass over one more entry steps that entry's LED once more. */
  lemma PassStep(m: map<Led, LedVal>, regs: seq<Led>, i: nat)
    requires i < |regs| && regs[i] in m
    ensures CyclePass(m, regs[..i + 1]) ==
      var before := CyclePass(m, regs[..i]);
      var step := CycleStep(before.leds[regs[i]]);
      Pass(before.leds[regs[i] := step.led], before.writes + step.writes)
  {
    assert regs[..i + 1][..i] == regs[..i];
  }

  /** When every LED is registered once, a pass steps each of them exactly
      once, and the writes are those of the steps in registry order. */
  lemma {:induction false} CyclePassDistinct(m: map<Led, LedVal>, regs: seq<Led>)
    requires forall k :: 0 <= k < |regs| ==> regs[k] in m
    requires forall k, l :: 0 <= k < l < |regs| ==> regs[k] != regs[l]
    ensures forall k :: 0 <= k < |regs| ==>
      CyclePass(m, regs).leds[regs[k]] == CycleStep(m[regs[k]]).led
    ensures CyclePass(m, regs).writes == PassWrites(m, regs)
    decreases |regs|
  {
    if regs != [] {
      var init := regs[..|regs| - 1];
      CyclePassDistinct(m, init);
      CyclePassEffect(m, init);
      var o := regs[|regs| - 1];
      assert o !in init;
      forall k | 0 <= k < |regs|
        ensures CyclePass(m, regs).leds[regs[k]] == CycleStep(m[regs[k]]).led
      {
        if k < |regs| - 1 {
          assert regs[k] == init[k];
        }
      }
    }
  }

  /** The writes of stepping each entry of `regs` once from `m`, in order. */
  function PassWrites(m: map<Led, LedVal>, regs: seq<Led>): seq<PinWrite>
    requires forall k :: 0 <= k < |regs| ==> regs[k] in m
    decreases |regs|
  {
    if regs == [] then []
    else PassWrites(m, regs[..|regs| - 1]) + CycleStep(m[regs[|regs| - 1]]).writes
  }

  /** `struct led`, owned by the application and updated by the driver. */
  class Led {
    var pin: byte
    var wiring: Wiring
    var state: LedState
    var minOnCycles: u32
    var minOffCycles: u32
    var cyclesSinceOn: u32
    var cyclesSinceOff: u32

    function Val(): LedVal
      reads this
    {
      LedVal(pin, wiring, state, minOnCycles, minOffCycles, cyclesSinceOn, cyclesSinceOff)
    }

    /** An LED initialised with `DEFAULT_LED_CONFIG`. */
    constructor (pin: byte, wiring: Wiring)
      ensures Val() == DefaultLed(pin, wiring)
    {
      this.pin, this.wiring := pin, wiring;
      state := Off;
      minOnCycles, minOffCycles := DEFAULT_MIN_ON_CYCLES, DEFAULT_MIN_OFF_CYCLES;
      cyclesSinceOn, cyclesSinceOff := DEFAULT_MIN_OFF_CYCLES, DEFAULT_MIN_OFF_CYCLES;
    }

    /** The body of the `led_cycle` loop for this LED; `writes` are its
        calls of `gpio_set_pin_level`. */
    method Cycle() returns (writes: seq<PinWrite>)
      modifies this
      ensures Val() == CycleStep(old(Val())).led && writes == CycleStep(old(Val())).writes
    {
      if state == Off {
        cyclesSinceOff := Inc32(cyclesSinceOff);
      } else if state == On {
        cyclesSinceOn := Inc32(cyclesSinceOn);
      }
      writes := [];
      if state == On && cyclesSinceOn >= minOnCycles {
        state := Off;
        cyclesSinceOff := 0;
        writes := [PinWrite(pin, Level(state, wiring))];
      }
    }

    /** `flash_led` on this LED; `writes` are its calls of
        `gpio_set_pin_level`. */
    method Flash() returns (writes: seq<PinWrite>)
      modifies this
      ensures Val() == FlashStep(old(Val())).led && writes == FlashStep(old(Val())).writes
    {
      writes := [];
      if state == Off && cyclesSinceOff >= minOffCycles {
        state := On;
        cyclesSinceOn := 0;
        writes := [PinWrite(pin, Level(state, wiring))];
      }
    }
  }

  /** The contents of the LEDs of `regs`. */
  function Contents(regs: seq<Led>): (m: map<Led, LedVal>)
    reads regs
    ensures forall k :: 0 <= k < |regs| ==> regs[k] in m
  {
    map o | o in regs :: o.Val()
  }

  /** Every LED of `regs` that has contents in `m` holds them. */
  ghost predicate Holds(regs: seq<Led>, m: map<Led, LedVal>)
    reads regs
  {
    forall o :: o in regs && o in m ==> o.Val() == m[o]
  }

  /** The driver's static state: `num_leds` and `p_leds`. */
  class LedDriver {
    var numLeds: nat
    var leds: array<Led?>
    /** The registered LEDs, `p_leds[0 .. num_leds)`. */
    ghost var registered: seq<Led>

    ghost predicate Valid()
      reads this, leds
    {
      leds.Length == MAX_LEDS && numLeds <= MAX_LEDS && |registered| == numLeds &&
      forall k :: 0 <= k < numLeds ==> leds[k] == registered[k]
    }

    /** The static initial state: no LED registered. */
    constructor ()
      ensures Valid() && fresh(leds) && registered == []
    {
      numLeds := 0;
      leds := new Led?[MAX_LEDS];
      registered := [];
    }

    /** `register_led`: remember `led` in the next slot and show its
        state. The C code does not check the bound, so a caller must not
        register more than `MAX_LEDS` LEDs. */
    method RegisterLed(led: Led) returns (writes: seq<PinWrite>)
      requires Valid() && numLeds < MAX_LEDS
      modifies this, leds
      ensures Valid() && leds == old(leds)
      ensures numLeds == old(numLeds) + 1 && registered == old(registered) + [led]
      ensures writes == [Show(led.Val())]
    {
      leds[numLeds] := led;
      numLeds := numLeds + 1;
      registered := registered + [led];
      writes := [PinWrite(led.pin, Level(led.state, led.wiring))];
    }

    /** `led_cycle`: one pass over the registry, in registry order. No
        registered LED is left on past its minimum on-time, and LEDs that
        are not registered are not touched. */
    method LedCycle() returns (writes: seq<PinWrite>)
      requires Valid()
      modifies registered
      ensures Holds(registered, CyclePass(old(Contents(registered)), registered).leds)
      ensures writes == CyclePass(old(Contents(registered)), registered).writes
      ensures forall o :: o in registered ==> !Overdue(o.Val())
    {
      ghost var regs := registered;
      ghost var start := Contents(regs);
      var slots := leds[..numLeds];
      assert forall k :: 0 <= k < |slots| ==> slots[k] == regs[k];
      var i := 0;
      writes := [];
      while i < |slots|
        invariant 0 <= i <= |slots|
        invariant Holds(regs, CyclePass(start, regs[..i]).leds)
        invariant writes == CyclePass(start, regs[..i]).writes
      {
        var led: Led := slots[i];
        var step := CycleEntry(regs, i, led, start);
        writes := writes + step;
        i := i + 1;
      }
      assert regs[..|regs|] == regs;
      CyclePassEffect(start, regs);
    }

    /** One iteration of the `led_cycle` loop, at entry `i`. */
    static method CycleEntry(ghost regs: seq<Led>, i: nat, led: Led, ghost start: map<Led, LedVal>)
      returns (writes: seq<PinWrite>)
      requires i < |regs| && led == regs[i] && led in start
      requires Holds(regs, CyclePass(start, regs[..i]).leds)
      modifies led
      ensures Holds(regs, CyclePass(start, regs[..i + 1]).leds)
      ensures CyclePass(start, regs[..i + 1]).writes == CyclePass(start, regs[..i]).writes + writes
    {
      ghost var before := CyclePass(start, regs[..i]);
      assert led in regs;
      assert led.Val() == before.leds[led];
      PassStep(start, regs, i);
      writes := led.Cycle();
    }
  }
}
