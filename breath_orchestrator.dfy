/** breath_orchestrator.c: the five-state breath machine that the AVR timer interrupt
    advances once per period, driving the low four pins of port B. */
module BreathOrchestrator {

  /** `uint8_t`. */
  type Byte = x: int | 0 <= x < 256

  /** `BreathState`. */
  datatype BreathState = Idle | Inhale | HoldTorque | Exhale | ReturnZero

  /** Pin masks on port B: `1 << INHALE_PIN` (PB0), `1 << EXHALE_PIN` (PB1),
      `1 << RETURN_PIN` (PB2), `1 << PHASE_CLK` (PB3). VIOLATION (PB4) is an input. */
  const InhaleBit: bv8 := 0x01
  const ExhaleBit: bv8 := 0x02
  const ReturnBit: bv8 := 0x04
  const PhaseClkBit: bv8 := 0x08

  /** The globals `state`, `phase_counter`, `torque_toll` and the PORTB register. */
  datatype Registers = Registers(state: BreathState, phaseCounter: Byte, torqueToll: Byte, portb: bv8)

  /** `x++` on a `uint8_t`. */
  function Inc(x: Byte): (y: Byte)
    ensures y == (x + 1) % 256
    ensures x < 255 ==> y == x + 1
    ensures x == 255 ==> y == 0
  {
    if x == 255 then 0 else x + 1
  }

  /** `PORTB |= mask`, `PORTB &= ~mask` and `PORTB ^= mask`. */
  function SetPins(portb: bv8, mask: bv8): bv8 { portb | mask }
  function ClearPins(portb: bv8, mask: bv8): bv8 { portb & !mask }
  function TogglePins(portb: bv8, mask: bv8): bv8 { portb ^ mask }

  /** `phase_counter % 2 == 1`. */
  predicate Odd(x: int) { x % 2 == 1 }

  /** Whether the pin selected by `mask` is driven high. */
  predicate High(portb: bv8, mask: bv8)
  {
    portb & mask != 0
  }

  /** The HOLD_TORQUE case: toggle the phase clock, count the phase, charge a toll on odd
      phases, and after eight phases lower INHALE and move on to EXHALE. */
  function Hold(r: Registers): Registers
  {
    var toggled := TogglePins(r.portb, PhaseClkBit);
    var pc := Inc(r.phaseCounter);
    var toll := if Odd(pc) then Inc(r.torqueToll) else r.torqueToll;
    if pc >= 8 then Registers(Exhale, pc, toll, ClearPins(toggled, InhaleBit))
    else Registers(HoldTorque, pc, toll, toggled)
  }

  /** One run of `ISR(TIM0_COMPA_vect)`; `violation` is the level of the VIOLATION input. */
  function Step(r: Registers, violation: bool): Registers
  {
    match r.state
    case Idle =>
      r.(portb := ClearPins(r.portb, InhaleBit | ExhaleBit | ReturnBit), state := Inhale)
    case Inhale =>
      r.(portb := SetPins(r.portb, InhaleBit), phaseCounter := 0, state := HoldTorque)
    case HoldTorque =>
      Hold(r)
    case Exhale =>
      var lit := SetPins(r.portb, ExhaleBit);
      if violation then r.(portb := lit, state := Idle, torqueToll := 0)
      else r.(portb := lit, state := ReturnZero)
    case ReturnZero =>
      r.(portb := ClearPins(SetPins(r.portb, ReturnBit), ExhaleBit), state := Idle)
  }

  /** The interrupt's globals as an object whose `Tick` is the ISR. */
  class Orchestrator {
    var state: BreathState
    var phaseCounter: Byte
    var torqueToll: Byte
    var portb: bv8

    /** The globals as initialised (`state = IDLE`, both counters 0); PORTB is given. */
    constructor (portb0: bv8)
      ensures Regs() == Registers(Idle, 0, 0, portb0)
    {
      state := Idle;
      phaseCounter := 0;
      torqueToll := 0;
      portb := portb0;
    }

    function Regs(): Registers
      reads this
    {
      Registers(state, phaseCounter, torqueToll, portb)
    }

    /** One timer interrupt: the `switch (state)` of the ISR, updating the globals in place. */
    method Tick(violationPin: bool)
      modifies this
      ensures Regs() == Step(old(Regs()), violationPin)
    {
      var port := portb;
      match state {
        case Idle =>
          port := ClearPins(port, InhaleBit | ExhaleBit | ReturnBit);
          state := Inhale;
        case Inhale =>
          port := SetPins(port, InhaleBit);
          phaseCounter := 0;
          state := HoldTorque;
        case HoldTorque =>
          HoldTick();
          port := portb;
        case Exhale =>
          port := SetPins(port, ExhaleBit);
          if violationPin {
            state := Idle;
            torqueToll := 0;
          } else {
            state := ReturnZero;
          }
        case ReturnZero =>
          port := SetPins(port, ReturnBit);
          port := ClearPins(port, ExhaleBit);
          state := Idle;
      }
      portb := port;
    }

    /** The HOLD_TORQUE case of the ISR: the π/4 clock toggle, the phase count and the toll. */
    method HoldTick()
      requires state == HoldTorque
      modifies this
      ensures Regs() == Hold(old(Regs()))
    {
      var port := TogglePins(portb, PhaseClkBit);
      var pc := Inc(phaseCounter);
      var toll := torqueToll;
      if Odd(pc) {
        toll := Inc(toll);
      }
      if pc >= 8 {
        port := ClearPins(port, InhaleBit);
        state := Exhale;
      }
      portb, phaseCounter, torqueToll := port, pc, toll;
    }
  }

  // ---------------------------------------------------------------------------------------
  // One tick

  /** Only PB0-PB3 are ever written: the upper nibble of PORTB survives every tick. */
  lemma UpperPinsUntouched(r: Registers, violation: bool)
    ensures Step(r, violation).portb & 0xF0 == r.portb & 0xF0
  {
  }

  /** IDLE lowers INHALE, EXHALE and RETURN, leaves the clock pin alone and moves to INHALE. */
  lemma IdleTick(r: Registers, violation: bool)
    requires r.state == Idle
    ensures var s := Step(r, violation);
      s.state == Inhale && !High(s.portb, InhaleBit) && !High(s.portb, ExhaleBit) &&
      !High(s.portb, ReturnBit) && High(s.portb, PhaseClkBit) == High(r.portb, PhaseClkBit) &&
      s.phaseCounter == r.phaseCounter && s.torqueToll == r.torqueToll
  {
  }

  /** INHALE raises the INHALE pin, restarts the phase counter and starts the hold. */
  lemma InhaleTick(r: Registers, violation: bool)
    requires r.state == Inhale
    ensures var s := Step(r, violation);
      s.state == HoldTorque && High(s.portb, InhaleBit) && s.phaseCounter == 0 &&
      s.torqueToll == r.torqueToll && s.portb & !InhaleBit == r.portb & !InhaleBit
  {
  }

  /** A hold tick flips the clock pin, counts a phase, charges a toll on odd phases and ends
      the hold, lowering INHALE, once eight phases are counted. */
  lemma HoldTick(r: Registers, violation: bool)
    requires r.state == HoldTorque
    ensures var s := Step(r, violation);
      High(s.portb, PhaseClkBit) != High(r.portb, PhaseClkBit) &&
      s.phaseCounter == (r.phaseCounter + 1) % 256 &&
      (s.torqueToll == if s.phaseCounter % 2 == 1 then (r.torqueToll + 1) % 256 else r.torqueToll) &&
      (s.state == Exhale <==> s.phaseCounter >= 8) &&
      (s.state != Exhale ==> s.state == HoldTorque) &&
      (s.state == Exhale ==> !High(s.portb, InhaleBit))
  {
  }

  /** EXHALE raises its pin; a violation aborts to IDLE and forfeits the toll, otherwise the
      machine returns to zero. */
  lemma ExhaleTick(r: Registers, violation: bool)
    requires r.state == Exhale
    ensures var s := Step(r, violation);
      High(s.portb, ExhaleBit) && s.phaseCounter == r.phaseCounter &&
      (violation ==> s.state == Idle && s.torqueToll == 0) &&
      (!violation ==> s.state == ReturnZero && s.torqueToll == r.torqueToll)
  {
  }

  /** RETURN_ZERO raises RETURN, lowers EXHALE and goes back to IDLE. */
  lemma ReturnTick(r: Registers, violation: bool)
    requires r.state == ReturnZero
    ensures var s := Step(r, violation);
      s.state == Idle && High(s.portb, ReturnBit) && !High(s.portb, ExhaleBit) &&
      s.phaseCounter == r.phaseCounter && s.torqueToll == r.torqueToll
  {
  }

  // ---------------------------------------------------------------------------------------
  // Runs of ticks

  /** `n` interrupts with the VIOLATION input low. */
  function CleanTicks(r: Registers, n: nat): Registers
    decreases n
  {
    if n == 0 then r else CleanTicks(Step(r, false), n - 1)
  }

  lemma {:induction false} CleanTicksAdd(r: Registers, a: nat, b: nat)
    ensures CleanTicks(r, a + b) == CleanTicks(CleanTicks(r, a), b)
    decreases a
  {
    if a > 0 {
      CleanTicksAdd(Step(r, false), a - 1, b);
    }
  }

  /** PORTB after the clock pin has been flipped `n` times. */
  function Flipped(portb: bv8, n: nat): bv8
  {
    if Odd(n) then TogglePins(portb, PhaseClkBit) else portb
  }

  /** A hold entered at phase k < 8 lasts 8 - k more ticks, charges (8 - k) / 2 tolls (the
      odd phases above k) and ends in EXHALE with INHALE lowered and the clock flipped 8 - k
      times. */
  lemma HoldRun(r: Registers, k: nat)
    requires r.state == HoldTorque && r.phaseCounter == k && k < 8
    ensures var e := CleanTicks(r, 8 - k);
      e.state == Exhale && e.phaseCounter == 8 &&
      e.torqueToll == (r.torqueToll + (8 - k) / 2) % 256 &&
      e.portb == ClearPins(Flipped(r.portb, 8 - k), InhaleBit)
  {
    HoldRunCounters(r, k);
    HoldRunPins(r, k);
  }

  lemma {:induction false} HoldRunCounters(r: Registers, k: nat)
    requires r.state == HoldTorque && r.phaseCounter == k && k < 8
    ensures var e := CleanTicks(r, 8 - k);
      e.state == Exhale && e.phaseCounter == 8 &&
      e.torqueToll == (r.torqueToll + (8 - k) / 2) % 256
    decreases 8 - k
  {
    var s := Step(r, false);
    if k < 7 {
      HoldTickBefore8(r, k);
      HoldRunCounters(s, k + 1);
      assert CleanTicks(r, 8 - k) == CleanTicks(s, 7 - k);
      TollArithmetic(r.torqueToll, s.torqueToll, k);
    } else {
      HoldLastTick(r);
    }
  }

  /** A hold tick below phase 7 stays in the hold, one phase on. */
  lemma HoldTickBefore8(r: Registers, k: nat)
    requires r.state == HoldTorque && r.phaseCounter == k && k < 7
    ensures var s := Step(r, false);
      s.state == HoldTorque && s.phaseCounter == k + 1 &&
      s.torqueToll == if Odd(k + 1) then Inc(r.torqueToll) else r.torqueToll
  {
  }

  /** The hold tick at phase 7 is the last one; phase 8 is even, so it charges no toll. */
  lemma HoldLastTick(r: Registers)
    requires r.state == HoldTorque && r.phaseCounter == 7
    ensures var e := CleanTicks(r, 1);
      e.state == Exhale && e.phaseCounter == 8 && e.torqueToll == r.torqueToll
  {
    TickOnce(r);
  }

  lemma {:induction false} HoldRunPins(r: Registers, k: nat)
    requires r.state == HoldTorque && r.phaseCounter == k && k < 8
    ensures CleanTicks(r, 8 - k).portb == ClearPins(Flipped(r.portb, 8 - k), InhaleBit)
    decreases 8 - k
  {
    var s := Step(r, false);
    if k < 7 {
      assert s.state == HoldTorque && s.phaseCounter == k + 1;
      assert s.portb == TogglePins(r.portb, PhaseClkBit);
      HoldRunPins(s, k + 1);
      assert CleanTicks(r, 8 - k) == CleanTicks(s, 7 - k);
      FlipArithmetic(r.portb, 7 - k);
    } else {
      TickOnce(r);
    }
  }

  lemma TollArithmetic(t: Byte, t': Byte, k: nat)
    requires k < 7 && t' == if Odd(k + 1) then Inc(t) else t
    ensures (t' + (8 - (k + 1)) / 2) % 256 == (t + (8 - k) / 2) % 256
  {
    if Odd(k + 1) {
      assert (8 - k) / 2 == (8 - (k + 1)) / 2 + 1;
      if t == 255 {
        assert (t + (8 - k) / 2) % 256 == (8 - (k + 1)) / 2;
      }
    } else {
      assert (8 - k) / 2 == (8 - (k + 1)) / 2;
    }
  }

  lemma FlipArithmetic(p: bv8, n: nat)
    ensures Flipped(TogglePins(p, PhaseClkBit), n) == Flipped(p, n + 1)
    ensures ClearPins(Flipped(TogglePins(p, PhaseClkBit), n), InhaleBit) == ClearPins(Flipped(p, n + 1), InhaleBit)
  {
    assert p ^ PhaseClkBit ^ PhaseClkBit == p;
  }

  /** A violation-free breath from IDLE takes exactly 12 ticks: it passes through INHALE,
      eight hold ticks, EXHALE and RETURN_ZERO, is back in IDLE only at the end, and charges
      4 tolls (mod 256). */
  lemma CleanBreath(r: Registers)
    requires r.state == Idle
    ensures forall n :: 0 < n < 12 ==> CleanTicks(r, n).state != Idle
    ensures var e := CleanTicks(r, 12);
      e.state == Idle && e.phaseCounter == 8 && e.torqueToll == (r.torqueToll + 4) % 256 &&
      !High(e.portb, InhaleBit) && !High(e.portb, ExhaleBit) && High(e.portb, ReturnBit) &&
      e.portb & !(InhaleBit | ExhaleBit | ReturnBit) == r.portb & !(InhaleBit | ExhaleBit | ReturnBit)
  {
    var r1 := Step(r, false);
    var r2 := Step(r1, false);
    TickOnce(r);
    TickOnce(r1);
    CleanTicksAdd(r, 1, 1);
    assert CleanTicks(r, 2) == r2;
    HoldRun(r2, 0);
    forall n | 2 <= n < 10
      ensures CleanTicks(r, n).state == HoldTorque
    {
      CleanTicksAdd(r, 2, n - 2);
      HoldStays(r2, n - 2);
    }
    CleanTicksAdd(r, 2, 8);
    var r10 := CleanTicks(r, 10);
    var r11 := Step(r10, false);
    TickOnce(r10);
    TickOnce(r11);
    CleanTicksAdd(r, 10, 1);
    CleanTicksAdd(r, 11, 1);
    assert CleanTicks(r, 11) == r11;
    assert CleanTicks(r, 12) == Step(r11, false);
  }

  lemma TickOnce(r: Registers)
    ensures CleanTicks(r, 1) == Step(r, false)
  {
    assert CleanTicks(Step(r, false), 0) == Step(r, false);
  }

  /** Inside the hold, before phase 8, the machine stays in HOLD_TORQUE. */
  lemma {:induction false} HoldStays(r: Registers, n: nat)
    requires r.state == HoldTorque && r.phaseCounter == 0 && n < 8
    ensures CleanTicks(r, n).state == HoldTorque && CleanTicks(r, n).phaseCounter == n
  {
    if n > 0 {
      HoldStays(r, n - 1);
      CleanTicksAdd(r, n - 1, 1);
      TickOnce(CleanTicks(r, n - 1));
    }
  }

  /** A violation seen in EXHALE ends the breath in IDLE after 11 ticks with no toll left. */
  lemma ViolatedBreath(r: Registers)
    requires r.state == Idle
    ensures var e := Step(CleanTicks(r, 10), true);
      e.state == Idle && e.torqueToll == 0 && High(e.portb, ExhaleBit)
  {
    var r1 := Step(r, false);
    var r2 := Step(r1, false);
    TickOnce(r);
    TickOnce(r1);
    CleanTicksAdd(r, 1, 1);
    HoldRun(r2, 0);
    CleanTicksAdd(r, 2, 8);
  }

  // ---------------------------------------------------------------------------------------
  // Invariant

  /** What every reachable state satisfies: a hold is always short of its eighth phase. */
  predicate Reachable(r: Registers)
  {
    r.state == HoldTorque ==> r.phaseCounter < 8
  }

  /** The power-on state is reachable, and every tick keeps reachability. */
  lemma ReachableInvariant(r: Registers, violation: bool)
    ensures Reachable(Registers(Idle, 0, 0, r.portb))
    ensures Reachable(r) ==> Reachable(Step(r, violation))
  {
  }
}
