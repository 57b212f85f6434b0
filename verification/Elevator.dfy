/** One elevator: its position register, driven once every four frames towards the end
    position while a switch is pressed and towards the start position otherwise. */
module Elevator {
  const DIVIDER := 3

  /** Wrap-around of 16-bit signed positions. */
  function S16(x: int): int { (x + 0x8000) % 0x1_0000 - 0x8000 }

  predicate IsShort(x: int) { -0x8000 <= x < 0x8000 }

  /** The registers; `counter` has two bits. */
  datatype Reg = Reg(y: int, stable: bool, counter: nat, on: bool)

  /** The inputs of one clock tick: reset, a rising edge of the frame clock, a pressed switch. */
  datatype In = In(reset: bool, edge: bool, pressed: bool)

  /** The movement logic; `stable` is read as it was before the tick. */
  function Toward(r: Reg, goal: int, dir: int): Reg {
    if r.stable then r.(stable := r.y == goal)
    else if r.y == goal then r.(stable := true)
    else r.(y := S16(r.y + dir))
  }

  /** The combinational next state. */
  function Comb(r: Reg, edge: bool, start: int, end: int): Reg {
    if !edge then r
    else if r.counter != DIVIDER then r.(counter := (r.counter + 1) % 4)
    else (if r.on then Toward(r, end, 1) else Toward(r, start, -1)).(counter := 0)
  }

  function AtReset(start: int): Reg { Reg(start, true, 0, false) }

  function Tick(r: Reg, i: In, start: int, end: int): Reg {
    if i.reset then AtReset(start) else Comb(r, i.edge, start, end).(on := i.pressed)
  }

  function Run(r: Reg, w: seq<In>, start: int, end: int): Reg
    decreases |w|
  {
    if w == [] then r else Run(Tick(r, w[0], start, end), w[1..], start, end)
  }

  /** The clocked registers. */
  class Registers {
    const start: int
    const end: int
    var y: int
    var stable: bool
    var counter: nat
    var on: bool

    ghost function View(): Reg
      reads this
    {
      Reg(y, stable, counter, on)
    }

    constructor (start: int, end: int)
      ensures View() == AtReset(start) && this.start == start && this.end == end
    {
      this.start, this.end := start, end;
      y, stable, counter, on := start, true, 0, false;
    }

    method Clock(i: In)
      modifies this
      ensures View() == Tick(old(View()), i, start, end)
    {
      if i.reset {
        y, stable, counter, on := start, true, 0, false;
        return;
      }
      var yIn, stableIn, counterIn := y, stable, counter;
      if i.edge {
        if counter == DIVIDER {
          if on {
            if stable && y != end { stableIn := false; }
            if !stable {
              if yIn == end { stableIn := true; } else { yIn := S16(yIn + 1); }
            }
          } else {
            if stable && y != start { stableIn := false; }
            if !stable {
              if yIn == start { stableIn := true; } else { yIn := S16(yIn - 1); }
            }
          }
        }
        if counter == DIVIDER { counterIn := 0; } else { counterIn := (counter + 1) % 4; }
      }
      y, stable, counter, on := yIn, stableIn, counterIn, i.pressed;
    }
  }

  // ---------------------------------------------------------------- safety

  predicate Safe(r: Reg, start: int, end: int) {
    IsShort(start) && IsShort(end) && start <= r.y <= end && r.counter <= DIVIDER
  }

  /** No schedule of resets, frames and switches moves the elevator off its track. */
  lemma {:induction false} RunKeeps(r: Reg, w: seq<In>, start: int, end: int)
    requires Safe(r, start, end)
    ensures Safe(Run(r, w, start, end), start, end)
    decreases |w|
  {
    if w != [] {
      RunKeeps(Tick(r, w[0], start, end), w[1..], start, end);
    }
  }

  /** On the track between the two positions, whichever is higher. */
  predicate Between(y: int, a: int, b: int) { a <= y <= b || b <= y <= a }

  lemma RunConcat(r: Reg, v: seq<In>, w: seq<In>, start: int, end: int)
    ensures Run(r, v + w, start, end) == Run(Run(r, v, start, end), w, start, end)
    decreases |v|
  {
    if v == [] {
      assert v + w == w;
    } else {
      assert (v + w)[1..] == v[1..] + w;
      RunConcat(Tick(r, v[0], start, end), v[1..], w, start, end);
    }
  }

  function Frames(pressed: bool, n: nat): seq<In> {
    seq(n, _ => In(false, true, pressed))
  }

  /** Four frames from a zero counter make one movement step. */
  lemma FourFrames(r: Reg, start: int, end: int)
    requires r.counter == 0 && r.on
    ensures Run(r, Frames(true, 4), start, end) == Toward(r, end, 1)
  {
    var f, n := In(false, true, true), 4;
    var r1 := r.(counter := 1);
    var r2 := r.(counter := 2);
    var r3 := r.(counter := 3);
    assert Frames(true, 4)[1..] == [f, f, f] && [f, f, f][1..] == [f, f] && [f, f][1..] == [f] && [f][1..] == [];
    assert Run(r3, [f], start, end) == Toward(r, end, 1);
    assert Run(r2, [f, f], start, end) == Run(r3, [f], start, end);
    assert Run(r1, [f, f, f], start, end) == Run(r2, [f, f], start, end);
  }

  /** A schedule that drives a misplaced elevator off its track. */
  function Offending(): seq<In> { [In(false, false, true)] + (Frames(true, 4) + Frames(true, 4)) }

  lemma Offends(start: int, end: int)
    requires IsShort(start) && IsShort(end) && end < start
    ensures Run(AtReset(start), Offending(), start, end).y == S16(start + 1)
  {
    var r := Reg(start, true, 0, true);
    assert Offending()[1..] == Frames(true, 4) + Frames(true, 4);
    RunConcat(r, Frames(true, 4), Frames(true, 4), start, end);
    FourFrames(r, start, end);
    FourFrames(r.(stable := false), start, end);
  }

  /** Every schedule keeps the elevator on its track if and only if the start position does
      not lie beyond the end position, or the track is all there is. */
  lemma SafetyIff(start: int, end: int)
    requires IsShort(start) && IsShort(end)
    ensures (forall w: seq<In> :: Between(Run(AtReset(start), w, start, end).y, start, end)) <==>
            start <= end || (start == 0x7FFF && end == -0x8000)
  {
    if start <= end {
      forall w: seq<In> ensures Between(Run(AtReset(start), w, start, end).y, start, end) {
        RunKeeps(AtReset(start), w, start, end);
      }
    } else {
      Offends(start, end);
      forall w: seq<In> ensures IsShort(Run(AtReset(start), w, start, end).y) {
        StaysShort(AtReset(start), w, start, end);
      }
      assert !Between(S16(start + 1), start, end) || (start == 0x7FFF && end == -0x8000);
    }
  }

  lemma {:induction false} StaysShort(r: Reg, w: seq<In>, start: int, end: int)
    requires IsShort(r.y) && IsShort(start)
    ensures IsShort(Run(r, w, start, end).y)
    decreases |w|
  {
    if w != [] {
      StaysShort(Tick(r, w[0], start, end), w[1..], start, end);
    }
  }

  // ---------------------------------------------------------------- speed and progress

  function Edges(w: seq<In>): nat {
    if w == [] then 0 else (if w[0].edge then 1 else 0) + Edges(w[1..])
  }

  predicate NoReset(w: seq<In>) { forall k :: 0 <= k < |w| ==> !w[k].reset }

  /** Over any stretch without a reset the elevator moves at most one place every four frames. */
  lemma {:induction false} SpeedBound(r: Reg, w: seq<In>, start: int, end: int)
    requires Safe(r, start, end) && NoReset(w)
    ensures var moved := Run(r, w, start, end).y - r.y;
            4 * (if moved >= 0 then moved else -moved) <= r.counter + Edges(w)
    decreases |w|
  {
    if w != [] {
      SpeedBound(Tick(r, w[0], start, end), w[1..], start, end);
    }
  }

  /** In particular, at most one place in four frames. */
  lemma AtMostOneInFour(r: Reg, w: seq<In>, start: int, end: int)
    requires Safe(r, start, end) && NoReset(w) && Edges(w) <= 4
    ensures -1 <= Run(r, w, start, end).y - r.y <= 1
  {
    SpeedBound(r, w, start, end);
  }

  /** The switches are held in one position throughout. */
  predicate Held(r: Reg, w: seq<In>, on: bool) {
    r.on == on && forall k :: 0 <= k < |w| ==> !w[k].reset && w[k].pressed == on
  }

  function Distance(r: Reg, start: int, end: int): int {
    if r.on then end - r.y else r.y - start
  }

  /** The frames still needed to get to where the elevator is going. */
  function FramesLeft(r: Reg, start: int, end: int): int {
    4 * (Distance(r, start, end) + if r.stable then 1 else 0) - r.counter
  }

  lemma OneTick(r: Reg, i: In, start: int, end: int)
    requires Safe(r, start, end) && !i.reset && i.pressed == r.on
    ensures var r' := Tick(r, i, start, end);
            if Distance(r, start, end) == 0 then Distance(r', start, end) == 0
            else FramesLeft(r', start, end) == FramesLeft(r, start, end) - if i.edge then 1 else 0
  {
  }

  lemma {:induction false} StaysThere(r: Reg, w: seq<In>, start: int, end: int)
    requires Safe(r, start, end) && Held(r, w, r.on) && Distance(r, start, end) == 0
    ensures Distance(Run(r, w, start, end), start, end) == 0
    decreases |w|
  {
    if w != [] {
      OneTick(r, w[0], start, end);
      StaysThere(Tick(r, w[0], start, end), w[1..], start, end);
    }
  }

  /** The exact time of arrival: from any state on the track, with the switches held, the
      elevator is at its goal if and only if FramesLeft frames have gone by. */
  lemma {:induction false} ArrivesExactly(r: Reg, w: seq<In>, start: int, end: int)
    requires Safe(r, start, end) && Held(r, w, r.on) && Distance(r, start, end) != 0
    ensures Distance(Run(r, w, start, end), start, end) == 0 <==> Edges(w) >= FramesLeft(r, start, end)
    decreases |w|
  {
    if w != [] {
      var r' := Tick(r, w[0], start, end);
      OneTick(r, w[0], start, end);
      if Distance(r', start, end) == 0 {
        StaysThere(r', w[1..], start, end);
      } else {
        ArrivesExactly(r', w[1..], start, end);
      }
    }
  }

  /** Bounded progress: with a switch held down the elevator is at its end position after at
      most four frames for each place to go and four more, and likewise at its start position
      with all switches released. It then stays. */
  lemma ArrivesInTime(r: Reg, w: seq<In>, start: int, end: int)
    requires Safe(r, start, end) && Held(r, w, r.on)
    requires Edges(w) >= 4 * (Distance(r, start, end) + 1)
    ensures Run(r, w, start, end).y == if r.on then end else start
  {
    if Distance(r, start, end) == 0 {
      StaysThere(r, w, start, end);
    } else {
      ArrivesExactly(r, w, start, end);
    }
    HeldOn(r, w, start, end);
  }

  lemma {:induction false} HeldOn(r: Reg, w: seq<In>, start: int, end: int)
    requires Held(r, w, r.on)
    ensures Run(r, w, start, end).on == r.on
    decreases |w|
  {
    if w != [] {
      HeldOn(Tick(r, w[0], start, end), w[1..], start, end);
    }
  }

  /** An elevator at its goal settles: with the switches held it is stable if and only if its
      next movement step has come, and it stays so. */
  lemma {:induction false} SettlesExactly(r: Reg, w: seq<In>, start: int, end: int)
    requires Safe(r, start, end) && Held(r, w, r.on) && Distance(r, start, end) == 0
    ensures Run(r, w, start, end).stable <==> r.stable || Edges(w) + r.counter >= 4
    decreases |w|
  {
    if w != [] {
      OneTick(r, w[0], start, end);
      SettlesExactly(Tick(r, w[0], start, end), w[1..], start, end);
    }
  }

  /** The switches work at once in both directions, nothing moves without a frame, and a reset
      brings the elevator back to its start. */
  lemma TickIs(r: Reg, i: In, start: int, end: int)
    ensures var r' := Tick(r, i, start, end);
            if i.reset then r'.y == start && r'.stable && r'.counter == 0 && !r'.on
            else (r'.on <==> i.pressed) && (!i.edge ==> r'.y == r.y && r'.stable == r.stable && r'.counter == r.counter)
  {
  }

  /** After any schedule the direction is that of the last tick, and after one that ends with
      a reset everything is as at the beginning. */
  lemma {:induction false} LastTick(r: Reg, w: seq<In>, start: int, end: int)
    requires w != []
    ensures var r', last := Run(r, w, start, end), w[|w| - 1];
            if last.reset then r'.y == start && r'.stable && r'.counter == 0 && !r'.on else r'.on == last.pressed
    decreases |w|
  {
    TickIs(r, w[0], start, end);
    if |w| > 1 { LastTick(Tick(r, w[0], start, end), w[1..], start, end); }
  }
}
