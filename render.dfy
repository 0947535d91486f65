/**
 * One iteration of the render loop of `led_task`, as a function of the
 * current record and the loop's locals, and what repeated iterations do:
 * the rainbow cursor advances every third tick and stays below 360, a blink
 * half-period lasts a fixed number of ticks and the two half-periods
 * alternate, and a powered-off LED stays dark.
 */
module Render {
  import opened Wrappers
  import opened LedTypes

  /** The colour handed to the strip driver. */
  datatype Pixel = Pixel(hue: u16, saturation: u8, brightness: u8)

  /** The locals of `led_task` that survive from one tick to the next:
      the tick counter, the current blink half-period, whether the LED is
      lit in blink mode, and the rainbow hue cursor. */
  datatype Phase = Phase(ticks: u16, duration: u16, light: bool, cursor: u16)

  /** The outcome of one tick: the new locals and the pixel drawn, if any. */
  datatype Frame = Frame(next: Phase, drawn: Option<Pixel>)

  /** The locals right after a record has been taken from the queue: the
      cursor starts on the hue circle and the counter at the start of a
      half-period. */
  function Restart(st: LedState): (p: Phase)
    ensures p.cursor < 360 && p.ticks == 0
  {
    Phase(0, st.onTime, false, 0)
  }

  /** The number of ticks a blink half-period of `d` milliseconds counts
      after the tick that starts it: the least `t` with `t * 10 >= d - 1`. */
  function HalfTicks(d: u16): nat {
    (d + 8) / 10
  }

  /** The tick that takes a record shows it at once: a rainbow from hue 0,
      a blink with a non-zero on-time lit. */
  lemma RestartShowsAtOnce(st: LedState)
    ensures st.power == LED_POWER_ON && st.mode == LED_HUE_RAINBOW ==>
              RenderStep(st, Restart(st)).drawn == Some(Pixel(0, st.saturation, st.brightness))
    ensures st.power == LED_POWER_ON && st.mode == LED_BLINK && st.onTime != 0 ==>
              RenderStep(st, Restart(st)).drawn == Some(Pixel(st.hue, st.saturation, st.brightness))
  {
  }

  /** The loop's test `ticks * LED_TASK_INTERVAL < duration - 1` (on `int`,
      so a zero duration gives `-1`) is a bound on the counter. */
  lemma CountTest(ticks: u16, d: u16)
    ensures ticks * LED_TASK_INTERVAL < d - 1 <==> ticks < HalfTicks(d)
  {
  }

  function BlinkStep(st: LedState, p: Phase): (f: Frame)
    ensures f.next.cursor == p.cursor
    ensures f.drawn.Some? <==> p.ticks == 0 && p.duration != 0
    ensures f.drawn.Some? ==>
              f.drawn.value == Pixel(st.hue, st.saturation, if p.light then 0 else st.brightness)
    ensures f.next.light == (p.light != f.drawn.Some?)
    ensures f.next.ticks != 0 <==> p.ticks < HalfTicks(p.duration)
  {
    CountTest(p.ticks, p.duration);
    var draw := p.ticks == 0 && p.duration != 0;
    var light := if draw then !p.light else p.light;
    var drawn := if draw then Some(Pixel(st.hue, st.saturation, if p.light then 0 else st.brightness)) else None;
    if p.ticks * LED_TASK_INTERVAL < p.duration - 1 then
      Frame(p.(ticks := p.ticks + 1, light := light), drawn)
    else
      Frame(p.(ticks := 0, duration := if light then st.offTime else st.onTime, light := light), drawn)
  }

  /** The cursor after one rainbow advance: the 16-bit sum, reset to 0 once
      it reaches 360. */
  function Advance(cursor: u16, speed: u8): (c: u16)
    ensures c < 360
    ensures cursor + speed < 360 ==> c == cursor + speed
    ensures 360 <= cursor + speed < 0x1_0000 ==> c == 0
  {
    var sum := (cursor + speed) % 0x1_0000;
    if sum >= 360 then 0 else sum
  }

  function RainbowStep(st: LedState, p: Phase): (f: Frame)
    ensures f.drawn == Some(Pixel(p.cursor, st.saturation, st.brightness))
  {
    if p.ticks < 2 then Frame(p.(ticks := p.ticks + 1), Some(Pixel(p.cursor, st.saturation, st.brightness)))
    else Frame(p.(ticks := 0, cursor := Advance(p.cursor, st.speed)), Some(Pixel(p.cursor, st.saturation, st.brightness)))
  }

  /** One tick: a record whose power is not `LED_POWER_ON` is drawn dark in
      its own hue and saturation; a powered record renders by its mode, and
      a mode byte that is neither mode draws nothing. */
  function RenderStep(st: LedState, p: Phase): (f: Frame)
    ensures st.power != LED_POWER_ON ==> f == Frame(p, Some(Pixel(st.hue, st.saturation, 0)))
    ensures p.cursor < 360 ==> f.next.cursor < 360
  {
    if st.power == LED_POWER_ON then
      if st.mode == LED_BLINK then BlinkStep(st, p)
      else if st.mode == LED_HUE_RAINBOW then RainbowStep(st, p)
      else Frame(p, None)
    else Frame(p, Some(Pixel(st.hue, st.saturation, 0)))
  }

  /** The locals after `n` ticks with the same record. */
  function Run(st: LedState, p: Phase, n: nat): Phase
    decreases n
  {
    if n == 0 then p else Run(st, RenderStep(st, p).next, n - 1)
  }

  /** What each of `n` ticks with the same record draws. */
  function Draws(st: LedState, p: Phase, n: nat): (d: seq<Option<Pixel>>)
    ensures |d| == n
    decreases n
  {
    if n == 0 then [] else [RenderStep(st, p).drawn] + Draws(st, RenderStep(st, p).next, n - 1)
  }

  lemma {:induction false} RunSplit(st: LedState, p: Phase, a: nat, b: nat)
    ensures Run(st, p, a + b) == Run(st, Run(st, p, a), b)
    ensures Draws(st, p, a + b) == Draws(st, p, a) + Draws(st, Run(st, p, a), b)
    decreases a
  {
    if a > 0 {
      var q := RenderStep(st, p).next;
      RunSplit(st, q, a - 1, b);
      assert a + b - 1 == (a - 1) + b;
    }
  }

  // ---------------------------------------------------------------------
  // Rainbow

  predicate RainbowOn(st: LedState) {
    st.power == LED_POWER_ON && st.mode == LED_HUE_RAINBOW
  }

  /** From any locals whose cursor is below 360, the cursor never leaves
      the hue circle. */
  lemma {:induction false} CursorStaysOnCircle(st: LedState, p: Phase, n: nat)
    requires p.cursor < 360
    ensures Run(st, p, n).cursor < 360
    decreases n
  {
    if n > 0 {
      CursorStaysOnCircle(st, RenderStep(st, p).next, n - 1);
    }
  }

  /** Three ticks from a zero counter advance the cursor once, drawing the
      old cursor three times. */
  lemma RainbowThreeTicks(st: LedState, p: Phase)
    requires RainbowOn(st) && p.ticks == 0
    ensures Run(st, p, 3) == p.(cursor := Advance(p.cursor, st.speed))
    ensures Draws(st, p, 3) == seq(3, _ => Some(Pixel(p.cursor, st.saturation, st.brightness)))
  {
  }

  /** While the sum stays below 360, the cursor after `3k` ticks from a
      reset is `k * speed`: no wrap and no truncation on the way. */
  lemma {:induction false} RainbowCursor(st: LedState, k: nat)
    requires RainbowOn(st) && k * st.speed < 360
    ensures Run(st, Restart(st), 3 * k) == Restart(st).(cursor := k * st.speed)
    decreases k
  {
    if k > 0 {
      assert (k - 1) * st.speed == k * st.speed - st.speed;
      RainbowCursor(st, k - 1);
      RunSplit(st, Restart(st), 3 * (k - 1), 3);
      assert 3 * k == 3 * (k - 1) + 3;
      RainbowThreeTicks(st, Run(st, Restart(st), 3 * (k - 1)));
    }
  }

  /** For a step that divides 360, as all three named speeds do, the
      advance that reaches 360 resets the cursor to 0: after `360 / speed`
      advances the locals are back at the reset, so the rainbow repeats
      every `3 * (360 / speed)` ticks. */
  lemma RainbowCycle(st: LedState)
    requires RainbowOn(st) && 0 < st.speed && 360 % st.speed == 0
    ensures Run(st, Restart(st), 3 * (360 / st.speed)) == Restart(st)
  {
    var n := 360 / st.speed;
    assert n * st.speed == 360;
    assert (n - 1) * st.speed == 360 - st.speed;
    RainbowCursor(st, n - 1);
    RunSplit(st, Restart(st), 3 * (n - 1), 3);
    assert 3 * n == 3 * (n - 1) + 3;
    RainbowThreeTicks(st, Run(st, Restart(st), 3 * (n - 1)));
  }

  lemma NamedSpeedsDivideCircle(speed: u8)
    requires IsSpeed(speed)
    ensures 0 < speed && 360 % speed == 0
  {
  }

  // ---------------------------------------------------------------------
  // Blink

  predicate BlinkOn(st: LedState) {
    st.power == LED_POWER_ON && st.mode == LED_BLINK
  }

  /** The counting ticks of a half-period: from a counter in `1..T` the
      counter climbs to `T` without drawing, and the next tick wraps it and
      loads the other half-period. */
  lemma {:induction false} BlinkCountdown(st: LedState, p: Phase)
    requires BlinkOn(st)
    requires 1 <= p.ticks <= HalfTicks(p.duration)
    ensures var n := HalfTicks(p.duration) + 1 - p.ticks;
      && Run(st, p, n) == Phase(0, if p.light then st.offTime else st.onTime, p.light, p.cursor)
      && Draws(st, p, n) == seq(n, _ => None)
    decreases HalfTicks(p.duration) - p.ticks
  {
    var n := HalfTicks(p.duration) + 1 - p.ticks;
    var q := RenderStep(st, p).next;
    if p.ticks < HalfTicks(p.duration) {
      assert q == p.(ticks := p.ticks + 1);
      BlinkCountdown(st, q);
      assert Draws(st, p, n) == [None] + Draws(st, q, n - 1);
    } else {
      assert Draws(st, q, 0) == [];
    }
  }

  /** A blink half-period of `d != 0` milliseconds, started with counter 0,
      draws once (lit at full brightness when it was dark, at 0 when it was
      lit), then counts `HalfTicks(d)` silent ticks, then starts the other
      half-period: `HalfTicks(d) + 1` ticks in all. */
  lemma BlinkHalfPeriod(st: LedState, p: Phase)
    requires BlinkOn(st) && p.ticks == 0 && p.duration != 0
    ensures var n := HalfTicks(p.duration) + 1;
      && Run(st, p, n) == Phase(0, if p.light then st.onTime else st.offTime, !p.light, p.cursor)
      && Draws(st, p, n) ==
           [Some(Pixel(st.hue, st.saturation, if p.light then 0 else st.brightness))] + seq(n - 1, _ => None)
  {
    var n := HalfTicks(p.duration) + 1;
    var q := RenderStep(st, p).next;
    if HalfTicks(p.duration) == 0 {
      assert Draws(st, q, 0) == [];
    } else {
      assert q == Phase(1, p.duration, !p.light, p.cursor);
      BlinkCountdown(st, q);
    }
  }

  /** With both half-periods non-zero, a blink reset returns to itself after
      `HalfTicks(on) + HalfTicks(off) + 2` ticks, having drawn exactly the
      lit pixel first and the dark pixel at the start of the off half. */
  lemma BlinkPeriod(st: LedState)
    requires BlinkOn(st) && st.onTime != 0 && st.offTime != 0
    ensures var a := HalfTicks(st.onTime) + 1;
      var b := HalfTicks(st.offTime) + 1;
      && Run(st, Restart(st), a + b) == Restart(st)
      && Draws(st, Restart(st), a + b) ==
           [Some(Pixel(st.hue, st.saturation, st.brightness))] + seq(a - 1, _ => None) +
           [Some(Pixel(st.hue, st.saturation, 0))] + seq(b - 1, _ => None)
  {
    var a := HalfTicks(st.onTime) + 1;
    RunSplit(st, Restart(st), a, HalfTicks(st.offTime) + 1);
    BlinkHalfPeriod(st, Restart(st));
    BlinkHalfPeriod(st, Run(st, Restart(st), a));
  }

  /** A zero on-time never draws: the locals after a reset are a fixed point. */
  lemma {:induction false} BlinkZeroOnTime(st: LedState, n: nat)
    requires BlinkOn(st) && st.onTime == 0
    ensures Run(st, Restart(st), n) == Restart(st)
    ensures Draws(st, Restart(st), n) == seq(n, _ => None)
    decreases n
  {
    if n > 0 {
      BlinkZeroOnTime(st, n - 1);
    }
  }

  /** A zero off-time stops the blinking lit: once the on half-period has
      run its course nothing is drawn again, so the LED keeps the lit pixel. */
  lemma {:induction false} BlinkZeroOffTime(st: LedState, p: Phase, n: nat)
    requires BlinkOn(st) && st.offTime == 0
    requires p == Phase(0, 0, true, p.cursor)
    ensures Run(st, p, n) == p
    ensures Draws(st, p, n) == seq(n, _ => None)
    decreases n
  {
    if n > 0 {
      BlinkZeroOffTime(st, p, n - 1);
    }
  }

  // ---------------------------------------------------------------------
  // Power off

  /** While the record is powered off, the locals are frozen and every
      tick draws the record's colour at brightness 0. */
  lemma {:induction false} PowerOffStaysDark(st: LedState, p: Phase, n: nat)
    requires st.power != LED_POWER_ON
    ensures Run(st, p, n) == p
    ensures Draws(st, p, n) == seq(n, _ => Some(Pixel(st.hue, st.saturation, 0)))
    decreases n
  {
    if n > 0 {
      PowerOffStaysDark(st, p, n - 1);
    }
  }
}
