/**
 * Optional values, for decoders that may reject their payload and for
 * non-blocking queue polls that may find nothing.
 */
module Wrappers {
  datatype Option<+T> = None | Some(value: T)
}

/**
 * Types and constants of the LED demo: the light-state record, the mode and
 * speed enumerations, the power values, the render tick interval and the
 * MQTT topic names.
 */
module LedTypes {

  /** Unsigned C integer types. Arithmetic on them is on `int` (C's integer
      promotion); a value stored back must fit, or be truncated explicitly. */
  type u8 = x: int | 0 <= x < 0x100
  type u16 = x: int | 0 <= x < 0x1_0000

  const U8_MAX: nat := 0xFF
  const U16_MAX: nat := 0xFFFF

  /** ESP-IDF status codes as far as the core distinguishes them. */
  datatype EspErr = EspOk | EspFail

  const LED_POWER_ON_STR: string := "on"
  const LED_POWER_OFF_STR: string := "off"

  const LED_POWER_ON: u8 := 1
  const LED_POWER_OFF: u8 := 0

  /** Render period in milliseconds; blink half-periods are kept as multiples of it. */
  const LED_TASK_INTERVAL: nat := 10

  /** `led_mode_t` */
  const LED_BLINK: u8 := 1
  const LED_HUE_RAINBOW: u8 := 2

  /** `led_speed_t`: the hue step of one rainbow advance. */
  const RAINBOW_SLOW: u8 := 1
  const RAINBOW_NORMAL: u8 := 4
  const RAINBOW_QUICK: u8 := 12

  const TOPIC_CMND_POWER: string := "cmnd/led/power"
  const TOPIC_CMND_HUE: string := "cmnd/led/hue"
  const TOPIC_CMND_HSB: string := "cmnd/led/hsb"
  const TOPIC_CMND_MODE: string := "cmnd/led/mode"

  const TOPIC_STAT_POWER: string := "stat/led/power"
  const TOPIC_STAT_HSB: string := "stat/led/hsb"
  const TOPIC_STAT_MODE: string := "stat/led/mode"

  const QOS_1: nat := 1
  const RETAIN: bool := true

  /** `led_state_t`. `power`, `mode` and `speed` hold raw bytes: the decoders
      only ever store the named constants, but a value read back from flash
      may be any byte. The C `speed` member is an enum of which only the low
      byte is persisted, so a byte is all it can ever hold. */
  datatype LedState = LedState(
    power: u8,
    hue: u16,
    saturation: u8,
    brightness: u8,
    mode: u8,
    onTime: u16,
    offTime: u16,
    speed: u8)

  /** The static initialiser of the canonical record. */
  const DEFAULT_LED_STATE: LedState :=
    LedState(LED_POWER_ON, 359, 255, 255, LED_HUE_RAINBOW, 500, 500, RAINBOW_NORMAL)

  predicate IsSpeed(speed: u8) {
    speed == RAINBOW_SLOW || speed == RAINBOW_NORMAL || speed == RAINBOW_QUICK
  }

  /** The values the command decoders can produce: power is one of two
      values, exactly one mode is selected, the hue is at most 360, the blink
      half-periods are whole ticks and the speed is a named step. */
  predicate WellFormed(st: LedState) {
    && (st.power == LED_POWER_ON || st.power == LED_POWER_OFF)
    && st.hue <= 360
    && (st.mode == LED_BLINK || st.mode == LED_HUE_RAINBOW)
    && st.onTime % LED_TASK_INTERVAL == 0
    && st.offTime % LED_TASK_INTERVAL == 0
    && IsSpeed(st.speed)
  }

  /** The three rainbow steps are at most 12, so a cursor below 360 plus a
      step stays far below the 16-bit limit. */
  lemma SpeedStepsBounded(speed: u8, cursor: u16)
    requires IsSpeed(speed) && cursor < 360
    ensures speed <= 12
    ensures cursor + speed < 372 < U16_MAX
  {
  }

  lemma DefaultIsWellFormed()
    ensures WellFormed(DEFAULT_LED_STATE)
  {
  }
}
