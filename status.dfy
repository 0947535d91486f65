/**
 * The status texts that `sync_led_state` publishes on the `stat/led` topics,
 * and their relation to the command decoders: decoding a status text
 * reproduces the state it was made from.
 */
module Status {
  import opened LedTypes
  import opened CText
  import opened Wrappers
  import opened Commands

  /** One `esp_mqtt_client_enqueue` request. */
  datatype Publish = Publish(topic: string, payload: string, qos: nat, retain: bool)

  /** `"%hu,%hhu,%hhu"` of hue, saturation and brightness: three digit
      strings, separated by commas, whose values are the three components. */
  function HsbText(st: LedState): (s: string)
    ensures exists h, sat, b ::
              && s == h + "," + sat + "," + b
              && AllDigits(h) && ValueOf(h) == st.hue
              && AllDigits(sat) && ValueOf(sat) == st.saturation
              && AllDigits(b) && ValueOf(b) == st.brightness
  {
    ValueOfDecimal(st.hue);
    ValueOfDecimal(st.saturation);
    ValueOfDecimal(st.brightness);
    HsbPayload(st.hue, st.saturation, st.brightness)
  }

  /** "on" for any non-zero power byte, "off" for zero. */
  function PowerText(st: LedState): (s: string)
    ensures s == LED_POWER_ON_STR || s == LED_POWER_OFF_STR
    ensures s == LED_POWER_ON_STR <==> st.power != 0
  {
    if st.power != 0 then LED_POWER_ON_STR else LED_POWER_OFF_STR
  }

  /** The rainbow speed name: slow and normal by value, quick for every
      other byte. */
  function SpeedName(speed: u8): (name: string)
    ensures name == "slow" || name == "normal" || name == "quick"
    ensures name == "slow" <==> speed == RAINBOW_SLOW
    ensures name == "normal" <==> speed == RAINBOW_NORMAL
  {
    if speed == RAINBOW_SLOW then "slow" else if speed == RAINBOW_NORMAL then "normal" else "quick"
  }

  /** What a rainbow command with this speed's name selects: the speed
      itself for the three named steps, quick for any other byte. */
  function NamedSpeed(speed: u8): (r: u8)
    ensures IsSpeed(r)
    ensures IsSpeed(speed) ==> r == speed
  {
    if speed == RAINBOW_SLOW || speed == RAINBOW_NORMAL then speed else RAINBOW_QUICK
  }

  /** The content of `s_out_msg` once the mode switch has run. For a mode
      byte other than the two, no case writes the buffer, so it still holds
      the H,S,B text written just before. */
  function ModeText(st: LedState): (s: string)
    ensures st.mode == LED_BLINK ==> ScanBlink(s) == Some((st.onTime, st.offTime))
    ensures st.mode == LED_HUE_RAINBOW ==>
              s == RAINBOW_SLOW_CMND || s == RAINBOW_NORMAL_CMND || s == RAINBOW_QUICK_CMND
    ensures st.mode != LED_BLINK && st.mode != LED_HUE_RAINBOW ==> s == HsbText(st)
  {
    if st.mode == LED_BLINK then
      ScanBlinkOfDecimals(st.onTime, st.offTime, []);
      assert BlinkPayload(st.onTime, st.offTime) + [] == BlinkPayload(st.onTime, st.offTime);
      BlinkPayload(st.onTime, st.offTime)
    else if st.mode == LED_HUE_RAINBOW then "hue_rainbow," + SpeedName(st.speed)
    else HsbText(st)
  }

  /** The three messages, in the order `sync_led_state` enqueues them, all
      QoS 1 and retained. */
  function StatusMessages(st: LedState): (ms: seq<Publish>)
    ensures |ms| == 3
    ensures ms[0].topic == TOPIC_STAT_HSB && ms[1].topic == TOPIC_STAT_POWER && ms[2].topic == TOPIC_STAT_MODE
    ensures forall m :: m in ms ==> m.qos == QOS_1 && m.retain
  {
    [ Publish(TOPIC_STAT_HSB, HsbText(st), QOS_1, RETAIN),
      Publish(TOPIC_STAT_POWER, PowerText(st), QOS_1, RETAIN),
      Publish(TOPIC_STAT_MODE, ModeText(st), QOS_1, RETAIN) ]
  }

  // ---------------------------------------------------------------------
  // Round trips through the command decoders

  lemma PowerTextRoundTrip(snap: LedState, st: LedState)
    ensures DecodePower(snap, PowerText(st)) ==
              Some(snap.(power := if st.power != 0 then LED_POWER_ON else LED_POWER_OFF))
  {
  }

  /** The stat/led/hsb text fed to cmnd/led/hsb sets the same colour (a hue
      above 360, which only a corrupt flash entry can hold, is refused). */
  lemma HsbTextRoundTrip(snap: LedState, st: LedState)
    ensures DecodeHsb(snap, HsbText(st)) ==
              if st.hue <= 360 then Some(snap.(hue := st.hue, saturation := st.saturation, brightness := st.brightness))
              else None
  {
    assert HsbText(st) + [] == HsbText(st);
    DecodeHsbOfDecimals(snap, st.hue, st.saturation, st.brightness, []);
  }

  /** The stat/led/mode text fed to cmnd/led/mode selects the same mode,
      the blink times floored to whole ticks and the rainbow speed by name. */
  lemma ModeTextRoundTrip(snap: LedState, st: LedState)
    requires st.mode == LED_BLINK || st.mode == LED_HUE_RAINBOW
    ensures st.mode == LED_BLINK ==>
              DecodeMode(snap, ModeText(st)) ==
              Some(snap.(mode := LED_BLINK, onTime := FloorToTick(st.onTime), offTime := FloorToTick(st.offTime)))
    ensures st.mode == LED_HUE_RAINBOW ==>
              DecodeMode(snap, ModeText(st)) == Some(snap.(mode := LED_HUE_RAINBOW, speed := NamedSpeed(st.speed)))
  {
    if st.mode == LED_BLINK {
      BlinkTextRoundTrip(snap, st);
    } else {
      DecodeModeRainbowLiterals(snap);
    }
  }

  lemma BlinkTextRoundTrip(snap: LedState, st: LedState)
    requires st.mode == LED_BLINK
    ensures DecodeMode(snap, BlinkPayload(st.onTime, st.offTime)) ==
              Some(snap.(mode := LED_BLINK, onTime := FloorToTick(st.onTime), offTime := FloorToTick(st.offTime)))
  {
    assert BlinkPayload(st.onTime, st.offTime) + [] == BlinkPayload(st.onTime, st.offTime);
    DecodeModeBlinkOfDecimals(snap, st.onTime, st.offTime, []);
  }

  /** A well-formed state is a fixed point of publishing and decoding: each
      of its three status texts, fed to the matching decoder with the state
      itself as snapshot, reproduces the state. */
  lemma StatusIsFixedPoint(st: LedState)
    requires WellFormed(st)
    ensures DecodePower(st, PowerText(st)) == Some(st)
    ensures DecodeHsb(st, HsbText(st)) == Some(st)
    ensures DecodeMode(st, ModeText(st)) == Some(st)
  {
    PowerTextRoundTrip(st, st);
    assert st.(power := if st.power != 0 then LED_POWER_ON else LED_POWER_OFF) == st;
    HsbTextRoundTrip(st, st);
    assert st.(hue := st.hue, saturation := st.saturation, brightness := st.brightness) == st;
    ModeTextRoundTrip(st, st);
    if st.mode == LED_BLINK {
      assert FloorToTick(st.onTime) == st.onTime && FloorToTick(st.offTime) == st.offTime;
      assert st.(mode := LED_BLINK, onTime := st.onTime, offTime := st.offTime) == st;
    } else {
      assert st.(mode := LED_HUE_RAINBOW, speed := NamedSpeed(st.speed)) == st;
    }
  }
}
