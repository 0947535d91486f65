/**
 * The command decoders of the four cmnd/led topics. Each one takes a
 * snapshot of the canonical light state and the payload (the `data_len`
 * bytes of the message, NUL-terminated by the MQTT handler), replaces only
 * the fields that its command owns, and yields the whole record to submit,
 * or `None` when the payload is rejected (the C handler returns `ESP_FAIL`
 * and enqueues nothing).
 */
module Commands {
  import opened Wrappers
  import opened LedTypes
  import opened CText

  /** `handle_cmnd_hsb2`: the snapshot with each given colour component
      replaced and every other field kept. */
  function ApplyHsb(snap: LedState, hue: Option<u16>, saturation: Option<u8>, brightness: Option<u8>): (r: LedState)
    ensures r.hue == (if hue.Some? then hue.value else snap.hue)
    ensures r.saturation == (if saturation.Some? then saturation.value else snap.saturation)
    ensures r.brightness == (if brightness.Some? then brightness.value else snap.brightness)
    ensures r.(hue := snap.hue, saturation := snap.saturation, brightness := snap.brightness) == snap
  {
    snap.(hue := if hue.Some? then hue.value else snap.hue,
          saturation := if saturation.Some? then saturation.value else snap.saturation,
          brightness := if brightness.Some? then brightness.value else snap.brightness)
  }

  /** `handle_cmnd_power`. The `strncmp` against "on" is bounded by the
      payload length and tried first, so every prefix of "on" (the empty
      payload too) switches the light on, and "of" switches it off. */
  function DecodePower(snap: LedState, data: string): (r: Option<LedState>)
    ensures CMatch(data, LED_POWER_ON_STR) ==> r == Some(snap.(power := LED_POWER_ON))
    ensures !CMatch(data, LED_POWER_ON_STR) && CMatch(data, LED_POWER_OFF_STR) ==>
              r == Some(snap.(power := LED_POWER_OFF))
    ensures !CMatch(data, LED_POWER_ON_STR) && !CMatch(data, LED_POWER_OFF_STR) ==> r == None
  {
    StrnEqualLiteral(data, LED_POWER_ON_STR);
    StrnEqualLiteral(data, LED_POWER_OFF_STR);
    if StrnEqual(data, LED_POWER_ON_STR, |data|) then Some(snap.(power := LED_POWER_ON))
    else if StrnEqual(data, LED_POWER_OFF_STR, |data|) then Some(snap.(power := LED_POWER_OFF))
    else None
  }

  /** `sscanf(data, "%hu", &hue) >= 1` */
  function ScanHue(data: string): (r: Option<u16>)
    ensures r.Some? <==> 0 < |data| && IsDigit(data[0]) && ValueOf(data[..DigitRun(data)]) <= U16_MAX
    ensures r.Some? ==> r.value == ValueOf(data[..DigitRun(data)])
  {
    match ScanUnsigned(data, U16_MAX)
    case None => None
    case Some(h) => Some(h.value)
  }

  /** `handle_cmnd_hue`: the hue bound is inclusive, 360 is accepted. */
  function DecodeHue(snap: LedState, data: string): (r: Option<LedState>)
    ensures r.Some? <==> ScanHue(data).Some? && ScanHue(data).value <= 360
    ensures r.Some? ==> r.value.hue == ScanHue(data).value && r.value.(hue := snap.hue) == snap
  {
    match ScanHue(data)
    case None => None
    case Some(hue) => if hue <= 360 then Some(ApplyHsb(snap, Some(hue), None, None)) else None
  }

  /** `sscanf(data, "%hu,%hhu,%hhu", ...) == 3`: the three numbers, or
      `None` when fewer than three conversions succeed. */
  function ScanHsb(data: string): (r: Option<(u16, u8, u8)>)
    ensures r.Some? ==> 0 < |data| && IsDigit(data[0])
  {
    match ScanUnsigned(data, U16_MAX)
    case None => None
    case Some(h) =>
      match After(h.rest, ",")
      case None => None
      case Some(t1) =>
        match ScanUnsigned(t1, U8_MAX)
        case None => None
        case Some(s) =>
          match After(s.rest, ",")
          case None => None
          case Some(t2) =>
            match ScanUnsigned(t2, U8_MAX)
            case None => None
            case Some(b) => Some((h.value, s.value, b.value))
  }

  /** `handle_cmnd_hsb`: all three colour components or none; the hue
      bound is inclusive. */
  function DecodeHsb(snap: LedState, data: string): (r: Option<LedState>)
    ensures r.Some? <==> ScanHsb(data).Some? && ScanHsb(data).value.0 <= 360
    ensures r.Some? ==> var (h, s, b) := ScanHsb(data).value;
      r.value == snap.(hue := h, saturation := s, brightness := b)
  {
    match ScanHsb(data)
    case None => None
    case Some((h, s, b)) =>
      if h <= 360 then Some(ApplyHsb(snap, Some(h), Some(s), Some(b))) else None
  }

  /** `sscanf(data, "blink,%hu,%hu", ...) == 2` */
  function ScanBlink(data: string): (r: Option<(u16, u16)>)
    ensures r.Some? ==> "blink," <= data
  {
    match After(data, "blink,")
    case None => None
    case Some(t0) =>
      match ScanUnsigned(t0, U16_MAX)
      case None => None
      case Some(on) =>
        match After(on.rest, ",")
        case None => None
        case Some(t1) =>
          match ScanUnsigned(t1, U16_MAX)
          case None => None
          case Some(off) => Some((on.value, off.value))
  }

  /** `t - t % LED_TASK_INTERVAL`: the largest whole number of ticks not
      above `t`. */
  function FloorToTick(t: u16): (r: u16)
    ensures r % LED_TASK_INTERVAL == 0 && r <= t < r + LED_TASK_INTERVAL
  {
    t - t % LED_TASK_INTERVAL
  }

  const RAINBOW_SLOW_CMND: string := "hue_rainbow,slow"
  const RAINBOW_NORMAL_CMND: string := "hue_rainbow,normal"
  const RAINBOW_QUICK_CMND: string := "hue_rainbow,quick"

  predicate StartsWithBlink(data: string) {
    5 <= |data| && data[..5] == "blink"
  }

  /** `handle_cmnd_mode`. "blink" is matched on its five letters; the
      rainbow literals are matched as prefixes bounded by the payload
      length, slow first, so the empty payload and "hue_rainbow," select
      the slow rainbow. */
  function DecodeMode(snap: LedState, data: string): (r: Option<LedState>)
    ensures StartsWithBlink(data) ==>
              if ScanBlink(data).None? then r == None
              else r == Some(snap.(mode := LED_BLINK,
                                   onTime := FloorToTick(ScanBlink(data).value.0),
                                   offTime := FloorToTick(ScanBlink(data).value.1)))
    ensures !StartsWithBlink(data) && CMatch(data, RAINBOW_SLOW_CMND) ==>
              r == Some(snap.(mode := LED_HUE_RAINBOW, speed := RAINBOW_SLOW))
    ensures !StartsWithBlink(data) && !CMatch(data, RAINBOW_SLOW_CMND) && CMatch(data, RAINBOW_NORMAL_CMND) ==>
              r == Some(snap.(mode := LED_HUE_RAINBOW, speed := RAINBOW_NORMAL))
    ensures (!StartsWithBlink(data) && !CMatch(data, RAINBOW_SLOW_CMND) && !CMatch(data, RAINBOW_NORMAL_CMND)
              && CMatch(data, RAINBOW_QUICK_CMND)) ==>
              r == Some(snap.(mode := LED_HUE_RAINBOW, speed := RAINBOW_QUICK))
    ensures (!StartsWithBlink(data) && !CMatch(data, RAINBOW_SLOW_CMND) && !CMatch(data, RAINBOW_NORMAL_CMND)
              && !CMatch(data, RAINBOW_QUICK_CMND)) ==> r == None
  {
    StrnEqualPrefix(data, "blink");
    StrnEqualLiteral(data, RAINBOW_SLOW_CMND);
    StrnEqualLiteral(data, RAINBOW_NORMAL_CMND);
    StrnEqualLiteral(data, RAINBOW_QUICK_CMND);
    if StrnEqual(data, "blink", 5) then
      match ScanBlink(data)
      case None => None
      case Some((on, off)) =>
        Some(snap.(mode := LED_BLINK, onTime := FloorToTick(on), offTime := FloorToTick(off)))
    else if StrnEqual(data, RAINBOW_SLOW_CMND, |data|) then
      Some(snap.(mode := LED_HUE_RAINBOW, speed := RAINBOW_SLOW))
    else if StrnEqual(data, RAINBOW_NORMAL_CMND, |data|) then
      Some(snap.(mode := LED_HUE_RAINBOW, speed := RAINBOW_NORMAL))
    else if StrnEqual(data, RAINBOW_QUICK_CMND, |data|) then
      Some(snap.(mode := LED_HUE_RAINBOW, speed := RAINBOW_QUICK))
    else None
  }

  // ---------------------------------------------------------------------
  // Properties of the decoders

  /** A decimal hue followed by anything but a digit is accepted exactly
      when it is at most 360, and then only the hue changes. */
  lemma DecodeHueOfDecimal(snap: LedState, h: u16, rest: string)
    requires rest == [] || !IsDigit(rest[0])
    ensures DecodeHue(snap, Decimal(h) + rest) == if h <= 360 then Some(snap.(hue := h)) else None
  {
    ScanDecimal(h, rest, U16_MAX);
  }

  /** The boundary of the hue check: 360 passes, 361 does not. */
  lemma HueBoundIsInclusive(snap: LedState)
    ensures DecodeHue(snap, Decimal(360)) == Some(snap.(hue := 360))
    ensures DecodeHue(snap, Decimal(361)) == None
  {
    assert Decimal(360) + [] == Decimal(360);
    assert Decimal(361) + [] == Decimal(361);
    DecodeHueOfDecimal(snap, 360, []);
    DecodeHueOfDecimal(snap, 361, []);
  }

  /** A payload of three decimal numbers separated by commas. */
  function HsbPayload(h: nat, s: nat, b: nat): string {
    Decimal(h) + "," + Decimal(s) + "," + Decimal(b)
  }

  /** Three numbers in range, separated by commas, scan back to themselves. */
  lemma ScanHsbOfDecimals(h: u16, s: u8, b: u8, rest: string)
    requires rest == [] || !IsDigit(rest[0])
    ensures ScanHsb(HsbPayload(h, s, b) + rest) == Some((h, s, b))
  {
    assert HsbPayload(h, s, b) + rest == Decimal(h) + ("," + (Decimal(s) + ("," + (Decimal(b) + rest))));
    ScanHsbFields(h, s, b, rest);
  }

  lemma ScanHsbFields(h: u16, s: u8, b: u8, rest: string)
    requires rest == [] || !IsDigit(rest[0])
    ensures ScanHsb(Decimal(h) + ("," + (Decimal(s) + ("," + (Decimal(b) + rest))))) == Some((h, s, b))
  {
    var t2 := Decimal(b) + rest;
    var t1 := Decimal(s) + ("," + t2);
    ScanDecimal(h, "," + t1, U16_MAX);
    ScanDecimal(s, "," + t2, U8_MAX);
    ScanDecimal(b, rest, U8_MAX);
    ScanHsbSteps(Decimal(h) + ("," + t1), h, t1, s, t2, b, rest);
  }

  /** The three conversions of `ScanHsb`, one after the other. */
  lemma ScanHsbSteps(data: string, h: u16, t1: string, s: u8, t2: string, b: u8, rest: string)
    requires ScanUnsigned(data, U16_MAX) == Some(Scan(h, "," + t1))
    requires ScanUnsigned(t1, U8_MAX) == Some(Scan(s, "," + t2))
    requires ScanUnsigned(t2, U8_MAX) == Some(Scan(b, rest))
    ensures ScanHsb(data) == Some((h, s, b))
  {
    AfterConcat(",", t1);
    AfterConcat(",", t2);
  }

  /** Three numbers in range are all taken over when the hue is at most
      360, and nothing is when it is larger (say "361,0,0"). */
  lemma DecodeHsbOfDecimals(snap: LedState, h: u16, s: u8, b: u8, rest: string)
    requires rest == [] || !IsDigit(rest[0])
    ensures DecodeHsb(snap, HsbPayload(h, s, b) + rest) ==
              if h <= 360 then Some(snap.(hue := h, saturation := s, brightness := b)) else None
  {
    ScanHsbOfDecimals(h, s, b, rest);
  }

  /** The blink payload with two decimal times. */
  function BlinkPayload(on: nat, off: nat): string {
    "blink," + Decimal(on) + "," + Decimal(off)
  }

  /** A blink payload of two decimal times stores each floored to whole
      ticks ("blink,103,57" stores 100 and 50). */
  lemma DecodeModeBlinkOfDecimals(snap: LedState, on: u16, off: u16, rest: string)
    requires rest == [] || !IsDigit(rest[0])
    ensures DecodeMode(snap, BlinkPayload(on, off) + rest) ==
              Some(snap.(mode := LED_BLINK, onTime := FloorToTick(on), offTime := FloorToTick(off)))
  {
    var data := "blink," + (Decimal(on) + ("," + (Decimal(off) + rest)));
    assert BlinkPayload(on, off) + rest == data;
    assert data[..5] == "blink";
    ScanBlinkFields(on, off, rest);
  }

  /** Two times in range, after "blink," and separated by a comma, scan
      back to themselves. */
  lemma ScanBlinkOfDecimals(on: u16, off: u16, rest: string)
    requires rest == [] || !IsDigit(rest[0])
    ensures ScanBlink(BlinkPayload(on, off) + rest) == Some((on, off))
  {
    assert BlinkPayload(on, off) + rest == "blink," + (Decimal(on) + ("," + (Decimal(off) + rest)));
    ScanBlinkFields(on, off, rest);
  }

  lemma ScanBlinkFields(on: u16, off: u16, rest: string)
    requires rest == [] || !IsDigit(rest[0])
    ensures ScanBlink("blink," + (Decimal(on) + ("," + (Decimal(off) + rest)))) == Some((on, off))
  {
    var t1 := Decimal(off) + rest;
    var t0 := Decimal(on) + ("," + t1);
    ScanDecimal(on, "," + t1, U16_MAX);
    ScanDecimal(off, rest, U16_MAX);
    ScanBlinkSteps(t0, on, t1, off, rest);
  }

  /** The literal and the two conversions of `ScanBlink`, one after the other. */
  lemma ScanBlinkSteps(t0: string, on: u16, t1: string, off: u16, rest: string)
    requires ScanUnsigned(t0, U16_MAX) == Some(Scan(on, "," + t1))
    requires ScanUnsigned(t1, U16_MAX) == Some(Scan(off, rest))
    ensures ScanBlink("blink," + t0) == Some((on, off))
  {
    AfterConcat("blink,", t0);
    AfterConcat(",", t1);
  }

  lemma BlinkExample(snap: LedState)
    ensures DecodeMode(snap, BlinkPayload(103, 57)) == Some(snap.(mode := LED_BLINK, onTime := 100, offTime := 50))
  {
    assert BlinkPayload(103, 57) + [] == BlinkPayload(103, 57);
    DecodeModeBlinkOfDecimals(snap, 103, 57, []);
  }

  /** The three rainbow literals select their own speed. */
  lemma DecodeModeRainbowLiterals(snap: LedState)
    ensures DecodeMode(snap, RAINBOW_SLOW_CMND) == Some(snap.(mode := LED_HUE_RAINBOW, speed := RAINBOW_SLOW))
    ensures DecodeMode(snap, RAINBOW_NORMAL_CMND) == Some(snap.(mode := LED_HUE_RAINBOW, speed := RAINBOW_NORMAL))
    ensures DecodeMode(snap, RAINBOW_QUICK_CMND) == Some(snap.(mode := LED_HUE_RAINBOW, speed := RAINBOW_QUICK))
  {
  }

  /** Because `strncmp` is bounded by the payload length, truncated
      payloads are accepted: "", "o" and "on" switch the light on, "of" and
      "off" switch it off; "" and "hue_rainbow," select the slow rainbow and
      "hue_rainbow,n" the normal one. */
  lemma TruncatedPayloadsAccepted(snap: LedState)
    ensures DecodePower(snap, "") == Some(snap.(power := LED_POWER_ON))
    ensures DecodePower(snap, "o") == Some(snap.(power := LED_POWER_ON))
    ensures DecodePower(snap, "of") == Some(snap.(power := LED_POWER_OFF))
    ensures DecodeMode(snap, "") == Some(snap.(mode := LED_HUE_RAINBOW, speed := RAINBOW_SLOW))
    ensures DecodeMode(snap, "hue_rainbow,") == Some(snap.(mode := LED_HUE_RAINBOW, speed := RAINBOW_SLOW))
    ensures DecodeMode(snap, "hue_rainbow,n") == Some(snap.(mode := LED_HUE_RAINBOW, speed := RAINBOW_NORMAL))
  {
    assert !("of" <= LED_POWER_ON_STR) by { assert "of"[1] != LED_POWER_ON_STR[1]; }
    assert "hue_rainbow," <= RAINBOW_SLOW_CMND;
    assert !("hue_rainbow,n" <= RAINBOW_SLOW_CMND) by { assert "hue_rainbow,n"[12] != RAINBOW_SLOW_CMND[12]; }
    assert "hue_rainbow,n" <= RAINBOW_NORMAL_CMND;
  }

  /** Every record a decoder submits from a well-formed snapshot is well
      formed: one mode, a named speed, whole-tick blink times, hue at most
      360. */
  lemma DecodersPreserveWellFormed(snap: LedState, data: string)
    requires WellFormed(snap)
    ensures DecodePower(snap, data).Some? ==> WellFormed(DecodePower(snap, data).value)
    ensures DecodeHue(snap, data).Some? ==> WellFormed(DecodeHue(snap, data).value)
    ensures DecodeHsb(snap, data).Some? ==> WellFormed(DecodeHsb(snap, data).value)
    ensures DecodeMode(snap, data).Some? ==> WellFormed(DecodeMode(snap, data).value)
  {
  }
}
