# LED state synchronisation of the ESP32 MQTT demo, in Dafny

This project models the light-state engine of the FreeRTOS MQTT demo
(`mqtt-and-rtos/freertos-demo/main/demo.c` and
`mqtt-demo/mqtt-and-rtos/freertos-demo/main/demo.h`) and proves its
properties. The device keeps one canonical light record (power, hue,
saturation, brightness, mode, blink on/off times and rainbow speed). It
takes text commands on four `cmnd/led/*` topics. A command handler decodes
the payload over a snapshot of the record and submits the updated record
to a ten-slot queue. The render task polls that queue once per 10 ms
iteration and draws one pixel. When it has taken a record, it makes that
record canonical, writes its eight fields to flash and publishes the
three `stat/led/*` status texts.

The modules follow the program's parts:

- `LedTypes` (`led_types.dfy`): `led_state_t`, the mode and speed values,
  the power constants, the tick interval and the topic names. `u8` and
  `u16` are bounded integer types. Any truncation is written out.
- `CText` (`ctext.dfy`): the C text primitives. These are `strncmp` over a
  NUL-padded byte string, `%hu` formatting, and the digit scanning that
  `sscanf` does for `%hu`/`%hhu`.
- `Commands` (`commands.dfy`): the four decoders and `handle_cmnd_hsb2`, as
  functions from a snapshot and a payload to an optional new record.
- `Status` (`status.dfy`): the texts `sync_led_state` publishes, and round
  trips through the decoders.
- `Render` (`render.dfy`): one render tick as a function of the record and
  the loop's locals, plus lemmas about repeated ticks.
- `Persistence` (`persistence.dfy`): the flash namespace as a typed map
  with per-key read and write faults, and the whole-record store and load.
  Whether the handle was opened is a parameter of each access, since boot
  and the render task each open the namespace on their own.
- `Dispatch` (`dispatch.dfy`): the first-match topic routing of the
  MQTT_EVENT_DATA branch.
- `Channel` and `Demo` (`device.dfy`):
  - the queue as a bounded FIFO;
  - the `Device` class, whose fields are `s_led_state`, the queue, the
    flash namespace, `s_out_msg` and the MQTT outbox, and whose methods
    are the handlers, the NVS access and `sync_led_state`;
  - the `LedTask` class, whose fields are the render task's locals and
    whose `Tick` is one loop iteration.

The model follows the code, also where its behaviour is easy to
misread:

- **Hue bound.** The hue decoders accept 360 (`hue <= 360`), although hue
  360 and hue 0 are the same colour; a [0, 360) domain would refuse 360.
- **Zero on-time.** The tick only draws when `duration != 0`. With an
  on-time of 0, a blink record is therefore never drawn and the LED keeps
  its last pixel; it does not alternate at all. With an off-time of 0, the
  LED stays lit after the first half-period.
- **Half-period length.** A half-period of `d` ms lasts `(d + 8) / 10 + 1`
  ticks: one tick longer than `d / 10` for whole-tick times.
- **Read fallback.** A failed flash read keeps the field's *prior* value.
  At boot this is the static default.
  A non-zero power byte other than 1 read from flash renders dark but is
  published as "on".

## Model

| member | source | states |
|---|---|---|
| CText.StrnEqualLiteral | mqtt-and-rtos/freertos-demo/main/demo.c:408-413 | `strncmp(data, lit, data_len) == 0` holds exactly when the payload is a prefix of the literal (the empty one included) or the literal followed by NUL |
| CText.StrnEqualPrefix | mqtt-and-rtos/freertos-demo/main/demo.c:465 | `strncmp(data, "blink", 5) == 0` holds exactly when the payload starts with the literal |
| CText.StrnEqualShorter | mqtt-and-rtos/freertos-demo/main/demo.c:550-551 | `strncmp` over the shorter length holds exactly when one string is a prefix of the other |
| CText.StrnEqual | mqtt-and-rtos/freertos-demo/main/demo.c:408 | `strncmp(a, b, n) == 0` holds exactly when the two strings agree at every one of the first `n` positions that `a` reaches without passing a NUL |
| CText.StrnEqualFromMeaning | mqtt-and-rtos/freertos-demo/main/demo.c:408 | the position-by-position comparison from `i` holds exactly when the strings agree on `i..n` up to and including the first NUL of `a` |
| CText.Decimal | mqtt-and-rtos/freertos-demo/main/demo.c:177 | `%hu` text: at least one digit, all digits, no leading zero |
| CText.ValueOfDecimal | mqtt-and-rtos/freertos-demo/main/demo.c:177 | the digits of `%hu` read back as the number |
| CText.ScanUnsigned | mqtt-and-rtos/freertos-demo/main/demo.c:426 | a conversion succeeds exactly when the text starts with a digit run whose value fits the field; on success the value is that run and the rest is what follows it |
| CText.ScanDecimal | mqtt-and-rtos/freertos-demo/main/demo.c:426 | scanning a formatted number gives it back and stops right after it |
| CText.After | mqtt-and-rtos/freertos-demo/main/demo.c:445 | a format's literal part is consumed exactly when the text starts with it |
| Commands.ApplyHsb | mqtt-and-rtos/freertos-demo/main/demo.c:381-400 | each given colour component is replaced and every other field is the snapshot's |
| Commands.ScanHue | mqtt-and-rtos/freertos-demo/main/demo.c:426 | the conversion succeeds exactly when the payload starts with a digit run whose value fits 16 bits, and the hue is that value |
| Commands.DecodePower | mqtt-and-rtos/freertos-demo/main/demo.c:402-420 | a payload matching "on" sets power 1; otherwise one matching "off" sets power 0; otherwise rejected; no other field changes |
| Commands.DecodeHue | mqtt-and-rtos/freertos-demo/main/demo.c:422-438 | accepted exactly when a hue is scanned and it is at most 360; then only the hue differs from the snapshot |
| Commands.ScanHsb | mqtt-and-rtos/freertos-demo/main/demo.c:445 | a successful scan starts with a digit; ScanHsbOfDecimals proves every in-range comma triple scans back to itself |
| Commands.DecodeHsb | mqtt-and-rtos/freertos-demo/main/demo.c:440-457 | accepted exactly when all three numbers are scanned and the hue is at most 360; then exactly hue, saturation and brightness are replaced |
| Commands.FloorToTick | mqtt-and-rtos/freertos-demo/main/demo.c:472-473 | `t - t % 10` is the largest multiple of 10 not above `t` |
| Commands.DecodeMode | mqtt-and-rtos/freertos-demo/main/demo.c:459-493 | a "blink" prefix needs both times and stores them floored to ticks; otherwise the first rainbow literal matched sets the mode and that speed; anything else is rejected |
| Commands.DecodeHueOfDecimal | mqtt-and-rtos/freertos-demo/main/demo.c:422-438 | a decimal hue, whatever non-digit text follows it, is stored when at most 360 and rejected above |
| Commands.HueBoundIsInclusive | mqtt-and-rtos/freertos-demo/main/demo.c:431 | "360" is accepted and "361" rejected |
| Commands.ScanHsbOfDecimals | mqtt-and-rtos/freertos-demo/main/demo.c:445 | the `%hu,%hhu,%hhu` text of three values scans back to them |
| Commands.DecodeHsbOfDecimals | mqtt-and-rtos/freertos-demo/main/demo.c:440-457 | an H,S,B text sets those three components when the hue is at most 360 and is rejected above |
| Commands.DecodeModeBlinkOfDecimals | mqtt-and-rtos/freertos-demo/main/demo.c:465-473 | a "blink,ON,OFF" text selects blink with both times floored to whole ticks |
| Commands.ScanBlink | mqtt-and-rtos/freertos-demo/main/demo.c:467 | a successful scan starts with "blink,"; ScanBlinkOfDecimals proves every pair of 16-bit times scans back to itself |
| Commands.ScanBlinkOfDecimals | mqtt-and-rtos/freertos-demo/main/demo.c:467 | the `blink,%hu,%hu` text of two 16-bit times scans back to them |
| Commands.BlinkExample | mqtt-and-rtos/freertos-demo/main/demo.c:465-473 | "blink,103,57" stores on_time 100 and off_time 50 |
| Commands.DecodeModeRainbowLiterals | mqtt-and-rtos/freertos-demo/main/demo.c:475-486 | each of the three rainbow literals selects rainbow mode with its own speed |
| Commands.TruncatedPayloadsAccepted | mqtt-and-rtos/freertos-demo/main/demo.c:408-493 | the empty payload and "o" switch power on, "of" switches it off; the empty payload and truncated rainbow literals select the first literal they are a prefix of |
| Commands.DecodersPreserveWellFormed | mqtt-and-rtos/freertos-demo/main/demo.c:402-493 | over a well-formed snapshot every accepted command yields a well-formed record: power 0 or 1, hue at most 360, one mode, whole-tick times, a named speed |
| Status.PowerText | mqtt-and-rtos/freertos-demo/main/demo.c:181 | "on" exactly when the power byte is non-zero, else "off" |
| Status.HsbText | mqtt-and-rtos/freertos-demo/main/demo.c:177 | the text is three digit strings separated by commas whose values are the hue, the saturation and the brightness |
| Status.SpeedName | mqtt-and-rtos/freertos-demo/main/demo.c:190 | the name is "slow", "normal" or "quick": "slow" exactly for the slow step, "normal" exactly for the normal step, "quick" for every other byte |
| Status.ModeText | mqtt-and-rtos/freertos-demo/main/demo.c:185-192 | for blink the text scans back to both times; for rainbow it is one of the three rainbow commands; for any other mode byte `s_out_msg` still holds the H,S,B text |
| Status.StatusMessages | mqtt-and-rtos/freertos-demo/main/demo.c:177-195 | three messages, to the HSB, power and mode status topics in that order, each QoS 1 and retained |
| Status.NamedSpeed | mqtt-and-rtos/freertos-demo/main/demo.c:189-190 | the speed selected by the published name is a named speed, and is the speed itself when that was already one |
| Status.PowerTextRoundTrip | mqtt-and-rtos/freertos-demo/main/demo.c:181 | the power status text fed to the power decoder sets power to 1 exactly when the byte was non-zero |
| Status.HsbTextRoundTrip | mqtt-and-rtos/freertos-demo/main/demo.c:177 | the H,S,B status text fed to the hsb decoder restores the colour (refused only for a hue above 360) |
| Status.ModeTextRoundTrip | mqtt-and-rtos/freertos-demo/main/demo.c:185-192 | the mode status text fed to the mode decoder restores the mode, with times floored to ticks and the speed by name |
| Status.BlinkTextRoundTrip | mqtt-and-rtos/freertos-demo/main/demo.c:187 | the blink status text fed to the mode decoder selects blink with both times floored to ticks |
| Status.StatusIsFixedPoint | mqtt-and-rtos/freertos-demo/main/demo.c:175-196 | a well-formed record is reproduced by decoding each of its three status texts |
| Render.BlinkStep | mqtt-and-rtos/freertos-demo/main/demo.c:228-241 | draws exactly when `ticks == 0` and `duration != 0`, at full brightness going lit and at 0 going dark, toggling `light` then; the counter wraps once `ticks * 10 >= duration - 1` |
| Render.Restart | mqtt-and-rtos/freertos-demo/main/demo.c:217-224 | a taken record resets the locals: the counter at the start of a half-period and the cursor at 0, on the hue circle |
| Render.RestartShowsAtOnce | mqtt-and-rtos/freertos-demo/main/demo.c:217-243 | the tick that takes a record draws it at once: a rainbow at hue 0, a blink with a non-zero on-time lit |
| Render.Advance | mqtt-and-rtos/freertos-demo/main/demo.c:250-255 | the advanced cursor is below 360: the plain sum while that is below 360, and 0 once the sum reaches 360 (for any speed byte, also one that does not divide 360) |
| Render.RainbowStep | mqtt-and-rtos/freertos-demo/main/demo.c:242-257 | every rainbow tick draws the cursor's hue at the record's saturation and brightness |
| Render.RenderStep | mqtt-and-rtos/freertos-demo/main/demo.c:226-263 | a record not powered on is drawn dark in its own hue and saturation with the locals frozen; the cursor never leaves [0, 360) once in it |
| Render.RunSplit | mqtt-and-rtos/freertos-demo/main/demo.c:215-281 | `a + b` loop iterations are `a` iterations followed by `b` |
| Render.CursorStaysOnCircle | mqtt-and-rtos/freertos-demo/main/demo.c:242-257 | from any locals whose cursor is below 360 (a reset gives 0) the cursor stays below 360 forever |
| Render.RainbowThreeTicks | mqtt-and-rtos/freertos-demo/main/demo.c:242-257 | three ticks from a zero counter draw the cursor three times and advance it once |
| Render.RainbowCursor | mqtt-and-rtos/freertos-demo/main/demo.c:242-257 | after `3k` ticks from a reset the cursor is `k * speed`, as long as that is below 360 |
| Render.RainbowCycle | mqtt-and-rtos/freertos-demo/main/demo.c:242-257 | for a speed dividing 360 the advance reaching 360 wraps to 0, so the rainbow returns to its reset after `3 * (360 / speed)` ticks |
| Render.BlinkCountdown | mqtt-and-rtos/freertos-demo/main/demo.c:234-240 | a counting half-period climbs without drawing, then wraps and loads the other half-period's time |
| Render.BlinkHalfPeriod | mqtt-and-rtos/freertos-demo/main/demo.c:228-241 | a non-zero half-period draws once, then stays silent, and hands over to the other half after `(d + 8) / 10 + 1` ticks |
| Render.BlinkPeriod | mqtt-and-rtos/freertos-demo/main/demo.c:217-241 | with both times non-zero a blink reset returns to itself after both half-periods, having drawn the lit pixel then the dark pixel |
| Render.BlinkZeroOnTime | mqtt-and-rtos/freertos-demo/main/demo.c:229-240 | an on-time of 0 never draws: the reset locals are a fixed point |
| Render.BlinkZeroOffTime | mqtt-and-rtos/freertos-demo/main/demo.c:229-240 | an off-time of 0 stops blinking after the lit half: nothing is drawn again |
| Render.PowerOffStaysDark | mqtt-and-rtos/freertos-demo/main/demo.c:261-263 | while powered off the locals are frozen and every tick draws brightness 0 |
| Persistence.GetValue | mqtt-and-rtos/freertos-demo/main/demo.c:89-114 | the read keeps the asked width; it delivers the stored entry exactly when the handle is open, the read succeeds and the width matches, and in every other case the prior value |
| Persistence.SetValue | mqtt-and-rtos/freertos-demo/main/demo.c:116-138 | a write succeeds exactly when the handle is open and the key's write does not fail; it then stores the value, and otherwise changes nothing |
| Persistence.LoadByteFallback | mqtt-and-rtos/freertos-demo/main/demo.c:89-114 | a byte field takes the stored byte when it can be read and keeps its prior value otherwise |
| Persistence.LoadWordFallback | mqtt-and-rtos/freertos-demo/main/demo.c:89-114 | a 16-bit field takes the stored word when it can be read and keeps its prior value otherwise |
| Persistence.WriteAllEffect | mqtt-and-rtos/freertos-demo/main/demo.c:140-148 | writes to distinct keys leave each writable key holding its value and every other entry as it was |
| Persistence.StoreLedState | mqtt-and-rtos/freertos-demo/main/demo.c:140-149 | the eight writes in source order leave both fault sets as they were; StoreEffect states what each one leaves in the entries |
| Persistence.StoreEffect | mqtt-and-rtos/freertos-demo/main/demo.c:140-149 | the store writes the eight fields, leaves a field whose write fails stale, and touches no other key |
| Persistence.LoadLedState | mqtt-and-rtos/freertos-demo/main/demo.c:155-173 | each of the eight fields is the read of its key over the prior value of that field; a handle that failed to open keeps the whole prior record |
| Persistence.StoreThenLoad | mqtt-and-rtos/freertos-demo/main/demo.c:140-173 | storing through an open handle and then loading through an open handle, with no faulty key, reproduces the record whatever the prior state |
| Persistence.ClosedHandle | mqtt-and-rtos/freertos-demo/main/demo.c:159-162 | through a handle that failed to open, the store changes nothing and the load keeps the prior record |
| Dispatch.TopicAgreesMeaning | mqtt-and-rtos/freertos-demo/main/demo.c:550-551 | the loop's test for a table entry holds exactly when one topic is a prefix of the other |
| Dispatch.FirstMatchFrom | mqtt-and-rtos/freertos-demo/main/demo.c:549-555 | the result is the first entry at or after the start whose topic is prefix-related, or the table size |
| Dispatch.Route | mqtt-and-rtos/freertos-demo/main/demo.c:549-555 | no handler exactly when no table topic is prefix-related to the message topic |
| Dispatch.FindSubscription | mqtt-and-rtos/freertos-demo/main/demo.c:549-555 | the loop stops at the first agreeing entry, every entry before it disagrees, and none agrees when it runs off the table |
| Dispatch.RoutesOwnTopics | mqtt-and-rtos/freertos-demo/main/demo.c:26-31 | each command topic reaches its own handler |
| Dispatch.RoutesPrefixes | mqtt-and-rtos/freertos-demo/main/demo.c:549-555 | the empty topic and "cmnd/led/" reach the power handler, an extension of a command topic reaches that command's handler, a status topic reaches none |
| Channel.Offer | mqtt-and-rtos/freertos-demo/main/demo.c:372-379 | a send never lets the queue grow past its 10 slots |
| Channel.Poll | mqtt-and-rtos/freertos-demo/main/demo.c:217 | an empty queue yields nothing and stays empty; otherwise the record at the front is taken and the rest stays in order |
| Channel.FullQueueRefuses | mqtt-and-rtos/freertos-demo/main/demo.c:374-377 | a send to a full queue fails and leaves the queue as it was |
| Channel.Submit | mqtt-and-rtos/freertos-demo/main/demo.c:414-419 | a rejected payload fails without touching the queue |
| Channel.DrainIsFifo | mqtt-and-rtos/freertos-demo/main/demo.c:217 | receiving until empty yields the records oldest first |
| Channel.OfferAllKeepsFirst | mqtt-and-rtos/freertos-demo/main/demo.c:632 | a burst of sends keeps the first records that fit, in order, and refuses the rest |
| Demo.AcceptedCommandIsStable | mqtt-and-rtos/freertos-demo/main/demo.c:265-278 | an accepted command over a well-formed record yields a well-formed record whose published status texts decode back to it |
| Demo.Device.constructor | mqtt-and-rtos/freertos-demo/main/demo.c:44-53 | the boot state is the static initialiser with an empty queue |
| Demo.Device.InitLedState | mqtt-and-rtos/freertos-demo/main/demo.c:155-173 | given the outcome of its own `nvs_open`, the record becomes its fields loaded from flash over their current values |
| Demo.Device.SendLedStateToQueue | mqtt-and-rtos/freertos-demo/main/demo.c:372-379 | the queue and status become those of a non-blocking send; nothing else changes |
| Demo.Device.ReceiveLedState | mqtt-and-rtos/freertos-demo/main/demo.c:217 | the oldest record is taken, or nothing from an empty queue |
| Demo.Device.HandleCmndHsb2 | mqtt-and-rtos/freertos-demo/main/demo.c:381-400 | the snapshot with the given components is sent |
| Demo.Device.HandleCmndPower | mqtt-and-rtos/freertos-demo/main/demo.c:402-420 | the power decoder's record is sent, or the handler fails with the queue unchanged |
| Demo.Device.HandleCmndHue | mqtt-and-rtos/freertos-demo/main/demo.c:422-438 | the hue decoder's record is sent through hsb2, or the handler fails with the queue unchanged |
| Demo.Device.HandleCmndHsb | mqtt-and-rtos/freertos-demo/main/demo.c:440-457 | the hsb decoder's record is sent through hsb2, or the handler fails with the queue unchanged |
| Demo.Device.HandleCmndMode | mqtt-and-rtos/freertos-demo/main/demo.c:459-493 | the mode decoder's record is sent, or the handler fails with the queue unchanged |
| Demo.Device.OnMqttData | mqtt-and-rtos/freertos-demo/main/demo.c:542-557 | the routed handler runs on the payload; an unrouted topic changes nothing |
| Demo.Device.SetValueToNvs | mqtt-and-rtos/freertos-demo/main/demo.c:116-138 | the namespace and status become those of the write through the given handle |
| Demo.Device.StoreLedStateInNvs | mqtt-and-rtos/freertos-demo/main/demo.c:140-153 | the namespace becomes that of the eight writes in order through the given handle |
| Demo.Device.SyncLedState | mqtt-and-rtos/freertos-demo/main/demo.c:175-196 | the HSB, power and mode messages are appended in that order, retained at QoS 1, and `s_out_msg` ends as the mode text |
| Demo.Device.CommitLedState | mqtt-and-rtos/freertos-demo/main/demo.c:265-278 | the taken record becomes canonical, the flash becomes the store of it through the given handle, and its three status messages are appended |
| Demo.LedTask.constructor | mqtt-and-rtos/freertos-demo/main/demo.c:202-213 | the task starts from a copy of the canonical record, with the locals a received record would give, and keeps the outcome of its own `nvs_open` |
| Demo.LedTask.Take | mqtt-and-rtos/freertos-demo/main/demo.c:217-224 | the queue and the record are those of a receive; a taken record replaces the task's copy and resets its locals |
| Demo.LedTask.Draw | mqtt-and-rtos/freertos-demo/main/demo.c:226-263 | the locals and the pixel become those of one render step of the task's record |
| Demo.LedTask.Tick | mqtt-and-rtos/freertos-demo/main/demo.c:215-281 | at most one record is taken and resets the locals; the tick renders as the render step says; only after taking a record is it made canonical, stored in flash through the task's own handle and published |
| LedTypes.SpeedStepsBounded | mqtt-demo/mqtt-and-rtos/freertos-demo/main/demo.h:103-107 | the speed steps are at most 12, so the cursor sum cannot overflow 16 bits |
| LedTypes.DefaultIsWellFormed | mqtt-and-rtos/freertos-demo/main/demo.c:44-53 | the static initialiser is a well-formed record |

## Left out

- Wi-Fi bring-up, the MQTT client set-up and the non-DATA branches of the
  MQTT event handler are network input and output. This includes the
  re-subscription and status sync on MQTT_EVENT_CONNECTED.
- `configure_led` and `set_led_hsb` drive the LED strip library. A draw is
  the pixel (h, s, b) handed to it. Clearing the strip at start-up leaves
  no pixel.
- The mutex is modelled as an atomic snapshot and replace. The FreeRTOS
  queue is a bounded sequence. The tasks do not interleave, `vTaskDelay`
  is not modelled, and a `Tick` is one loop iteration.
- `nvs_commit` and `nvs_flash_init`/erase are not modelled. When the
  render task's `nvs_open` fails, `handle` is never set and the code still
  stores through it; the model counts every write through such a handle
  as failed, which is what NVS does for an invalid handle but not a
  promise the code makes. A write takes
  effect once it succeeds. Creation failures of the queue and the mutex
  (an abort) are not modelled.
- The unsupported-type branches of `get_value_from_nvs`/`set_value_to_nvs`
  are not modelled. The core only ever passes U8 or U16.
- SyncLedState (Demo.Device.SyncLedState): an `esp_mqtt_client_enqueue`
  failure is not modelled, because the code only logs it. Every message is
  recorded as handed to the client.
- ScanUnsigned (CText.ScanUnsigned): leading white space and a sign are
  not accepted, unlike `sscanf`. A value too wide for the field is a
  failed conversion, whereas glibc would store it truncated. For example,
  a saturation of 300 in `cmnd/led/hsb` is rejected here, where glibc
  would store 44.
- DecodeHue, DecodeHsb and DecodeMode (Commands): inherit the scanning
  simplification above.
- Log output (`ESP_LOGx`) is not modelled.
