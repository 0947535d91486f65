/**
 * The update channel between the MQTT handler and the render task: a FIFO
 * of light records with room for ten, whose send and receive never wait.
 */
module Channel {
  import opened Wrappers
  import opened LedTypes

  /** The length `s_led_state_queue` is created with. */
  const QUEUE_LENGTH: nat := 10

  /** The outcome of a send: the queue after it and the status code. */
  datatype Sent = Sent(queue: seq<LedState>, err: EspErr)

  /** The outcome of a receive: the queue after it and the record taken. */
  datatype Polled = Polled(queue: seq<LedState>, item: Option<LedState>)

  /** `xQueueSend` with no wait: appended at the back when there is room,
      refused with the queue untouched when it is full. */
  function Offer(q: seq<LedState>, x: LedState): (r: Sent)
    ensures |q| <= QUEUE_LENGTH ==> |r.queue| <= QUEUE_LENGTH
  {
    if |q| < QUEUE_LENGTH then Sent(q + [x], EspOk) else Sent(q, EspFail)
  }

  /** `xQueueReceive` with no wait: the oldest record, or nothing. */
  function Poll(q: seq<LedState>): (r: Polled)
    ensures r.item.None? <==> q == []
    ensures r.item.None? ==> r.queue == q
    ensures r.item.Some? ==> q == [r.item.value] + r.queue
  {
    if q == [] then Polled(q, None) else Polled(q[1..], Some(q[0]))
  }

  /** A submission that the decoder refused never reaches the queue. */
  function Submit(q: seq<LedState>, d: Option<LedState>): (r: Sent)
    ensures d.None? ==> r == Sent(q, EspFail)
    ensures |q| <= QUEUE_LENGTH ==> |r.queue| <= QUEUE_LENGTH
  {
    if d.None? then Sent(q, EspFail) else Offer(q, d.value)
  }

  /** Sends of `xs` one after the other. */
  function OfferAll(q: seq<LedState>, xs: seq<LedState>): seq<LedState>
    decreases |xs|
  {
    if xs == [] then q else OfferAll(Offer(q, xs[0]).queue, xs[1..])
  }

  /** The records a reader gets by receiving until the queue is empty. */
  function Drain(q: seq<LedState>): seq<LedState>
    decreases |q|
  {
    match Poll(q).item
    case None => []
    case Some(x) => [x] + Drain(Poll(q).queue)
  }

  // ---------------------------------------------------------------------
  // Properties

  /** Receiving empties the queue oldest first. */
  lemma {:induction false} DrainIsFifo(q: seq<LedState>)
    ensures Drain(q) == q
    decreases |q|
  {
    if q != [] {
      DrainIsFifo(q[1..]);
    }
  }

  /** A burst of sends into a queue with `n` free slots keeps the first `n`
      records, in order, and refuses the rest. */
  lemma {:induction false} OfferAllKeepsFirst(q: seq<LedState>, xs: seq<LedState>)
    requires |q| <= QUEUE_LENGTH
    ensures var n := QUEUE_LENGTH - |q|;
      OfferAll(q, xs) == q + (if |xs| <= n then xs else xs[..n])
    decreases |xs|
  {
    if xs != [] {
      var q1 := Offer(q, xs[0]).queue;
      OfferAllKeepsFirst(q1, xs[1..]);
      if |q| < QUEUE_LENGTH {
        assert q1 == q + [xs[0]];
        var n := QUEUE_LENGTH - |q|;
        if |xs| <= n {
          assert [xs[0]] + xs[1..] == xs;
        } else {
          assert [xs[0]] + xs[1..][..n - 1] == xs[..n];
        }
      } else {
        assert xs[..0] == [];
      }
    }
  }

  /** A full queue refuses a send and stays as it was. */
  lemma FullQueueRefuses(q: seq<LedState>, x: LedState)
    requires |q| >= QUEUE_LENGTH
    ensures Offer(q, x) == Sent(q, EspFail)
  {
  }
}

/**
 * The device: the canonical light state, the update queue, the flash
 * namespace and the MQTT outbox, with the command handlers that feed the
 * queue; and the render task, one loop iteration at a time.
 */
module Demo {
  import opened Wrappers
  import opened LedTypes
  import opened Commands
  import opened Render
  import opened Persistence
  import opened Status
  import opened Dispatch
  import opened Channel

  /** What a routed command does with a payload and a snapshot. */
  function Decode(c: Command, snap: LedState, data: string): Option<LedState> {
    match c
    case PowerCmnd => DecodePower(snap, data)
    case HueCmnd => DecodeHue(snap, data)
    case HsbCmnd => DecodeHsb(snap, data)
    case ModeCmnd => DecodeMode(snap, data)
  }

  /** End to end: a command accepted over a well-formed record yields a
      well-formed record, and each status text the render task publishes
      for it, sent back as a command, reproduces it. */
  lemma AcceptedCommandIsStable(c: Command, snap: LedState, data: string)
    requires WellFormed(snap) && Decode(c, snap, data).Some?
    ensures var st := Decode(c, snap, data).value;
      && WellFormed(st)
      && DecodePower(st, PowerText(st)) == Some(st)
      && DecodeHsb(st, HsbText(st)) == Some(st)
      && DecodeMode(st, ModeText(st)) == Some(st)
  {
    DecodersPreserveWellFormed(snap, data);
    StatusIsFixedPoint(Decode(c, snap, data).value);
  }

  class Device {
    /** `s_led_state`: the record the handlers take snapshots of. */
    var ledState: LedState
    /** `s_led_state_queue` */
    var queue: seq<LedState>
    /** The "demo" flash namespace. */
    var nvs: Nvs
    /** `s_out_msg` */
    var outMsg: string
    /** The messages handed to `esp_mqtt_client_enqueue`, oldest first. */
    var outbox: seq<Publish>

    predicate Valid()
      reads this
    {
      |queue| <= QUEUE_LENGTH
    }

    /** The state at boot: the static initialiser, an empty queue and
        nothing published yet. */
    constructor (flash: Nvs)
      ensures Valid()
      ensures ledState == DEFAULT_LED_STATE && queue == [] && nvs == flash && outMsg == [] && outbox == []
    {
      ledState := DEFAULT_LED_STATE;
      queue := [];
      nvs := flash;
      outMsg := [];
      outbox := [];
    }

    /** `init_led_state`: each field read from flash over its current value.
        `isOpen` is the outcome of its `nvs_open`. */
    method InitLedState(isOpen: bool)
      modifies this
      ensures ledState == LoadLedState(isOpen, nvs, old(ledState))
      ensures queue == old(queue) && nvs == old(nvs) && outMsg == old(outMsg) && outbox == old(outbox)
    {
      if isOpen {
        ledState := ledState.(power := LoadByte(isOpen, nvs, KEY_POWER, ledState.power));
        ledState := ledState.(hue := LoadWord(isOpen, nvs, KEY_HUE, ledState.hue));
        ledState := ledState.(saturation := LoadByte(isOpen, nvs, KEY_SATURATION, ledState.saturation));
        ledState := ledState.(brightness := LoadByte(isOpen, nvs, KEY_BRIGHTNESS, ledState.brightness));
        ledState := ledState.(mode := LoadByte(isOpen, nvs, KEY_MODE, ledState.mode));
        ledState := ledState.(onTime := LoadWord(isOpen, nvs, KEY_ON_TIME, ledState.onTime));
        ledState := ledState.(offTime := LoadWord(isOpen, nvs, KEY_OFF_TIME, ledState.offTime));
        ledState := ledState.(speed := LoadByte(isOpen, nvs, KEY_SPEED, ledState.speed));
      }
    }

    /** `send_led_state_to_queue` */
    method SendLedStateToQueue(st: LedState) returns (err: EspErr)
      requires Valid()
      modifies this
      ensures Valid()
      ensures Sent(queue, err) == Offer(old(queue), st)
      ensures ledState == old(ledState) && nvs == old(nvs) && outMsg == old(outMsg) && outbox == old(outbox)
    {
      if |queue| < QUEUE_LENGTH {
        queue := queue + [st];
        err := EspOk;
      } else {
        err := EspFail;
      }
    }

    /** `xQueueReceive(s_led_state_queue, &led_state, 0)` */
    method ReceiveLedState() returns (item: Option<LedState>)
      requires Valid()
      modifies this
      ensures Valid()
      ensures Polled(queue, item) == Poll(old(queue))
      ensures ledState == old(ledState) && nvs == old(nvs) && outMsg == old(outMsg) && outbox == old(outbox)
    {
      if queue == [] {
        item := None;
      } else {
        item := Some(queue[0]);
        queue := queue[1..];
      }
    }

    /** `handle_cmnd_hsb2`: the given components over a snapshot, submitted. */
    method HandleCmndHsb2(hue: Option<u16>, saturation: Option<u8>, brightness: Option<u8>) returns (err: EspErr)
      requires Valid()
      modifies this
      ensures Valid()
      ensures Sent(queue, err) == Offer(old(queue), ApplyHsb(old(ledState), hue, saturation, brightness))
      ensures ledState == old(ledState) && nvs == old(nvs) && outMsg == old(outMsg) && outbox == old(outbox)
    {
      var snap := ledState;
      err := SendLedStateToQueue(ApplyHsb(snap, hue, saturation, brightness));
    }

    /** `handle_cmnd_power` */
    method HandleCmndPower(data: string) returns (err: EspErr)
      requires Valid()
      modifies this
      ensures Valid()
      ensures Sent(queue, err) == Submit(old(queue), DecodePower(old(ledState), data))
      ensures ledState == old(ledState) && nvs == old(nvs) && outMsg == old(outMsg) && outbox == old(outbox)
    {
      var snap := ledState;
      var next := DecodePower(snap, data);
      if next.None? {
        err := EspFail;
      } else {
        err := SendLedStateToQueue(next.value);
      }
    }

    /** `handle_cmnd_hue`: parse, check the bound, hand over to hsb2. */
    method HandleCmndHue(data: string) returns (err: EspErr)
      requires Valid()
      modifies this
      ensures Valid()
      ensures Sent(queue, err) == Submit(old(queue), DecodeHue(old(ledState), data))
      ensures ledState == old(ledState) && nvs == old(nvs) && outMsg == old(outMsg) && outbox == old(outbox)
    {
      var hue := ScanHue(data);
      if hue.None? {
        err := EspFail;
      } else if hue.value <= 360 {
        err := HandleCmndHsb2(Some(hue.value), None, None);
      } else {
        err := EspFail;
      }
    }

    /** `handle_cmnd_hsb`: parse three components, check the hue bound,
        hand over to hsb2. */
    method HandleCmndHsb(data: string) returns (err: EspErr)
      requires Valid()
      modifies this
      ensures Valid()
      ensures Sent(queue, err) == Submit(old(queue), DecodeHsb(old(ledState), data))
      ensures ledState == old(ledState) && nvs == old(nvs) && outMsg == old(outMsg) && outbox == old(outbox)
    {
      var hsb := ScanHsb(data);
      if hsb.None? {
        err := EspFail;
      } else if hsb.value.0 <= 360 {
        err := HandleCmndHsb2(Some(hsb.value.0), Some(hsb.value.1), Some(hsb.value.2));
      } else {
        err := EspFail;
      }
    }

    /** `handle_cmnd_mode` */
    method HandleCmndMode(data: string) returns (err: EspErr)
      requires Valid()
      modifies this
      ensures Valid()
      ensures Sent(queue, err) == Submit(old(queue), DecodeMode(old(ledState), data))
      ensures ledState == old(ledState) && nvs == old(nvs) && outMsg == old(outMsg) && outbox == old(outbox)
    {
      var snap := ledState;
      var next := DecodeMode(snap, data);
      if next.None? {
        err := EspFail;
      } else {
        err := SendLedStateToQueue(next.value);
      }
    }

    /** The MQTT_EVENT_DATA branch: route by topic to the first agreeing
        handler. The result is that handler's status, or `None` when no
        entry agrees and nothing runs. */
    method OnMqttData(topic: string, data: string) returns (err: Option<EspErr>)
      requires Valid()
      modifies this
      ensures Valid()
      ensures Route(topic).None? ==> err.None? && queue == old(queue)
      ensures Route(topic).Some? ==>
                err.Some? && Sent(queue, err.value) == Submit(old(queue), Decode(Route(topic).value, old(ledState), data))
      ensures ledState == old(ledState) && nvs == old(nvs) && outMsg == old(outMsg) && outbox == old(outbox)
    {
      var i := FindSubscription(topic);
      if i == |SUBSCRIPTIONS| {
        err := None;
      } else {
        var e: EspErr;
        match SUBSCRIPTIONS[i].handler {
          case PowerCmnd => e := HandleCmndPower(data);
          case HueCmnd => e := HandleCmndHue(data);
          case HsbCmnd => e := HandleCmndHsb(data);
          case ModeCmnd => e := HandleCmndMode(data);
        }
        err := Some(e);
      }
    }

    /** `set_value_to_nvs` through a handle whose `nvs_open` gave `isOpen`. */
    method SetValueToNvs(isOpen: bool, key: string, v: NvsValue) returns (err: EspErr)
      modifies this
      ensures Written(nvs, err) == SetValue(isOpen, old(nvs), key, v)
      ensures ledState == old(ledState) && queue == old(queue) && outMsg == old(outMsg) && outbox == old(outbox)
    {
      var w := SetValue(isOpen, nvs, key, v);
      nvs := w.store;
      err := w.err;
    }

    /** `store_led_state_in_nvs` through a handle whose `nvs_open` gave
        `isOpen`: the eight writes, their errors ignored. */
    method StoreLedStateInNvs(isOpen: bool, st: LedState)
      modifies this
      ensures nvs == StoreLedState(isOpen, old(nvs), st)
      ensures ledState == old(ledState) && queue == old(queue) && outMsg == old(outMsg) && outbox == old(outbox)
    {
      var f := Fields(st);
      var e: EspErr;
      assert f[0..] == f;
      WriteAllStep(isOpen, nvs, f, 0);
      e := SetValueToNvs(isOpen, KEY_POWER, U8(st.power));
      WriteAllStep(isOpen, nvs, f, 1);
      e := SetValueToNvs(isOpen, KEY_HUE, U16(st.hue));
      WriteAllStep(isOpen, nvs, f, 2);
      e := SetValueToNvs(isOpen, KEY_SATURATION, U8(st.saturation));
      WriteAllStep(isOpen, nvs, f, 3);
      e := SetValueToNvs(isOpen, KEY_BRIGHTNESS, U8(st.brightness));
      WriteAllStep(isOpen, nvs, f, 4);
      e := SetValueToNvs(isOpen, KEY_MODE, U8(st.mode));
      WriteAllStep(isOpen, nvs, f, 5);
      e := SetValueToNvs(isOpen, KEY_ON_TIME, U16(st.onTime));
      WriteAllStep(isOpen, nvs, f, 6);
      e := SetValueToNvs(isOpen, KEY_OFF_TIME, U16(st.offTime));
      WriteAllStep(isOpen, nvs, f, 7);
      e := SetValueToNvs(isOpen, KEY_SPEED, U8(st.speed));
      assert f[8..] == [];
    }

    /** `sync_led_state`: the three status messages, HSB first. The mode
        text is built in `s_out_msg` over the HSB text, so a mode byte that
        is neither mode republishes the HSB text. */
    method SyncLedState(st: LedState)
      modifies this
      ensures outbox == old(outbox) + StatusMessages(st)
      ensures outMsg == ModeText(st)
      ensures ledState == old(ledState) && queue == old(queue) && nvs == old(nvs)
    {
      var ms := StatusMessages(st);
      outMsg := HsbText(st);
      outbox := outbox + [Publish(TOPIC_STAT_HSB, outMsg, QOS_1, RETAIN)];
      outbox := outbox + [Publish(TOPIC_STAT_POWER, PowerText(st), QOS_1, RETAIN)];
      if st.mode == LED_BLINK {
        outMsg := BlinkPayload(st.onTime, st.offTime);
      } else if st.mode == LED_HUE_RAINBOW {
        outMsg := "hue_rainbow," + SpeedName(st.speed);
      }
      assert outMsg == ModeText(st);
      assert ms == [ms[0], ms[1], Publish(TOPIC_STAT_MODE, outMsg, QOS_1, RETAIN)];
      outbox := outbox + [Publish(TOPIC_STAT_MODE, outMsg, QOS_1, RETAIN)];
    }

    /** What the render task does with a record it has taken: make it the
        canonical record, store it through the task's handle and publish its
        status. */
    method CommitLedState(isOpen: bool, st: LedState)
      modifies this
      ensures ledState == st && nvs == StoreLedState(isOpen, old(nvs), st)
      ensures outbox == old(outbox) + StatusMessages(st) && outMsg == ModeText(st)
      ensures queue == old(queue)
    {
      ledState := st;
      StoreLedStateInNvs(isOpen, st);
      SyncLedState(st);
    }
  }

  /** `led_task`: its local copy of the record, the loop's locals, the
      outcome of its own `nvs_open`, and the pixel the strip shows (`None`
      while it is still cleared). */
  class LedTask {
    const dev: Device
    /** Whether the task's `nvs_open` succeeded. When it failed, `handle`
        is never set and every store through it fails. */
    const isOpen: bool
    var ledState: LedState
    var ticks: u16
    var duration: u16
    var light: bool
    var hue: u16
    var pixel: Option<Pixel>

    function Locals(): Phase
      reads this
    {
      Phase(ticks, duration, light, hue)
    }

    /** The locals before the first iteration: a copy of the canonical
        record, a cleared strip, and the same locals a received record
        gives. */
    constructor (d: Device, handleOpen: bool)
      ensures dev == d && isOpen == handleOpen && ledState == d.ledState && pixel == None
      ensures Locals() == Restart(ledState)
    {
      dev := d;
      isOpen := handleOpen;
      ledState := d.ledState;
      ticks := 0;
      duration := d.ledState.onTime;
      light := false;
      hue := 0;
      pixel := None;
    }

    /** The receiving part of an iteration: take at most one record from
        the queue; a record taken replaces the task's copy and resets the
        locals. */
    method Take() returns (arrived: bool)
      requires dev.Valid()
      modifies this, dev
      ensures dev.Valid()
      ensures var p := Poll(old(dev.queue));
        && dev.queue == p.queue && arrived == p.item.Some?
        && ledState == (if arrived then p.item.value else old(ledState))
        && Locals() == (if arrived then Restart(ledState) else old(Locals()))
        && pixel == old(pixel)
      ensures dev.ledState == old(dev.ledState) && dev.nvs == old(dev.nvs)
      ensures dev.outbox == old(dev.outbox) && dev.outMsg == old(dev.outMsg)
    {
      arrived := false;
      var item := dev.ReceiveLedState();
      if item.Some? {
        ledState := item.value;
        arrived := true;
        ticks := 0;
        duration := ledState.onTime;
        hue := 0;
        light := false;
      }
    }

    /** The rendering part of an iteration: one render step of the task's
        record from its locals; the strip keeps its pixel when nothing is
        drawn. */
    method Draw()
      modifies this
      ensures var f := RenderStep(ledState, old(Locals()));
        && ledState == old(ledState)
        && Locals() == f.next
        && pixel == (if f.drawn.Some? then f.drawn else old(pixel))
    {
      if ledState.power == LED_POWER_ON {
        if ledState.mode == LED_BLINK {
          if ticks == 0 && duration != 0 {
            pixel := Some(Pixel(ledState.hue, ledState.saturation, if light then 0 else ledState.brightness));
            light := !light;
          }
          if ticks * LED_TASK_INTERVAL < duration - 1 {
            ticks := ticks + 1;
          } else {
            duration := if light then ledState.offTime else ledState.onTime;
            ticks := 0;
          }
        } else if ledState.mode == LED_HUE_RAINBOW {
          pixel := Some(Pixel(hue, ledState.saturation, ledState.brightness));
          if ticks < 2 {
            ticks := ticks + 1;
          } else {
            hue := (hue + ledState.speed) % 0x1_0000;
            ticks := 0;
            if hue >= 360 {
              hue := 0;
            }
          }
        }
      } else {
        pixel := Some(Pixel(ledState.hue, ledState.saturation, 0));
      }
    }

    /** One iteration of the loop: take at most one record from the queue
        (resetting the locals when there is one), render one tick, and,
        only when a record was taken, replace the canonical record, store
        it in flash and publish its status. */
    method Tick()
      requires dev.Valid()
      modifies this, dev
      ensures dev.Valid()
      ensures var p := Poll(old(dev.queue));
        var st := if p.item.Some? then p.item.value else old(ledState);
        var f := RenderStep(st, if p.item.Some? then Restart(st) else old(Locals()));
        && dev.queue == p.queue
        && ledState == st
        && Locals() == f.next
        && pixel == (if f.drawn.Some? then f.drawn else old(pixel))
        && (p.item.Some? ==>
              && dev.ledState == st
              && dev.nvs == StoreLedState(isOpen, old(dev.nvs), st)
              && dev.outbox == old(dev.outbox) + StatusMessages(st)
              && dev.outMsg == ModeText(st))
        && (p.item.None? ==>
              && dev.ledState == old(dev.ledState)
              && dev.nvs == old(dev.nvs)
              && dev.outbox == old(dev.outbox)
              && dev.outMsg == old(dev.outMsg))
    {
      var cmndArrived := Take();
      Draw();

      if cmndArrived {
        dev.CommitLedState(isOpen, ledState);
      }
    }
  }
}
