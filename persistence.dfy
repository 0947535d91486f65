/**
 * The flash store of the light state: the eight typed keys of the "demo"
 * namespace, the read that keeps its prior value on any error, the write
 * that reports an error, and the whole-record store and load built from
 * them.
 */
module Persistence {
  import opened LedTypes

  /** A stored entry, typed as NVS types it. */
  datatype NvsValue = U8(byte: u8) | U16(word: u16)

  /** The "demo" namespace in flash. A key in `readFaults` or `writeFaults`
      fails that operation for a reason other than a missing key. Whether
      the handle an operation goes through was isOpen is a separate
      parameter `isOpen`: `init_led_state` and `led_task` each call
      `nvs_open` and each may fail on its own, and every read and write
      through a handle that failed to open fails. */
  datatype Nvs = Nvs(entries: map<string, NvsValue>, readFaults: set<string>, writeFaults: set<string>)

  /** The outcome of a write: the namespace after it and the status code. */
  datatype Written = Written(store: Nvs, err: EspErr)

  predicate SameType(a: NvsValue, b: NvsValue) {
    a.U8? == b.U8?
  }

  /** A read of `key` through the handle delivers a stored value of the
      width of `prior`. */
  predicate Readable(isOpen: bool, nvs: Nvs, key: string, prior: NvsValue) {
    isOpen && key !in nvs.readFaults && key in nvs.entries && SameType(nvs.entries[key], prior)
  }

  /** `get_value_from_nvs`: the stored value when the read succeeds, the
      prior value when the handle is not open, the read fails, the key is
      missing or holds the other width. The width asked for is the width of
      `prior`. */
  function GetValue(isOpen: bool, nvs: Nvs, key: string, prior: NvsValue): (v: NvsValue)
    ensures SameType(v, prior)
    ensures Readable(isOpen, nvs, key, prior) ==> v == nvs.entries[key]
    ensures !Readable(isOpen, nvs, key, prior) ==> v == prior
  {
    if !isOpen || key in nvs.readFaults || key !in nvs.entries then prior
    else if SameType(nvs.entries[key], prior) then nvs.entries[key]
    else prior
  }

  /** `set_value_to_nvs` */
  function SetValue(isOpen: bool, nvs: Nvs, key: string, v: NvsValue): (w: Written)
    ensures w.err == EspOk <==> isOpen && key !in nvs.writeFaults
    ensures w.err == EspOk ==> w.store == nvs.(entries := nvs.entries[key := v])
    ensures w.err == EspFail ==> w.store == nvs
  {
    if isOpen && key !in nvs.writeFaults then Written(nvs.(entries := nvs.entries[key := v]), EspOk)
    else Written(nvs, EspFail)
  }

  const KEY_POWER: string := "power"
  const KEY_HUE: string := "hue"
  const KEY_SATURATION: string := "saturation"
  const KEY_BRIGHTNESS: string := "brightness"
  const KEY_MODE: string := "mode"
  const KEY_ON_TIME: string := "on_time"
  const KEY_OFF_TIME: string := "off_time"
  const KEY_SPEED: string := "speed"

  /** The record's fields as typed entries, in the order
      `store_led_state_in_nvs` writes them and `init_led_state` reads them. */
  function Fields(st: LedState): seq<(string, NvsValue)> {
    [ (KEY_POWER, U8(st.power)), (KEY_HUE, U16(st.hue)), (KEY_SATURATION, U8(st.saturation)),
      (KEY_BRIGHTNESS, U8(st.brightness)), (KEY_MODE, U8(st.mode)), (KEY_ON_TIME, U16(st.onTime)),
      (KEY_OFF_TIME, U16(st.offTime)), (KEY_SPEED, U8(st.speed)) ]
  }

  predicate DistinctKeys(ws: seq<(string, NvsValue)>) {
    forall i, j :: 0 <= i < j < |ws| ==> ws[i].0 != ws[j].0
  }

  predicate HasKey(ws: seq<(string, NvsValue)>, k: string) {
    exists i :: 0 <= i < |ws| && ws[i].0 == k
  }

  /** A run of writes, each one's failure ignored. */
  function WriteAll(isOpen: bool, nvs: Nvs, ws: seq<(string, NvsValue)>): Nvs
    decreases |ws|
  {
    if ws == [] then nvs else WriteAll(isOpen, SetValue(isOpen, nvs, ws[0].0, ws[0].1).store, ws[1..])
  }

  /** A run of writes from its `k`-th write on: that write, then the rest. */
  lemma WriteAllStep(isOpen: bool, nvs: Nvs, ws: seq<(string, NvsValue)>, k: nat)
    requires k < |ws|
    ensures WriteAll(isOpen, nvs, ws[k..]) == WriteAll(isOpen, SetValue(isOpen, nvs, ws[k].0, ws[k].1).store, ws[k + 1..])
  {
    assert ws[k..][1..] == ws[k + 1..];
  }

  /** `store_led_state_in_nvs` on the namespace: the eight writes in
      order. No write changes a fault set; StoreEffect says what each one
      leaves in the entries. */
  function StoreLedState(isOpen: bool, nvs: Nvs, st: LedState): (r: Nvs)
    ensures r.readFaults == nvs.readFaults && r.writeFaults == nvs.writeFaults
  {
    FieldKeysDistinct(st);
    WriteAllEffect(isOpen, nvs, Fields(st));
    WriteAll(isOpen, nvs, Fields(st))
  }

  /** The field of the record a 16-bit read delivers. */
  function Word(v: NvsValue): u16 {
    if v.U16? then v.word else 0
  }

  function Byte(v: NvsValue): u8 {
    if v.U8? then v.byte else 0
  }

  /** One field read by `get_value_from_nvs`, over the prior value. */
  function LoadByte(isOpen: bool, nvs: Nvs, key: string, prior: u8): u8 {
    Byte(GetValue(isOpen, nvs, key, U8(prior)))
  }

  function LoadWord(isOpen: bool, nvs: Nvs, key: string, prior: u16): u16 {
    Word(GetValue(isOpen, nvs, key, U16(prior)))
  }

  /** `init_led_state` on the namespace: each field read over its prior
      value; with the namespace not open, all of them keep it. */
  function LoadLedState(isOpen: bool, nvs: Nvs, prior: LedState): (r: LedState)
    ensures !isOpen ==> r == prior
    ensures forall i :: 0 <= i < 8 ==> Fields(r)[i].1 == GetValue(isOpen, nvs, Fields(prior)[i].0, Fields(prior)[i].1)
  {
    if !isOpen then prior
    else LedState(
      LoadByte(isOpen, nvs, KEY_POWER, prior.power),
      LoadWord(isOpen, nvs, KEY_HUE, prior.hue),
      LoadByte(isOpen, nvs, KEY_SATURATION, prior.saturation),
      LoadByte(isOpen, nvs, KEY_BRIGHTNESS, prior.brightness),
      LoadByte(isOpen, nvs, KEY_MODE, prior.mode),
      LoadWord(isOpen, nvs, KEY_ON_TIME, prior.onTime),
      LoadWord(isOpen, nvs, KEY_OFF_TIME, prior.offTime),
      LoadByte(isOpen, nvs, KEY_SPEED, prior.speed))
  }

  // ---------------------------------------------------------------------
  // Properties

  /** A field keeps its prior value exactly when its read does not deliver
      a stored value of the right width; otherwise it takes that value. */
  lemma LoadByteFallback(isOpen: bool, nvs: Nvs, key: string, prior: u8)
    ensures var ok := isOpen && key !in nvs.readFaults && key in nvs.entries && nvs.entries[key].U8?;
      && (ok ==> LoadByte(isOpen, nvs, key, prior) == nvs.entries[key].byte)
      && (!ok ==> LoadByte(isOpen, nvs, key, prior) == prior)
  {
  }

  lemma LoadWordFallback(isOpen: bool, nvs: Nvs, key: string, prior: u16)
    ensures var ok := isOpen && key !in nvs.readFaults && key in nvs.entries && nvs.entries[key].U16?;
      && (ok ==> LoadWord(isOpen, nvs, key, prior) == nvs.entries[key].word)
      && (!ok ==> LoadWord(isOpen, nvs, key, prior) == prior)
  {
  }

  /** A run of writes to distinct keys: each key whose write can succeed
      holds its value afterwards, every other entry is as before, and the
      fault sets do not change. */
  lemma {:induction false} WriteAllEffect(isOpen: bool, nvs: Nvs, ws: seq<(string, NvsValue)>)
    requires DistinctKeys(ws)
    ensures var r := WriteAll(isOpen, nvs, ws);
      && r.readFaults == nvs.readFaults && r.writeFaults == nvs.writeFaults
      && (forall i :: 0 <= i < |ws| && isOpen && ws[i].0 !in nvs.writeFaults ==>
            ws[i].0 in r.entries && r.entries[ws[i].0] == ws[i].1)
      && (forall k :: !HasKey(ws, k) || !isOpen || k in nvs.writeFaults ==>
            (k in r.entries <==> k in nvs.entries) && (k in r.entries ==> r.entries[k] == nvs.entries[k]))
    decreases |ws|
  {
    if ws != [] {
      var n1 := SetValue(isOpen, nvs, ws[0].0, ws[0].1).store;
      var tail := ws[1..];
      assert DistinctKeys(tail);
      WriteAllEffect(isOpen, n1, tail);
      forall k | HasKey(tail, k)
        ensures k != ws[0].0
      {
        var i :| 0 <= i < |tail| && tail[i].0 == k;
        assert ws[i + 1].0 == k;
      }
      forall i | 0 < i < |ws|
        ensures ws[i] == tail[i - 1]
      {
      }
    }
  }

  lemma FieldKeysDistinct(st: LedState)
    ensures DistinctKeys(Fields(st))
  {
  }

  /** The store writes the eight keys, each with the record's value unless
      its write fails, and leaves every other entry alone. */
  lemma StoreEffect(isOpen: bool, nvs: Nvs, st: LedState)
    ensures var r := StoreLedState(isOpen, nvs, st);
      && (forall i :: 0 <= i < 8 && isOpen && Fields(st)[i].0 !in nvs.writeFaults ==>
            Fields(st)[i].0 in r.entries && r.entries[Fields(st)[i].0] == Fields(st)[i].1)
      && (forall k :: !HasKey(Fields(st), k) || !isOpen || k in nvs.writeFaults ==>
            (k in r.entries <==> k in nvs.entries) && (k in r.entries ==> r.entries[k] == nvs.entries[k]))
  {
    FieldKeysDistinct(st);
    WriteAllEffect(isOpen, nvs, Fields(st));
  }

  /** Storing a record through an open handle and loading it back through
      an open handle, with no fault on any of the eight keys, gives the
      record whatever the prior state. */
  lemma StoreThenLoad(nvs: Nvs, st: LedState, prior: LedState)
    requires forall i :: 0 <= i < 8 ==> Fields(st)[i].0 !in nvs.readFaults && Fields(st)[i].0 !in nvs.writeFaults
    ensures LoadLedState(true, StoreLedState(true, nvs, st), prior) == st
  {
    StoreEffect(true, nvs, st);
    var r := StoreLedState(true, nvs, st);
    var f := Fields(st);
    assert r.entries[f[0].0] == f[0].1 && r.entries[f[1].0] == f[1].1;
    assert r.entries[f[2].0] == f[2].1 && r.entries[f[3].0] == f[3].1;
    assert r.entries[f[4].0] == f[4].1 && r.entries[f[5].0] == f[5].1;
    assert r.entries[f[6].0] == f[6].1 && r.entries[f[7].0] == f[7].1;
  }

  /** A store through a handle that failed to open changes nothing, and a
      load through one keeps the whole prior record. */
  lemma ClosedHandle(nvs: Nvs, st: LedState, prior: LedState)
    ensures StoreLedState(false, nvs, st) == nvs
    ensures LoadLedState(false, nvs, prior) == prior
  {
    StoreEffect(false, nvs, st);
    assert StoreLedState(false, nvs, st).entries == nvs.entries;
  }
}
