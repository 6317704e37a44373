/** The owner's side of the server: button presses and typed names, and what they do to the
    device records. */
module CallbackBot {
  import opened Decimal
  import opened DeviceStore
  import opened CallbackCodec

  /** The server's memory: the records, the devices that wait for a name, and how often the
      door was told to open. */
  datatype Memory = Memory(records: Records, waiting: seq<string>, openings: nat)

  /** What an action asks of the store. */
  function OperationOf(a: Action): Option<Operation> {
    match a
    case SaveAs(id, name) => Some(Operation.Add(id, name))
    case RemoveDevice(id) => Some(Remove(id))
    case Until(days, id) => Some(UpdateUntil(days, id))
    case ShowSettings(id) => Some(Get(id))
    case _ => None
  }

  /** The memory after an action; an exception leaves everything as it is. */
  function Performed(m: Memory, action: Option<Action>, now: int): Memory {
    if action.None? then m
    else
      var op := OperationOf(action.value);
      Memory(
        if op.Some? then Lazy(m.records, op.value, now).records else m.records,
        if action.value.AskName? then m.waiting + [action.value.id] else m.waiting,
        if action.value.OpenDoor? then m.openings + 1 else m.openings)
  }

  /** A press of a button. */
  function Pressed(m: Memory, data: string, now: int): Memory {
    Performed(m, Decode(data), now)
  }

  /** A name is typed; `alnum` is what str.isalnum says about it. The last device that was asked
      about gets it. */
  function Typed(m: Memory, text: string, alnum: bool): (r: (Memory, seq<string>)) {
    if "/" <= text || m.waiting == [] || !alnum then (m, [])
    else
      var n := |m.waiting| - 1;
      (m.(waiting := m.waiting[..n]), NameKeyboard(m.waiting[n], text))
  }

  /** The dialogue that names a device: the button Add, a name, the button Accept. It stores
      just that name for just that device and leaves no trace otherwise. */
  lemma NamingStoresTheName(m: Memory, id: string, name: string, asked: int, accepted: int)
    requires IsWord(id) && IsWord(name) && name[0] != '/'
    ensures var typed := Typed(Pressed(m, NewDeviceKeyboard(id)[2], asked), name, true);
      && typed.1 == NameKeyboard(id, name)
      && (Pressed(typed.0, typed.1[1], accepted)
        == m.(records := Lazy(m.records, Operation.Add(id, name), accepted).records))
      && Pressed(typed.0, typed.1[0], accepted) == m
      && Pressed(typed.0, typed.1[2], accepted) == m.(waiting := m.waiting + [id])
  {
    hide Decode, Lazy;
    assert "add: " + id == Encode(AskName(id));
    AcceptText(id, name);
    CodecRoundTrip(AskName(id));
    CodecRoundTrip(SaveAs(id, name));
    CodecRoundTrip(Ignore);
    assert (m.waiting + [id])[..|m.waiting|] == m.waiting;
  }

  /** Remove: no lookup finds the device any more. */
  lemma RemoveButton(m: Memory, id: string, now: int, s: int, other: string)
    requires IsWord(id)
    ensures var after := Pressed(m, SettingsKeyboard(id)[0], now);
      && Lookup(after.records, id, s) == None
      && (other != id ==> Lookup(after.records, other, s) == Lookup(m.records, other, s))
      && after.waiting == m.waiting && after.openings == m.openings
  {
    CodecRoundTrip(RemoveDevice(id));
    assert "remove " + id == Encode(RemoveDevice(id));
    hide Decode;
  }

  /** The buttons for one, three, seven and no days: the device is found for so many more days,
      or for ever. */
  lemma LimitButtons(m: Memory, id: string, k: nat, now: int, s: int, other: string)
    requires IsWord(id) && 1 <= k <= 4
    ensures var after, days := Pressed(m, SettingsKeyboard(id)[k], now), [1, 3, 7, 0][k - 1];
      && (id in m.records ==>
            var from := if m.records[id].until.Some? then m.records[id].until.value else now;
            Lookup(after.records, id, s).Some? <==> days == 0 || s < from + days * 86_400_000_000)
      && (id !in m.records ==> after == m)
      && (other != id ==> Lookup(after.records, other, s) == Lookup(m.records, other, s))
      && after.waiting == m.waiting && after.openings == m.openings
  {
    var days: nat := [1, 3, 7, 0][k - 1];
    UntilTexts(id);
    hide Decode, Encode, Lookup, Lazy;
    assert SettingsKeyboard(id)[k] == Encode(Until(days, id));
    CodecRoundTrip(Until(days, id));
    LimitAfterUpdate(m.records, id, days, now, s, other);
  }

  /** Accept: the device is found under its new name, without a limit if it is new. */
  lemma AcceptButton(m: Memory, id: string, name: string, now: int, s: int, other: string)
    requires IsWord(id) && IsWord(name)
    ensures var after := Pressed(m, NameKeyboard(id, name)[1], now);
      && (id !in m.records ==> Lookup(after.records, id, s) == Some(Device(name, now, None)))
      && (id in m.records && Lookup(m.records, id, s).Some? ==>
            Lookup(after.records, id, s) == Some(Lookup(m.records, id, s).value.(name := name)))
      && (other != id ==> Lookup(after.records, other, s) == Lookup(m.records, other, s))
      && after.waiting == m.waiting && after.openings == m.openings
  {
    AcceptText(id, name);
    CodecRoundTrip(SaveAs(id, name));
    hide Decode, Encode, Lookup, Lazy, IsWord;
    FoundAfterAdd(m.records, id, name, now, s, other);
  }

  /** A device of the list: no lookup notices that its settings were shown. */
  lemma ShowButton(m: Memory, id: string, now: int, s: int, other: string)
    requires !Reserved(id) && now <= s
    ensures var after := Pressed(m, id, now);
      && Lookup(after.records, other, s) == Lookup(m.records, other, s)
      && after.waiting == m.waiting && after.openings == m.openings
  {
    CodecRoundTrip(ShowSettings(id));
    hide Decode, Lookup, Lazy;
    LookupLeavesNoTrace(m.records, id, now, s, other);
  }

  /** The buttons for an unknown device: Ignore, Open, and Add, which makes it the one that the
      next name is for. */
  lemma NewDeviceButtons(m: Memory, id: string, now: int)
    ensures Pressed(m, NewDeviceKeyboard(id)[0], now) == m
    ensures Pressed(m, NewDeviceKeyboard(id)[1], now) == m.(openings := m.openings + 1)
    ensures IsWord(id) ==> Pressed(m, NewDeviceKeyboard(id)[2], now) == m.(waiting := m.waiting + [id])
  {
    hide Decode, IsWord;
    CodecRoundTrip(Ignore);
    CodecRoundTrip(OpenDoor);
    CodecRoundTrip(AskName(id));
    assert "add: " + id == Encode(AskName(id));
  }

  // ---- Runs of presses ----

  datatype Press = Press(action: Action, time: int)

  /** The memory after a run of presses, each of the button that was built for its action. */
  function AfterPresses(m: Memory, presses: seq<Press>): Memory
    decreases |presses|
  {
    if presses == [] then m
    else AfterPresses(Pressed(m, Encode(presses[0].action), presses[0].time), presses[1..])
  }

  /** The store's part of a run of presses. */
  function StepsOf(presses: seq<Press>): seq<Step> {
    if presses == [] then []
    else
      var op := OperationOf(presses[0].action);
      (if op.Some? then [Step(op.value, presses[0].time)] else []) + StepsOf(presses[1..])
  }

  /** How often a run opens the door. */
  function Openings(presses: seq<Press>): nat {
    if presses == [] then 0 else (if presses[0].action.OpenDoor? then 1 else 0) + Openings(presses[1..])
  }

  /** Through strings and back, a run of presses does to the store what its actions ask, in
      order, and opens the door as often as it was asked to. */
  lemma {:induction false} PressesDoTheirActions(m: Memory, presses: seq<Press>)
    requires forall p :: p in presses ==> Sendable(p.action)
    ensures AfterPresses(m, presses).records == AfterSteps(m.records, StepsOf(presses))
    ensures AfterPresses(m, presses).openings == m.openings + Openings(presses)
    decreases |presses|
  {
    if presses != [] {
      var p := presses[0];
      CodecRoundTrip(p.action);
      hide Decode, Encode, Lazy;
      PressesDoTheirActions(Pressed(m, Encode(p.action), p.time), presses[1..]);
      var op := OperationOf(p.action);
      if op.Some? {
        assert StepsOf(presses)[1..] == StepsOf(presses[1..]);
      } else {
        assert StepsOf(presses) == StepsOf(presses[1..]);
      }
    }
  }

  /** What a lookup finds is stored after it, and nothing else of that name. */
  lemma FoundIsStored(before: Records, id: string, now: int, after: Records, found: Option<Device>)
    requires Lazy(before, Get(id), now) == Result(after, Found(found))
    ensures found.Some? <==> id in after
  {
  }

  class Bot {
    const db: Database
    var waiting: seq<string>
    var openings: nat

    constructor (db: Database)
      ensures this.db == db && waiting == [] && openings == 0
    {
      this.db := db;
      waiting, openings := [], 0;
    }

    function State(): Memory
      reads this, db
    {
      Memory(db.records, waiting, openings)
    }

    /** callback_handler; `ok` is false where it raises an exception. The keyboard is the one it
        replies with, if any. */
    method CallbackHandler(data: string, now: int) returns (ok: bool, keyboard: seq<string>)
      modifies this, db
      ensures State() == Pressed(old(State()), data, now)
      ensures ok <==> Decode(data).Some?
      ensures !ok <==>
        || ("new" <= data && |Split(data)| != 3)
        || ("until" <= data && (|Split(data)| < 3 || !IsNumeral(Split(data)[1])))
      ensures !ok ==> State() == old(State())
      ensures (keyboard == if Decode(data).Some? && Decode(data).value.ShowSettings? && data in db.records
        then SettingsKeyboard(data) else [])
    {
      hide Split, Lazy, Value;
      ok, keyboard := true, [];
      if data == "ignore" {
        return;
      }
      if data == "open" {
        openings := openings + 1;
      } else if "add" <= data {
        var words := Split(data);
        waiting := waiting + [words[|words| - 1]];
      } else if "new" <= data {
        var arguments := Split(data)[1..];
        if |arguments| != 2 {
          return false, [];
        }
        db.AddDevice(arguments[0], arguments[1], now);
      } else if "remove" <= data {
        var words := Split(data);
        db.RemoveDevice(words[|words| - 1], now);
      } else if "until" <= data {
        var words := Split(data)[1..];
        if |words| < 2 || !IsNumeral(words[0]) {
          return false, [];
        }
        db.UpdateUntilTime(Value(words[0]), words[1], now);
      } else {
        ghost var records := db.records;
        var found := db.GetBtDevice(data, now);
        FoundIsStored(records, data, now, db.records, found);
        if found.Some? {
          keyboard := SettingsKeyboard(data);
        }
      }
    }

    /** get_device_name */
    method GetDeviceName(text: string, alnum: bool) returns (keyboard: seq<string>)
      modifies this
      ensures (State(), keyboard) == Typed(old(State()), text, alnum)
      ensures "/" <= text || old(waiting) == [] || !alnum ==> State() == old(State()) && keyboard == []
      ensures !("/" <= text || old(waiting) == [] || !alnum) ==>
        var id := old(waiting)[|old(waiting)| - 1];
        && old(waiting) == waiting + [id] && db.records == old(db.records) && openings == old(openings)
        && keyboard == ["ignore", "new " + id + " " + text, "add: " + id]
    {
      keyboard := [];
      if "/" <= text {
        return;
      }
      if waiting != [] {
        if !alnum {
          return;
        }
        var id := waiting[|waiting| - 1];
        waiting := waiting[..|waiting| - 1];
        keyboard := NameKeyboard(id, text);
      }
    }
  }
}
