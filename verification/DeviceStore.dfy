/**
 The server's device records. A record that has lapsed stays stored until somebody looks it up.

 Beside this store stands an eager one, which drops every record the moment it lapses; the two
 are compared over whole runs.
 */
module DeviceStore {

  const DAY: int := 86400 * 1_000_000

  datatype Option<T> = None | Some(value: T)

  /** Times are in microseconds; `until` is absent for a device without a time limit. */
  datatype Device = Device(name: string, registered: int, until: Option<int>)

  type Records = map<string, Device>

  /** Device.timeout */
  predicate Lapsed(d: Device, now: int) {
    d.until.Some? && now >= d.until.value
  }

  /** The records that have not lapsed. */
  function Live(m: Records, now: int): Records {
    map id | id in m && !Lapsed(m[id], now) :: m[id]
  }

  // ---- Operations and what they answer ----

  datatype Operation =
    | Get(id: string)
    | Add(id: string, name: string)
    | UpdateUntil(days: int, id: string)
    | List
    | Remove(id: string)

  datatype Answer =
    | Nothing
    | Found(device: Option<Device>)
    | Listed(entries: map<string, (string, Option<int>)>)

  datatype Result = Result(records: Records, answer: Answer)

  function Entries(m: Records): map<string, (string, Option<int>)> {
    map id | id in m :: (m[id].name, m[id].until)
  }

  function Extended(d: Device, days: int, now: int): Device {
    if days == 0 then d.(until := None)
    else d.(until := Some((if d.until.Some? then d.until.value else now) + days * DAY))
  }

  /** The store as it is: only a lookup deletes a record that has lapsed. */
  function Lazy(m: Records, op: Operation, now: int): Result {
    match op
    case Get(id) =>
      if id !in m then Result(m, Found(None))
      else if Lapsed(m[id], now) then Result(m - {id}, Found(None))
      else Result(m, Found(Some(m[id])))
    case Add(id, name) =>
      if id in m then Result(m[id := m[id].(name := name)], Nothing)
      else Result(m[id := Device(name, now, None)], Nothing)
    case UpdateUntil(days, id) =>
      if id in m then Result(m[id := Extended(m[id], days, now)], Nothing) else Result(m, Nothing)
    case List =>
      Result(m, Listed(Entries(Live(m, now))))
    case Remove(id) =>
      Result(m - {id}, Nothing)
  }

  /** A store without any notion of time limits. */
  function Timeless(m: Records, op: Operation, now: int): Result {
    match op
    case Get(id) => Result(m, Found(if id in m then Some(m[id]) else None))
    case Add(id, name) =>
      Result(m[id := if id in m then m[id].(name := name) else Device(name, now, None)], Nothing)
    case UpdateUntil(days, id) =>
      Result(if id in m then m[id := Extended(m[id], days, now)] else m, Nothing)
    case List => Result(m, Listed(Entries(m)))
    case Remove(id) => Result(m - {id}, Nothing)
  }

  /** The eager store: the records that lapsed up to `now` are gone before the operation, and
      one that lapses by it is gone after it. */
  function Eager(m: Records, op: Operation, now: int): Result {
    var r := Timeless(Live(m, now), op, now);
    Result(Live(r.records, now), r.answer)
  }

  // ---- What each operation does, seen through lookups ----

  /** What a lookup of the device finds. */
  function Lookup(m: Records, id: string, now: int): Option<Device> {
    Lazy(m, Get(id), now).answer.device
  }

  /** Extending the limit of a stored device by some days moves the moment from which it is no
      longer found by just as many, from the old limit or, without one, from now. With 0 days it
      is found at any time. Nothing else changes, and an unknown device stays unknown. */
  lemma LimitAfterUpdate(m: Records, id: string, days: int, t: int, s: int, other: string)
    ensures id !in m ==> Lazy(m, UpdateUntil(days, id), t).records == m
    ensures id in m ==>
      var after := Lazy(m, UpdateUntil(days, id), t).records;
      var from := if m[id].until.Some? then m[id].until.value else t;
      && (Lookup(after, id, s).Some? <==> days == 0 || s < from + days * 86_400_000_000)
      && (Lookup(after, id, s).Some? ==>
            var d := Lookup(after, id, s).value;
            d.name == m[id].name && d.registered == m[id].registered)
    ensures other != id ==>
      Lookup(Lazy(m, UpdateUntil(days, id), t).records, other, s) == Lookup(m, other, s)
  {
  }

  /** A new device is found at any time from then on, without a limit; a stored one is found as
      long as before, under its new name. */
  lemma FoundAfterAdd(m: Records, id: string, name: string, t: int, s: int, other: string)
    ensures var after := Lazy(m, Operation.Add(id, name), t).records;
      && (id !in m ==> Lookup(after, id, s) == Some(Device(name, t, None)))
      && (id in m ==> (Lookup(after, id, s).Some? <==> Lookup(m, id, s).Some?))
      && (id in m && Lookup(m, id, s).Some? ==>
            Lookup(after, id, s) == Some(Lookup(m, id, s).value.(name := name)))
      && (other != id ==> Lookup(after, other, s) == Lookup(m, other, s))
  {
  }

  /** A removed device is not found at any time, and no other is touched. */
  lemma GoneAfterRemove(m: Records, id: string, t: int, s: int, other: string)
    ensures var after := Lazy(m, Remove(id), t).records;
      Lookup(after, id, s) == None && (other != id ==> Lookup(after, other, s) == Lookup(m, other, s))
  {
  }

  /** No later lookup of any device notices an earlier one. */
  lemma LookupLeavesNoTrace(m: Records, id: string, t: int, s: int, other: string)
    requires t <= s
    ensures Lookup(Lazy(m, Get(id), t).records, other, s) == Lookup(m, other, s)
  {
  }

  /** The list shows exactly the devices that a lookup would find, with their names and limits. */
  lemma ListShowsTheFound(m: Records, t: int, id: string)
    ensures Lazy(m, List, t).records == m
    ensures var entries := Lazy(m, List, t).answer.entries;
      && (id in entries <==> Lookup(m, id, t).Some?)
      && (id in entries ==> entries[id] == (Lookup(m, id, t).value.name, Lookup(m, id, t).value.until))
  {
  }

  // ---- One step ----

  /** An operation that brings a record back that has lapsed but was not looked up since: a new
      name for it, or a time limit that lies ahead again or is lifted. */
  predicate Revives(m: Records, op: Operation, now: int) {
    match op
    case Add(id, _) => id in m && Lapsed(m[id], now)
    case UpdateUntil(days, id) =>
      id in m && Lapsed(m[id], now) && (days == 0 || m[id].until.value + days * DAY > now)
    case _ => false
  }

  /** As time goes on, a store that holds the live records still determines them. */
  lemma LiveLater(m: Records, t: int, now: int)
    requires t <= now
    ensures Live(Live(m, t), now) == Live(m, now)
  {
  }

  /** The two stores always give the same answer; their live records are the same after the
      operation exactly if it revived nothing. */
  lemma StepAgrees(m: Records, op: Operation, t: int, now: int)
    requires t <= now
    ensures Lazy(m, op, now).answer == Eager(Live(m, t), op, now).answer
    ensures Eager(Live(m, t), op, now).records == Live(Lazy(m, op, now).records, now) <==> !Revives(m, op, now)
  {
    LiveLater(m, t, now);
    var eager, kept := Eager(Live(m, t), op, now).records, Lazy(m, op, now).records;
    if Revives(m, op, now) {
      RevivalShows(m, op, t, now);
    } else {
      assert forall id :: id in eager <==> id in Live(kept, now);
      assert eager == Live(kept, now);
    }
  }

  /** A revival shows: the very next lookup of the device gives different answers. */
  lemma RevivalShows(m: Records, op: Operation, t: int, now: int)
    requires t <= now && Revives(m, op, now)
    ensures (Lazy(Lazy(m, op, now).records, Get(op.id), now).answer
      != Eager(Eager(Live(m, t), op, now).records, Get(op.id), now).answer)
  {
  }

  // ---- Runs ----

  datatype Step = Step(op: Operation, time: int)

  ghost predicate Chronological(t: int, steps: seq<Step>)
    decreases |steps|
  {
    steps == [] || (t <= steps[0].time && Chronological(steps[0].time, steps[1..]))
  }

  /** Whatever is looked up at any point of the run, and whatever the run itself asks, the two
      stores answer alike. */
  ghost predicate Indistinguishable(m: Records, e: Records, t: int, steps: seq<Step>)
    decreases |steps|
  {
    && (forall id :: Lazy(m, Get(id), t).answer == Eager(e, Get(id), t).answer)
    && (steps != [] ==>
         var s := steps[0];
         var l, g := Lazy(m, s.op, s.time), Eager(e, s.op, s.time);
         l.answer == g.answer && Indistinguishable(l.records, g.records, s.time, steps[1..]))
  }

  /** No operation of the run revives a record. */
  ghost predicate NoRevival(m: Records, steps: seq<Step>)
    decreases |steps|
  {
    steps != [] ==>
      !Revives(m, steps[0].op, steps[0].time) && NoRevival(Lazy(m, steps[0].op, steps[0].time).records, steps[1..])
  }

  /** Lookups see the same exactly if the live records are the same. */
  lemma LookupsShow(m: Records, e: Records, t: int)
    ensures (forall id :: Lazy(m, Get(id), t).answer == Eager(e, Get(id), t).answer) <==> Live(e, t) == Live(m, t)
  {
    if forall id :: Lazy(m, Get(id), t).answer == Eager(e, Get(id), t).answer {
      forall id ensures id in Live(e, t) <==> id in Live(m, t)
        ensures id in Live(e, t) ==> Live(e, t)[id] == Live(m, t)[id]
      {
        assert Lazy(m, Get(id), t).answer == Eager(e, Get(id), t).answer;
      }
      assert Live(e, t) == Live(m, t);
    } else {
      var id :| Lazy(m, Get(id), t).answer != Eager(e, Get(id), t).answer;
      assert id in Live(m, t) ==> Some(Live(m, t)[id]) == Lazy(m, Get(id), t).answer.device;
      assert id in Live(e, t) ==> Some(Live(e, t)[id]) == Eager(e, Get(id), t).answer.device;
      assert Live(e, t) != Live(m, t);
    }
  }

  /** Deleting records late cannot be told from deleting them on time, over a whole run,
      exactly if the run revives no record. */
  lemma {:induction false} LazyIsEager(m: Records, t: int, steps: seq<Step>)
    requires Chronological(t, steps)
    ensures Indistinguishable(m, Live(m, t), t, steps) <==> NoRevival(m, steps)
    decreases |steps|
  {
    LookupsShow(m, Live(m, t), t);
    LiveLater(m, t, t);
    if steps != [] {
      var s := steps[0];
      var l, g := Lazy(m, s.op, s.time), Eager(Live(m, t), s.op, s.time);
      StepAgrees(m, s.op, t, s.time);
      LiveLater(Timeless(Live(Live(m, t), s.time), s.op, s.time).records, s.time, s.time);
      LookupsShow(l.records, g.records, s.time);
      if g.records == Live(l.records, s.time) {
        LazyIsEager(l.records, s.time, steps[1..]);
      }
    }
  }

  /** The records after a run. */
  function AfterSteps(m: Records, steps: seq<Step>): Records
    decreases |steps|
  {
    if steps == [] then m else AfterSteps(Lazy(m, steps[0].op, steps[0].time).records, steps[1..])
  }

  /** What the run does to this device is to extend its limit, if anything. */
  ghost predicate OnlyExtends(steps: seq<Step>, id: string) {
    forall k :: 0 <= k < |steps| ==>
      match steps[k].op
      case UpdateUntil(days, i) => i == id ==> days != 0
      case List => true
      case Get(i) => i != id
      case Add(i, _) => i != id
      case Remove(i) => i != id
  }

  /** How many days it adds in all, and how often. */
  function DaysAdded(steps: seq<Step>, id: string): int {
    if steps == [] then 0
    else (if Extends(steps[0], id) then steps[0].op.days else 0) + DaysAdded(steps[1..], id)
  }

  predicate Extends(s: Step, id: string) {
    s.op.UpdateUntil? && s.op.id == id
  }

  /** When it does so first. */
  function FirstExtension(steps: seq<Step>, id: string): Option<int> {
    if steps == [] then None
    else if Extends(steps[0], id) then Some(steps[0].time)
    else FirstExtension(steps[1..], id)
  }

  /** Over any run, the limit counts from the old limit or, without one, from the first
      extension, and all the days add up; when the others come does not matter. */
  lemma {:induction false} ExtensionsAddUp(m: Records, steps: seq<Step>, id: string, s: int)
    requires id in m && OnlyExtends(steps, id) && FirstExtension(steps, id).Some?
    ensures var from := if m[id].until.Some? then m[id].until.value else FirstExtension(steps, id).value;
      Lookup(AfterSteps(m, steps), id, s).Some? <==> s < from + DaysAdded(steps, id) * 86_400_000_000
    decreases |steps|
  {
    var after, rest := Lazy(m, steps[0].op, steps[0].time).records, steps[1..];
    assert OnlyExtends(rest, id) by {
      forall k | 0 <= k < |rest| ensures rest[k] == steps[k + 1] {}
    }
    assert steps[0].op.UpdateUntil? && steps[0].op.id == id ==> steps[0].op.days != 0;
    if FirstExtension(rest, id).Some? {
      ExtensionsAddUp(after, rest, id, s);
    } else {
      NotExtended(after, rest, id);
    }
  }

  lemma {:induction false} NotExtended(m: Records, steps: seq<Step>, id: string)
    requires id in m && OnlyExtends(steps, id) && FirstExtension(steps, id).None?
    ensures id in AfterSteps(m, steps) && AfterSteps(m, steps)[id] == m[id] && DaysAdded(steps, id) == 0
    decreases |steps|
  {
    if steps != [] {
      var rest := steps[1..];
      assert OnlyExtends(rest, id) by {
        forall k | 0 <= k < |rest| ensures rest[k] == steps[k + 1] {}
      }
      assert !Extends(steps[0], id);
      NotExtended(Lazy(m, steps[0].op, steps[0].time).records, rest, id);
    }
  }

  /** Every operation that may revive a record comes right behind a lookup of that record. */
  ghost predicate LooksFirst(last: Option<Step>, steps: seq<Step>)
    decreases |steps|
  {
    steps == [] ||
    (&& (steps[0].op.Add? || steps[0].op.UpdateUntil? ==> last == Some(Step(Get(steps[0].op.id), steps[0].time)))
     && LooksFirst(Some(steps[0]), steps[1..]))
  }

  /** Looking a device up before writing to it is enough to keep the two stores alike. */
  lemma {:induction false} LookingFirstIsEnough(m: Records, last: Option<Step>, steps: seq<Step>)
    requires LooksFirst(last, steps)
    requires last.Some? && last.value.op.Get? && last.value.op.id in m ==> !Lapsed(m[last.value.op.id], last.value.time)
    ensures NoRevival(m, steps)
    decreases |steps|
  {
    if steps != [] {
      LookingFirstIsEnough(Lazy(m, steps[0].op, steps[0].time).records, Some(steps[0]), steps[1..]);
    }
  }

  // ---- The store in the server ----

  class Database {
    var records: Records

    constructor ()
      ensures records == map[]
    {
      records := map[];
    }

    /** get_bt_device */
    method GetBtDevice(id: string, now: int) returns (found: Option<Device>)
      modifies this
      ensures Lazy(old(records), Get(id), now) == Result(records, Found(found))
    {
      if id in records && !Lapsed(records[id], now) {
        return Some(records[id]);
      } else if id in records {
        records := records - {id};
      }
      return None;
    }

    /** add_device */
    method AddDevice(id: string, name: string, now: int)
      modifies this
      ensures Lazy(old(records), Add(id, name), now) == Result(records, Nothing)
    {
      if id in records {
        records := records[id := records[id].(name := name)];
      } else {
        records := records[id := Device(name, now, None)];
      }
    }

    /** update_until_time */
    method UpdateUntilTime(days: int, id: string, now: int)
      modifies this
      ensures Lazy(old(records), UpdateUntil(days, id), now) == Result(records, Nothing)
      ensures records.Keys == old(records.Keys)
      ensures forall i :: i in records && i != id ==> records[i] == old(records)[i]
      ensures id in records ==>
        var d, was := records[id], old(records)[id];
        && d.name == was.name && d.registered == was.registered
        && (d.until.None? <==> days == 0)
        && (days != 0 ==>
              d.until.value - (if was.until.Some? then was.until.value else now) == days * 86_400_000_000)
    {
      if id !in records {
        return;
      }
      var d := records[id];
      if days != 0 {
        var from := if d.until.Some? then d.until.value else now;
        d := d.(until := Some(from + days * DAY));
      } else {
        d := d.(until := None);
      }
      records := records[id := d];
    }

    /** list_devices */
    method ListDevices(now: int) returns (entries: map<string, (string, Option<int>)>)
      ensures Lazy(records, List, now) == Result(records, Listed(entries))
    {
      entries := map id | id in records && !Lapsed(records[id], now) :: (records[id].name, records[id].until);
      assert entries == Entries(Live(records, now));
    }

    /** The bot's remove button looks the device up and deletes what it finds. */
    method RemoveDevice(id: string, now: int)
      modifies this
      ensures Lazy(old(records), Remove(id), now) == Result(records, Nothing)
    {
      var found := GetBtDevice(id, now);
      if found.Some? {
        records := records - {id};
      }
    }
  }
}
