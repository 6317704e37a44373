/**
 The door's state, written by the MQTT message callback and by a timer interrupt.

 The timer interrupt may run between any two accesses of the callback to the door.
 */
module DoorState {
  import opened Words

  const OPEN_MS: nat := 30000
  const MQTT_MAX_PACKET_SZ: nat := 512
  const OPEN_DOOR_CMD := "open_door"
  const LOCK_DOOR_CMD := "lock"
  const UNLOCK_DOOR_CMD := "unlock"
  const NORMAL_DOOR_STAT := "normal"

  datatype DoorStatus = Closed | Open | Unlocked | Locked

  datatype Door = Door(stat: DoorStatus, openTime: U32)

  /** One run of the timer interrupt at clock reading `t`. */
  function Tick(d: Door, t: U32): Door {
    if d.stat.Open? && Sub32(t, d.openTime) < OPEN_MS then d
    else if d.stat.Locked? || d.stat.Unlocked? then d
    else d.(stat := Closed)
  }

  function Ticks(d: Door, ts: seq<U32>): Door {
    if ts == [] then d else Tick(Ticks(d, ts[..|ts| - 1]), ts[|ts| - 1])
  }

  /** What the message `cmd` asks of a door that is undisturbed, at clock reading `t`. */
  function Command(d: Door, cmd: string, t: U32): Door {
    match d.stat
    case Locked =>
      if cmd == UNLOCK_DOOR_CMD then d.(stat := Unlocked)
      else if cmd == NORMAL_DOOR_STAT then d.(stat := Closed)
      else d
    case _ =>
      if cmd == OPEN_DOOR_CMD || (d.stat.Unlocked? && cmd == NORMAL_DOOR_STAT) then Door(Open, t)
      else if cmd == UNLOCK_DOOR_CMD then d.(stat := Unlocked)
      else if cmd == LOCK_DOOR_CMD then d.(stat := Locked)
      else d
  }

  /** A payload that holds a text, and nothing or a NUL behind it, is that text. */
  lemma TextIs(text: string, rest: string)
    requires |text| <= MQTT_MAX_PACKET_SZ && '\0' !in text && (rest != [] ==> rest[0] == '\0')
    ensures Text(text + rest) == text
  {
    var s := text + rest;
    var cut := if |s| > MQTT_MAX_PACKET_SZ then s[..MQTT_MAX_PACKET_SZ] else s;
    UpToFirst(cut, |text|);
    assert cut[..|text|] == text;
  }

  /** A longer payload is cut off at 512 characters. */
  lemma TextOfLong(payload: string)
    requires |payload| >= MQTT_MAX_PACKET_SZ && '\0' !in payload
    ensures Text(payload) == payload[..512]
  {
    var cut := payload[..MQTT_MAX_PACKET_SZ];
    assert payload[..|payload|] == payload;
    UpToFirst(cut, |cut|);
  }

  lemma {:induction false} UpToFirst(s: string, n: nat)
    requires n <= |s| && (forall k :: 0 <= k < n ==> s[k] != '\0') && (n < |s| ==> s[n] == '\0')
    ensures UpToNul(s) == s[..n]
  {
    if n > 0 {
      UpToFirst(s[1..], n - 1);
    }
  }

  /** The text of a payload: at most 512 characters of it, up to a NUL. */
  function Text(payload: string): string {
    UpToNul(if |payload| > MQTT_MAX_PACKET_SZ then payload[..MQTT_MAX_PACKET_SZ] else payload)
  }

  function UpToNul(s: string): (t: string)
    ensures t <= s && '\0' !in t
    ensures |t| < |s| ==> s[|t|] == '\0'
  {
    if s == [] || s[0] == '\0' then [] else [s[0]] + UpToNul(s[1..])
  }

  // ---- The callback against the interrupt ----

  /** The interrupt only ever turns open into closed. */
  ghost predicate ClosedAtMost(d: Door, e: Door) {
    e == d || (d.stat.Open? && e == d.(stat := Closed))
  }

  lemma {:induction false} TicksOnlyClose(d: Door, ts: seq<U32>)
    ensures ClosedAtMost(d, Ticks(d, ts))
  {
    if ts != [] {
      TicksOnlyClose(d, ts[..|ts| - 1]);
    }
  }

  lemma {:induction false} TicksAppend(d: Door, ts: seq<U32>, us: seq<U32>)
    ensures Ticks(Ticks(d, ts), us) == Ticks(d, ts + us)
  {
    if us == [] {
      assert ts + us == ts;
    } else {
      TicksAppend(d, ts, us[..|us| - 1]);
      assert (ts + us)[..|ts + us| - 1] == ts + us[..|us| - 1];
    }
  }

  ghost predicate Opens(d: Door, cmd: string) {
    (!d.stat.Locked? && cmd == OPEN_DOOR_CMD) || (d.stat.Unlocked? && cmd == NORMAL_DOOR_STAT)
  }

  lemma OpensEitherWay(d: Door, before: seq<U32>, between: seq<U32>, cmd: string, t: U32)
    requires Opens(Ticks(d, before), cmd)
    ensures Command(Ticks(d, before), cmd, t) == Door(Open, t)
    ensures Command(Ticks(d, before + between), cmd, t) == Door(Open, t)
  {
    TicksAppend(d, before, between);
    TicksOnlyClose(Ticks(d, before), between);
  }

  lemma {:induction false} YoungDoorStaysOpen(d: Door, ts: seq<U32>, t: U32)
    requires d == Door(Open, t)
    ensures Ticks(d, ts) == d <==> forall i :: 0 <= i < |ts| ==> Sub32(ts[i], t) < 30000
  {
    if ts != [] {
      var front := ts[..|ts| - 1];
      YoungDoorStaysOpen(d, front, t);
      TicksOnlyClose(d, front);
      assert forall i :: 0 <= i < |front| ==> front[i] == ts[i];
    }
  }

  /** For a message that opens the door, the interrupts between the callback's two stores
      could as well have come after the callback exactly when none of them comes 30 seconds
      or more, on the wrapping clock, after the callback read the clock. */
  lemma ChronologicalExactlyWhenPrompt(d: Door, before: seq<U32>, between: seq<U32>, cmd: string, t: U32)
    requires Opens(Ticks(d, before), cmd)
    ensures Ticks(Command(Ticks(d, before), cmd, t), between) == Command(Ticks(d, before + between), cmd, t)
       <==> forall i :: 0 <= i < |between| ==> Sub32(between[i], t) < OPEN_MS
  {
    OpensEitherWay(d, before, between, cmd, t);
    YoungDoorStaysOpen(Door(Open, t), between, t);
  }

  // ---- Runs of the door ----

  datatype Event = Message(cmd: string, at: nat) | TimerTick(at: nat)

  function Step(d: Door, e: Event): Door {
    match e
    case Message(cmd, at) => Command(d, cmd, Wrap32(at))
    case TimerTick(at) => Tick(d, Wrap32(at))
  }

  function Run(d: Door, es: seq<Event>): Door
    decreases |es|
  {
    if es == [] then d else Run(Step(d, es[0]), es[1..])
  }

  ghost predicate Ordered(es: seq<Event>, from: nat) {
    && (forall i :: 0 <= i < |es| ==> from <= es[i].at)
    && (forall i, j :: 0 <= i < j < |es| ==> es[i].at <= es[j].at)
  }

  /** A locked door stays locked exactly as long as neither `unlock` nor `normal` comes. */
  lemma {:induction false} LockedStaysLocked(d: Door, es: seq<Event>)
    requires d.stat.Locked?
    ensures (forall i :: 0 <= i <= |es| ==> Run(d, es[..i]).stat.Locked?)
       <==> (forall e :: e in es && e.Message? ==> e.cmd != UNLOCK_DOOR_CMD && e.cmd != NORMAL_DOOR_STAT)
  {
    if es != [] {
      var e, rest := es[0], es[1..];
      RunsFromFirst(d, es);
      if Step(d, e).stat.Locked? {
        LockedStaysLocked(Step(d, e), rest);
        assert forall x :: x in es <==> x == e || x in rest;
        assert forall i :: 0 < i <= |es| ==> Run(d, es[..i]) == Run(Step(d, e), rest[..i - 1]);
        assert es[..0] == [];
        if forall i :: 0 <= i <= |es| ==> Run(d, es[..i]).stat.Locked? {
          forall j | 0 <= j <= |rest|
            ensures Run(Step(d, e), rest[..j]).stat.Locked?
          {
            assert Run(d, es[..j + 1]) == Run(Step(d, e), rest[..j]);
          }
        }
      } else {
        assert es[..1] == [e];
        assert Run(d, es[..1]) == Step(d, e);
        assert e in es;
      }
    }
  }

  lemma RunsFromFirst(d: Door, es: seq<Event>)
    requires es != []
    ensures forall i :: 0 < i <= |es| ==> Run(d, es[..i]) == Run(Step(d, es[0]), es[1..][..i - 1])
  {
    forall i | 0 < i <= |es|
      ensures Run(d, es[..i]) == Run(Step(d, es[0]), es[1..][..i - 1])
    {
      assert es[..i][0] == es[0] && es[..i][1..] == es[1..][..i - 1];
    }
  }

  /** `normal` leaves a closed door closed and closes a locked one, but it opens an unlocked one
      and leaves an open one open. */
  lemma NormalClosesExactly(d: Door, t: U32)
    ensures Command(d, NORMAL_DOOR_STAT, t).stat.Closed? <==> d.stat.Closed? || d.stat.Locked?
    ensures d.stat.Unlocked? ==> Command(d, NORMAL_DOOR_STAT, t) == Door(Open, t)
  {
  }

  /** No message that an open or closed door reacts to. */
  ghost predicate Quiet(es: seq<Event>) {
    forall e :: e in es && e.Message? ==> e.cmd !in {OPEN_DOOR_CMD, LOCK_DOOR_CMD, UNLOCK_DOOR_CMD}
  }

  /** From `last` to `end` the timer ticks at least every `p` milliseconds. */
  ghost predicate TicksEvery(es: seq<Event>, p: nat, last: nat, end: nat) {
    if es == [] then end <= last + p
    else if es[0].TimerTick? then es[0].at <= last + p && TicksEvery(es[1..], p, es[0].at, end)
    else TicksEvery(es[1..], p, last, end)
  }

  /** An undisturbed door opened at `t0` is open through every event before
      `t0 + 30000`. */
  lemma {:induction false} OpenForHalfAMinute(t0: nat, es: seq<Event>)
    requires Ordered(es, t0) && Quiet(es)
    requires forall e :: e in es ==> e.at < t0 + 30000
    ensures Run(Door(Open, Wrap32(t0)), es) == Door(Open, Wrap32(t0))
  {
    if es != [] {
      var e := es[0];
      assert e in es;
      Elapsed(t0, e.at);
      OpenForHalfAMinute(t0, es[1..]);
    }
  }

  lemma {:induction false} ClosedStaysClosed(d: Door, es: seq<Event>)
    requires d.stat.Closed? && Quiet(es)
    ensures Run(d, es) == d
  {
    if es != [] {
      assert es[0] in es;
      ClosedStaysClosed(d, es[1..]);
    }
  }

  /** With timer ticks at most `p` apart, an undisturbed door is closed `30000 + p` after it
      was opened, however often the clock wraps. */
  lemma {:induction false} ClosedAfterwards(t0: nat, es: seq<Event>, p: nat, last: nat, end: nat)
    requires Ordered(es, last) && Quiet(es) && OPEN_MS + p < TWO_32
    requires t0 <= last < t0 + OPEN_MS && t0 + OPEN_MS + p <= end
    requires TicksEvery(es, p, last, end)
    ensures Run(Door(Open, Wrap32(t0)), es).stat.Closed?
  {
    var d := Door(Open, Wrap32(t0));
    if es != [] {
      var e, rest := es[0], es[1..];
      assert e in es;
      if e.TimerTick? {
        Elapsed(t0, e.at);
        if e.at < t0 + OPEN_MS {
          ClosedAfterwards(t0, rest, p, e.at, end);
        } else {
          ClosedStaysClosed(Step(d, e), rest);
        }
      } else {
        ClosedAfterwards(t0, rest, p, last, end);
      }
    }
  }

  /** An unlocked door that gets `normal` is closed, and so scanning again, within 30000 + `p`. */
  lemma NormalScansAgain(d: Door, t0: nat, es: seq<Event>, p: nat, end: nat)
    requires d.stat.Unlocked?
    requires Ordered(es, t0) && Quiet(es) && OPEN_MS + p < TWO_32 && t0 + OPEN_MS + p <= end
    requires TicksEvery(es, p, t0, end)
    ensures Run(d, [Message(NORMAL_DOOR_STAT, t0)] + es).stat.Closed?
  {
    ClosedAfterwards(t0, es, p, t0, end);
    RunAppend(d, [Message(NORMAL_DOOR_STAT, t0)], es);
    RunOfOne(d, Message(NORMAL_DOOR_STAT, t0));
  }

  // ---- The door in place ----

  function TickEvents(ts: seq<nat>): (es: seq<Event>)
    ensures |es| == |ts|
  {
    seq(|ts|, i requires 0 <= i < |ts| => TimerTick(ts[i]))
  }

  lemma InOrderAppend(ts: seq<nat>, us: seq<nat>, from: nat, mid: nat, to: nat)
    requires InOrder(ts, from, mid) && InOrder(us, mid, to)
    ensures InOrder(ts + us, from, to) && Wrapped(ts + us) == Wrapped(ts) + Wrapped(us)
  {
  }

  lemma {:induction false} RunAppend(d: Door, es: seq<Event>, fs: seq<Event>)
    ensures Run(d, es + fs) == Run(Run(d, es), fs)
    decreases |es|
  {
    if es == [] {
      assert es + fs == fs;
    } else {
      RunAppend(Step(d, es[0]), es[1..], fs);
      assert (es + fs)[1..] == es[1..] + fs;
    }
  }

  /** A run of ticks is what the ticks do, in order. */
  lemma {:induction false} RunOfTicks(d: Door, ts: seq<nat>)
    ensures Run(d, TickEvents(ts)) == Ticks(d, Wrapped(ts))
  {
    if ts != [] {
      var front, last := ts[..|ts| - 1], ts[|ts| - 1];
      RunOfTicks(d, front);
      RunAppend(d, TickEvents(front), [TimerTick(last)]);
      assert TickEvents(ts) == TickEvents(front) + [TimerTick(last)];
      assert Wrapped(ts)[..|ts| - 1] == Wrapped(front);
      RunOfOne(Run(d, TickEvents(front)), TimerTick(last));
    }
  }

  lemma RunOfOne(d: Door, e: Event)
    ensures Run(d, [e]) == Step(d, e)
  {
    assert [e][1..] == [];
  }

  /** Some ticks and then a message. */
  lemma RunOfMessage(d: Door, ts: seq<nat>, cmd: string, at: nat)
    ensures Run(d, TickEvents(ts) + [Message(cmd, at)]) == Command(Ticks(d, Wrapped(ts)), cmd, Wrap32(at))
  {
    RunAppend(d, TickEvents(ts), [Message(cmd, at)]);
    RunOfTicks(d, ts);
    RunOfOne(Ticks(d, Wrapped(ts)), Message(cmd, at));
  }

  /** A callback with the text `cmd`, from time `from` to time `to`, turned the door `d` into
      `result`, while the timer ticked at `ts`: as if the ticks had come first, and then the whole
      callback had been one step that read the clock at `at`. It really read the clock after
      `split` of the ticks; any later ones mean that it has opened the door. */
  ghost predicate Answered(d: Door, ts: seq<nat>, cmd: string, at: nat, split: nat, from: nat, to: nat, result: Door) {
    && InOrder(ts, from, to) && split <= |ts|
    && InOrder(ts[..split], from, at) && InOrder(ts[split..], at, to)
    && result == Command(Ticks(d, Wrapped(ts)), cmd, Wrap32(at))
    && (split < |ts| ==> result == Door(Open, Wrap32(at)))
  }

  lemma AnsweredLast(d: Door, ts: seq<nat>, cmd: string, from: nat, to: nat)
    requires InOrder(ts, from, to)
    ensures Answered(d, ts, cmd, to, |ts|, from, to, Command(Ticks(d, Wrapped(ts)), cmd, Wrap32(to)))
  {
    assert ts[..|ts|] == ts;
    hide Ticks, Wrapped, Command;
  }

  lemma AnsweredInBetween(d: Door, ts: seq<nat>, us: seq<nat>, cmd: string, at: nat, from: nat, to: nat)
    requires InOrder(ts, from, at) && InOrder(us, at, to) && Opens(Ticks(d, Wrapped(ts)), cmd)
    ensures Answered(d, ts + us, cmd, at, |ts|, from, to, Door(Open, Wrap32(at)))
  {
    InOrderAppend(ts, us, from, at, to);
    OpensEitherWay(d, Wrapped(ts), Wrapped(us), cmd, Wrap32(at));
    assert (ts + us)[..|ts|] == ts && (ts + us)[|ts|..] == us;
    hide Ticks, Wrapped, Command, InOrder;
  }

  /** A callback with `open_door`, on a door that is not locked, opens it at its clock reading. */
  lemma AnswerOpens(d: Door, ts: seq<nat>, cmd: string, at: nat, split: nat, from: nat, to: nat, v: Door)
    requires Answered(d, ts, cmd, at, split, from, to, v)
    ensures from <= at <= to
    ensures cmd == OPEN_DOOR_CMD && !d.stat.Locked? ==> v == Door(Open, Wrap32(at))
  {
    TicksOnlyClose(d, Wrapped(ts));
    hide Ticks, Wrapped;
  }

  /** What becomes of an open door through the ticks `ts`. */
  lemma OpenThroughTicks(at: nat, answered: nat, now: nat, ts: seq<nat>, p: nat)
    requires at <= answered && InOrder(ts, answered, now)
    ensures now < at + OPEN_MS ==> Run(Door(Open, Wrap32(at)), TickEvents(ts)) == Door(Open, Wrap32(at))
    ensures (answered < at + OPEN_MS && OPEN_MS + p < TWO_32 && at + OPEN_MS + p <= now
             && TicksEvery(TickEvents(ts), p, answered, now)) ==>
              Run(Door(Open, Wrap32(at)), TickEvents(ts)).stat.Closed?
  {
    var es := TickEvents(ts);
    if now < at + OPEN_MS {
      OpenForHalfAMinute(at, es);
    }
    if (answered < at + OPEN_MS && OPEN_MS + p < TWO_32 && at + OPEN_MS + p <= now
        && TicksEvery(es, p, answered, now)) {
      ClosedAfterwards(at, es, p, answered, now);
    }
  }

  /** What a callback does, message by message, whatever ticks come during it: `lock` locks and
      `unlock` unlocks any door, `open_door` opens any that is not locked, `normal` closes a locked
      and opens an unlocked one, and for the rest of it only the ticks change the door. Only
      opening sets the time. */
  lemma AnswerSays(d: Door, ts: seq<nat>, cmd: string, at: nat, split: nat, from: nat, to: nat, v: Door)
    requires Answered(d, ts, cmd, at, split, from, to, v)
    ensures cmd == "lock" ==> v == Door(Locked, d.openTime)
    ensures cmd == "unlock" ==> v == Door(Unlocked, d.openTime)
    ensures cmd == "open_door" ==> v == if d.stat.Locked? then d else Door(Open, Wrap32(at))
    ensures cmd == "normal" && d.stat.Locked? ==> v == Door(Closed, d.openTime)
    ensures cmd == "normal" && d.stat.Unlocked? ==> v == Door(Open, Wrap32(at))
    ensures cmd == "normal" && !d.stat.Locked? && !d.stat.Unlocked? ==> v == Ticks(d, Wrapped(ts))
    ensures cmd !in {"lock", "unlock", "open_door", "normal"} ==> v == Ticks(d, Wrapped(ts))
  {
    TicksOnlyClose(d, Wrapped(ts));
    CommandSays(d, Ticks(d, Wrapped(ts)), cmd, Wrap32(at));
    hide Ticks, Wrapped, InOrder, Command, ClosedAtMost;
  }

  lemma CommandSays(d: Door, e: Door, cmd: string, t: U32)
    requires ClosedAtMost(d, e)
    ensures cmd == "lock" ==> Command(e, cmd, t) == Door(Locked, d.openTime)
    ensures cmd == "unlock" ==> Command(e, cmd, t) == Door(Unlocked, d.openTime)
    ensures cmd == "open_door" ==> Command(e, cmd, t) == if d.stat.Locked? then d else Door(Open, t)
    ensures cmd == "normal" && d.stat.Locked? ==> Command(e, cmd, t) == Door(Closed, d.openTime)
    ensures cmd == "normal" && d.stat.Unlocked? ==> Command(e, cmd, t) == Door(Open, t)
    ensures cmd == "normal" && !d.stat.Locked? && !d.stat.Unlocked? ==> Command(e, cmd, t) == e
    ensures cmd !in {"lock", "unlock", "open_door", "normal"} ==> Command(e, cmd, t) == e
  {
  }

  /** After a `lock` in any state, the door is locked through every run, exactly as long as
      neither `unlock` nor `normal` comes. */
  lemma LockedFromLockOn(d: Door, h: seq<Event>, at: nat, es: seq<Event>)
    ensures (forall i :: 0 <= i <= |es| ==> Run(d, h + [Message("lock", at)] + es[..i]).stat.Locked?)
       <==> (forall e :: e in es && e.Message? ==> e.cmd != "unlock" && e.cmd != "normal")
  {
    var locked := Run(d, h + [Message("lock", at)]);
    RunAppend(d, h, [Message("lock", at)]);
    RunOfOne(Run(d, h), Message("lock", at));
    assert locked.stat.Locked?;
    LockedStaysLocked(locked, es);
    forall i | 0 <= i <= |es|
      ensures Run(d, h + [Message("lock", at)] + es[..i]) == Run(locked, es[..i])
    {
      RunAppend(d, h + [Message("lock", at)], es[..i]);
    }
  }

  /** The history takes in a callback. */
  lemma HistoryGrows(h: seq<Event>, d: Door, ts: seq<nat>, cmd: string, at: nat, split: nat,
                     from: nat, to: nat, v: Door)
    requires d == Run(Door(Closed, 0), h) && (forall e :: e in h ==> e.at <= from)
    requires Answered(d, ts, cmd, at, split, from, to, v)
    ensures v == Run(Door(Closed, 0), h + TickEvents(ts) + [Message(cmd, at)])
    ensures forall e :: e in h + TickEvents(ts) + [Message(cmd, at)] ==> e.at <= to
  {
    var es := TickEvents(ts) + [Message(cmd, at)];
    assert h + TickEvents(ts) + [Message(cmd, at)] == h + es;
    hide Run, Ticks, Wrapped, Command;
    RunAppend(Door(Closed, 0), h, es);
    RunOfMessage(d, ts, cmd, at);
  }

  class DoorLock {
    var stat: DoorStatus
    var openTime: U32
    /** The clock as the firmware sees it. */
    var timeSinceStart: U32
    /** Real time, and when the timer has ticked so far. */
    ghost var now: nat
    ghost var ticks: seq<nat>
    /** Everything that has happened to the door, each callback as one event. */
    ghost var history: seq<Event>

    ghost function View(): Door
      reads this`stat, this`openTime
    {
      Door(stat, openTime)
    }

    /** Holds between two callbacks: the door is where a run of its history leads. */
    ghost predicate Valid()
      reads this
    {
      && timeSinceStart == Wrap32(now)
      && View() == Run(Door(Closed, 0), history)
      && forall e :: e in history ==> e.at <= now
    }

    /** The ticks since there were `n`. */
    ghost function Since(n: nat): seq<nat>
      requires n <= |ticks|
      reads this`ticks
    {
      ticks[n..]
    }

    constructor ()
      ensures Valid() && View() == Door(Closed, 0) && history == [] && ticks == []
    {
      stat, openTime, timeSinceStart := Closed, 0, 0;
      now, ticks, history := 0, [], [];
    }

    /** periodic_timeout */
    method PeriodicTimeout()
      modifies this`stat
      ensures View() == Tick(old(View()), timeSinceStart)
    {
      if stat == Open && Sub32(timeSinceStart, openTime) < OPEN_MS {
        return;
      }
      if stat == Locked {
        return;
      }
      if stat == Unlocked {
        return;
      }
      stat := Closed;
    }

    /** Whatever the clock and the timer interrupt do between two accesses to the door. */
    method Interrupts()
      requires timeSinceStart == Wrap32(now)
      modifies this`stat, this`timeSinceStart, this`now, this`ticks
      ensures timeSinceStart == Wrap32(now)
      ensures old(ticks) <= ticks && InOrder(Since(|old(ticks)|), old(now), now)
      ensures View() == Ticks(old(View()), Wrapped(Since(|old(ticks)|)))
    {
      var n: nat :| true;
      while n > 0
        invariant timeSinceStart == Wrap32(now)
        invariant old(ticks) <= ticks && InOrder(Since(|old(ticks)|), old(now), now)
        invariant View() == Ticks(old(View()), Wrapped(Since(|old(ticks)|)))
      {
        Elapse();
        ghost var ts := Since(|old(ticks)|);
        PeriodicTimeout();
        ticks := ticks + [now];
        assert Since(|old(ticks)|) == ts + [now];
        assert Wrapped(ts + [now])[..|ts|] == Wrapped(ts);
        n := n - 1;
      }
      Elapse();
    }

    /** Time passes. */
    method Elapse()
      requires timeSinceStart == Wrap32(now)
      modifies this`timeSinceStart, this`now
      ensures timeSinceStart == Wrap32(now) && old(now) <= now
    {
      var n: nat :| true;
      while n > 0
        invariant timeSinceStart == Wrap32(now) && old(now) <= now
      {
        timeSinceStart, now := Wrap32(timeSinceStart + 1), now + 1;
        n := n - 1;
      }
    }

    /** In a callback that began at `from`, when the timer had ticked `count` times, on the door
        `d`: so far only ticks have changed the door. */
    ghost predicate Underway(d: Door, from: nat, count: nat)
      reads this
    {
      && timeSinceStart == Wrap32(now) && count <= |ticks|
      && InOrder(Since(count), from, now) && View() == Ticks(d, Wrapped(Since(count)))
    }

    /** Interrupts between two steps of a callback. */
    method More(ghost d: Door, ghost from: nat, ghost count: nat)
      requires Underway(d, from, count)
      modifies this`stat, this`timeSinceStart, this`now, this`ticks
      ensures Underway(d, from, count) && old(ticks) <= ticks && old(now) <= now
      ensures ClosedAtMost(old(View()), View())
    {
      ghost var ts, mid, n := Since(count), now, |ticks|;
      Interrupts();
      assert Since(count) == ts + Since(n);
      InOrderAppend(ts, Since(n), from, mid, now);
      TicksAppend(d, Wrapped(ts), Wrapped(Since(n)));
      TicksOnlyClose(Ticks(d, Wrapped(ts)), Wrapped(Since(n)));
      hide Ticks, InOrder, Wrapped;
    }

    /** The reading of the clock and the two stores of a callback that opens the door, with ticks
        before, between and after them. */
    method OpenUp(ghost d: Door, ghost from: nat, ghost count: nat, ghost cmd: string)
      returns (ghost at: nat, ghost split: nat)
      requires Underway(d, from, count) && Opens(View(), cmd)
      modifies this`stat, this`openTime, this`timeSinceStart, this`now, this`ticks
      ensures timeSinceStart == Wrap32(now) && old(ticks) <= ticks
      ensures Answered(d, Since(count), cmd, at, split, from, now, View())
    {
      hide Ticks, Tick, InOrder, Wrapped, Command, Answered;
      ghost var n, ts := |ticks|, Since(count);
      split, at := n - count, now;
      var t := timeSinceStart;
      Interrupts();
      ghost var m, mid, us := |ticks|, now, Since(n);
      openTime := t;
      Interrupts();
      stat := Open;
      ghost var vs := Since(m);
      assert Since(n) == us + vs && Since(count) == ts + (us + vs);
      InOrderAppend(us, vs, at, mid, now);
      AnsweredInBetween(d, ts, us + vs, cmd, at, from, now);
    }

    /** The other branches of a callback. */
    method Obey(ghost d: Door, ghost from: nat, ghost count: nat, buf: string)
      returns (ghost at: nat, ghost split: nat)
      requires Underway(d, from, count) && !Opens(View(), buf)
      modifies this`stat, this`timeSinceStart, this`now, this`ticks
      ensures timeSinceStart == Wrap32(now) && old(ticks) <= ticks
      ensures Answered(d, Since(count), buf, at, split, from, now, View())
    {
      hide Ticks, InOrder, Wrapped, Answered;
      ghost var before;
      if buf == UNLOCK_DOOR_CMD {
        before := View();
        stat := Unlocked;
      } else {
        var resets := stat == Locked && buf == NORMAL_DOOR_STAT;
        More(d, from, count);
        before := View();
        if resets {
          stat := Closed;
        } else if buf == LOCK_DOOR_CMD {
          stat := Locked;
        }
      }
      at, split := now, |ticks| - count;
      assert View() == Command(before, buf, Wrap32(at));
      AnsweredLast(d, Since(count), buf, from, now);
    }

    /** mqtt_message_cb, for the text `buf`. */
    method Answer(buf: string) returns (ghost at: nat, ghost split: nat)
      requires timeSinceStart == Wrap32(now)
      modifies this`stat, this`openTime, this`timeSinceStart, this`now, this`ticks
      ensures timeSinceStart == Wrap32(now) && old(ticks) <= ticks
      ensures Answered(old(View()), Since(|old(ticks)|), buf, at, split, old(now), now, View())
    {
      ghost var d, from, count := View(), now, |ticks|;
      assert Underway(d, from, count) by { assert Since(count) == []; }
      hide Ticks, Wrapped, InOrder, Answered;
      More(d, from, count);
      var opens := stat != Locked && buf == OPEN_DOOR_CMD;
      if !opens {
        More(d, from, count);
        opens := stat == Unlocked && buf == NORMAL_DOOR_STAT;
      }
      More(d, from, count);
      if opens {
        at, split := OpenUp(d, from, count, buf);
      } else {
        at, split := Obey(d, from, count, buf);
      }
    }

    /** mqtt_message_cb. The door ends where it would be if the ticks of the timer during the
        callback had come first, and then the whole callback had been one step. */
    method MqttMessageCb(payload: string) returns (ghost at: nat, ghost split: nat)
      requires Valid()
      modifies this
      ensures Valid() && old(ticks) <= ticks
      ensures Answered(old(View()), Since(|old(ticks)|), Text(payload), at, split, old(now), now, View())
      ensures Text(payload) == "lock" ==> stat == Locked
      ensures Text(payload) == "unlock" ==> stat == Unlocked
      ensures Text(payload) == "open_door" ==>
                View() == if old(stat) == Locked then old(View()) else Door(Open, Wrap32(at))
      ensures Text(payload) == "normal" && old(stat) == Locked ==> stat == Closed
      ensures Text(payload) == "normal" && old(stat) == Unlocked ==> View() == Door(Open, Wrap32(at))
      ensures Text(payload) == "normal" && old(stat) != Locked && old(stat) != Unlocked ==>
                View() == Ticks(old(View()), Wrapped(Since(|old(ticks)|)))
      ensures Text(payload) !in {"lock", "unlock", "open_door", "normal"} ==>
                View() == Ticks(old(View()), Wrapped(Since(|old(ticks)|)))
      ensures history == old(history) + TickEvents(Since(|old(ticks)|)) + [Message(Text(payload), at)]
    {
      var len := |payload|;
      if len > MQTT_MAX_PACKET_SZ {
        len := MQTT_MAX_PACKET_SZ;
      }
      var buf := UpToNul(payload[..len]);
      assert buf == Text(payload) by { assert payload[..|payload|] == payload; }
      hide Run, Ticks, Wrapped, TickEvents, Text, UpToNul, Command;
      at, split := Answer(buf);
      ghost var ts := Since(|old(ticks)|);
      AnswerSays(old(View()), ts, buf, at, split, old(now), now, View());
      HistoryGrows(old(history), old(View()), ts, buf, at, split, old(now), now, View());
      history := history + TickEvents(ts) + [Message(buf, at)];
    }

    /** The time between two callbacks. */
    method Idle()
      requires Valid()
      modifies this`stat, this`timeSinceStart, this`now, this`ticks, this`history
      ensures Valid() && old(ticks) <= ticks && InOrder(Since(|old(ticks)|), old(now), now)
      ensures history == old(history) + TickEvents(Since(|old(ticks)|))
      ensures View() == Run(old(View()), TickEvents(Since(|old(ticks)|)))
    {
      Interrupts();
      ghost var ts := Since(|old(ticks)|);
      history := history + TickEvents(ts);
      RunAppend(Door(Closed, 0), old(history), TickEvents(ts));
      RunOfTicks(old(View()), ts);
    }

    /** A message that opens the door, and the time after it: the door is open until 30 seconds
        after the callback read the clock. If the timer then goes on ticking every `p`
        milliseconds, the door is closed once 30 seconds and `p` have passed. */
    method OpenThenIdle(payload: string, ghost p: nat) returns (ghost at: nat, ghost answered: nat, ghost count: nat)
      requires Valid()
      modifies this
      ensures Valid() && old(now) <= at <= answered <= now && |old(ticks)| <= count <= |ticks|
      ensures Text(payload) == OPEN_DOOR_CMD && !old(View()).stat.Locked? && now < at + OPEN_MS ==>
                View() == Door(Open, Wrap32(at))
      ensures (Text(payload) == OPEN_DOOR_CMD && !old(View()).stat.Locked? && answered < at + OPEN_MS
               && OPEN_MS + p < TWO_32 && at + OPEN_MS + p <= now
               && TicksEvery(TickEvents(Since(count)), p, answered, now)) ==> View().stat.Closed?
    {
      hide Answered, Run, TickEvents, TicksEvery, Text, Wrapped;
      ghost var split;
      at, split := MqttMessageCb(payload);
      AnswerOpens(old(View()), Since(|old(ticks)|), Text(payload), at, split, old(now), now, View());
      answered, count := now, |ticks|;
      Idle();
      OpenThroughTicks(at, answered, now, Since(count), p);
    }
  }
}
