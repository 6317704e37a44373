/**
 How far apart a receive may look at the wrapping clock. Beyond the bounds that the receive
 driver's timing claims ask for, there are schedules of looks under which it misses its timeout.
 */
module SerialTiming {
  import opened Words

  /** Successive looks at the clock, never more than `gap` apart. */
  predicate LooksWithin(looks: seq<nat>, gap: nat) {
    forall i :: 0 < i < |looks| ==> looks[i - 1] <= looks[i] <= looks[i - 1] + gap
  }

  // ---- The wait of UartGetData ----

  /** Look number `i` of a wait that began at time 0 and looks only early in each lap of the
      clock. */
  function EarlyLook(i: nat, timeoutMs: U32): (t: nat)
    requires timeoutMs > 0
    ensures Wrap32(t) < timeoutMs
  {
    if i == 0 then 0
    else
      var t := EarlyLook(i - 1, timeoutMs);
      if Wrap32(t) == timeoutMs - 1 then t + (TWO_32 - (timeoutMs - 1)) else t + 1
  }

  /** A wait of `timeoutMs` that looks at the clock at `looks[0]` and then again and again has
      not noticed the timeout. */
  predicate Unnoticed(looks: seq<nat>, timeoutMs: U32) {
    looks != [] && forall i :: 0 < i < |looks| ==> Sub32(Wrap32(looks[i]), Wrap32(looks[0])) < timeoutMs
  }

  /** A wait that looked at the clock at `looks`; it has noticed its timeout if `timedOut`, and
      then with its last look. */
  predicate Waited(looks: seq<nat>, gap: nat, timeoutMs: U32, timedOut: bool) {
    && LooksWithin(looks, gap)
    && if timedOut then
         && |looks| > 1 && Unnoticed(looks[..|looks| - 1], timeoutMs)
         && Sub32(Wrap32(looks[|looks| - 1]), Wrap32(looks[0])) >= timeoutMs
       else Unnoticed(looks, timeoutMs)
  }

  lemma WaitedOnce(looks: seq<nat>, gap: nat, timeoutMs: U32)
    requires |looks| == 1
    ensures Waited(looks, gap, timeoutMs, false)
  {
  }

  lemma WaitedOn(looks: seq<nat>, t: nat, gap: nat, timeoutMs: U32)
    requires looks != [] && Waited(looks, gap, timeoutMs, false)
    requires looks[|looks| - 1] <= t <= looks[|looks| - 1] + gap
    ensures Waited(looks + [t], gap, timeoutMs, Sub32(Wrap32(t), Wrap32(looks[0])) >= timeoutMs)
  {
    hide Sub32, Wrap32;
    assert (looks + [t])[..|looks|] == looks;
  }

  /** A wait can go on for `t` milliseconds without noticing the timeout. */
  ghost predicate MayWait(gap: nat, timeoutMs: U32, t: nat) {
    exists looks :: LooksWithin(looks, gap) && Unnoticed(looks, timeoutMs) && looks[|looks| - 1] - looks[0] >= t
  }

  /** With looks at most `gap` apart, a wait to which no byte comes notices its timeout if and
      only if `gap + timeoutMs` is at most 2^32. Otherwise it can go on for any time. */
  lemma WaitEndsExactlyIf(gap: nat, timeoutMs: U32)
    requires gap > 0 && timeoutMs > 0
    ensures gap + timeoutMs <= TWO_32 ==> forall t: nat :: MayWait(gap, timeoutMs, t) ==> t < timeoutMs
    ensures gap + timeoutMs > TWO_32 ==> forall t: nat :: MayWait(gap, timeoutMs, t)
  {
    if gap + timeoutMs <= TWO_32 {
      forall t: nat | MayWait(gap, timeoutMs, t)
        ensures t < timeoutMs
      {
        var looks :| LooksWithin(looks, gap) && Unnoticed(looks, timeoutMs) && looks[|looks| - 1] - looks[0] >= t;
        NoticedInTime(looks, gap, timeoutMs);
      }
    } else {
      forall t: nat
        ensures MayWait(gap, timeoutMs, t)
      {
        EarlyLooks(gap, timeoutMs, t);
      }
    }
  }

  lemma {:induction false} NoticedInTime(looks: seq<nat>, gap: nat, timeoutMs: U32)
    requires LooksWithin(looks, gap) && Unnoticed(looks, timeoutMs) && 0 < timeoutMs && gap + timeoutMs <= TWO_32
    ensures 0 <= looks[|looks| - 1] - looks[0] < timeoutMs
  {
    if |looks| == 1 {
      Elapsed(looks[0], looks[0]);
    } else {
      var front, last := looks[..|looks| - 1], looks[|looks| - 1];
      NoticedInTime(front, gap, timeoutMs);
      Elapsed(looks[0], last);
    }
  }

  lemma EarlyLooks(gap: nat, timeoutMs: U32, t: nat)
    requires timeoutMs > 0 && gap > 0 && gap + timeoutMs > TWO_32
    ensures MayWait(gap, timeoutMs, t)
  {
    var looks := EarlyLooksTo(t, gap, timeoutMs);
    assert LooksWithin(looks, gap) && Unnoticed(looks, timeoutMs);
  }

  lemma EarlyLookStep(i: nat, gap: nat, timeoutMs: U32)
    requires i > 0 && timeoutMs > 0 && gap > 0 && gap + timeoutMs > TWO_32
    ensures EarlyLook(i - 1, timeoutMs) < EarlyLook(i, timeoutMs) <= EarlyLook(i - 1, timeoutMs) + gap
    ensures Sub32(Wrap32(EarlyLook(i, timeoutMs)), Wrap32(0)) < timeoutMs
  {
  }

  /** The first `n + 1` early looks. */
  lemma {:induction false} EarlyLooksTo(n: nat, gap: nat, timeoutMs: U32) returns (looks: seq<nat>)
    requires timeoutMs > 0 && gap > 0 && gap + timeoutMs > TWO_32
    ensures looks != [] && looks[0] == 0 && looks[|looks| - 1] == EarlyLook(n, timeoutMs) >= n
    ensures LooksWithin(looks, gap) && Unnoticed(looks, timeoutMs)
  {
    if n == 0 {
      looks := [0];
    } else {
      var front := EarlyLooksTo(n - 1, gap, timeoutMs);
      EarlyLookStep(n, gap, timeoutMs);
      hide EarlyLook, Wrap32;
      looks := front + [EarlyLook(n, timeoutMs)];
    }
  }

  // ---- The loop of SerialRecv ----

  /** The looks of one turn of a receive that began at `start`: at the head of the loop, where the
      timeout had not been noticed, and then in the wait for a byte, which came in time unless
      `timedOut`. */
  predicate TurnOf(start: nat, head: nat, wait: seq<nat>, gap: nat, timeoutMs: U32, timedOut: bool) {
    && start <= head && Sub32(Wrap32(head), Wrap32(start)) < timeoutMs
    && wait != [] && head <= wait[0] <= head + gap
    && Waited(wait, gap, timeoutMs - Sub32(Wrap32(head), Wrap32(start)), timedOut)
  }

  lemma TurnMade(start: nat, head: nat, wait: seq<nat>, gap: nat, timeoutMs: U32, timedOut: bool)
    requires start <= head && Sub32(Wrap32(head), Wrap32(start)) < timeoutMs
    requires wait != [] && head <= wait[0] <= head + gap
    requires Waited(wait, gap, timeoutMs - Sub32(Wrap32(head), Wrap32(start)), timedOut)
    ensures TurnOf(start, head, wait, gap, timeoutMs, timedOut)
  {
  }

  /** Turns that begin before the timeout has really passed and end with a byte, and the look at
      the head of the next turn. */
  predicate TurnAndNext(start: nat, head: nat, wait: seq<nat>, next: nat, gap: nat, timeoutMs: U32) {
    && TurnOf(start, head, wait, gap, timeoutMs, false) && head - start < timeoutMs
    && wait[|wait| - 1] <= next <= wait[|wait| - 1] + gap
  }

  /** The head of the next turn may be a lap late and take the interval for a short one. */
  ghost predicate MayWrap(gap: nat, timeoutMs: U32) {
    exists start: nat, head: nat, wait: seq<nat>, next: nat ::
      && TurnAndNext(start, head, wait, next, gap, timeoutMs)
      && next - start >= TWO_32 && Sub32(Wrap32(next), Wrap32(start)) < timeoutMs
  }

  /** The head of the next turn reads the real interval, however the looks fall, if and only if
      twice `gap` plus the timeout is at most 2^32; otherwise it may start a turn after the
      timeout has long passed. */
  lemma IntervalIsRealExactlyIf(gap: nat, timeoutMs: U32)
    requires gap > 0 && timeoutMs > 0
    ensures 2 * gap + timeoutMs <= TWO_32 ==> forall start: nat, head: nat, wait: seq<nat>, next: nat ::
              TurnAndNext(start, head, wait, next, gap, timeoutMs) ==>
                Sub32(Wrap32(next), Wrap32(start)) == next - start < 2 * gap + timeoutMs
    ensures 2 * gap + timeoutMs > TWO_32 ==> MayWrap(gap, timeoutMs)
  {
    if 2 * gap + timeoutMs <= TWO_32 {
      forall start: nat, head: nat, wait: seq<nat>, next: nat | TurnAndNext(start, head, wait, next, gap, timeoutMs)
        ensures Sub32(Wrap32(next), Wrap32(start)) == next - start < 2 * gap + timeoutMs
      {
        TurnIsShort(start, head, wait, next, gap, timeoutMs);
        Elapsed(start, next);
      }
    } else if gap + timeoutMs <= TWO_32 {
      TurnThatWraps(gap, timeoutMs);
    } else {
      WaitThatWraps(gap, timeoutMs);
    }
  }

  lemma WaitThatWraps(gap: nat, timeoutMs: U32)
    requires gap > 0 && timeoutMs > 0 && gap + timeoutMs > TWO_32
    ensures MayWrap(gap, timeoutMs)
  {
    var wait := EarlyLooksTo(TWO_32, gap, timeoutMs);
    assert TurnAndNext(0, 0, wait, wait[|wait| - 1], gap, timeoutMs);
  }

  lemma TurnIsShort(start: nat, head: nat, wait: seq<nat>, next: nat, gap: nat, timeoutMs: U32)
    requires TurnAndNext(start, head, wait, next, gap, timeoutMs) && gap + timeoutMs <= TWO_32
    ensures start <= next < start + 2 * gap + timeoutMs
  {
    Elapsed(start, head);
    hide Wrap32, LooksWithin, Unnoticed;
    NoticedInTime(wait, gap, timeoutMs - (head - start));
  }

  lemma TurnThatWraps(gap: nat, timeoutMs: U32)
    requires gap > 0 && timeoutMs > 0 && gap + timeoutMs <= TWO_32 < 2 * gap + timeoutMs
    ensures MayWrap(gap, timeoutMs)
  {
    var wait: seq<nat> := seq(timeoutMs, i requires 0 <= i => gap + i);
    forall i | 0 <= i < |wait| ensures Sub32(Wrap32(wait[i]), Wrap32(wait[0])) < timeoutMs {
      Elapsed(wait[0], wait[i]);
    }
    assert TurnAndNext(0, 0, wait, TWO_32, gap, timeoutMs);
  }
}
