/**
 The ring of discovered Bluetooth devices and the table of reported ones, which together keep
 the door from reporting a device again too soon. Both are checked against the full log of
 reports. Clock readings are 32-bit milliseconds and wrap; the log has real times.
 */
module DeviceReports {
  import opened Words
  import opened MacText

  const BT_LST_SIZE: nat := 5
  const SENT_LST_SIZE: nat := 32
  const BT_DEVICE_LIFETIME: nat := 34000

  datatype BtDevice = BtDevice(timestamp: U32, addr: Address)

  /** A report: the device, when it was discovered, when it was published, and as what. */
  datatype Report = Report(addr: Address, found: nat, at: nat, text: string)

  const NO_ADDR: Address := [0, 0, 0, 0, 0, 0]
  const EMPTY: BtDevice := BtDevice(0, NO_ADDR)

  /** is_available at clock reading `t` */
  predicate Available(d: BtDevice, addr: Address, t: U32) {
    d.addr != addr || Sub32(t, d.timestamp) >= BT_DEVICE_LIFETIME
  }

  /** `addr[0] & (SENT_LST_SIZE - 1)` */
  function Slot(addr: Address): (s: nat)
    ensures s < SENT_LST_SIZE && (addr[0] - s) % 32 == 0
  {
    addr[0] % 32
  }

  // ---- The log ----

  /** The index of the latest report that belongs in slot `s`, or -1. */
  function LatestIndex(log: seq<Report>, s: nat): (p: int)
    ensures -1 <= p < |log|
    ensures p >= 0 ==> Slot(log[p].addr) == s
    ensures forall q :: p < q < |log| ==> Slot(log[q].addr) != s
  {
    if log == [] then -1
    else if Slot(log[|log| - 1].addr) == s then |log| - 1
    else LatestIndex(log[..|log| - 1], s)
  }

  /** What slot `s` of the table should hold. */
  function Latest(log: seq<Report>, s: nat): BtDevice {
    var p := LatestIndex(log, s);
    if p < 0 then EMPTY else BtDevice(Wrap32(log[p].found), log[p].addr)
  }

  /** Report `q` comes long enough after the previous one in its slot, if that has the same
      address. */
  predicate Spaced(log: seq<Report>, q: nat)
    requires q < |log|
  {
    var p := LatestIndex(log[..q], Slot(log[q].addr));
    p >= 0 && log[p].addr == log[q].addr ==> log[q].at - log[p].found >= BT_DEVICE_LIFETIME
  }

  ghost predicate GoodLog(log: seq<Report>, now: nat) {
    && (forall q :: 0 <= q < |log| ==> Spaced(log, q))
    && (forall q :: 0 <= q < |log| ==> log[q].found <= log[q].at <= now && log[q].text == FormatMac(log[q].addr))
    && (forall p, q :: 0 <= p < q < |log| ==> log[p].at <= log[q].at)
  }

  /** Duplicates are suppressed over the whole log: two reports of one address, with no other
      address of the same slot reported between them, are at least 34 seconds apart, counted
      from the discovery of the first. */
  lemma {:induction false} NoEarlyDuplicate(log: seq<Report>, now: nat, p: nat, q: nat)
    requires GoodLog(log, now) && p < q < |log| && log[p].addr == log[q].addr
    requires forall k :: p < k < q && Slot(log[k].addr) == Slot(log[q].addr) ==> log[k].addr == log[q].addr
    ensures log[q].at - log[p].found >= 34000
  {
    var l := LatestIndex(log[..q], Slot(log[q].addr));
    assert log[..q][p] == log[p];
    assert Spaced(log, q);
    if l != p {
      NoEarlyDuplicate(log, now, p, l);
    }
  }

  lemma GoodLogGrows(log: seq<Report>, now: nat, r: Report, now': nat)
    requires GoodLog(log, now) && now <= r.at <= now' && r.found <= r.at && r.text == FormatMac(r.addr)
    requires Spaced(log + [r], |log|)
    ensures GoodLog(log + [r], now')
  {
    forall q | 0 <= q < |log|
      ensures Spaced(log + [r], q)
    {
      assert (log + [r])[..q] == log[..q];
      assert Spaced(log, q);
    }
  }

  // ---- The table ----

  /** The table is the log, seen through its 32 slots. */
  ghost predicate Mirrors(sent: seq<BtDevice>, log: seq<Report>) {
    && |sent| == SENT_LST_SIZE
    && forall s :: 0 <= s < SENT_LST_SIZE ==> sent[s] == Latest(log, s)
  }

  lemma MirrorGrows(sent: seq<BtDevice>, log: seq<Report>, r: Report)
    requires Mirrors(sent, log)
    ensures Mirrors(sent[Slot(r.addr) := BtDevice(Wrap32(r.found), r.addr)], log + [r])
  {
  }

  lemma AvailableLater(found: nat, known: Address, addr: Address, now: nat)
    requires found <= now
    ensures Available(BtDevice(Wrap32(found), known), addr, Wrap32(now)) <==>
            known != addr || Wrap32(now - found) >= BT_DEVICE_LIFETIME
  {
    ElapsedAcrossWrap(found, now);
  }

  /** The table withholds an address exactly when the log justifies it: the latest report of
      its slot is of that address and, on the wrapping clock, its discovery is less than 34
      seconds ago. The empty slot 0 also withholds the zero address in the first 34 seconds
      of each lap of the clock. */
  lemma WithheldExactlyIf(sent: seq<BtDevice>, log: seq<Report>, now: nat, addr: Address)
    requires Mirrors(sent, log) && GoodLog(log, now)
    ensures !Available(sent[Slot(addr)], addr, Wrap32(now)) <==>
            var p := LatestIndex(log, Slot(addr));
            if p >= 0 then log[p].addr == addr && Wrap32(now - log[p].found) < BT_DEVICE_LIFETIME
            else addr == NO_ADDR && Wrap32(now) < BT_DEVICE_LIFETIME
  {
    hide Available, Wrap32;
    var p := LatestIndex(log, Slot(addr));
    if p >= 0 {
      AvailableLater(log[p].found, log[p].addr, addr, now);
    } else {
      EmptyIsFound0();
      AvailableLater(0, NO_ADDR, addr, now);
    }
  }

  lemma EmptyIsFound0()
    ensures EMPTY == BtDevice(Wrap32(0), NO_ADDR)
  {
  }

  /** In a run of less than 2^32 milliseconds, a real address is withheld only if it really
      was published and discovered less than 34 seconds ago. */
  lemma WithheldForAReason(sent: seq<BtDevice>, log: seq<Report>, now: nat, addr: Address)
    requires Mirrors(sent, log) && GoodLog(log, now) && now < TWO_32 && addr != NO_ADDR
    requires !Available(sent[Slot(addr)], addr, Wrap32(now))
    ensures exists p :: 0 <= p < |log| && log[p].addr == addr && now - log[p].found < BT_DEVICE_LIFETIME
  {
    hide Available;
    WithheldExactlyIf(sent, log, now, addr);
    var p := LatestIndex(log, Slot(addr));
    assert Wrap32(now - log[p].found) == now - log[p].found;
  }

  /** The log withholds the address at time `t`: the latest report of its slot is of that address
      and its discovery is, on the wrapping clock, less than 34 seconds ago. An empty slot looks
      like a report of the zero address at time 0. */
  predicate Withheld(log: seq<Report>, addr: Address, t: nat) {
    var p := LatestIndex(log, Slot(addr));
    if p >= 0 then log[p].addr == addr && Wrap32(t - log[p].found) < 34000
    else addr == NO_ADDR && Wrap32(t) < 34000
  }

  lemma WithheldByTable(sent: seq<BtDevice>, log: seq<Report>, now: nat, addr: Address)
    requires Mirrors(sent, log) && GoodLog(log, now)
    ensures !Available(sent[Slot(addr)], addr, Wrap32(now)) <==> Withheld(log, addr, now)
  {
    WithheldExactlyIf(sent, log, now, addr);
    hide Available, Wrap32, LatestIndex;
  }

  /** A device is due when a pass looks at it at time `t`: it has been discovered, does not use
      slot `last` of the publication before it, and is not withheld by the log of that moment. */
  predicate Due(d: BtDevice, last: int, log: seq<Report>, t: nat) {
    d.timestamp != 0 && Slot(d.addr) != last && !Withheld(log, d.addr, t)
  }

  /** In a run of less than 2^32 milliseconds, a pass leaves a dated device with a real address
      only for its slot, or because it was published and discovered less than 34 seconds ago. */
  lemma LeftForAReason(d: BtDevice, last: int, log: seq<Report>, t: nat)
    requires !Due(d, last, log, t) && GoodLog(log, t) && t < TWO_32
    requires d.timestamp != 0 && d.addr != NO_ADDR && Slot(d.addr) != last
    ensures exists p :: 0 <= p < |log| && log[p].addr == d.addr && log[p].at <= t && t - log[p].found < 34000
  {
    var p := LatestIndex(log, Slot(d.addr));
    Small(t - log[p].found);
    assert log[p].addr == d.addr && log[p].at <= t;
    hide Wrap32;
  }

  // ---- The ring ----

  /** The real discovery times of the entries agree with their timestamps, and two entries
      with one address were discovered at least 34 seconds apart. */
  ghost predicate GoodRing(ring: seq<BtDevice>, found: seq<nat>, now: nat) {
    && |ring| == |found| == BT_LST_SIZE
    && (forall j :: 0 <= j < BT_LST_SIZE ==> ring[j].timestamp == Wrap32(found[j]) && found[j] <= now)
    && (forall j, k :: 0 <= j < k < BT_LST_SIZE && ring[j].addr == ring[k].addr != NO_ADDR ==>
          found[j] + BT_DEVICE_LIFETIME <= found[k] || found[k] + BT_DEVICE_LIFETIME <= found[j])
  }

  lemma StoredDeviceFits(ring: seq<BtDevice>, found: seq<nat>, checked: nat, now: nat, idx: nat, address: Address)
    requires GoodRing(ring, found, checked) && checked <= now && idx < BT_LST_SIZE
    requires forall j :: 0 <= j < BT_LST_SIZE && ring[j].addr == address ==> checked - found[j] >= BT_DEVICE_LIFETIME
    ensures |ring| == |found| == BT_LST_SIZE
    ensures GoodRing(ring[idx := BtDevice(Wrap32(now), address)], found[idx := now], now)
  {
  }

  lemma RingDate(ring: seq<BtDevice>, found: seq<nat>, now: nat, k: nat)
    requires GoodRing(ring, found, now) && k < BT_LST_SIZE
    ensures |ring| == |found| == BT_LST_SIZE && ring[k].timestamp == Wrap32(found[k]) && found[k] <= now
  {
  }

  lemma LogKeeps(log: seq<Report>, now: nat, later: nat)
    requires GoodLog(log, now) && now <= later
    ensures GoodLog(log, later)
  {
  }

  /** Publishing an available device keeps the log free of early duplicates. */
  lemma PublishFits(ring: seq<BtDevice>, sent: seq<BtDevice>, log: seq<Report>, found: seq<nat>,
                    checked: nat, now: nat, k: nat)
    requires GoodRing(ring, found, checked) && Mirrors(sent, log) && GoodLog(log, checked)
    requires checked <= now && k < BT_LST_SIZE && |ring| == |found| == BT_LST_SIZE
    requires Available(sent[Slot(ring[k].addr)], ring[k].addr, Wrap32(checked))
    ensures var r := Report(ring[k].addr, found[k], now, FormatMac(ring[k].addr));
      && GoodRing(ring[k := EMPTY], found[k := 0], now)
      && Mirrors(sent[Slot(ring[k].addr) := ring[k]], log + [r])
      && GoodLog(log + [r], now)
  {
    hide GoodRing, GoodLog, Mirrors, Available, FormatMac;
    RingEmptied(ring, found, checked, now, k);
    var r := Report(ring[k].addr, found[k], now, FormatMac(ring[k].addr));
    MirrorGrows(sent, log, r);
    LogPublished(sent, log, checked, r);
  }

  lemma RingEmptied(ring: seq<BtDevice>, found: seq<nat>, checked: nat, now: nat, k: nat)
    requires GoodRing(ring, found, checked) && checked <= now && k < BT_LST_SIZE
    ensures |ring| == |found| == BT_LST_SIZE && ring[k].timestamp == Wrap32(found[k]) && found[k] <= checked
    ensures ring[k] == BtDevice(Wrap32(found[k]), ring[k].addr)
    ensures GoodRing(ring[k := EMPTY], found[k := 0], now)
  {
    assert Wrap32(0) == 0;
    hide Wrap32;
  }

  /** A report of an available device keeps the log free of early duplicates. */
  lemma LogPublished(sent: seq<BtDevice>, log: seq<Report>, checked: nat, r: Report)
    requires Mirrors(sent, log) && GoodLog(log, checked) && r.found <= checked <= r.at && r.text == FormatMac(r.addr)
    requires Available(sent[Slot(r.addr)], r.addr, Wrap32(checked))
    ensures GoodLog(log + [r], r.at)
  {
    hide Wrap32, FormatMac, Slot;
    var p := LatestIndex(log, Slot(r.addr));
    assert (log + [r])[..|log|] == log;
    if p >= 0 {
      AvailableLater(log[p].found, log[p].addr, r.addr, checked);
      Small(checked - log[p].found);
    }
    hide Available, Mirrors, LatestIndex;
    GoodLogGrows(log, checked, r, r.at);
  }

  // ---- One reporting pass ----

  /** A pass so far: the ring, the table, the last slot used, and the entries published. */
  datatype PassState = PassState(ring: seq<BtDevice>, sent: seq<BtDevice>, last: int, published: seq<nat>)

  function PassStep(st: PassState, i: nat, t: U32): PassState
    requires i < |st.ring| && |st.sent| == SENT_LST_SIZE
  {
    var cur := st.ring[i];
    var s := Slot(cur.addr);
    if s != st.last && cur.timestamp != 0 && Available(st.sent[s], cur.addr, t)
    then PassState(st.ring[i := EMPTY], st.sent[s := cur], s, st.published + [i])
    else st
  }

  /** The pass over the first `|times|` entries, with the clock readings it had. */
  function Pass(ring: seq<BtDevice>, sent: seq<BtDevice>, times: seq<U32>): (st: PassState)
    requires |times| <= |ring| && |sent| == SENT_LST_SIZE
    ensures |st.ring| == |ring| && |st.sent| == SENT_LST_SIZE
  {
    if times == [] then PassState(ring, sent, -1, [])
    else PassStep(Pass(ring, sent, times[..|times| - 1]), |times| - 1, times[|times| - 1])
  }

  /** A pass conserves devices: every entry is either untouched and unpublished, or emptied
      and published once, in index order. */
  lemma {:induction false} PassConserves(ring: seq<BtDevice>, sent: seq<BtDevice>, times: seq<U32>)
    requires |times| <= |ring| && |sent| == SENT_LST_SIZE
    ensures var st := Pass(ring, sent, times);
      && (forall j :: 0 <= j < |st.published| ==> 0 <= st.published[j] < |times|)
      && (forall j, k :: 0 <= j < k < |st.published| ==> st.published[j] < st.published[k])
      && (forall j :: 0 <= j < |ring| ==> st.ring[j] == if j in st.published then EMPTY else ring[j])
  {
    if times != [] {
      var n := |times| - 1;
      PassConserves(ring, sent, times[..n]);
      assert n !in Pass(ring, sent, times[..n]).published;
    }
  }

  /** Successive reports of a pass use different slots. */
  lemma {:induction false} PassAlternates(ring: seq<BtDevice>, sent: seq<BtDevice>, times: seq<U32>)
    requires |times| <= |ring| && |sent| == SENT_LST_SIZE
    ensures var st := Pass(ring, sent, times);
      && (forall j :: 0 <= j < |st.published| ==> 0 <= st.published[j] < |times|)
      && (st.last == if st.published == [] then -1 else Slot(ring[st.published[|st.published| - 1]].addr))
      && (forall j :: 0 < j < |st.published| ==>
            Slot(ring[st.published[j - 1]].addr) != Slot(ring[st.published[j]].addr))
  {
    if times != [] {
      var n := |times| - 1;
      PassAlternates(ring, sent, times[..n]);
      PassConserves(ring, sent, times[..n]);
    }
  }

  /** The last of the published devices that belongs in slot `s`, or what the table had. */
  function LastPublished(ring: seq<BtDevice>, sent: seq<BtDevice>, published: seq<nat>, s: nat): BtDevice
    requires s < |sent| && forall j :: 0 <= j < |published| ==> published[j] < |ring|
  {
    if published == [] then sent[s]
    else
      var d := ring[published[|published| - 1]];
      if Slot(d.addr) == s then d else LastPublished(ring, sent, published[..|published| - 1], s)
  }

  /** After a pass, a slot holds the last device published from it; the others are as before. */
  lemma {:induction false} PassFillsTable(ring: seq<BtDevice>, sent: seq<BtDevice>, times: seq<U32>)
    requires |times| <= |ring| && |sent| == SENT_LST_SIZE
    ensures var st := Pass(ring, sent, times);
      && (forall j :: 0 <= j < |st.published| ==> st.published[j] < |ring|)
      && (forall s :: 0 <= s < SENT_LST_SIZE ==> st.sent[s] == LastPublished(ring, sent, st.published, s))
  {
    if times != [] {
      var n := |times| - 1;
      PassFillsTable(ring, sent, times[..n]);
      PassConserves(ring, sent, times[..n]);
      var st, st' := Pass(ring, sent, times[..n]), Pass(ring, sent, times);
      if st' != st {
        assert st'.published[..|st.published|] == st.published;
      }
    }
  }

  /** The reports that a pass appends to the log: one for each entry it published. */
  ghost predicate Logged(ring: seq<BtDevice>, found: seq<nat>, published: seq<nat>, reports: seq<Report>)
    requires |ring| == |found|
  {
    && |reports| == |published|
    && forall j :: 0 <= j < |published| ==>
         && published[j] < |ring|
         && reports[j].addr == ring[published[j]].addr && reports[j].found == found[published[j]]
         && reports[j].text == FormatMac(reports[j].addr)
  }

  lemma LoggedNothing(ring: seq<BtDevice>, found: seq<nat>)
    requires |ring| == |found|
    ensures Logged(ring, found, [], [])
  {
  }

  lemma LoggedGrows(ring: seq<BtDevice>, found: seq<nat>, published: seq<nat>, reports: seq<Report>,
                    ring1: seq<BtDevice>, found1: seq<nat>, k: nat, r: Report)
    requires |ring| == |found| == |ring1| == |found1| && k < |ring| && ring1[k] == ring[k] && found1[k] == found[k]
    requires Logged(ring, found, published, reports) && Logged(ring1, found1, [k], [r])
    ensures Logged(ring, found, published + [k], reports + [r])
  {
  }

  /** What a turn does to the ring, the table and the last slot does not depend on what was
      published before, and it leaves the other entries alone. */
  lemma PassTurn(st: PassState, k: nat)
    requires k < |st.ring| && |st.sent| == SENT_LST_SIZE
    ensures forall t :: var one := PassStep(st.(published := []), k, t);
      && PassStep(st, k, t) == one.(published := st.published + one.published)
      && |one.ring| == |st.ring|
      && forall j :: 0 <= j < |st.ring| && j != k ==> one.ring[j] == st.ring[j]
  {
  }

  /** The entries published so far, after a turn for entry `k`. */
  function With(published: seq<nat>, k: nat, sent: bool): seq<nat> {
    if sent then published + [k] else published
  }

  /** The published entries in front of entry `k`, of entries published in index order. */
  function Earlier(published: seq<nat>, k: nat): (e: seq<nat>)
    ensures e <= published && (e != [] ==> e[|e| - 1] < k)
    ensures |e| < |published| ==> published[|e|] >= k
  {
    if published == [] || published[|published| - 1] < k then published
    else Earlier(published[..|published| - 1], k)
  }

  /** The slot of the last of these entries, if any. */
  function LastSlot(ring: seq<BtDevice>, e: seq<nat>): int
    requires forall j :: 0 <= j < |e| ==> e[j] < |ring|
  {
    if e == [] then -1 else Slot(ring[e[|e| - 1]].addr)
  }

  /** Entry `k` was published by a pass if and only if it was due when the pass looked at it at
      time `t`. The pass began with `n` reports; `log` is the log after it. */
  ghost predicate Ruled(ring: seq<BtDevice>, published: seq<nat>, n: nat, log: seq<Report>, k: nat, t: nat)
    requires k < |ring| && forall j :: 0 <= j < |published| ==> published[j] < |ring|
  {
    var e := Earlier(published, k);
    && n + |e| <= |log| && GoodLog(log[..n + |e|], t)
    && (k in published <==> Due(ring[k], LastSlot(ring, e), log[..n + |e|], t))
  }

  ghost predicate AllRuled(ring: seq<BtDevice>, times: seq<nat>, published: seq<nat>, n: nat, log: seq<Report>) {
    && |times| <= |ring| && (forall j :: 0 <= j < |published| ==> published[j] < |ring|)
    && forall k :: 0 <= k < |times| ==> Ruled(ring, published, n, log, k, times[k])
  }

  lemma RuledStill(ring: seq<BtDevice>, published: seq<nat>, n: nat, log: seq<Report>, k: nat, t: nat,
                   i: nat, done: bool, later: seq<Report>)
    requires k < i < |ring| && (forall j :: 0 <= j < |published| ==> published[j] < |ring|)
    requires Ruled(ring, published, n, log, k, t) && log <= later
    ensures Ruled(ring, With(published, i, done), n, later, k, t)
  {
    assert (published + [i])[..|published|] == published;
    assert Earlier(With(published, i, done), k) == Earlier(published, k);
    hide Due, GoodLog, Earlier;
    var m := n + |Earlier(published, k)|;
    assert later[..m] == log[..m];
  }

  lemma RuledNow(ring: seq<BtDevice>, published: seq<nat>, n: nat, log: seq<Report>, t: nat, i: nat, done: bool,
                 later: seq<Report>)
    requires i < |ring| && (forall j :: 0 <= j < |published| ==> published[j] < i) && |log| == n + |published|
    requires GoodLog(log, t) && log <= later && (done <==> Due(ring[i], LastSlot(ring, published), log, t))
    ensures Ruled(ring, With(published, i, done), n, later, i, t)
  {
    assert (published + [i])[..|published|] == published;
    assert Earlier(With(published, i, done), i) == published;
    hide Due, GoodLog, Earlier;
    assert later[..|log|] == log;
    assert i !in published;
  }

  /** One more entry is looked at. */
  lemma TurnDone(ring: seq<BtDevice>, sent: seq<BtDevice>, times: seq<nat>, published: seq<nat>, n: nat,
                 log: seq<Report>, t: nat, done: bool, later: seq<Report>, last: int)
    requires |times| < |ring| && |sent| == SENT_LST_SIZE && log <= later && |log| == n + |published|
    requires AllRuled(ring, times, published, n, log) && GoodLog(log, t)
    requires published == Pass(ring, sent, Wrapped(times)).published && last == Pass(ring, sent, Wrapped(times)).last
    requires done <==> Due(ring[|times|], last, log, t)
    ensures AllRuled(ring, times + [t], With(published, |times|, done), n, later)
    ensures Pass(ring, sent, Wrapped(times + [t])) == PassStep(Pass(ring, sent, Wrapped(times)), |times|, Wrap32(t))
  {
    hide Pass, PassStep, Due, GoodLog, Earlier, Ruled, Slot, LastSlot, Wrapped;
    var i := |times|;
    PassOneMore(ring, sent, times, t);
    PassKnows(ring, sent, times);
    RuledNow(ring, published, n, log, t, i, done, later);
    forall k | 0 <= k < i
      ensures Ruled(ring, With(published, i, done), n, later, k, times[k])
    {
      RuledStill(ring, published, n, log, k, times[k], i, done, later);
    }
  }

  lemma PassOneMore(ring: seq<BtDevice>, sent: seq<BtDevice>, times: seq<nat>, t: nat)
    requires |times| < |ring| && |sent| == SENT_LST_SIZE
    ensures Pass(ring, sent, Wrapped(times + [t])) == PassStep(Pass(ring, sent, Wrapped(times)), |times|, Wrap32(t))
  {
    assert Wrapped(times + [t])[..|times|] == Wrapped(times);
    hide PassStep;
  }

  lemma PassKnows(ring: seq<BtDevice>, sent: seq<BtDevice>, times: seq<nat>)
    requires |times| <= |ring| && |sent| == SENT_LST_SIZE
    ensures var st := Pass(ring, sent, Wrapped(times));
      (forall j :: 0 <= j < |st.published| ==> st.published[j] < |times|) && st.last == LastSlot(ring, st.published)
  {
    PassConserves(ring, sent, Wrapped(times));
    PassAlternates(ring, sent, Wrapped(times));
    hide Pass, PassStep, Slot;
  }

  /** The ring, the table, the real discovery times of the ring's entries, and the log. */
  datatype Log = Log(ring: seq<BtDevice>, sent: seq<BtDevice>, found: seq<nat>, log: seq<Report>)
  {
    predicate Sized() {
      |ring| == |found| == BT_LST_SIZE && |sent| == SENT_LST_SIZE
    }
  }

  /** A pass that has looked at as many entries as there are `times`. */
  ghost predicate PassSoFar(a: Log, b: Log, last: int, times: seq<nat>, published: seq<nat>) {
    && a.Sized() && b.Sized() && |times| <= BT_LST_SIZE && a.log <= b.log
    && PassState(b.ring, b.sent, last, published) == Pass(a.ring, a.sent, Wrapped(times))
    && (forall j :: |times| <= j < BT_LST_SIZE ==> b.found[j] == a.found[j] && b.ring[j] == a.ring[j])
    && (forall j :: 0 <= j < BT_LST_SIZE && j !in published ==> b.found[j] == a.found[j])
    && Logged(a.ring, a.found, published, b.log[|a.log|..])
    && AllRuled(a.ring, times, published, |a.log|, b.log) && |b.log| == |a.log| + |published|
  }

  lemma PassAtFirst(a: Log)
    requires a.Sized()
    ensures PassSoFar(a, a, -1, [], [])
  {
    LoggedNothing(a.ring, a.found);
    assert a.log[|a.log|..] == [];
  }

  lemma PassAtLast(a: Log, b: Log, last: int, times: seq<nat>, published: seq<nat>)
    requires PassSoFar(a, b, last, times, published)
    ensures a.Sized() && b.Sized() && |times| <= BT_LST_SIZE && a.log <= b.log
    ensures PassState(b.ring, b.sent, last, published) == Pass(a.ring, a.sent, Wrapped(times))
    ensures Logged(a.ring, a.found, published, b.log[|a.log|..])
    ensures AllRuled(a.ring, times, published, |a.log|, b.log)
    ensures forall k :: 0 <= k < |times| && k !in published ==> b.found[k] == a.found[k]
    ensures (forall k :: 0 <= k < |times| ==> a.ring[k] == EMPTY) && |times| == BT_LST_SIZE ==> b.log == a.log
  {
    hide Pass, Logged, Withheld, Earlier, GoodLog;
    if (forall k :: 0 <= k < |times| ==> a.ring[k] == EMPTY) && |times| == BT_LST_SIZE && published != [] {
      assert published[0] in published;
      assert Ruled(a.ring, published, |a.log|, b.log, published[0], times[published[0]]);
    }
  }

  /** What a turn does to ring and table is one more step of the pass. */
  lemma PassStateGoesOn(a: Log, b: Log, c: Log, last: int, newLast: int, times: seq<nat>, published: seq<nat>,
                        t: nat, sent: bool)
    requires a.Sized() && b.Sized() && c.Sized() && |times| < BT_LST_SIZE
    requires PassState(b.ring, b.sent, last, published) == Pass(a.ring, a.sent, Wrapped(times))
    requires PassState(c.ring, c.sent, newLast, With([], |times|, sent))
          == PassStep(PassState(b.ring, b.sent, last, []), |times|, Wrap32(t))
    requires Pass(a.ring, a.sent, Wrapped(times + [t]))
          == PassStep(Pass(a.ring, a.sent, Wrapped(times)), |times|, Wrap32(t))
    ensures PassState(c.ring, c.sent, newLast, With(published, |times|, sent))
         == Pass(a.ring, a.sent, Wrapped(times + [t]))
    ensures forall j :: 0 <= j < BT_LST_SIZE && j != |times| ==> c.ring[j] == b.ring[j]
  {
    hide Pass, Wrapped;
    PassTurn(PassState(b.ring, b.sent, last, published), |times|);
    assert [] + [|times|] == [|times|] && published + [] == published;
    hide PassStep;
  }

  /** What a turn does to the log and the discovery times. */
  lemma PassLogGoesOn(a: Log, b: Log, c: Log, published: seq<nat>, k: nat, sent: bool)
    requires a.Sized() && b.Sized() && c.Sized() && k < BT_LST_SIZE && a.log <= b.log
    requires b.found[k] == a.found[k] && b.ring[k] == a.ring[k]
    requires Logged(a.ring, a.found, published, b.log[|a.log|..])
    requires !sent ==> c.log == b.log
    requires sent ==> |c.log| == |b.log| + 1 && c.log[..|b.log|] == b.log
    requires sent ==> Logged(b.ring, b.found, [k], [c.log[|b.log|]])
    ensures a.log <= b.log <= c.log && Logged(a.ring, a.found, With(published, k, sent), c.log[|a.log|..])
  {
    hide Logged;
    if sent {
      LoggedGrows(a.ring, a.found, published, b.log[|a.log|..], b.ring, b.found, k, c.log[|b.log|]);
      assert c.log[|a.log|..] == b.log[|a.log|..] + [c.log[|b.log|]];
    }
  }

  /** One turn of the pass. */
  lemma PassGoesOn(a: Log, b: Log, c: Log, last: int, newLast: int, times: seq<nat>, published: seq<nat>,
                   t: nat, sent: bool)
    requires PassSoFar(a, b, last, times, published) && |times| < BT_LST_SIZE && c.Sized()
    requires PassState(c.ring, c.sent, newLast, With([], |times|, sent))
          == PassStep(PassState(b.ring, b.sent, last, []), |times|, Wrap32(t))
    requires GoodLog(b.log, t) && (sent <==> Due(b.ring[|times|], last, b.log, t))
    requires !sent ==> c.found == b.found && c.log == b.log
    requires sent ==> c.found == b.found[|times| := 0] && |c.log| == |b.log| + 1 && c.log[..|b.log|] == b.log
    requires sent ==> Logged(b.ring, b.found, [|times|], [c.log[|b.log|]])
    ensures PassSoFar(a, c, newLast, times + [t], With(published, |times|, sent))
  {
    hide PassStep, Logged, Due, Pass, AllRuled, Wrapped, GoodLog;
    PassLogGoesOn(a, b, c, published, |times|, sent);
    TurnDone(a.ring, a.sent, times, published, |a.log|, b.log, t, sent, c.log, last);
    PassStateGoesOn(a, b, c, last, newLast, times, published, t, sent);
  }

  /** What may follow a call of add_bt_device: another one, or a pass of send_device. */
  datatype Turn = Add(address: Address) | Send

  function Calls(turns: seq<Turn>): nat {
    if turns == [] then 0 else Calls(turns[..|turns| - 1]) + if turns[|turns| - 1].Add? then 1 else 0
  }

  lemma {:induction false} CallsUpTo(turns: seq<Turn>, k: nat)
    requires k < |turns|
    ensures Calls(turns[..k + 1]) == Calls(turns[..k]) + if turns[k].Add? then 1 else 0
    ensures Calls(turns[..k + 1]) <= Calls(turns)
    decreases |turns|
  {
    assert turns[..k + 1][..k] == turns[..k];
    if k + 1 < |turns| {
      var front := turns[..|turns| - 1];
      CallsUpTo(front, k);
      assert front[..k + 1] == turns[..k + 1] && front[..k] == turns[..k];
    } else {
      assert turns[..k + 1] == turns;
    }
  }

  lemma NoCalls(turns: seq<Turn>)
    ensures Calls(turns[..0]) == 0
  {
  }

  /** From report `n` on, the device that was discovered at `date` was published. */
  ghost predicate PublishedSince(log: seq<Report>, n: nat, addr: Address, date: nat) {
    exists p :: n <= p < |log| && log[p].addr == addr && log[p].found == date
  }

  /** The device is in its entry, or was published since. */
  ghost predicate Survives(ring: seq<BtDevice>, found: seq<nat>, log: seq<Report>, n: nat, idx: nat,
                           entry: BtDevice, date: nat)
    requires idx < |ring| == |found|
  {
    (ring[idx] == entry && found[idx] == date) || PublishedSince(log, n, entry.addr, date)
  }

  lemma SurvivesAtFirst(ring: seq<BtDevice>, found: seq<nat>, log: seq<Report>, n: nat, idx: nat,
                        entry: BtDevice, date: nat)
    requires idx < |ring| == |found| && ring[idx] == entry && found[idx] == date
    ensures Survives(ring, found, log, n, idx, entry, date)
  {
  }

  lemma SurvivesAtLast(ring: seq<BtDevice>, found: seq<nat>, log: seq<Report>, n: nat, idx: nat,
                       entry: BtDevice, date: nat)
    requires idx < |ring| == |found| && Survives(ring, found, log, n, idx, entry, date)
    ensures ring[idx] == entry || PublishedSince(log, n, entry.addr, date)
  {
  }

  /** A pass leaves the device or publishes it. */
  lemma SurvivesPass(ring: seq<BtDevice>, ring1: seq<BtDevice>, found: seq<nat>, found1: seq<nat>,
                     log: seq<Report>, log1: seq<Report>, n: nat, idx: nat, entry: BtDevice, date: nat,
                     published: seq<nat>)
    requires idx < |ring| == |ring1| == |found| == |found1| && n <= |log| && log <= log1
    requires Survives(ring, found, log, n, idx, entry, date)
    requires Logged(ring, found, published, log1[|log|..])
    requires idx !in published ==> ring1[idx] == ring[idx] && found1[idx] == found[idx]
    ensures Survives(ring1, found1, log1, n, idx, entry, date)
  {
    if PublishedSince(log, n, entry.addr, date) {
      var p :| n <= p < |log| && log[p].addr == entry.addr && log[p].found == date;
      assert log1[p] == log[p];
    } else if idx in published {
      var j :| 0 <= j < |published| && published[j] == idx;
      assert log1[|log| + j] == log1[|log|..][j];
    }
  }

  /** An entry of the address that was, on the wrapping clock, discovered less than 34 seconds
      before `t`. */
  predicate Fresh(d: BtDevice, found: nat, address: Address, t: nat) {
    d.addr == address && Wrap32(t - found) < 34000
  }

  class Reporter {
    const deviceLst: array<BtDevice>
    var i: nat
    const sentLst: array<BtDevice>
    /** Real time; the firmware reads it modulo 2^32. */
    var now: nat
    /** When each ring entry was really discovered, and every report ever published. */
    ghost var found: seq<nat>
    ghost var log: seq<Report>

    ghost predicate Valid()
      reads this, deviceLst, sentLst
    {
      && deviceLst != sentLst && i < BT_LST_SIZE
      && deviceLst.Length == |found| == BT_LST_SIZE && sentLst.Length == SENT_LST_SIZE
      && GoodRing(deviceLst[..], found, now)
      && Mirrors(sentLst[..], log)
      && GoodLog(log, now)
    }

    constructor ()
      ensures Valid() && fresh(deviceLst) && fresh(sentLst)
      ensures log == [] && i == 0 && deviceLst[..] == [EMPTY, EMPTY, EMPTY, EMPTY, EMPTY]
    {
      deviceLst := new BtDevice[BT_LST_SIZE](_ => EMPTY);
      sentLst := new BtDevice[SENT_LST_SIZE](_ => EMPTY);
      i, now := 0, 0;
      found, log := [0, 0, 0, 0, 0], [];
    }

    /** Time passes. */
    method Wait()
      requires Valid()
      modifies this`now
      ensures Valid() && now >= old(now)
    {
      var d: nat :| true;
      now := now + d;
    }

    /** is_available */
    method IsAvailable(device: BtDevice, addr: Address) returns (yes: bool)
      ensures yes <==> Available(device, addr, Wrap32(now))
    {
      for k := 0 to 6
        invariant device.addr[..k] == addr[..k]
      {
        if device.addr[k] != addr[k] {
          return true;
        }
      }
      assert device.addr == device.addr[..6] == addr[..6] == addr;
      yes := Sub32(Wrap32(now), device.timestamp) >= BT_DEVICE_LIFETIME;
    }

    /** add_bt_device. A call that accepts the device stores it, with the time of the store,
        in the entry under the cursor, and no entry of that address was discovered less than
        34 seconds before; a call that rejects it has seen a fresh entry of that address.
        Either way the cursor moves on. */
    method AddBtDevice(address: Address) returns (rc: int)
      requires Valid()
      modifies this`i, this`now, this`found, deviceLst
      ensures Valid() && now >= old(now)
      ensures i == (old(i) + 1) % BT_LST_SIZE
      ensures rc == -1 || rc == old(i)
      ensures rc == -1 ==> deviceLst[..] == old(deviceLst[..]) && found == old(found)
      ensures rc == -1 ==> exists j, t: nat :: 0 <= j < BT_LST_SIZE && old(now) <= t <= now
                                           && Fresh(old(deviceLst[j]), old(found)[j], address, t)
      ensures rc != -1 ==> found == old(found)[rc := now]
      ensures rc != -1 ==> deviceLst[..] == old(deviceLst[..])[rc := BtDevice(Wrap32(now), address)]
      ensures rc != -1 ==> forall j :: 0 <= j < BT_LST_SIZE && old(deviceLst[j]).addr == address ==>
                             now - old(found)[j] >= 34000
    {
      hide GoodRing, Mirrors, GoodLog, Available;
      var idx := i;
      i := (i + 1) % BT_LST_SIZE;
      Wait();
      var free := NoneFresh(address);
      if !free {
        return -1;
      }
      CopyAddress(idx, address);
      ghost var checked := now;
      var d: nat :| true;
      now := now + d;
      StoredDeviceFits(old(deviceLst[..]), found, checked, now, idx, address);
      LogKeeps(log, checked, now);
      deviceLst[idx] := deviceLst[idx].(timestamp := Wrap32(now));
      assert deviceLst[..] == old(deviceLst[..])[idx := BtDevice(Wrap32(now), address)];
      found := found[idx := now];
      rc := idx;
    }

    /** The loop of add_bt_device over the ring; the clock goes on while it runs. */
    method NoneFresh(address: Address) returns (free: bool)
      requires Valid()
      modifies this`now
      ensures Valid() && now >= old(now)
      ensures free ==> forall j :: 0 <= j < BT_LST_SIZE && deviceLst[j].addr == address ==>
                         now - found[j] >= BT_DEVICE_LIFETIME
      ensures !free ==> exists j, t: nat :: 0 <= j < BT_LST_SIZE && old(now) <= t <= now
                                        && Fresh(deviceLst[j], found[j], address, t)
    {
      for k := 0 to BT_LST_SIZE
        invariant Valid() && now >= old(now)
        invariant forall j :: 0 <= j < k && deviceLst[j].addr == address ==> now - found[j] >= BT_DEVICE_LIFETIME
      {
        RingDate(deviceLst[..], found, now, k);
        hide GoodRing, GoodLog, Mirrors;
        ghost var t := now;
        assert deviceLst[..][k] == deviceLst[k];
        AvailableLater(found[k], deviceLst[k].addr, address, t);
        var yes := IsAvailable(deviceLst[k], address);
        Wait();
        if !yes {
          assert Fresh(deviceLst[k], found[k], address, t);
          return false;
        }
      }
      free := true;
    }

    /** The loop that copies the address, byte by byte. */
    method CopyAddress(idx: nat, address: Address)
      requires idx < deviceLst.Length
      modifies deviceLst
      ensures deviceLst[..] == old(deviceLst[..])[idx := old(deviceLst[idx]).(addr := address)]
    {
      for k := 0 to 6
        invariant deviceLst[idx].timestamp == old(deviceLst[idx]).timestamp
        invariant deviceLst[idx].addr[..k] == address[..k]
        invariant forall j :: 0 <= j < deviceLst.Length && j != idx ==> deviceLst[j] == old(deviceLst[j])
      {
        deviceLst[idx] := deviceLst[idx].(addr := deviceLst[idx].addr[k := address[k]]);
      }
      assert deviceLst[idx].addr == deviceLst[idx].addr[..6] == address[..6] == address;
    }

    /** Publishing the device in entry `k`, and recording that in the table. */
    method Publish(k: nat, idx: nat, cur: BtDevice)
      requires Valid() && k < BT_LST_SIZE && cur == deviceLst[k] && idx == Slot(cur.addr)
      requires Available(sentLst[idx], cur.addr, Wrap32(now))
      modifies this`now, this`found, this`log, deviceLst, sentLst
      ensures Valid() && old(now) <= now
      ensures deviceLst[..] == old(deviceLst[..])[k := EMPTY] && sentLst[..] == old(sentLst[..])[idx := cur]
      ensures found == old(found)[k := 0] && |log| == |old(log)| + 1 && log[..|old(log)|] == old(log)
      ensures Logged(old(deviceLst[..]), old(found), [k], [log[|old(log)|]])
    {
      hide GoodRing, GoodLog, Mirrors, Available;
      ghost var checked := now;
      assert sentLst[..][idx] == sentLst[idx];
      Wait();
      var text := FormatMac(cur.addr);
      PublishFits(deviceLst[..], sentLst[..], log, found, checked, now, k);
      log := log + [Report(cur.addr, found[k], now, text)];
      deviceLst[k] := EMPTY;
      found := found[k := 0];
      sentLst[idx] := cur;
      assert deviceLst[..] == old(deviceLst[..])[k := EMPTY];
      assert sentLst[..] == old(sentLst[..])[idx := cur];
      Wait();
    }

    /** One turn of the loop of send_device, for entry `k`, which looked at the clock at time
        `t`. It publishes the device if and only if that is due. */
    method SendEntry(k: nat, last: int) returns (newLast: int, ghost t: nat, ghost sent: bool)
      requires Valid() && k < BT_LST_SIZE
      modifies this`now, this`found, this`log, deviceLst, sentLst
      ensures Valid() && old(now) <= t <= now
      ensures PassState(deviceLst[..], sentLst[..], newLast, With([], k, sent))
           == PassStep(PassState(old(deviceLst[..]), old(sentLst[..]), last, []), k, Wrap32(t))
      ensures !sent ==> (found == old(found) && log == old(log))
      ensures GoodLog(old(log), t) && (sent <==> Due(old(deviceLst[k]), last, old(log), t))
      ensures sent ==> found == old(found)[k := 0]
      ensures sent ==> (|log| == |old(log)| + 1 && log[..|old(log)|] == old(log)
                     && Logged(old(deviceLst[..]), old(found), [k], [log[|old(log)|]]))
    {
      hide GoodRing, GoodLog, Mirrors, Available, Logged, Withheld, Slot;
      Wait();
      WithheldByTable(sentLst[..], log, now, deviceLst[k].addr);
      var cur := deviceLst[k];
      var idx := Slot(cur.addr);
      newLast, sent, t := last, false, now;
      if idx != last && cur.timestamp != 0 {
        assert sentLst[..][idx] == sentLst[idx];
        var yes := IsAvailable(sentLst[idx], cur.addr);
        if yes {
          newLast, sent := idx, true;
          Publish(k, idx, cur);
        }
      }
    }

    /** send_device: one pass over the ring, which looked at the clock at the real times `times`;
        `published` lists the entries it reported, which are exactly those that were due. */
    method SendDevice() returns (ghost times: seq<nat>, ghost published: seq<nat>)
      requires Valid()
      modifies this`now, this`found, this`log, deviceLst, sentLst
      ensures Valid() && |times| == BT_LST_SIZE
      ensures forall k :: 0 <= k < BT_LST_SIZE ==> old(now) <= times[k] <= now
      ensures forall j, k :: 0 <= j < k < BT_LST_SIZE ==> times[j] <= times[k]
      ensures var st := Pass(old(deviceLst[..]), old(sentLst[..]), Wrapped(times));
                deviceLst[..] == st.ring && sentLst[..] == st.sent && published == st.published
      ensures old(log) <= log && Logged(old(deviceLst[..]), old(found), published, log[|old(log)|..])
      ensures AllRuled(old(deviceLst[..]), times, published, |old(log)|, log)
      ensures forall k :: 0 <= k < BT_LST_SIZE && k !in published ==> found[k] == old(found)[k]
      ensures (forall k :: 0 <= k < BT_LST_SIZE ==> old(deviceLst[k]) == EMPTY) ==> log == old(log)
    {
      hide GoodRing, GoodLog, Mirrors, Available, PassStep, Logged, Due, PassSoFar, AllRuled;
      var last := -1;
      times, published := [], [];
      ghost var before := Log(deviceLst[..], sentLst[..], found, log);
      PassAtFirst(before);
      for k := 0 to BT_LST_SIZE
        invariant Valid() && old(now) <= now && InOrder(times, old(now), now) && |times| == k
        invariant PassSoFar(before, Log(deviceLst[..], sentLst[..], found, log), last, times, published)
      {
        ghost var mid, lastSlot := Log(deviceLst[..], sentLst[..], found, log), last;
        ghost var t, sent;
        last, t, sent := SendEntry(k, last);
        PassGoesOn(before, mid, Log(deviceLst[..], sentLst[..], found, log), lastSlot, last, times, published, t, sent);
        times, published := times + [t], With(published, k, sent);
      }
      PassAtLast(before, Log(deviceLst[..], sentLst[..], found, log), last, times, published);
    }

    /** A further call stores elsewhere. */
    method CallElsewhere(other: Address, ghost n: nat, ghost idx: nat, ghost entry: BtDevice, ghost date: nat)
      requires Valid() && n <= |log| && idx < BT_LST_SIZE && idx != i
      requires Survives(deviceLst[..], found, log, n, idx, entry, date)
      modifies this`i, this`now, this`found, deviceLst
      ensures Valid() && old(now) <= now && i == (old(i) + 1) % BT_LST_SIZE
      ensures Survives(deviceLst[..], found, log, n, idx, entry, date)
    {
      hide GoodRing, GoodLog, Mirrors, Available;
      ghost var ring := deviceLst[..];
      var rc := AddBtDevice(other);
      assert deviceLst[..][idx] == ring[idx];
      hide PublishedSince;
    }

    /** A further pass leaves the device or publishes it. */
    method PassOver(ghost n: nat, ghost idx: nat, ghost entry: BtDevice, ghost date: nat)
      requires Valid() && n <= |log| && idx < BT_LST_SIZE
      requires Survives(deviceLst[..], found, log, n, idx, entry, date)
      modifies this`now, this`found, this`log, deviceLst, sentLst
      ensures Valid() && old(now) <= now && old(log) <= log
      ensures Survives(deviceLst[..], found, log, n, idx, entry, date)
    {
      hide GoodRing, GoodLog, Mirrors, Available, Survives, Logged;
      ghost var ring, sent, found0, log0 := deviceLst[..], sentLst[..], found, log;
      ghost var times, published := SendDevice();
      PassConserves(ring, sent, Wrapped(times));
      SurvivesPass(ring, deviceLst[..], found0, found, log0, log, n, idx, entry, date, published);
    }

    method OneTurn(turn: Turn, ghost calls: nat, ghost n: nat, ghost idx: nat, ghost entry: BtDevice, ghost date: nat)
      requires Valid() && n <= |log| && idx < BT_LST_SIZE && i == (idx + 1 + calls) % BT_LST_SIZE
      requires calls + (if turn.Add? then 1 else 0) <= 4
      requires Survives(deviceLst[..], found, log, n, idx, entry, date)
      modifies this`i, this`now, this`found, this`log, deviceLst, sentLst
      ensures Valid() && old(now) <= now && old(log) <= log
      ensures i == (idx + 1 + calls + if turn.Add? then 1 else 0) % BT_LST_SIZE
      ensures Survives(deviceLst[..], found, log, n, idx, entry, date)
    {
      hide GoodRing, GoodLog, Mirrors, Available, Survives;
      match turn
      case Add(other) => CallElsewhere(other, n, idx, entry, date);
      case Send => PassOver(n, idx, entry, date);
    }

    /** A device that add_bt_device accepts is still in its entry after any mix of further calls
        and passes with at most four calls, although the cursor also moves on the calls that are
        rejected, unless a pass has published it. */
    method SurvivesFourCalls(address: Address, turns: seq<Turn>)
      returns (rc: int, ghost entry: BtDevice, ghost date: nat)
      requires Valid() && Calls(turns) <= 4
      modifies this`i, this`now, this`found, this`log, deviceLst, sentLst
      ensures Valid() && old(log) <= log
      ensures rc != -1 ==> 0 <= rc < BT_LST_SIZE && entry == BtDevice(Wrap32(date), address) && old(now) <= date <= now
      ensures rc != -1 ==> deviceLst[rc] == entry || PublishedSince(log, |old(log)|, address, date)
    {
      hide GoodRing, GoodLog, Mirrors, Available, Survives, PublishedSince, Calls;
      rc := AddBtDevice(address);
      date, entry := now, BtDevice(Wrap32(now), address);
      if rc == -1 {
        return;
      }
      ghost var n := |log|;
      assert i == (rc + 1) % BT_LST_SIZE;
      assert turns[..|turns|] == turns;
      NoCalls(turns);
      SurvivesAtFirst(deviceLst[..], found, log, n, rc, entry, date);
      for k := 0 to |turns|
        invariant Valid() && i == (rc + 1 + Calls(turns[..k])) % BT_LST_SIZE && old(log) <= log && date <= now
        invariant Survives(deviceLst[..], found, log, n, rc, entry, date)
      {
        CallsUpTo(turns, k);
        OneTurn(turns[k], Calls(turns[..k]), n, rc, entry, date);
      }
      SurvivesAtLast(deviceLst[..], found, log, n, rc, entry, date);
    }
  }
}
