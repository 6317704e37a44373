/**
 What the two readings of the byte count, and a flush that bytes interrupt, can do to a receive:
 exactly when a receive may exceed its buffer, and how long a disturbed reader stays behind.
 */
module SerialOverrun {
  import opened Words
  import opened SerialRing
  import opened SerialRx

  // ---- The clamp on the ring ----

  /** The comparison and the assignment of the clamp, with `bs` received between them. */
  function ClampOnRing(r: Ring, room: U32, bs: seq<Byte>): U32
    requires |r.cells| == CIRCULAR_BUF_SIZE && r.wrI < CIRCULAR_BUF_SIZE
  {
    if Want(room) > r.pendingBytes then ArriveAll(r, bs).pendingBytes else Want(room)
  }

  lemma {:induction false} ArrivalsCountUp(r: Ring, bs: seq<Byte>)
    requires |r.cells| == CIRCULAR_BUF_SIZE && r.wrI < CIRCULAR_BUF_SIZE
    ensures ArriveAll(r, bs).pendingBytes == Wrap32(r.pendingBytes + |bs|)
  {
    if bs != [] {
      ArrivalsCountUp(r, bs[..|bs| - 1]);
      WrappedCount(r.pendingBytes + |bs| - 1);
    }
  }

  /** The clamp of the receive, which goes by the history, is the clamp on the ring. */
  lemma ClampIsOnRing(r: Ring, p: Past, room: U32, bs: seq<Byte>)
    requires Consistent(r, p)
    ensures r.wrI < CIRCULAR_BUF_SIZE
    ensures ClampOnRing(r, room, bs) == Clamp(p, room, |p.heard|, |p.heard| + |bs|)
  {
    ConsistentIndex(r, p);
    ArrivalsHeard(p, bs);
    ArrivalsKeep(r, p, bs);
    var s, q := ArriveAll(r, bs), HeardAll(p, bs);
    assert s.pendingBytes == Wrap32(q.Counted());
  }

  /** What exceeds the room is exactly a count below what was asked for that `bs` lifts above
      the room. */
  lemma OverrunExactlyIf(r: Ring, p: Past, room: U32, bs: seq<Byte>)
    requires Consistent(r, p) && p.Honest()
    ensures r.wrI < CIRCULAR_BUF_SIZE
    ensures ClampOnRing(r, room, bs) > room <==>
            r.pendingBytes < Want(room) && Wrap32(r.pendingBytes + |bs|) > room
    ensures ClampOnRing(r, room, bs) > room ==> |bs| >= 2
  {
    ConsistentIndex(r, p);
    ArrivalsCountUp(r, bs);
  }

  /** No receive from any state exceeds its buffer if and only if at most one byte arrives
      between two adjacent statements. */
  lemma ReceivesFitExactlyIf(burst: nat)
    ensures (forall r, p, rs, maxLen, moved, to ::
               Consistent(r, p) && p.Honest() && Readings(p, rs, maxLen, moved, to, burst) ==> moved <= maxLen)
       <==> burst <= 1
  {
    if burst <= 1 {
      forall r, p, rs, maxLen, moved, to | Consistent(r, p) && p.Honest() && Readings(p, rs, maxLen, moved, to, burst)
        ensures moved <= maxLen
      {
        OneArrivalFits(p, rs, maxLen, moved, to, burst);
      }
    } else {
      OverrunWithTwo(burst);
    }
  }

  /** With room for 10 bytes, 9 waiting and 2 more arriving between the readings, 11 are moved. */
  lemma OverrunWithTwo(burst: nat)
    requires burst >= 2
    ensures exists r, p, rs, maxLen, moved, to ::
      Consistent(r, p) && p.Honest() && Readings(p, rs, maxLen, moved, to, burst) && moved > maxLen
  {
    hide RingOf;
    var nine: seq<Byte> := seq(9, _ => 0);
    var p := Past(nine, 0, 0, [], 0, false, true);
    var r := Ring(RingOf(nine), 0, 9, 9, false);
    var x := Reading(0, 9, 11);
    assert Moves(p, x, 10) == 11;
    ReadingsAtFirst(p, [], 10, 9, burst);
    ReadingsGrow(p, [], 10, 9, x, 11, burst);
    assert Consistent(r, p) && p.Honest();
    hide Consistent, Readings, Moves;
    var rs := [] + [x];
    assert Readings(p, rs, 10, 11, 11, burst);
  }

  // ---- Reading on the ring ----

  /** The read loop of UartGetData, undisturbed: the ring after `n` bytes, and the bytes. */
  function ReadAll(r: Ring, n: nat): (res: (Ring, seq<Byte>))
    requires |r.cells| == CIRCULAR_BUF_SIZE && r.rdI < CIRCULAR_BUF_SIZE
    ensures |res.0.cells| == CIRCULAR_BUF_SIZE && res.0.rdI < CIRCULAR_BUF_SIZE && |res.1| == n
  {
    if n == 0 then (r, [])
    else
      var res := ReadAll(r, n - 1);
      (CountDown(Advance(res.0)), res.1 + [res.0.cells[res.0.rdI]])
  }

  /** The history of that loop. */
  function TookAll(p: Past, bs: seq<Byte>): Past {
    p.(readPos := p.readPos + |bs|, taken := p.taken + bs)
  }

  /** What the loop has read so far is the stream from where the reader stood. */
  ghost predicate ReadSo(r: Ring, p: Past, n: nat)
    requires |r.cells| == CIRCULAR_BUF_SIZE && r.rdI < CIRCULAR_BUF_SIZE && p.readPos + n <= |p.heard|
  {
    && ReadAll(r, n).1 == p.heard[p.readPos..p.readPos + n]
    && Consistent(ReadAll(r, n).0, TookAll(p, p.heard[p.readPos..p.readPos + n]))
  }

  /** The loop reads the stream from where the reader stands. */
  lemma {:induction false} ReadAllInOrder(r: Ring, p: Past, n: nat)
    requires Consistent(r, p) && p.Honest() && !p.lost && n <= p.Counted()
    ensures r.rdI < CIRCULAR_BUF_SIZE && |r.cells| == CIRCULAR_BUF_SIZE && p.readPos + n <= |p.heard|
    ensures ReadSo(r, p, n)
  {
    ConsistentIndex(r, p);
    if n == 0 {
      TookNothing(p);
    } else {
      ReadAllInOrder(r, p, n - 1);
      hide Consistent, ReadSo;
      ReadMore(r, p, n);
    }
  }

  lemma ReadMore(r: Ring, p: Past, n: nat)
    requires |r.cells| == CIRCULAR_BUF_SIZE && r.rdI < CIRCULAR_BUF_SIZE && p.Honest() && !p.lost
    requires 0 < n <= p.Counted() && ReadSo(r, p, n - 1)
    ensures ReadSo(r, p, n)
  {
    hide Consistent;
    var s, bs, b := ReadAll(r, n - 1).0, p.heard[p.readPos..p.readPos + n - 1], p.heard[p.readPos + n - 1];
    assert p.heard[p.readPos..p.readPos + n] == bs + [b];
    var q := TookAll(p, bs);
    ReadOne(s, q);
    TookMore(p, bs, b);
    hide TookAll, Advance, CountDown;
  }

  lemma TookNothing(p: Past)
    ensures TookAll(p, []) == p
  {
    assert p.taken + [] == p.taken;
  }

  lemma TookMore(p: Past, bs: seq<Byte>, b: Byte)
    ensures TookAll(TookAll(p, bs), [b]) == TookAll(p, bs + [b])
  {
    assert p.taken + bs + [b] == p.taken + (bs + [b]);
  }

  lemma ReadOne(r: Ring, p: Past)
    requires Consistent(r, p) && p.Honest() && !p.lost && p.Counted() > 0
    ensures r.rdI < CIRCULAR_BUF_SIZE && |r.cells| == CIRCULAR_BUF_SIZE
    ensures r.cells[r.rdI] == p.heard[p.readPos]
    ensures Consistent(CountDown(Advance(r)), TookAll(p, [p.heard[p.readPos]]))
  {
    var b := p.heard[p.readPos];
    RingHoldsNewest(p.heard, p.readPos);
    CleanIsExact(r, p);
    AdvanceKeeps(r, p, b);
    CountDownKeeps(Advance(r), Took(p, b));
    assert Took(p, b).(held := p.held) == TookAll(p, [b]);
  }

  /** An overrun from any state of the driver: a flush, 9 bytes, a receive that wants 10, and 3
      more bytes between its two readings of the count. It stores all 12. */
  lemma OverrunAfterFlush(r: Ring, p: Past, nine: seq<Byte>, three: seq<Byte>)
    requires Consistent(r, p) && |nine| == 9 && |three| == 3
    ensures r.wrI < CIRCULAR_BUF_SIZE
    ensures var s := ArriveAll(Flush(r, [], []), nine); var t := ArriveAll(s, three);
      && ClampOnRing(s, 10, three) == 12
      && t.rdI < CIRCULAR_BUF_SIZE && ReadAll(t, 12).1 == nine + three
  {
    ConsistentIndex(r, p);
    FlushOutcome(r, p, [], []);
    var r0, p0 := Flush(r, [], []), AfterFlush(p, [], []);
    ArrivalsKeep(r0, p0, nine);
    ArrivalsAppend(p0, nine);
    ArrivalsCounted(r0, nine);
    var s, q := ArriveAll(r0, nine), HeardAll(p0, nine);
    ArrivalsKeep(s, q, three);
    ArrivalsAppend(q, three);
    ArrivalsCounted(s, three);
    var t, u := ArriveAll(s, three), HeardAll(q, three);
    hide Consistent, HeardAll, ArriveAll, Flush, AfterFlush;
    ReadAllInOrder(t, u, 12);
    hide ReadAll, TookAll;
    assert u.heard[u.readPos..u.readPos + 12] == nine + three;
  }

  lemma {:induction false} ArrivalsAppend(p: Past, bs: seq<Byte>)
    ensures var q := HeardAll(p, bs);
      && q == p.(heard := p.heard + bs, lost := q.lost)
      && (q.lost <==> p.lost || (bs != [] && |q.heard| - p.readPos > CIRCULAR_BUF_SIZE))
  {
    ArrivalsHeard(p, bs);
    if bs == [] {
      assert p.heard + bs == p.heard;
    } else {
      ArrivalsAppend(p, bs[..|bs| - 1]);
      assert p.heard + bs == p.heard + bs[..|bs| - 1] + [bs[|bs| - 1]];
    }
  }

  // ---- Bytes held back ----

  /** Between two histories a receive ran, whatever it moved. */
  ghost predicate Receive(p: Past, q: Past) {
    p.readPos <= q.readPos && ReadOn(p, q, q.readPos - p.readPos)
  }

  /** The histories before, between and after a run of receives. */
  ghost predicate Receives(ps: seq<Past>)
    decreases |ps|
  {
    |ps| > 1 ==> Receive(ps[|ps| - 2], ps[|ps| - 1]) && Receives(ps[..|ps| - 1])
  }

  lemma {:induction false} ReceivesKeep(ps: seq<Past>)
    requires ps != [] && Receives(ps)
    ensures var p, q := ps[0], ps[|ps| - 1];
      && q.held == p.held && q.base == p.base && p.readPos <= q.readPos && p.heard <= q.heard
      && (p.lost ==> q.lost)
    decreases |ps|
  {
    if |ps| > 1 {
      ReceivesKeep(ps[..|ps| - 1]);
    }
  }

  /** Receives lose nothing as long as no more than a ringful is unread during any of them,
      counted from where it began to read. */
  lemma {:induction false} ReceivesLoseNothing(ps: seq<Past>)
    requires ps != [] && Receives(ps) && !ps[0].lost
    requires forall i :: 0 < i < |ps| ==> |ps[i].heard| - ps[i - 1].readPos <= CIRCULAR_BUF_SIZE
    ensures !ps[|ps| - 1].lost
    decreases |ps|
  {
    if |ps| > 1 {
      ReceivesLoseNothing(ps[..|ps| - 1]);
    }
  }

  /** Bytes that arrive inside a flush are read first, in order, by the receives after it. For
      as long as no byte is overwritten unread, everything that is read is the stream from the
      flush on, and the reader stays exactly as many bytes behind the count. */
  lemma HeldBackThroughReceives(r: Ring, p: Past, ks: seq<Byte>, ms: seq<Byte>, ps: seq<Past>, s: Ring)
    requires Consistent(r, p)
    requires ps != [] && ps[0] == AfterFlush(p, ks, ms) && Receives(ps) && !ps[|ps| - 1].lost
    requires Consistent(s, ps[|ps| - 1]) && ps[|ps| - 1].Honest()
    ensures var q := ps[|ps| - 1];
      && |p.heard| <= q.readPos <= |q.heard| && q.taken == q.heard[|p.heard|..q.readPos]
      && |q.heard| - q.readPos == s.pendingBytes + |ks| <= CIRCULAR_BUF_SIZE
  {
    ConsistentIndex(r, p);
    FlushOutcome(r, p, ks, ms);
    FlushedFrom(p, ks, ms);
    hide AfterFlush;
    ReceivesKeep(ps);
    HeldBack(s, ps[|ps| - 1]);
  }

  lemma FlushedFrom(p: Past, ks: seq<Byte>, ms: seq<Byte>)
    ensures AfterFlush(p, ks, ms).base == |p.heard|
  {
    var p1 := AfterFlushIndex(p);
    ArrivalsHeard(p1, ks);
    ArrivalsHeard(AfterFlushCount(HeardAll(p1, ks)), ms);
  }
}
