/**
 The receive half of the UART driver.

 Every statement of the driver's thread that touches shared state is one step. Between any
 two of them `Interrupts` runs the receive and the clock interrupt any number of times, so
 what is proved here holds for every interleaving and for every amount of overflow.
 Incrementing or decrementing `pendingBytes` is taken to be one step.
 */
module SerialRx {
  import opened Words
  import opened SerialRing
  import opened SerialTiming

  /** The fields of the ring. */
  datatype Ring = Ring(cells: seq<Byte>, rdI: U32, wrI: U32, pendingBytes: U32, overflow: bool)

  /** What has happened on the line: every byte received; the stream index of the next byte
      to read, that index at the last flush, and what was read since; by how many bytes the
      count falls short of the indices; whether a byte was overwritten unread since the last
      flush; and whether that flush was undisturbed. */
  datatype Past = Past(heard: seq<Byte>, readPos: nat, base: nat, taken: seq<Byte>,
                       held: int, lost: bool, clean: bool)
  {
    /** How many bytes the count stands for. */
    function Counted(): int {
      |heard| - readPos - held
    }

    /** What the count reads once `n` bytes have been received. */
    function CountAt(n: nat): U32 {
      Wrap32(n - readPos - held)
    }

    /** Between two operations of the thread the count never promises too much. */
    predicate Honest() {
      held >= 0 && Counted() >= 0
    }
  }

  /** What the receive handler makes of a stream: each byte goes to the next cell. */
  ghost function RingOf(stream: seq<Byte>): (cells: seq<Byte>)
    ensures |cells| == CIRCULAR_BUF_SIZE
  {
    if stream == [] then seq(CIRCULAR_BUF_SIZE, _ => 0)
    else RingOf(stream[..|stream| - 1])[Cell(|stream| - 1) := stream[|stream| - 1]]
  }

  /** The newest of the first `n` stream indices that shares the cell of `r`. */
  function NewestLike(n: nat, r: nat): (k: nat)
    requires r < n
    ensures r <= k < n < k + 257 && Cell(k) == Cell(r)
    ensures n - r <= CIRCULAR_BUF_SIZE ==> k == r
    ensures forall j: nat :: k < j < n ==> Cell(j) != Cell(r)
  {
    var k := n - 1 - (n - 1 - r) % 256;
    assert Cell(k) == Cell(r) by {
      assert k - r == 256 * ((n - 1 - r) / 256);
    }
    assert forall j: nat :: k < j < n ==> Cell(j) != Cell(k) by {
      forall j: nat | k < j < n ensures Cell(j) != Cell(k) { CellsDiffer(k, j); }
    }
    k
  }

  /** However many bytes were received, the cell of `r` holds the newest of those that share
      it: Byte `r` itself unless 256 more arrived after it. */
  lemma {:induction false} RingHoldsNewest(stream: seq<Byte>, r: nat)
    requires r < |stream|
    ensures RingOf(stream)[Cell(r)] == stream[NewestLike(|stream|, r)]
    ensures |stream| - r <= CIRCULAR_BUF_SIZE ==> RingOf(stream)[Cell(r)] == stream[r]
  {
    var last := |stream| - 1;
    if Cell(r) != Cell(last) {
      RingHoldsNewest(stream[..last], r);
      assert NewestLike(last, r) == NewestLike(|stream|, r) by {
        var k, k' := NewestLike(last, r), NewestLike(|stream|, r);
        assert k <= k' < last && Cell(k') == Cell(r);
      }
    } else {
      assert NewestLike(|stream|, r) == last;
    }
  }

  /** A cell that no byte has reached is still zero. */
  lemma {:induction false} RingStartsZero(stream: seq<Byte>, i: nat)
    requires |stream| <= i < CIRCULAR_BUF_SIZE
    ensures RingOf(stream)[i] == 0
  {
    if stream != [] {
      RingStartsZero(stream[..|stream| - 1], i);
    }
  }

  lemma IndexSkew(heard: nat, readPos: nat, held: int)
    ensures (Cell(heard) - Cell(readPos) - Wrap32(heard - readPos - held)) % 256 == held % 256
  {
    var n := heard - readPos - held;
    var q := n / 0x1_0000_0000;
    assert n == 0x1_0000_0000 * q + Wrap32(n);
    var qh, qr := heard / 256, readPos / 256;
    assert heard == 256 * qh + Cell(heard) && readPos == 256 * qr + Cell(readPos);
    var skew := Cell(heard) - Cell(readPos) - Wrap32(n);
    assert skew == held + 256 * (0x100_0000 * q - qh + qr);
  }

  /** Holds at every step. */
  ghost predicate Consistent(r: Ring, p: Past) {
    && p.base <= p.readPos <= |p.heard| && |p.taken| == p.readPos - p.base
    && r.wrI == Cell(|p.heard|)
    && r.rdI == Cell(p.readPos)
    && r.pendingBytes == Wrap32(p.Counted())
    && r.cells == RingOf(p.heard)
    && (!p.lost ==> |p.heard| - p.readPos <= CIRCULAR_BUF_SIZE && p.taken == p.heard[p.base..p.readPos])
    && (p.clean ==> -1 <= p.held <= 0)
    && (p.clean && !r.overflow ==> !p.lost)
  }

  /** Only receive interrupts came between. */
  ghost predicate OnlyArrivals(p: Past, q: Past) {
    && p.heard <= q.heard
    && q == p.(heard := q.heard, lost := q.lost)
    && q.lost == (p.lost || (p.heard != q.heard && |q.heard| - p.readPos > CIRCULAR_BUF_SIZE))
  }

  /** Between `p` and `q`, `n` bytes were read, and any number received. */
  ghost predicate ReadOn(p: Past, q: Past, n: nat) {
    && p.heard <= q.heard
    && q.readPos == p.readPos + n && q.base == p.base
    && p.taken <= q.taken && |q.taken| == |p.taken| + n
    && q.held == p.held && q.clean == p.clean
    && (p.lost ==> q.lost)
    && (q.lost ==> p.lost || |q.heard| - p.readPos > CIRCULAR_BUF_SIZE)
  }

  /** USART0_RX_IRQHandler, when the status register shows a received byte. */
  function Arrive(r: Ring, b: Byte): Ring
    requires |r.cells| == CIRCULAR_BUF_SIZE && r.wrI < CIRCULAR_BUF_SIZE
  {
    var count := Wrap32(r.pendingBytes + 1);
    Ring(r.cells[r.wrI := b], r.rdI, (r.wrI + 1) % 256, count, r.overflow || count > CIRCULAR_BUF_SIZE)
  }

  function Heard(p: Past, b: Byte): Past {
    p.(heard := p.heard + [b], lost := p.lost || |p.heard| + 1 - p.readPos > CIRCULAR_BUF_SIZE)
  }

  /** The flag misses no loss: the count is right, or one too high while a read is between
      its two updates, so it passes 256 no later than the unread bytes do. */
  lemma ArrivalKeeps(r: Ring, p: Past, b: Byte)
    requires Consistent(r, p)
    ensures r.wrI < CIRCULAR_BUF_SIZE
    ensures Consistent(Arrive(r, b), Heard(p, b))
    ensures OnlyArrivals(p, Heard(p, b))
  {
    var q := Heard(p, b);
    assert q.heard[..|p.heard|] == p.heard;
    CellSucc(|p.heard|);
    WrappedCount(p.Counted());
    assert RingOf(q.heard) == RingOf(p.heard)[Cell(|p.heard|) := b];
    WrappedCount(q.Counted());
    assert p.clean && !p.lost ==> 0 <= p.Counted() <= CIRCULAR_BUF_SIZE + 1;
    hide RingOf, Cell, Wrap32;
    assert q.heard[p.base..p.readPos] == p.heard[p.base..p.readPos];
  }

  lemma ArrivalsCompose(p: Past, q: Past, s: Past)
    requires OnlyArrivals(p, q) && OnlyArrivals(q, s)
    ensures OnlyArrivals(p, s) && (p.Honest() ==> q.Honest() && s.Honest())
  {
  }

  /** `rxBuf.rdI = (rxBuf.rdI + 1) & 255`, after the byte at `rdI` was copied. */
  function Advance(r: Ring): Ring {
    r.(rdI := (r.rdI + 1) % 256)
  }

  function Took(p: Past, b: Byte): Past {
    p.(readPos := p.readPos + 1, taken := p.taken + [b], held := p.held - 1)
  }

  lemma AdvanceKeeps(r: Ring, p: Past, b: Byte)
    requires Consistent(r, p) && p.Honest() && p.Counted() > 0
    requires !p.lost ==> b == p.heard[p.readPos]
    ensures Consistent(Advance(r), Took(p, b))
  {
    CellSucc(p.readPos);
    assert p.heard[p.base..p.readPos + 1] == p.heard[p.base..p.readPos] + [p.heard[p.readPos]];
  }

  /** `rxBuf.pendingBytes--` */
  function CountDown(r: Ring): Ring {
    r.(pendingBytes := Wrap32(r.pendingBytes - 1))
  }

  lemma CountDownKeeps(r: Ring, p: Past)
    requires Consistent(r, p) && (p.clean ==> p.held == -1)
    ensures Consistent(CountDown(r), p.(held := p.held + 1))
  {
    WrappedCount(p.Counted());
    hide Wrap32, Cell, RingOf;
  }

  /** `rxBuf.rdI = rxBuf.wrI` */
  function FlushIndex(r: Ring): Ring {
    r.(rdI := r.wrI)
  }

  function AfterFlushIndex(p: Past): Past {
    Past(p.heard, |p.heard|, |p.heard|, [], -p.Counted(), false, false)
  }

  /** `rxBuf.pendingBytes = 0` */
  function FlushCount(r: Ring): Ring {
    r.(pendingBytes := 0)
  }

  function AfterFlushCount(p: Past): Past {
    p.(held := |p.heard| - p.readPos)
  }

  /** `rxBuf.overflow = false` */
  function FlushFlag(r: Ring): Ring {
    r.(overflow := false)
  }

  function AfterFlushFlag(p: Past): Past {
    p.(clean := p.held == 0 && !p.lost)
  }

  lemma FlushKeeps(r: Ring, p: Past)
    requires Consistent(r, p)
    ensures Consistent(FlushIndex(r), AfterFlushIndex(p))
    ensures !p.clean ==> Consistent(FlushCount(r), AfterFlushCount(p))
    ensures !p.clean ==> Consistent(FlushFlag(r), AfterFlushFlag(p))
  {
  }

  /** The state after a run of receive interrupts. */
  function ArriveAll(r: Ring, bs: seq<Byte>): (s: Ring)
    requires |r.cells| == CIRCULAR_BUF_SIZE && r.wrI < CIRCULAR_BUF_SIZE
    ensures |s.cells| == CIRCULAR_BUF_SIZE && s.wrI < CIRCULAR_BUF_SIZE
  {
    if bs == [] then r else Arrive(ArriveAll(r, bs[..|bs| - 1]), bs[|bs| - 1])
  }

  function HeardAll(p: Past, bs: seq<Byte>): Past {
    if bs == [] then p else Heard(HeardAll(p, bs[..|bs| - 1]), bs[|bs| - 1])
  }

  lemma {:induction false} ArrivalsHeard(p: Past, bs: seq<Byte>)
    ensures var q := HeardAll(p, bs);
      && |q.heard| == |p.heard| + |bs|
      && q == p.(heard := q.heard, lost := q.lost)
      && (q.lost <==> p.lost || (bs != [] && |q.heard| - p.readPos > CIRCULAR_BUF_SIZE))
  {
    if bs != [] {
      ArrivalsHeard(p, bs[..|bs| - 1]);
    }
  }

  lemma {:induction false} ArrivalsCounted(r: Ring, bs: seq<Byte>)
    requires |r.cells| == CIRCULAR_BUF_SIZE && r.wrI < CIRCULAR_BUF_SIZE
    requires r.pendingBytes + |bs| <= CIRCULAR_BUF_SIZE
    ensures ArriveAll(r, bs).overflow == r.overflow
    ensures ArriveAll(r, bs).pendingBytes == r.pendingBytes + |bs|
  {
    if bs != [] {
      ArrivalsCounted(r, bs[..|bs| - 1]);
    }
  }

  lemma {:induction false} ArrivalsKeep(r: Ring, p: Past, bs: seq<Byte>)
    requires Consistent(r, p)
    ensures r.wrI < CIRCULAR_BUF_SIZE
    ensures Consistent(ArriveAll(r, bs), HeardAll(p, bs))
  {
    if bs != [] {
      ArrivalsKeep(r, p, bs[..|bs| - 1]);
      ArrivalKeeps(ArriveAll(r, bs[..|bs| - 1]), HeardAll(p, bs[..|bs| - 1]), bs[|bs| - 1]);
    }
  }

  /** While nothing is read, a clear flag means that nothing was lost. */
  ghost predicate FlagTells(r: Ring, p: Past)
    requires |r.cells| == CIRCULAR_BUF_SIZE && r.wrI < CIRCULAR_BUF_SIZE
  {
    forall bs :: !ArriveAll(r, bs).overflow ==> !HeardAll(p, bs).lost
  }

  /** A whole flush, with the bytes that arrive between its stores. */
  function Flush(r: Ring, ks: seq<Byte>, ms: seq<Byte>): (s: Ring)
    requires |r.cells| == CIRCULAR_BUF_SIZE && r.wrI < CIRCULAR_BUF_SIZE
    ensures |s.cells| == CIRCULAR_BUF_SIZE && s.wrI < CIRCULAR_BUF_SIZE
  {
    FlushFlag(ArriveAll(FlushCount(ArriveAll(FlushIndex(r), ks)), ms))
  }

  function AfterFlush(p: Past, ks: seq<Byte>, ms: seq<Byte>): Past {
    AfterFlushFlag(HeardAll(AfterFlushCount(HeardAll(AfterFlushIndex(p), ks)), ms))
  }

  /** Where a flush leaves the reader, whatever arrives during it. */
  lemma FlushOutcome(r: Ring, p: Past, ks: seq<Byte>, ms: seq<Byte>)
    requires Consistent(r, p)
    ensures r.wrI < CIRCULAR_BUF_SIZE
    ensures var s, q := Flush(r, ks, ms), AfterFlush(p, ks, ms);
      && Consistent(s, q) && q.Honest() && !s.overflow
      && q.held == |ks| && |q.heard| - q.readPos == |ks| + |ms|
      && (q.lost <==> |ks| + |ms| > CIRCULAR_BUF_SIZE)
      && (|ms| <= CIRCULAR_BUF_SIZE ==> s.pendingBytes == |ms|)
  {
    hide Consistent;
    FlushKeeps(r, p);
    ConsistentIndex(r, p);
    var r1, p1 := FlushIndex(r), AfterFlushIndex(p);
    ArrivalsHeard(p1, ks);
    ArrivalsKeep(r1, p1, ks);
    FlushKeeps(ArriveAll(r1, ks), HeardAll(p1, ks));
    var r2, p2 := FlushCount(ArriveAll(r1, ks)), AfterFlushCount(HeardAll(p1, ks));
    ArrivalsHeard(p2, ms);
    ArrivalsKeep(r2, p2, ms);
    FlushKeeps(ArriveAll(r2, ms), HeardAll(p2, ms));
    if |ms| <= CIRCULAR_BUF_SIZE {
      ArrivalsCounted(r2, ms);
    }
  }

  lemma ConsistentIndex(r: Ring, p: Past)
    requires Consistent(r, p)
    ensures r.wrI < CIRCULAR_BUF_SIZE && r.rdI < CIRCULAR_BUF_SIZE && |r.cells| == CIRCULAR_BUF_SIZE
    ensures p.clean && !r.overflow ==> !p.lost
  {
  }

  /** The overflow flag can be trusted after a flush exactly when no byte arrived between
      the first two stores of the flush and no more than a ringful between the last two. */
  lemma FlagTellsExactlyAfterCleanFlush(r: Ring, p: Past, ks: seq<Byte>, ms: seq<Byte>)
    requires Consistent(r, p)
    ensures r.wrI < CIRCULAR_BUF_SIZE
    ensures FlagTells(Flush(r, ks, ms), AfterFlush(p, ks, ms)) <==> ks == [] && |ms| <= CIRCULAR_BUF_SIZE
  {
    ConsistentIndex(r, p);
    hide Consistent;
    FlushOutcome(r, p, ks, ms);
    var s, q := Flush(r, ks, ms), AfterFlush(p, ks, ms);
    if ks == [] && |ms| <= CIRCULAR_BUF_SIZE {
      forall bs | !ArriveAll(s, bs).overflow
        ensures !HeardAll(q, bs).lost
      {
        ArrivalsKeep(s, q, bs);
        ArrivalsHeard(q, bs);
        ConsistentIndex(ArriveAll(s, bs), HeardAll(q, bs));
      }
    } else {
      UntoldLoss(s, q, |ms|);
    }
  }

  /** With bytes held back, the ring laps the reader before the count reaches 257. */
  lemma UntoldLoss(r: Ring, p: Past, m: nat)
    requires |r.cells| == CIRCULAR_BUF_SIZE && r.wrI < CIRCULAR_BUF_SIZE
    requires !r.overflow && (m <= CIRCULAR_BUF_SIZE ==> r.pendingBytes == m)
    requires |p.heard| - p.readPos == p.held + m
    requires m > CIRCULAR_BUF_SIZE ==> p.lost
    requires m <= CIRCULAR_BUF_SIZE ==> p.held > 0 && (p.lost <==> p.held + m > CIRCULAR_BUF_SIZE)
    ensures !FlagTells(r, p)
  {
    var bs: seq<Byte> := if p.lost then [] else seq(CIRCULAR_BUF_SIZE - m, _ => 0);
    ArrivalsHeard(p, bs);
    if !p.lost {
      ArrivalsCounted(r, bs);
    }
    assert !ArriveAll(r, bs).overflow && HeardAll(p, bs).lost;
  }

  /** What the reader may conclude from the count. */
  lemma CountIsHonest(r: Ring, p: Past)
    requires Consistent(r, p) && p.Honest()
    ensures r.pendingBytes <= p.Counted()
    ensures p.Counted() < TWO_32 ==> r.pendingBytes == p.Counted()
    ensures r.pendingBytes == p.CountAt(|p.heard|)
  {
  }

  /** The count, for a reader that has not moved since `p`. */
  lemma CountSince(r: Ring, p: Past, q: Past)
    requires Consistent(r, q) && q.Honest() && OnlyArrivals(p, q)
    ensures r.pendingBytes == p.CountAt(|q.heard|) <= q.Counted() && |p.heard| <= |q.heard|
  {
  }

  /** Whatever was read from position `t` on since the last flush is the stream from there. */
  lemma ReadInOrder(r: Ring, p: Past, t: nat)
    requires Consistent(r, p) && !p.lost && t <= |p.taken|
    ensures p.base + t <= p.readPos <= |p.heard| && p.taken[t..] == p.heard[p.base + t..p.readPos]
  {
  }

  /** What a receive stored, if nothing was lost, is a contiguous run of the stream. */
  lemma InOrderAtFront(r: Ring, before: seq<Byte>, after: seq<Byte>, p: Past, q: Past, moved: nat, maxLen: nat)
    requires Consistent(r, q) && Received(before, after, p, q, moved, maxLen)
    requires p.readPos == p.base + |p.taken| && maxLen <= |after|
    ensures ReadOn(p, q, moved) && p.readPos <= q.readPos <= |q.heard|
    ensures moved <= maxLen ==> Stored(before, after, 0, q.taken[|p.taken|..])
    ensures moved <= maxLen && !q.lost ==> after[..moved] == q.heard[p.readPos..q.readPos]
  {
    if moved <= maxLen && !q.lost {
      ReadInOrder(r, q, |p.taken|);
      hide Consistent;
      StoredAtFront(before, after, q.taken[|p.taken|..]);
    }
  }

  /** The write index, the read index and the count disagree by exactly the held-back bytes,
      at every step and after any amount of overflow. */
  lemma SkewIsHeld(r: Ring, p: Past)
    requires Consistent(r, p)
    ensures (r.wrI - r.rdI - r.pendingBytes) % 256 == p.held % 256
  {
    IndexSkew(|p.heard|, p.readPos, p.held);
  }

  /** Held-back bytes delay the reader without disturbing the order of what it reads: when
      the count says that the ring is empty, exactly they are still unread. */
  lemma HeldBack(r: Ring, p: Past)
    requires Consistent(r, p) && p.Honest() && !p.lost
    ensures p.taken == p.heard[p.base..p.readPos]
    ensures |p.heard| - p.readPos == r.pendingBytes + p.held <= CIRCULAR_BUF_SIZE
  {
  }

  lemma ReadSoFar(r: Ring, p: Past)
    requires Consistent(r, p)
    ensures p.readPos == p.base + |p.taken|
  {
  }

  lemma CleanIsExact(r: Ring, p: Past)
    requires Consistent(r, p) && p.Honest()
    ensures p.clean ==> p.held == 0
  {
  }

  /** `after` is `before` with `bytes` stored from index `start` on, as far as it reaches. */
  ghost predicate Stored(before: seq<Byte>, after: seq<Byte>, start: nat, bytes: seq<Byte>) {
    && |after| == |before|
    && forall k :: 0 <= k < |after| ==>
         after[k] == if start <= k < start + |bytes| then bytes[k - start] else before[k]
  }

  lemma StoredAtFront(before: seq<Byte>, after: seq<Byte>, bytes: seq<Byte>)
    requires Stored(before, after, 0, bytes) && |bytes| <= |after|
    ensures after[..|bytes|] == bytes
  {
  }

  /** Two stores in a row are one store. */
  lemma StoredOn(a: seq<Byte>, b: seq<Byte>, c: seq<Byte>, t: seq<Byte>, u: seq<Byte>, v: seq<Byte>)
    requires t <= u <= v
    requires Stored(a, b, 0, u[|t|..]) && Stored(b, c, |u| - |t|, v[|u|..])
    ensures Stored(a, c, 0, v[|t|..])
  {
  }

  /** A receive so far: `moved` bytes were read and, unless that is more than `maxLen`, they
      are what is stored at the front of the caller's buffer. */
  ghost predicate Received(before: seq<Byte>, after: seq<Byte>, p: Past, q: Past, moved: nat, maxLen: nat) {
    && ReadOn(p, q, moved)
    && (moved <= maxLen ==> Stored(before, after, 0, q.taken[|p.taken|..]))
  }

  lemma ReceivedNothing(before: seq<Byte>, p: Past, q: Past, maxLen: nat)
    requires OnlyArrivals(p, q)
    ensures Received(before, before, p, q, 0, maxLen)
  {
  }

  lemma ReceivedMore(before: seq<Byte>, mid: seq<Byte>, after: seq<Byte>, p: Past, q: Past, s: Past,
                     moved: nat, n: nat, maxLen: nat)
    requires Received(before, mid, p, q, moved, maxLen) && moved <= maxLen
    requires ReadOn(q, s, n) && Stored(mid, after, moved, s.taken[|q.taken|..])
    ensures Received(before, after, p, s, moved + n, maxLen)
    ensures q.readPos == p.readPos + moved && q.held == p.held && |p.heard| <= |q.heard|
    ensures p.Counted() + |s.heard| - |p.heard| == q.Counted() + |s.heard| - |q.heard| + moved
  {
    StoredOn(before, mid, after, p.taken, q.taken, s.taken);
    hide Stored;
  }

  /** A receive asks for what still fits into the caller's buffer, a ringful at most. */
  function Want(room: U32): (w: U32)
    ensures w <= room && w <= CIRCULAR_BUF_SIZE && (w == room || w == CIRCULAR_BUF_SIZE)
  {
    if room > CIRCULAR_BUF_SIZE then CIRCULAR_BUF_SIZE else room
  }

  /** One call of UartGetData that got past its wait: how many bytes the receive had moved
      before, and how many had been received on the line when the count was compared with the
      length and when it was read again. */
  datatype Reading = Reading(done: nat, seen: nat, heard: nat)

  /** How many bytes are moved into `room`. The count is read once for the comparison and, if it
      is the smaller, once more for the assignment. */
  function Clamp(q: Past, room: U32, seen: nat, heard: nat): U32 {
    if Want(room) > q.CountAt(seen) then q.CountAt(heard) else Want(room)
  }

  function Moves(p: Past, r: Reading, maxLen: U32): U32
    requires r.done < maxLen
  {
    Clamp(p.(readPos := p.readPos + r.done), maxLen - r.done, r.seen, r.heard)
  }

  /** The calls of a receive, in order, up to the time when `to` bytes had been received: each
      starts where the one before it stopped, and moves what the counts at its two readings make
      it, with at most `burst` bytes received between them. */
  ghost predicate Readings(p: Past, rs: seq<Reading>, maxLen: U32, moved: nat, to: nat, burst: nat)
    decreases |rs|
  {
    if rs == [] then moved == 0 && |p.heard| <= to
    else
      var r := rs[|rs| - 1];
      && r.done < maxLen && r.seen <= r.heard <= to && r.heard <= r.seen + burst
      && moved == r.done + Moves(p, r, maxLen)
      && Readings(p, rs[..|rs| - 1], maxLen, r.done, r.seen, burst)
  }

  lemma ReadingsLater(p: Past, rs: seq<Reading>, maxLen: U32, moved: nat, to: nat, later: nat, burst: nat)
    requires Readings(p, rs, maxLen, moved, to, burst) && to <= later
    ensures Readings(p, rs, maxLen, moved, later, burst)
  {
  }

  lemma ReadingsGrow(p: Past, rs: seq<Reading>, maxLen: U32, to: nat, r: Reading, later: nat, burst: nat)
    requires Readings(p, rs, maxLen, r.done, to, burst) && r.done < maxLen
    requires to <= r.seen <= r.heard <= later && r.heard <= r.seen + burst
    ensures Readings(p, rs + [r], maxLen, r.done + Moves(p, r, maxLen), later, burst)
  {
    ReadingsLater(p, rs, maxLen, r.done, to, r.seen, burst);
    assert (rs + [r])[..|rs|] == rs;
  }

  lemma StoredNothing(before: seq<Byte>, start: nat, none: seq<Byte>)
    requires none == []
    ensures Stored(before, before, start, none)
  {
  }

  /** Bytes arrive, and then `n` are read. */
  lemma ArrivalsThenRead(p: Past, q: Past, s: Past, n: nat)
    requires OnlyArrivals(p, q) && ((s == q && n == 0) || ReadOn(q, s, n))
    ensures ReadOn(p, s, n) && q.readPos == p.readPos && q.held == p.held && q.taken == p.taken
    ensures |p.heard| <= |q.heard| <= |s.heard| && (p.Honest() ==> q.Honest())
  {
  }

  lemma ClampSame(p: Past, q: Past, room: U32, seen: nat, heard: nat)
    requires p.readPos == q.readPos && p.held == q.held
    ensures Clamp(p, room, seen, heard) == if Want(room) > q.CountAt(seen) then q.CountAt(heard) else Want(room)
  {
  }

  lemma MovedFits(p: Past, q: Past, moved: nat)
    requires ReadOn(p, q, moved) && q.Honest() && p.Counted() + |q.heard| - |p.heard| < 0x8000_0000
    ensures moved < 0x8000_0000
  {
  }

  /** A receive that fell short because it found the ring empty has moved all that was there, and
      one that has moved nothing has had time to look. */
  lemma ReceivedShort(p: Past, q: Past, moved: nat, late: bool, empty: nat, looked: nat, began: nat,
                      timeoutMs: U32, gap: nat)
    requires ReadOn(p, q, moved) && p.Honest() && q.Honest()
    requires p.Counted() + |q.heard| - |p.heard| < 0x8000_0000 && |p.heard| <= empty
    requires if late then Sub32(Wrap32(looked), Wrap32(began)) >= timeoutMs
             else empty <= |q.heard| && q.CountAt(empty) == 0
    requires late && moved == 0 ==> began <= looked <= began + gap
    ensures !late ==> moved == p.Counted() + empty - |p.heard|
    ensures gap < timeoutMs && p.Counted() > 0 ==> moved > 0
  {
    if late {
      if moved == 0 && gap < timeoutMs {
        Elapsed(began, looked);
      }
    } else {
      var n := empty - q.readPos - q.held;
      assert n == p.Counted() + empty - |p.heard| - moved && -0x8000_0000 < n < 0x8000_0000;
      assert Wrap32(n) == 0;
    }
  }

  lemma ReadingsAtFirst(p: Past, rs: seq<Reading>, maxLen: U32, to: nat, burst: nat)
    requires rs == [] && |p.heard| <= to
    ensures Readings(p, rs, maxLen, 0, to, burst)
  {
  }

  /** A turn of the receive loop adds one reading, or none if it gave up waiting. */
  lemma ReadingsMore(p: Past, q: Past, s: Past, rs: seq<Reading>, maxLen: U32, total: U32, waited: bool,
                     r: Reading, n: U32, burst: nat)
    requires Readings(p, rs, maxLen, total, |q.heard|, burst) && total < maxLen
    requires q.readPos == p.readPos + total && q.held == p.held && r.done == total
    requires |q.heard| <= r.seen <= r.heard <= |s.heard| && r.heard <= r.seen + burst
    requires if waited then n == 0 else n == Clamp(q, maxLen - total, r.seen, r.heard)
    ensures Readings(p, if waited then rs else rs + [r], maxLen, total + n, |s.heard|, burst)
  {
    if waited {
      ReadingsLater(p, rs, maxLen, total, |q.heard|, |s.heard|, burst);
    } else {
      ReadingsGrow(p, rs, maxLen, |q.heard|, r, |s.heard|, burst);
    }
  }

  /** A call moves more than there is room for exactly if the count is below what was asked for
      when it is compared, and above the room when it is read again. */
  lemma ClampExceedsExactlyIf(q: Past, room: U32, seen: nat, heard: nat)
    requires seen <= heard
    ensures Clamp(q, room, seen, heard) > room <==> q.CountAt(seen) < Want(room) && q.CountAt(heard) > room
    ensures heard <= seen + 1 ==> Clamp(q, room, seen, heard) <= room
  {
    WrappedCount(seen - q.readPos - q.held);
    hide Wrap32;
  }

  /** If at most one byte arrives between two statements, no receive exceeds its buffer. */
  lemma OneArrivalFits(p: Past, rs: seq<Reading>, maxLen: U32, moved: nat, to: nat, burst: nat)
    requires Readings(p, rs, maxLen, moved, to, burst) && burst <= 1
    ensures moved <= maxLen
  {
    if rs != [] {
      var r := rs[|rs| - 1];
      ClampExceedsExactlyIf(p.(readPos := p.readPos + r.done), maxLen - r.done, r.seen, r.heard);
      hide Wrap32;
    }
  }

  /** The last millisecond before a timeout has passed. */
  function Before(timeoutMs: U32): nat {
    if timeoutMs == 0 then 0 else timeoutMs - 1
  }

  class RxLine {
    const buf: CircularBuf
    /** The millisecond counter as the thread sees it, and real time. */
    var timeSinceStart: U32
    var now: nat
    /** When the thread last read the clock, and the longest it goes without reading it
        inside a receive. */
    var looked: nat
    const gap: nat
    /** The most bytes that arrive between two statements of the thread. */
    const burst: nat
    /** How many more rounds of a wait loop may pass before the clock ticks, and before a byte
        arrives. */
    var patience: nat
    var hunger: nat
    ghost var past: Past

    ghost function View(): Ring
      reads buf, buf.data
    {
      Ring(buf.data[..], buf.rdI, buf.wrI, buf.pendingBytes, buf.overflow)
    }

    /** Holds at every step. */
    ghost predicate Valid()
      reads this, buf, buf.data
    {
      && buf.data.Length == CIRCULAR_BUF_SIZE
      && timeSinceStart == Wrap32(now) && looked <= now
      && Consistent(View(), past)
    }

    /** Holds between two operations of the thread. */
    ghost predicate AtRest()
      reads this, buf, buf.data
    {
      Valid() && past.Honest()
    }

    constructor (gap: nat, burst: nat)
      ensures AtRest() && fresh(buf) && fresh(buf.data) && this.gap == gap && this.burst == burst
      ensures past == Past([], 0, 0, [], 0, false, true) && !buf.overflow
    {
      var ring := new CircularBuf();
      assert ring.data[..] == RingOf([]);
      buf := ring;
      this.gap, this.burst := gap, burst;
      timeSinceStart, now, looked, patience, hunger := 0, 0, 0, 0, 0;
      past := Past([], 0, 0, [], 0, false, true);
    }

    /** USART0_RX_IRQHandler, when the status register shows a received byte. */
    method RxIrqHandler(b: Byte)
      requires Valid()
      modifies this`past, buf.data, buf`wrI, buf`pendingBytes, buf`overflow
      ensures Valid()
      ensures View() == Arrive(old(View()), b) && past == Heard(old(past), b)
    {
      hide Consistent;
      ArrivalKeeps(View(), past, b);
      buf.data[buf.wrI] := b;
      buf.wrI := (buf.wrI + 1) % 256;
      buf.pendingBytes := Wrap32(buf.pendingBytes + 1);
      if buf.pendingBytes > CIRCULAR_BUF_SIZE {
        buf.overflow := true;
      }
      past := Heard(past, b);
      assert View() == Arrive(old(View()), b);
    }

    /** SysTick_Handler. */
    method SysTickHandler()
      requires timeSinceStart == Wrap32(now)
      modifies this`timeSinceStart, this`now
      ensures timeSinceStart == Wrap32(now) && now == old(now) + 1
    {
      timeSinceStart := Wrap32(timeSinceStart + 1);
      now := now + 1;
    }

    /** Whatever the interrupt handlers do between two statements of the thread, up to a
        point in time. */
    method Interrupts(deadline: nat)
      requires Valid()
      modifies this`past, this`timeSinceStart, this`now
      modifies buf.data, buf`wrI, buf`pendingBytes, buf`overflow
      ensures Valid() && OnlyArrivals(old(past), past)
      ensures |past.heard| <= |old(past).heard| + burst
      ensures old(now) <= now && (old(now) <= deadline ==> now <= deadline)
    {
      hide Consistent;
      var n: nat :| true;
      var room := burst;
      while n > 0
        invariant Valid() && OnlyArrivals(old(past), past)
        invariant |past.heard| + room == |old(past).heard| + burst
        invariant old(now) <= now && (old(now) <= deadline ==> now <= deadline)
      {
        var received: bool := *;
        if received && room > 0 {
          room := room - 1;
          var b: Byte :| true;
          ArrivalKeeps(View(), past, b);
          ArrivalsCompose(old(past), past, Heard(past, b));
          RxIrqHandler(b);
        } else if now < deadline {
          SysTickHandler();
        }
        n := n - 1;
      }
    }

    /** cur_time. */
    method CurTime() returns (t: U32)
      requires Valid()
      modifies this`looked
      ensures Valid() && looked == now && t == Wrap32(now)
    {
      hide Consistent;
      looked := now;
      t := timeSinceStart;
    }

    /** `rxBuf.data[rxBuf.rdI]`: the newest received byte that shares the cell, which is
        the next byte of the stream as long as it has not been overwritten. */
    method LoadByte() returns (b: Byte)
      requires Valid() && past.readPos < |past.heard|
      ensures b == past.heard[NewestLike(|past.heard|, past.readPos)]
      ensures !past.lost ==> b == past.heard[past.readPos]
    {
      RingHoldsNewest(past.heard, past.readPos);
      b := buf.data[buf.rdI];
    }

    /** The body of the read loop. */
    method TakeByte() returns (b: Byte)
      requires AtRest() && past.Counted() > 0
      modifies this`past, this`timeSinceStart, this`now
      modifies buf.data, buf`wrI, buf`rdI, buf`pendingBytes, buf`overflow
      ensures AtRest() && ReadOn(old(past), past, 1) && past.taken == old(past).taken + [b]
      ensures old(now) <= now && (old(now) <= looked + gap ==> now <= looked + gap)
    {
      hide Consistent;
      b := LoadByte();
      Interrupts(looked + gap);
      StepIndex(b);
      StepCount();
    }

    /** `rxBuf.rdI = (rxBuf.rdI + 1) & 255`, and the interrupts after it. */
    method StepIndex(b: Byte)
      requires AtRest() && past.Counted() > 0
      requires !past.lost ==> b == past.heard[past.readPos]
      modifies this`past, this`timeSinceStart, this`now
      modifies buf.data, buf`wrI, buf`rdI, buf`pendingBytes, buf`overflow
      ensures Valid() && OnlyArrivals(Took(old(past), b), past)
      ensures past.clean ==> past.held == -1
      ensures old(now) <= now && (old(now) <= looked + gap ==> now <= looked + gap)
    {
      CleanIsExact(View(), past);
      hide Consistent;
      AdvanceKeeps(View(), past, b);
      buf.rdI := (buf.rdI + 1) % 256;
      past := Took(past, b);
      Interrupts(looked + gap);
    }

    /** `rxBuf.pendingBytes--`, and the interrupts after it. */
    method StepCount()
      requires Valid() && (past.clean ==> past.held == -1)
      modifies this`past, this`timeSinceStart, this`now
      modifies buf.data, buf`wrI, buf`pendingBytes, buf`overflow
      ensures Valid() && OnlyArrivals(old(past).(held := old(past).held + 1), past)
      ensures old(now) <= now && (old(now) <= looked + gap ==> now <= looked + gap)
    {
      hide Consistent;
      CountDownKeeps(View(), past);
      buf.pendingBytes := Wrap32(buf.pendingBytes - 1);
      past := past.(held := past.held + 1);
      Interrupts(looked + gap);
    }

    /** One round of a wait loop and the interrupts after it: it looks at the clock. The
        clock is fair: it ticks after finitely many rounds. So is the line towards a thread that
        may otherwise wait for ever: if it is `fed`, a byte arrives after finitely many rounds. */
    method WaitRound(fed: bool) returns (t: U32)
      requires Valid() && now <= looked + gap && gap > 0
      modifies this`past, this`timeSinceStart, this`now, this`looked, this`patience, this`hunger
      modifies buf.data, buf`wrI, buf`pendingBytes, buf`overflow
      ensures Valid() && OnlyArrivals(old(past), past)
      ensures t == Wrap32(looked) && old(now) <= looked <= old(looked) + gap
      ensures looked <= now <= looked + gap
      ensures now > old(now) || (now == old(now) == looked && (old(looked) < now || patience < old(patience)))
      ensures fed ==> buf.pendingBytes >= 1 || hunger < old(hunger)
    {
      hide Consistent, OnlyArrivals, Wrap32;
      var before := now;
      Interrupts(looked + gap);
      ghost var p1 := past;
      if now == before && now < looked + gap {
        if patience == 0 {
          SysTickHandler();
          var delay: nat :| true;
          patience := delay;
        } else {
          patience := patience - 1;
        }
      }
      t := CurTime();
      Interrupts(looked + gap);
      ghost var p2 := past;
      ArrivalsCompose(old(past), p1, p2);
      if fed && buf.pendingBytes < 1 {
        Feed();
        ArrivalsCompose(old(past), p2, past);
      }
    }

    method Feed()
      requires Valid() && buf.pendingBytes < 1
      modifies this`past, this`hunger, buf.data, buf`wrI, buf`pendingBytes, buf`overflow
      ensures Valid() && OnlyArrivals(old(past), past)
      ensures buf.pendingBytes >= 1 || hunger < old(hunger)
    {
      hide Consistent;
      if hunger == 0 {
        var b: Byte :| true;
        ArrivalKeeps(View(), past, b);
        RxIrqHandler(b);
        var delay: nat :| true;
        hunger := delay;
      } else {
        hunger := hunger - 1;
      }
    }

    /** One turn of the wait: the ring was found empty, and the clock is looked at. */
    method LookAgain(fed: bool, timeoutMs: U32, waitStart: U32, ghost origin: Past, ghost looks: seq<nat>)
      returns (timedOut: bool, ghost more: seq<nat>)
      requires AtRest() && OnlyArrivals(origin, past) && now <= looked + gap && gap > 0 && buf.pendingBytes < 1
      requires looks != [] && looks[0] <= looks[|looks| - 1] == looked && waitStart == Wrap32(looks[0])
      requires Waited(looks, gap, timeoutMs, false)
      modifies this`past, this`timeSinceStart, this`now, this`looked, this`patience, this`hunger
      modifies buf.data, buf`wrI, buf`pendingBytes, buf`overflow
      ensures AtRest() && OnlyArrivals(origin, past) && |old(past).heard| <= |past.heard|
      ensures origin.CountAt(|old(past).heard|) == 0 && |origin.heard| <= |old(past).heard|
      ensures more == looks + [looked] && Waited(more, gap, timeoutMs, timedOut)
      ensures old(now) <= looked <= old(looked) + gap && looked <= now <= looked + gap
      ensures now > old(now) || (now == old(now) == looked && (old(looked) < now || patience < old(patience)))
      ensures fed ==> buf.pendingBytes >= 1 || hunger < old(hunger)
      ensures buf.pendingBytes <= past.Counted()
      ensures timedOut ==> looked - looks[0] >= timeoutMs
      ensures !timedOut && looked - looks[0] < TWO_32 ==> looked - looks[0] < timeoutMs
    {
      CountSince(View(), origin, past);
      hide Consistent, Waited, Wrap32, Sub32, OnlyArrivals, Past.CountAt, Past.Counted;
      ghost var mid := past;
      var t := WaitRound(fed);
      ArrivalsCompose(origin, mid, past);
      ArrivalsThenRead(mid, past, past, 0);
      CountSince(View(), origin, past);
      ElapsedAcrossWrap(looks[0], looked);
      WaitedOn(looks, looked, gap, timeoutMs);
      more := looks + [looked];
      timedOut := Sub32(t, waitStart) >= timeoutMs;
    }

    /** The wait at the head of UartGetData: it ends with a byte to read, or once the timeout
        has really passed. It looks at the clock again only when it has found the ring empty, at
        last when `empty` bytes had been received. With looks so far apart that they may miss the
        timeout for ever, it is a byte that ends it. */
    method AwaitByte(timeoutMs: U32) returns (timedOut: bool, ghost looks: seq<nat>, ghost empty: nat)
      requires AtRest() && now <= looked + gap && gap > 0
      modifies this`past, this`timeSinceStart, this`now, this`looked, this`patience, this`hunger
      modifies buf.data, buf`wrI, buf`pendingBytes, buf`overflow
      ensures AtRest() && OnlyArrivals(old(past), past)
      ensures looks != [] && old(now) <= looks[0] <= old(looked) + gap && looks[|looks| - 1] == looked
      ensures Waited(looks, gap, timeoutMs, timedOut)
      ensures old(now) <= looked <= now <= looked + gap
      ensures timedOut ==> looked - old(now) >= timeoutMs
      ensures gap + timeoutMs <= TWO_32 ==> looked <= LatestLook(old(looked), timeoutMs) + if timedOut then gap else 0
      ensures !timedOut ==> past.Counted() > 0
      ensures |old(past).heard| <= empty <= |past.heard| && (timedOut ==> |looks| > 1)
      ensures |looks| > 1 ==> old(past).CountAt(empty) == 0
    {
      ghost var origin := past;
      var waitStart := WaitRound(false);
      ghost var begun := looked;
      var fed := gap + timeoutMs > TWO_32;
      timedOut := false;
      looks, empty := [begun], |past.heard|;
      WaitedOnce(looks, gap, timeoutMs);
      ArrivalsCompose(origin, origin, past);
      CountSince(View(), origin, past);
      hide Consistent, Waited, Wrap32, Sub32, OnlyArrivals, Past.CountAt, Past.Counted;
      while buf.pendingBytes < 1 && !timedOut
        invariant looks != [] && looks[0] == begun && looks[|looks| - 1] == looked
        invariant Waited(looks, gap, timeoutMs, timedOut)
        invariant AtRest() && OnlyArrivals(origin, past)
        invariant old(now) <= begun <= looked <= now <= looked + gap && begun <= old(looked) + gap
        invariant timedOut ==> looked - begun >= timeoutMs
        invariant !fed && !timedOut ==> looked - begun <= Before(timeoutMs)
        invariant !fed && timedOut ==> looked - begun <= Before(timeoutMs) + gap
        invariant buf.pendingBytes <= past.Counted() && |origin.heard| <= empty <= |past.heard|
        invariant (timedOut ==> |looks| > 1) && (|looks| > 1 ==> origin.CountAt(empty) == 0)
        decreases !timedOut, buf.pendingBytes < 1, if fed then hunger else begun + timeoutMs + 2 * gap - now,
                  now - looked, patience
      {
        empty := |past.heard|;
        timedOut, looks := LookAgain(fed, timeoutMs, waitStart, origin, looks);
      }
    }

    /** The last time at which a wait may look at the clock, and go on. */
    function LatestLook(from: nat, timeoutMs: U32): nat {
      from + gap + Before(timeoutMs)
    }

    /** `if (data_len > rxBuf.pendingBytes) { data_len = rxBuf.pendingBytes; }`. The count is
        read when `seen` bytes have been received, and perhaps once more at the end. */
    method ClampLength(dataLen: U32) returns (len: U32, ghost seen: nat)
      requires AtRest() && past.Counted() > 0
      modifies this`past, this`timeSinceStart, this`now
      modifies buf.data, buf`wrI, buf`pendingBytes, buf`overflow
      ensures AtRest() && OnlyArrivals(old(past), past)
      ensures old(now) <= now && (old(now) <= looked + gap ==> now <= looked + gap)
      ensures |old(past).heard| <= seen <= |past.heard| <= seen + burst
      ensures len == if dataLen > past.CountAt(seen) then past.CountAt(|past.heard|) else dataLen
      ensures past.Counted() >= len
      ensures past.Counted() < TWO_32 && dataLen > 0 ==> len > 0
    {
      hide Consistent;
      Interrupts(looked + gap);
      CountIsHonest(View(), past);
      len, seen := dataLen, |past.heard|;
      if len > buf.pendingBytes {
        Interrupts(looked + gap);
        CountIsHonest(View(), past);
        len := buf.pendingBytes;
      }
    }

    /** The read loop of UartGetData. C leaves stores past the end of the caller's array
        undefined; here they have no effect. */
    method MoveBytes(data: array<Byte>, start: nat, len: U32)
      requires AtRest() && past.Counted() >= len && data != buf.data
      modifies this`past, this`timeSinceStart, this`now, data
      modifies buf.data, buf`wrI, buf`rdI, buf`pendingBytes, buf`overflow
      ensures AtRest() && ReadOn(old(past), past, len)
      ensures old(now) <= now && (old(now) <= looked + gap ==> now <= looked + gap)
      ensures Stored(old(data[..]), data[..], start, past.taken[|old(past).taken|..])
    {
      hide Consistent;
      ghost var before, origin := data[..], past;
      var i: U32 := 0;
      while i < len
        invariant 0 <= i <= len
        invariant AtRest() && past.Counted() >= len - i && ReadOn(origin, past, i)
        invariant old(now) <= now && (old(now) <= looked + gap ==> now <= looked + gap)
        invariant Stored(before, data[..], start, past.taken[|origin.taken|..])
      {
        var b := TakeByte();
        if start + i < data.Length {
          data[start + i] := b;
        }
        i := i + 1;
      }
    }

    /** UartGetData: stores at `data[start..]`. */
    method UartGetData(data: array<Byte>, start: nat, dataLen: U32, timeoutMs: U32)
      returns (rc: U32, timedOut: bool, ghost seen: nat, ghost heard: nat, ghost looks: seq<nat>, ghost empty: nat)
      requires AtRest() && now <= looked + gap && data != buf.data && gap > 0
      modifies this`past, this`timeSinceStart, this`now, this`looked, this`patience, this`hunger, data
      modifies buf.data, buf`wrI, buf`rdI, buf`pendingBytes, buf`overflow
      ensures AtRest() && ReadOn(old(past), past, if timedOut then 0 else rc)
      ensures Stored(old(data[..]), data[..], start, past.taken[|old(past).taken|..])
      ensures looks != [] && old(now) <= looks[0] <= old(looked) + gap && looks[|looks| - 1] == looked
      ensures Waited(looks, gap, timeoutMs, timedOut)
      ensures old(now) <= looked <= now <= looked + gap
      ensures gap + timeoutMs <= TWO_32 ==> looked <= LatestLook(old(looked), timeoutMs) + if timedOut then gap else 0
      ensures timedOut ==> rc == 0xFFFF_FFFF && looked - old(now) >= timeoutMs && |looks| > 1
      ensures |old(past).heard| <= empty <= |past.heard| && (|looks| > 1 ==> old(past).CountAt(empty) == 0)
      ensures |old(past).heard| <= seen <= heard <= |past.heard| && heard <= seen + burst
      ensures !timedOut ==> rc == if dataLen > old(past).CountAt(seen) then old(past).CountAt(heard) else dataLen
      ensures !timedOut && dataLen > 0 && old(past).Counted() + |past.heard| - |old(past).heard| < TWO_32 ==> rc > 0
    {
      hide Consistent, Waited, Stored, ReadOn, OnlyArrivals, Wrap32;
      seen, heard := |past.heard|, |past.heard|;
      ghost var origin := past;
      timedOut, looks, empty := AwaitByte(timeoutMs);
      ghost var p1 := past;
      ArrivalsThenRead(origin, p1, p1, 0);
      StoredNothing(data[..], start, p1.taken[|origin.taken|..]);
      if timedOut {
        return 0xFFFF_FFFF, true, seen, heard, looks, empty;
      }
      rc, seen := ClampLength(dataLen);
      heard := |past.heard|;
      ghost var p2 := past;
      ArrivalsCompose(origin, p1, p2);
      Interrupts(looked + gap);
      ghost var p3 := past;
      ArrivalsCompose(origin, p2, p3);
      ArrivalsThenRead(p1, p2, p2, 0);
      ArrivalsThenRead(p2, p3, p3, 0);
      MoveBytes(data, start, rc);
      ArrivalsThenRead(origin, p3, past, rc);
    }

    /** `cur_time() - start`, and the interrupts after it. */
    method Since(start: U32, ghost began: nat) returns (interval: U32)
      requires Valid() && began <= looked && start == Wrap32(began) && now <= looked + gap
      modifies this`past, this`timeSinceStart, this`now, this`looked
      modifies buf.data, buf`wrI, buf`pendingBytes, buf`overflow
      ensures Valid() && OnlyArrivals(old(past), past)
      ensures old(looked) <= looked <= old(looked) + gap && looked <= now <= looked + gap
      ensures interval == Sub32(Wrap32(looked), start) && 0 <= interval <= looked - began
      ensures looked - began < TWO_32 ==> interval == looked - began
    {
      hide Consistent;
      ElapsedAcrossWrap(began, now);
      var t := CurTime();
      interval := Sub32(t, start);
      Interrupts(looked + gap);
    }

    /** One turn of the loop of SerialRecv, in which `n` bytes come. It looks at the clock at
        `head` and, unless that look ends the loop, in a wait. If it gets past the wait, `reading`
        says when the count was read. */
    method ReceiveRound(data: array<Byte>, total: U32, maxLen: U32, timeoutMs: U32, start: U32, ghost began: nat)
      returns (n: U32, ended: bool, over: bool, ghost waited: bool, ghost reading: Reading,
               ghost head: nat, ghost wait: seq<nat>, ghost empty: nat)
      requires AtRest() && data != buf.data && total < maxLen <= data.Length && gap > 0
      requires began <= looked <= now <= looked + gap && start == Wrap32(began)
      modifies this`past, this`timeSinceStart, this`now, this`looked, this`patience, this`hunger, data
      modifies buf.data, buf`wrI, buf`rdI, buf`pendingBytes, buf`overflow
      ensures AtRest() && ReadOn(old(past), past, n)
      ensures Stored(old(data[..]), data[..], total, past.taken[|old(past).taken|..])
      ensures over <==> n > maxLen - total
      ensures waited ==> n == 0 && ended
      ensures ended && old(past).Counted() + |past.heard| - |old(past).heard| < 0x8000_0000 ==> waited
      ensures reading.done == total && |old(past).heard| <= reading.seen <= reading.heard <= |past.heard|
      ensures reading.heard <= reading.seen + burst
      ensures !waited ==> n == Clamp(old(past), maxLen - total, reading.seen, reading.heard)
      ensures old(looked) <= looked <= now <= looked + gap && old(looked) <= head <= old(looked) + gap
      ensures |old(past).heard| <= empty <= |past.heard| && (waited && wait != [] ==> old(past).CountAt(empty) == 0)
      ensures wait == [] ==> waited && looked == head && Sub32(Wrap32(head), start) >= timeoutMs
      ensures wait != [] ==> TurnOf(began, head, wait, gap, timeoutMs, waited) && wait[|wait| - 1] == looked
      ensures 2 * gap + timeoutMs <= TWO_32 && old(looked) - began < timeoutMs + gap ==>
                looked - began < timeoutMs + if ended then 2 * gap else gap
      ensures !ended ==> n > 0
      ensures ended && old(past).Counted() + |past.heard| - |old(past).heard| < 0x8000_0000 ==>
                n == 0 && looked - began >= timeoutMs
    {
      hide Consistent, Waited, Stored, ReadOn, OnlyArrivals, TurnOf, Clamp, Wrap32, Sub32;
      n, ended, over, waited := 0, true, false, true;
      reading := Reading(total, |past.heard|, |past.heard|);
      ghost var origin := past;
      var interval := Since(start, began);
      ghost var mid := past;
      ArrivalsThenRead(origin, mid, mid, 0);
      StoredNothing(data[..], total, past.taken[|origin.taken|..]);
      head, wait, empty := looked, [], |past.heard|;
      if interval < timeoutMs {
        var rc, timedOut;
        ghost var seen, heard;
        rc, timedOut, seen, heard, wait, empty := UartGetData(data, total, Want(maxLen - total), timeoutMs - interval);
        ended := AsInt32(rc) <= 0;
        ArrivalsThenRead(origin, mid, past, if timedOut then 0 else rc);
        TurnMade(began, head, wait, gap, timeoutMs, timedOut);
        if !timedOut {
          ClampSame(origin, mid, maxLen - total, seen, heard);
          n, over, waited := rc, rc > maxLen - total, false;
          reading := Reading(total, seen, heard);
        }
      }
    }

    /** Why a receive that began at `began` has ended: either a look at the head of a turn noticed
        the timeout, or a wait ran out that had found the ring empty when `empty` bytes had been
        received. */
    ghost predicate EndedFor(late: bool, empty: nat, timeoutMs: U32, began: nat)
      reads this
    {
      if late then Sub32(Wrap32(looked), Wrap32(began)) >= timeoutMs
      else empty <= |past.heard| && past.CountAt(empty) == 0
    }

    /** The same turn, in a receive that began with the history `origin` and has stored `total`
        bytes over the buffer's contents `before`. */
    method ReceiveTurn(data: array<Byte>, total: U32, maxLen: U32, timeoutMs: U32, start: U32, ghost began: nat,
                       ghost before: seq<Byte>, ghost origin: Past, ghost rs: seq<Reading>)
      returns (n: U32, ended: bool, over: bool, ghost more: seq<Reading>, ghost late: bool, ghost empty: nat)
      requires AtRest() && data != buf.data && total < maxLen <= data.Length && gap > 0
      requires began <= looked <= now <= looked + gap && start == Wrap32(began)
      requires Received(before, data[..], origin, past, total, maxLen)
      requires Readings(origin, rs, maxLen, total, |past.heard|, burst)
      modifies this`past, this`timeSinceStart, this`now, this`looked, this`patience, this`hunger, data
      modifies buf.data, buf`wrI, buf`rdI, buf`pendingBytes, buf`overflow
      ensures AtRest() && Received(before, data[..], origin, past, total + n, maxLen)
      ensures Readings(origin, more, maxLen, total + n, |past.heard|, burst)
      ensures over <==> n > maxLen - total
      ensures old(looked) <= looked <= now <= looked + gap
      ensures 2 * gap + timeoutMs <= TWO_32 && old(looked) - began < timeoutMs + gap ==>
                looked - began < timeoutMs + if ended then 2 * gap else gap
      ensures !ended ==> n > 0
      ensures ended && origin.Counted() + |past.heard| - |origin.heard| < 0x8000_0000 ==>
                n == 0 && looked - began >= timeoutMs && EndedFor(late, empty, timeoutMs, began)
      ensures late ==> looked <= old(looked) + gap && ended
      ensures |origin.heard| <= empty
    {
      hide Consistent, Stored, Received, Readings, Clamp, TurnOf, Wrap32;
      ghost var partial, mid := data[..], past;
      ghost var waited, reading, head, wait;
      n, ended, over, waited, reading, head, wait, empty := ReceiveRound(data, total, maxLen, timeoutMs, start, began);
      ReceivedMore(before, partial, data[..], origin, mid, past, total, n, maxLen);
      ReadingsMore(origin, mid, past, rs, maxLen, total, waited, reading, n, burst);
      more := if waited then rs else rs + [reading];
      late := wait == [];
    }

    /** SerialRecv. `moved` counts the bytes that left the ring, and `rs` says when its calls
        read the count; `late` and `empty` say why it fell short. What is said about the result is
        for calls that have fewer than 2^31 bytes waiting: the driver converts its counts to int. */
    method SerialRecv(data: array<Byte>, maxLen: U32, timeoutMs: U32)
      returns (rc: int, ghost moved: nat, ghost rs: seq<Reading>, ghost late: bool, ghost empty: nat)
      requires AtRest() && data != buf.data && maxLen <= data.Length && gap > 0
      modifies this`past, this`timeSinceStart, this`now, this`looked, this`patience, this`hunger, data
      modifies buf.data, buf`wrI, buf`rdI, buf`pendingBytes, buf`overflow
      ensures AtRest() && ReadOn(old(past), past, moved)
      ensures Readings(old(past), rs, maxLen, moved, |past.heard|, burst)
      ensures burst <= 1 ==> moved <= maxLen
      ensures moved <= maxLen ==> Stored(old(data[..]), data[..], 0, past.taken[|old(past).taken|..])
      ensures moved <= maxLen && !past.lost ==> data[..moved] == past.heard[old(past).readPos..past.readPos]
      ensures old(past).Counted() + |past.heard| - |old(past).heard| < 0x8000_0000 && moved <= maxLen ==>
                && rc == moved
                && (moved < maxLen ==> looked - old(now) >= timeoutMs && EndedFor(late, empty, timeoutMs, old(now)))
                && (late && moved == 0 ==> looked <= old(now) + gap)
                && (!late && moved < maxLen ==>
                      |old(past).heard| <= empty && moved == old(past).Counted() + empty - |old(past).heard|)
                && (gap < timeoutMs && maxLen > 0 && old(past).Counted() > 0 ==> moved > 0)
      ensures old(now) <= looked <= now <= looked + gap
      ensures 2 * gap + timeoutMs <= TWO_32 ==> looked - old(now) < timeoutMs + 2 * gap
    {
      hide Consistent, Stored, Received, ReadOn, Readings;
      ghost var before, origin := data[..], past;
      ReadSoFar(View(), past);
      var start := CurTime();
      ghost var began := now;
      moved, rs, late, empty := 0, [], false, |past.heard|;
      Interrupts(looked + gap);
      ReceivedNothing(before, origin, past, maxLen);
      ReadingsAtFirst(origin, rs, maxLen, |past.heard|, burst);
      var total: U32 := 0;
      var over, ended := false, false;
      while !over && !ended && total < maxLen
        invariant AtRest() && Received(before, data[..], origin, past, moved, maxLen)
        invariant Readings(origin, rs, maxLen, moved, |past.heard|, burst)
        invariant over <==> moved > maxLen
        invariant old(now) == began <= looked <= now <= looked + gap
        invariant 2 * gap + timeoutMs <= TWO_32 ==> looked - began < timeoutMs + if ended then 2 * gap else gap
        invariant !over && !ended ==> total == moved
        invariant moved == 0 && !ended ==> looked == began
        invariant late && moved == 0 ==> looked <= began + gap
        invariant |origin.heard| <= empty && (!ended ==> !late || moved > 0)
        invariant origin.Counted() + |past.heard| - |origin.heard| < 0x8000_0000 && ended && !over ==>
                    total == moved && looked - began >= timeoutMs && EndedFor(late, empty, timeoutMs, began)
        decreases !over, !ended, maxLen - total
      {
        var n;
        n, ended, over, rs, late, empty :=
          ReceiveTurn(data, total, maxLen, timeoutMs, start, began, before, origin, rs);
        moved := moved + n;
        if !ended {
          total := Wrap32(total + n);
        }
      }
      InOrderAtFront(View(), before, data[..], origin, past, moved, maxLen);
      if burst <= 1 {
        OneArrivalFits(origin, rs, maxLen, moved, |past.heard|, burst);
      }
      if origin.Counted() + |past.heard| - |origin.heard| < 0x8000_0000 && moved <= maxLen {
        MovedFits(origin, past, moved);
        if moved < maxLen {
          ReceivedShort(origin, past, moved, late, empty, looked, began, timeoutMs, gap);
        }
      }
      rc := AsInt32(total);
    }

    /** `rxBuf.rdI = rxBuf.wrI`, and the `k` receive interrupts after it. */
    method FlushReadIndex() returns (ghost k: nat)
      requires Valid()
      modifies this`past, this`timeSinceStart, this`now
      modifies buf.data, buf`wrI, buf`rdI, buf`pendingBytes, buf`overflow
      ensures Valid() && OnlyArrivals(AfterFlushIndex(old(past)), past)
      ensures |past.heard| == |old(past).heard| + k
    {
      hide Consistent;
      FlushKeeps(View(), past);
      buf.rdI := buf.wrI;
      past := AfterFlushIndex(past);
      var d: nat :| true;
      Interrupts(d);
      k := |past.heard| - |old(past).heard|;
    }

    /** `rxBuf.pendingBytes = 0`, and the `m` receive interrupts after it. */
    method FlushPending() returns (ghost m: nat)
      requires Valid() && !past.clean
      modifies this`past, this`timeSinceStart, this`now
      modifies buf.data, buf`wrI, buf`pendingBytes, buf`overflow
      ensures Valid() && OnlyArrivals(AfterFlushCount(old(past)), past)
      ensures |past.heard| == |old(past).heard| + m
    {
      hide Consistent;
      FlushKeeps(View(), past);
      buf.pendingBytes := 0;
      past := AfterFlushCount(past);
      var d: nat :| true;
      Interrupts(d);
      m := |past.heard| - |old(past).heard|;
    }

    /** SerialFlushInputBuff, with `k` receive interrupts between its first two stores and
        `m` between the last two. */
    method SerialFlushInputBuff() returns (ghost k: nat, ghost m: nat)
      requires AtRest()
      modifies this`past, this`timeSinceStart, this`now
      modifies buf.data, buf`wrI, buf`rdI, buf`pendingBytes, buf`overflow
      ensures AtRest() && !buf.overflow
      ensures old(past).heard <= past.heard && |past.heard| == past.base + k + m
      ensures past.base == |old(past).heard| && past.readPos == past.base && past.taken == []
      ensures past.held == k
      ensures past.lost <==> k + m > CIRCULAR_BUF_SIZE
      ensures past.clean <==> k == 0 && m <= CIRCULAR_BUF_SIZE
    {
      hide Consistent;
      k := FlushReadIndex();
      m := FlushPending();
      FlushKeeps(View(), past);
      buf.overflow := false;
      past := AfterFlushFlag(past);
    }

    /** The thread does something else, with interrupts between its statements. */
    method Elsewhere()
      requires AtRest()
      modifies this`past, this`timeSinceStart, this`now
      modifies buf.data, buf`wrI, buf`pendingBytes, buf`overflow
      ensures AtRest() && OnlyArrivals(old(past), past)
    {
      hide Consistent;
      var n: nat :| true;
      while n > 0
        invariant AtRest() && OnlyArrivals(old(past), past)
      {
        ghost var mid := past;
        var d: nat :| true;
        Interrupts(d);
        ArrivalsCompose(old(past), mid, past);
        n := n - 1;
      }
    }

    /** A flush, disturbed by `k` and then `m` bytes, a command that is sent, and a receive of the
        answer, which begins when `asked` bytes have been received. As long as no byte is
        overwritten unread, the receive starts with the `k` bytes, and the reader stays that many
        bytes behind the count. It comes back with something if anything else has arrived. */
    method FlushAndRecv(data: array<Byte>, maxLen: U32, timeoutMs: U32)
      returns (rc: int, ghost k: nat, ghost m: nat, ghost asked: nat, ghost moved: nat)
      requires AtRest() && data != buf.data && maxLen <= data.Length && gap > 0
      modifies this`past, this`timeSinceStart, this`now, this`looked, this`patience, this`hunger, data
      modifies buf.data, buf`wrI, buf`rdI, buf`pendingBytes, buf`overflow
      ensures AtRest() && old(past).heard <= past.heard && |old(past).heard| + k + m <= |past.heard|
      ensures |past.heard| - |old(past).heard| <= CIRCULAR_BUF_SIZE ==> !past.lost
      ensures !past.lost ==>
        && past.readPos == |old(past).heard| + moved
        && |past.heard| - past.readPos == buf.pendingBytes + k
        && (moved <= maxLen ==> data[..moved] == past.heard[|old(past).heard|..past.readPos])
      ensures |old(past).heard| + k + m <= asked <= |past.heard|
      ensures (|past.heard| - |old(past).heard| < 0x8000_0000 && gap < timeoutMs && maxLen > 0
               && asked > |old(past).heard| + k) ==> moved > 0
    {
      k, m := SerialFlushInputBuff();
      hide Consistent, Readings, Stored;
      Elsewhere();
      asked := |past.heard|;
      ghost var rs, late, empty;
      rc, moved, rs, late, empty := SerialRecv(data, maxLen, timeoutMs);
      if !past.lost {
        HeldBack(View(), past);
      }
    }
  }
}
