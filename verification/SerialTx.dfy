/**
 The transmit half of the UART driver.

 Every statement of the driver's thread is one step. Between any two of them `Interrupts`
 runs the transmit interrupt handler any number of times, so what is proved here holds for
 every interleaving. Incrementing or decrementing `pendingBytes` is taken to be one step.
 */
module SerialTx {
  import opened Words
  import opened SerialRing

  lemma Chunks(before: seq<Byte>, src: seq<Byte>, data: seq<Byte>, start: nat, n: nat)
    requires start + n <= |src| <= |data| && src == data[..|src|]
    ensures before + src[..start] + data[start..start + n] == before + src[..start + n]
  {
  }

  class TxLine {
    const buf: CircularBuf
    /** The TXBL interrupt is enabled. */
    var txbl: bool
    /** What the thread has put in the ring, and the part that has been transmitted. */
    ghost var accepted: seq<Byte>
    ghost var wire: seq<Byte>
    /** How many more rounds of a wait loop an enabled interrupt may be delayed. */
    var patience: nat

    /** Holds at every step: the ring holds exactly the accepted bytes that are not on the
        wire, in order, and never more than fit. */
    ghost predicate Valid()
      reads this, buf, buf.data
    {
      && buf.data.Length == CIRCULAR_BUF_SIZE
      && |accepted| == |wire| + buf.pendingBytes
      && buf.pendingBytes <= CIRCULAR_BUF_SIZE
      && wire == accepted[..|wire|]
      && buf.rdI == Cell(|wire|)
      && Queued(buf.data[..], |wire|, accepted)
    }

    /** Holds whenever the thread is not filling the ring: nothing can be left behind,
        because the interrupt that empties the ring is on. */
    ghost predicate Settled()
      reads this, buf, buf.data
    {
      && Valid()
      && buf.wrI == Cell(|accepted|)
      && (buf.pendingBytes > 0 ==> txbl)
    }

    /** What the ring still holds. */
    ghost function Unsent(): seq<Byte>
      requires Valid()
      reads this, buf, buf.data
    {
      accepted[|wire|..]
    }

    constructor ()
      ensures Settled() && fresh(buf) && fresh(buf.data)
      ensures accepted == wire == [] && !txbl
    {
      buf := new CircularBuf();
      txbl := false;
      accepted, wire, patience := [], [], 0;
    }

    /** USART0_TX_IRQHandler. `ready` is the TXBL bit of the status register. */
    method TxIrqHandler(ready: bool)
      requires Valid() && txbl
      modifies this`txbl, this`wire, buf`rdI, buf`pendingBytes
      ensures Valid()
      ensures wire == if ready && old(wire) != accepted then accepted[..|old(wire)| + 1] else old(wire)
      ensures txbl == (ready ==> wire != accepted)
    {
      if ready {
        if buf.pendingBytes > 0 {
          CellSucc(|wire|);
          wire := wire + [buf.data[buf.rdI]];
          buf.rdI := (buf.rdI + 1) % 256;
          buf.pendingBytes := buf.pendingBytes - 1;
        }
        if buf.pendingBytes == 0 {
          txbl := false;
        }
      }
    }

    /** Whatever the interrupt handler does between two statements of the thread. */
    method Interrupts()
      requires Valid()
      modifies this`txbl, this`wire, buf`rdI, buf`pendingBytes
      ensures Valid()
      ensures |old(wire)| <= |wire|
      ensures buf.pendingBytes > 0 ==> txbl == old(txbl)
    {
      var n: nat :| true;
      while n > 0
        invariant Valid()
        invariant |old(wire)| <= |wire|
        invariant buf.pendingBytes > 0 ==> txbl == old(txbl)
      {
        if txbl {
          var ready := *;
          TxIrqHandler(ready);
        }
        n := n - 1;
      }
    }

    /** One round of an empty wait loop. Interrupts are fair: one that is enabled is served,
        with the transmitter ready, after finitely many rounds. Nothing is promised to a
        thread that waits with the interrupt off or with nothing to send. */
    method WaitRound()
      requires Valid() && txbl && buf.pendingBytes > 0
      modifies this`txbl, this`wire, this`patience, buf`rdI, buf`pendingBytes
      ensures Valid()
      ensures |old(wire)| <= |wire|
      ensures buf.pendingBytes > 0 ==> txbl
      ensures buf.pendingBytes < old(buf.pendingBytes)
           || (buf.pendingBytes == old(buf.pendingBytes) && patience < old(patience))
    {
      var before := buf.pendingBytes;
      Interrupts();
      if buf.pendingBytes == before {
        var served: bool := *;
        if served || patience == 0 {
          TxIrqHandler(true);
          var delay: nat :| true;
          patience := delay;
        } else {
          patience := patience - 1;
        }
      }
    }

    /** The body of the fill loop. The interrupt handler may run, and may even turn itself
        off, between the store, the index and the count. */
    method PutByte(b: Byte)
      requires Valid() && buf.pendingBytes < CIRCULAR_BUF_SIZE && buf.wrI == Cell(|accepted|)
      modifies this`txbl, this`wire, this`accepted, buf.data, buf`rdI, buf`wrI, buf`pendingBytes
      ensures Valid() && buf.wrI == Cell(|accepted|)
      ensures accepted == old(accepted) + [b] && |old(wire)| <= |wire|
      ensures buf.pendingBytes <= old(buf.pendingBytes) + 1
    {
      hide Queued, Cell;
      FreeCell(buf.data[..], |wire|, accepted, b);
      ghost var sent := |wire|;
      buf.data[buf.wrI] := b;
      Interrupts();
      CellSucc(|accepted|);
      buf.wrI := (buf.wrI + 1) % 256;
      Interrupts();
      StillQueued(buf.data[..], sent, |wire|, accepted + [b]);
      accepted := accepted + [b];
      buf.pendingBytes := buf.pendingBytes + 1;
      Interrupts();
    }

    /** The wait at the head of UartPutData. Whenever its condition holds, the ring is not
        empty and its interrupt is enabled, so the wait ends. */
    method AwaitRoom(dataLen: U32)
      requires Settled() && dataLen <= CIRCULAR_BUF_SIZE
      modifies this`txbl, this`wire, this`patience, buf`rdI, buf`pendingBytes
      ensures Settled() && buf.pendingBytes + dataLen <= CIRCULAR_BUF_SIZE
      ensures |old(wire)| <= |wire|
    {
      Interrupts();
      if buf.pendingBytes + dataLen > CIRCULAR_BUF_SIZE {
        Interrupts();
        while buf.pendingBytes + dataLen > CIRCULAR_BUF_SIZE
          invariant Settled() && |old(wire)| <= |wire|
          decreases buf.pendingBytes, patience
        {
          WaitRound();
        }
        Interrupts();
      }
    }

    /** UartPutData: queues `data[start..start + dataLen]`. */
    method UartPutData(data: array<Byte>, start: nat, dataLen: U32)
      requires Settled()
      requires start + dataLen <= data.Length && data != buf.data
      modifies this`txbl, this`wire, this`accepted, this`patience, buf.data
      modifies buf`rdI, buf`wrI, buf`pendingBytes
      ensures Settled()
      ensures |old(wire)| <= |wire|
      ensures accepted == old(accepted) + if dataLen > CIRCULAR_BUF_SIZE then [] else data[start..start + dataLen]
    {
      if dataLen > CIRCULAR_BUF_SIZE {
        return;
      }
      AwaitRoom(dataLen);
      Fill(data, start, dataLen);
      txbl := true;
      Interrupts();
    }

    /** The fill loop of UartPutData. */
    method Fill(data: array<Byte>, start: nat, dataLen: U32)
      requires Valid() && buf.wrI == Cell(|accepted|)
      requires buf.pendingBytes + dataLen <= CIRCULAR_BUF_SIZE
      requires start + dataLen <= data.Length && data != buf.data
      modifies this`txbl, this`wire, this`accepted, buf.data, buf`rdI, buf`wrI, buf`pendingBytes
      ensures Valid() && buf.wrI == Cell(|accepted|)
      ensures |old(wire)| <= |wire|
      ensures accepted == old(accepted) + data[start..start + dataLen]
    {
      ghost var src := data[start..start + dataLen];
      var i: U32 := 0;
      while i < dataLen
        invariant 0 <= i <= dataLen
        invariant Valid() && buf.wrI == Cell(|accepted|)
        invariant buf.pendingBytes + (dataLen - i) <= CIRCULAR_BUF_SIZE
        invariant accepted == old(accepted) + src[..i]
        invariant |old(wire)| <= |wire|
      {
        PutByte(data[start + i]);
        assert src[..i + 1] == src[..i] + [data[start + i]];
        i := i + 1;
      }
      assert src[..dataLen] == src;
    }

    /** SerialSend: when it returns, everything queued before has been transmitted, then
        `data[..size]`, and nothing else; the ring is empty. */
    method SerialSend(data: array<Byte>, size: U32) returns (rc: int)
      requires Settled()
      requires size <= data.Length && data != buf.data
      modifies this`txbl, this`wire, this`accepted, this`patience, buf.data
      modifies buf`rdI, buf`wrI, buf`pendingBytes
      ensures Settled() && buf.pendingBytes == 0 && Unsent() == []
      ensures wire == old(wire) + old(Unsent()) + data[..size]
      ensures rc == AsInt32(size) && (size < 0x8000_0000 ==> rc == size)
    {
      var remainSize := size;
      var start: nat := 0;
      ghost var src, before := data[..size], accepted;
      assert before == wire + Unsent();
      while remainSize > 0
        invariant 0 <= start <= size && start + remainSize == size
        invariant Settled()
        invariant accepted == before + src[..start]
      {
        var readSize := remainSize;
        if readSize > CIRCULAR_BUF_SIZE {
          readSize := CIRCULAR_BUF_SIZE;
        }
        remainSize := remainSize - readSize;
        Interrupts();
        UartPutData(data, start, readSize);
        Chunks(before, src, data[..], start, readSize);
        start := start + readSize;
      }
      Drain();
      assert src[..start] == src;
      rc := AsInt32(size);
    }

    /** The wait at the end of SerialSend. */
    method Drain()
      requires Settled()
      modifies this`txbl, this`wire, this`patience, buf`rdI, buf`pendingBytes
      ensures Settled() && buf.pendingBytes == 0 && wire == accepted
    {
      Interrupts();
      while buf.pendingBytes > 0
        invariant Settled()
        decreases buf.pendingBytes, patience
      {
        WaitRound();
      }
      Interrupts();
    }
  }
}
