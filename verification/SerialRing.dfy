/** The 256-byte ring that the UART driver keeps for each direction. */
module SerialRing {
  import opened Words

  const CIRCULAR_BUF_SIZE: nat := 256

  /** The position that a stream index has in the ring. */
  function Cell(k: nat): (c: nat)
    ensures c < CIRCULAR_BUF_SIZE
  {
    k % 256
  }

  /** Two stream indices less than one lap apart never share a cell. */
  lemma CellsDiffer(a: nat, b: nat)
    requires a < b < a + CIRCULAR_BUF_SIZE
    ensures Cell(a) != Cell(b)
  {
  }

  lemma CellSucc(k: nat)
    ensures Cell(k + 1) == (Cell(k) + 1) % 256
  {
  }

  /** The cells hold the stream's bytes from index `from` on. */
  ghost predicate Queued(cells: seq<Byte>, from: nat, stream: seq<Byte>)
    requires |cells| == CIRCULAR_BUF_SIZE
  {
    forall k :: from <= k < |stream| ==> cells[Cell(k)] == stream[k]
  }

  /** While the ring is not full, the cell after the newest byte is free: filling it in
      disturbs nothing that is queued, and extends the stream. */
  lemma FreeCell(cells: seq<Byte>, from: nat, stream: seq<Byte>, b: Byte)
    requires |cells| == CIRCULAR_BUF_SIZE && from <= |stream| < from + CIRCULAR_BUF_SIZE
    requires Queued(cells, from, stream)
    ensures Queued(cells[Cell(|stream|) := b], from, stream)
    ensures Queued(cells[Cell(|stream|) := b], from, stream + [b])
  {
    forall k | from <= k < |stream|
      ensures Cell(k) != Cell(|stream|)
    {
      CellsDiffer(k, |stream|);
    }
    hide Cell;
  }

  /** What is taken from the front of the queue leaves the rest queued. */
  lemma StillQueued(cells: seq<Byte>, from: nat, later: nat, stream: seq<Byte>)
    requires |cells| == CIRCULAR_BUF_SIZE && from <= later && Queued(cells, from, stream)
    ensures Queued(cells, later, stream)
  {
  }

  class CircularBuf {
    const data: array<Byte>
    var rdI: U32
    var wrI: U32
    var pendingBytes: U32
    var overflow: bool

    constructor ()
      ensures fresh(data) && data.Length == CIRCULAR_BUF_SIZE
      ensures forall i :: 0 <= i < CIRCULAR_BUF_SIZE ==> data[i] == 0
      ensures rdI == wrI == pendingBytes == 0 && !overflow
    {
      data := new Byte[CIRCULAR_BUF_SIZE](_ => 0);
      rdI, wrI, pendingBytes, overflow := 0, 0, 0, false;
    }
  }
}
