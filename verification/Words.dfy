/** The machine integers of the firmware: bytes, and 32-bit unsigned words that wrap. */
module Words {

  type Byte = b: int | 0 <= b < 256

  const TWO_32: nat := 0x1_0000_0000

  type U32 = x: nat | x < 0x1_0000_0000

  function Wrap32(n: int): U32 {
    n % 0x1_0000_0000
  }

  /** Real times, as the wrapping clock shows them. */
  function Wrapped(ts: seq<nat>): (us: seq<U32>)
    ensures |us| == |ts|
  {
    seq(|ts|, i requires 0 <= i < |ts| => Wrap32(ts[i]))
  }

  /** Times that lie in order between `from` and `to`. */
  predicate InOrder(ts: seq<nat>, from: nat, to: nat) {
    && from <= to
    && (forall i :: 0 <= i < |ts| ==> from <= ts[i] <= to)
    && (forall i, j :: 0 <= i < j < |ts| ==> ts[i] <= ts[j])
  }

  /** Counting up or down by one commutes with wrapping. */
  lemma WrappedCount(n: int)
    ensures Wrap32(Wrap32(n) + 1) == Wrap32(n + 1)
    ensures Wrap32(Wrap32(n) - 1) == Wrap32(n - 1)
    ensures Wrap32(n + 1) <= Wrap32(n) + 1
    ensures 0 <= n < TWO_32 ==> Wrap32(n) == n
  {
    var k := n / 0x1_0000_0000;
    assert n == 0x1_0000_0000 * k + Wrap32(n);
    SameWord(n + 1, Wrap32(n) + 1, k);
    SameWord(n - 1, Wrap32(n) - 1, k);
    Small(Wrap32(n) + 1);
    if 0 <= n {
      Small(n);
    }
    hide Wrap32;
  }

  /** Numbers a multiple of 2^32 apart are the same word. */
  lemma SameWord(a: int, b: int, k: int)
    requires a == 0x1_0000_0000 * k + b
    ensures Wrap32(a) == Wrap32(b)
  {
  }

  lemma Small(n: nat)
    ensures Wrap32(n) <= n
    ensures n < TWO_32 ==> Wrap32(n) == n
  {
  }

  /** `a - b` on uint32_t operands. */
  function Sub32(a: U32, b: U32): U32 {
    Wrap32(a - b)
  }

  /** The conversion of a uint32_t to int. */
  function AsInt32(x: U32): (n: int)
    ensures -0x8000_0000 <= n < 0x8000_0000 && Wrap32(n) == x
    ensures x < 0x8000_0000 ==> n == x
  {
    if x < 0x8000_0000 then x else x - 0x1_0000_0000
  }

  /** Clock differences survive any number of wraps of the 32-bit millisecond counter:
      the difference of two readings is the real difference modulo 2^32. */
  lemma ElapsedAcrossWrap(start: nat, now: nat)
    requires start <= now
    ensures Sub32(Wrap32(now), Wrap32(start)) == Wrap32(now - start)
    ensures Wrap32(now - start) <= now - start
    ensures now - start < TWO_32 ==> Wrap32(now - start) == now - start
  {
    var s, n := start / 0x1_0000_0000, now / 0x1_0000_0000;
    assert start == 0x1_0000_0000 * s + Wrap32(start) && now == 0x1_0000_0000 * n + Wrap32(now);
    SameWord(now - start, Wrap32(now) - Wrap32(start), n - s);
    Small(now - start);
    hide Wrap32;
  }

  lemma Elapsed(start: nat, now: nat)
    requires start <= now < start + TWO_32
    ensures Sub32(Wrap32(now), Wrap32(start)) == now - start
  {
    ElapsedAcrossWrap(start, now);
  }
}
