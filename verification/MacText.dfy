/** The text in which a Bluetooth address travels: six hexadecimal pairs, last byte first. */
module MacText {
  import opened Words

  type Address = a: seq<Byte> | |a| == 6 witness [0, 0, 0, 0, 0, 0]

  function HexDigit(n: nat): (c: char)
    requires n < 16
  {
    if n < 10 then (48 + n) as char else (55 + n) as char
  }

  lemma HexDigits(n: nat)
    requires n < 16
    ensures HexDigit(n) == "0123456789ABCDEF"[n]
  {
  }

  /** `%02X` */
  function HexPair(b: Byte): (s: string)
    ensures |s| == 2
  {
    [HexDigit(b / 16), HexDigit(b % 16)]
  }

  /** `"%02X:%02X:%02X:%02X:%02X:%02X"` of the bytes 5 down to 0. */
  function FormatMac(a: Address): (s: string)
    ensures |s| == 17
  {
    FormatBytes(a)
  }

  function FormatBytes(a: seq<Byte>): (s: string)
    requires a != []
    ensures |s| == 3 * |a| - 1
  {
    var n := |a| - 1;
    if n == 0 then HexPair(a[0]) else HexPair(a[n]) + ":" + FormatBytes(a[..n])
  }

  function DigitValue(c: char): nat {
    if '0' <= c <= '9' then c as nat - '0' as nat
    else if 'A' <= c <= 'F' then c as nat - 'A' as nat + 10
    else 0
  }

  function PairValue(s: string): Byte
    requires |s| == 2
  {
    (16 * DigitValue(s[0]) + DigitValue(s[1])) % 256
  }

  /** The address that a 17-character text stands for. */
  function ParseMac(s: string): Address
    requires |s| == 17
  {
    ParseBytes(s, 6)
  }

  function ParseBytes(s: string, n: nat): (a: seq<Byte>)
    requires n > 0 && |s| == 3 * n - 1
    ensures |a| == n
  {
    if n == 1 then [PairValue(s)] else ParseBytes(s[3..], n - 1) + [PairValue(s[..2])]
  }

  lemma PairRoundTrip(b: Byte)
    ensures PairValue(HexPair(b)) == b
  {
  }

  lemma {:induction false} BytesRoundTrip(a: seq<Byte>)
    requires a != []
    ensures ParseBytes(FormatBytes(a), |a|) == a
  {
    var n := |a| - 1;
    PairRoundTrip(a[n]);
    if n > 0 {
      BytesRoundTrip(a[..n]);
      assert FormatBytes(a)[..2] == HexPair(a[n]);
      assert FormatBytes(a)[3..] == FormatBytes(a[..n]);
    }
  }

  /** Distinct addresses have distinct texts, because the text gives the address back. */
  lemma MacRoundTrip(a: Address)
    ensures ParseMac(FormatMac(a)) == a
  {
    BytesRoundTrip(a);
  }

  /** Colons between the bytes, last byte first, each as its two digits. */
  lemma {:induction false} MacLayout(a: seq<Byte>, k: nat)
    requires k < 3 * |a| - 1
    ensures var s, b := FormatBytes(a), a[|a| - 1 - k / 3];
      s[k] == if k % 3 == 2 then ':' else "0123456789ABCDEF"[if k % 3 == 0 then b / 16 else b % 16]
  {
    var n := |a| - 1;
    HexDigits(a[n] / 16);
    HexDigits(a[n] % 16);
    if k >= 3 {
      hide HexDigit;
      MacLayout(a[..n], k - 3);
      assert FormatBytes(a)[k] == FormatBytes(a[..n])[k - 3];
    }
  }

  /** The characters of a MAC text. */
  predicate IsMacChar(c: char) {
    '0' <= c <= '9' || 'A' <= c <= 'F' || c == ':'
  }

  lemma {:induction false} MacCharacters(a: seq<Byte>)
    requires a != []
    ensures forall c :: c in FormatBytes(a) ==> IsMacChar(c)
  {
    var n := |a| - 1;
    assert IsMacChar(HexDigit(a[n] / 16)) && IsMacChar(HexDigit(a[n] % 16));
    if n > 0 {
      MacCharacters(a[..n]);
    }
  }
}
