/** Byte arrays: little-endian words, and writing one stretch over another. */
module Bytes {
  function ToByte(n: nat): bv8
    requires n < 0x100
  {
    n as bv8
  }

  function Value(b: bv8): (n: nat)
    ensures n < 0x100
  {
    b as nat
  }

  function Next(b: bv8): bv8 { b + 1 }

  lemma NextValue(b: bv8)
    ensures b != 0xff ==> Value(Next(b)) == Value(b) + 1
    ensures b == 0xff ==> Value(b) == 255
  {}

  lemma ValueBack(b: bv8)
    ensures ToByte(Value(b)) == b
  {}

  lemma ZeroByte()
    ensures Value(ToByte(0)) == 0
  {}

  lemma {:induction false} ByteRoundTrip(n: nat)
    requires n < 0x100
    ensures Value(ToByte(n)) == n
    decreases n
  {
    hide ToByte, Value, Next;
    if n == 0 {
      ZeroByte();
    } else {
      ByteRoundTrip(n - 1);
      NextValue(ToByte(n - 1));
      ValueBack(Next(ToByte(n - 1)));
    }
  }

  function Le32(b: seq<bv8>): (n: nat)
    requires |b| == 4
    ensures n < 0x1_0000_0000
  {
    Value(b[0]) + 0x100 * Value(b[1]) + 0x1_0000 * Value(b[2]) + 0x100_0000 * Value(b[3])
  }

  function LeBytes(n: nat): (b: seq<bv8>)
    requires n < 0x1_0000_0000
    ensures |b| == 4
  {
    var n1 := n / 0x100;
    var n2 := n1 / 0x100;
    [ToByte(n % 0x100), ToByte(n1 % 0x100), ToByte(n2 % 0x100), ToByte(n2 / 0x100)]
  }

  lemma LeRoundTrip(n: nat)
    requires n < 0x1_0000_0000
    ensures Le32(LeBytes(n)) == n
  {
    hide ToByte, Value;
    var n1 := n / 0x100;
    var n2 := n1 / 0x100;
    ByteRoundTrip(n % 0x100);
    ByteRoundTrip(n1 % 0x100);
    ByteRoundTrip(n2 % 0x100);
    ByteRoundTrip(n2 / 0x100);
  }

  lemma ValueInjective(a: bv8, b: bv8)
    requires Value(a) == Value(b)
    ensures a == b
  {
    assert ToByte(Value(a)) == a && ToByte(Value(b)) == b;
  }

  function Overwrite(cells: seq<bv8>, at: nat, bytes: seq<bv8>): (r: seq<bv8>)
    requires at + |bytes| <= |cells|
    ensures |r| == |cells| && r[at..at + |bytes|] == bytes
    ensures r[..at] == cells[..at]
  {
    cells[..at] + bytes + cells[at + |bytes|..]
  }

  lemma OverwriteAt(cells: seq<bv8>, at: nat, bytes: seq<bv8>, k: nat)
    requires at + |bytes| <= |cells| && k < |cells|
    ensures Overwrite(cells, at, bytes)[k] == if at <= k < at + |bytes| then bytes[k - at] else cells[k]
  {}

  /** The first byte of a word weighs least. */
  lemma LowByteFirst(b: seq<bv8>)
    requires |b| == 4
    ensures Le32(b) % 0x100 == Value(b[0]) && Le32(b) / 0x100 % 0x100 == Value(b[1])
    ensures Le32(b) / 0x100 / 0x100 % 0x100 == Value(b[2]) && Le32(b) / 0x100 / 0x100 / 0x100 == Value(b[3])
  {
    hide Value;
    var upper := Value(b[2]) + 0x100 * Value(b[3]);
    LowDigit(Value(b[0]), Value(b[1]) + 0x100 * upper);
    LowDigit(Value(b[1]), upper);
    LowDigit(Value(b[2]), Value(b[3]));
  }

  lemma LowDigit(low: nat, high: nat)
    requires low < 0x100
    ensures (low + 0x100 * high) % 0x100 == low && (low + 0x100 * high) / 0x100 == high
  {}
}
