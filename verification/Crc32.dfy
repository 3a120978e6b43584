/** The reflected CRC-32 register of the UART firmware update: the shift-and-mask
    loop, its linearity, its inverse, and the bursts it cannot miss. */
module Crc32 {

  const POLY: bv32 := 0xedb88320

  // The word operations that the algebra below treats as symbols.
  function Complement(c: bv32): bv32 { !c }

  function Xor(a: bv32, b: bv32): bv32 { a ^ b }

  function Wide(b: bv8): bv32 { b as bv32 }

  /** One turn of the inner loop: shift right, then XOR the polynomial under a
      mask that is all ones exactly when the bit shifted out was one. */
  function Step(c: bv32): bv32 {
    (c >> 1) ^ (POLY & (0 - (c & 1)))
  }

  function Step8(c: bv32): bv32 {
    Step(Step(Step(Step(Step(Step(Step(Step(c))))))))
  }

  function Feed(c: bv32, b: bv8): bv32 {
    Step8(Xor(c, Wide(b)))
  }

  function Crc(c: bv32, bytes: seq<bv8>): bv32
    decreases bytes
  {
    if bytes == [] then c else Crc(Feed(c, bytes[0]), bytes[1..])
  }

  /** The complemented CRC that a BEGIN line declares for its image. */
  function ImageCrc(bytes: seq<bv8>): bv32 {
    Complement(Crc(0xffffffff, bytes))
  }

  method CrcUpdate(crc: bv32, bytes: seq<bv8>) returns (r: bv32)
    ensures r == Crc(crc, bytes)
  {
    hide Feed;
    r := crc;
    for i := 0 to |bytes|
      invariant Crc(r, bytes[i..]) == Crc(crc, bytes)
    {
      assert bytes[i..][1..] == bytes[i + 1..];
      ghost var before := r;
      r := r ^ (bytes[i] as bv32);
      ghost var entry := r;
      for k := 0 to 8
        invariant StepN(entry, k) == r
      {
        r := (r >> 1) ^ (POLY & (0 - (r & 1)));
      }
      FeedTurns(before, bytes[i]);
    }
  }

  function StepN(c: bv32, n: nat): bv32 {
    if n == 0 then c else Step(StepN(c, n - 1))
  }

  lemma StepNEight(c: bv32)
    ensures StepN(c, 8) == Step8(c)
  {
    hide Step;
    assert StepN(c, 1) == Step(c);
    assert StepN(c, 3) == Step(Step(StepN(c, 1)));
    assert StepN(c, 5) == Step(Step(StepN(c, 3)));
    assert StepN(c, 7) == Step(Step(StepN(c, 5)));
  }

  /** Eight turns of the inner loop after the XOR feed one byte. */
  lemma FeedTurns(c: bv32, b: bv8)
    ensures StepN(c ^ (b as bv32), 8) == Feed(c, b)
  {
    hide Step, StepN, Step8;
    StepNEight(Xor(c, Wide(b)));
  }

  /** Reading an image back in pieces gives the CRC of the whole image. */
  lemma {:induction false} CrcConcat(c: bv32, a: seq<bv8>, b: seq<bv8>)
    ensures Crc(c, a + b) == Crc(Crc(c, a), b)
    decreases a
  {
    hide Feed;
    if a == [] {
      assert a + b == b;
    } else {
      assert (a + b)[1..] == a[1..] + b;
      CrcConcat(Feed(c, a[0]), a[1..], b);
    }
  }

  // ---- Linearity over GF(2) ----

  predicate Odd(c: bv32) { c & 1 == 1 }

  lemma MaskZero(p: bv32, x: bv32)
    ensures x ^ (p & (0 - 0)) == x
  {}

  lemma MaskOnes(p: bv32, x: bv32)
    ensures x ^ (p & (0 - 1)) == x ^ p
  {}

  lemma StepCases(c: bv32)
    ensures Odd(c) ==> Step(c) == (c >> 1) ^ POLY
    ensures !Odd(c) ==> Step(c) == c >> 1
  {
    assert c & 1 == 0 || c & 1 == 1;
    if c & 1 == 0 { MaskZero(POLY, c >> 1); } else { MaskOnes(POLY, c >> 1); }
  }

  lemma OddXor(a: bv32, b: bv32)
    ensures Odd(a ^ b) == (Odd(a) != Odd(b))
  {
    if a & 1 == 1 { if b & 1 == 1 {} else {} } else { if b & 1 == 1 {} else {} }
  }

  lemma ShiftXor(a: bv32, b: bv32)
    ensures (a ^ b) >> 1 == (a >> 1) ^ (b >> 1)
  {}

  lemma XorCancel(a: bv32, b: bv32, p: bv32)
    ensures (a ^ p) ^ (b ^ p) == a ^ b
  {}

  lemma XorLeft(a: bv32, b: bv32, p: bv32)
    ensures (a ^ p) ^ b == (a ^ b) ^ p
  {}

  lemma XorRight(a: bv32, b: bv32, p: bv32)
    ensures a ^ (b ^ p) == (a ^ b) ^ p
  {}

  lemma StepLinear(a: bv32, b: bv32)
    ensures Step(Xor(a, b)) == Xor(Step(a), Step(b))
  {
    StepCases(a); StepCases(b); StepCases(a ^ b);
    OddXor(a, b); ShiftXor(a, b);
    if Odd(a) && Odd(b) { XorCancel(a >> 1, b >> 1, POLY); }
    else if Odd(a) { XorLeft(a >> 1, b >> 1, POLY); }
    else if Odd(b) { XorRight(a >> 1, b >> 1, POLY); }
  }

  lemma Step8Linear(a: bv32, b: bv32)
    ensures Step8(Xor(a, b)) == Xor(Step8(a), Step8(b))
  {
    hide Step, Xor;
    var x, y := a, b;
    StepLinear(x, y); x, y := Step(x), Step(y);
    StepLinear(x, y); x, y := Step(x), Step(y);
    StepLinear(x, y); x, y := Step(x), Step(y);
    StepLinear(x, y); x, y := Step(x), Step(y);
    StepLinear(x, y); x, y := Step(x), Step(y);
    StepLinear(x, y); x, y := Step(x), Step(y);
    StepLinear(x, y); x, y := Step(x), Step(y);
    StepLinear(x, y);
  }

  function XorBytes(a: seq<bv8>, b: seq<bv8>): (r: seq<bv8>)
    requires |a| == |b|
    ensures |r| == |a|
  {
    seq(|a|, i requires 0 <= i < |a| => a[i] ^ b[i])
  }

  lemma XorExchange(c: bv32, d: bv32, x: bv8, y: bv8)
    ensures Xor(Xor(c, d), Wide(x ^ y)) == Xor(Xor(c, Wide(x)), Xor(d, Wide(y)))
  {}

  lemma FeedLinear(c: bv32, d: bv32, x: bv8, y: bv8)
    ensures Feed(Xor(c, d), x ^ y) == Xor(Feed(c, x), Feed(d, y))
  {
    hide Step8, Xor, Wide;
    XorExchange(c, d, x, y);
    Step8Linear(Xor(c, Wide(x)), Xor(d, Wide(y)));
  }

  /** The CRC is linear over GF(2), register and message together. */
  lemma {:induction false} CrcLinear(c: bv32, d: bv32, a: seq<bv8>, b: seq<bv8>)
    requires |a| == |b|
    ensures Crc(c ^ d, XorBytes(a, b)) == Crc(c, a) ^ Crc(d, b)
    decreases a
  {
    CrcLinearXor(c, d, a, b);
  }

  lemma {:induction false} CrcLinearXor(c: bv32, d: bv32, a: seq<bv8>, b: seq<bv8>)
    requires |a| == |b|
    ensures Crc(Xor(c, d), XorBytes(a, b)) == Xor(Crc(c, a), Crc(d, b))
    decreases a
  {
    hide Feed, Xor;
    if a != [] {
      FeedLinear(c, d, a[0], b[0]);
      assert XorBytes(a, b)[1..] == XorBytes(a[1..], b[1..]);
      CrcLinearXor(Feed(c, a[0]), Feed(d, b[0]), a[1..], b[1..]);
    }
  }

  // ---- Bijection ----

  function Unstep(c: bv32): bv32 {
    if c & 0x80000000 != 0 then ((c ^ POLY) << 1) | 1 else c << 1
  }

  lemma UnstepOdd(c: bv32, p: bv32)
    requires p & 0x80000000 != 0 && c & 1 == 1
    ensures ((c >> 1) ^ p) & 0x80000000 != 0
    ensures ((((c >> 1) ^ p) ^ p) << 1) | 1 == c
  {}

  lemma UnstepEven(c: bv32)
    requires c & 1 == 0
    ensures (c >> 1) & 0x80000000 == 0 && (c >> 1) << 1 == c
  {}

  lemma StepOdd(c: bv32, p: bv32)
    requires p & 0x80000000 != 0 && c & 0x80000000 != 0
    ensures (((c ^ p) << 1) | 1) & 1 == 1
    ensures ((((c ^ p) << 1) | 1) >> 1) ^ p == c
  {}

  lemma StepEven(c: bv32)
    requires c & 0x80000000 == 0
    ensures (c << 1) & 1 == 0 && (c << 1) >> 1 == c
  {}

  lemma UnstepStep(c: bv32)
    ensures Unstep(Step(c)) == c
  {
    StepCases(c);
    assert c & 1 == 0 || c & 1 == 1;
    if Odd(c) { UnstepOdd(c, POLY); } else { UnstepEven(c); }
  }

  lemma StepUnstep(c: bv32)
    ensures Step(Unstep(c)) == c
  {
    StepCases(Unstep(c));
    if c & 0x80000000 != 0 { StepOdd(c, POLY); } else { StepEven(c); }
  }

  function Unstep8(c: bv32): bv32 {
    Unstep(Unstep(Unstep(Unstep(Unstep(Unstep(Unstep(Unstep(c))))))))
  }

  lemma Unstep8Step8(c: bv32)
    ensures Unstep8(Step8(c)) == c
  {
    hide Step, Unstep;
    var x := c;
    UnstepStep(x); x := Step(x);
    UnstepStep(x); x := Step(x);
    UnstepStep(x); x := Step(x);
    UnstepStep(x); x := Step(x);
    UnstepStep(x); x := Step(x);
    UnstepStep(x); x := Step(x);
    UnstepStep(x); x := Step(x);
    UnstepStep(x);
  }

  lemma Step8Unstep8(c: bv32)
    ensures Step8(Unstep8(c)) == c
  {
    hide Step, Unstep;
    var x := c;
    StepUnstep(x); x := Unstep(x);
    StepUnstep(x); x := Unstep(x);
    StepUnstep(x); x := Unstep(x);
    StepUnstep(x); x := Unstep(x);
    StepUnstep(x); x := Unstep(x);
    StepUnstep(x); x := Unstep(x);
    StepUnstep(x); x := Unstep(x);
    StepUnstep(x);
  }

  /** Takes one byte back out of the register. */
  function Unfeed(c: bv32, b: bv8): bv32 {
    Xor(Unstep8(c), Wide(b))
  }

  lemma XorTwice(c: bv32, b: bv32)
    ensures Xor(Xor(c, b), b) == c
  {}

  lemma FeedInverse(c: bv32, b: bv8)
    ensures Unfeed(Feed(c, b), b) == c
    ensures Feed(Unfeed(c, b), b) == c
  {
    hide Step8, Unstep8, Xor, Wide;
    Unstep8Step8(Xor(c, Wide(b)));
    XorTwice(c, Wide(b));
    XorTwice(Unstep8(c), Wide(b));
    Step8Unstep8(c);
  }

  /** Runs the register backwards over a message. */
  function Uncrc(c: bv32, bytes: seq<bv8>): bv32
    decreases bytes
  {
    if bytes == [] then c else Unfeed(Uncrc(c, bytes[1..]), bytes[0])
  }

  /** For every fixed input the update is a bijection of the register. */
  lemma {:induction false} CrcBijective(c: bv32, bytes: seq<bv8>)
    ensures Uncrc(Crc(c, bytes), bytes) == c
    ensures Crc(Uncrc(c, bytes), bytes) == c
    decreases bytes
  {
    hide Feed, Unfeed;
    if bytes != [] {
      CrcBijective(Feed(c, bytes[0]), bytes[1..]);
      FeedInverse(c, bytes[0]);
      CrcBijective(c, bytes[1..]);
      FeedInverse(Uncrc(c, bytes[1..]), bytes[0]);
    }
  }

  // ---- Burst detection ----

  predicate Fits24(x: bv32) { x & 0xff000000 == 0 }

  predicate TopClear(x: bv32) { x & 0x80000000 == 0 }

  function Dbl(x: bv32): bv32 { x << 1 }

  function Shl8(x: bv32): bv32 { x << 8 }

  lemma ShiftOut(x: bv32)
    requires TopClear(x)
    ensures Step(Dbl(x)) == x
  {
    StepCases(x << 1);
    StepEven(x);
  }

  lemma ShiftPath(x: bv32)
    requires Fits24(x)
    ensures Shl8(x) == Dbl(Dbl(Dbl(Dbl(Dbl(Dbl(Dbl(Dbl(x))))))))
    ensures TopClear(x) && TopClear(Dbl(x)) && TopClear(Dbl(Dbl(x))) && TopClear(Dbl(Dbl(Dbl(x))))
    ensures TopClear(Dbl(Dbl(Dbl(Dbl(x))))) && TopClear(Dbl(Dbl(Dbl(Dbl(Dbl(x))))))
    ensures TopClear(Dbl(Dbl(Dbl(Dbl(Dbl(Dbl(x)))))))
    ensures TopClear(Dbl(Dbl(Dbl(Dbl(Dbl(Dbl(Dbl(x))))))))
  {}

  lemma Step8Shl8(x: bv32)
    requires Fits24(x)
    ensures Step8(Shl8(x)) == x
  {
    hide Step, Shl8, Dbl, TopClear, Fits24;
    ShiftPath(x);
    var y := x;
    ShiftOut(y); y := Dbl(y);
    ShiftOut(y); y := Dbl(y);
    ShiftOut(y); y := Dbl(y);
    ShiftOut(y); y := Dbl(y);
    ShiftOut(y); y := Dbl(y);
    ShiftOut(y); y := Dbl(y);
    ShiftOut(y); y := Dbl(y);
    ShiftOut(y);
  }

  /** A register that fits in 24 bits was reached only from its shifted self, less the byte. */
  lemma Predecessor(c: bv32, b: bv8, x: bv32)
    requires Fits24(x) && Feed(c, b) == x
    ensures c == Xor(Shl8(x), Wide(b))
  {
    hide Step8, Unstep8, Shl8, Xor, Wide, Fits24;
    FeedInverse(c, b);
    Step8Shl8(x);
    Unstep8Step8(Shl8(x));
  }

  lemma Packed(b0: bv8, b1: bv8, b2: bv8, b3: bv8)
    ensures var c3 := Xor(Shl8(0), Wide(b3));
            var c2 := Xor(Shl8(c3), Wide(b2));
            var c1 := Xor(Shl8(c2), Wide(b1));
            && Fits24(0) && Fits24(c3) && Fits24(c2) && Fits24(c1)
            && (Xor(Shl8(c1), Wide(b0)) == 0 ==> b0 == b1 == b2 == b3 == 0)
  {}

  lemma {:induction false} CrcFour(c: bv32, z: seq<bv8>)
    requires |z| == 4
    ensures Crc(c, z) == Feed(Feed(Feed(Feed(c, z[0]), z[1]), z[2]), z[3])
  {
    hide Feed;
    assert z[1..][1..] == z[2..] && z[2..][1..] == z[3..] && z[3..][1..] == [];
    assert Crc(c, z) == Crc(Feed(c, z[0]), z[1..]);
    assert Crc(Feed(c, z[0]), z[1..]) == Crc(Feed(Feed(c, z[0]), z[1]), z[2..]);
    var d := Feed(Feed(c, z[0]), z[1]);
    assert Crc(d, z[2..]) == Crc(Feed(d, z[2]), z[3..]);
    assert Crc(Feed(d, z[2]), z[3..]) == Crc(Feed(Feed(d, z[2]), z[3]), z[3..][1..]);
  }

  lemma FourByteKernel(z: seq<bv8>)
    requires |z| == 4 && Crc(0, z) == 0
    ensures z[0] == z[1] == z[2] == z[3] == 0
  {
    hide Feed, Xor, Wide, Shl8, Fits24;
    CrcFour(0, z);
    Packed(z[0], z[1], z[2], z[3]);
    var c1 := Feed(0, z[0]);
    var c2 := Feed(c1, z[1]);
    var c3 := Feed(c2, z[2]);
    Predecessor(c3, z[3], 0);
    Predecessor(c2, z[2], c3);
    Predecessor(c1, z[1], c2);
    Predecessor(0, z[0], c1);
  }

  lemma FeedZero()
    ensures Feed(0, 0) == 0
  {
    StepCases(0);
  }

  lemma {:induction false} ZerosKeepZero(n: nat)
    ensures Crc(0, seq(n, i => 0)) == 0
  {
    hide Feed;
    if n != 0 {
      var z := seq(n, i => 0 as bv8);
      assert z[1..] == seq(n - 1, i => 0 as bv8);
      FeedZero();
      ZerosKeepZero(n - 1);
    }
  }

  /** At most four bytes that leave the zero register at zero are all zeros. */
  lemma ShortKernel(w: seq<bv8>)
    requires |w| <= 4 && Crc(0, w) == 0
    ensures forall i :: 0 <= i < |w| ==> w[i] == 0
  {
    hide Feed;
    var pad := seq(4 - |w|, i => 0 as bv8);
    CrcConcat(0, w, pad);
    ZerosKeepZero(4 - |w|);
    FourByteKernel(w + pad);
    assert forall i :: 0 <= i < |w| ==> w[i] == (w + pad)[i];
  }

  lemma SelfXor(c: bv32)
    ensures Xor(c, c) == 0
  {}

  lemma XorByteZero(a: bv8, b: bv8)
    requires a ^ b == 0
    ensures a == b
  {}

  /** Two messages that differ only inside four consecutive bytes never share a CRC. */
  lemma BurstDetected(c: bv32, prefix: seq<bv8>, u: seq<bv8>, v: seq<bv8>, suffix: seq<bv8>)
    requires |u| == |v| <= 4 && u != v
    ensures Crc(c, prefix + u + suffix) != Crc(c, prefix + v + suffix)
  {
    hide Feed, Xor;
    if Crc(c, prefix + u + suffix) == Crc(c, prefix + v + suffix) {
      var d := Crc(c, prefix);
      CrcConcat(c, prefix + u, suffix); CrcConcat(c, prefix, u);
      CrcConcat(c, prefix + v, suffix); CrcConcat(c, prefix, v);
      CrcBijective(Crc(d, u), suffix);
      CrcBijective(Crc(d, v), suffix);
      CrcLinearXor(d, d, u, v);
      SelfXor(d); SelfXor(Crc(d, u));
      ShortKernel(XorBytes(u, v));
      forall i | 0 <= i < |u| ensures u[i] == v[i] {
        assert XorBytes(u, v)[i] == 0;
        XorByteZero(u[i], v[i]);
      }
      assert false;
    }
  }
}
