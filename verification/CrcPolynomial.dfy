/** What the CRC register means: the remainder, over GF(2), of the message
    polynomial under the CRC-32 generator of section 3.2.9 of IEEE 802.3.

    A polynomial is the sequence of its coefficients, highest degree first.
    The register is reflected, so its least significant bit comes first. */
module CrcPolynomial {
  import opened Crc32

  type Poly = seq<bool>

  /** Where the generator x^32 + x^26 + ... + x + 1 has coefficients below x^32. */
  const GENERATOR_EXPONENTS: set<int> := {26, 23, 22, 16, 12, 11, 10, 8, 7, 5, 4, 2, 1, 0}

  function GeneratorTail(): (g: Poly)
    ensures |g| == 32
  {
    seq(32, i requires 0 <= i < 32 => (31 - i) in GENERATOR_EXPONENTS)
  }

  function Zeros(n: nat): (z: Poly)
    ensures |z| == n && forall i :: 0 <= i < n ==> !z[i]
  {
    seq(n, i => false)
  }

  /** The sum of two polynomials written with equally many coefficients. */
  function Add(a: Poly, b: Poly): (s: Poly)
    requires |a| == |b|
    ensures |s| == |a| && forall i :: 0 <= i < |a| ==> s[i] == (a[i] != b[i])
  {
    seq(|a|, i requires 0 <= i < |a| => a[i] != b[i])
  }

  /** f times the generator, shifted up by n places. */
  function ShiftedGenerator(f: bool, n: nat): (p: Poly)
    ensures |p| == n + 33
  {
    if f then [true] + GeneratorTail() + Zeros(n) else Zeros(n + 33)
  }

  /** The product of q with the generator, one partial product per coefficient. */
  function TimesGenerator(q: Poly): (p: Poly)
    ensures |p| == |q| + 32
  {
    if q == [] then Zeros(32)
    else Add(ShiftedGenerator(q[0], |q| - 1), [false] + TimesGenerator(q[1..]))
  }

  ghost predicate Divides(p: Poly, q: Poly, r: Poly)
    requires |p| >= 32 && |r| == 32
  {
    |q| == |p| - 32 && p == Add(TimesGenerator(q), Zeros(|q|) + r)
  }

  /** r, of degree below 32, is p less a multiple of the generator. */
  ghost predicate IsRemainder(p: Poly, r: Poly)
    requires |p| >= 32 && |r| == 32
  {
    exists q: Poly :: Divides(p, q, r)
  }

  /** Quotient and remainder are unique, so IsRemainder defines at most one r. */
  lemma {:induction false} DivisionUnique(p: Poly, q: Poly, r: Poly, q': Poly, r': Poly)
    requires |p| >= 32 && |r| == |r'| == 32
    requires Divides(p, q, r) && Divides(p, q', r')
    ensures q == q' && r == r'
    decreases |p|
  {
    var n := |q|;
    if n == 0 {
      forall i | 0 <= i < 32 ensures r[i] == r'[i] {
        assert p[i] == (TimesGenerator(q)[i] != (Zeros(0) + r)[i]);
        assert p[i] == (TimesGenerator(q')[i] != (Zeros(0) + r')[i]);
      }
    } else {
      CutLeading(p, q, r);
      CutLeading(p, q', r');
      var rest := Add(p, ShiftedGenerator(q[0], n - 1))[1..];
      DivisionUnique(rest, q[1..], r, q'[1..], r');
      assert q == [q[0]] + q[1..] && q' == [q'[0]] + q'[1..];
    }
  }

  /** The leading coefficient of the dividend is that of the quotient; taking its
      multiple of the generator away leaves a shorter division. */
  lemma CutLeading(p: Poly, q: Poly, r: Poly)
    requires |p| >= 33 && |r| == 32 && Divides(p, q, r)
    ensures q[0] == p[0]
    ensures Divides(Add(p, ShiftedGenerator(q[0], |q| - 1))[1..], q[1..], r)
  {
    Leading(q[0], |q| - 1);
    OneDigitLess(p, ShiftedGenerator(q[0], |q| - 1), TimesGenerator(q[1..]), r, |q| - 1);
  }

  lemma Leading(f: bool, n: nat)
    ensures ShiftedGenerator(f, n)[0] == f
  {}

  /** A division loses its leading digit. */
  lemma OneDigitLess(p: Poly, g: Poly, t: Poly, r: Poly, n: nat)
    requires |r| == 32 && |t| == n + 32 && |g| == |p| == n + 33
    requires p == Add(Add(g, [false] + t), Zeros(n + 1) + r)
    ensures p[0] == g[0] && Add(p, g)[1..] == Add(t, Zeros(n) + r)
  {
    var rest := Add(p, g)[1..];
    forall i | 0 <= i < |rest| ensures rest[i] == Add(t, Zeros(n) + r)[i] {
      assert p[i + 1] == ((g[i + 1] != ([false] + t)[i + 1]) != (Zeros(n + 1) + r)[i + 1]);
      assert (Zeros(n + 1) + r)[i + 1] == (Zeros(n) + r)[i];
    }
  }

  // ---- The register fed one bit at a time ----

  function FeedBit(r: Poly, b: bool): (r': Poly)
    requires |r| == 32
    ensures |r'| == 32
  {
    Add(r[1..] + [false], if r[0] != b then GeneratorTail() else Zeros(32))
  }

  function FeedBits(r: Poly, m: Poly): (r': Poly)
    requires |r| == 32
    ensures |r'| == 32
    decreases |m|
  {
    if m == [] then r else FeedBits(FeedBit(r, m[0]), m[1..])
  }

  /** The message raised by x^32, with the starting register added to its top. */
  function Dividend(start: Poly, m: Poly): (p: Poly)
    requires |start| == 32
    ensures |p| == |m| + 32
  {
    Add(start + Zeros(|m|), m + Zeros(32))
  }

  function Quotient(r: Poly, m: Poly): (q: Poly)
    requires |r| == 32
    ensures |q| == |m|
    decreases |m|
  {
    if m == [] then [] else [r[0] != m[0]] + Quotient(FeedBit(r, m[0]), m[1..])
  }

  lemma {:induction false} FeedBitsDivides(r: Poly, m: Poly)
    requires |r| == 32
    ensures Divides(Dividend(r, m), Quotient(r, m), FeedBits(r, m))
    decreases |m|
  {
    hide Dividend, FeedBit, ShiftedGenerator, Add;
    if m == [] {
      NoDigits(r);
    } else {
      var f, r1, rest := r[0] != m[0], FeedBit(r, m[0]), m[1..];
      FeedBitsDivides(r1, rest);
      var q1, left := Quotient(r1, rest), FeedBits(r1, rest);
      var q := [f] + q1;
      assert q[1..] == q1;
      LeadingStep(r, m);
      OneDigit(ShiftedGenerator(f, |rest|), TimesGenerator(q1), Dividend(r1, rest), left, |q1|);
    }
  }

  lemma NoDigits(r: Poly)
    requires |r| == 32
    ensures Dividend(r, []) == r == Add(TimesGenerator([]), Zeros(0) + r)
  {}

  /** A division gains a leading digit. */
  lemma OneDigit(g: Poly, t: Poly, d: Poly, left: Poly, n: nat)
    requires |t| == |d| == n + |left| && |g| == |t| + 1 && d == Add(t, Zeros(n) + left)
    ensures Add(g, [false] + d) == Add(Add(g, [false] + t), Zeros(n + 1) + left)
  {
    var a, b := Add(g, [false] + d), Add(Add(g, [false] + t), Zeros(n + 1) + left);
    forall i | 0 <= i < |a| ensures a[i] == b[i] {
      if i > 0 {
        assert d[i - 1] == (t[i - 1] != (Zeros(n) + left)[i - 1]);
        assert (Zeros(n + 1) + left)[i] == (Zeros(n) + left)[i - 1];
      }
    }
  }

  lemma LeadingStep(r: Poly, m: Poly)
    requires |r| == 32 && |m| > 0
    ensures Dividend(r, m)
         == Add(ShiftedGenerator(r[0] != m[0], |m| - 1), [false] + Dividend(FeedBit(r, m[0]), m[1..]))
  {
    var f, r1, rest := r[0] != m[0], FeedBit(r, m[0]), m[1..];
    var p, g, d := Dividend(r, m), ShiftedGenerator(f, |rest|), Dividend(r1, rest);
    forall i | 0 <= i < |p| ensures p[i] == Add(g, [false] + d)[i] {
      assert p[i] == ((r + Zeros(|m|))[i] != (m + Zeros(32))[i]);
      if i > 0 {
        assert d[i - 1] == ((r1 + Zeros(|rest|))[i - 1] != (rest + Zeros(32))[i - 1]);
        assert (m + Zeros(32))[i] == (rest + Zeros(32))[i - 1];
      }
    }
  }

  // ---- From register words to coefficients ----

  function Half(c: bv32): bv32 { c >> 1 }

  /** The low n bits of c, least significant first. */
  function Bits(c: bv32, n: nat): (p: Poly)
    ensures |p| == n
    decreases n
  {
    if n == 0 then [] else [Odd(c)] + Bits(Half(c), n - 1)
  }

  function ByteBits(b: bv8): (p: Poly)
    ensures |p| == 8
  {
    Bits(Wide(b), 8)
  }

  /** The message polynomial: each byte least significant bit first, as sent on the wire. */
  function MessageBits(bytes: seq<bv8>): (p: Poly)
    ensures |p| == 8 * |bytes|
  {
    if bytes == [] then [] else ByteBits(bytes[0]) + MessageBits(bytes[1..])
  }

  lemma HalfXor(a: bv32, b: bv32)
    ensures Odd(Xor(a, b)) == (Odd(a) != Odd(b))
    ensures Half(Xor(a, b)) == Xor(Half(a), Half(b))
  {
    hide Odd, Half, Xor;
    HalfXorOdd(a, b);
    HalfXorShift(a, b);
  }

  lemma HalfXorOdd(a: bv32, b: bv32)
    ensures Odd(Xor(a, b)) == (Odd(a) != Odd(b))
  {
    hide Odd;
    OddXor(a, b);
  }

  lemma HalfXorShift(a: bv32, b: bv32)
    ensures Half(Xor(a, b)) == Xor(Half(a), Half(b))
  {
    ShiftXor(a, b);
  }

  lemma {:induction false} BitsXor(a: bv32, b: bv32, n: nat)
    ensures Bits(Xor(a, b), n) == Add(Bits(a, n), Bits(b, n))
    decreases n
  {
    hide Odd, Half, Xor;
    if n != 0 {
      HalfXor(a, b);
      BitsXor(Half(a), Half(b), n - 1);
    }
  }

  function Mask(n: nat): bv32 {
    if n == 0 then 0 else (Mask(n - 1) << 1) | 1
  }

  predicate Below(c: bv32, m: bv32) { c & !m == 0 }

  lemma BelowShift(c: bv32, m: bv32)
    requires Below(c, (m << 1) | 1)
    ensures Below(Half(c), m)
  {}

  lemma BelowHalf(c: bv32, n: nat)
    requires n > 0 && Below(c, Mask(n))
    ensures Below(Half(c), Mask(n - 1))
  {
    BelowShift(c, Mask(n - 1));
  }

  lemma BelowNothing(c: bv32)
    requires Below(c, Mask(0))
    ensures c == 0 && !Odd(c) && Half(c) == c
  {}

  lemma {:induction false} BitsBelow(c: bv32, n: nat, more: nat)
    requires Below(c, Mask(n))
    ensures Bits(c, n + more) == Bits(c, n) + Zeros(more)
    decreases n + more
  {
    hide Below, Odd, Half, Mask;
    if n != 0 {
      BelowHalf(c, n);
      BitsBelow(Half(c), n - 1, more);
    } else if more != 0 {
      BelowNothing(c);
      BitsBelow(c, 0, more - 1);
    }
  }

  lemma {:induction false} BitsInjective(a: bv32, b: bv32, n: nat)
    requires Below(a, Mask(n)) && Below(b, Mask(n)) && Bits(a, n) == Bits(b, n)
    ensures a == b
    decreases n
  {
    hide Below, Odd, Half, Mask;
    if n == 0 {
      BelowNothing(a); BelowNothing(b);
    } else {
      BelowHalf(a, n); BelowHalf(b, n);
      assert Bits(a, n)[1..] == Bits(Half(a), n - 1);
      assert Bits(b, n)[1..] == Bits(Half(b), n - 1);
      assert Odd(a) == Bits(a, n)[0] == Bits(b, n)[0] == Odd(b);
      BitsInjective(Half(a), Half(b), n - 1);
      SameHalves(a, b);
    }
  }

  lemma SameHalves(a: bv32, b: bv32)
    requires Half(a) == Half(b) && Odd(a) == Odd(b)
    ensures a == b
  {
    assert a & 1 == 0 || a & 1 == 1;
    assert b & 1 == 0 || b & 1 == 1;
    if Odd(a) { OddHalf(a); OddHalf(b); } else { EvenHalf(a); EvenHalf(b); }
  }

  lemma OddHalf(a: bv32) requires a & 1 == 1 ensures a == (Half(a) << 1) | 1 {}

  lemma EvenHalf(a: bv32) requires a & 1 == 0 ensures a == (Half(a)) << 1 {}

  lemma Masks()
    ensures Mask(8) == 0xff && Mask(31) == 0x7fffffff && Mask(32) == 0xffffffff
  {
    assert Mask(4) == 0xf;
    assert Mask(8) == 0xff;
    assert Mask(12) == 0xfff;
    assert Mask(16) == 0xffff;
    assert Mask(20) == 0xfffff;
    assert Mask(24) == 0xffffff;
    assert Mask(28) == 0xfffffff;
    assert Mask(31) == 0x7fffffff;
  }

  lemma AllBelow(c: bv32)
    ensures Below(c, 0xffffffff) && Below(Half(c), 0x7fffffff)
  {}

  lemma BitsShift(c: bv32)
    ensures Bits(Half(c), 32) == Bits(c, 32)[1..] + [false]
  {
    Masks();
    AllBelow(c);
    BitsBelow(Half(c), 31, 1);
    assert Bits(c, 32)[1..] == Bits(Half(c), 31);
    assert Zeros(1) == [false];
  }

  lemma BitOdd(c: bv32, d: bv32, m: bv32)
    requires d & 1 == 0 <==> c & m == 0
    ensures Odd(d) == (c & m != 0)
  {
    assert d & 1 == 0 || d & 1 == 1;
  }

  lemma Bit1(c: bv32) ensures (c >> 1) & 1 == 0 <==> c & 2 == 0 {}

  lemma Bit2(c: bv32) ensures ((c >> 1) >> 1) & 1 == 0 <==> c & 4 == 0 {}

  lemma Bit3(c: bv32) ensures (((c >> 1) >> 1) >> 1) & 1 == 0 <==> c & 8 == 0 {}

  lemma Bit4(c: bv32) ensures (((c >> 1) >> 1) >> 1) >> 1 == c >> 4 {}

  function Nibble(c: bv32): Poly {
    [c & 1 != 0, c & 2 != 0, c & 4 != 0, c & 8 != 0]
  }

  lemma FourBits(c: bv32, n: nat)
    requires n >= 4
    ensures Bits(c, n) == Nibble(c) + Bits(c >> 4, n - 4)
  {
    var d, e, f := Half(c), Half(Half(c)), Half(Half(Half(c)));
    BitOdd(c, c, 1);
    Bit1(c); BitOdd(c, d, 2);
    Bit2(c); BitOdd(c, e, 4);
    Bit3(c); BitOdd(c, f, 8);
    Bit4(c);
    Unroll(c, n);
  }

  lemma Unroll(c: bv32, n: nat)
    requires n >= 4
    ensures Bits(c, n) == [Odd(c), Odd(Half(c)), Odd(Half(Half(c))), Odd(Half(Half(Half(c))))]
                        + Bits(Half(Half(Half(Half(c)))), n - 4)
  {
    hide Odd, Half;
    UnrollTwo(c, n);
    UnrollTwo(Half(Half(c)), n - 2);
    hide Bits;
  }

  lemma UnrollTwo(c: bv32, n: nat)
    requires n >= 2
    ensures Bits(c, n) == [Odd(c), Odd(Half(c))] + Bits(Half(Half(c)), n - 2)
  {
    hide Odd, Half;
    assert Bits(Half(c), n - 1) == [Odd(Half(c))] + Bits(Half(Half(c)), n - 2);
  }

  lemma PolyNibbles()
    ensures Nibble(0xedb88320) == [false, false, false, false]
    ensures Nibble(0xedb8832) == [false, true, false, false]
    ensures Nibble(0xedb883) == [true, true, false, false]
    ensures Nibble(0xedb88) == [false, false, false, true]
    ensures Nibble(0xedb8) == [false, false, false, true]
    ensures Nibble(0xedb) == [true, true, false, true]
    ensures Nibble(0xed) == [true, false, true, true]
    ensures Nibble(0xe) == [false, true, true, true]
  {}

  lemma PolyShifts()
    ensures 0xedb88320 as bv32 >> 4 == 0xedb8832 && 0xedb8832 as bv32 >> 4 == 0xedb883
    ensures 0xedb883 as bv32 >> 4 == 0xedb88 && 0xedb88 as bv32 >> 4 == 0xedb8
    ensures 0xedb8 as bv32 >> 4 == 0xedb && 0xedb as bv32 >> 4 == 0xed && 0xed as bv32 >> 4 == 0xe
    ensures 0xe as bv32 >> 4 == 0
  {}

  lemma SplitSlice(s: Poly, i: nat, j: nat)
    requires i <= j <= |s|
    ensures s[i..] == s[i..j] + s[j..]
  {}

  lemma TailNibbles()
    ensures var g := GeneratorTail();
      && g[0..4] == [false, false, false, false] && g[4..8] == [false, true, false, false]
      && g[8..12] == [true, true, false, false] && g[12..16] == [false, false, false, true]
      && g[16..20] == [false, false, false, true] && g[20..24] == [true, true, false, true]
      && g[24..28] == [true, false, true, true] && g[28..32] == [false, true, true, true]
  {}

  lemma ExtendTail(c: bv32, k: nat)
    requires k < 8
    requires Nibble(c) == GeneratorTail()[4 * k..4 * k + 4]
    requires Bits(c >> 4, 28 - 4 * k) == GeneratorTail()[4 * k + 4..]
    ensures Bits(c, 32 - 4 * k) == GeneratorTail()[4 * k..]
  {
    hide *;
    FourBits(c, 32 - 4 * k);
    SplitSlice(GeneratorTail(), 4 * k, 4 * k + 4);
  }

  lemma BitsPoly()
    ensures Bits(POLY, 32) == GeneratorTail()
  {
    hide Nibble, Bits, GeneratorTail;
    TailNibbles();
    PolyShifts();
    PolyNibbles();
    ExtendTail(0xe, 7);
    ExtendTail(0xed, 6);
    ExtendTail(0xedb, 5);
    ExtendTail(0xedb8, 4);
    ExtendTail(0xedb88, 3);
    ExtendTail(0xedb883, 2);
    ExtendTail(0xedb8832, 1);
    ExtendTail(0xedb88320, 0);
  }

  lemma BitsStep(c: bv32)
    ensures Bits(Step(c), 32) == FeedBit(Bits(c, 32), false)
  {
    StepCases(c);
    BitsShift(c);
    if Odd(c) {
      BitsXor(Half(c), POLY, 32);
      BitsPoly();
    } else {
      assert FeedBit(Bits(c, 32), false) == Bits(c, 32)[1..] + [false];
    }
  }

  // ---- One byte at once, or its eight bits one by one ----

  function Turn(r: Poly, n: nat): (r': Poly)
    requires |r| == 32
    ensures |r'| == 32
    decreases n
  {
    if n == 0 then r else Turn(FeedBit(r, false), n - 1)
  }

  lemma {:induction false} AllAtOnce(r: Poly, w: Poly)
    requires |r| == 32 && |w| <= 32
    ensures Turn(Add(r, w + Zeros(32 - |w|)), |w|) == FeedBits(r, w)
    decreases |w|
  {
    hide FeedBit, Add;
    var t := Add(r, w + Zeros(32 - |w|));
    if w == [] {
      assert t == r;
    } else {
      AllAtOnce(FeedBit(r, w[0]), w[1..]);
      FirstTurn(r, w);
    }
  }

  lemma FirstTurn(r: Poly, w: Poly)
    requires |r| == 32 && 0 < |w| <= 32
    ensures FeedBit(Add(r, w + Zeros(32 - |w|)), false) == Add(FeedBit(r, w[0]), w[1..] + Zeros(33 - |w|))
  {
    var t := Add(r, w + Zeros(32 - |w|));
    var wide, tail := w + Zeros(32 - |w|), w[1..] + Zeros(33 - |w|);
    var left, right := FeedBit(t, false), Add(FeedBit(r, w[0]), tail);
    assert t[0] == (r[0] != w[0]);
    forall i | 0 <= i < 32 ensures left[i] == right[i] {
      if i < 31 {
        assert t[i + 1] == (r[i + 1] != wide[i + 1]);
        assert tail[i] == wide[i + 1];
      }
    }
  }

  lemma BitsStep8(c: bv32)
    ensures Bits(Step8(c), 32) == Turn(Bits(c, 32), 8)
  {
    hide Step, FeedBit, Bits;
    var x := c;
    BitsStep(x); x := Step(x);
    BitsStep(x); x := Step(x);
    BitsStep(x); x := Step(x);
    BitsStep(x); x := Step(x);
    BitsStep(x); x := Step(x);
    BitsStep(x); x := Step(x);
    BitsStep(x); x := Step(x);
    BitsStep(x);
    TurnEight(Bits(c, 32));
  }

  lemma TurnEight(r: Poly)
    requires |r| == 32
    ensures Turn(r, 8)
         == FeedBit(FeedBit(FeedBit(FeedBit(FeedBit(FeedBit(FeedBit(FeedBit(r, false), false), false), false), false), false), false), false)
  {
    hide FeedBit;
    var s := FeedBit(FeedBit(r, false), false);
    assert Turn(r, 8) == Turn(s, 6);
    var t := FeedBit(FeedBit(s, false), false);
    assert Turn(s, 6) == Turn(t, 4);
    var u := FeedBit(FeedBit(t, false), false);
    assert Turn(t, 4) == Turn(u, 2);
  }

  lemma ByteBelow(b: bv8)
    ensures Below(Wide(b), 0xff)
  {}

  lemma BitsFeed(c: bv32, b: bv8)
    ensures Bits(Feed(c, b), 32) == FeedBits(Bits(c, 32), ByteBits(b))
  {
    hide Step8, Xor, Wide, Below, Bits, Turn, FeedBits, Add, Mask;
    Masks();
    ByteBelow(b);
    BitsBelow(Wide(b), 8, 24);
    BitsXor(c, Wide(b), 32);
    BitsStep8(Xor(c, Wide(b)));
    AllAtOnce(Bits(c, 32), ByteBits(b));
  }

  lemma {:induction false} FeedBitsConcat(r: Poly, a: Poly, b: Poly)
    requires |r| == 32
    ensures FeedBits(r, a + b) == FeedBits(FeedBits(r, a), b)
    decreases |a|
  {
    if a == [] {
      assert a + b == b;
    } else {
      assert (a + b)[1..] == a[1..] + b;
      FeedBitsConcat(FeedBit(r, a[0]), a[1..], b);
    }
  }

  lemma {:induction false} BitsCrc(c: bv32, bytes: seq<bv8>)
    ensures Bits(Crc(c, bytes), 32) == FeedBits(Bits(c, 32), MessageBits(bytes))
    decreases bytes
  {
    hide Feed, Bits;
    if bytes != [] {
      BitsFeed(c, bytes[0]);
      BitsCrc(Feed(c, bytes[0]), bytes[1..]);
      FeedBitsConcat(Bits(c, 32), ByteBits(bytes[0]), MessageBits(bytes[1..]));
    }
  }

  /** The register is the remainder of the message polynomial, and no other word is:
      the loop computes exactly the CRC-32 of the standard, from any starting register. */
  lemma CrcIsRemainder(c: bv32, bytes: seq<bv8>, d: bv32)
    ensures d == Crc(c, bytes)
       <==> IsRemainder(Dividend(Bits(c, 32), MessageBits(bytes)), Bits(d, 32))
  {
    hide Bits, Below;
    var r, m := Bits(c, 32), MessageBits(bytes);
    BitsCrc(c, bytes);
    FeedBitsDivides(r, m);
    assert Divides(Dividend(r, m), Quotient(r, m), Bits(Crc(c, bytes), 32));
    if IsRemainder(Dividend(r, m), Bits(d, 32)) {
      var q :| Divides(Dividend(r, m), q, Bits(d, 32));
      DivisionUnique(Dividend(r, m), q, Bits(d, 32), Quotient(r, m), Bits(Crc(c, bytes), 32));
      Masks();
      AllBelow(d); AllBelow(Crc(c, bytes));
      BitsInjective(d, Crc(c, bytes), 32);
    }
  }

  // ---- The CRC as it is declared ----

  function Inverted(p: Poly): (q: Poly)
    ensures |q| == |p| && forall i :: 0 <= i < |p| ==> q[i] == !p[i]
  {
    seq(|p|, i requires 0 <= i < |p| => !p[i])
  }

  function Ones(n: nat): (p: Poly)
    ensures |p| == n && forall i :: 0 <= i < n ==> p[i]
  {
    seq(n, i => true)
  }

  lemma NibbleOfOnes(c: bv32)
    requires c & 0xf == 0xf
    ensures Nibble(c) == [true, true, true, true]
  {}

  lemma FourOnes(c: bv32, d: bv32, n: nat)
    requires n >= 4 && c & 0xf == 0xf && c >> 4 == d && Bits(d, n - 4) == Ones(n - 4)
    ensures Bits(c, n) == Ones(n)
  {
    hide Bits, Nibble;
    NibbleOfOnes(c);
    FourBits(c, n);
  }

  lemma BitsOfOnes()
    ensures Bits(0xffffffff, 32) == Ones(32)
  {
    assert Bits(0, 0) == Ones(0);
    hide Bits, Ones;
    FourOnes(0xf, 0, 4);
    FourOnes(0xff, 0xf, 8);
    FourOnes(0xfff, 0xff, 12);
    FourOnes(0xffff, 0xfff, 16);
    FourOnes(0xfffff, 0xffff, 20);
    FourOnes(0xffffff, 0xfffff, 24);
    FourOnes(0xfffffff, 0xffffff, 28);
    FourOnes(0xffffffff, 0xfffffff, 32);
  }

  lemma ComplementIsXor(c: bv32)
    ensures Complement(c) == Xor(0xffffffff, c) && Complement(Complement(c)) == c
  {}

  lemma ComplementBits(c: bv32)
    ensures Bits(Complement(c), 32) == Inverted(Bits(c, 32))
  {
    hide Bits, Xor, Complement;
    ComplementIsXor(c);
    BitsXor(0xffffffff, c, 32);
    BitsOfOnes();
    assert Add(Ones(32), Bits(c, 32)) == Inverted(Bits(c, 32));
  }

  /** A word is the CRC that a BEGIN line has to declare for an image exactly when its inverted
      bits are the remainder of the image's polynomial, started from an all-ones register. */
  lemma DeclaredCrcExactly(image: seq<bv8>, d: bv32)
    ensures d == ImageCrc(image)
       <==> IsRemainder(Dividend(Ones(32), MessageBits(image)), Inverted(Bits(d, 32)))
  {
    hide Bits, Crc, Complement, Dividend, IsRemainder;
    CrcIsRemainder(0xffffffff, image, Complement(d));
    BitsOfOnes();
    ComplementBits(d);
    ComplementIsXor(d);
    ComplementIsXor(Crc(0xffffffff, image));
  }

  /** The check value published for CRC-32: the digits 1 to 9 give 0xcbf43926. */
  lemma CheckValue()
    ensures ImageCrc([0x31, 0x32, 0x33, 0x34, 0x35, 0x36, 0x37, 0x38, 0x39]) == 0xcbf43926
  {}
}
