/**
  The Controller Pak's data CRC: a bitwise register over the 256 message bits and eight
  trailing zeros.  It is proved to be the remainder of a polynomial division over GF(2),
  and the errors it catches are read off that.

  Polynomials are coefficient sequences, highest power first; sums are pointwise exclusive or.
 */
module DataCrc {
  import opened Bytes

  type Bits = seq<bool>

  const BLOCK_SIZE := 32

  function Zeros(n: nat): Bits { seq(n, _ => false) }

  function Xor(a: Bits, b: Bits): (c: Bits)
    requires |a| == |b|
    ensures |c| == |a|
  {
    seq(|a|, i requires 0 <= i < |a| => a[i] != b[i])
  }

  /** The bits of a byte, most significant first. */
  function ByteBits(b: byte): (s: Bits)
    ensures |s| == 8
  {
    [b / 128 % 2 == 1, b / 64 % 2 == 1, b / 32 % 2 == 1, b / 16 % 2 == 1,
     b / 8 % 2 == 1, b / 4 % 2 == 1, b / 2 % 2 == 1, b % 2 == 1]
  }

  function MessageBits(data: seq<byte>): (s: Bits)
    ensures |s| == 8 * |data|
  {
    if data == [] then [] else MessageBits(data[..|data| - 1]) + ByteBits(data[|data| - 1])
  }

  // ----- The register -----

  function Weigh(bit: bool, w: nat): nat { if bit then w else 0 }

  /** An eight-bit register, bit by bit. */
  datatype Register = Register(b7: bool, b6: bool, b5: bool, b4: bool, b3: bool, b2: bool, b1: bool, b0: bool) {
    /** The coefficient at place `k`, counting down from x^7. */
    function At(k: int): bool {
      if k == 0 then b7 else if k == 1 then b6 else if k == 2 then b5 else if k == 3 then b4
      else if k == 4 then b3 else if k == 5 then b2 else if k == 6 then b1 else k == 7 && b0
    }

    function ShiftLeft(): Register { Register(b6, b5, b4, b3, b2, b1, b0, false) }

    function OrLow(bit: bool): Register { this.(b0 := b0 || bit) }

    function Plus(o: Register): Register {
      Register(b7 != o.b7, b6 != o.b6, b5 != o.b5, b4 != o.b4, b3 != o.b3, b2 != o.b2, b1 != o.b1, b0 != o.b0)
    }

    function Value(): byte {
      Weigh(b7, 128) + Weigh(b6, 64) + Weigh(b5, 32) + Weigh(b4, 16)
      + Weigh(b3, 8) + Weigh(b2, 4) + Weigh(b1, 2) + Weigh(b0, 1)
    }
  }

  const ZERO := Register(false, false, false, false, false, false, false, false)
  /** 0x85, the generator without its leading term. */
  const TAPS := Register(true, false, false, false, false, true, false, true)

  /** One step of dividing by x^8 + x^7 + x^2 + 1: the bit that falls off the top cancels the other terms. */
  function Next(c: Register, bit: bool): Register {
    Register(c.b6 != c.b7, c.b5, c.b4, c.b3, c.b2, c.b1 != c.b7, c.b0, bit != c.b7)
  }

  /** Shifting, putting the bit in and folding back the taps is one step. */
  lemma ShiftAndFold(c: Register, bit: bool)
    ensures c.ShiftLeft().OrLow(bit).Plus(if c.b7 then TAPS else ZERO) == Next(c, bit)
    ensures c.ShiftLeft().OrLow(false) == c.ShiftLeft()
  {
  }

  function Feed(crc: Register, bits: Bits): Register {
    if bits == [] then crc else Next(Feed(crc, bits[..|bits| - 1]), bits[|bits| - 1])
  }

  function CrcRegister(data: seq<byte>): Register {
    Feed(ZERO, MessageBits(data) + Zeros(8))
  }

  /** The CRC byte of a message. */
  function Crc(data: seq<byte>): byte {
    CrcRegister(data).Value()
  }

  function Pow2(k: nat): nat { if k == 0 then 1 else 2 * Pow2(k - 1) }

  /** Shifting a byte right by `k` brings its bit `k` down. */
  lemma BitOf(b: byte, k: nat)
    requires k < 8
    ensures Pow2(k) > 0
    ensures (b / Pow2(k)) % 2 == 1 <==> ByteBits(b)[7 - k]
  {
    assert Pow2(1) == 2;
    assert Pow2(2) == 4;
    assert Pow2(3) == 8;
    assert Pow2(4) == 16;
    assert Pow2(5) == 32;
    assert Pow2(6) == 64;
    assert Pow2(7) == 128;
  }

  lemma FeedOne(crc: Register, bits: Bits, bit: bool)
    ensures Feed(crc, bits + [bit]) == Next(Feed(crc, bits), bit)
  {
    assert (bits + [bit])[..|bits|] == bits;
  }

  lemma RoundBit(next: byte, last: bool, bit: nat)
    requires bit < 8
    ensures Pow2(bit) > 0
    ensures (if last then Zeros(8) else ByteBits(next))[7 - bit] <==> !last && (next / Pow2(bit)) % 2 == 1
  {
    hide ByteBits;
    BitOf(next, bit);
  }

  /** One pass of the port's inner loop. */
  method FeedBit(crc0: Register, bit: bool, last: bool) returns (crc: Register)
    requires last ==> !bit
    ensures crc == Next(crc0, bit)
  {
    ShiftAndFold(crc0, bit);
    hide Next;
    var xorTerm := if crc0.b7 then TAPS else ZERO;
    crc := crc0.ShiftLeft();
    if !last {
      crc := crc.OrLow(bit);
    }
    crc := crc.Plus(xorTerm);
  }

  /** One round of the port's loop: eight bits of a byte, or eight zeros in the last round. */
  method FeedRound(crc0: Register, next: byte, last: bool) returns (crc: Register)
    ensures crc == Feed(crc0, if last then Zeros(8) else ByteBits(next))
  {
    ghost var round := if last then Zeros(8) else ByteBits(next);
    crc := crc0;
    var bit: int := 7;
    while bit >= 0
      invariant -1 <= bit <= 7
      invariant crc == Feed(crc0, round[..7 - bit])
    {
      hide Next, ByteBits, Zeros;
      FeedOne(crc0, round[..7 - bit], round[7 - bit]);
      assert round[..7 - bit + 1] == round[..7 - bit] + [round[7 - bit]];
      RoundBit(next, last, bit);
      crc := FeedBit(crc, !last && (next / Pow2(bit)) % 2 == 1, last);
      bit := bit - 1;
    }
    assert round[..8] == round;
  }

  lemma {:induction false} FeedConcat(c: Register, x: Bits, y: Bits)
    ensures Feed(c, x + y) == Feed(Feed(c, x), y)
  {
    if y == [] {
      assert x + y == x;
    } else {
      var n := |y| - 1;
      FeedConcat(c, x, y[..n]);
      assert (x + y)[..|x| + n] == x + y[..n];
    }
  }

  /** The port's data_crc: 33 rounds of eight bits, the last of which shifts in nothing. */
  method ComputeCrc(data: seq<byte>) returns (crc: byte)
    requires |data| == BLOCK_SIZE
    ensures crc == Crc(data)
  {
    var reg := ZERO;
    for i := 0 to 32
      invariant reg == Feed(ZERO, MessageBits(data[..i]))
    {
      assert data[..i + 1][..i] == data[..i];
      FeedConcat(ZERO, MessageBits(data[..i]), ByteBits(data[i]));
      reg := FeedRound(reg, data[i], false);
    }
    assert data[..32] == data;
    FeedConcat(ZERO, MessageBits(data), Zeros(8));
    reg := FeedRound(reg, 0, true);
    crc := reg.Value();
  }

  // ----- Division by the generator -----

  function Coefficient(q: Bits, i: int): bool { 0 <= i < |q| && q[i] }

  /** Coefficient `i` of q times x^8 + x^7 + x^2 + 1, a polynomial of |q| + 8 coefficients. */
  function ProductAt(q: Bits, i: int): bool {
    (Coefficient(q, i) != Coefficient(q, i - 1)) != (Coefficient(q, i - 6) != Coefficient(q, i - 8))
  }

  /** p = q * G + r, coefficient by coefficient, with r of degree below eight. */
  ghost predicate IsDivision(p: Bits, q: Bits, r: Register) {
    |q| == |p|
    && forall i :: 0 <= i < |p| + 8 ==>
                     (ProductAt(q, i) != r.At(i - |p|)) == Coefficient(p, i - 8)
  }

  /** r is what is left of msg * x^8 after division by the generator. */
  ghost predicate IsRemainder(msg: Bits, r: Register) {
    exists q :: IsDivision(msg + Zeros(8), q, r)
  }

  lemma ProductSnoc(q: Bits, t: bool, i: int)
    requires 0 <= i < |q| + 9
    ensures ProductAt(q + [t], i) == (ProductAt(q, i) != (t && (i == |q| || i == |q| + 1 || i == |q| + 6 || i == |q| + 8)))
  {
  }

  /** A step shifts the register up by one power, takes the bit in, and subtracts the generator if it overflowed. */
  lemma NextCoefficient(c: Register, bit: bool, k: int)
    requires k < 8
    ensures Next(c, bit).At(k) ==
            if k == 7 then bit != c.b7
            else c.At(k + 1) != (c.b7 && (k == -1 || k == 0 || k == 5))
  {
  }

  lemma {:induction false} FeedDivides(p: Bits) returns (q: Bits)
    ensures IsDivision(p, q, Feed(ZERO, p))
  {
    if p == [] {
      q := [];
    } else {
      var n := |p| - 1;
      var q' := FeedDivides(p[..n]);
      var c := Feed(ZERO, p[..n]);
      q := q' + [c.b7];
      forall i | 0 <= i < n + 9
        ensures (ProductAt(q, i) != Next(c, p[n]).At(i - (n + 1))) == Coefficient(p, i - 8)
      {
        ProductSnoc(q', c.b7, i);
        NextCoefficient(c, p[n], i - (n + 1));
        if i < n + 8 {
          assert (ProductAt(q', i) != c.At(i - n)) == Coefficient(p[..n], i - 8);
        }
      }
    }
  }

  /** The quotient's leading coefficients are forced, one after the other. */
  lemma {:induction false} QuotientUnique(p: Bits, q1: Bits, r1: Register, q2: Bits, r2: Register, i: nat)
    requires IsDivision(p, q1, r1) && IsDivision(p, q2, r2) && i <= |p|
    ensures forall j :: 0 <= j < i ==> q1[j] == q2[j]
  {
    if i > 0 {
      QuotientUnique(p, q1, r1, q2, r2, i - 1);
      assert ProductAt(q1, i - 1) == ProductAt(q2, i - 1);
    }
  }

  lemma AtInjective(a: Register, b: Register)
    requires forall k :: 0 <= k < 8 ==> a.At(k) == b.At(k)
    ensures a == b
  {
    assert a.At(0) == b.At(0) && a.At(1) == b.At(1) && a.At(2) == b.At(2) && a.At(3) == b.At(3);
    assert a.At(4) == b.At(4) && a.At(5) == b.At(5) && a.At(6) == b.At(6) && a.At(7) == b.At(7);
  }

  lemma RemainderUnique(p: Bits, q1: Bits, r1: Register, q2: Bits, r2: Register)
    requires IsDivision(p, q1, r1) && IsDivision(p, q2, r2)
    ensures r1 == r2
  {
    QuotientUnique(p, q1, r1, q2, r2, |p|);
    assert q1 == q2;
    var n := |p|;
    forall k | 0 <= k < 8 ensures r1.At(k) == r2.At(k) {
      assert ProductAt(q1, n + k) == ProductAt(q2, n + k);
    }
    AtInjective(r1, r2);
  }

  /** The register's byte identifies it. */
  lemma ValueInjective(a: Register, b: Register)
    requires a.Value() == b.Value()
    ensures a == b
  {
  }

  /** The CRC of a message of any length is the remainder of msg * x^8, and nothing else is. */
  lemma CrcIsRemainder(data: seq<byte>, r: Register)
    ensures IsRemainder(MessageBits(data), r) <==> r.Value() == Crc(data)
  {
    var p := MessageBits(data) + Zeros(8);
    var q := FeedDivides(p);
    if IsRemainder(MessageBits(data), r) {
      var q2 :| IsDivision(p, q2, r);
      RemainderUnique(p, q, CrcRegister(data), q2, r);
    }
    if r.Value() == Crc(data) {
      ValueInjective(r, CrcRegister(data));
    }
  }

  // ----- Linearity -----

  lemma NextLinear(c: Register, d: Register, x: bool, y: bool)
    ensures Next(c.Plus(d), x != y) == Next(c, x).Plus(Next(d, y))
  {
  }

  lemma {:induction false} FeedLinear(c: Register, d: Register, x: Bits, y: Bits)
    requires |x| == |y|
    ensures Feed(c.Plus(d), Xor(x, y)) == Feed(c, x).Plus(Feed(d, y))
  {
    if x != [] {
      var n := |x| - 1;
      FeedLinear(c, d, x[..n], y[..n]);
      assert Xor(x, y)[..n] == Xor(x[..n], y[..n]);
      NextLinear(Feed(c, x[..n]), Feed(d, y[..n]), x[n], y[n]);
    }
  }

  /** The bits in which two messages differ. */
  function Flips(a: seq<byte>, b: seq<byte>): Bits
    requires |a| == |b|
  {
    Xor(MessageBits(a), MessageBits(b))
  }

  /** The CRCs of two messages differ by the register their difference leaves. */
  lemma CrcDifference(a: seq<byte>, b: seq<byte>)
    requires |a| == |b|
    ensures CrcRegister(a).Plus(CrcRegister(b)) == Feed(ZERO, Flips(a, b) + Zeros(8))
  {
    FeedLinear(ZERO, ZERO, MessageBits(a) + Zeros(8), MessageBits(b) + Zeros(8));
    assert Xor(MessageBits(a) + Zeros(8), MessageBits(b) + Zeros(8)) == Flips(a, b) + Zeros(8);
  }

  /** The CRC is linear: the message that is the exclusive or of two has the exclusive or of their CRCs. */
  lemma CrcLinear(a: seq<byte>, b: seq<byte>, c: seq<byte>)
    requires |a| == |b| && MessageBits(c) == Flips(a, b)
    ensures Crc(c) == CrcRegister(a).Plus(CrcRegister(b)).Value()
  {
    CrcDifference(a, b);
  }

  lemma PlusZero(c: Register, d: Register)
    ensures c.Plus(d) == ZERO <==> c == d
  {
  }

  /** Feeding zeros neither makes nor loses a difference: the generator has a constant term. */
  lemma {:induction false} ZerosKeepNonzero(c: Register, n: nat)
    ensures Feed(c, Zeros(n)) == ZERO <==> c == ZERO
  {
    if n > 0 {
      assert Zeros(n)[..n - 1] == Zeros(n - 1);
      ZerosKeepNonzero(c, n - 1);
    }
  }

  /** Two messages have the same CRC exactly when their difference leaves the register empty. */
  lemma SameCrcIff(a: seq<byte>, b: seq<byte>)
    requires |a| == |b|
    ensures Crc(a) == Crc(b) <==> Feed(ZERO, Flips(a, b)) == ZERO
  {
    CrcDifference(a, b);
    FeedConcat(ZERO, Flips(a, b), Zeros(8));
    ZerosKeepNonzero(Feed(ZERO, Flips(a, b)), 8);
    if Crc(a) == Crc(b) {
      ValueInjective(CrcRegister(a), CrcRegister(b));
    }
    PlusZero(CrcRegister(a), CrcRegister(b));
  }

  // ----- Errors caught -----

  function Weight(bits: Bits): nat {
    if bits == [] then 0 else Weight(bits[..|bits| - 1]) + if bits[|bits| - 1] then 1 else 0
  }

  function OddBits(c: Register): bool {
    ((c.b7 != c.b6) != (c.b5 != c.b4)) != ((c.b3 != c.b2) != (c.b1 != c.b0))
  }

  /** The generator has an even number of terms, so the register keeps the parity of what it was fed. */
  lemma {:induction false} FeedKeepsParity(bits: Bits)
    ensures OddBits(Feed(ZERO, bits)) <==> Weight(bits) % 2 == 1
  {
    if bits != [] {
      var n := |bits| - 1;
      FeedKeepsParity(bits[..n]);
    }
  }

  /** Any odd number of flipped bits changes the CRC. */
  lemma OddErrorsDetected(a: seq<byte>, b: seq<byte>)
    requires |a| == |b| && Weight(Flips(a, b)) % 2 == 1
    ensures Crc(a) != Crc(b)
  {
    FeedKeepsParity(Flips(a, b));
    SameCrcIff(a, b);
  }

  /** A bit string as a binary number. */
  function NatOf(bits: Bits): nat {
    if bits == [] then 0 else 2 * NatOf(bits[..|bits| - 1]) + Weigh(bits[|bits| - 1], 1)
  }

  lemma {:induction false} NatOfBound(bits: Bits)
    ensures NatOf(bits) < Pow2(|bits|)
  {
    if bits != [] {
      NatOfBound(bits[..|bits| - 1]);
    }
  }

  lemma {:induction false} NatOfPositive(bits: Bits, k: nat)
    requires k < |bits| && bits[k]
    ensures NatOf(bits) > 0
  {
    if k < |bits| - 1 {
      NatOfPositive(bits[..|bits| - 1], k);
    }
  }

  lemma Pow2UpTo7(n: nat)
    requires n <= 7
    ensures Pow2(n) <= 128
  {
    assert Pow2(4) == 16;
    assert Pow2(7) == 128;
  }

  /** With nothing to fold back, a step doubles the register and adds the bit. */
  lemma NextDoubles(c: Register, bit: bool)
    requires c.Value() < 128
    ensures Next(c, bit).Value() == 2 * c.Value() + Weigh(bit, 1)
  {
  }

  /** Up to eight bits go into the empty register as they are. */
  lemma {:induction false} ShortFeed(bits: Bits)
    requires |bits| <= 8
    ensures Feed(ZERO, bits).Value() == NatOf(bits)
  {
    if bits != [] {
      var n := |bits| - 1;
      ShortFeed(bits[..n]);
      NatOfBound(bits[..n]);
      Pow2UpTo7(n);
      NextDoubles(Feed(ZERO, bits[..n]), bits[n]);
    }
  }

  lemma BurstLeavesTrace(burst: Bits, k: nat)
    requires |burst| == 8 && k < 8 && burst[k]
    ensures Feed(ZERO, burst) != ZERO
  {
    ShortFeed(burst);
    NatOfPositive(burst, k);
  }

  lemma BurstSeen(d: Bits, at: nat, i: nat)
    requires at <= i < at + 8 <= |d| && d[i]
    requires forall k :: 0 <= k < |d| && d[k] ==> at <= k < at + 8
    ensures Feed(ZERO, d) != ZERO
  {
    var burst, rest := d[at..at + 8], Zeros(|d| - at - 8);
    assert d == Zeros(at) + burst + rest;
    ZerosKeepNonzero(ZERO, at);
    FeedConcat(ZERO, Zeros(at), burst);
    FeedConcat(ZERO, Zeros(at) + burst, rest);
    BurstLeavesTrace(burst, i - at);
    ZerosKeepNonzero(Feed(ZERO, burst), |d| - at - 8);
  }

  /** Any change confined to eight consecutive bits changes the CRC. */
  lemma BurstErrorsDetected(a: seq<byte>, b: seq<byte>, at: nat)
    requires |a| == |b| && MessageBits(a) != MessageBits(b)
    requires at + 8 <= 8 * |a|
    requires forall i :: 0 <= i < 8 * |a| && Flips(a, b)[i] ==> at <= i < at + 8
    ensures Crc(a) != Crc(b)
  {
    var i :| 0 <= i < 8 * |a| && MessageBits(a)[i] != MessageBits(b)[i];
    assert Flips(a, b)[i];
    BurstSeen(Flips(a, b), at, i);
    SameCrcIff(a, b);
  }

  // ----- Two flipped bits: the limit of the code -----

  const ONE := Register(false, false, false, false, false, false, false, true)

  function Shift(c: Register): Register { Next(c, false) }

  function StepZeros(c: Register, n: nat): Register
    decreases n
  {
    if n == 0 then c else StepZeros(Shift(c), n - 1)
  }

  /** Four zeros shifted in, bit by bit. */
  function Shift4(c: Register): Register {
    Register(
      (((c.b7 != c.b6) != c.b5) != c.b4) != c.b3,
      c.b2,
      c.b7 != c.b1,
      (c.b7 != c.b6) != c.b0,
      c.b6 != c.b5,
      c.b5 != c.b4,
      (c.b7 != c.b6) != c.b5,
      ((c.b7 != c.b6) != c.b5) != c.b4)
  }

  lemma FourShifts(c: Register)
    ensures Shift(Shift(Shift(Shift(c)))) == Shift4(c)
  {
  }

  /** Eight zeros shifted in, bit by bit. */
  function Shift8(c: Register): Register {
    Register(
      (((((c.b7 != c.b6) != c.b4) != c.b3) != c.b2) != c.b1) != c.b0,
      c.b5 != c.b4,
      c.b4 != c.b3,
      c.b3 != c.b2,
      (c.b7 != c.b2) != c.b1,
      (c.b6 != c.b1) != c.b0,
      ((((c.b6 != c.b5) != c.b4) != c.b3) != c.b2) != c.b1,
      (((((c.b7 != c.b5) != c.b4) != c.b3) != c.b2) != c.b1) != c.b0)
  }

  lemma FourTwice(c: Register)
    ensures Shift4(Shift4(c)) == Shift8(c)
  {
  }

  lemma EightShifts(c: Register)
    ensures Shift(Shift(Shift(Shift(Shift(Shift(Shift(Shift(c)))))))) == Shift8(c)
  {
    hide Shift, Shift4, Shift8;
    FourShifts(c);
    FourShifts(Shift4(c));
    FourTwice(c);
  }

  lemma StepEight(c: Register, d: Register, n: nat)
    requires Shift8(c) == d
    ensures StepZeros(c, n + 8) == StepZeros(d, n)
  {
    EightShifts(c);
    hide Shift, Shift8;
    var c2 := Shift(Shift(c));
    var c4 := Shift(Shift(c2));
    var c6 := Shift(Shift(c4));
    assert StepZeros(c, n + 8) == StepZeros(c2, n + 6);
    assert StepZeros(c2, n + 6) == StepZeros(c4, n + 4);
    assert StepZeros(c4, n + 4) == StepZeros(c6, n + 2);
  }

  function R(b7: int, b6: int, b5: int, b4: int, b3: int, b2: int, b1: int, b0: int): Register {
    Register(b7 == 1, b6 == 1, b5 == 1, b4 == 1, b3 == 1, b2 == 1, b1 == 1, b0 == 1)
  }

  lemma StepSeven(c: Register)
    ensures StepZeros(c, 7) == Shift(Shift(Shift(Shift(Shift(Shift(Shift(c)))))))
  {
    var c2 := Shift(Shift(c));
    var c4 := Shift(Shift(c2));
    assert StepZeros(c, 7) == StepZeros(c2, 5);
    assert StepZeros(c2, 5) == StepZeros(c4, 3);
    assert StepZeros(c4, 3) == StepZeros(Shift(Shift(c4)), 1);
    assert StepZeros(Shift(Shift(c4)), 1) == StepZeros(Shift(Shift(Shift(c4))), 0);
  }

  /** Eight zeros at a time, a third of the way round. */
  lemma FirstThird()
    ensures StepZeros(ONE, 127) == StepZeros(R(1, 1, 1, 1, 0, 1, 1, 1), 87)
  {
    StepEight(ONE, R(1, 0, 0, 0, 0, 1, 0, 1), 119);
    StepEight(R(1, 0, 0, 0, 0, 1, 0, 1), R(1, 0, 0, 1, 0, 1, 1, 1), 111);
    StepEight(R(1, 0, 0, 1, 0, 1, 1, 1), R(1, 1, 1, 1, 1, 0, 1, 1), 103);
    StepEight(R(1, 1, 1, 1, 1, 0, 1, 1), R(0, 0, 0, 1, 0, 1, 1, 0), 95);
    StepEight(R(0, 0, 0, 1, 0, 1, 1, 0), R(1, 1, 1, 1, 0, 1, 1, 1), 87);
  }

  /** Two thirds of the way. */
  lemma SecondThird()
    ensures StepZeros(R(1, 1, 1, 1, 0, 1, 1, 1), 87) == StepZeros(R(0, 1, 1, 0, 1, 1, 1, 0), 47)
  {
    StepEight(R(1, 1, 1, 1, 0, 1, 1, 1), R(0, 0, 1, 1, 1, 1, 1, 0), 79);
    StepEight(R(0, 0, 1, 1, 1, 1, 1, 0), R(0, 0, 0, 0, 0, 1, 1, 1), 71);
    StepEight(R(0, 0, 0, 0, 0, 1, 1, 1), R(1, 0, 0, 1, 0, 0, 0, 1), 63);
    StepEight(R(1, 0, 0, 1, 0, 0, 0, 1), R(1, 1, 1, 0, 1, 1, 1, 1), 55);
    StepEight(R(1, 1, 1, 0, 1, 1, 1, 1), R(0, 1, 1, 0, 1, 1, 1, 0), 47);
  }

  /** And round. */
  lemma LastThird()
    ensures StepZeros(R(0, 1, 1, 0, 1, 1, 1, 0), 47) == ONE
  {
    StepEight(R(0, 1, 1, 0, 1, 1, 1, 0), R(0, 1, 1, 0, 0, 0, 1, 0), 39);
    StepEight(R(0, 1, 1, 0, 0, 0, 1, 0), R(0, 1, 0, 0, 1, 0, 1, 0), 31);
    StepEight(R(0, 1, 0, 0, 1, 0, 1, 0), R(1, 0, 1, 1, 1, 0, 1, 0), 23);
    StepEight(R(1, 0, 1, 1, 1, 0, 1, 0), R(0, 0, 0, 1, 0, 1, 0, 1), 15);
    StepEight(R(0, 0, 0, 1, 0, 1, 0, 1), R(1, 1, 1, 1, 1, 1, 0, 1), 7);
    StepSeven(R(1, 1, 1, 1, 1, 1, 0, 1));
  }

  /** x^127 = 1 modulo the generator: the register comes round after 127 zeros. */
  lemma FullCycle()
    ensures StepZeros(ONE, 127) == ONE
  {
    hide *;
    FirstThird();
    SecondThird();
    LastThird();
  }

  lemma {:induction false} StepZerosIsFeed(c: Register, n: nat)
    ensures StepZeros(c, n) == Feed(c, Zeros(n))
    decreases n
  {
    if n > 0 {
      StepZerosIsFeed(Shift(c), n - 1);
      FeedOne(c, [], false);
      assert [] + [false] == [false];
      FeedConcat(c, [false], Zeros(n - 1));
      assert [false] + Zeros(n - 1) == Zeros(n);
    }
  }

  lemma {:induction false} StepZerosSum(c: Register, m: nat, n: nat)
    ensures StepZeros(c, m + n) == StepZeros(StepZeros(c, m), n)
    decreases m
  {
    if m > 0 {
      StepZerosSum(Shift(c), m - 1, n);
    }
  }

  lemma OneStep(c: Register)
    ensures StepZeros(c, 1) == Shift(c)
  {
    assert StepZeros(c, 1) == StepZeros(Shift(c), 0);
  }

  predicate Returns(n: nat) { StepZeros(ONE, n) == ONE }

  lemma ReturnsMinus(m: nat, n: nat)
    requires n <= m && Returns(n)
    ensures Returns(m) <==> Returns(m - n)
  {
    StepZerosSum(ONE, n, m - n);
  }

  /** Euclid's step: whole turns can be taken off. */
  lemma {:induction false} TakeOffTurns(m: nat, n: nat) returns (k: nat, r: nat)
    requires n > 0 && Returns(n)
    ensures m == n * k + r && r < n
    ensures Returns(m) <==> Returns(r)
    decreases m
  {
    if m < n {
      k, r := 0, m;
    } else {
      ReturnsMinus(m, n);
      k, r := TakeOffTurns(m - n, n);
      assert n * (k + 1) == n * k + n;
      k := k + 1;
    }
  }

  lemma SmallDivisor(n: nat, k: nat)
    requires n < 12 && n != 1
    ensures n * k != 127
  {
    if n == 0 {} else if n == 2 {} else if n == 3 {} else if n == 4 {} else if n == 5 {} else if n == 6 {}
    else if n == 7 {} else if n == 8 {} else if n == 9 {} else if n == 10 {} else {}
  }

  lemma NoDivisor(n: nat, k: nat)
    requires 1 < n < 127
    ensures n * k != 127
  {
    if n >= 12 && k >= 12 {
      assert n * k >= 12 * k;
    } else if n < 12 {
      SmallDivisor(n, k);
    } else if k != 1 {
      SmallDivisor(k, n);
    }
  }

  /** 127 is prime, so nothing shorter brings the register round. */
  lemma {:induction false} NoShorterCycle(n: nat)
    requires 0 < n < 127
    ensures !Returns(n)
    decreases n
  {
    if Returns(n) {
      FullCycle();
      var k, r := TakeOffTurns(127, n);
      if n == 1 {
        OneStep(ONE);
        assert false;
      } else if r == 0 {
        NoDivisor(n, k);
      } else {
        NoShorterCycle(r);
      }
    }
  }

  lemma ReturnsIff(n: nat)
    ensures Returns(n) <==> n % 127 == 0
  {
    FullCycle();
    var k, r := TakeOffTurns(n, 127);
    if r > 0 {
      NoShorterCycle(r);
    }
  }

  /** Exactly the bits at `i` and `j` set. */
  function TwoBits(n: nat, i: nat, j: nat): Bits { seq(n, k => k == i || k == j) }

  lemma FirstFlip()
    ensures Next(ZERO, true) == ONE
  {
  }

  lemma LastFlip(c: Register)
    ensures Next(c, true) == ZERO <==> Shift(c) == ONE
  {
  }

  /** Two flipped bits are caught if and only if their distance is not a multiple of 127. */
  lemma DoubleErrorsDetectedIff(a: seq<byte>, b: seq<byte>, i: nat, j: nat)
    requires |a| == |b| && i < j < 8 * |a| && Flips(a, b) == TwoBits(8 * |a|, i, j)
    ensures Crc(a) != Crc(b) <==> (j - i) % 127 != 0
  {
    hide Next, Shift;
    var n, d := 8 * |a|, j - i;
    FirstFlip();
    var head := Zeros(i) + [true] + Zeros(d - 1);
    assert TwoBits(n, i, j) == head + [true] + Zeros(n - j - 1);
    FeedConcat(ZERO, head + [true], Zeros(n - j - 1));
    ZerosKeepNonzero(Feed(ZERO, head + [true]), n - j - 1);
    FeedOne(ZERO, head, true);
    FeedConcat(ZERO, Zeros(i) + [true], Zeros(d - 1));
    FeedOne(ZERO, Zeros(i), true);
    ZerosKeepNonzero(ZERO, i);
    StepZerosIsFeed(ONE, d - 1);
    var c := Feed(ZERO, head);
    assert c == StepZeros(ONE, d - 1);
    StepZerosSum(ONE, d - 1, 1);
    OneStep(c);
    LastFlip(c);
    ReturnsIff(d);
    SameCrcIff(a, b);
  }

  // ----- Which bit of which byte -----

  lemma ByteBit(b: byte, j: nat)
    requires j < 8
    ensures ByteBits(b)[j] <==> b as int / [128, 64, 32, 16, 8, 4, 2, 1][j] % 2 == 1
  {
  }

  /** The bytes go in from the first to the last, and each from its most significant bit to its least. */
  lemma {:induction false} MessageBitAt(data: seq<byte>, i: nat, j: nat)
    requires i < |data| && j < 8
    ensures MessageBits(data)[8 * i + j] <==> data[i] as int / [128, 64, 32, 16, 8, 4, 2, 1][j] % 2 == 1
  {
    var n := |data| - 1;
    hide ByteBits;
    assert MessageBits(data) == MessageBits(data[..n]) + ByteBits(data[n]);
    if i < n {
      MessageBitAt(data[..n], i, j);
    } else {
      ByteBit(data[n], j);
    }
  }

  lemma OneBitSet(b: byte, j: nat, k: nat)
    requires j < 8 && k < 8 && b == [128, 64, 32, 16, 8, 4, 2, 1][j]
    ensures b as int / [128, 64, 32, 16, 8, 4, 2, 1][k] % 2 == 1 <==> k == j
  {
  }

  lemma SingleBitAt(data: seq<byte>, i: nat, j: nat, t: nat)
    requires i < |data| && j < 8 && data[i] == [128, 64, 32, 16, 8, 4, 2, 1][j]
    requires forall k :: 0 <= k < |data| && k != i ==> data[k] == 0
    requires t < 8 * |data|
    ensures MessageBits(data)[t] <==> t == 8 * i + j
  {
    hide MessageBits;
    var q, r := t / 8, t % 8;
    assert t == 8 * q + r;
    MessageBitAt(data, q, r);
    if q == i {
      OneBitSet(data[i], j, r);
    } else {
      OneBitSet(128, 0, r);
      assert data[q] == 0;
    }
  }

  lemma OneAt(bits: Bits, at: nat)
    requires at < |bits| && forall t :: 0 <= t < |bits| ==> (bits[t] <==> t == at)
    ensures bits == Zeros(at) + [true] + Zeros(|bits| - 1 - at)
  {
  }

  /** A message with one bit set, as coefficients. */
  lemma SingleBitMessage(data: seq<byte>, i: nat, j: nat)
    requires i < |data| && j < 8 && data[i] == [128, 64, 32, 16, 8, 4, 2, 1][j]
    requires forall k :: 0 <= k < |data| && k != i ==> data[k] == 0
    ensures MessageBits(data) == Zeros(8 * i + j) + [true] + Zeros(8 * |data| - 1 - (8 * i + j))
  {
    hide MessageBits, Zeros;
    var bits := MessageBits(data);
    forall t | 0 <= t < 8 * |data| ensures bits[t] <==> t == 8 * i + j {
      SingleBitAt(data, i, j, t);
    }
    OneAt(bits, 8 * i + j);
  }

  lemma EightMoreZeros(before: nat, after: nat)
    ensures Zeros(before) + [true] + Zeros(after) + Zeros(8) == Zeros(before) + [true] + Zeros(after + 8)
  {
    assert Zeros(after) + Zeros(8) == Zeros(after + 8);
    var head := Zeros(before) + [true];
    hide Zeros;
    assert head + Zeros(after) + Zeros(8) == head + (Zeros(after) + Zeros(8));
  }

  /** A one among zeros leaves a power of x. */
  lemma FeedOneAt(before: nat, after: nat)
    ensures Feed(ZERO, Zeros(before) + [true] + Zeros(after)) == StepZeros(ONE, after)
  {
    FirstFlip();
    hide Next, Shift, Zeros;
    FeedConcat(ZERO, Zeros(before) + [true], Zeros(after));
    FeedOne(ZERO, Zeros(before), true);
    ZerosKeepNonzero(ZERO, before);
    StepZerosIsFeed(ONE, after);
  }

  /**
    The CRC of a block with one bit set is a power of x: as many steps from 1 as there are bits after
    it, and the eight zeros.
   */
  lemma {:induction false} SingleBitCrc(data: seq<byte>, i: nat, j: nat)
    requires i < |data| && j < 8 && data[i] == [128, 64, 32, 16, 8, 4, 2, 1][j]
    requires forall k :: 0 <= k < |data| && k != i ==> data[k] == 0
    ensures CrcRegister(data) == StepZeros(ONE, 8 * (|data| - i) + 7 - j)
  {
    assert CrcRegister(data) == Feed(ZERO, MessageBits(data) + Zeros(8));
    hide *;
    SingleBitMessage(data, i, j);
    var before, rest := 8 * i + j, 8 * |data| - 1 - (8 * i + j);
    FeedOneAt(before, rest + 8);
    EightMoreZeros(before, rest);
  }

  /**
    Two blocks of one set bit: first byte 1 gives 0x04, since x^256 is x^2; last byte 1 gives 0x85,
    the generator's lower terms.
   */
  lemma KnownCrcs(first: seq<byte>, last: seq<byte>)
    requires |first| == 32 && first[0] == 1 && forall k :: 0 < k < 32 ==> first[k] == 0
    requires |last| == 32 && last[31] == 1 && forall k :: 0 <= k < 31 ==> last[k] == 0
    ensures Crc(first) == 0x04 && Crc(last) == 0x85
  {
    SingleBitCrc(first, 0, 7);
    SingleBitCrc(last, 31, 7);
    hide MessageBits, CrcRegister;
    FullCycle();
    StepZerosSum(ONE, 127, 129);
    StepZerosSum(ONE, 127, 2);
    assert StepZeros(ONE, 2) == StepZeros(Shift(ONE), 1) == StepZeros(Shift(Shift(ONE)), 0);
    StepEight(ONE, R(1, 0, 0, 0, 0, 1, 0, 1), 0);
  }
}
