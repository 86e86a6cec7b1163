/** CRC-32/ISO-HDLC as the GPT writer computes it, on a 32-bit register, together with the
    table-driven form that section 8 of RFC 1952 gives for the same sum. */
module Crc {

  type byte = bv8

  const POLYNOMIAL: bv32 := 0xEDB8_8320
  const ONES: bv32 := 0xFFFF_FFFF

  /** One round of the inner loop. */
  function BitStep(c: bv32): bv32 {
    if c & 1 != 0 then (c >> 1) ^ POLYNOMIAL else c >> 1
  }

  /** The source selects with a mask that is all ones exactly when the low bit is set. */
  lemma MaskSelects(c: bv32)
    ensures (c >> 1) ^ (POLYNOMIAL & (0 - (c & 1))) == BitStep(c)
  {
    assert c & 1 == 0 || c & 1 == 1;
    if c & 1 == 1 {
      assert 0 - (c & 1) == ONES;
    }
  }

  /** One function, applied a number of times. */
  function Repeat<R>(step: R -> R, c: R, k: nat): R
    decreases k
  {
    if k == 0 then c else Repeat(step, step(c), k - 1)
  }

  function BitSteps(c: bv32, k: nat): bv32 {
    Repeat(BitStep, c, k)
  }

  function ByteStep(c: bv32, b: byte): bv32 {
    BitSteps(c ^ (b as bv32), 8)
  }

  /** Every byte in turn, through one step function. */
  function Fold<R>(step: (R, byte) -> R, c: R, bytes: seq<byte>): R
    decreases bytes
  {
    if bytes == [] then c else Fold(step, step(c, bytes[0]), bytes[1..])
  }

  function Feed(c: bv32, bytes: seq<byte>): bv32 {
    Fold(ByteStep, c, bytes)
  }

  function Checksum(bytes: seq<byte>): bv32 {
    !Feed(ONES, bytes)
  }

  method Crc32(bytes: seq<byte>) returns (sum: bv32)
    ensures sum == Checksum(bytes)
  {
    var crc := ONES;
    for i := 0 to |bytes|
      invariant Feed(crc, bytes[i..]) == Feed(ONES, bytes)
    {
      ghost var before := crc;
      crc := crc ^ (bytes[i] as bv32);
      for k := 0 to 8
        invariant BitSteps(crc, 8 - k) == ByteStep(before, bytes[i])
      {
        MaskSelects(crc);
        var mask := 0 - (crc & 1);
        crc := (crc >> 1) ^ (POLYNOMIAL & mask);
      }
      assert bytes[i..][1..] == bytes[i + 1..];
    }
    sum := !crc;
  }

  // ----- Section 8 of RFC 1952 -----

  function RfcBit(c: bv32): bv32 {
    if c & 1 != 0 then 0xEDB8_8320 ^ (c >> 1) else c >> 1
  }

  function RfcTableEntry(c: bv32, k: nat): bv32 {
    Repeat(RfcBit, c, k)
  }

  function RfcStep(c: bv32, b: byte): bv32 {
    RfcTableEntry((c ^ (b as bv32)) & 0xFF, 8) ^ (c >> 8)
  }

  function RfcCrc(bytes: seq<byte>): bv32 {
    Fold(RfcStep, 0xFFFF_FFFF, bytes) ^ 0xFFFF_FFFF
  }
}

/** Polynomials over GF(2), as coefficient lists with the highest degree first. */
module Gf2 {

  type Poly = seq<bool>

  /** The exponents of the non-zero terms of CRC-32's generator. */
  predicate Term(e: int) {
    e == 32 || e == 26 || e == 23 || e == 22 || e == 16 || e == 12 || e == 11 || e == 10
    || e == 8 || e == 7 || e == 5 || e == 4 || e == 2 || e == 1 || e == 0
  }

  function Generator(): (r: Poly)
    ensures |r| == 33
  {
    seq(33, i => Term(32 - i))
  }

  function Zeros(n: nat): (r: Poly)
    ensures |r| == n
  {
    seq(n, i => false)
  }

  function Ones(n: nat): (r: Poly)
    ensures |r| == n
  {
    seq(n, i => true)
  }

  function Add(p: Poly, q: Poly): (r: Poly)
    requires |p| == |q|
    ensures |r| == |p|
  {
    seq(|p|, i requires 0 <= i < |p| => p[i] != q[i])
  }

  /** Adds `q` to the leading terms of `p`. */
  function AddLeading(p: Poly, q: Poly): (r: Poly)
    requires |q| <= |p|
    ensures |r| == |p|
  {
    seq(|p|, i requires 0 <= i < |p| => if i < |q| then p[i] != q[i] else p[i])
  }

  /** Schoolbook long division by the generator: what is left once every term of degree 32
      and above has been cancelled. */
  function Remainder(p: Poly): (r: Poly)
    requires |p| >= 32
    ensures |r| == 32
    decreases |p|
  {
    if |p| == 32 then p
    else if p[0] then Remainder(AddLeading(p, Generator())[1..])
    else Remainder(p[1..])
  }

  /** The product of a polynomial and the generator. */
  function TimesGenerator(q: Poly): (r: Poly)
    ensures |r| == |q| + 32
  {
    if q == [] then Zeros(32)
    else if q[0] then AddLeading([false] + TimesGenerator(q[1..]), Generator())
    else [false] + TimesGenerator(q[1..])
  }

  lemma CancelLeading(p: Poly, next: Poly, t: Poly, r: Poly)
    requires |p| >= 33 && |t| == |r| == |p| - 1
    requires next == AddLeading(p, Generator())[1..] && next == Add(t, r) && p[0]
    ensures p == Add(AddLeading([false] + t, Generator()), [false] + r)
  {
    assert Generator()[0];
    forall i | 0 < i < |p|
      ensures p[i] == Add(AddLeading([false] + t, Generator()), [false] + r)[i]
    {
      assert next[i - 1] == AddLeading(p, Generator())[i];
      assert next[i - 1] == (t[i - 1] != r[i - 1]);
    }
  }

  lemma KeepLeading(p: Poly, next: Poly, t: Poly, r: Poly)
    requires |p| >= 33 && |t| == |r| == |p| - 1
    requires next == p[1..] && next == Add(t, r) && !p[0]
    ensures p == Add([false] + t, [false] + r)
  {
    assert p == [false] + next;
  }

  lemma ProductOfCons(b: bool, q: Poly)
    ensures TimesGenerator([b] + q)
         == if b then AddLeading([false] + TimesGenerator(q), Generator()) else [false] + TimesGenerator(q)
  {
    assert ([b] + q)[1..] == q;
  }

  /** One round of the division, on the dividend's side and on the product's. */
  lemma DivisionRound(p: Poly, next: Poly, q: Poly, z: Poly)
    requires |p| >= 33 && |q| == |p| - 33 && |z| == |p| - 1
    requires next == if p[0] then AddLeading(p, Generator())[1..] else p[1..]
    requires next == Add(TimesGenerator(q), z)
    ensures p == Add(TimesGenerator([p[0]] + q), [false] + z)
  {
    ProductOfCons(p[0], q);
    if p[0] {
      CancelLeading(p, next, TimesGenerator(q), z);
    } else {
      KeepLeading(p, next, TimesGenerator(q), z);
    }
  }

  lemma OneMoreZero(n: nat, r: Poly)
    ensures [false] + (Zeros(n) + r) == Zeros(n + 1) + r
  {
  }

  /** `Remainder` is the remainder: the dividend is a multiple of the generator plus it. */
  lemma {:induction false} DivisionIdentity(p: Poly) returns (q: Poly)
    requires |p| >= 32
    ensures |q| == |p| - 32 && p == Add(TimesGenerator(q), Zeros(|q|) + Remainder(p))
    decreases |p|
  {
    if |p| == 32 {
      q := [];
    } else {
      var next := if p[0] then AddLeading(p, Generator())[1..] else p[1..];
      var q' := DivisionIdentity(next);
      DivisionRound(p, next, q', Zeros(|q'|) + Remainder(next));
      OneMoreZero(|q'|, Remainder(next));
      q := [p[0]] + q';
    }
  }

  // ----- The division one bit at a time -----

  /** A 32-term remainder times x, plus `m` times x^32, reduced. */
  function Feedback(c: Poly, m: bool): (r: Poly)
    requires |c| == 32
    ensures |r| == 32
  {
    if c[0] != m then Add(c[1..] + [false], Generator()[1..]) else c[1..] + [false]
  }

  function Serial(c: Poly, bits: Poly): (r: Poly)
    requires |c| == 32
    ensures |r| == 32
    decreases |bits|
  {
    if bits == [] then c else Serial(Feedback(c, bits[0]), bits[1..])
  }

  /** One bit absorbed is one round of the division. */
  lemma FeedbackIsOneRound(c: Poly, m: Poly)
    requires |c| == 32 && m != []
    ensures AddLeading(m[1..] + Zeros(32), Feedback(c, m[0]))
         == if c[0] != m[0] then AddLeading(AddLeading(m + Zeros(32), c), Generator())[1..]
            else AddLeading(m + Zeros(32), c)[1..]
  {
  }

  /** Absorbing a message bit by bit is dividing it, with the starting register added to its
      leading terms and 32 zeros after it. */
  lemma {:induction false} SerialIsRemainder(c: Poly, m: Poly)
    requires |c| == 32
    ensures Serial(c, m) == Remainder(AddLeading(m + Zeros(32), c))
    decreases |m|
  {
    if m == [] {
      assert AddLeading(m + Zeros(32), c) == c;
    } else {
      FeedbackIsOneRound(c, m);
      SerialIsRemainder(Feedback(c, m[0]), m[1..]);
    }
  }

  lemma {:induction false} SerialConcat(c: Poly, s: Poly, t: Poly)
    requires |c| == 32
    ensures Serial(c, s + t) == Serial(Serial(c, s), t)
    decreases |s|
  {
    if s == [] {
      assert s + t == t;
    } else {
      assert (s + t)[1..] == s[1..] + t;
      SerialConcat(Feedback(c, s[0]), s[1..], t);
    }
  }

  /** Up to 32 bits may be added to the register first and shifted through afterwards. */
  lemma {:induction false} AddThenShift(c: Poly, u: Poly)
    requires |c| == 32 && |u| <= 32
    ensures Serial(AddLeading(c, u), Zeros(|u|)) == Serial(c, u)
    decreases |u|
  {
    var x := AddLeading(c, u);
    if u == [] {
      assert x == c;
    } else {
      AddThenShift(Feedback(c, u[0]), u[1..]);
      assert Zeros(|u|)[1..] == Zeros(|u| - 1);
      assert Feedback(x, false) == AddLeading(Feedback(c, u[0]), u[1..]);
    }
  }

  // ----- Nothing is lost -----

  lemma FeedbackIsInjective(a: Poly, b: Poly, m: bool)
    requires |a| == |b| == 32 && Feedback(a, m) == Feedback(b, m)
    ensures a == b
  {
    var x, y := Feedback(a, m), Feedback(b, m);
    assert Generator()[32];
    assert x[31] == (a[0] != m) && y[31] == (b[0] != m);
    forall i | 0 < i < 32
      ensures a[i] == b[i]
    {
      assert x[i - 1] == y[i - 1];
    }
  }

  lemma {:induction false} SerialIsInjective(a: Poly, b: Poly, bits: Poly)
    requires |a| == |b| == 32 && Serial(a, bits) == Serial(b, bits)
    ensures a == b
    decreases |bits|
  {
    if bits != [] {
      SerialIsInjective(Feedback(a, bits[0]), Feedback(b, bits[0]), bits[1..]);
      FeedbackIsInjective(a, b, bits[0]);
    }
  }

  /** Two different bit strings of at most 32 bits take one register to different ones. */
  lemma ShortBurstIsInjective(c: Poly, u: Poly, v: Poly)
    requires |c| == 32 && |u| == |v| <= 32 && Serial(c, u) == Serial(c, v)
    ensures u == v
  {
    AddThenShift(c, u);
    AddThenShift(c, v);
    SerialIsInjective(AddLeading(c, u), AddLeading(c, v), Zeros(|u|));
    forall i | 0 <= i < |u|
      ensures u[i] == v[i]
    {
      assert AddLeading(c, u)[i] == AddLeading(c, v)[i];
    }
  }

  // ----- Linearity, for the table -----

  lemma FeedbackIsLinear(p: Poly, q: Poly)
    requires |p| == |q| == 32
    ensures Feedback(Add(p, q), false) == Add(Feedback(p, false), Feedback(q, false))
  {
  }

  lemma {:induction false} SerialIsLinear(p: Poly, q: Poly, k: nat)
    requires |p| == |q| == 32
    ensures Serial(Add(p, q), Zeros(k)) == Add(Serial(p, Zeros(k)), Serial(q, Zeros(k)))
    decreases k
  {
    if k > 0 {
      assert Zeros(k)[1..] == Zeros(k - 1);
      SerialIsLinear(Feedback(p, false), Feedback(q, false), k - 1);
      FeedbackIsLinear(p, q);
    }
  }

  lemma {:induction false} LowTermsJustShift(h: Poly, k: nat)
    requires |h| + k == 32
    ensures Serial(Zeros(k) + h, Zeros(k)) == h + Zeros(k)
    decreases k
  {
    if k == 0 {
      assert Zeros(0) + h == h + Zeros(0);
    } else {
      assert Zeros(k)[1..] == Zeros(k - 1);
      assert Feedback(Zeros(k) + h, false) == Zeros(k - 1) + (h + [false]);
      LowTermsJustShift(h + [false], k - 1);
      assert h + [false] + Zeros(k - 1) == h + Zeros(k);
    }
  }

  lemma SplitAdd(p: Poly, k: nat)
    requires |p| == 32 && k <= 32
    ensures p == Add(p[..k] + Zeros(32 - k), Zeros(k) + p[k..])
  {
  }

  /** The leading `k` terms go through the division; the rest only move up. */
  lemma SplitShift(p: Poly, k: nat)
    requires |p| == 32 && k <= 32
    ensures Serial(p, Zeros(k)) == Add(Serial(p[..k] + Zeros(32 - k), Zeros(k)), p[k..] + Zeros(k))
  {
    SplitAdd(p, k);
    SerialIsLinear(p[..k] + Zeros(32 - k), Zeros(k) + p[k..], k);
    LowTermsJustShift(p[k..], k);
  }
}

/** The register algorithm computes the GF(2) remainder, and what follows from that. */
module CrcTheory {
  import opened Crc
  import opened Gf2

  // ----- The register as a polynomial: its lowest bit has the highest degree -----

  function Mask(i: nat): bv32 {
    if i == 0 then 1 else Mask(i - 1) << 1
  }

  predicate TestBit(c: bv32, m: bv32) {
    c & m != 0
  }

  function Bits32(c: bv32): (r: Poly)
    ensures |r| == 32
  {
    seq(32, i requires 0 <= i < 32 => TestBit(c, Mask(i)))
  }

  function Bits8(b: byte): (r: Poly)
    ensures |r| == 8
  {
    Bits32(b as bv32)[..8]
  }

  /** A message as a polynomial: bytes in order, each byte lowest bit first. */
  function MessageBits(bytes: seq<byte>): (r: Poly)
    ensures |r| == 8 * |bytes|
  {
    if bytes == [] then [] else Bits8(bytes[0]) + MessageBits(bytes[1..])
  }

  lemma {:induction false} MaskIsOneBit(i: nat)
    ensures Mask(i) & (Mask(i) - 1) == 0
  {
    if i > 0 {
      MaskIsOneBit(i - 1);
      var m := Mask(i - 1);
      assert (m << 1) & ((m << 1) - 1) == 0;
    }
  }

  lemma MaskEnds()
    ensures Mask(31) == 0x8000_0000 && Mask(32) == 0
  {
    assert Mask(8) == 0x100;
    assert Mask(16) == 0x1_0000;
    assert Mask(24) == 0x100_0000;
    assert Mask(31) == 0x8000_0000;
  }

  lemma TestXor(a: bv32, b: bv32, m: bv32)
    requires m & (m - 1) == 0
    ensures TestBit(a ^ b, m) == (TestBit(a, m) != TestBit(b, m))
  {
  }

  lemma TestShift(c: bv32, m: bv32)
    ensures TestBit(c >> 1, m) == TestBit(c, m << 1)
  {
  }

  lemma XorIsAdd(a: bv32, b: bv32)
    ensures Bits32(a ^ b) == Add(Bits32(a), Bits32(b))
  {
    forall i | 0 <= i < 32
      ensures Bits32(a ^ b)[i] == (Bits32(a)[i] != Bits32(b)[i])
    {
      MaskIsOneBit(i);
      TestXor(a, b, Mask(i));
    }
  }

  lemma TopBitIsClear(c: bv32)
    ensures !TestBit(c >> 1, Mask(31))
  {
    MaskEnds();
  }

  lemma ShiftIsTimesX(c: bv32)
    ensures Bits32(c >> 1) == Bits32(c)[1..] + [false]
  {
    forall i | 0 <= i < 31
      ensures Bits32(c >> 1)[i] == TestBit(c, Mask(i) << 1)
    {
      TestShift(c, Mask(i));
    }
    assert forall i :: 0 <= i < 31 ==> Mask(i) << 1 == Mask(i + 1);
    TopBitIsClear(c);
  }

  lemma {:induction false} NoBits(d: bv32, k: nat)
    requires forall i :: 0 <= i < k ==> !TestBit(d, Mask(i))
    ensures d & (Mask(k) - 1) == 0
  {
    if k > 0 {
      var m := Mask(k - 1);
      NoBits(d, k - 1);
      MaskIsOneBit(k - 1);
      assert !TestBit(d, m);
    }
  }

  lemma Bits32IsInjective(a: bv32, b: bv32)
    requires Bits32(a) == Bits32(b)
    ensures a == b
  {
    XorIsAdd(a, b);
    var d := Bits32(a ^ b);
    assert forall i :: 0 <= i < 32 ==> !d[i];
    assert forall i :: 0 <= i < 32 ==> d[i] == TestBit(a ^ b, Mask(i));
    NoBits(a ^ b, 32);
    MaskEnds();
    XorIsZero(a, b);
  }

  lemma XorIsZero(a: bv32, b: bv32)
    requires (a ^ b) & 0xFFFF_FFFF == 0
    ensures a == b
  {
  }

  lemma MaskValues()
    ensures
      && Mask(0) == 0x1 && Mask(1) == 0x2 && Mask(2) == 0x4 && Mask(3) == 0x8
      && Mask(4) == 0x10 && Mask(5) == 0x20 && Mask(6) == 0x40 && Mask(7) == 0x80
      && Mask(8) == 0x100 && Mask(9) == 0x200 && Mask(10) == 0x400 && Mask(11) == 0x800
      && Mask(12) == 0x1000 && Mask(13) == 0x2000 && Mask(14) == 0x4000 && Mask(15) == 0x8000
      && Mask(16) == 0x1_0000 && Mask(17) == 0x2_0000 && Mask(18) == 0x4_0000 && Mask(19) == 0x8_0000
      && Mask(20) == 0x10_0000 && Mask(21) == 0x20_0000 && Mask(22) == 0x40_0000 && Mask(23) == 0x80_0000
      && Mask(24) == 0x100_0000 && Mask(25) == 0x200_0000 && Mask(26) == 0x400_0000 && Mask(27) == 0x800_0000
      && Mask(28) == 0x1000_0000 && Mask(29) == 0x2000_0000 && Mask(30) == 0x4000_0000 && Mask(31) == 0x8000_0000
  {
  }

  lemma PolynomialIsTheGenerator()
    ensures Bits32(0xEDB8_8320) == Generator()[1..]
  {
    MaskValues();
  }

  lemma OnesAreOnes()
    ensures Bits32(0xFFFF_FFFF) == Ones(32)
  {
    MaskValues();
  }

  lemma ByteIsSmall(b: byte)
    ensures Bits32(b as bv32) == Bits8(b) + Zeros(24)
  {
    MaskValues();
  }

  lemma LowByte(c: bv32)
    ensures Bits32(c & 0xFF) == Bits32(c)[..8] + Zeros(24)
  {
    MaskValues();
  }

  // ----- The register algorithm is the serial division -----

  lemma BitStepIsFeedback(c: bv32)
    ensures Bits32(BitStep(c)) == Feedback(Bits32(c), false)
  {
    ShiftIsTimesX(c);
    assert Bits32(c)[0] == (c & 1 != 0);
    if c & 1 != 0 {
      PolynomialIsTheGenerator();
      XorIsAdd(c >> 1, POLYNOMIAL);
    }
  }

  lemma {:induction false} BitStepsAreSerial(c: bv32, k: nat)
    ensures Bits32(BitSteps(c, k)) == Serial(Bits32(c), Zeros(k))
    decreases k
  {
    if k > 0 {
      assert Zeros(k)[1..] == Zeros(k - 1);
      BitStepIsFeedback(c);
      BitStepsAreSerial(BitStep(c), k - 1);
    }
  }

  lemma AddByte(c: Poly, wide: Poly, u: Poly)
    requires |c| == 32 && |u| == 8 && wide == u + Zeros(24)
    ensures Add(c, wide) == AddLeading(c, u)
    ensures AddLeading(c, u)[8..] == c[8..]
  {
  }

  lemma XorWordIsAddLeading(c: bv32, w: bv32, u: Poly)
    requires |u| == 8 && Bits32(w) == u + Zeros(24)
    ensures Bits32(c ^ w) == AddLeading(Bits32(c), u)
    ensures Bits32(c ^ w)[8..] == Bits32(c)[8..]
  {
    XorIsAdd(c, w);
    AddByte(Bits32(c), Bits32(w), u);
  }

  lemma XorByteIsAddLeading(c: bv32, b: byte)
    ensures Bits32(c ^ (b as bv32)) == AddLeading(Bits32(c), Bits8(b))
    ensures Bits32(c ^ (b as bv32))[8..] == Bits32(c)[8..]
  {
    ByteIsSmall(b);
    XorWordIsAddLeading(c, b as bv32, Bits8(b));
  }

  lemma EightStepsAreSerial(x: bv32, c: Poly, u: Poly)
    requires |c| == 32 && |u| == 8 && Bits32(x) == AddLeading(c, u)
    ensures Bits32(BitSteps(x, 8)) == Serial(c, u)
  {
    BitStepsAreSerial(x, 8);
    AddThenShift(c, u);
  }

  lemma ByteStepIsSerial(c: bv32, b: byte)
    ensures Bits32(ByteStep(c, b)) == Serial(Bits32(c), Bits8(b))
  {
    XorByteIsAddLeading(c, b);
    EightStepsAreSerial(c ^ (b as bv32), Bits32(c), Bits8(b));
  }

  lemma {:induction false} FeedIsSerial(c: bv32, bytes: seq<byte>)
    ensures Bits32(Feed(c, bytes)) == Serial(Bits32(c), MessageBits(bytes))
    decreases bytes
  {
    if bytes != [] {
      ByteStepIsSerial(c, bytes[0]);
      FeedIsSerial(ByteStep(c, bytes[0]), bytes[1..]);
      SerialConcat(Bits32(c), Bits8(bytes[0]), MessageBits(bytes[1..]));
    }
  }

  lemma ComplementIsAddOnes(c: bv32)
    ensures !c == c ^ 0xFFFF_FFFF
    ensures Bits32(!c) == Add(Bits32(c), Ones(32))
  {
    assert !c == c ^ 0xFFFF_FFFF;
    XorIsAdd(c, 0xFFFF_FFFF);
    OnesAreOnes();
  }

  /** CRC-32 by its definition: the message times x^32 with its first 32 coefficients
      complemented, reduced modulo the generator, and complemented. */
  lemma ChecksumIsTheRemainder(bytes: seq<byte>)
    ensures Bits32(Checksum(bytes))
         == Add(Remainder(AddLeading(MessageBits(bytes) + Zeros(32), Ones(32))), Ones(32))
  {
    FeedIsSerial(ONES, bytes);
    OnesAreOnes();
    SerialIsRemainder(Ones(32), MessageBits(bytes));
    ComplementIsAddOnes(Feed(ONES, bytes));
  }

  // ----- Section 8 of RFC 1952 -----

  lemma XorSwaps(c: bv32)
    ensures c ^ POLYNOMIAL == 0xEDB8_8320 ^ c
  {
  }

  lemma {:induction false} TableEntryIsBitSteps(c: bv32, k: nat)
    ensures RfcTableEntry(c, k) == BitSteps(c, k)
    decreases k
  {
    if k > 0 {
      XorSwaps(c >> 1);
      TableEntryIsBitSteps(BitStep(c), k - 1);
    }
  }

  function Down(c: bv32, k: nat): bv32
    decreases k
  {
    if k == 0 then c else Down(c >> 1, k - 1)
  }

  lemma {:induction false} DownIsTimesPower(c: bv32, k: nat)
    requires k <= 32
    ensures Bits32(Down(c, k)) == Bits32(c)[k..] + Zeros(k)
    decreases k
  {
    if k > 0 {
      DownIsTimesPower(c >> 1, k - 1);
      ShiftIsTimesX(c);
      assert [false] + Zeros(k - 1) == Zeros(k);
    }
  }

  lemma DownEight(c: bv32)
    ensures Down(c, 8) == c >> 8
  {
    assert ((((((((c >> 1) >> 1) >> 1) >> 1) >> 1) >> 1) >> 1) >> 1) == c >> 8;
  }

  lemma ShiftEight(c: bv32)
    ensures Bits32(c >> 8) == Bits32(c)[8..] + Zeros(8)
  {
    DownEight(c);
    DownIsTimesPower(c, 8);
  }

  /** The same eight steps, taken on the low byte alone and on the whole register. */
  lemma TableCoversTheLowByte(x: bv32, low: bv32)
    requires Bits32(low) == Bits32(x)[..8] + Zeros(24)
    ensures Bits32(BitSteps(x, 8)) == Add(Bits32(RfcTableEntry(low, 8)), Bits32(x)[8..] + Zeros(8))
  {
    TableEntryIsBitSteps(low, 8);
    BitStepsAreSerial(low, 8);
    BitStepsAreSerial(x, 8);
    SplitShift(Bits32(x), 8);
  }

  lemma SameBits(x: bv32, low: bv32, down: bv32, r: bv32)
    requires Bits32(low) == Bits32(x)[..8] + Zeros(24)
    requires Bits32(down) == Bits32(x)[8..] + Zeros(8)
    requires Bits32(r) == Add(Bits32(RfcTableEntry(low, 8)), Bits32(down))
    ensures BitSteps(x, 8) == r
  {
    TableCoversTheLowByte(x, low);
    Bits32IsInjective(BitSteps(x, 8), r);
  }

  lemma TableStep(x: bv32, low: bv32, down: bv32, entry: bv32)
    requires Bits32(low) == Bits32(x)[..8] + Zeros(24)
    requires Bits32(down) == Bits32(x)[8..] + Zeros(8)
    requires entry == RfcTableEntry(low, 8)
    ensures BitSteps(x, 8) == entry ^ down
  {
    XorIsAdd(entry, down);
    SameBits(x, low, down, entry ^ down);
  }

  lemma TableStepAt(c: bv32, x: bv32, entry: bv32)
    requires Bits32(x)[8..] == Bits32(c)[8..]
    requires entry == RfcTableEntry(x & 0xFF, 8)
    ensures BitSteps(x, 8) == entry ^ (c >> 8)
  {
    LowByte(x);
    ShiftEight(c);
    TableStep(x, x & 0xFF, c >> 8, entry);
  }

  lemma RegistersAgree(c: bv32, b: byte)
    ensures BitSteps(c ^ (b as bv32), 8) == RfcTableEntry((c ^ (b as bv32)) & 0xFF, 8) ^ (c >> 8)
  {
    XorByteIsAddLeading(c, b);
    TableStepAt(c, c ^ (b as bv32), RfcTableEntry((c ^ (b as bv32)) & 0xFF, 8));
  }

  lemma StepsAgree(c: bv32, b: byte)
    ensures ByteStep(c, b) == RfcStep(c, b)
  {
    RegistersAgree(c, b);
  }

  lemma AllStepsAgree()
    ensures forall c: bv32, b: byte :: ByteStep(c, b) == RfcStep(c, b)
  {
    forall c: bv32, b: byte
      ensures ByteStep(c, b) == RfcStep(c, b)
    {
      StepsAgree(c, b);
    }
  }

  lemma {:induction false} FoldCongruence<R(!new)>(f: (R, byte) -> R, g: (R, byte) -> R, c: R, bytes: seq<byte>)
    requires forall r, b :: f(r, b) == g(r, b)
    ensures Fold(f, c, bytes) == Fold(g, c, bytes)
    decreases bytes
  {
    if bytes != [] {
      FoldCongruence(f, g, f(c, bytes[0]), bytes[1..]);
    }
  }

  lemma FoldsAgree(bytes: seq<byte>)
    ensures Fold(ByteStep, ONES, bytes) == Fold(RfcStep, ONES, bytes)
  {
    AllStepsAgree();
    FoldCongruence(ByteStep, RfcStep, ONES, bytes);
  }

  lemma ChecksumIsRfc1952(bytes: seq<byte>)
    ensures Checksum(bytes) == RfcCrc(bytes)
  {
    FoldsAgree(bytes);
    ComplementIsAddOnes(Feed(ONES, bytes));
  }

  // ----- A change within four consecutive bytes cannot go unnoticed -----

  lemma Bits8IsInjective(a: byte, b: byte)
    requires Bits8(a) == Bits8(b)
    ensures a == b
  {
    ByteIsSmall(a);
    ByteIsSmall(b);
    Bits32IsInjective(a as bv32, b as bv32);
  }

  lemma {:induction false} MessageBitsAreInjective(s: seq<byte>, t: seq<byte>)
    requires |s| == |t| && MessageBits(s) == MessageBits(t)
    ensures s == t
  {
    if s != [] {
      assert Bits8(s[0]) == MessageBits(s)[..8] == MessageBits(t)[..8] == Bits8(t[0]);
      assert MessageBits(s[1..]) == MessageBits(s)[8..] == MessageBits(t)[8..] == MessageBits(t[1..]);
      Bits8IsInjective(s[0], t[0]);
      MessageBitsAreInjective(s[1..], t[1..]);
    }
  }

  lemma {:induction false} MessageBitsConcat(s: seq<byte>, t: seq<byte>)
    ensures MessageBits(s + t) == MessageBits(s) + MessageBits(t)
  {
    if s == [] {
      assert s + t == t;
    } else {
      assert (s + t)[1..] == s[1..] + t;
      MessageBitsConcat(s[1..], t);
    }
  }

  lemma FeedInThreeParts(pre: seq<byte>, s: seq<byte>, post: seq<byte>)
    ensures Bits32(Feed(ONES, pre + s + post))
         == Serial(Serial(Serial(Bits32(ONES), MessageBits(pre)), MessageBits(s)), MessageBits(post))
  {
    FeedIsSerial(ONES, pre + s + post);
    MessageBitsConcat(pre + s, post);
    MessageBitsConcat(pre, s);
    SerialConcat(Bits32(ONES), MessageBits(pre) + MessageBits(s), MessageBits(post));
    SerialConcat(Bits32(ONES), MessageBits(pre), MessageBits(s));
  }

  lemma BurstChangesTheRegister(pre: seq<byte>, s: seq<byte>, t: seq<byte>, post: seq<byte>)
    requires |s| == |t| <= 4 && s != t
    ensures Bits32(Feed(ONES, pre + s + post)) != Bits32(Feed(ONES, pre + t + post))
  {
    FeedInThreeParts(pre, s, post);
    FeedInThreeParts(pre, t, post);
    var c := Serial(Bits32(ONES), MessageBits(pre));
    if Serial(Serial(c, MessageBits(s)), MessageBits(post)) == Serial(Serial(c, MessageBits(t)), MessageBits(post)) {
      SerialIsInjective(Serial(c, MessageBits(s)), Serial(c, MessageBits(t)), MessageBits(post));
      ShortBurstIsInjective(c, MessageBits(s), MessageBits(t));
      MessageBitsAreInjective(s, t);
    }
  }

  lemma ComplementIsInjective(a: bv32, b: bv32)
    requires a != b
    ensures !a != !b
  {
    assert !(!a) == a && !(!b) == b;
  }

  /** Two messages of one length that differ only within four consecutive bytes have
      different checksums. */
  lemma BurstIsDetected(pre: seq<byte>, s: seq<byte>, t: seq<byte>, post: seq<byte>)
    requires |s| == |t| <= 4 && s != t
    ensures Checksum(pre + s + post) != Checksum(pre + t + post)
  {
    BurstChangesTheRegister(pre, s, t, post);
    ComplementIsInjective(Feed(ONES, pre + s + post), Feed(ONES, pre + t + post));
  }
}
