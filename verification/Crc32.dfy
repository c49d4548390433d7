/** The bitwise CRC-32 of the hand-built PNG fixture, and the bursts it always detects. A 32-bit
    integer is modelled by its bits, lowest first. */
module Crc32 {
  type Byte = n: nat | n < 256

  type Word32 = w: seq<bool> | |w| == 32 witness seq(32, i => false)

  // ---- 32-bit words -----------------------------------------------------------------------------

  function Nibble(n: nat): (bits: seq<bool>)
    ensures |bits| == 4
  {
    [n % 2 == 1, n / 2 % 2 == 1, n / 4 % 2 == 1, n / 8 % 2 == 1]
  }

  /** 0xEDB88320. */
  const POLYNOMIAL: Word32 :=
    Nibble(0x0) + Nibble(0x2) + Nibble(0x3) + Nibble(0x8) + Nibble(0x8) + Nibble(0xB) + Nibble(0xD) + Nibble(0xE)

  /** `~0`. */
  const ONES: Word32 :=
    Nibble(0xF) + Nibble(0xF) + Nibble(0xF) + Nibble(0xF) + Nibble(0xF) + Nibble(0xF) + Nibble(0xF) + Nibble(0xF)

  function Xor(a: Word32, b: Word32): Word32 {
    seq(32, i requires 0 <= i < 32 => a[i] != b[i])
  }

  function And(a: Word32, b: Word32): Word32 {
    seq(32, i requires 0 <= i < 32 => a[i] && b[i])
  }

  function Not(a: Word32): Word32 {
    seq(32, i requires 0 <= i < 32 => !a[i])
  }

  /** `c >>> 1`. */
  function ShiftRight(c: Word32): Word32 {
    c[1..] + [false]
  }

  /** `-(c & 1)`: all ones when the lowest bit is set, zero otherwise. */
  function NegatedLowBit(c: Word32): Word32 {
    seq(32, i => c[0])
  }

  /** A short bit string as a word, the missing high bits clear. */
  function Pad(bits: seq<bool>): Word32 {
    seq(32, i => 0 <= i < |bits| && bits[i])
  }

  function ByteBits(b: Byte): (bits: seq<bool>)
    ensures |bits| == 8
  {
    Nibble(b % 16) + Nibble(b / 16)
  }

  // ---- The checksum -----------------------------------------------------------------------------

  /** One turn of the inner loop. */
  function BitStep(c: Word32): Word32 {
    Xor(ShiftRight(c), And(POLYNOMIAL, NegatedLowBit(c)))
  }

  function Steps(n: nat, c: Word32): Word32 {
    if n == 0 then c else Steps(n - 1, BitStep(c))
  }

  function ByteStep(c: Word32, b: Byte): Word32 {
    Steps(8, Xor(c, Pad(ByteBits(b))))
  }

  /** The register after a whole message. */
  function Register(c: Word32, message: seq<Byte>): Word32
    decreases |message|
  {
    if message == [] then c else Register(ByteStep(c, message[0]), message[1..])
  }

  function Crc(message: seq<Byte>): Word32 {
    Not(Register(ONES, message))
  }

  /** The fixture's `crc`, with its loops over bytes and bits. */
  method ComputeCrc(buf: seq<Byte>) returns (crc: Word32)
    ensures crc == Crc(buf)
  {
    var c := ONES;
    for k := 0 to |buf|
      invariant Register(c, buf[k..]) == Register(ONES, buf)
    {
      ghost var before := c;
      c := Xor(c, Pad(ByteBits(buf[k])));
      for i := 0 to 8
        invariant Steps(8 - i, c) == ByteStep(before, buf[k])
      {
        c := Xor(ShiftRight(c), And(POLYNOMIAL, NegatedLowBit(c)));
      }
      assert buf[k..][0] == buf[k] && buf[k..][1..] == buf[k + 1..];
    }
    crc := Not(c);
  }

  // ---- The bit step is a bijection --------------------------------------------------------------

  function BitStepBack(c: Word32): Word32 {
    if c[31] then [true] + Xor(c, POLYNOMIAL)[..31] else [false] + c[..31]
  }

  lemma BitStepIsABijection(c: Word32)
    ensures BitStepBack(BitStep(c)) == c && BitStep(BitStepBack(c)) == c
  {
    assert POLYNOMIAL[31];
    var next, back := BitStep(c), BitStepBack(c);
    assert next[31] == c[0];
    assert forall i :: 0 <= i < 31 ==> next[i] == (c[i + 1] != (POLYNOMIAL[i] && c[0]));
    assert back[0] == c[31];
    assert BitStepBack(next) == c;
    assert BitStep(back) == c;
  }

  lemma {:induction false} StepsInjective(n: nat, c: Word32, d: Word32)
    requires c != d
    ensures Steps(n, c) != Steps(n, d)
  {
    if n > 0 {
      BitStepIsABijection(c);
      BitStepIsABijection(d);
      StepsInjective(n - 1, BitStep(c), BitStep(d));
    }
  }

  // ---- Messages as bits -------------------------------------------------------------------------

  /** One message bit enters at the low end. */
  function Feed(c: Word32, b: bool): Word32 {
    BitStep(Xor(c, Pad([b])))
  }

  function FeedAll(c: Word32, bits: seq<bool>): Word32
    decreases |bits|
  {
    if bits == [] then c else FeedAll(Feed(c, bits[0]), bits[1..])
  }

  /** Bits that have not reached the register's end pass a step by shifting. */
  lemma FeedCommutes(c: Word32, bits: seq<bool>)
    requires 0 < |bits| <= 32
    ensures BitStep(Xor(c, Pad(bits))) == Xor(Feed(c, bits[0]), Pad(bits[1..]))
  {
    var x, y := Xor(c, Pad(bits)), Xor(c, Pad([bits[0]]));
    assert x[0] == y[0];
    assert forall i :: 0 <= i < 31 ==> Pad(bits)[i + 1] == Pad(bits[1..])[i];
    assert forall i :: 0 <= i < 31 ==> x[i + 1] == (y[i + 1] != Pad(bits[1..])[i]);
    assert BitStep(x) == Xor(BitStep(y), Pad(bits[1..]));
  }

  /** Feeding up to 32 bits is one exclusive-or with their word, then as many bit steps. */
  lemma {:induction false} BitsAsOneWord(c: Word32, bits: seq<bool>)
    requires |bits| <= 32
    ensures FeedAll(c, bits) == Steps(|bits|, Xor(c, Pad(bits)))
    decreases |bits|
  {
    if bits == [] {
      assert Xor(c, Pad([])) == c;
    } else {
      FeedCommutes(c, bits);
      BitsAsOneWord(Feed(c, bits[0]), bits[1..]);
    }
  }

  lemma {:induction false} FeedAllConcat(c: Word32, a: seq<bool>, b: seq<bool>)
    ensures FeedAll(c, a + b) == FeedAll(FeedAll(c, a), b)
    decreases |a|
  {
    if a == [] {
      assert a + b == b;
    } else {
      assert (a + b)[1..] == a[1..] + b;
      FeedAllConcat(Feed(c, a[0]), a[1..], b);
    }
  }

  lemma {:induction false} FeedAllInjective(c: Word32, d: Word32, bits: seq<bool>)
    requires c != d
    ensures FeedAll(c, bits) != FeedAll(d, bits)
    decreases |bits|
  {
    if bits != [] {
      XorInjective(c, d, Pad([bits[0]]));
      BitStepIsABijection(Xor(c, Pad([bits[0]])));
      BitStepIsABijection(Xor(d, Pad([bits[0]])));
      FeedAllInjective(Feed(c, bits[0]), Feed(d, bits[0]), bits[1..]);
    }
  }

  lemma XorInjective(c: Word32, d: Word32, x: Word32)
    requires c != d
    ensures Xor(c, x) != Xor(d, x) && Xor(x, c) != Xor(x, d)
  {
    var i :| 0 <= i < 32 && c[i] != d[i];
    assert Xor(c, x)[i] != Xor(d, x)[i] && Xor(x, c)[i] != Xor(x, d)[i];
  }

  lemma BurstsDiffer(c: Word32, a: seq<bool>, b: seq<bool>)
    requires |a| == |b| <= 32 && a != b
    ensures FeedAll(c, a) != FeedAll(c, b)
  {
    BitsAsOneWord(c, a);
    BitsAsOneWord(c, b);
    var i :| 0 <= i < |a| && a[i] != b[i];
    assert Pad(a)[i] != Pad(b)[i];
    XorInjective(Pad(a), Pad(b), c);
    StepsInjective(|a|, Xor(c, Pad(a)), Xor(c, Pad(b)));
  }

  lemma FeedAllThree(c: Word32, before: seq<bool>, a: seq<bool>, after: seq<bool>)
    ensures FeedAll(c, before + a + after) == FeedAll(FeedAll(FeedAll(c, before), a), after)
  {
    FeedAllConcat(c, before, a);
    FeedAllConcat(c, before + a, after);
  }

  /** Two different bursts of at most 32 bits in the same place always leave different registers. */
  lemma BurstChangesRegister(c: Word32, before: seq<bool>, a: seq<bool>, b: seq<bool>, after: seq<bool>)
    requires |a| == |b| <= 32 && a != b
    ensures FeedAll(c, before + a + after) != FeedAll(c, before + b + after)
  {
    var s := FeedAll(c, before);
    FeedAllThree(c, before, a, after);
    FeedAllThree(c, before, b, after);
    BurstsDiffer(s, a, b);
    FeedAllInjective(FeedAll(s, a), FeedAll(s, b), after);
  }

  // ---- Messages as bytes ------------------------------------------------------------------------

  function Bits(message: seq<Byte>): (bits: seq<bool>)
    ensures |bits| == 8 * |message|
  {
    if message == [] then [] else ByteBits(message[0]) + Bits(message[1..])
  }

  lemma {:induction false} MessageAsBits(c: Word32, message: seq<Byte>)
    ensures Register(c, message) == FeedAll(c, Bits(message))
    decreases |message|
  {
    if message != [] {
      BitsAsOneWord(c, ByteBits(message[0]));
      MessageAsBits(ByteStep(c, message[0]), message[1..]);
      FeedAllConcat(c, ByteBits(message[0]), Bits(message[1..]));
    }
  }

  lemma {:induction false} BitsConcat(a: seq<Byte>, b: seq<Byte>)
    ensures Bits(a + b) == Bits(a) + Bits(b)
  {
    if a == [] {
      assert a + b == b;
    } else {
      assert (a + b)[1..] == a[1..] + b;
      BitsConcat(a[1..], b);
    }
  }

  lemma NibbleInjective(a: nat, b: nat)
    requires a < 16 && b < 16 && Nibble(a) == Nibble(b)
    ensures a == b
  {
    var x, y := Nibble(a), Nibble(b);
    assert x[0] == y[0] && x[1] == y[1] && x[2] == y[2] && x[3] == y[3];
  }

  lemma ByteBitsInjective(a: Byte, b: Byte)
    requires ByteBits(a) == ByteBits(b)
    ensures a == b
  {
    assert ByteBits(a)[..4] == Nibble(a % 16) && ByteBits(a)[4..] == Nibble(a / 16);
    assert ByteBits(b)[..4] == Nibble(b % 16) && ByteBits(b)[4..] == Nibble(b / 16);
    NibbleInjective(a % 16, b % 16);
    NibbleInjective(a / 16, b / 16);
  }

  lemma {:induction false} BitsInjective(a: seq<Byte>, b: seq<Byte>)
    requires Bits(a) == Bits(b)
    ensures a == b
  {
    if a != [] && b != [] {
      assert ByteBits(a[0]) == Bits(a)[..8] && ByteBits(b[0]) == Bits(b)[..8];
      assert Bits(a[1..]) == Bits(a)[8..] && Bits(b[1..]) == Bits(b)[8..];
      ByteBitsInjective(a[0], b[0]);
      BitsInjective(a[1..], b[1..]);
      assert a == [a[0]] + a[1..] && b == [b[0]] + b[1..];
    }
  }

  /** The two messages' bits agree outside the 32 that start at bit `from`. */
  predicate WithinBurst(a: seq<Byte>, b: seq<Byte>, from: nat) {
    |a| == |b| && forall i :: 0 <= i < 8 * |a| && !(from <= i < from + 32) ==> Bits(a)[i] == Bits(b)[i]
  }

  /** Two different bit strings that agree outside 32 bits, cut into what they share and where they differ. */
  lemma CutBurst(x: seq<bool>, y: seq<bool>, from: nat)
    returns (before: seq<bool>, p: seq<bool>, q: seq<bool>, after: seq<bool>)
    requires |x| == |y| && x != y && forall i :: 0 <= i < |x| && !(from <= i < from + 32) ==> x[i] == y[i]
    ensures x == before + p + after && y == before + q + after && |p| == |q| <= 32 && p != q
  {
    var n := |x|;
    var start := if from < n then from else n;
    var end := if from + 32 < n then from + 32 else n;
    before, p, q, after := x[..start], x[start..end], y[start..end], x[end..];
    assert x == before + p + after;
    assert y == before + q + after;
  }

  /** CRC-32 detects every burst error of up to 32 bits, wherever it starts. */
  lemma BurstsAreDetected(a: seq<Byte>, b: seq<Byte>, from: nat)
    requires WithinBurst(a, b, from) && a != b
    ensures Crc(a) != Crc(b)
  {
    var x, y := Bits(a), Bits(b);
    if x == y {
      BitsInjective(a, b);
    }
    var before, p, q, after := CutBurst(x, y, from);
    BurstChangesRegister(ONES, before, p, q, after);
    MessageAsBits(ONES, a);
    MessageAsBits(ONES, b);
    var i :| 0 <= i < 32 && Register(ONES, a)[i] != Register(ONES, b)[i];
    assert Crc(a)[i] != Crc(b)[i];
  }

  lemma MiddlesAreEqual(before: seq<Byte>, a: seq<Byte>, b: seq<Byte>, after: seq<Byte>)
    requires |a| == |b| && before + a + after == before + b + after
    ensures a == b
  {
    var m := before + a + after;
    assert a == m[|before|..|before| + |a|] && b == m[|before|..|before| + |b|];
  }

  /** Messages that differ only within four consecutive bytes never share a CRC. */
  lemma FourByteBurstsAreDetected(before: seq<Byte>, a: seq<Byte>, b: seq<Byte>, after: seq<Byte>)
    requires |a| == |b| <= 4 && a != b
    ensures Crc(before + a + after) != Crc(before + b + after)
  {
    var m, n := before + a + after, before + b + after;
    BitsConcat(before, a);
    BitsConcat(before, b);
    BitsConcat(before + a, after);
    BitsConcat(before + b, after);
    if m == n {
      MiddlesAreEqual(before, a, b, after);
    }
    BurstsAreDetected(m, n, 8 * |before|);
  }

  // ---- The checksum as a remainder ------------------------------------------------------------------

  /** The exponents of the generator below its leading 32 (section 3.4 of RFC 2083). */
  const GENERATOR: seq<nat> := [26, 23, 22, 16, 12, 11, 10, 8, 7, 5, 4, 2, 1, 0]

  /** Bit `i` of a register stands for the power `31 - i`: the polynomial is the generator's. */
  lemma PolynomialIsGenerator(i: nat)
    requires i < 32
    ensures POLYNOMIAL[i] <==> 31 - i in GENERATOR
  {
  }

  /** Long division by the generator: the highest power leaves the word, the next bit of the dividend enters
      at the low end, and the generator is subtracted when the power that left was there. */
  function Divide(word: Word32, more: seq<bool>): Word32
    decreases |more|
  {
    if more == [] then word
    else
      Divide(seq(32, i requires 0 <= i < 32 =>
                       (if i < 31 then word[i + 1] else more[0]) != (word[0] && 31 - i in GENERATOR)),
             more[1..])
  }

  function Zeros(n: nat): (z: seq<bool>)
    ensures |z| == n && forall i :: 0 <= i < n ==> !z[i]
  {
    if n == 0 then [] else [false] + Zeros(n - 1)
  }

  /** One message bit is one step of the division, with the register laid over the dividend's head. */
  lemma FeedDivides(c: Word32, dividend: seq<bool>)
    requires |dividend| > 32
    ensures Divide(Xor(c, Pad(dividend[..32])), dividend[32..])
         == Divide(Xor(Feed(c, dividend[0]), Pad(dividend[1..33])), dividend[33..])
  {
    var word, more := Xor(c, Pad(dividend[..32])), dividend[32..];
    var next: Word32 := seq(32, i requires 0 <= i < 32 =>
                              (if i < 31 then word[i + 1] else more[0]) != (word[0] && 31 - i in GENERATOR));
    var fed := Feed(c, dividend[0]);
    assert more[1..] == dividend[33..];
    forall i | 0 <= i < 32
      ensures next[i] == Xor(fed, Pad(dividend[1..33]))[i]
    {
      PolynomialIsGenerator(i);
      FedBit(c, dividend[0], i);
    }
    assert next == Xor(fed, Pad(dividend[1..33]));
  }

  lemma FedBit(c: Word32, b: bool, i: nat)
    requires i < 32
    ensures Feed(c, b)[i] == ((if i < 31 then c[i + 1] else false) != (POLYNOMIAL[i] && c[0] != b))
  {
    var x := Xor(c, Pad([b]));
    assert x[0] == (c[0] != b);
    assert i < 31 ==> x[i + 1] == c[i + 1];
    assert BitStep(x)[i] == (ShiftRight(x)[i] != (POLYNOMIAL[i] && x[0]));
  }

  lemma {:induction false} FeedAllDivides(c: Word32, bits: seq<bool>)
    ensures var dividend := bits + Zeros(32);
            FeedAll(c, bits) == Divide(Xor(c, Pad(dividend[..32])), dividend[32..])
    decreases |bits|
  {
    var dividend := bits + Zeros(32);
    if bits == [] {
      assert dividend[32..] == [];
      assert Xor(c, Pad(dividend[..32])) == c;
    } else {
      FeedDivides(c, dividend);
      FeedAllDivides(Feed(c, bits[0]), bits[1..]);
      assert dividend[1..] == bits[1..] + Zeros(32);
      assert dividend[1..][..32] == dividend[1..33] && dividend[1..][32..] == dividend[33..];
    }
  }

  /** The checksum is the complement of the remainder that the message, with its first 32 bits inverted and
      32 zero bits appended, leaves under long division by the generator. */
  lemma CrcIsRemainder(message: seq<Byte>)
    ensures var dividend := Bits(message) + Zeros(32);
            Crc(message) == Not(Divide(Not(dividend[..32]), dividend[32..]))
  {
    var dividend := Bits(message) + Zeros(32);
    MessageAsBits(ONES, message);
    FeedAllDivides(ONES, Bits(message));
    AllOnes();
    assert Xor(ONES, Pad(dividend[..32])) == Not(dividend[..32]);
  }

  lemma AllOnes()
    ensures forall i :: 0 <= i < 32 ==> ONES[i]
  {
  }
}
