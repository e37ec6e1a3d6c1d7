/** relay/crc32c.py: the table-driven CRC-32C, proved equal to long division of
    the message polynomial by the Castagnoli generator 0x11EDC6F41 (RFC 3720
    section 12.1), with the burst-error guarantee that gives. */
module Crc32c {
  import opened Common

  // ---- polynomials over GF(2), highest power first

  type Bits = seq<bool>

  function Zeros(n: nat): Bits {
    seq(n, _ => false)
  }

  function Ones(n: nat): Bits {
    seq(n, _ => true)
  }

  // Add `w` to the leading terms of `m`.
  function XorFront(m: Bits, w: Bits): (r: Bits)
    requires |w| <= |m|
    ensures |r| == |m|
  {
    seq(|m|, i requires 0 <= i < |m| => if i < |w| then m[i] != w[i] else m[i])
  }

  // The powers of the generator 0x11EDC6F41 below its leading x^32.
  predicate GeneratorHas(power: int) {
    (25 <= power <= 28) || (22 <= power <= 23) || (18 <= power <= 20) ||
    (13 <= power <= 14) || (8 <= power <= 11) || power == 6 || power == 0
  }

  function Generator(): (g: Bits)
    ensures |g| == 32
  {
    seq(32, j => GeneratorHas(31 - j))
  }

  // Schoolbook long division: the remainder of `m` modulo the generator.
  function Remainder(m: Bits): (r: Bits)
    requires |m| >= 32
    ensures |r| == 32
    decreases |m|
  {
    if |m| == 32 then m
    else if m[0] then Remainder(XorFront(m[1..], Generator()))
    else Remainder(m[1..])
  }

  // ---- the shift register on bits

  // Multiply the register by x modulo the generator.
  function Shift(r: Bits): (q: Bits)
    requires |r| == 32
    ensures |q| == 32
  {
    var s := r[1..] + [false];
    if r[0] then XorFront(s, Generator()) else s
  }

  // Feed message bits one at a time.
  function Run(r: Bits, w: Bits): (q: Bits)
    requires |r| == 32
    ensures |q| == 32
    decreases |w|
  {
    if w == [] then r else Run(Shift(XorFront(r, w[..1])), w[1..])
  }

  lemma {:induction false} RunConcat(r: Bits, v: Bits, w: Bits)
    requires |r| == 32
    ensures Run(r, v + w) == Run(Run(r, v), w)
    decreases |v|
  {
    if v == [] {
      assert v + w == w;
    } else {
      assert (v + w)[..1] == v[..1] && (v + w)[1..] == v[1..] + w;
      RunConcat(Shift(XorFront(r, v[..1])), v[1..], w);
    }
  }

  /** Running the register is long division of the message times x^32, with the
      register's starting value added to the leading terms. */
  lemma {:induction false} RunIsRemainder(r: Bits, w: Bits)
    requires |r| == 32
    ensures Run(r, w) == Remainder(XorFront(w + Zeros(32), r))
    decreases |w|
  {
    var m := XorFront(w + Zeros(32), r);
    if w == [] {
      assert m == r;
    } else {
      var q := XorFront(r, w[..1]);
      assert m[0] == q[0];
      var m' := XorFront(w[1..] + Zeros(32), Shift(q));
      if q[0] {
        assert XorFront(m[1..], Generator()) == m';
      } else {
        assert m[1..] == m';
      }
      RunIsRemainder(Shift(q), w[1..]);
    }
  }

  // ---- burst errors

  function ShiftBy(r: Bits, n: nat): (q: Bits)
    requires |r| == 32
    ensures |q| == 32
    decreases n, r
  {
    if n == 0 then r else ShiftBy(Shift(r), n - 1)
  }

  /** Up to 32 bits can be added to the register up front and shifted in blank. */
  lemma {:induction false} RunIsShiftOfSum(r: Bits, w: Bits)
    requires |r| == 32 && |w| <= 32
    ensures Run(r, w) == ShiftBy(XorFront(r, w), |w|)
    decreases |w|
  {
    if w == [] {
      assert XorFront(r, w) == r;
    } else {
      var q := XorFront(r, w[..1]);
      RunIsShiftOfSum(Shift(q), w[1..]);
      assert XorFront(Shift(q), w[1..]) == Shift(XorFront(r, w));
    }
  }

  /** The register step loses nothing: the generator has a constant term. */
  lemma ShiftInjective(a: Bits, b: Bits)
    requires |a| == 32 && |b| == 32
    requires Shift(a) == Shift(b)
    ensures a == b
  {
    assert Shift(a)[31] == a[0] && Shift(b)[31] == b[0];
    forall i | 0 < i < 32 ensures a[i] == b[i] {
      assert Shift(a)[i-1] == (if a[0] then a[i] != Generator()[i-1] else a[i]);
      assert Shift(b)[i-1] == (if b[0] then b[i] != Generator()[i-1] else b[i]);
    }
  }

  lemma {:induction false} ShiftByInjective(a: Bits, b: Bits, n: nat)
    requires |a| == 32 && |b| == 32
    requires ShiftBy(a, n) == ShiftBy(b, n)
    ensures a == b
    decreases n
  {
    if n > 0 {
      ShiftByInjective(Shift(a), Shift(b), n - 1);
      ShiftInjective(a, b);
    }
  }

  lemma XorFrontInjective(r: Bits, a: Bits, b: Bits)
    requires |a| == |b| <= |r|
    requires XorFront(r, a) == XorFront(r, b)
    ensures a == b
  {
    forall i | 0 <= i < |a| ensures a[i] == b[i] {
      assert XorFront(r, a)[i] == (r[i] != a[i]);
      assert XorFront(r, b)[i] == (r[i] != b[i]);
    }
  }

  lemma XorFrontSameRegister(a: Bits, b: Bits, w: Bits)
    requires |w| <= |a| == |b|
    requires XorFront(a, w) == XorFront(b, w)
    ensures a == b
  {
    forall i | 0 <= i < |a| ensures a[i] == b[i] {
      assert XorFront(a, w)[i] == XorFront(b, w)[i];
    }
  }

  /** Distinct registers stay distinct under the same message. */
  lemma {:induction false} RunInjectiveInRegister(a: Bits, b: Bits, w: Bits)
    requires |a| == 32 && |b| == 32
    requires Run(a, w) == Run(b, w)
    ensures a == b
    decreases |w|
  {
    if w != [] {
      var x, y := XorFront(a, w[..1]), XorFront(b, w[..1]);
      RunInjectiveInRegister(Shift(x), Shift(y), w[1..]);
      ShiftInjective(x, y);
      XorFrontSameRegister(a, b, w[..1]);
    }
  }

  /** Two messages that differ only inside a window of at most 32 bits, at any
      alignment, leave different registers. */
  lemma BurstChangesRegister(r: Bits, before: Bits, a: Bits, b: Bits, after: Bits)
    requires |r| == 32
    requires |a| == |b| <= 32 && a != b
    ensures Run(r, before + a + after) != Run(r, before + b + after)
  {
    RunConcat(r, before + a, after);
    RunConcat(r, before + b, after);
    RunConcat(r, before, a);
    RunConcat(r, before, b);
    var q := Run(r, before);
    if Run(Run(q, a), after) == Run(Run(q, b), after) {
      RunInjectiveInRegister(Run(q, a), Run(q, b), after);
      RunIsShiftOfSum(q, a);
      RunIsShiftOfSum(q, b);
      ShiftByInjective(XorFront(q, a), XorFront(q, b), |a|);
      XorFrontInjective(q, a, b);
    }
  }

  lemma ShiftLinear(a: Bits, b: Bits)
    requires |a| == 32 && |b| == 32
    ensures Shift(XorFront(a, b)) == XorFront(Shift(a), Shift(b))
  {
  }

  lemma {:induction false} ShiftByLinear(a: Bits, b: Bits, n: nat)
    requires |a| == 32 && |b| == 32
    ensures ShiftBy(XorFront(a, b), n) == XorFront(ShiftBy(a, n), ShiftBy(b, n))
    decreases n
  {
    if n > 0 {
      ShiftLinear(a, b);
      ShiftByLinear(Shift(a), Shift(b), n - 1);
    }
  }

  lemma {:induction false} ShiftByOfBlank(r: Bits, n: nat)
    requires |r| == 32 && n <= 32
    requires r[..n] == Zeros(n)
    ensures ShiftBy(r, n) == r[n..] + Zeros(n)
    decreases n
  {
    if n > 0 {
      assert !r[..n][0];
      assert Zeros(n)[1..] == Zeros(n - 1);
      var q := Shift(r);
      assert q == r[1..] + [false];
      assert q[..n-1] == r[..n][1..];
      ShiftByOfBlank(q, n - 1);
      assert q[n-1..] == r[n..] + [false];
      assert [false] + Zeros(n - 1) == Zeros(n);
    }
  }

  // ---- the source's machine: a reflected 32-bit register held in an integer

  type Word = x: int | 0 <= x < 0x1_0000_0000
  type Byte = x: int | 0 <= x < 256

  const POLY: Word := 0x82F6_3B78
  const MASK: Word := 0xFFFF_FFFF

  // Bitwise exclusive or of non-negative integers.
  function Xor(x: nat, y: nat): nat
    decreases x + y
  {
    if x == 0 && y == 0 then 0
    else 2 * Xor(x / 2, y / 2) + if x % 2 != y % 2 then 1 else 0
  }

  lemma {:induction false} XorBelow(x: nat, y: nat, n: nat)
    requires x < Pow2(n) && y < Pow2(n)
    ensures Xor(x, y) < Pow2(n)
    decreases n
  {
    if n > 0 && (x > 0 || y > 0) { XorBelow(x / 2, y / 2, n - 1); }
  }

  lemma {:induction false} Pow2Adds(m: nat, n: nat)
    ensures Pow2(m + n) == Pow2(m) * Pow2(n)
    decreases m
  {
    if m > 0 { Pow2Adds(m - 1, n); }
  }

  lemma WordWidth()
    ensures Pow2(32) == 0x1_0000_0000 && Pow2(31) == 0x8000_0000 && Pow2(8) == 256
  {
    Pow2Adds(8, 8);
    Pow2Adds(16, 8);
    Pow2Adds(24, 7);
    assert Pow2(7) == 128;
    assert Pow2(8) == 256;
  }

  function XorWord(x: Word, y: Word): Word {
    WordWidth();
    XorBelow(x, y, 32);
    Xor(x, y)
  }

  // One bit: the register is shifted down, and the generator added if a one fell
  // out.
  function StepBit(crc: Word): Word {
    if crc % 2 == 1 then XorWord(crc / 2, POLY) else crc / 2
  }

  function StepBits(crc: Word, n: nat): Word
    decreases n, crc
  {
    if n == 0 then crc else StepBits(StepBit(crc), n - 1)
  }

  // ---- the register as bits, least significant (highest power) first

  function LowBits(x: nat, n: nat): (r: Bits)
    ensures |r| == n
    decreases n, x
  {
    if n == 0 then [] else [x % 2 == 1] + LowBits(x / 2, n - 1)
  }

  /** The low bits of lo + 2^m * hi are those of lo, followed by those of hi. */
  lemma {:induction false} LowBitsOfSum(lo: nat, hi: nat, m: nat, n: nat)
    requires lo < Pow2(m)
    ensures LowBits(lo + Pow2(m) * hi, m + n) == LowBits(lo, m) + LowBits(hi, n)
    decreases m
  {
    if m > 0 {
      var p := Pow2(m - 1) * hi;
      assert Pow2(m) * hi == 2 * p;
      assert (lo + 2 * p) % 2 == lo % 2 && (lo + 2 * p) / 2 == lo / 2 + p;
      LowBitsOfSum(lo / 2, hi, m - 1, n);
    }
  }

  lemma {:induction false} LowBitsPad(x: nat, m: nat, n: nat)
    requires x < Pow2(m)
    ensures LowBits(x, m + n) == LowBits(x, m) + Zeros(n)
    decreases m + n
  {
    if m > 0 {
      LowBitsPad(x / 2, m - 1, n);
    } else if n > 0 {
      LowBitsPad(0, 0, n - 1);
    }
  }

  lemma {:induction false} LowBitsOfXor(x: nat, y: nat, n: nat)
    ensures LowBits(Xor(x, y), n) == XorFront(LowBits(x, n), LowBits(y, n))
    decreases n
  {
    if n > 0 {
      LowBitsOfXor(x / 2, y / 2, n - 1);
    }
  }

  lemma {:induction false} LowBitsInjective(x: nat, y: nat, n: nat)
    requires x < Pow2(n) && y < Pow2(n)
    requires LowBits(x, n) == LowBits(y, n)
    ensures x == y
    decreases n
  {
    if n > 0 {
      assert LowBits(x, n)[0] == LowBits(y, n)[0];
      assert LowBits(x, n)[1..] == LowBits(x / 2, n - 1);
      assert LowBits(y, n)[1..] == LowBits(y / 2, n - 1);
      LowBitsInjective(x / 2, y / 2, n - 1);
    }
  }

  function Reg(crc: Word): (r: Bits)
    ensures |r| == 32
  {
    LowBits(crc, 32)
  }

  lemma RegInjective(x: Word, y: Word)
    requires Reg(x) == Reg(y)
    ensures x == y
  {
    WordWidth();
    LowBitsInjective(x, y, 32);
  }

  lemma RegOfXor(x: Word, y: Word)
    ensures Reg(XorWord(x, y)) == XorFront(Reg(x), Reg(y))
  {
    LowBitsOfXor(x, y, 32);
  }

  lemma RegOfHalf(crc: Word)
    ensures Reg(crc / 2) == Reg(crc)[1..] + [false]
    ensures Reg(crc)[0] == (crc % 2 == 1)
  {
    WordWidth();
    LowBitsPad(crc / 2, 31, 1);
    assert Zeros(1) == [false];
  }

  lemma RegOfByte(b: Byte)
    ensures Reg(b) == LowBits(b, 8) + Zeros(24)
  {
    WordWidth();
    LowBitsPad(b, 8, 24);
  }

  // The number whose low bits are w[i..].
  function Value(w: Bits, i: nat): nat
    requires i <= |w|
    decreases |w| - i
  {
    if i == |w| then 0 else Digit(w[i]) + 2 * Value(w, i + 1)
  }

  function Digit(b: bool): nat {
    if b then 1 else 0
  }

  lemma {:induction false} LowBitsOfValue(w: Bits, i: nat)
    requires i <= |w|
    ensures LowBits(Value(w, i), |w| - i) == w[i..]
    decreases |w| - i
  {
    if i < |w| {
      LowBitsOfValue(w, i + 1);
      assert Value(w, i) / 2 == Value(w, i + 1);
    }
  }

  function Nibble(w: Bits, i: nat): nat
    requires i + 4 <= |w|
  {
    Digit(w[i]) + 2 * Digit(w[i+1]) + 4 * Digit(w[i+2]) + 8 * Digit(w[i+3])
  }

  lemma ValueOfNibble(w: Bits, i: nat)
    requires i + 4 <= |w|
    ensures Value(w, i) == Nibble(w, i) + 16 * Value(w, i + 4)
  {
    assert Value(w, i) == Digit(w[i]) + 2 * Value(w, i + 1);
    assert Value(w, i + 1) == Digit(w[i+1]) + 2 * Value(w, i + 2);
    assert Value(w, i + 2) == Digit(w[i+2]) + 2 * Value(w, i + 3);
  }

  lemma GeneratorNibbles(w: Bits)
    requires w == Generator()
    ensures Nibble(w, 0) == 0x8 && Nibble(w, 4) == 0x7 && Nibble(w, 8) == 0xB && Nibble(w, 12) == 0x3
    ensures Nibble(w, 16) == 0x6 && Nibble(w, 20) == 0xF && Nibble(w, 24) == 0x2 && Nibble(w, 28) == 0x8
  {
  }

  lemma ValueOfGenerator(w: Bits)
    requires w == Generator()
    ensures Value(w, 0) == POLY
  {
    GeneratorNibbles(w);
    ValueOfUpperHalf(w);
    ValueOfNibble(w, 0);
    ValueOfNibble(w, 4);
    ValueOfNibble(w, 8);
    ValueOfNibble(w, 12);
  }

  lemma ValueOfUpperHalf(w: Bits)
    requires w == Generator()
    ensures Value(w, 16) == 0x82F6
  {
    GeneratorNibbles(w);
    ValueOfNibble(w, 16);
    ValueOfNibble(w, 20);
    ValueOfNibble(w, 24);
    ValueOfNibble(w, 28);
  }

  lemma RegOfValue(w: Bits, p: Word)
    requires |w| == 32 && Value(w, 0) == p
    ensures Reg(p) == w
  {
    LowBitsOfValue(w, 0);
    assert w[0..] == w;
  }

  /** The source's reflected constant is the generator, highest power first. */
  lemma RegOfPoly(p: Word)
    requires p == POLY
    ensures Reg(p) == Generator()
  {
    ValueOfGenerator(Generator());
    RegOfValue(Generator(), p);
  }

  lemma RegOfStepBit(crc: Word)
    ensures Reg(StepBit(crc)) == Shift(Reg(crc))
  {
    RegOfHalf(crc);
    RegOfPoly(POLY);
    RegOfXor(crc / 2, POLY);
  }

  lemma ShiftByFirst(r: Bits, q: Bits, n: nat)
    requires |r| == 32 && q == Shift(r)
    ensures ShiftBy(r, n + 1) == ShiftBy(q, n)
  {
  }

  lemma {:induction false} RegOfStepBits(crc: Word, n: nat)
    ensures Reg(StepBits(crc, n)) == ShiftBy(Reg(crc), n)
    decreases n
  {
    if n > 0 {
      RegOfStepBit(crc);
      RegOfStepBits(StepBit(crc), n - 1);
      ShiftByFirst(Reg(crc), Reg(StepBit(crc)), n - 1);
    }
  }

  // ---- bytes

  // The table entry for one byte: eight single-bit steps.
  function Entry(n: Byte): Word {
    StepBits(n, 8)
  }

  function Table(): (t: seq<Word>)
    ensures |t| == 256
    ensures forall n :: 0 <= n < 256 ==> t[n] == Entry(n)
  {
    seq(256, n requires 0 <= n < 256 => Entry(n))
  }

  // One byte: the low byte of the register, with the message byte added, picks the
  // table entry that is added to the rest of the register.
  function Update(crc: Word, b: Byte): Word {
    XorWord(Table()[XorWord(crc, b) % 256], crc / 256)
  }

  function UpdateAll(crc: Word, data: seq<Byte>): Word
    decreases |data|
  {
    if data == [] then crc else UpdateAll(Update(crc, data[0]), data[1..])
  }

  function Crc(data: seq<Byte>): Word {
    XorWord(UpdateAll(MASK, data), MASK)
  }

  // The message as bits, each byte least significant bit first.
  function MessageBits(data: seq<Byte>): (r: Bits)
    ensures |r| == 8 * |data|
  {
    if data == [] then [] else LowBits(data[0], 8) + MessageBits(data[1..])
  }

  lemma SplitBits(lo: nat, hi: nat, m: nat, n: nat)
    requires lo < Pow2(m) && hi < Pow2(n)
    ensures LowBits(lo + Pow2(m) * hi, m + n) == LowBits(lo, m) + LowBits(hi, n)
    ensures LowBits(hi, n + m) == LowBits(hi, n) + Zeros(m)
  {
    LowBitsOfSum(lo, hi, m, n);
    LowBitsPad(hi, n, m);
  }

  lemma DropBytes(x: Word)
    ensures LowBits(x, 32) == LowBits(x % 256, 8) + LowBits(x / 256, 24)
    ensures Reg(x / 256) == LowBits(x / 256, 24) + Zeros(8)
  {
    WordWidth();
    Pow2Adds(16, 8);
    SplitBits(x % 256, x / 256, 8, 24);
  }

  lemma PutTogether(lo: Bits, hi: Bits)
    requires |lo| == 8 && |hi| == 24
    ensures XorFront(lo + Zeros(24), Zeros(8) + hi) == lo + hi
  {
  }

  lemma RegOfRemainder(x: Word)
    ensures XorFront(Reg(x % 256), Zeros(8) + Reg(x)[8..]) == Reg(x)
    ensures Reg(x / 256) == Reg(x)[8..] + Zeros(8)
  {
    DropBytes(x);
    RegOfByte(x % 256);
    var lo, hi := LowBits(x % 256, 8), LowBits(x / 256, 24);
    assert Reg(x) == lo + hi && (lo + hi)[8..] == hi;
    PutTogether(lo, hi);
  }

  /** One table lookup and a shift by eight make eight single-bit steps. */
  lemma LookupIsEightSteps(x: Word)
    ensures XorWord(Table()[x % 256], x / 256) == StepBits(x, 8)
  {
    var lo, hi := Reg(x % 256), Zeros(8) + Reg(x)[8..];
    RegOfRemainder(x);
    RegOfStepBits(x % 256, 8);
    RegOfStepBits(x, 8);
    ShiftByLinear(lo, hi, 8);
    ShiftByOfBlank(hi, 8);
    assert hi[8..] + Zeros(8) == Reg(x / 256);
    RegOfXor(Table()[x % 256], x / 256);
    RegInjective(XorWord(Table()[x % 256], x / 256), StepBits(x, 8));
  }

  lemma XorByteKeepsHigh(crc: Word, b: Byte)
    ensures XorWord(crc, b) / 256 == crc / 256
  {
    var x := XorWord(crc, b);
    WordWidth();
    RegOfXor(crc, b);
    RegOfByte(b);
    assert Reg(x)[8..] == Reg(crc)[8..];
    RegOfRemainder(x);
    RegOfRemainder(crc);
    RegInjective(x / 256, crc / 256);
  }

  /** One byte of the source's loop is the shift register run on its eight bits. */
  lemma UpdateIsRun(crc: Word, b: Byte)
    ensures Reg(Update(crc, b)) == Run(Reg(crc), LowBits(b, 8))
  {
    var x := XorWord(crc, b);
    XorByteKeepsHigh(crc, b);
    LookupIsEightSteps(x);
    RegOfStepBits(x, 8);
    RegOfXor(crc, b);
    RegOfByte(b);
    assert XorFront(Reg(crc), Reg(b)) == XorFront(Reg(crc), LowBits(b, 8));
    RunIsShiftOfSum(Reg(crc), LowBits(b, 8));
  }

  lemma {:induction false} UpdateAllIsRun(crc: Word, data: seq<Byte>)
    ensures Reg(UpdateAll(crc, data)) == Run(Reg(crc), MessageBits(data))
    decreases |data|
  {
    if data != [] {
      UpdateIsRun(crc, data[0]);
      UpdateAllIsRun(Update(crc, data[0]), data[1..]);
      RunConcat(Reg(crc), LowBits(data[0], 8), MessageBits(data[1..]));
    }
  }

  function Complement(w: Bits): Bits {
    seq(|w|, i requires 0 <= i < |w| => !w[i])
  }

  lemma {:induction false} LowBitsOfAllOnes(x: nat, n: nat)
    requires x == Pow2(n) - 1
    ensures LowBits(x, n) == Ones(n)
    decreases n
  {
    if n > 0 { LowBitsOfAllOnes(x / 2, n - 1); }
  }

  lemma RegOfMask(m: Word)
    requires m == MASK
    ensures Reg(m) == Ones(32)
  {
    WordWidth();
    LowBitsOfAllOnes(m, 32);
  }

  /** The table-driven CRC is the complemented remainder of long division by the
      generator: of the message times x^32, its first 32 bits complemented. */
  lemma CrcIsPolynomialRemainder(data: seq<Byte>)
    ensures Reg(Crc(data)) == Complement(Remainder(XorFront(MessageBits(data) + Zeros(32), Ones(32))))
  {
    UpdateAllIsRun(MASK, data);
    RegOfMask(MASK);
    RunIsRemainder(Ones(32), MessageBits(data));
    RegOfXor(UpdateAll(MASK, data), MASK);
    var r := Run(Ones(32), MessageBits(data));
    assert XorFront(r, Ones(32)) == Complement(r);
  }

  /** Messages that differ only within a window of at most 32 bits, at any bit
      position, never share a CRC. */
  lemma BurstDetected(x: seq<Byte>, y: seq<Byte>, before: Bits, a: Bits, b: Bits, after: Bits)
    requires MessageBits(x) == before + a + after
    requires MessageBits(y) == before + b + after
    requires |a| == |b| <= 32 && a != b
    ensures Crc(x) != Crc(y)
  {
    BurstChangesRegister(Reg(MASK), before, a, b, after);
    UpdateAllIsRun(MASK, x);
    UpdateAllIsRun(MASK, y);
    var p, q := UpdateAll(MASK, x), UpdateAll(MASK, y);
    if Crc(x) == Crc(y) {
      RegOfXor(p, MASK);
      RegOfXor(q, MASK);
      XorFrontSameRegister(Reg(p), Reg(q), Reg(MASK));
    }
  }

  lemma {:induction false} MessageBitsConcat(x: seq<Byte>, y: seq<Byte>)
    ensures MessageBits(x + y) == MessageBits(x) + MessageBits(y)
  {
    if x == [] {
      assert x + y == y;
    } else {
      assert (x + y)[1..] == x[1..] + y;
      MessageBitsConcat(x[1..], y);
    }
  }

  lemma {:induction false} MessageBitsInjective(x: seq<Byte>, y: seq<Byte>)
    requires |x| == |y| && MessageBits(x) == MessageBits(y)
    ensures x == y
  {
    if x != [] {
      assert LowBits(x[0], 8) == MessageBits(x)[..8] == MessageBits(y)[..8] == LowBits(y[0], 8);
      assert MessageBits(x[1..]) == MessageBits(x)[8..] == MessageBits(y)[8..] == MessageBits(y[1..]);
      WordWidth();
      LowBitsInjective(x[0], y[0], 8);
      MessageBitsInjective(x[1..], y[1..]);
    }
  }

  /** Any change confined to four consecutive bytes is detected. */
  lemma FourByteChangeDetected(before: seq<Byte>, a: seq<Byte>, b: seq<Byte>, after: seq<Byte>)
    requires |a| == |b| <= 4 && a != b
    ensures Crc(before + a + after) != Crc(before + b + after)
  {
    MessageBitsConcat(before + a, after);
    MessageBitsConcat(before + b, after);
    MessageBitsConcat(before, a);
    MessageBitsConcat(before, b);
    if MessageBits(a) == MessageBits(b) { MessageBitsInjective(a, b); }
    BurstDetected(before + a + after, before + b + after,
                  MessageBits(before), MessageBits(a), MessageBits(b), MessageBits(after));
  }

  // ---- the source's loops

  /** The source's `_build_table`. */
  method BuildTable() returns (table: seq<Word>)
    ensures table == Table()
  {
    table := [];
    for n := 0 to 256
      invariant |table| == n
      invariant forall m :: 0 <= m < n ==> table[m] == Entry(m)
    {
      var crc: Word := n;
      for i := 0 to 8
        invariant StepBits(crc, 8 - i) == Entry(n)
      {
        crc := StepBit(crc);
      }
      table := table + [crc];
    }
  }

  /** The source's `crc32c`, given the table built once. */
  method Crc32c(data: seq<Byte>, table: seq<Word>) returns (r: Word)
    requires table == Table()
    ensures r == Crc(data)
    ensures Reg(r) == Complement(Remainder(XorFront(MessageBits(data) + Zeros(32), Ones(32))))
  {
    var crc: Word := MASK;
    for i := 0 to |data|
      invariant UpdateAll(crc, data[i..]) == UpdateAll(MASK, data)
    {
      assert data[i..][1..] == data[i+1..];
      crc := XorWord(table[XorWord(crc, data[i]) % 256], crc / 256);
    }
    CrcIsPolynomialRemainder(data);
    r := XorWord(crc, MASK);
  }

  /** The source's `verify`: refuses a stored value wider than 32 bits. */
  method Verify(data: seq<Byte>, stored: int, table: seq<Word>) returns (r: Result<bool>)
    requires table == Table()
    ensures r.Err? <==> !(0 <= stored < 0x1_0000_0000)
    ensures r.Err? ==> r.error == Invalid
    ensures r.Ok? ==> (r.value <==> Crc(data) == stored)
  {
    if !(0 <= stored <= MASK) {
      return Err(Invalid);
    }
    var crc := Crc32c(data, table);
    return Ok(crc == stored);
  }
}
