// The register is the remainder of polynomial division over GF(2).  A polynomial is the sequence of its
// coefficients, highest power first.

module CrcDivision {
  import opened BitWords
  import opened SoftwareCrc
  import opened CrcAlgebra

  /** Schoolbook product: one shifted copy of `g` for each 1 in `q`, added without carries. */
  function Product(q: Bits, g: Bits): (p: Bits)
    requires g != []
    ensures |p| == |q| + |g| - 1
    decreases q
  {
    if q == [] then Zeros(|g| - 1)
    else Xor((if q[0] then g else Zeros(|g|)) + Zeros(|q| - 1), [false] + Product(q[1..], g))
  }

  /** `dividend` is `q` times `g` plus `rem`, and `rem` has lower degree than `g`. */
  predicate Divides(dividend: Bits, g: Bits, q: Bits, rem: Bits)
  {
    && g != [] && |rem| == |g| - 1 && |dividend| == |q| + |g| - 1
    && dividend == Xor(Product(q, g), Zeros(|q|) + rem)
  }

  /** x to the power of the width, plus the register's polynomial. */
  function Generator(poly: Bits, width: nat): Bits
    requires width <= |poly|
  {
    [true] + poly[..width]
  }

  /** The register's polynomial times x to the message length, plus the message times x to the width. */
  function Dividend(r: Bits, message: Bits, width: nat): (d: Bits)
    requires width <= |r|
    ensures |d| == |message| + width
  {
    Xor(r[..width] + Zeros(|message|), message + Zeros(width))
  }

  /** The feedback bits. */
  function Quotient(r: Bits, poly: Bits, message: Bits): (q: Bits)
    requires 0 < |r| == |poly|
    ensures |q| == |message|
    decreases message
  {
    if message == [] then []
    else [r[0] != message[0]] + Quotient(Step(r, poly, message[0]), poly, message[1..])
  }

  /** One step of the register is one step of long division. */
  lemma DivisionStep(r: Bits, poly: Bits, message: Bits, width: nat)
    requires 0 < width <= |r| == |poly| && IsRegister(r, width) && message != []
    ensures var feedback := r[0] != message[0];
            var g := Generator(poly, width);
            Dividend(r, message, width)
            == Xor((if feedback then g else Zeros(|g|)) + Zeros(|message| - 1),
                   [false] + Dividend(Step(r, poly, message[0]), message[1..], width))
  {
  }

  lemma XorShifted(a: Bits, b: Bits, c: Bits)
    requires |a| == |b| + 1 && |b| == |c|
    ensures Xor(a, [false] + Xor(b, c)) == Xor(Xor(a, [false] + b), [false] + c)
  {
  }

  lemma OneMoreZero(n: nat, rem: Bits)
    ensures [false] + (Zeros(n) + rem) == Zeros(n + 1) + rem
  {
  }

  lemma XorZeros(a: Bits)
    ensures Xor(Zeros(|a|), Zeros(0) + a) == a
  {
  }

  /** The register after a message is a remainder, with the feedback bits as quotient. */
  lemma {:induction false} RegisterDivides(r: Bits, poly: Bits, message: Bits, width: nat)
    requires 0 < width <= |r| == |poly| && IsRegister(r, width) && IsRegister(poly, width)
    ensures Divides(Dividend(r, message, width), Generator(poly, width), Quotient(r, poly, message),
                    Feed(r, poly, message)[..width])
    decreases message
  {
    var g := Generator(poly, width);
    if message == [] {
      assert Dividend(r, message, width) == r[..width];
      XorZeros(r[..width]);
    } else {
      var s, rest := Step(r, poly, message[0]), message[1..];
      var q := Quotient(s, poly, rest);
      var rem := Feed(s, poly, rest)[..width];
      StepKeepsRegister(r, poly, message[0], width);
      RegisterDivides(s, poly, rest, width);
      DivisionStep(r, poly, message, width);
      var top := (if r[0] != message[0] then g else Zeros(|g|)) + Zeros(|rest|);
      XorShifted(top, Product(q, g), Zeros(|q|) + rem);
      assert Quotient(r, poly, message)[1..] == q;
      OneMoreZero(|q|, rem);
    }
  }

  /** Quotient and remainder are unique, because the generator is monic. */
  lemma {:induction false} DivisionUnique(dividend: Bits, g: Bits, q: Bits, rem: Bits, q': Bits, rem': Bits)
    requires Divides(dividend, g, q, rem) && Divides(dividend, g, q', rem') && g[0]
    ensures q == q' && rem == rem'
    decreases q
  {
    if q == [] {
      assert q' == [];
      assert forall i :: 0 <= i < |rem| ==> dividend[i] == rem[i] && dividend[i] == rem'[i];
    } else {
      LeadingBit(dividend, g, q, rem);
      LeadingBit(dividend, g, q', rem');
      DivisionUnique(Reduced(dividend, g), g, q[1..], rem, q'[1..], rem');
      assert q == [q[0]] + q[1..] && q' == [q'[0]] + q'[1..];
    }
  }

  /** The dividend after one step of long division by a monic generator. */
  function Reduced(dividend: Bits, g: Bits): Bits
    requires g != [] && |dividend| >= |g|
  {
    if dividend[0] then Xor(dividend, g + Zeros(|dividend| - |g|))[1..] else dividend[1..]
  }

  lemma ReducedAt(dividend: Bits, g: Bits, i: nat)
    requires 0 < |g| <= |dividend| && i + 1 < |dividend|
    ensures Reduced(dividend, g)[i]
            == (dividend[i + 1] != ((if dividend[0] then g else Zeros(|g|)) + Zeros(|dividend| - |g|))[i + 1])
  {
  }

  lemma LeadingBit(dividend: Bits, g: Bits, q: Bits, rem: Bits)
    requires Divides(dividend, g, q, rem) && g[0] && q != []
    ensures q[0] == dividend[0] && |dividend| >= |g|
    ensures Divides(Reduced(dividend, g), g, q[1..], rem)
  {
    var top, low := (if q[0] then g else Zeros(|g|)) + Zeros(|q| - 1), Product(q[1..], g);
    var shifted := Zeros(|q|) + rem;
    assert dividend[0] == q[0];
    var next, tail := Reduced(dividend, g), Zeros(|q| - 1) + rem;
    forall i | 0 <= i < |next|
      ensures next[i] == (low[i] != tail[i])
    {
      assert Product(q, g)[i + 1] == (top[i + 1] != ([false] + low)[i + 1]);
      assert dividend[i + 1] == (Product(q, g)[i + 1] != shifted[i + 1]);
      assert shifted[i + 1] == tail[i];
      ReducedAt(dividend, g, i);
    }
  }

  /**
   * What the configured CRC computes: the final register is the one and only remainder of seed and message
   * modulo x to the number of CRC bits plus the configured polynomial.
   */
  lemma FinalRegisterIsRemainder(c: Config, data: seq<Word8>, q: Bits, rem: Bits)
    requires 1 <= c.size <= 4
    requires |q| == |MessageBits(Covered(c, data), c.reflectIn)|
    ensures var width := 8 * c.size;
            var message := MessageBits(Covered(c, data), c.reflectIn);
            var g := Generator(AlignedPoly(c), width);
            var register := FinalRegister(c, data);
            && Divides(Dividend(InitialRegister(c), message, width), g,
                       Quotient(InitialRegister(c), AlignedPoly(c), message), register[..width])
            && (Divides(Dividend(InitialRegister(c), message, width), g, q, rem) ==> rem == register[..width])
            && register == Padded(register[..width], 32)
            && IsMessage(c, data, message) && Dividend(InitialRegister(c), message, width) == SeededMessage(c, message)
            && g == [true] + LowBits(c.poly, c.size)
  {
    var width := 8 * c.size;
    var message := MessageBits(Covered(c, data), c.reflectIn);
    var g := Generator(AlignedPoly(c), width);
    var dividend := Dividend(InitialRegister(c), message, width);
    var register := FinalRegister(c, data);
    assert IsMessage(c, data, message) by {
      MessageExactly(c, data, message);
    }
    assert dividend == SeededMessage(c, message) && g == [true] + LowBits(c.poly, c.size) by {
      SeededDividend(c, message);
      ConfiguredGenerator(c);
    }
    ConfigRegisters(c);
    FinalIsRegister(c, data);
    RegisterDivides(InitialRegister(c), AlignedPoly(c), message, width);
    if Divides(dividend, g, q, rem) {
      DivisionUnique(dividend, g, q, rem, Quotient(InitialRegister(c), AlignedPoly(c), message), register[..width]);
    }
  }

  // ---------- The result, by bits ----------

  /** The order in which bits enter: byte after byte from `startByte` on, each from its top or, reflected, from its
      bottom. */
  ghost predicate IsMessage(c: Config, data: seq<Word8>, m: Bits)
  {
    && |m| == (if c.startByte < |data| then 8 * (|data| - c.startByte) else 0)
    && forall k :: 0 <= k < |m| ==>
         m[k] == data[c.startByte + k / 8][if c.reflectIn then 7 - k % 8 else k % 8]
  }

  lemma {:induction false} MessageBitAt(data: seq<Word8>, reflect: bool, i: nat, j: nat)
    requires i < |data| && j < 8
    ensures MessageBits(data, reflect)[8 * i + j] == data[i][if reflect then 7 - j else j]
    decreases data
  {
    var first: Bits, rest: Bits := InputByte(data[0], reflect), MessageBits(data[1..], reflect);
    assert MessageBits(data, reflect) == first + rest;
    if i > 0 {
      MessageBitAt(data[1..], reflect, i - 1, j);
      assert (first + rest)[8 * i + j] == rest[8 * (i - 1) + j];
    }
  }

  lemma BitPlace(k: nat, n: nat)
    requires k < 8 * n
    ensures k / 8 < n && k % 8 < 8 && 8 * (k / 8) + k % 8 == k
  {
  }

  lemma CoveredBit(c: Config, data: seq<Word8>, k: nat)
    requires k < 8 * |Covered(c, data)|
    ensures c.startByte + k / 8 < |data|
    ensures MessageBits(Covered(c, data), c.reflectIn)[k]
            == data[c.startByte + k / 8][if c.reflectIn then 7 - k % 8 else k % 8]
  {
    var covered, i, j := Covered(c, data), k / 8, k % 8;
    BitPlace(k, |covered|);
    MessageBitAt(covered, c.reflectIn, i, j);
    assert covered[i] == data[c.startByte + i];
  }

  /** There is exactly one such message, and the register is fed with it. */
  lemma MessageExactly(c: Config, data: seq<Word8>, m: Bits)
    ensures IsMessage(c, data, m) <==> m == MessageBits(Covered(c, data), c.reflectIn)
  {
    var bits := MessageBits(Covered(c, data), c.reflectIn);
    forall k | 0 <= k < |bits|
      ensures c.startByte + k / 8 < |data|
      ensures bits[k] == data[c.startByte + k / 8][if c.reflectIn then 7 - k % 8 else k % 8]
    {
      CoveredBit(c, data, k);
    }
  }

  /** The low `8 * size` bits of a word, most significant first. */
  function LowBits(w: Word32, size: nat): (b: Bits)
    requires size <= 4
    ensures |b| == 8 * size && forall k :: 0 <= k < |b| ==> b[k] == w[32 - 8 * size + k]
  {
    w[32 - 8 * size..]
  }

  /** The seed times x to the message length, plus the message times x to the width. */
  function SeededMessage(c: Config, m: Bits): (d: Bits)
    requires c.size <= 4
    ensures |d| == |m| + 8 * c.size
    ensures forall k :: 0 <= k < |d| ==>
              d[k] == ((k < 8 * c.size && c.seed[32 - 8 * c.size + k]) != (k < |m| && m[k]))
  {
    Xor(LowBits(c.seed, c.size) + Zeros(|m|), m + Zeros(8 * c.size))
  }

  lemma SeededDividend(c: Config, m: Bits)
    requires 1 <= c.size <= 4
    ensures Dividend(InitialRegister(c), m, 8 * c.size) == SeededMessage(c, m)
  {
    assert InitialRegister(c)[..8 * c.size] == LowBits(c.seed, c.size);
  }

  /** What the result says of the remainder: it is the remainder plus the xor-out, in the order asked for. */
  lemma OutputBits(c: Config, r: Word32, k: nat)
    requires 1 <= c.size <= 4 && IsRegister(r, 8 * c.size) && k < 32
    ensures var unused := 32 - 8 * c.size;
            if k < unused then !Output(c, r)[k]
            else
              var i := if c.msByteFirst then k - unused else 31 - k;
              Output(c, r)[k] == (r[i] != c.xorOut[unused + i])
  {
  }

  /**
   * What the configured CRC computes, bit by bit: the one remainder of seed and message modulo x to the width plus the
   * low bits of the configured polynomial, plus the xor-out; the bits above the width are 0.
   */
  lemma CrcIsRemainder(c: Config, data: seq<Word8>, m: Bits, q: Bits, rem: Bits)
    requires 1 <= c.size <= 4 && IsMessage(c, data, m)
    requires Divides(SeededMessage(c, m), [true] + LowBits(c.poly, c.size), q, rem)
    ensures var unused := 32 - 8 * c.size;
            && (forall k :: 0 <= k < unused ==> !Crc(c, data)[k])
            && forall k :: unused <= k < 32 ==>
                 var i := if c.msByteFirst then k - unused else 31 - k;
                 Crc(c, data)[k] == (rem[i] != c.xorOut[unused + i])
  {
    MessageExactly(c, data, m);
    FinalRegisterIsRemainder(c, data, q, rem);
    var r := FinalRegister(c, data);
    forall k | 0 <= k < 32
      ensures var unused := 32 - 8 * c.size;
              if k < unused then !Output(c, r)[k]
              else
                var i := if c.msByteFirst then k - unused else 31 - k;
                Output(c, r)[k] == (r[i] != c.xorOut[unused + i])
    {
      OutputBits(c, r, k);
    }
  }

  /** There always are such a message and such a division. */
  lemma RemainderExists(c: Config, data: seq<Word8>) returns (m: Bits, q: Bits, rem: Bits)
    requires 1 <= c.size <= 4
    ensures IsMessage(c, data, m) && Divides(SeededMessage(c, m), [true] + LowBits(c.poly, c.size), q, rem)
  {
    m := MessageBits(Covered(c, data), c.reflectIn);
    q := Quotient(InitialRegister(c), AlignedPoly(c), m);
    rem := FinalRegister(c, data)[..8 * c.size];
    FinalRegisterIsRemainder(c, data, q, rem);
  }

  /** HAL_CrcCompute returns that remainder. */
  method ComputeRemainder(c: Config, dataIn: seq<Word8>, length: nat, ghost m: Bits, ghost q: Bits, ghost rem: Bits)
    returns (crc: Word32)
    requires 1 <= c.size <= 4 && length <= |dataIn| && IsMessage(c, dataIn[..length], m)
    requires Divides(SeededMessage(c, m), [true] + LowBits(c.poly, c.size), q, rem)
    ensures var unused := 32 - 8 * c.size;
            && (forall k :: 0 <= k < unused ==> !crc[k])
            && forall k :: unused <= k < 32 ==>
                 var i := if c.msByteFirst then k - unused else 31 - k; crc[k] == (rem[i] != c.xorOut[unused + i])
  {
    crc := Compute(c, dataIn, length);
    CrcIsRemainder(c, dataIn[..length], m, q, rem);
  }

  /** The generator is the configured polynomial with a leading coefficient put on: bits above the width are shifted
      out. */
  lemma ConfiguredGenerator(c: Config)
    requires 1 <= c.size <= 4
    ensures Generator(AlignedPoly(c), 8 * c.size) == [true] + c.poly[Unused(c.size)..]
  {
  }

  /** The adapter's constant for CRC-8, 0x103. */
  const POLY_CRC8: Word32 := Zeros(23) + [true] + Zeros(6) + [true, true]

  /** It makes the generator x^8 + x + 1, not the x^8 + x^2 + x + 1 of its comment. */
  lemma Crc8Generator(c: Config)
    requires c.size == 1 && c.poly == POLY_CRC8
    ensures Generator(AlignedPoly(c), 8) == [true, false, false, false, false, false, false, true, true]
    ensures Generator(AlignedPoly(c), 8) != [true, false, false, false, false, false, true, true, true]
  {
    ConfiguredGenerator(c);
    assert Generator(AlignedPoly(c), 8)[6] == c.poly[29];
  }
}
