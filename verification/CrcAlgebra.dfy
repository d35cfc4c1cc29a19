// Why the shift register is a cyclic redundancy check: it computes the remainder of polynomial division
// over GF(2), it is linear and injective, and so it detects every burst no longer than the register.

module CrcAlgebra {
  import opened BitWords
  import opened SoftwareCrc

  // ---------- Linearity ----------

  lemma StepLinear(r: Bits, s: Bits, poly: Bits, b: bool, c: bool)
    requires 0 < |r| == |s| == |poly|
    ensures Step(Xor(r, s), poly, b != c) == Xor(Step(r, poly, b), Step(s, poly, c))
  {
  }

  /** Over GF(2) the register is a linear function of seed and message together. */
  lemma {:induction false} FeedLinear(r: Bits, s: Bits, poly: Bits, a: Bits, b: Bits)
    requires 0 < |r| == |s| == |poly| && |a| == |b|
    ensures Feed(Xor(r, s), poly, Xor(a, b)) == Xor(Feed(r, poly, a), Feed(s, poly, b))
    decreases a
  {
    if a != [] {
      StepLinear(r, s, poly, a[0], b[0]);
      assert Xor(a, b)[1..] == Xor(a[1..], b[1..]);
      FeedLinear(Step(r, poly, a[0]), Step(s, poly, b[0]), poly, a[1..], b[1..]);
    } else {
      assert b == [];
    }
  }

  // ---------- Injectivity ----------

  /** The polynomial's constant term, the lowest register bit, is 1. */
  predicate OddPoly(poly: Bits, width: nat)
  {
    0 < width <= |poly| && IsRegister(poly, width) && poly[width - 1]
  }

  lemma StepInjective(r: Bits, s: Bits, poly: Bits, b: bool, width: nat)
    requires |r| == |s| == |poly| && OddPoly(poly, width) && IsRegister(r, width) && IsRegister(s, width)
    requires Step(r, poly, b) == Step(s, poly, b)
    ensures r == s
  {
    var t, n := Step(r, poly, b), |r|;
    var f, g := r[0] != b, s[0] != b;
    assert t[width - 1] == f && t[width - 1] == g by {
      assert ShiftLeft(r, 1)[width - 1] == false && ShiftLeft(s, 1)[width - 1] == false;
    }
    forall i | 0 < i < n
      ensures r[i] == s[i]
    {
      assert ShiftLeft(r, 1)[i - 1] == r[i] && ShiftLeft(s, 1)[i - 1] == s[i];
    }
  }

  /** With an odd polynomial, no continuation of the message brings two different registers together. */
  lemma {:induction false} FeedInjective(r: Bits, s: Bits, poly: Bits, bits: Bits, width: nat)
    requires |r| == |s| == |poly| && OddPoly(poly, width) && IsRegister(r, width) && IsRegister(s, width)
    ensures Feed(r, poly, bits) == Feed(s, poly, bits) <==> r == s
    decreases bits
  {
    if bits != [] {
      var r', s' := Step(r, poly, bits[0]), Step(s, poly, bits[0]);
      StepKeepsRegister(r, poly, bits[0], width);
      StepKeepsRegister(s, poly, bits[0], width);
      FeedInjective(r', s', poly, bits[1..], width);
      if r' == s' {
        StepInjective(r, s, poly, bits[0], width);
      }
    }
  }

  // ---------- A short message can be added to the register at once ----------

  lemma StepPadded(r: Bits, poly: Bits, bits: Bits)
    requires 0 < |bits| <= |r| == |poly|
    ensures Step(Xor(r, Padded(bits, |r|)), poly, false) == Xor(Step(r, poly, bits[0]), Padded(bits[1..], |r|))
  {
  }

  lemma {:induction false} FeedPadded(r: Bits, poly: Bits, bits: Bits)
    requires 0 < |r| == |poly| && |bits| <= |r|
    ensures Feed(r, poly, bits) == Feed(Xor(r, Padded(bits, |r|)), poly, Zeros(|bits|))
    decreases bits
  {
    if bits == [] {
      assert Xor(r, Padded(bits, |r|)) == r;
    } else {
      StepPadded(r, poly, bits);
      assert Zeros(|bits|)[1..] == Zeros(|bits[1..]|);
      FeedPadded(Step(r, poly, bits[0]), poly, bits[1..]);
    }
  }

  /** Up to a register's width of message bits, different messages leave different registers. */
  lemma ShortMessagesDiffer(r: Bits, poly: Bits, a: Bits, b: Bits, width: nat)
    requires |r| == |poly| && OddPoly(poly, width) && IsRegister(r, width) && |a| == |b| <= width
    ensures Feed(r, poly, a) == Feed(r, poly, b) <==> a == b
  {
    var n := |r|;
    var x, y := Xor(r, Padded(a, n)), Xor(r, Padded(b, n));
    FeedPadded(r, poly, a);
    FeedPadded(r, poly, b);
    FeedInjective(x, y, poly, Zeros(|a|), width);
    if x == y {
      forall i | 0 <= i < |a|
        ensures a[i] == b[i]
      {
        assert x[i] == (r[i] != a[i]) && y[i] == (r[i] != b[i]);
      }
    }
  }

  // ---------- Burst detection ----------

  /** The messages agree outside one window of at most `width` bits. */
  predicate BurstApart(a: Bits, b: Bits, at: nat, length: nat)
  {
    && |a| == |b| && at + length <= |a|
    && a[..at] == b[..at] && a[at + length..] == b[at + length..]
  }

  lemma BurstChangesRegister(r: Bits, poly: Bits, a: Bits, b: Bits, at: nat, length: nat, width: nat)
    requires |r| == |poly| && OddPoly(poly, width) && IsRegister(r, width)
    requires BurstApart(a, b, at, length) && length <= width
    ensures Feed(r, poly, a) == Feed(r, poly, b) <==> a == b
  {
    var r1 := Feed(r, poly, a[..at]);
    var x, y, rest := a[at..at + length], b[at..at + length], a[at + length..];
    FeedKeepsRegister(r, poly, a[..at], width);
    FeedKeepsRegister(r1, poly, x, width);
    FeedKeepsRegister(r1, poly, y, width);
    FeedSplit(r, poly, a, at, length);
    FeedSplit(r, poly, b, at, length);
    ShortMessagesDiffer(r1, poly, x, y, width);
    FeedInjective(Feed(r1, poly, x), Feed(r1, poly, y), poly, rest, width);
    if x == y {
      SamePieces(a, b, at, length);
    }
  }

  lemma SamePieces(a: Bits, b: Bits, at: nat, length: nat)
    requires BurstApart(a, b, at, length) && a[at..at + length] == b[at..at + length]
    ensures a == b
  {
  }

  lemma FeedSplit(r: Bits, poly: Bits, a: Bits, at: nat, length: nat)
    requires 0 < |r| == |poly| && at + length <= |a|
    ensures Feed(r, poly, a)
            == Feed(Feed(Feed(r, poly, a[..at]), poly, a[at..at + length]), poly, a[at + length..])
  {
    assert a == a[..at] + a[at..];
    assert a[at..] == a[at..at + length] + a[at + length..];
    FeedAppend(r, poly, a[..at], a[at..]);
    FeedAppend(Feed(r, poly, a[..at]), poly, a[at..at + length], a[at + length..]);
  }

  /** The configured polynomial has constant term 1. */
  predicate OddConfig(c: Config)
  {
    1 <= c.size <= 4 && c.poly[31]
  }

  lemma ConfigRegisters(c: Config)
    requires 1 <= c.size <= 4
    ensures IsRegister(InitialRegister(c), 8 * c.size) && IsRegister(AlignedPoly(c), 8 * c.size)
    ensures OddConfig(c) ==> OddPoly(AlignedPoly(c), 8 * c.size)
  {
  }

  lemma FinalIsRegister(c: Config, data: seq<Word8>)
    requires 1 <= c.size <= 4
    ensures IsRegister(FinalRegister(c, data), 8 * c.size)
  {
    ConfigRegisters(c);
    FeedKeepsRegister(InitialRegister(c), AlignedPoly(c), MessageBits(Covered(c, data), c.reflectIn), 8 * c.size);
  }

  lemma XorInjective(r: Bits, s: Bits, x: Bits)
    requires |r| == |s| == |x|
    ensures Xor(r, x) == Xor(s, x) <==> r == s
  {
  }

  lemma ReversedTwice(x: Bits)
    ensures Reversed(Reversed(x)) == x
  {
  }

  lemma ShiftBack(x: Bits, k: nat)
    requires k <= |x| && IsRegister(x, |x| - k)
    ensures ShiftLeft(ShiftRight(x, k), k) == x
  {
  }

  lemma OutputInjective(c: Config, r: Word32, s: Word32)
    requires 1 <= c.size <= 4 && IsRegister(r, 8 * c.size) && IsRegister(s, 8 * c.size)
    ensures Output(c, r) == Output(c, s) <==> r == s
  {
    var k := Unused(c.size);
    var xorOut := ShiftLeft(c.xorOut, k);
    var x, y := Xor(r, xorOut), Xor(s, xorOut);
    XorInjective(r, s, xorOut);
    ReversedTwice(x);
    ReversedTwice(y);
    assert IsRegister(x, 32 - k) && IsRegister(y, 32 - k);
    ShiftBack(x, k);
    ShiftBack(y, k);
  }

  /**
   * Burst detection: for every width of 1 to 4 octets and every polynomial with constant term 1, two messages
   * of one length that differ, within at most that many consecutive bits as they enter the register, have
   * different CRCs, whatever seed, xor-out, reflection and byte order are configured.
   */
  lemma BurstDetected(c: Config, data: seq<Word8>, data': seq<Word8>, at: nat, length: nat)
    requires OddConfig(c)
    requires var a := MessageBits(Covered(c, data), c.reflectIn);
             var b := MessageBits(Covered(c, data'), c.reflectIn);
             BurstApart(a, b, at, length) && length <= 8 * c.size && a != b
    ensures Crc(c, data) != Crc(c, data')
  {
    var width := 8 * c.size;
    ConfigRegisters(c);
    BurstChangesRegister(InitialRegister(c), AlignedPoly(c), MessageBits(Covered(c, data), c.reflectIn),
                         MessageBits(Covered(c, data'), c.reflectIn), at, length, width);
    FinalIsRegister(c, data);
    FinalIsRegister(c, data');
    OutputInjective(c, FinalRegister(c, data), FinalRegister(c, data'));
  }

  // ---------- Residue ----------

  /** Feeding a register its own bits empties it. */
  lemma OwnBitsCancel(r: Bits, poly: Bits, width: nat)
    requires 0 < |r| == |poly| && IsRegister(r, width)
    ensures Feed(r, poly, r[..width]) == Zeros(|r|)
  {
    FeedPadded(r, poly, r[..width]);
    assert Xor(r, Padded(r[..width], |r|)) == Zeros(|r|);
    ZerosStay(|r|, poly, width);
  }

  lemma {:induction false} ZerosStay(n: nat, poly: Bits, k: nat)
    requires 0 < n == |poly|
    ensures Feed(Zeros(n), poly, Zeros(k)) == Zeros(n)
  {
    if k > 0 {
      assert Step(Zeros(n), poly, false) == Zeros(n);
      assert Zeros(k)[1..] == Zeros(k - 1);
      ZerosStay(n, poly, k - 1);
    }
  }

  /** The bytes of a result, most significant first, when it has `size` of them. */
  function ResultBytes(crc: Word32, size: nat): (bytes: seq<Word8>)
    requires size <= 4
    ensures |bytes| == size
  {
    if size == 0 then [] else [crc[Unused(size)..Unused(size - 1)]] + ResultBytes(crc, size - 1)
  }

  lemma {:induction false} ResultBits(crc: Word32, size: nat)
    requires size <= 4
    ensures MessageBits(ResultBytes(crc, size), false) == crc[Unused(size)..]
  {
    if size > 0 {
      ResultBits(crc, size - 1);
      var bytes := ResultBytes(crc, size);
      assert bytes[1..] == ResultBytes(crc, size - 1);
      assert crc[Unused(size)..] == crc[Unused(size)..Unused(size - 1)] + crc[Unused(size - 1)..];
    }
  }

  lemma {:induction false} MessageBitsAppend(a: seq<Word8>, b: seq<Word8>, reflect: bool)
    ensures MessageBits(a + b, reflect) == MessageBits(a, reflect) + MessageBits(b, reflect)
    decreases a
  {
    if a == [] {
      assert a + b == b;
    } else {
      assert (a + b)[1..] == a[1..] + b;
      MessageBitsAppend(a[1..], b, reflect);
    }
  }

  /** A message extended by the bits of its own final register leaves an empty register. */
  lemma ExtendedMessage(c: Config, data: seq<Word8>, tail: seq<Word8>)
    requires 1 <= c.size <= 4 && c.startByte <= |data|
    requires MessageBits(tail, c.reflectIn) == FinalRegister(c, data)[..8 * c.size]
    ensures FinalRegister(c, data + tail) == Zeros(32)
  {
    var covered := Covered(c, data);
    assert Covered(c, data + tail) == covered + tail;
    FinalIsRegister(c, data);
    MessageBitsAppend(covered, tail, c.reflectIn);
    FeedAppend(InitialRegister(c), AlignedPoly(c), MessageBits(covered, c.reflectIn), MessageBits(tail, c.reflectIn));
    OwnBitsCancel(FinalRegister(c, data), AlignedPoly(c), 8 * c.size);
  }

  lemma PlainOutput(c: Config, r: Word32)
    requires 1 <= c.size <= 4 && c.xorOut == Zeros(32) && c.msByteFirst && IsRegister(r, 8 * c.size)
    ensures Output(c, r) == ShiftRight(r, Unused(c.size)) && Output(c, r)[Unused(c.size)..] == r[..8 * c.size]
    ensures r == Zeros(32) ==> Output(c, r) == Zeros(32)
  {
  }

  /** Without xor-out and reflection, a message followed by its CRC, most significant byte first, has CRC 0. */
  lemma Residue(c: Config, data: seq<Word8>)
    requires 1 <= c.size <= 4 && c.startByte <= |data|
    requires c.xorOut == Zeros(32) && !c.reflectIn && c.msByteFirst
    ensures Crc(c, data + ResultBytes(Crc(c, data), c.size)) == Zeros(32)
  {
    var crc := Crc(c, data);
    var tail := ResultBytes(crc, c.size);
    FinalIsRegister(c, data);
    PlainOutput(c, FinalRegister(c, data));
    ResultBits(crc, c.size);
    ExtendedMessage(c, data, tail);
    PlainOutput(c, FinalRegister(c, data + tail));
  }

  // ---------- Byte order ----------

  /** The LS-byte-first result is the MS-byte-first one with its 8 * size bits reversed; the bits above are 0. */
  lemma ByteOrderReverses(c: Config, data: seq<Word8>)
    requires 1 <= c.size <= 4
    ensures var ms := Crc(c.(msByteFirst := true), data);
            var ls := Crc(c.(msByteFirst := false), data);
            var k := Unused(c.size);
            ls == Zeros(k) + Reversed(ms[k..]) && ms == Zeros(k) + ms[k..]
  {
    var k := Unused(c.size);
    var r := FinalRegister(c, data);
    var x := Xor(r, ShiftLeft(c.xorOut, k));
    FinalIsRegister(c, data);
    ByteOrderOnlyInOutput(c, c.(msByteFirst := true), data);
    ByteOrderOnlyInOutput(c, c.(msByteFirst := false), data);
    RegisterReversed(x, k);
  }

  lemma ByteOrderOnlyInOutput(c: Config, c': Config, data: seq<Word8>)
    requires 1 <= c.size <= 4 && c' == c.(msByteFirst := c'.msByteFirst)
    ensures var x := Xor(FinalRegister(c, data), ShiftLeft(c.xorOut, Unused(c.size)));
            Crc(c', data) == if c'.msByteFirst then ShiftRight(x, Unused(c.size)) else Reversed(x)
  {
  }

  lemma RegisterReversed(x: Bits, k: nat)
    requires k <= |x| && IsRegister(x, |x| - k)
    ensures ShiftRight(x, k)[k..] == x[..|x| - k]
    ensures Reversed(x) == Zeros(k) + Reversed(x[..|x| - k])
  {
  }
}
