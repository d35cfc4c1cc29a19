// The software CRC: a left-aligned 32 bit shift register fed bit by bit, most significant bit first.

module SoftwareCrc {
  import opened BitWords

  datatype Config = Config(reflectIn: bool, msByteFirst: bool, seed: Word32, poly: Word32, xorOut: Word32,
                           size: nat, startByte: nat)

  // ---------- The register ----------

  /** Shift, and add the polynomial on feedback. */
  function Advance(r: Bits, poly: Bits, feedback: bool): (s: Bits)
    requires 0 < |r| == |poly|
    ensures |s| == |r|
  {
    if feedback then Xor(ShiftLeft(r, 1), poly) else ShiftLeft(r, 1)
  }

  /** One bit into the register; there is feedback when it differs from the bit shifted out. */
  function Step(r: Bits, poly: Bits, b: bool): (s: Bits)
    requires 0 < |r| == |poly|
    ensures |s| == |r|
  {
    Advance(r, poly, r[0] != b)
  }

  function Feed(r: Bits, poly: Bits, bits: Bits): (s: Bits)
    requires 0 < |r| == |poly|
    ensures |s| == |r|
    decreases bits
  {
    if bits == [] then r else Feed(Step(r, poly, bits[0]), poly, bits[1..])
  }

  /** A register of `width` bits: those below it in the word are zero. */
  predicate IsRegister(r: Bits, width: nat)
  {
    width <= |r| && forall i :: width <= i < |r| ==> !r[i]
  }

  lemma StepKeepsRegister(r: Bits, poly: Bits, b: bool, width: nat)
    requires 0 < |r| == |poly| && IsRegister(r, width) && IsRegister(poly, width)
    ensures IsRegister(Step(r, poly, b), width)
  {
  }

  lemma {:induction false} FeedKeepsRegister(r: Bits, poly: Bits, bits: Bits, width: nat)
    requires 0 < |r| == |poly| && IsRegister(r, width) && IsRegister(poly, width)
    ensures IsRegister(Feed(r, poly, bits), width)
    decreases bits
  {
    if bits != [] {
      StepKeepsRegister(r, poly, bits[0], width);
      FeedKeepsRegister(Step(r, poly, bits[0]), poly, bits[1..], width);
    }
  }

  /** Processing one message and then another is processing them together. */
  lemma {:induction false} FeedAppend(r: Bits, poly: Bits, a: Bits, b: Bits)
    requires 0 < |r| == |poly|
    ensures Feed(r, poly, a + b) == Feed(Feed(r, poly, a), poly, b)
    decreases a
  {
    if a == [] {
      assert a + b == b;
    } else {
      assert (a + b)[1..] == a[1..] + b;
      FeedAppend(Step(r, poly, a[0]), poly, a[1..], b);
    }
  }

  /** The source forces the lowest register bit to the polynomial's after each bit. */
  function Forced(r: Bits, poly: Bits, feedback: bool, width: nat): (s: Bits)
    requires 0 < width <= |r| == |poly|
    ensures |s| == |r|
  {
    r[width - 1 := feedback && poly[width - 1]]
  }

  /** Forcing never alters the register. */
  lemma ForcingChangesNothing(r: Bits, poly: Bits, feedback: bool, width: nat)
    requires 0 < width <= |r| == |poly| && IsRegister(r, width)
    ensures Forced(Advance(r, poly, feedback), poly, feedback, width) == Advance(r, poly, feedback)
  {
  }

  // ---------- Input and output ----------

  function InputByte(d: Word8, reflect: bool): Word8
  {
    if reflect then Reversed(d) else d
  }

  /** The bits of a message in the order they enter the register. */
  function MessageBits(data: seq<Word8>, reflect: bool): (bits: Bits)
    ensures |bits| == 8 * |data|
  {
    if data == [] then [] else InputByte(data[0], reflect) + MessageBits(data[1..], reflect)
  }

  /** How many bits of the word a CRC of `size` octets leaves unused. */
  function Unused(size: nat): nat
    requires size <= 4
  {
    32 - 8 * size
  }

  function Output(c: Config, r: Word32): Word32
    requires c.size <= 4
  {
    var x := Xor(r, ShiftLeft(c.xorOut, Unused(c.size)));
    if c.msByteFirst then ShiftRight(x, Unused(c.size)) else Reversed(x)
  }

  function Covered(c: Config, data: seq<Word8>): seq<Word8>
  {
    if c.startByte <= |data| then data[c.startByte..] else []
  }

  function InitialRegister(c: Config): Word32
    requires c.size <= 4
  {
    ShiftLeft(c.seed, Unused(c.size))
  }

  function AlignedPoly(c: Config): Word32
    requires c.size <= 4
  {
    ShiftLeft(c.poly, Unused(c.size))
  }

  function FinalRegister(c: Config, data: seq<Word8>): Word32
    requires c.size <= 4
  {
    Feed(InitialRegister(c), AlignedPoly(c), MessageBits(Covered(c, data), c.reflectIn))
  }

  function Crc(c: Config, data: seq<Word8>): Word32
    requires c.size <= 4
  {
    if c.size == 0 then Zeros(32) else Output(c, FinalRegister(c, data))
  }

  // ---------- The computation ----------

  /** The reflection loop: bits taken off the bottom of the byte, pushed onto the result. */
  method ReflectByte(d: Word8) returns (r: Word8)
    ensures r == Reversed(d)
  {
    var data: Word8 := d;
    r := Zeros(8);
    for j := 0 to 8
      invariant data == ShiftRight(d, j)
      invariant forall k {:trigger r[k]} :: 8 - j <= k < 8 ==> r[k] == d[15 - j - k]
    {
      var low := data[7];
      r := ShiftLeft(r, 1);
      r := r[7 := r[7] || low];
      data := ShiftRight(data, 1);
    }
  }

  /** The inner loop for one byte: the bit, the feedback, the shift, and the forcing of the lowest bit. */
  method FeedByte(r: Word32, poly: Word32, d: Word8, width: nat) returns (shiftReg: Word32)
    requires 0 < width <= 32 && IsRegister(r, width) && IsRegister(poly, width)
    ensures shiftReg == Feed(r, poly, d) && IsRegister(shiftReg, width)
  {
    shiftReg := r;
    var data: Word8 := d;
    for j := 0 to 8
      invariant data == ShiftLeft(d, j)
      invariant IsRegister(shiftReg, width)
      invariant Feed(shiftReg, poly, d[j..]) == Feed(r, poly, d)
    {
      ghost var before := shiftReg;
      StepKeepsRegister(before, poly, d[j], width);
      ForcingChangesNothing(before, poly, before[0] != d[j], width);
      assert d[j..][1..] == d[j + 1..];
      var bit := data[0];
      data := ShiftLeft(data, 1);
      if shiftReg[0] {
        bit := !bit;
      }
      shiftReg := ShiftLeft(shiftReg, 1);
      if bit {
        shiftReg := Xor(shiftReg, poly);
      }
      if bit && poly[width - 1] {
        shiftReg := shiftReg[width - 1 := true];
      } else {
        shiftReg := shiftReg[width - 1 := false];
      }
    }
  }

  /** The output reflection loop, whose mask walks up the word from its lowest bit. */
  method ReverseWord(r: Word32) returns (crc: Word32)
    ensures crc == Reversed(r)
  {
    crc := Zeros(32);
    for i := 0 to 32
      invariant forall k {:trigger crc[k]} :: 32 - i <= k < 32 ==> crc[k] == r[63 - i - k]
    {
      crc := ShiftLeft(crc, 1);
      crc := crc[31 := crc[31] || r[31 - i]];
    }
  }

  /** HAL_CrcCompute over the first `length` bytes of the input.  For size 0 the source shifts 32 bit values by 32
      before it tests the size, which C leaves undefined; the results of these shifts are not used. */
  method Compute(c: Config, dataIn: seq<Word8>, length: nat) returns (crc: Word32)
    requires c.size <= 4 && length <= |dataIn|
    ensures crc == Crc(c, dataIn[..length])
    ensures c.size == 0 ==> forall k :: 0 <= k < 32 ==> !crc[k]
  {
    var width := 8 * c.size;
    var unused := Unused(c.size);
    var shiftReg: Word32 := ShiftLeft(c.seed, unused);
    var poly: Word32 := ShiftLeft(c.poly, unused);
    var xorOut: Word32 := ShiftLeft(c.xorOut, unused);
    crc := Zeros(32);
    if c.size != 0 {
      ghost var input := dataIn[..length];
      var i := c.startByte;
      ghost var rest := Covered(c, input);
      ghost var final := FinalRegister(c, input);
      while i < length
        invariant rest == if i <= length then input[i..] else []
        invariant IsRegister(shiftReg, width) && IsRegister(poly, width)
        invariant Feed(shiftReg, poly, MessageBits(rest, c.reflectIn)) == final
      {
        var data := dataIn[i];
        if c.reflectIn {
          data := ReflectByte(data);
        }
        FeedAppend(shiftReg, poly, data, MessageBits(rest[1..], c.reflectIn));
        shiftReg := FeedByte(shiftReg, poly, data, width);
        rest := rest[1..];
        i := i + 1;
      }
      shiftReg := Xor(shiftReg, xorOut);
      if c.msByteFirst {
        crc := ShiftRight(shiftReg, unused);
      } else {
        crc := ReverseWord(shiftReg);
      }
    }
  }
}
