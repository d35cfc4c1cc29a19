// Address slots of an I3C bus: two bits for each of 128 addresses, packed into eight words.

module I3cSlots {
  import opened BitWords

  datatype Status = Free | Reserved | I2cDevice | I3cDevice

  /** The highest address, which is never assigned. */
  const MAX_ADDR: nat := 0x7F

  const BROADCAST_ADDR: nat := 0x7E

  /** A status as the two low bits of a word. */
  function StatusWord(status: Status): Word32 {
    Zeros(30) + match status
                case Free => [false, false]
                case Reserved => [false, true]
                case I2cDevice => [true, false]
                case I3cDevice => [true, true]
  }

  lemma StatusWordDistinct(a: Status, b: Status)
    ensures StatusWord(a) == StatusWord(b) <==> a == b
  {
    assert StatusWord(a)[30..] == StatusWord(b)[30..] <==> a == b;
  }

  function Decoded(high: bool, low: bool): Status {
    if high then if low then I3cDevice else I2cDevice else if low then Reserved else Free
  }

  const SLOT_MASK: Word32 := Zeros(30) + [true, true]

  /** The status in the two bits that start `k` bits above the word's bottom. */
  function SlotAt(word: Word32, k: nat): Status
    requires k <= 30
  {
    Decoded(word[30 - k], word[31 - k])
  }

  /** Clearing and setting two bits, as the source's masks and shifts do it. */
  function WithSlot(word: Word32, k: nat, status: Status): Word32
    requires k <= 30
  {
    Or(And(word, Not(ShiftLeft(SLOT_MASK, k))), ShiftLeft(StatusWord(status), k))
  }

  function Slot(words: seq<Word32>, addr: nat): Status
    requires |words| == 8 && addr <= MAX_ADDR
  {
    SlotAt(words[addr / 16], 2 * (addr % 16))
  }

  function SlotsOf(words: seq<Word32>): (s: seq<Status>)
    requires |words| == 8
    ensures |s| == 128 && forall a :: 0 <= a < 128 ==> s[a] == Slot(words, a)
  {
    seq(128, a requires 0 <= a < 128 => Slot(words, a))
  }

  lemma SlotPosition(addr: nat)
    ensures 2 * addr / 32 == addr / 16 && 2 * addr % 32 == 2 * (addr % 16)
  {
    var q, r := addr / 16, addr % 16;
    assert 2 * addr == 32 * q + 2 * r;
  }

  /** What reading a slot by shifting and masking gives. */
  lemma ShiftedSlot(word: Word32, k: nat)
    requires k <= 30
    ensures And(ShiftRight(word, k), SLOT_MASK) == StatusWord(SlotAt(word, k))
  {
  }

  /** Shifting and masking the right word reads one entry of the table. */
  lemma GetSlot(words: seq<Word32>, addr: nat)
    requires |words| == 8 && addr <= MAX_ADDR
    ensures And(ShiftRight(words[2 * addr / 32], 2 * addr % 32), SLOT_MASK) == StatusWord(SlotsOf(words)[addr])
  {
    SlotPosition(addr);
    var i, k := addr / 16, 2 * (addr % 16);
    ShiftedSlot(words[i], k);
  }

  /** Clearing and setting changes the two bits at `k` and no others. */
  lemma WithSlotOnly(word: Word32, k: nat, status: Status, j: nat)
    requires k <= 30 && j <= 30 && k % 2 == 0 && j % 2 == 0
    ensures SlotAt(WithSlot(word, k, status), j) == if j == k then status else SlotAt(word, j)
  {
  }

  /** Changing one slot of the packed words changes one entry of the table. */
  lemma SetSlot(words: seq<Word32>, addr: nat, status: Status)
    requires |words| == 8 && addr <= MAX_ADDR
    ensures var k, i := 2 * addr % 32, 2 * addr / 32;
            SlotsOf(words[i := WithSlot(words[i], k, status)]) == SlotsOf(words)[addr := status]
  {
    SlotPosition(addr);
    var k, i := 2 * (addr % 16), addr / 16;
    var words' := words[i := WithSlot(words[i], k, status)];
    forall a | 0 <= a < 128
      ensures Slot(words', a) == if a == addr then status else Slot(words, a)
    {
      if a / 16 == i {
        WithSlotOnly(words[i], k, status, 2 * (a % 16));
      }
    }
  }
}
