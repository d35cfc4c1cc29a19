// The ring buffer log backend: the newest bytes overwrite the oldest, copied in at most two blocks.

module LogRingBuffer {
  import opened ByteMemory
  import opened Sequences

  // ---------- Rings as sequences ----------

  /** A position below three times the ring's length, brought into the ring. */
  function Wrap(x: nat, length: nat): (w: nat)
    requires x < 3 * length
    ensures w < length
  {
    if x < length then x else if x < 2 * length then x - length else x - 2 * length
  }

  /** The `n` bytes of the ring from `tail` on. */
  function Window(ring: seq<Byte>, tail: nat, n: nat): (s: seq<Byte>)
    requires tail < |ring| && n <= |ring|
    ensures |s| == n && forall i :: 0 <= i < n ==> s[i] == ring[Wrap(tail + i, |ring|)]
  {
    seq(n, i requires 0 <= i < n => ring[Wrap(tail + i, |ring|)])
  }

  /** How many bytes lie between `tail` and `head`; an empty ring and not a full one has them equal. */
  function Distance(tail: nat, head: nat, length: nat): (d: nat)
    requires tail < length && head < length
    ensures d < length && Wrap(tail + d, length) == head
  {
    if tail <= head then head - tail else head + length - tail
  }

  /** The ring with `data` stored from `head` on. */
  ghost predicate Stored(ring: seq<Byte>, ring': seq<Byte>, head: nat, data: seq<Byte>)
    requires head < |ring| && |data| < |ring|
  {
    && |ring'| == |ring|
    && (forall j :: 0 <= j < |data| ==> ring'[Wrap(head + j, |ring|)] == data[j])
    && (forall k :: 0 <= k < |ring| && Distance(head, k, |ring|) >= |data| ==> ring'[k] == ring[k])
  }

  /** Where byte `i` of the new contents comes from. */
  lemma StoredByte(ring: seq<Byte>, ring': seq<Byte>, tail: nat, head: nat, data: seq<Byte>, drop: nat, i: nat)
    requires tail < |ring| && head < |ring| && |data| < |ring| && Stored(ring, ring', head, data)
    requires var used := Distance(tail, head, |ring|);
             drop + i < used + |data| && used + |data| - drop < |ring| && drop <= |data|
    ensures var used := Distance(tail, head, |ring|);
            ring'[Wrap(Wrap(tail + drop, |ring|) + i, |ring|)] == (Window(ring, tail, used) + data)[drop + i]
  {
  }

  /** The contents after storing, when head and tail have moved to where the sizes say. */
  lemma StoredContents(ring: seq<Byte>, ring': seq<Byte>, tail: nat, head: nat, data: seq<Byte>,
                       tail': nat, head': nat, used: nat, used': nat, drop: nat, n: nat)
    requires tail < |ring| && head < |ring| && |data| < |ring| && Stored(ring, ring', head, data)
    requires used == Distance(tail, head, |ring|) && tail' < |ring| && head' < |ring|
    requires used' == Distance(tail', head', |ring|) && drop + used' == used + |data|
    requires tail' == Wrap(tail + drop, |ring|) && drop <= |data|
    requires n == |ring| - 1 && (drop == 0 || used' == n)
    ensures Window(ring', tail', used') == Last(Window(ring, tail, used) + data, n)
  {
    var all, contents := Window(ring, tail, used) + data, Window(ring', tail', used');
    assert Last(all, n) == all[drop..];
    forall i | 0 <= i < used'
      ensures contents[i] == all[drop..][i]
    {
      StoredByte(ring, ring', tail, head, data, drop, i);
    }
  }

  /** How many old bytes give way when `count` are stored beside `used`: one byte of the ring stays free. */
  function Overwritten(used: nat, count: nat, length: nat): nat
    requires 0 < length
  {
    if used + count >= length - 1 then used + count - (length - 1) else 0
  }

  /** How the source moves head and tail: the tail only when the free space is used up. */
  lemma PointersMove(length: nat, tail: nat, head: nat, used: nat, count: nat, tail': nat, head': nat)
    requires tail < length && head < length && count < length && used == Distance(tail, head, length)
    requires head' == Wrap(head + count, length)
    requires tail' == if count >= length - used - 1 then Wrap(head' + length + 1, length) else tail
    ensures var drop := Overwritten(used, count, length);
            && drop <= count && tail' == Wrap(tail + drop, length)
            && drop + Distance(tail', head', length) == used + count
            && (drop == 0 || Distance(tail', head', length) == length - 1)
  {
  }

  /** The contents after the data is stored and the pointers have moved. */
  lemma AppendedContents(ring: seq<Byte>, ring': seq<Byte>, tail: nat, head: nat, used: nat, data: seq<Byte>,
                         tail': nat, head': nat)
    requires tail < |ring| && head < |ring| && |data| < |ring| && Stored(ring, ring', head, data)
    requires used == Distance(tail, head, |ring|) && head' == Wrap(head + |data|, |ring|)
    requires tail' == if |data| >= |ring| - used - 1 then Wrap(head' + |ring| + 1, |ring|) else tail
    ensures Window(ring', tail', Distance(tail', head', |ring|)) == Last(Window(ring, tail, used) + data, |ring| - 1)
  {
    var length, count := |ring|, |data|;
    PointersMove(length, tail, head, used, count, tail', head');
    var used', drop := Distance(tail', head', length), Overwritten(used, count, length);
    StoredContents(ring, ring', tail, head, data, tail', head', used, used', drop, length - 1);
  }

  /** One or two block copies store the data. */
  lemma CopiesStore(ring: seq<Byte>, ring1: seq<Byte>, ring': seq<Byte>, head: nat, data: seq<Byte>, first: nat)
    requires head < |ring| && |data| < |ring|
    requires first == if head + |data| > |ring| then |ring| - head else |data|
    requires ring1 == ring[..head] + data[..first] + ring[head + first..]
    requires ring' == data[first..] + ring1[|data| - first..]
    ensures Stored(ring, ring', head, data)
  {
    forall j | 0 <= j < |data|
      ensures ring'[Wrap(head + j, |ring|)] == data[j]
    {
      if j < first {
        assert ring'[head + j] == ring1[head + j];
      } else {
        assert ring'[j - first] == data[first..][j - first];
      }
    }
    forall k | 0 <= k < |ring| && Distance(head, k, |ring|) >= |data|
      ensures ring'[k] == ring[k]
    {
      assert ring'[k] == ring1[k];
    }
  }

  lemma CopiedToStart(ring: seq<Byte>, piece: seq<Byte>)
    requires |piece| <= |ring|
    ensures ring[..0] + piece + ring[0 + |piece|..] == piece + ring[|piece|..]
  {
  }

  lemma ProductAtLeast(a: int, length: nat)
    requires a >= 1
    ensures a * length >= length
  {
  }

  lemma RemainderUnique(x: nat, length: nat, q: int, r: nat, q': int, r': nat)
    requires x == q * length + r == q' * length + r' && r < length && r' < length
    ensures r == r'
  {
    assert (q - q') * length == r' - r && (q' - q) * length == r - r';
    if q > q' {
      ProductAtLeast(q - q', length);
    } else if q < q' {
      ProductAtLeast(q' - q, length);
    }
  }

  /** The remainder operation of the source, on the positions it is used for. */
  method Modulo(x: nat, length: nat) returns (w: nat)
    requires 0 < length && x < 3 * length
    ensures w == Wrap(x, length)
  {
    w := x % length;
    ghost var q := if x < length then 0 else if x < 2 * length then 1 else 2;
    RemainderUnique(x, length, x / length, w, q, Wrap(x, length));
  }

  /** An over-long message is as good as its last bytes. */
  lemma LastOfMessage(contents: seq<Byte>, buffer: seq<Byte>, length: nat, from: nat, count: nat, n: nat)
    requires length <= |buffer|
    requires if length > n then from == length - n && count == n else from == 0 && count == length
    ensures Last(contents + buffer[..length], n) == Last(contents + buffer[from..from + count], n)
  {
    if length > n {
      assert Last(contents + buffer[..length], n) == buffer[from..length];
      assert Last(contents + buffer[from..length], n) == buffer[from..length];
    } else {
      assert buffer[from..from + count] == buffer[..length];
    }
  }

  lemma PiecesOfMessage(buffer: seq<Byte>, from: nat, count: nat, first: nat)
    requires first <= count && from + count <= |buffer|
    ensures buffer[from..from + count][..first] == buffer[from..from + first]
    ensures buffer[from..from + count][first..] == buffer[from + first..from + count]
  {
  }

  class RingBuffer {
    const ring: array<Byte>
    var head: nat
    var tail: nat
    var initialized: bool

    ghost predicate Valid()
      reads this
    {
      0 < ring.Length <= MODULUS32 / 2 && head < ring.Length && tail < ring.Length
    }

    /** The bytes from tail to head, oldest first. */
    ghost function Contents(): (s: seq<Byte>)
      requires Valid()
      reads this, ring
      ensures |s| <= ring.Length - 1
    {
      Window(ring[..], tail, Distance(tail, head, ring.Length))
    }

    /** LOG_InitBackendRingbuffer on a fresh buffer; the backend registers. */
    constructor (ring: array<Byte>)
      requires 0 < ring.Length <= MODULUS32 / 2
      ensures Valid() && initialized && Contents() == [] && this.ring == ring
    {
      this.ring := ring;
      head, tail, initialized := 0, 0, true;
    }

    /** memcpy of `data` into the ring at `at`. */
    method CopyIn(at: nat, data: seq<Byte>)
      requires at + |data| <= ring.Length
      modifies ring
      ensures ring[..] == old(ring[..])[..at] + data + old(ring[..])[at + |data|..]
    {
      forall i | 0 <= i < |data| {
        ring[at + i] := data[i];
      }
    }

    /** log_init_backend_ringbuffer_puts. */
    method Puts(buffer: seq<Byte>, length: nat)
      requires Valid() && length <= |buffer|
      modifies this, ring
      ensures Valid() && initialized == old(initialized)
      ensures initialized ==> Contents() == Last(old(Contents()) + buffer[..length], ring.Length - 1)
      ensures !initialized ==> Contents() == old(Contents())
    {
      if !initialized || length == 0 {
        assert Contents() + buffer[..0] == Contents();
        return;
      }
      var size := ring.Length;
      var remaining := Modulo(head + size - tail, size);
      remaining := size - remaining - 1;
      var from, count := 0, length;
      if length >= size {
        from := length - size + 1;
        count := size - 1;
      }
      LastOfMessage(Contents(), buffer, length, from, count, size - 1);
      Append(buffer, from, count, remaining);
    }

    /** Stores a message shorter than the ring and moves head and, if the free space is used up, tail. */
    method Append(buffer: seq<Byte>, from: nat, count: nat, remaining: nat)
      requires Valid() && count < ring.Length && from + count <= |buffer|
      requires remaining == ring.Length - Distance(tail, head, ring.Length) - 1
      modifies this`head, this`tail, ring
      ensures Valid()
      ensures Contents() == Last(old(Contents()) + buffer[from..from + count], ring.Length - 1)
    {
      ghost var before, data := ring[..], buffer[from..from + count];
      ghost var head0, tail0, used := head, tail, Distance(tail, head, ring.Length);
      var size := ring.Length;
      StoreBlocks(buffer, from, count);
      if count >= remaining {
        head := Modulo(head + count, size);
        tail := Modulo(head + size + 1, size);
      } else {
        head := Modulo(head + count, size);
      }
      AppendedContents(before, ring[..], tail0, head0, used, data, tail, head);
    }

    /** The block copies of one message, the second only when the first reaches the end of the ring. */
    method StoreBlocks(buffer: seq<Byte>, from: nat, count: nat)
      requires Valid() && count < ring.Length && from + count <= |buffer|
      modifies ring
      ensures Stored(old(ring[..]), ring[..], head, buffer[from..from + count])
    {
      ghost var before, data := ring[..], buffer[from..from + count];
      var copyLength := count;
      if head + copyLength > ring.Length {
        copyLength := ring.Length - head;
      }
      PiecesOfMessage(buffer, from, count, copyLength);
      CopyIn(head, buffer[from..from + copyLength]);
      ghost var middle := ring[..];
      if copyLength < count {
        CopyIn(0, buffer[from + copyLength..from + count]);
      }
      CopiedToStart(middle, data[copyLength..]);
      CopiesStore(before, middle, ring[..], head, data, copyLength);
    }
  }

  // ---------- Runs ----------

  function Joined(messages: seq<seq<Byte>>): seq<Byte> {
    if messages == [] then [] else Joined(messages[..|messages| - 1]) + messages[|messages| - 1]
  }

  lemma LastOfOneMore(before: seq<Byte>, messages: seq<seq<Byte>>, i: nat, n: nat)
    requires i < |messages|
    ensures Last(Last(before + Joined(messages[..i]), n) + messages[i], n)
            == Last(before + Joined(messages[..i + 1]), n)
  {
    assert messages[..i + 1][..i] == messages[..i];
    LastAppended(before + Joined(messages[..i]), messages[i], n);
    AppendAssociative(before, Joined(messages[..i]), messages[i]);
  }

  lemma NothingBefore(before: seq<Byte>, all: seq<Byte>, n: nat)
    ensures before == [] ==> Last(before + all, n) == Last(all, n)
  {
    if before == [] {
      assert before + all == all;
    }
  }

  method PutWhole(log: RingBuffer, message: seq<Byte>)
    requires log.Valid() && log.initialized
    modifies log, log.ring
    ensures log.Valid() && log.initialized
    ensures log.Contents() == Last(old(log.Contents()) + message, log.ring.Length - 1)
  {
    log.Puts(message, |message|);
    assert message[..|message|] == message;
  }

  /** After any sequence of messages, of any lengths, the ring holds the last bytes of all of them together. */
  method PutAll(log: RingBuffer, messages: seq<seq<Byte>>)
    requires log.Valid() && log.initialized
    modifies log, log.ring
    ensures log.Valid()
    ensures log.Contents() == Last(old(log.Contents()) + Joined(messages), log.ring.Length - 1)
    ensures old(log.Contents()) == [] ==> log.Contents() == Last(Joined(messages), log.ring.Length - 1)
  {
    ghost var before, n := log.Contents(), log.ring.Length - 1;
    assert before + Joined(messages[..0]) == before;
    for i := 0 to |messages|
      invariant log.Valid() && log.initialized && log.Contents() == Last(before + Joined(messages[..i]), n)
    {
      PutWhole(log, messages[i]);
      LastOfOneMore(before, messages, i, n);
    }
    assert messages[..|messages|] == messages;
    NothingBefore(before, Joined(messages), n);
  }
}
