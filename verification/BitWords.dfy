// Unsigned machine words as their bits, most significant first.  Shifts lose bits at the word's ends.

module BitWords {

  type Bits = seq<bool>

  type Word32 = w: Bits | |w| == 32 witness seq(32, _ => false)

  type Word8 = w: Bits | |w| == 8 witness seq(8, _ => false)

  function Zeros(n: nat): (z: Bits)
    ensures |z| == n && forall i :: 0 <= i < n ==> !z[i]
  {
    seq(n, _ => false)
  }

  function Xor(a: Bits, b: Bits): (c: Bits)
    requires |a| == |b|
    ensures |c| == |a| && forall i :: 0 <= i < |c| ==> c[i] == (a[i] != b[i])
  {
    seq(|a|, i requires 0 <= i < |a| => a[i] != b[i])
  }

  function And(a: Bits, b: Bits): (c: Bits)
    requires |a| == |b|
    ensures |c| == |a| && forall i :: 0 <= i < |c| ==> c[i] == (a[i] && b[i])
  {
    seq(|a|, i requires 0 <= i < |a| => a[i] && b[i])
  }

  function Or(a: Bits, b: Bits): (c: Bits)
    requires |a| == |b|
    ensures |c| == |a| && forall i :: 0 <= i < |c| ==> c[i] == (a[i] || b[i])
  {
    seq(|a|, i requires 0 <= i < |a| => a[i] || b[i])
  }

  function Not(a: Bits): (c: Bits)
    ensures |c| == |a| && forall i :: 0 <= i < |c| ==> c[i] == !a[i]
  {
    seq(|a|, i requires 0 <= i < |a| => !a[i])
  }

  function ShiftLeft(a: Bits, k: nat): (c: Bits)
    requires k <= |a|
    ensures |c| == |a|
  {
    a[k..] + Zeros(k)
  }

  function ShiftRight(a: Bits, k: nat): (c: Bits)
    requires k <= |a|
    ensures |c| == |a|
  {
    Zeros(k) + a[..|a| - k]
  }

  function Reversed(a: Bits): (r: Bits)
    ensures |r| == |a| && forall i :: 0 <= i < |a| ==> r[i] == a[|a| - 1 - i]
  {
    seq(|a|, i requires 0 <= i < |a| => a[|a| - 1 - i])
  }

  /** Bits at the top of a word of `n`. */
  function Padded(bits: Bits, n: nat): (p: Bits)
    requires |bits| <= n
    ensures |p| == n
    ensures forall i :: 0 <= i < n ==> p[i] == (i < |bits| && bits[i])
  {
    bits + Zeros(n - |bits|)
  }
}
