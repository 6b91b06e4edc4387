/** Machine words of arbitrary width, written most significant bit first. */
module BitStrings {

  type Bits = seq<bool>

  /** An unsigned char. */
  type Byte = b: Bits | |b| == 8 witness seq(8, _ => false)

  function Zeros(n: nat): (z: Bits)
    ensures |z| == n
    ensures forall i :: 0 <= i < n ==> !z[i]
  {
    seq(n, _ => false)
  }

  function Xor(a: Bits, b: Bits): (c: Bits)
    requires |a| == |b|
    ensures |c| == |a|
    ensures forall i :: 0 <= i < |a| ==> c[i] == (a[i] != b[i])
  {
    seq(|a|, i requires 0 <= i < |a| => a[i] != b[i])
  }

  function Or(a: Bits, b: Bits): (c: Bits)
    requires |a| == |b|
    ensures |c| == |a|
    ensures forall i :: 0 <= i < |a| ==> c[i] == (a[i] || b[i])
  {
    seq(|a|, i requires 0 <= i < |a| => a[i] || b[i])
  }

  function And(a: Bits, b: Bits): (c: Bits)
    requires |a| == |b|
    ensures |c| == |a|
    ensures forall i :: 0 <= i < |a| ==> c[i] == (a[i] && b[i])
  {
    seq(|a|, i requires 0 <= i < |a| => a[i] && b[i])
  }

  function Reverse(a: Bits): (r: Bits)
    ensures |r| == |a|
    ensures forall i :: 0 <= i < |a| ==> r[i] == a[|a| - 1 - i]
  {
    seq(|a|, i requires 0 <= i < |a| => a[|a| - 1 - i])
  }

  /** `a << k` in a register of a's width: bits leaving at the top are lost. */
  function Shl(a: Bits, k: nat): (r: Bits)
    ensures |r| == |a|
    ensures forall i :: 0 <= i < |a| ==> r[i] == (i + k < |a| && a[i + k])
  {
    if k <= |a| then a[k..] + Zeros(k) else Zeros(|a|)
  }

  /** `a >> k` in a register of a's width. */
  function Shr(a: Bits, k: nat): (r: Bits)
    ensures |r| == |a|
    ensures forall i :: 0 <= i < |a| ==> r[i] == (i >= k && a[i - k])
  {
    if k <= |a| then Zeros(k) + a[..|a| - k] else Zeros(|a|)
  }

  /** The low n bits. */
  function Low(a: Bits, n: nat): (r: Bits)
    requires n <= |a|
    ensures |r| == n
  {
    a[|a| - n..]
  }

  /** The word of width w that holds `low` with every higher bit clear. */
  function Widen(low: Bits, w: nat): (r: Bits)
    requires |low| <= w
    ensures |r| == w
  {
    Zeros(w - |low|) + low
  }

  /** A word with bit k (counted from the low end) set and every other bit clear. */
  function OneBit(k: nat, w: nat): (r: Bits)
    requires k < w
    ensures |r| == w
    ensures forall i :: 0 <= i < w ==> r[i] == (i == w - 1 - k)
  {
    seq(w, i => i == w - 1 - k)
  }

  predicate IsZero(a: Bits) {
    forall i :: 0 <= i < |a| ==> !a[i]
  }

  // ----- numeric value, used to index the lookup table

  function Pow2(n: nat): (p: nat)
    ensures p >= 1
  {
    if n == 0 then 1 else 2 * Pow2(n - 1)
  }

  function ToNat(a: Bits): (v: nat)
    ensures v < Pow2(|a|)
  {
    if a == [] then 0
    else 2 * ToNat(a[..|a| - 1]) + if a[|a| - 1] then 1 else 0
  }

  function OfNat(v: nat, n: nat): (a: Bits)
    requires v < Pow2(n)
    ensures |a| == n
    ensures ToNat(a) == v
  {
    if n == 0 then []
    else
      var hi := OfNat(v / 2, n - 1);
      assert (hi + [v % 2 == 1])[..n - 1] == hi;
      hi + [v % 2 == 1]
  }

  lemma {:induction false} OfNatToNat(a: Bits)
    ensures OfNat(ToNat(a), |a|) == a
  {
    if a != [] {
      assert a == a[..|a| - 1] + [a[|a| - 1]];
      OfNatToNat(a[..|a| - 1]);
    }
  }

  // ----- algebra of Xor, Reverse and slices

  lemma XorSelf(a: Bits)
    ensures Xor(a, a) == Zeros(|a|)
  {
  }

  lemma XorZero(a: Bits)
    ensures Xor(a, Zeros(|a|)) == a
    ensures Xor(Zeros(|a|), a) == a
  {
  }

  lemma XorCancel(a: Bits, b: Bits)
    requires |a| == |b|
    ensures IsZero(Xor(a, b)) <==> a == b
  {
    if IsZero(Xor(a, b)) {
      forall i | 0 <= i < |a| ensures a[i] == b[i] {
        assert !Xor(a, b)[i];
      }
    }
  }

  lemma XorConcat(a: Bits, b: Bits, c: Bits, d: Bits)
    requires |a| == |c| && |b| == |d|
    ensures Xor(a + b, c + d) == Xor(a, c) + Xor(b, d)
  {
  }

  lemma ReverseInvolution(a: Bits)
    ensures Reverse(Reverse(a)) == a
  {
  }

  lemma ReverseXor(a: Bits, b: Bits)
    requires |a| == |b|
    ensures Reverse(Xor(a, b)) == Xor(Reverse(a), Reverse(b))
  {
  }
}
