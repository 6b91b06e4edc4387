/**
 The division register of a cyclic redundancy code, and what it computes.

 A register of n bits is fed one message bit at a time. `poly` is the truncated
 polynomial: the coefficient of x^n is implicit.
 */
module CrcTheory {
  import opened BitStrings

  /** One division step: compare the bit with the top of the register, shift, divide. */
  function Step(poly: Bits, r: Bits, bit: bool): (r': Bits)
    requires |poly| == |r| >= 1
    ensures |r'| == |r|
    ensures forall i :: 0 <= i < |r| ==>
      r'[i] == ((i + 1 < |r| && r[i + 1]) != ((r[0] != bit) && poly[i]))
  {
    var shifted := r[1..] + [false];
    if r[0] != bit then Xor(shifted, poly) else shifted
  }

  function Run(poly: Bits, r: Bits, msg: Bits): (r': Bits)
    requires |poly| == |r| >= 1
    ensures |r'| == |r|
    decreases msg
  {
    if msg == [] then r else Run(poly, Step(poly, r, msg[0]), msg[1..])
  }

  lemma {:induction false} RunConcat(poly: Bits, r: Bits, m1: Bits, m2: Bits)
    requires |poly| == |r| >= 1
    ensures Run(poly, r, m1 + m2) == Run(poly, Run(poly, r, m1), m2)
    decreases m1
  {
    if m1 == [] {
      assert m1 + m2 == m2;
    } else {
      assert (m1 + m2)[1..] == m1[1..] + m2;
      RunConcat(poly, Step(poly, r, m1[0]), m1[1..], m2);
    }
  }

  lemma RunSnoc(poly: Bits, r: Bits, m: Bits, i: nat)
    requires |poly| == |r| >= 1
    requires i < |m|
    ensures Run(poly, r, m[..i + 1]) == Step(poly, Run(poly, r, m[..i]), m[i])
  {
    assert m[..i + 1] == m[..i] + [m[i]];
    RunConcat(poly, r, m[..i], [m[i]]);
  }

  // ----- linearity

  lemma StepLinear(poly: Bits, r: Bits, s: Bits, b: bool, c: bool)
    requires |poly| == |r| == |s| >= 1
    ensures Step(poly, Xor(r, s), b != c) == Xor(Step(poly, r, b), Step(poly, s, c))
  {
  }

  /** The register is linear over GF(2) in its start value and its input together. */
  lemma {:induction false} RunLinear(poly: Bits, r: Bits, s: Bits, m: Bits, k: Bits)
    requires |poly| == |r| == |s| >= 1
    requires |m| == |k|
    ensures Run(poly, Xor(r, s), Xor(m, k)) == Xor(Run(poly, r, m), Run(poly, s, k))
    decreases m
  {
    if m != [] {
      StepLinear(poly, r, s, m[0], k[0]);
      assert Xor(m, k)[1..] == Xor(m[1..], k[1..]);
      RunLinear(poly, Step(poly, r, m[0]), Step(poly, s, k[0]), m[1..], k[1..]);
    }
  }

  lemma {:induction false} RunZero(poly: Bits, k: nat)
    requires |poly| >= 1
    ensures Run(poly, Zeros(|poly|), Zeros(k)) == Zeros(|poly|)
  {
    if k > 0 {
      assert Step(poly, Zeros(|poly|), false) == Zeros(|poly|);
      assert Zeros(k)[1..] == Zeros(k - 1);
      RunZero(poly, k - 1);
    }
  }

  /** Zero input shifts leading zeros out of the register without dividing. */
  lemma {:induction false} RunShift(poly: Bits, lo: Bits, k: nat)
    requires |poly| == k + |lo| >= 1
    ensures Run(poly, Zeros(k) + lo, Zeros(k)) == lo + Zeros(k)
    decreases k
  {
    if k == 0 {
      assert Zeros(k) + lo == lo == lo + Zeros(k);
    } else {
      var lo' := lo + [false];
      assert Step(poly, Zeros(k) + lo, false) == Zeros(k - 1) + lo';
      assert Zeros(k)[1..] == Zeros(k - 1);
      RunShift(poly, lo', k - 1);
      assert lo' + Zeros(k - 1) == lo + Zeros(k);
    }
  }

  /** s filled up with zeros to width n: s written into the top of a word. */
  function PadRight(s: Bits, n: nat): (z: Bits)
    requires |s| <= n
    ensures |z| == n
    ensures forall i :: 0 <= i < n ==> z[i] == (i < |s| && s[i])
  {
    s + Zeros(n - |s|)
  }

  /** ... and into the bottom of a word. */
  function PadLeft(s: Bits, n: nat): (z: Bits)
    requires |s| <= n
    ensures |z| == n
    ensures forall i :: 0 <= i < n ==> z[i] == (i >= n - |s| && s[i - (n - |s|)])
  {
    Zeros(n - |s|) + s
  }

  lemma AbsorbStep(poly: Bits, r: Bits, s: Bits, b: bool)
    requires |poly| == |r| >= |s| >= 1
    ensures Step(poly, Xor(PadRight(s, |r|), r), b)
         == Xor(PadRight(s[1..], |r|), Step(poly, r, s[0] != b))
  {
  }

  /** XORing s into the top of the register is the same as XORing s into the front of the message. */
  lemma {:induction false} Absorb(poly: Bits, r: Bits, s: Bits, m: Bits)
    requires |poly| == |r| >= 1
    requires |s| <= |r| && |s| <= |m|
    ensures Run(poly, Xor(PadRight(s, |r|), r), m) == Run(poly, r, Xor(PadRight(s, |m|), m))
    decreases s
  {
    var n := |r|;
    if s == [] {
      assert PadRight(s, n) == Zeros(n);
      assert PadRight(s, |m|) == Zeros(|m|);
      XorZero(r);
      XorZero(m);
    } else {
      var m1 := Xor(PadRight(s, |m|), m);
      AbsorbStep(poly, r, s, m[0]);
      assert m1[1..] == Xor(PadRight(s[1..], |m| - 1), m[1..]);
      Absorb(poly, Step(poly, r, m1[0]), s[1..], m[1..]);
    }
  }

  // ----- the byte-at-a-time step

  /** The table entry for byte c: what c leaves in an empty register. */
  function Entry(poly: Bits, c: Bits): (e: Bits)
    requires |poly| >= 1
    ensures |e| == |poly|
  {
    Run(poly, Zeros(|poly|), c)
  }

  /** The top k bits of r, filled up with zeros on the right if r is narrower than k. */
  function TopBits(r: Bits, k: nat): (t: Bits)
    ensures |t| == k
  {
    if k <= |r| then r[..k] else r + Zeros(k - |r|)
  }

  /** k bit-serial steps equal one shift by k and one table lookup. */
  lemma TableStep(poly: Bits, r: Bits, m: Bits)
    requires |poly| == |r| >= 1
    ensures Run(poly, r, m) == Xor(Shl(r, |m|), Entry(poly, Xor(m, TopBits(r, |m|))))
  {
    var n, k := |r|, |m|;
    var j := if k <= n then k else n;
    var lo := PadLeft(r[j..], n);
    SplitWord(r, j);
    Absorb(poly, lo, r[..j], m);
    assert Xor(PadRight(r[..j], k), m) == Xor(m, TopBits(r, k));
    SplitStart(poly, lo, Xor(m, TopBits(r, k)));
    ShiftOut(poly, r, k);
  }

  lemma SplitWord(r: Bits, j: nat)
    requires j <= |r|
    ensures r == Xor(PadRight(r[..j], |r|), PadLeft(r[j..], |r|))
  {
  }

  /** A run is the XOR of what its start value and its input contribute. */
  lemma SplitStart(poly: Bits, r: Bits, m: Bits)
    requires |poly| == |r| >= 1
    ensures Run(poly, r, m) == Xor(Run(poly, r, Zeros(|m|)), Entry(poly, m))
  {
    XorZero(r);
    XorZero(m);
    RunLinear(poly, r, Zeros(|r|), Zeros(|m|), m);
  }

  lemma ShiftOut(poly: Bits, r: Bits, k: nat)
    requires |poly| == |r| >= 1
    ensures var j := if k <= |r| then k else |r|;
            Run(poly, PadLeft(r[j..], |r|), Zeros(k)) == Shl(r, k)
  {
    if k <= |r| {
      RunShift(poly, r[k..], k);
    } else {
      assert PadLeft(r[|r|..], |r|) == Zeros(|r|);
      RunZero(poly, k);
    }
  }

  // ----- the checksum is a polynomial remainder

  /**
   The product of q and x^n + poly over GF(2), for |q| = k a word of k + n bits:
   schoolbook multiplication, one shifted copy of the divisor for each set bit of q.
   */
  function Product(q: Bits, poly: Bits): (p: Bits)
    ensures |p| == |q| + |poly|
    decreases q
  {
    if q == [] then Zeros(|poly|)
    else
      var k := |q| - 1;
      var p := Product(q[..k], poly) + [false];
      if q[k] then Xor(p, Zeros(k) + [true] + poly) else p
  }

  /** msg * x^n + r * x^|msg|, as a word of |msg| + n bits. */
  function Dividend(msg: Bits, r: Bits): (d: Bits)
    ensures |d| == |msg| + |r|
  {
    Xor(msg + Zeros(|r|), r + Zeros(|msg|))
  }

  /** The quotient bits are the bits that decide, step by step, whether to divide. */
  function Quotient(poly: Bits, r: Bits, msg: Bits): (q: Bits)
    requires |poly| == |r| >= 1
    ensures |q| == |msg|
    decreases msg
  {
    if msg == [] then []
    else
      var k := |msg| - 1;
      Quotient(poly, r, msg[..k]) + [Run(poly, r, msg[..k])[0] != msg[k]]
  }

  /** Dividend = Quotient * (x^n + poly) + Run: the register holds the remainder of the division. */
  lemma {:induction false} RunIsRemainder(poly: Bits, r: Bits, msg: Bits)
    requires |poly| == |r| >= 1
    ensures Dividend(msg, r)
         == Xor(Product(Quotient(poly, r, msg), poly), Zeros(|msg|) + Run(poly, r, msg))
    decreases msg
  {
    if msg == [] {
      assert Dividend(msg, r) == r;
      assert Zeros(0) + r == r;
      XorZero(r);
    } else {
      var k := |msg| - 1;
      var m, b := msg[..k], msg[k];
      assert msg == m + [b];
      RunIsRemainder(poly, r, m);
      RemainderStep(poly, r, m, b, msg);
    }
  }

  // One more message bit b: msg is m with b behind it.

  lemma {:induction false} RemainderStep(poly: Bits, r: Bits, m: Bits, b: bool, msg: Bits)
    requires |poly| == |r| >= 1 && msg == m + [b]
    requires Dividend(m, r) == Xor(Product(Quotient(poly, r, m), poly), Zeros(|m|) + Run(poly, r, m))
    ensures Dividend(msg, r) == Xor(Product(Quotient(poly, r, msg), poly), Zeros(|msg|) + Run(poly, r, msg))
  {
    QuotientProductStep(poly, r, m, b, msg);
    RunStep(poly, r, m, b, msg);
    DividendStep(m, b, r, msg);
    DivisionStep(Dividend(m, r), Product(Quotient(poly, r, m), poly), poly, Run(poly, r, m), b, |m|);
  }

  lemma {:induction false} RunStep(poly: Bits, r: Bits, m: Bits, b: bool, msg: Bits)
    requires |poly| == |r| >= 1 && msg == m + [b]
    ensures Run(poly, r, msg) == Step(poly, Run(poly, r, m), b)
  {
    RunConcat(poly, r, m, [b]);
  }

  lemma {:induction false} QuotientProductStep(poly: Bits, r: Bits, m: Bits, b: bool, msg: Bits)
    requires |poly| == |r| >= 1 && msg == m + [b]
    ensures var p := Product(Quotient(poly, r, m), poly) + [false];
            Product(Quotient(poly, r, msg), poly)
            == if Run(poly, r, m)[0] != b then Xor(p, Zeros(|m|) + [true] + poly) else p
  {
    assert msg[..|m|] == m;
    ProductStep(Quotient(poly, r, m), Run(poly, r, m)[0] != b, poly);
  }

  lemma {:induction false} ProductStep(q: Bits, t: bool, poly: Bits)
    ensures Product(q + [t], poly)
         == if t then Xor(Product(q, poly) + [false], Zeros(|q|) + [true] + poly)
            else Product(q, poly) + [false]
  {
    assert (q + [t])[..|q|] == q;
  }

  lemma DividendStep(m: Bits, b: bool, r: Bits, msg: Bits)
    requires msg == m + [b]
    ensures Dividend(msg, r) == Xor(Dividend(m, r) + [false], Zeros(|m|) + [b] + Zeros(|r|))
  {
  }

  lemma DivisionStep(d: Bits, p: Bits, poly: Bits, rem: Bits, b: bool, k: nat)
    requires |poly| == |rem| >= 1
    requires |d| == |p| == k + |poly|
    requires d == Xor(p, Zeros(k) + rem)
    ensures Xor(d + [false], Zeros(k) + [b] + Zeros(|poly|))
         == Xor(if rem[0] != b then Xor(p + [false], Zeros(k) + [true] + poly) else p + [false],
                Zeros(k + 1) + Step(poly, rem, b))
  {
    var n := |poly|;
    var lhs := Xor(d + [false], Zeros(k) + [b] + Zeros(n));
    var q := if rem[0] != b then Xor(p + [false], Zeros(k) + [true] + poly) else p + [false];
    var rhs := Xor(q, Zeros(k + 1) + Step(poly, rem, b));
    forall i | 0 <= i < k + n + 1
      ensures lhs[i] == rhs[i]
    {
      DivisionBit(d, p, poly, rem, b, k, i);
    }
  }

  /** The same equation, coefficient by coefficient. */
  lemma DivisionBit(d: Bits, p: Bits, poly: Bits, rem: Bits, b: bool, k: nat, i: nat)
    requires |poly| == |rem| >= 1
    requires |d| == |p| == k + |poly|
    requires d == Xor(p, Zeros(k) + rem)
    requires i < k + |poly| + 1
    ensures ((d + [false])[i] != (Zeros(k) + [b] + Zeros(|poly|))[i])
         == (((p + [false])[i] != ((rem[0] != b) && (Zeros(k) + [true] + poly)[i]))
             != (Zeros(k + 1) + Step(poly, rem, b))[i])
  {
    if i < k + |poly| {
      assert d[i] == (p[i] != (Zeros(k) + rem)[i]);
    }
    if i > k {
      var j := i - k - 1;
      assert Step(poly, rem, b)[j] == ((j + 1 < |rem| && rem[j + 1]) != ((rem[0] != b) && poly[j]));
    }
  }

  /** A product of the monic divisor whose top |q| bits vanish has quotient zero. */
  lemma {:induction false} ProductTop(q: Bits, poly: Bits)
    requires IsZero(Product(q, poly)[..|q|])
    ensures IsZero(q) && IsZero(Product(q, poly))
    decreases q
  {
    if q != [] {
      var k := |q| - 1;
      var p := Product(q[..k], poly);
      forall i | 0 <= i < k
        ensures !p[..k][i]
      {
        assert Product(q, poly)[..|q|][i] == p[i];
      }
      ProductTop(q[..k], poly);
      assert !Product(q, poly)[..|q|][k];
      assert Product(q, poly)[k] == q[k];
    }
  }

  lemma {:induction false} ProductLinear(q1: Bits, q2: Bits, poly: Bits)
    requires |q1| == |q2|
    ensures Product(Xor(q1, q2), poly) == Xor(Product(q1, poly), Product(q2, poly))
    decreases q1
  {
    if q1 != [] {
      var k := |q1| - 1;
      ProductLinear(q1[..k], q2[..k], poly);
      assert Xor(q1, q2)[..k] == Xor(q1[..k], q2[..k]);
    }
  }

  /** The remainder is unique: no other quotient leaves a different n-bit remainder. */
  lemma RemainderUnique(poly: Bits, r: Bits, msg: Bits, q: Bits, rem: Bits)
    requires |poly| == |r| == |rem| >= 1
    requires |q| == |msg|
    requires Dividend(msg, r) == Xor(Product(q, poly), Zeros(|msg|) + rem)
    ensures rem == Run(poly, r, msg)
    ensures q == Quotient(poly, r, msg)
  {
    var k := |msg|;
    var q2, rem2 := Quotient(poly, r, msg), Run(poly, r, msg);
    RunIsRemainder(poly, r, msg);
    ProductLinear(q, q2, poly);
    XorMove(Product(q, poly), Zeros(k) + rem, Product(q2, poly), Zeros(k) + rem2);
    SmallProduct(Xor(q, q2), poly, rem, rem2);
    XorCancel(q, q2);
  }

  /** A product that fits below x^n can only be zero. */
  lemma SmallProduct(d: Bits, poly: Bits, a: Bits, b: Bits)
    requires |a| == |b| == |poly|
    requires Product(d, poly) == Xor(Zeros(|d|) + a, Zeros(|d|) + b)
    ensures IsZero(d) && a == b
  {
    var k := |d|;
    XorConcat(Zeros(k), a, Zeros(k), b);
    XorSelf(Zeros(k));
    assert Product(d, poly) == Zeros(k) + Xor(a, b);
    ProductTop(d, poly);
    forall i | 0 <= i < |a|
      ensures !Xor(a, b)[i]
    {
      assert Xor(a, b)[i] == Product(d, poly)[k + i];
    }
    XorCancel(a, b);
  }

  lemma XorMove(p1: Bits, a: Bits, p2: Bits, b: Bits)
    requires |p1| == |a| == |p2| == |b|
    requires Xor(p1, a) == Xor(p2, b)
    ensures Xor(p1, p2) == Xor(a, b)
  {
    forall i | 0 <= i < |p1|
      ensures Xor(p1, p2)[i] == Xor(a, b)[i]
    {
      assert Xor(p1, a)[i] == Xor(p2, b)[i];
    }
  }

  // ----- burst errors

  /** With x^0 in the divisor, a non-empty register cannot be emptied by zero input. */
  lemma {:induction false} RunKeepsNonZero(poly: Bits, r: Bits, k: nat)
    requires |poly| == |r| >= 1
    requires poly[|poly| - 1]
    requires !IsZero(r)
    ensures !IsZero(Run(poly, r, Zeros(k)))
    decreases k
  {
    if k > 0 {
      var r' := Step(poly, r, false);
      if r[0] {
        assert r'[|r| - 1];
      } else {
        var i :| 0 <= i < |r| && r[i];
        assert r'[i - 1];
      }
      assert Zeros(k)[1..] == Zeros(k - 1);
      RunKeepsNonZero(poly, r', k - 1);
    }
  }

  /** The two messages differ, and only at positions i .. i + n. */
  ghost predicate BurstError(m1: Bits, m2: Bits, i: nat, n: nat) {
    && |m1| == |m2|
    && i + n <= |m1|
    && m1 != m2
    && m1[..i] == m2[..i]
    && m1[i + n..] == m2[i + n..]
  }

  lemma BurstDetected(poly: Bits, r: Bits, m1: Bits, m2: Bits, i: nat, k: nat)
    requires |poly| == |r| >= 1
    requires poly[|poly| - 1]
    requires k <= |poly|
    requires BurstError(m1, m2, i, k)
    ensures Run(poly, r, m1) != Run(poly, r, m2)
  {
    var w := Xor(m1[i..i + k], m2[i..i + k]);
    BurstShape(m1, m2, i, k);
    RunLinear(poly, r, r, m1, m2);
    XorSelf(r);
    BurstSyndrome(poly, w, i, |m1| - i - k);
    XorCancel(Run(poly, r, m1), Run(poly, r, m2));
  }

  lemma BurstShape(m1: Bits, m2: Bits, i: nat, k: nat)
    requires BurstError(m1, m2, i, k)
    ensures var w := Xor(m1[i..i + k], m2[i..i + k]);
            !IsZero(w) && Xor(m1, m2) == Zeros(i) + PadRight(w, |m1| - i)
  {
    var w := Xor(m1[i..i + k], m2[i..i + k]);
    BurstBits(m1, m2, i, k);
    XorCancel(m1, m2);
    PaddedZero(w, i, |m1| - i);
  }

  lemma PaddedZero(w: Bits, i: nat, len: nat)
    requires |w| <= len
    ensures IsZero(w) ==> IsZero(Zeros(i) + PadRight(w, len))
  {
  }

  lemma BurstBits(m1: Bits, m2: Bits, i: nat, k: nat)
    requires BurstError(m1, m2, i, k)
    ensures Xor(m1, m2) == Zeros(i) + PadRight(Xor(m1[i..i + k], m2[i..i + k]), |m1| - i)
  {
    var j := i + k;
    var w := Xor(m1[i..j], m2[i..j]);
    var e := Zeros(i) + PadRight(w, |m1| - i);
    forall x | 0 <= x < |m1|
      ensures Xor(m1, m2)[x] == e[x]
    {
      assert x < i ==> m1[..i][x] == m2[..i][x];
      assert x >= j ==> m1[j..][x - j] == m2[j..][x - j];
      assert i <= x < j ==> w[x - i] == (m1[x] != m2[x]);
    }
  }

  /** Burst w after i zeros and before `tail` zeros, fed into an empty register. */
  lemma BurstSyndrome(poly: Bits, w: Bits, i: nat, tail: nat)
    requires 1 <= |poly| && |w| <= |poly|
    requires poly[|poly| - 1]
    requires !IsZero(w)
    ensures !IsZero(Run(poly, Zeros(|poly|), Zeros(i) + PadRight(w, |w| + tail)))
  {
    var n, len := |poly|, |w| + tail;
    RunConcat(poly, Zeros(n), Zeros(i), PadRight(w, len));
    RunZero(poly, i);
    Absorb(poly, Zeros(n), w, Zeros(len));
    XorZero(PadRight(w, n));
    XorZero(PadRight(w, len));
    var x :| 0 <= x < |w| && w[x];
    assert PadRight(w, n)[x];
    RunKeepsNonZero(poly, PadRight(w, n), len);
  }

  /** Without x^0 in the divisor an n-bit burst of the divisor's own shape goes unseen. */
  lemma BurstMissed(poly: Bits, r: Bits, m1: Bits, i: nat) returns (m2: Bits)
    requires |poly| == |r| >= 1
    requires !poly[|poly| - 1]
    requires i + |poly| <= |m1|
    ensures BurstError(m1, m2, i, |poly|)
    ensures Run(poly, r, m1) == Run(poly, r, m2)
  {
    var n := |poly|;
    var w := [true] + poly[..n - 1];
    var tail := |m1| - i - n;
    var d := Zeros(i) + (w + Zeros(tail));
    m2 := Xor(m1, d);
    assert m2[i] != m1[i];
    assert m2[..i] == m1[..i];
    assert m2[i + n..] == m1[i + n..];
    assert d == Xor(m1, m2);
    RunLinear(poly, r, r, m1, m2);
    XorSelf(r);
    InvisibleBurst(poly, i, tail);
    XorCancel(Run(poly, r, m1), Run(poly, r, m2));
  }

  /** The divisor without its vanishing last coefficient, as a burst, leaves an empty register empty. */
  lemma InvisibleBurst(poly: Bits, i: nat, tail: nat)
    requires |poly| >= 1 && !poly[|poly| - 1]
    ensures Run(poly, Zeros(|poly|), Zeros(i) + (([true] + poly[..|poly| - 1]) + Zeros(tail))) == Zeros(|poly|)
  {
    var n := |poly|;
    var w := [true] + poly[..n - 1];
    BurstVanishes(poly);
    RunConcat(poly, Zeros(n), Zeros(i), w + Zeros(tail));
    RunZero(poly, i);
    RunConcat(poly, Zeros(n), w, Zeros(tail));
    RunZero(poly, tail);
  }

  lemma BurstVanishes(poly: Bits)
    requires |poly| >= 1 && !poly[|poly| - 1]
    ensures Entry(poly, [true] + poly[..|poly| - 1]) == Zeros(|poly|)
  {
    var n := |poly|;
    var s := poly[..n - 1];
    assert ([true] + s)[1..] == s;
    assert PadRight(s, n - 1) == s;
    assert poly == Xor(PadRight(s, n), Zeros(n));
    assert Step(poly, Zeros(n), true) == poly;
    Absorb(poly, Zeros(n), s, s);
    XorSelf(s);
    RunZero(poly, n - 1);
  }

  /**
   Every burst no longer than the register is detected, in every stream of at least n bits,
   if and only if the polynomial's low bit is set.
   */
  lemma BurstDetection(poly: Bits, r: Bits, len: nat)
    requires |poly| == |r| >= 1
    requires len >= |poly|
    ensures poly[|poly| - 1] <==>
      forall m1: Bits, m2: Bits, i: nat, k: nat ::
        |m1| == len && k <= |poly| && BurstError(m1, m2, i, k)
        ==> Run(poly, r, m1) != Run(poly, r, m2)
  {
    if poly[|poly| - 1] {
      forall m1: Bits, m2: Bits, i: nat, k: nat |
        |m1| == len && k <= |poly| && BurstError(m1, m2, i, k)
        ensures Run(poly, r, m1) != Run(poly, r, m2)
      {
        BurstDetected(poly, r, m1, m2, i, k);
      }
    } else {
      var m1 := Zeros(len);
      var m2 := BurstMissed(poly, r, m1, 0);
      assert BurstError(m1, m2, 0, |poly|);
    }
  }

  // ----- augmented messages

  /** The augmented step shifts the message bit in at the bottom. */
  function AugStep(poly: Bits, r: Bits, bit: bool): (r': Bits)
    requires |poly| == |r| >= 1
    ensures |r'| == |r|
    ensures forall i :: 0 <= i < |r| ==>
      r'[i] == ((if i + 1 < |r| then r[i + 1] else bit) != (r[0] && poly[i]))
  {
    var shifted := r[1..] + [bit];
    if r[0] then Xor(shifted, poly) else shifted
  }

  function AugRun(poly: Bits, r: Bits, msg: Bits): (r': Bits)
    requires |poly| == |r| >= 1
    ensures |r'| == |r|
    decreases msg
  {
    if msg == [] then r else AugRun(poly, AugStep(poly, r, msg[0]), msg[1..])
  }

  lemma {:induction false} AugConcat(poly: Bits, r: Bits, m1: Bits, m2: Bits)
    requires |poly| == |r| >= 1
    ensures AugRun(poly, r, m1 + m2) == AugRun(poly, AugRun(poly, r, m1), m2)
    decreases m1
  {
    if m1 == [] {
      assert m1 + m2 == m2;
    } else {
      assert (m1 + m2)[1..] == m1[1..] + m2;
      AugConcat(poly, AugStep(poly, r, m1[0]), m1[1..], m2);
    }
  }

  lemma {:induction false} AugLinear(poly: Bits, r: Bits, s: Bits, m: Bits, k: Bits)
    requires |poly| == |r| == |s| >= 1
    requires |m| == |k|
    ensures AugRun(poly, Xor(r, s), Xor(m, k)) == Xor(AugRun(poly, r, m), AugRun(poly, s, k))
    decreases m
  {
    if m != [] {
      assert AugStep(poly, Xor(r, s), m[0] != k[0])
          == Xor(AugStep(poly, r, m[0]), AugStep(poly, s, k[0]));
      assert Xor(m, k)[1..] == Xor(m[1..], k[1..]);
      AugLinear(poly, AugStep(poly, r, m[0]), AugStep(poly, s, k[0]), m[1..], k[1..]);
    }
  }

  /** On zero input the augmented and the plain register are the same machine. */
  lemma {:induction false} AugZeros(poly: Bits, r: Bits, k: nat)
    requires |poly| == |r| >= 1
    ensures AugRun(poly, r, Zeros(k)) == Run(poly, r, Zeros(k))
    decreases k
  {
    if k > 0 {
      assert AugStep(poly, r, false) == Step(poly, r, false);
      assert Zeros(k)[1..] == Zeros(k - 1);
      AugZeros(poly, Step(poly, r, false), k - 1);
    }
  }

  /** Up to n bits shift into an augmented register whose leading bits are zero. */
  lemma {:induction false} AugShiftIn(poly: Bits, lo: Bits, m: Bits)
    requires |poly| == |lo| + |m| >= 1
    ensures AugRun(poly, Zeros(|m|) + lo, m) == lo + m
    decreases m
  {
    if m == [] {
      assert Zeros(0) + lo == lo == lo + m;
    } else {
      var lo' := lo + [m[0]];
      assert AugStep(poly, Zeros(|m|) + lo, m[0]) == Zeros(|m| - 1) + lo';
      assert lo' + m[1..] == lo + m;
      AugShiftIn(poly, lo', m[1..]);
    }
  }

  /** |m| augmented bit steps equal one shift and one table lookup on the bits shifted out. */
  lemma AugTableStep(poly: Bits, r: Bits, m: Bits)
    requires |poly| == |r| >= 1
    requires |m| <= |r|
    ensures AugRun(poly, r, m) == Xor(r[|m|..] + m, Entry(poly, r[..|m|]))
  {
    var n, k := |r|, |m|;
    var hi, lo := r[..k], r[k..];
    SplitWord(r, k);
    XorCommutes(PadRight(hi, n), PadLeft(lo, n));
    XorZero(m);
    AugLinear(poly, PadLeft(lo, n), PadRight(hi, n), m, Zeros(k));
    AugShiftIn(poly, lo, m);
    AugShiftOut(poly, hi);
  }

  lemma XorCommutes(a: Bits, b: Bits)
    requires |a| == |b|
    ensures Xor(a, b) == Xor(b, a)
  {
  }

  /** Bits leaving at the top divide as they would entering as message bits. */
  lemma AugShiftOut(poly: Bits, hi: Bits)
    requires |poly| >= 1 && |hi| <= |poly|
    ensures AugRun(poly, PadRight(hi, |poly|), Zeros(|hi|)) == Entry(poly, hi)
  {
    var n, k := |poly|, |hi|;
    assert PadRight(hi, k) == hi;
    XorZero(PadRight(hi, n));
    XorZero(hi);
    AugZeros(poly, PadRight(hi, n), k);
    Absorb(poly, Zeros(n), hi, Zeros(k));
  }

  /** Pushing n zeros through the augmented register afterwards gives the plain remainder. */
  lemma {:induction false} AugPending(poly: Bits, r: Bits, m: Bits)
    requires |poly| == |r| >= 1
    ensures Run(poly, Run(poly, r, Zeros(|poly|)), m)
         == Run(poly, AugRun(poly, r, m), Zeros(|poly|))
    decreases m
  {
    var n := |poly|;
    if m != [] {
      var k := |m| - 1;
      var m0, b := m[..k], m[k];
      assert m == m0 + [b];
      AugPending(poly, r, m0);
      var a := AugRun(poly, r, m0);
      RunConcat(poly, Run(poly, r, Zeros(n)), m0, [b]);
      AugConcat(poly, r, m0, [b]);
      AugPendingStep(poly, a, b);
    }
  }

  lemma AugPendingStep(poly: Bits, a: Bits, b: bool)
    requires |poly| == |a| >= 1
    ensures Step(poly, Run(poly, a, Zeros(|poly|)), b)
         == Run(poly, AugStep(poly, a, b), Zeros(|poly|))
  {
    var n := |poly|;
    var x := Run(poly, a, Zeros(n));
    var low := Zeros(n - 1) + [b];
    // the new bit enters at the bottom, on top of a plain step on zero
    assert AugStep(poly, a, b) == Xor(Step(poly, a, false), low);
    XorSelf(Zeros(n));
    RunLinear(poly, Step(poly, a, false), low, Zeros(n), Zeros(n));
    ZeroStepsCommute(poly, a, n);
    // and travels to the top in n - 1 steps
    LowBitToTop(poly, b, low);
    StepLinear(poly, x, Zeros(n), false, b);
    XorZero(x);
  }

  lemma ZeroStepsCommute(poly: Bits, a: Bits, n: nat)
    requires |poly| == |a| >= 1
    ensures Run(poly, Step(poly, a, false), Zeros(n)) == Step(poly, Run(poly, a, Zeros(n)), false)
  {
    assert ([false] + Zeros(n))[1..] == Zeros(n);
    assert [false] + Zeros(n) == Zeros(n) + [false];
    RunConcat(poly, a, Zeros(n), [false]);
  }

  /** n zero steps bring the lowest bit of the register to the message position. */
  lemma LowBitToTop(poly: Bits, b: bool, low: Bits)
    requires |poly| >= 1 && low == Zeros(|poly| - 1) + [b]
    ensures Run(poly, low, Zeros(|poly|)) == Step(poly, Zeros(|poly|), b)
  {
    var n := |poly|;
    assert Zeros(n) == Zeros(n - 1) + [false];
    RunStep(poly, low, Zeros(n - 1), false, Zeros(n));
    RunShift(poly, [b], n - 1);
    StepOnTop(poly, b, [b] + Zeros(n - 1));
  }

  /** A set top bit and a set message bit do the same. */
  lemma StepOnTop(poly: Bits, b: bool, top: Bits)
    requires |poly| == |top| >= 1 && top[0] == b && forall i :: 1 <= i < |top| ==> !top[i]
    ensures Step(poly, top, false) == Step(poly, Zeros(|poly|), b)
  {
  }

  /** Augmented division of msg followed by n zero bits is the plain division of msg. */
  lemma AugmentedEqualsPlain(poly: Bits, r: Bits, msg: Bits)
    requires |poly| == |r| >= 1
    ensures AugRun(poly, r, msg + Zeros(|poly|)) == Run(poly, Run(poly, r, Zeros(|poly|)), msg)
  {
    AugConcat(poly, r, msg, Zeros(|poly|));
    AugZeros(poly, AugRun(poly, r, msg), |poly|);
    AugPending(poly, r, msg);
  }

  /** A message followed by y leaves the XOR of y and its own plain remainder. */
  lemma AugmentedResidue(poly: Bits, r: Bits, msg: Bits, y: Bits)
    requires |poly| == |r| == |y| >= 1
    ensures AugRun(poly, r, msg + y)
         == Xor(Run(poly, Run(poly, r, Zeros(|poly|)), msg), y)
  {
    var n := |poly|;
    AugConcat(poly, r, msg, y);
    AugConcat(poly, r, msg, Zeros(n));
    AugmentedEqualsPlain(poly, r, msg);
    var a := AugRun(poly, r, msg);
    XorZero(a);
    XorZero(y);
    AugLinear(poly, a, Zeros(n), Zeros(n), y);
    AugShiftIn(poly, [], y);
    assert Zeros(n) + [] == Zeros(n);
    assert [] + y == y;
  }
}
