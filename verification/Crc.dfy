/**
 boost/crc.hpp: the bit-serial crc_basic, the table-driven crc_optimal, and augmented_crc.

 Registers live in container words wider than the n significant bits. Neither computer
 clears the bits above n between steps, so their contracts speak of the low n bits.
 */
module Crc {
  import opened BitStrings
  import opened CrcTheory

  const CHAR_BIT := 8
  const BYTE_COMBOS := 256

  // ----- what a checksum is

  /** The bits of a message in the order they are processed. */
  function MessageBits(reflectIn: bool, bytes: seq<Byte>): (m: Bits)
    ensures |m| == CHAR_BIT * |bytes|
  {
    if bytes == [] then []
    else MessageBits(reflectIn, bytes[..|bytes| - 1]) + Oriented(reflectIn, bytes[|bytes| - 1])
  }

  function Oriented(reflect: bool, r: Bits): (o: Bits)
    ensures |o| == |r|
  {
    if reflect then Reverse(r) else r
  }

  function ChecksumOf(poly: Bits, init: Bits, finalXor: Bits,
                      reflectIn: bool, reflectRem: bool, bytes: seq<Byte>): (c: Bits)
    requires |poly| == |init| == |finalXor| >= 1
    ensures |c| == |poly|
  {
    Xor(Oriented(reflectRem, Run(poly, init, MessageBits(reflectIn, bytes))), finalXor)
  }

  /**
   c holds the register, from its low end if reflected, XORed with the final value; the bits
   above the register are clear.
   */
  ghost predicate ReadsOut(c: Bits, register: Bits, finalXor: Bits, reflectRem: bool) {
    var n, w := |register|, |c|;
    && n <= w == |finalXor|
    && forall j :: 0 <= j < w ==>
      c[j] == (j >= w - n && register[if reflectRem then w - 1 - j else j - (w - n)] != finalXor[j])
  }

  lemma ReadOutBits(reflectRem: bool, register: Bits, finalXor: Bits)
    requires |register| <= |finalXor|
    ensures ReadsOut(Widen(Xor(Oriented(reflectRem, register), Low(finalXor, |register|)), |finalXor|),
                     register, finalXor, reflectRem)
  {
    var n, w := |register|, |finalXor|;
    var r, f := Oriented(reflectRem, register), Low(finalXor, n);
    forall j | 0 <= j < w
      ensures Widen(Xor(r, f), w)[j]
           == (j >= w - n && register[if reflectRem then w - 1 - j else j - (w - n)] != finalXor[j])
    {
      if j >= w - n {
        var i := j - (w - n);
        assert r[i] == register[if reflectRem then n - 1 - i else i] && f[i] == finalXor[j];
        assert Widen(Xor(r, f), w)[j] == Xor(r, f)[i];
      }
    }
  }

  lemma {:induction false} MessageBitsConcat(reflectIn: bool, a: seq<Byte>, b: seq<Byte>)
    ensures MessageBits(reflectIn, a + b) == MessageBits(reflectIn, a) + MessageBits(reflectIn, b)
    decreases b
  {
    if b == [] {
      assert a + b == a;
    } else {
      var k := |b| - 1;
      assert (a + b)[..|a| + k] == a + b[..k];
      MessageBitsConcat(reflectIn, a, b[..k]);
      var w := Oriented(reflectIn, b[k]);
      assert MessageBits(reflectIn, a + b) == MessageBits(reflectIn, a + b[..k]) + w;
    }
  }

  /** Bit 8j + i of the processed message is bit i of byte j, counted from the end that comes first. */
  lemma {:induction false} MessageBitAt(reflectIn: bool, bytes: seq<Byte>, j: nat, i: nat)
    requires j < |bytes| && i < 8
    ensures MessageBits(reflectIn, bytes)[8 * j + i] == bytes[j][if reflectIn then 7 - i else i]
    decreases |bytes|
  {
    var k := |bytes| - 1;
    if j < k {
      MessageBitAt(reflectIn, bytes[..k], j, i);
    }
    LastByteBit(MessageBits(reflectIn, bytes[..k]), reflectIn, bytes[k], k, j, i);
  }

  lemma LastByteBit(front: Bits, reflect: bool, last: Byte, k: nat, j: nat, i: nat)
    requires |front| == 8 * k && j <= k && i < 8
    ensures (front + Oriented(reflect, last))[8 * j + i]
         == if j < k then front[8 * j + i] else last[if reflect then 7 - i else i]
  {
  }

  // ----- words and their low bits

  /** `x & (1 << k)` as a bool. */
  predicate TestBit(x: Bits, k: nat)
    requires k < |x|
  {
    x[|x| - 1 - k]
  }

  lemma LowXor(a: Bits, b: Bits, n: nat)
    requires n <= |a| == |b|
    ensures Low(Xor(a, b), n) == Xor(Low(a, n), Low(b, n))
  {
  }

  lemma LowShl(a: Bits, k: nat, n: nat)
    requires n <= |a|
    ensures Low(Shl(a, k), n) == Shl(Low(a, n), k)
  {
  }

  lemma ShlStep(a: Bits, k: nat)
    requires k < |a|
    ensures Shl(a, k)[0] == a[k]
    ensures Shl(Shl(a, k), 1) == Shl(a, k + 1)
  {
  }

  lemma LowWiden(low: Bits, w: nat)
    requires |low| <= w
    ensures Low(Widen(low, w), |low|) == low
  {
  }

  /** sig_bits masks away exactly the bits above n. */
  lemma MaskIsWiden(a: Bits, n: nat)
    requires n <= |a|
    ensures And(a, SigBits(n, |a|)) == Widen(Low(a, n), |a|)
  {
  }

  function SigBits(n: nat, w: nat): (mask: Bits)
    requires n <= w
    ensures |mask| == w
  {
    Zeros(w - n) + seq(n, _ => true)
  }

  /** One division step on a container word steps its low n bits and nothing else matters. */
  lemma WordStep(rem: Bits, poly: Bits, n: nat, bit: bool)
    requires 1 <= n <= |rem| == |poly|
    ensures var x := if bit then Xor(rem, OneBit(n - 1, |rem|)) else rem;
            var y := if TestBit(x, n - 1) then Xor(Shl(x, 1), poly) else Shl(x, 1);
            Low(y, n) == Step(Low(poly, n), Low(rem, n), bit)
  {
    var w := |rem|;
    var x := if bit then Xor(rem, OneBit(n - 1, w)) else rem;
    LowOfFlip(rem, n, bit);
    LowShl(x, 1, n);
    LowXor(Shl(x, 1), poly, n);
    StepAfterFlip(Low(poly, n), Low(rem, n), bit);
  }

  lemma LowOfFlip(rem: Bits, n: nat, bit: bool)
    requires 1 <= n <= |rem|
    ensures var x := if bit then Xor(rem, OneBit(n - 1, |rem|)) else rem;
            Low(x, n) == [Low(rem, n)[0] != bit] + Low(rem, n)[1..]
  {
  }

  /** Comparing with the bit and then dividing is dividing on the XORed top. */
  lemma StepAfterFlip(poly: Bits, r: Bits, bit: bool)
    requires |poly| == |r| >= 1
    ensures var x := [r[0] != bit] + r[1..];
            Step(poly, r, bit) == if x[0] then Xor(Shl(x, 1), poly) else Shl(x, 1)
  {
    var x := [r[0] != bit] + r[1..];
    assert Shl(x, 1) == r[1..] + [false];
  }

  /** The body of process_bit. */
  method BitSerialStep(rem: Bits, poly: Bits, n: nat, bit: bool) returns (r: Bits)
    requires 1 <= n <= |rem| == |poly|
    ensures |r| == |rem|
    ensures Low(r, n) == Step(Low(poly, n), Low(rem, n), bit)
  {
    WordStep(rem, poly, n, bit);
    r := if bit then Xor(rem, OneBit(n - 1, |rem|)) else rem;
    var doPolyDiv := TestBit(r, n - 1);
    r := Shl(r, 1);
    if doPolyDiv {
      r := Xor(r, poly);
    }
  }

  // ----- reflector<Bits>::reflect

  /** The reflection after i bits: the lowest i bits of x, reversed, at the top of the low n bits. */
  ghost function ReflectedSoFar(x: Bits, n: nat, i: nat): (r: Bits)
    requires i <= n <= |x|
    ensures |r| == |x|
    ensures forall j :: 0 <= j < |x| ==>
      r[j] == (|x| - n <= j < |x| - n + i && x[|x| - 1 - (j - (|x| - n))])
  {
    seq(|x|, j requires 0 <= j < |x| => |x| - n <= j < |x| - n + i && x[|x| - 1 - (j - (|x| - n))])
  }

  lemma ReflectBit(x: Bits, n: nat, i: nat)
    requires i < n <= |x|
    ensures ReflectedSoFar(x, n, i + 1)
         == if x[|x| - 1 - i] then Or(ReflectedSoFar(x, n, i), OneBit(n - 1 - i, |x|)) else ReflectedSoFar(x, n, i)
  {
  }

  lemma ReflectShift(x: Bits, i: nat)
    requires i < |x|
    ensures Shr(x, i)[|x| - 1] == x[|x| - 1 - i]
    ensures Shr(Shr(x, i), 1) == Shr(x, i + 1)
  {
  }

  lemma ReflectDone(x: Bits, n: nat)
    requires n <= |x|
    ensures ReflectedSoFar(x, n, n) == Widen(Reverse(Low(x, n)), |x|)
  {
  }

  method Reflect(n: nat, x: Bits) returns (reflection: Bits)
    requires n <= |x|
    ensures reflection == Widen(Reverse(Low(x, n)), |x|)
  {
    reflection := Zeros(|x|);
    var y := x;
    assert reflection == ReflectedSoFar(x, n, 0) && y == Shr(x, 0);
    for i := 0 to n
      invariant y == Shr(x, i)
      invariant reflection == ReflectedSoFar(x, n, i)
    {
      ReflectBit(x, n, i);
      ReflectShift(x, i);
      if y[|x| - 1] {
        reflection := Or(reflection, OneBit(n - 1 - i, |x|));
      }
      y := Shr(y, 1);
    }
    ReflectDone(x, n);
  }

  // ----- crc_basic

  class CrcBasic {
    const bits: nat
    var rem: Bits
    var poly: Bits
    var init: Bits
    var finalXor: Bits
    var reflectIn: bool
    var reflectRem: bool

    ghost predicate Valid()
      reads this
    {
      && 1 <= bits <= |rem|
      && |rem| == |poly| == |init| == |finalXor|
    }

    /** The register proper. */
    ghost function Register(): (r: Bits)
      requires Valid()
      reads this
      ensures |r| == bits
    {
      Low(rem, bits)
    }

    ghost function Poly(): (p: Bits)
      requires Valid()
      reads this
      ensures |p| == bits
    {
      Low(poly, bits)
    }

    constructor (bits: nat, truncatedPolynomial: Bits, initialRemainder: Bits, finalXorValue: Bits,
                 reflectInput: bool, reflectRemainder: bool)
      requires 1 <= bits <= |truncatedPolynomial|
      requires |truncatedPolynomial| == |initialRemainder| == |finalXorValue|
      ensures Valid()
      ensures this.bits == bits && poly == truncatedPolynomial
      ensures rem == initialRemainder && init == initialRemainder && finalXor == finalXorValue
      ensures reflectIn == reflectInput && reflectRem == reflectRemainder
    {
      this.bits := bits;
      rem, poly, init := initialRemainder, truncatedPolynomial, initialRemainder;
      finalXor, reflectIn, reflectRem := finalXorValue, reflectInput, reflectRemainder;
    }

    method GetInterimRemainder() returns (r: Bits)
      requires Valid()
      ensures r == Widen(Register(), |rem|)
    {
      MaskIsWiden(rem, bits);
      r := And(rem, SigBits(bits, |rem|));
    }

    method ResetTo(newRem: Bits)
      requires Valid() && |newRem| == |rem|
      modifies `rem
      ensures Valid() && rem == newRem
    {
      rem := newRem;
    }

    method Reset()
      requires Valid()
      modifies `rem
      ensures Valid() && rem == init
    {
      ResetTo(init);
    }

    method ProcessBit(bit: bool)
      requires Valid()
      modifies `rem
      ensures Valid() && |rem| == old(|rem|)
      ensures Register() == Step(Poly(), old(Register()), bit)
    {
      rem := BitSerialStep(rem, poly, bits, bit);
    }

    /** The low bitCount bits of `data`, the higher ones first. */
    method ProcessBits(data: Byte, bitCount: nat)
      requires Valid() && bitCount <= CHAR_BIT
      modifies `rem
      ensures Valid() && |rem| == old(|rem|)
      ensures Register() == Run(Poly(), old(Register()), data[CHAR_BIT - bitCount..])
    {
      var msg := data[CHAR_BIT - bitCount..];
      var left := Shl(data, CHAR_BIT - bitCount);
      for i := 0 to bitCount
        invariant Valid() && |rem| == old(|rem|)
        invariant left == Shl(data, CHAR_BIT - bitCount + i)
        invariant Register() == Run(Poly(), old(Register()), msg[..i])
      {
        ShlStep(data, CHAR_BIT - bitCount + i);
        RunSnoc(Poly(), old(Register()), msg, i);
        ProcessBit(left[0]);
        left := Shl(left, 1);
      }
      assert msg[..bitCount] == msg;
    }

    method ProcessByte(byte: Byte)
      requires Valid()
      modifies `rem
      ensures Valid() && |rem| == old(|rem|)
      ensures Register() == Run(Poly(), old(Register()), Oriented(reflectIn, byte))
    {
      var data: Byte := byte;
      if reflectIn {
        data := Reflect(CHAR_BIT, byte);
      }
      assert data == Oriented(reflectIn, byte);
      assert data[0..] == data;
      ProcessBits(data, CHAR_BIT);
    }

    method ProcessBytes(bytes: seq<Byte>)
      requires Valid()
      modifies `rem
      ensures Valid() && |rem| == old(|rem|)
      ensures Register() == Run(Poly(), old(Register()), MessageBits(reflectIn, bytes))
    {
      for i := 0 to |bytes|
        invariant Valid() && |rem| == old(|rem|)
        invariant Register() == Run(Poly(), old(Register()), MessageBits(reflectIn, bytes[..i]))
      {
        assert bytes[..i + 1][..i] == bytes[..i];
        RunConcat(Poly(), old(Register()), MessageBits(reflectIn, bytes[..i]), Oriented(reflectIn, bytes[i]));
        ProcessByte(bytes[i]);
      }
      assert bytes[..|bytes|] == bytes;
    }

    method Checksum() returns (c: Bits)
      requires Valid()
      ensures c == Widen(Xor(Oriented(reflectRem, Register()), Low(finalXor, bits)), |rem|)
      ensures ReadsOut(c, Register(), finalXor, reflectRem)
    {
      ReadOutBits(reflectRem, Register(), finalXor);
      var r := rem;
      if reflectRem {
        r := Reflect(bits, rem);
        LowWiden(Reverse(Register()), |rem|);
      }
      LowXor(r, finalXor, bits);
      MaskIsWiden(Xor(r, finalXor), bits);
      c := And(Xor(r, finalXor), SigBits(bits, |rem|));
    }
  }

  // ----- crc_table_t

  /** What entry number ToNat(c) of the lookup table must hold. */
  ghost predicate GoodEntry(word: Bits, c: Byte, poly: Bits, reflect: bool) {
    && 1 <= |poly| <= |word|
    && if reflect then word == Widen(Reverse(Entry(poly, Reverse(c))), |word|)
       else Low(word, |poly|) == Entry(poly, c)
  }

  class CrcTable {
    const bits: nat
    const width: nat
    const poly: Bits
    const reflect: bool
    const table: array<Bits>
    var didInit: bool

    ghost predicate Valid()
      reads this, table
    {
      && 1 <= bits <= width == |poly|
      && table.Length == BYTE_COMBOS
      && (didInit ==> Ready())
    }

    ghost predicate Ready()
      reads this, table
    {
      && 1 <= bits <= width == |poly|
      && table.Length == BYTE_COMBOS
      && FilledBelow(BYTE_COMBOS)
    }

    /** The entries of all dividends below k are in place. */
    ghost predicate FilledBelow(k: nat)
      requires 1 <= bits <= |poly|
      reads this, table
    {
      EntriesBelow(table[..], k, Low(poly, bits), width, reflect)
    }

    constructor (bits: nat, poly: Bits, reflect: bool)
      requires 1 <= bits <= |poly|
      ensures Valid() && fresh(table) && !didInit
      ensures this.bits == bits && this.poly == poly && this.reflect == reflect
    {
      this.bits, this.width, this.poly, this.reflect := bits, |poly|, poly, reflect;
      table := new Bits[BYTE_COMBOS](_ => []);
      didInit := false;
    }

    /** The remainder of one dividend: the inner loop over the dividend's bits. */
    method Divide(dividend: Byte) returns (remainder: Bits)
      requires 1 <= bits <= width == |poly|
      ensures |remainder| == width
      ensures Low(remainder, bits) == Entry(Low(poly, bits), dividend)
    {
      remainder := Zeros(width);
      assert Low(remainder, bits) == Zeros(bits);
      for j := 0 to CHAR_BIT
        invariant |remainder| == width
        invariant Low(remainder, bits) == Run(Low(poly, bits), Zeros(bits), dividend[..j])
      {
        RunSnoc(Low(poly, bits), Zeros(bits), dividend, j);
        remainder := DivideBit(remainder, dividend[j]);
      }
      assert dividend[..CHAR_BIT] == dividend;
    }

    method DivideBit(remainder: Bits, bit: bool) returns (r: Bits)
      requires 1 <= bits <= width == |poly| == |remainder|
      ensures |r| == width
      ensures Low(r, bits) == Step(Low(poly, bits), Low(remainder, bits), bit)
    {
      WordStep(remainder, poly, bits, bit);
      r := remainder;
      if bit {
        r := Xor(r, OneBit(bits - 1, width));
      }
      if TestBit(r, bits - 1) {
        r := Shl(r, 1);
        r := Xor(r, poly);
      } else {
        r := Shl(r, 1);
      }
    }

    method Lookup(c: Byte) returns (entry: Bits)
      requires Ready()
      ensures |entry| == width && GoodEntry(entry, c, Low(poly, bits), reflect)
    {
      IndexInTable(Oriented(reflect, c));
      assert EntryInPlace(table[..], c, Low(poly, bits), width, reflect);
      entry := table[ToNat(c)];
    }

    method InitTable()
      requires Valid()
      modifies this, table
      ensures Valid() && Ready()
    {
      if didInit {
        return;
      }
      for v := 0 to BYTE_COMBOS
        invariant FilledBelow(v)
        invariant !didInit
      {
        FillEntry(v);
      }
      didInit := true;
    }

    /** The loop body: the entry of one dividend. */
    method FillEntry(v: nat)
      requires v < BYTE_COMBOS && 1 <= bits <= width == |poly| && FilledBelow(v)
      modifies table
      ensures FilledBelow(v + 1)
    {
      var index, remainder := EntryOf(v);
      IndexInTable(index);
      AddEntry(table[..], v, Low(poly, bits), width, reflect, index, remainder);
      table[ToNat(index)] := remainder;
      assert table[..] == old(table[..])[ToNat(index) := remainder];
    }

    method EntryOf(v: nat) returns (index: Byte, remainder: Bits)
      requires v < BYTE_COMBOS && 1 <= bits <= width == |poly|
      ensures ToNat(Oriented(reflect, index)) == v
      ensures |remainder| == width && GoodEntry(remainder, index, Low(poly, bits), reflect)
    {
      assert Pow2(8) == BYTE_COMBOS;
      var dividend: Byte := OfNat(v, CHAR_BIT);
      remainder := Divide(dividend);
      index := dividend;
      if reflect {
        ghost var plain := remainder;
        index := Reflect(CHAR_BIT, dividend);
        remainder := Reflect(bits, remainder);
        ReflectedEntry(Low(poly, bits), dividend, plain, index, remainder);
      }
    }
  }

  /** Index and word of a dividend's entry, reflected. */
  lemma ReflectedEntry(poly: Bits, dividend: Byte, plain: Bits, index: Byte, word: Bits)
    requires 1 <= |poly| <= |plain| && Low(plain, |poly|) == Entry(poly, dividend)
    requires index == Widen(Reverse(Low(dividend, CHAR_BIT)), CHAR_BIT)
    requires word == Widen(Reverse(Low(plain, |poly|)), |plain|)
    ensures Oriented(true, index) == dividend && GoodEntry(word, index, poly, true)
  {
    assert Low(dividend, CHAR_BIT) == dividend;
    assert index == Reverse(dividend);
    ReverseInvolution(dividend);
  }

  /** The entries of all dividends below k are in place. */
  ghost predicate EntriesBelow(table: seq<Bits>, k: nat, poly: Bits, width: nat, reflect: bool) {
    && |table| == BYTE_COMBOS
    && forall c: Byte :: ToNat(Oriented(reflect, c)) < k ==> EntryInPlace(table, c, poly, width, reflect)
  }

  ghost predicate EntryInPlace(table: seq<Bits>, c: Byte, poly: Bits, width: nat, reflect: bool)
    requires |table| == BYTE_COMBOS
  {
    InTable(c) && |table[ToNat(c)]| == width && GoodEntry(table[ToNat(c)], c, poly, reflect)
  }

  lemma AddEntry(table: seq<Bits>, v: nat, poly: Bits, width: nat, reflect: bool, index: Byte, word: Bits)
    requires EntriesBelow(table, v, poly, width, reflect)
    requires ToNat(Oriented(reflect, index)) == v && InTable(index)
    requires |word| == width && GoodEntry(word, index, poly, reflect)
    ensures EntriesBelow(table[ToNat(index) := word], v + 1, poly, width, reflect)
  {
    forall c: Byte | ToNat(Oriented(reflect, c)) < v + 1
      ensures EntryInPlace(table[ToNat(index) := word], c, poly, width, reflect)
    {
      if c != index {
        DividendsDiffer(reflect, c, index);
        EntryKept(table, c, poly, width, reflect, index, word);
      }
    }
  }

  lemma DividendsDiffer(reflect: bool, c: Byte, d: Byte)
    requires c != d
    ensures ToNat(Oriented(reflect, c)) != ToNat(Oriented(reflect, d))
  {
    if ToNat(Oriented(reflect, c)) == ToNat(Oriented(reflect, d)) {
      SameDividend(reflect, c, d);
    }
  }

  lemma EntryKept(table: seq<Bits>, c: Byte, poly: Bits, width: nat, reflect: bool, index: Byte, word: Bits)
    requires |table| == BYTE_COMBOS && EntryInPlace(table, c, poly, width, reflect)
    requires InTable(index) && c != index
    ensures EntryInPlace(table[ToNat(index) := word], c, poly, width, reflect)
  {
    IndexInjective(c, index);
  }

  ghost predicate InTable(c: Byte) {
    ToNat(c) < BYTE_COMBOS
  }

  lemma IndexInTable(c: Byte)
    ensures InTable(c)
  {
    assert Pow2(8) == BYTE_COMBOS;
  }

  lemma IndexInjective(c: Byte, d: Byte)
    ensures ToNat(c) == ToNat(d) <==> c == d
  {
    OfNatToNat(c);
    OfNatToNat(d);
  }

  lemma SameDividend(reflect: bool, c: Byte, d: Byte)
    requires ToNat(Oriented(reflect, c)) == ToNat(Oriented(reflect, d))
    ensures c == d
  {
    IndexInjective(Oriented(reflect, c), Oriented(reflect, d));
    ReverseInvolution(c);
    ReverseInvolution(d);
  }

  // ----- crc_helper

  /** remainder<Bits, RightShift>::align_msb: the register's top bits aligned to a byte. */
  function AlignMsb(rem: Bits, n: nat): (b: Byte)
    requires 1 <= n <= |rem| && CHAR_BIT <= |rem|
    ensures b == TopBits(Low(rem, n), CHAR_BIT)
  {
    if n > CHAR_BIT then
      assert Low(Shr(rem, n - CHAR_BIT), CHAR_BIT) == Low(rem, n)[..CHAR_BIT];
      Low(Shr(rem, n - CHAR_BIT), CHAR_BIT)
    else
      Low(Shl(rem, CHAR_BIT - n), CHAR_BIT)
  }

  function HelperIndex(reflect: bool, rem: Bits, n: nat, x: Byte): (i: Byte)
    requires 1 <= n <= |rem| && CHAR_BIT <= |rem|
  {
    Xor(x, if reflect then Low(rem, CHAR_BIT) else AlignMsb(rem, n))
  }

  function HelperShift(reflect: bool, rem: Bits): (s: Bits)
    ensures |s| == |rem|
  {
    if reflect then Shr(rem, CHAR_BIT) else Shl(rem, CHAR_BIT)
  }

  /**
   How the container word of crc_optimal holds register r: reflected and with clean high bits,
   or straight with anything above the low n bits.
   */
  ghost predicate Holds(rem: Bits, r: Bits, reflect: bool) {
    && 1 <= |r| <= |rem|
    && if reflect then rem == Widen(Reverse(r), |rem|) else Low(rem, |r|) == r
  }

  lemma StraightByteStep(rem: Bits, poly: Bits, x: Byte, entry: Bits)
    requires 1 <= |poly| <= |rem| == |entry| && CHAR_BIT <= |rem|
    requires GoodEntry(entry, HelperIndex(false, rem, |poly|, x), poly, false)
    ensures Low(Xor(Shl(rem, CHAR_BIT), entry), |poly|) == Run(poly, Low(rem, |poly|), x)
  {
    var n := |poly|;
    LowXor(Shl(rem, CHAR_BIT), entry, n);
    LowShl(rem, CHAR_BIT, n);
    TableStep(poly, Low(rem, n), x);
  }

  lemma ReflectedIndex(r: Bits, w: nat, x: Byte)
    requires 1 <= |r| <= w && CHAR_BIT <= w
    ensures Reverse(Xor(x, Low(Widen(Reverse(r), w), CHAR_BIT))) == Xor(Reverse(x), TopBits(r, CHAR_BIT))
  {
    var low := Low(Widen(Reverse(r), w), CHAR_BIT);
    assert Reverse(low) == TopBits(r, CHAR_BIT);
    ReverseXor(x, low);
  }

  lemma ReflectedShift(r: Bits, w: nat)
    requires 1 <= |r| <= w
    ensures Shr(Widen(Reverse(r), w), CHAR_BIT) == Widen(Reverse(Shl(r, CHAR_BIT)), w)
  {
    var a, b := Shr(Widen(Reverse(r), w), CHAR_BIT), Widen(Reverse(Shl(r, CHAR_BIT)), w);
    forall i | 0 <= i < w
      ensures a[i] == b[i]
    {
    }
  }

  lemma WidenXor(a: Bits, b: Bits, w: nat)
    requires |a| == |b| <= w
    ensures Xor(Widen(a, w), Widen(b, w)) == Widen(Xor(a, b), w)
  {
  }

  lemma ReflectedByteStep(rem: Bits, r: Bits, poly: Bits, x: Byte, entry: Bits)
    requires 1 <= |poly| == |r| <= |rem| == |entry| && CHAR_BIT <= |rem|
    requires rem == Widen(Reverse(r), |rem|)
    requires GoodEntry(entry, HelperIndex(true, rem, |poly|, x), poly, true)
    ensures Xor(Shr(rem, CHAR_BIT), entry) == Widen(Reverse(Run(poly, r, Reverse(x))), |rem|)
  {
    var w := |rem|;
    ReflectedIndex(r, w, x);
    var e := Entry(poly, Xor(Reverse(x), TopBits(r, CHAR_BIT)));
    assert entry == Widen(Reverse(e), w);
    ReflectedShift(r, w);
    WidenXor(Reverse(Shl(r, CHAR_BIT)), Reverse(e), w);
    ReverseXor(Shl(r, CHAR_BIT), e);
    TableStep(poly, r, Reverse(x));
  }

  /** One table step of crc_optimal is eight bit-serial steps, in either orientation. */
  lemma ByteStep(rem: Bits, r: Bits, poly: Bits, x: Byte, entry: Bits, reflect: bool)
    requires 1 <= |poly| == |r| <= |rem| == |entry| && CHAR_BIT <= |rem|
    requires Holds(rem, r, reflect)
    requires GoodEntry(entry, HelperIndex(reflect, rem, |poly|, x), poly, reflect)
    ensures Holds(Xor(HelperShift(reflect, rem), entry), Run(poly, r, Oriented(reflect, x)), reflect)
  {
    if reflect {
      ReflectedByteStep(rem, r, poly, x, entry);
    } else {
      StraightByteStep(rem, poly, x, entry);
    }
  }

  // ----- crc_optimal

  class CrcOptimal {
    const tab: CrcTable
    const finalXor: Bits
    const reflectRem: bool
    var rem: Bits
    ghost var register: Bits

    ghost predicate Valid()
      reads this, tab, tab.table
    {
      && tab.Ready()
      && CHAR_BIT <= tab.width == |rem| == |finalXor|
      && |register| == tab.bits
      && Holds(rem, register, tab.reflect)
    }

    ghost function Poly(): (p: Bits)
      requires tab.bits <= |tab.poly|
      reads this
    {
      Low(tab.poly, tab.bits)
    }

    constructor (tab: CrcTable, initRem: Bits, finalXor: Bits, reflectRem: bool)
      requires tab.Valid()
      requires CHAR_BIT <= tab.width == |initRem| == |finalXor|
      modifies tab, tab.table
      ensures Valid() && fresh(this)
      ensures this.tab == tab && this.finalXor == finalXor && this.reflectRem == reflectRem
      ensures register == Low(initRem, tab.bits)
    {
      this.tab, this.finalXor, this.reflectRem := tab, finalXor, reflectRem;
      register := Low(initRem, tab.bits);
      var r := initRem;
      if tab.reflect {
        r := Reflect(tab.bits, initRem);
      }
      rem := r;
      new;
      tab.InitTable();
    }

    method GetInterimRemainder() returns (r: Bits)
      requires Valid()
      ensures r == Widen(register, tab.width)
    {
      r := rem;
      if tab.reflect {
        r := Reflect(tab.bits, rem);
        LowWiden(Reverse(register), tab.width);
        ReverseInvolution(register);
        LowWiden(register, tab.width);
      }
      MaskIsWiden(r, tab.bits);
      r := And(r, SigBits(tab.bits, tab.width));
    }

    method Reset(newRem: Bits)
      requires Valid() && |newRem| == tab.width
      modifies this
      ensures Valid()
      ensures register == Low(newRem, tab.bits)
    {
      register := Low(newRem, tab.bits);
      if tab.reflect {
        rem := Reflect(tab.bits, newRem);
      } else {
        rem := newRem;
      }
    }

    method ProcessBytes(bytes: seq<Byte>)
      requires Valid()
      modifies this
      ensures Valid()
      ensures register == Run(Poly(), old(register), MessageBits(tab.reflect, bytes))
    {
      for i := 0 to |bytes|
        invariant Valid()
        invariant register == Run(Poly(), old(register), MessageBits(tab.reflect, bytes[..i]))
      {
        ghost var m := MessageBits(tab.reflect, bytes[..i]);
        assert bytes[..i + 1][..i] == bytes[..i];
        RunConcat(Poly(), old(register), m, Oriented(tab.reflect, bytes[i]));
        ProcessOne(bytes[i]);
      }
      assert bytes[..|bytes|] == bytes;
    }

    /** The loop body of process_block. */
    method ProcessOne(x: Byte)
      requires Valid()
      modifies this
      ensures Valid()
      ensures register == Run(Poly(), old(register), Oriented(tab.reflect, x))
    {
      var byteIndex := HelperIndex(tab.reflect, rem, tab.bits, x);
      var entry := tab.Lookup(byteIndex);
      ByteStep(rem, register, Poly(), x, entry, tab.reflect);
      rem := HelperShift(tab.reflect, rem);
      rem := Xor(rem, entry);
      register := Run(Poly(), register, Oriented(tab.reflect, x));
    }

    method Checksum() returns (c: Bits)
      requires Valid()
      ensures c == Widen(Xor(Oriented(reflectRem, register), Low(finalXor, tab.bits)), tab.width)
      ensures ReadsOut(c, register, finalXor, reflectRem)
    {
      ReadOutBits(reflectRem, register, finalXor);
      var r := rem;
      if reflectRem != tab.reflect {
        r := Reflect(tab.bits, rem);
        LowWiden(Oriented(reflectRem, register), tab.width);
      }
      if tab.reflect {
        LowWiden(Reverse(register), tab.width);
        ReverseInvolution(register);
      }
      assert Low(r, tab.bits) == Oriented(reflectRem, register);
      LowXor(r, finalXor, tab.bits);
      MaskIsWiden(Xor(r, finalXor), tab.bits);
      c := And(Xor(r, finalXor), SigBits(tab.bits, tab.width));
    }
  }
}
