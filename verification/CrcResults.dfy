/** Whole-message results about the CRC computers. */
module CrcResults {
  import opened BitStrings
  import opened CrcTheory
  import opened Crc

  // ----- the table-driven computer refines the bit-serial one

  /** crc<...>(buffer, count): construct, feed, read out. */
  method CrcOneShot(n: nat, poly: Bits, init: Bits, finalXor: Bits, reflectIn: bool, reflectRem: bool,
                    bytes: seq<Byte>) returns (c: Bits)
    requires 1 <= n <= |poly| && CHAR_BIT <= |poly| == |init| == |finalXor|
    ensures c == Widen(ChecksumOf(Low(poly, n), Low(init, n), Low(finalXor, n), reflectIn, reflectRem, bytes),
                       |poly|)
  {
    var tab := new CrcTable(n, poly, reflectIn);
    var computer := new CrcOptimal(tab, init, finalXor, reflectRem);
    computer.ProcessBytes(bytes);
    c := computer.Checksum();
  }

  /**
   crc_basic<n> and crc_optimal<n, ...> on the same parameters and message. The two may use
   containers of different widths, and the parameters may differ above their low n bits.
   */
  method ChecksumsAgree(n: nat, polyB: Bits, initB: Bits, finalB: Bits, polyO: Bits, initO: Bits, finalO: Bits,
                        reflectIn: bool, reflectRem: bool, bytes: seq<Byte>)
    returns (basic: Bits, optimal: Bits)
    requires 1 <= n <= |polyB| == |initB| == |finalB|
    requires n <= |polyO| == |initO| == |finalO| && CHAR_BIT <= |polyO|
    requires Low(polyB, n) == Low(polyO, n) && Low(initB, n) == Low(initO, n) && Low(finalB, n) == Low(finalO, n)
    ensures |basic| == |polyB| && |optimal| == |polyO|
    ensures Low(basic, n) == Low(optimal, n)
         == ChecksumOf(Low(polyB, n), Low(initB, n), Low(finalB, n), reflectIn, reflectRem, bytes)
    ensures IsZero(basic[..|basic| - n]) && IsZero(optimal[..|optimal| - n])
  {
    var b := new CrcBasic(n, polyB, initB, finalB, reflectIn, reflectRem);
    b.ProcessBytes(bytes);
    basic := b.Checksum();
    optimal := CrcOneShot(n, polyO, initO, finalO, reflectIn, reflectRem, bytes);
    ghost var c := ChecksumOf(Low(polyB, n), Low(initB, n), Low(finalB, n), reflectIn, reflectRem, bytes);
    LowWiden(c, |polyB|);
    LowWiden(c, |polyO|);
  }

  /** Stop after `first`, save the interim remainder, resume through reset in a computer that did other work. */
  method SplitAndResume(n: nat, poly: Bits, init: Bits, finalXor: Bits, reflectIn: bool, reflectRem: bool,
                        first: seq<Byte>, second: seq<Byte>, unrelated: seq<Byte>)
    returns (basic: Bits, optimal: Bits)
    requires 1 <= n <= |poly| && CHAR_BIT <= |poly| == |init| == |finalXor|
    ensures basic == optimal
         == Widen(ChecksumOf(Low(poly, n), Low(init, n), Low(finalXor, n), reflectIn, reflectRem, first + second),
                  |poly|)
  {
    ghost var w, p, i := |poly|, Low(poly, n), Low(init, n);
    ghost var m1, m2 := MessageBits(reflectIn, first), MessageBits(reflectIn, second);
    MessageBitsConcat(reflectIn, first, second);
    RunConcat(p, i, m1, m2);
    LowWiden(Run(p, i, m1), w);

    var b1 := new CrcBasic(n, poly, init, finalXor, reflectIn, reflectRem);
    b1.ProcessBytes(first);
    var saved := b1.GetInterimRemainder();
    var b2 := new CrcBasic(n, poly, init, finalXor, reflectIn, reflectRem);
    b2.ProcessBytes(unrelated);
    b2.ResetTo(saved);
    b2.ProcessBytes(second);
    basic := b2.Checksum();

    var tab := new CrcTable(n, poly, reflectIn);
    var o1 := new CrcOptimal(tab, init, finalXor, reflectRem);
    o1.ProcessBytes(first);
    saved := o1.GetInterimRemainder();
    var o2 := new CrcOptimal(tab, init, finalXor, reflectRem);
    o2.ProcessBytes(unrelated);
    o2.Reset(saved);
    o2.ProcessBytes(second);
    optimal := o2.Checksum();
  }

  /** The message as it is divided: byte after byte, each from its high bit, or from its low bit if reflected. */
  function Processed(reflectIn: bool, bytes: seq<Byte>): (m: Bits)
    ensures |m| == 8 * |bytes|
  {
    seq(8 * |bytes|, k requires 0 <= k < 8 * |bytes| => bytes[k / 8][if reflectIn then 7 - k % 8 else k % 8])
  }

  ghost predicate BitOfByte(reflectIn: bool, bytes: seq<Byte>, m: Bits, j: nat, i: nat)
    requires |m| == 8 * |bytes| && j < |bytes| && i < 8
  {
    m[8 * j + i] == bytes[j][if reflectIn then 7 - i else i]
  }

  lemma {:induction false} ProcessedIsMessage(reflectIn: bool, bytes: seq<Byte>)
    ensures Processed(reflectIn, bytes) == MessageBits(reflectIn, bytes)
  {
    var m := MessageBits(reflectIn, bytes);
    forall j, i | 0 <= j < |bytes| && 0 <= i < 8
      ensures BitOfByte(reflectIn, bytes, m, j, i)
    {
      MessageBitAt(reflectIn, bytes, j, i);
    }
    BitsOfBytes(reflectIn, bytes, m);
  }

  lemma BitsOfBytes(reflectIn: bool, bytes: seq<Byte>, m: Bits)
    requires |m| == 8 * |bytes|
    requires forall j, i :: 0 <= j < |bytes| && 0 <= i < 8 ==> BitOfByte(reflectIn, bytes, m, j, i)
    ensures Processed(reflectIn, bytes) == m
  {
    forall k | 0 <= k < |m|
      ensures Processed(reflectIn, bytes)[k] == m[k]
    {
      var j, i := k / 8, k % 8;
      assert BitOfByte(reflectIn, bytes, m, j, i);
      assert k == 8 * j + i;
    }
  }

  /**
   However the message polynomial, shifted by n and combined with the initial remainder, is
   divided by x^n + poly: the checksum is the remainder, read from its low end if reflected,
   and XORed with the final value.
   */
  lemma {:induction false} ChecksumIsRemainder(poly: Bits, init: Bits, finalXor: Bits, reflectIn: bool, reflectRem: bool,
                            bytes: seq<Byte>, quotient: Bits, remainder: Bits)
    requires |poly| == |init| == |finalXor| == |remainder| >= 1
    requires |quotient| == CHAR_BIT * |bytes|
    requires Dividend(Processed(reflectIn, bytes), init)
          == Xor(Product(quotient, poly), Zeros(|quotient|) + remainder)
    ensures var n, c := |poly|, ChecksumOf(poly, init, finalXor, reflectIn, reflectRem, bytes);
            forall i :: 0 <= i < n ==> c[i] == (remainder[if reflectRem then n - 1 - i else i] != finalXor[i])
  {
    ProcessedIsMessage(reflectIn, bytes);
    RemainderUnique(poly, init, MessageBits(reflectIn, bytes), quotient, remainder);
    MirroredXor(reflectRem, remainder, finalXor);
  }

  lemma MirroredXor(reflect: bool, r: Bits, x: Bits)
    requires |r| == |x|
    ensures forall i :: 0 <= i < |r| ==>
      Xor(Oriented(reflect, r), x)[i] == (r[if reflect then |r| - 1 - i else i] != x[i])
  {
  }

  /** In particular, of an empty message the initial remainder is read out. */
  lemma EmptyMessage(poly: Bits, init: Bits, finalXor: Bits, reflectIn: bool, reflectRem: bool)
    requires |poly| == |init| == |finalXor| >= 1
    ensures ChecksumOf(poly, init, finalXor, reflectIn, reflectRem, [])
         == Xor(if reflectRem then Reverse(init) else init, finalXor)
  {
  }

  // ----- error detection

  lemma OrientedInjective(reflect: bool, a: Bits, b: Bits)
    requires |a| == |b| && a != b
    ensures Oriented(reflect, a) != Oriented(reflect, b)
  {
    ReverseInvolution(a);
    ReverseInvolution(b);
  }

  lemma XorInjective(a: Bits, b: Bits, x: Bits)
    requires |a| == |b| == |x| && a != b
    ensures Xor(a, x) != Xor(b, x)
  {
    var i :| 0 <= i < |a| && a[i] != b[i];
    assert Xor(a, x)[i] != Xor(b, x)[i];
  }

  /** Two byte messages that differ by one burst of at most n processed bits never share a checksum. */
  lemma BurstChangesChecksum(poly: Bits, init: Bits, finalXor: Bits, reflectIn: bool, reflectRem: bool,
                             a: seq<Byte>, b: seq<Byte>, i: nat, k: nat)
    requires |poly| == |init| == |finalXor| >= 1
    requires poly[|poly| - 1]
    requires k <= |poly|
    requires BurstError(MessageBits(reflectIn, a), MessageBits(reflectIn, b), i, k)
    ensures ChecksumOf(poly, init, finalXor, reflectIn, reflectRem, a)
         != ChecksumOf(poly, init, finalXor, reflectIn, reflectRem, b)
  {
    var ma, mb := MessageBits(reflectIn, a), MessageBits(reflectIn, b);
    BurstDetected(poly, init, ma, mb, i, k);
    var ra, rb := Run(poly, init, ma), Run(poly, init, mb);
    OrientedInjective(reflectRem, ra, rb);
    XorInjective(Oriented(reflectRem, ra), Oriented(reflectRem, rb), finalXor);
  }

  // ----- augmented_crc

  method AugmentedCrc(tab: CrcTable, bytes: seq<Byte>, initialRemainder: Bits) returns (c: Bits)
    requires tab.Ready() && !tab.reflect
    requires CHAR_BIT <= tab.bits && |initialRemainder| == tab.width
    ensures c == Widen(AugRun(Low(tab.poly, tab.bits), Low(initialRemainder, tab.bits), MessageBits(false, bytes)),
                       tab.width)
  {
    var n := tab.bits;
    ghost var p, start := Low(tab.poly, n), Low(initialRemainder, n);
    var rem := initialRemainder;
    for i := 0 to |bytes|
      invariant |rem| == tab.width
      invariant Low(rem, n) == AugRun(p, start, MessageBits(false, bytes[..i]))
    {
      AugNextByte(p, start, bytes, i);
      rem := AugmentedByte(tab, rem, bytes[i]);
    }
    assert bytes[..|bytes|] == bytes;
    MaskIsWiden(rem, n);
    c := And(rem, SigBits(n, tab.width));
  }

  lemma {:induction false} AugNextByte(p: Bits, start: Bits, bytes: seq<Byte>, i: nat)
    requires |p| == |start| >= 1 && i < |bytes|
    ensures AugRun(p, start, MessageBits(false, bytes[..i + 1]))
         == AugRun(p, AugRun(p, start, MessageBits(false, bytes[..i])), bytes[i])
  {
    assert bytes[..i + 1] == bytes[..i] + [bytes[i]];
    MessageBitsAppend(bytes[..i], bytes[i]);
    AugConcat(p, start, MessageBits(false, bytes[..i]), bytes[i]);
  }

  /** The loop body of augmented_crc. */
  method AugmentedByte(tab: CrcTable, rem: Bits, x: Byte) returns (r: Bits)
    requires tab.Ready() && !tab.reflect
    requires CHAR_BIT <= tab.bits && |rem| == tab.width
    ensures |r| == tab.width
    ensures Low(r, tab.bits) == AugRun(Low(tab.poly, tab.bits), Low(rem, tab.bits), x)
  {
    var n, w := tab.bits, tab.width;
    var byteIndex: Byte := Low(Shr(rem, n - CHAR_BIT), CHAR_BIT);
    assert byteIndex == Low(rem, n)[..CHAR_BIT];
    r := Shl(rem, CHAR_BIT);
    r := Or(r, Widen(x, w));
    ShiftInByte(rem, x, n);
    var entry := tab.Lookup(byteIndex);
    LowXor(r, entry, n);
    r := Xor(r, entry);
    AugTableStep(Low(tab.poly, n), Low(rem, n), x);
  }

  lemma ShiftInByte(rem: Bits, x: Byte, n: nat)
    requires CHAR_BIT <= n <= |rem|
    ensures Low(Or(Shl(rem, CHAR_BIT), Widen(x, |rem|)), n) == Low(rem, n)[CHAR_BIT..] + x
  {
    var w := |rem|;
    var a, b := Low(Or(Shl(rem, CHAR_BIT), Widen(x, w)), n), Low(rem, n)[CHAR_BIT..] + x;
    forall i | 0 <= i < n
      ensures a[i] == b[i]
    {
    }
  }

  const ZERO_BYTE: Byte := Zeros(8)

  /** The bytes of a register whose width is a multiple of eight, most significant byte first. */
  function BigEndian(r: Bits): (bytes: seq<Byte>)
    requires |r| % CHAR_BIT == 0
    ensures CHAR_BIT * |bytes| == |r|
  {
    if r == [] then [] else BigEndian(r[..|r| - CHAR_BIT]) + [r[|r| - CHAR_BIT..]]
  }

  lemma MessageBitsAppend(bytes: seq<Byte>, b: Byte)
    ensures MessageBits(false, bytes + [b]) == MessageBits(false, bytes) + b
  {
    assert (bytes + [b])[..|bytes|] == bytes;
  }

  lemma {:induction false} BigEndianBits(r: Bits)
    requires |r| % CHAR_BIT == 0
    ensures MessageBits(false, BigEndian(r)) == r
    decreases |r|
  {
    if r != [] {
      var k := |r| - CHAR_BIT;
      assert r == r[..k] + r[k..];
      MessageBitsAppend(BigEndian(r[..k]), r[k..]);
      BigEndianBits(r[..k]);
    }
  }

  lemma {:induction false} ZeroBytes(k: nat)
    ensures MessageBits(false, seq(k, _ => ZERO_BYTE)) == Zeros(CHAR_BIT * k)
  {
    var z := seq(k, _ => ZERO_BYTE);
    if k > 0 {
      ZeroBytes(k - 1);
      assert z[..k - 1] == seq(k - 1, _ => ZERO_BYTE);
    }
  }

  /**
   For a register of whole bytes, augmented_crc from zero on the message followed by n/8 zero
   bytes is the plain checksum; followed by that checksum it is zero; and no other n/8 bytes
   after the message give zero.
   */
  method AugmentedCheck(n: nat, poly: Bits, msg: seq<Byte>, trailer: Bits) returns (padded: Bits, checked: Bits)
    requires 1 <= n <= |poly| && n % CHAR_BIT == 0
    requires |trailer| == n
    ensures |padded| == |checked| == |poly|
    ensures padded == Widen(ChecksumOf(Low(poly, n), Zeros(n), Zeros(n), false, false, msg), |poly|)
    ensures IsZero(checked) <==> trailer == Low(padded, n)
  {
    var tab := new CrcTable(n, poly, false);
    tab.InitTable();
    var w := |poly|;
    ghost var p := Low(poly, n);
    ghost var rem := Entry(p, MessageBits(false, msg));
    assert Low(Zeros(w), n) == Zeros(n);

    padded := AugmentedCrc(tab, msg + seq(n / CHAR_BIT, _ => ZERO_BYTE), Zeros(w));
    AugmentedZeroBytes(p, msg);
    XorZero(rem);
    LowWiden(rem, w);

    checked := AugmentedCrc(tab, msg + BigEndian(trailer), Zeros(w));
    AugmentedTrailer(p, msg, trailer);
    XorCancel(rem, trailer);
    WidenZero(Xor(rem, trailer), w);
  }

  lemma AugmentedZeroBytes(p: Bits, msg: seq<Byte>)
    requires |p| >= 1 && |p| % CHAR_BIT == 0
    ensures AugRun(p, Zeros(|p|), MessageBits(false, msg + seq(|p| / CHAR_BIT, _ => ZERO_BYTE)))
         == Entry(p, MessageBits(false, msg))
  {
    var k := |p| / CHAR_BIT;
    var zeros := seq(k, _ => ZERO_BYTE);
    assert MessageBits(false, zeros) == Zeros(|p|) by { ZeroBytes(k); }
    MessageBitsConcat(false, msg, zeros);
    AugmentedEqualsPlain(p, Zeros(|p|), MessageBits(false, msg));
    RunZero(p, |p|);
  }

  lemma AugmentedTrailer(p: Bits, msg: seq<Byte>, trailer: Bits)
    requires |p| == |trailer| >= 1 && |p| % CHAR_BIT == 0
    ensures AugRun(p, Zeros(|p|), MessageBits(false, msg + BigEndian(trailer)))
         == Xor(Entry(p, MessageBits(false, msg)), trailer)
  {
    MessageBitsConcat(false, msg, BigEndian(trailer));
    BigEndianBits(trailer);
    AugmentedResidue(p, Zeros(|p|), MessageBits(false, msg), trailer);
    RunZero(p, |p|);
  }

  lemma WidenZero(low: Bits, w: nat)
    requires |low| <= w
    ensures IsZero(Widen(low, w)) <==> IsZero(low)
  {
    if IsZero(Widen(low, w)) {
      forall i | 0 <= i < |low|
        ensures !low[i]
      {
        assert low[i] == Widen(low, w)[w - |low| + i];
      }
    }
  }
}
