/**
 fc/bloom_filter.hpp. The hash function is any deterministic function of key and salt; table
 size and hash count come from the parameters.
 */
module Bloom {
  import opened BitStrings

  const BITS_PER_CHAR := 8
  const TWO_32 := 0x1_0000_0000

  type Key = seq<Byte>

  // ----- generate_unique_salt

  const PREDEF_SALT_COUNT := 128

  /** The in-place mixing loop from position i on; it reads entries it has already replaced. */
  function MixSalts(salt: seq<nat>, i: nat, seed: nat): (r: seq<nat>)
    requires i <= |salt|
    ensures |r| == |salt|
    decreases |salt| - i
  {
    if i == |salt| then salt
    else MixSalts(salt[i := (salt[i] * salt[(i + 3) % |salt|] + seed) % TWO_32], i + 1, seed)
  }

  /** Each salt times its third successor, which is a new one if it has been replaced already. */
  ghost predicate Mixed(salt: seq<nat>, seed: nat, r: seq<nat>, j: nat)
    requires j < |salt| == |r|
  {
    var k := (j + 3) % |salt|;
    r[j] == (salt[j] * (if k < j then r[k] else salt[k]) + seed) % 0x1_0000_0000
  }

  lemma {:induction false} MixSaltsFrom(salt: seq<nat>, i: nat, seed: nat)
    requires i <= |salt|
    ensures var r := MixSalts(salt, i, seed);
            && r[..i] == salt[..i]
            && forall j :: i <= j < |salt| ==> Mixed(salt, seed, r, j)
    decreases |salt| - i
  {
    if i < |salt| {
      var next := salt[i := (salt[i] * salt[(i + 3) % |salt|] + seed) % TWO_32];
      var r := MixSalts(next, i + 1, seed);
      MixSaltsFrom(next, i + 1, seed);
      assert forall k :: 0 <= k <= i ==> r[k] == r[..i + 1][k] == next[k];
      forall j | i <= j < |salt|
        ensures Mixed(salt, seed, r, j)
      {
        if j > i {
          MixedLater(salt, i, next, seed, r, j);
        }
      }
    }
  }

  lemma MixedLater(salt: seq<nat>, i: nat, next: seq<nat>, seed: nat, r: seq<nat>, j: nat)
    requires i < j < |salt| == |next| == |r| && next == salt[i := next[i]] && Mixed(next, seed, r, j)
    ensures Mixed(salt, seed, r, j)
  {
    var k := (j + 3) % |salt|;
    assert k >= j ==> next[k] == salt[k];
  }

  // ----- bits of the table

  predicate BitSet(table: seq<Byte>, k: nat)
    requires k / BITS_PER_CHAR < |table|
  {
    table[k / BITS_PER_CHAR][BITS_PER_CHAR - 1 - k % BITS_PER_CHAR]
  }

  ghost function TableBits(table: seq<Byte>): (bits: set<nat>) {
    set k | 0 <= k < BITS_PER_CHAR * |table| && BitSet(table, k)
  }

  function BitMask(bit: nat): (mask: Byte)
    requires bit < BITS_PER_CHAR
  {
    OneBit(bit, BITS_PER_CHAR)
  }

  lemma SetOneBit(table: seq<Byte>, index: nat)
    requires index / BITS_PER_CHAR < |table|
    ensures var cell := index / BITS_PER_CHAR;
            var table' := table[cell := Or(table[cell], BitMask(index % BITS_PER_CHAR))];
            TableBits(table') == TableBits(table) + {index}
  {
    var cell, bit := index / BITS_PER_CHAR, index % BITS_PER_CHAR;
    var table' := table[cell := Or(table[cell], BitMask(bit))];
    forall k: nat | k < BITS_PER_CHAR * |table|
      ensures BitSet(table', k) <==> BitSet(table, k) || k == index
    {
    }
  }

  lemma MaskTest(x: Byte, bit: nat)
    requires bit < BITS_PER_CHAR
    ensures And(x, BitMask(bit)) == BitMask(bit) <==> x[BITS_PER_CHAR - 1 - bit]
  {
    if And(x, BitMask(bit)) == BitMask(bit) {
      assert And(x, BitMask(bit))[BITS_PER_CHAR - 1 - bit];
    }
    if x[BITS_PER_CHAR - 1 - bit] {
      assert And(x, BitMask(bit)) == BitMask(bit);
    }
  }

  /** Bit j of byte c, from the high end, is number 8c + 7 - j of the table. */
  lemma BitAt(table: seq<Byte>, c: nat, j: nat)
    requires c < |table| && j < 8
    ensures 8 * c + 7 - j in TableBits(table) <==> table[c][j]
  {
    var k := 8 * c + 7 - j;
    assert k / BITS_PER_CHAR == c && k % BITS_PER_CHAR == 7 - j;
  }

  /** A table is determined by its set bits. */
  lemma BitsDetermineTable(a: seq<Byte>, b: seq<Byte>)
    requires |a| == |b| && TableBits(a) == TableBits(b)
    ensures a == b
  {
    forall i | 0 <= i < |a|
      ensures a[i] == b[i]
    {
      forall j | 0 <= j < BITS_PER_CHAR
        ensures a[i][j] == b[i][j]
      {
        var k := BITS_PER_CHAR * i + (BITS_PER_CHAR - 1 - j);
        assert k / BITS_PER_CHAR == i && k % BITS_PER_CHAR == BITS_PER_CHAR - 1 - j;
        assert k in TableBits(a) <==> k in TableBits(b);
      }
    }
  }

  /** Bit number x of a table: number x % 8 from the low end of byte x / 8. */
  ghost predicate NumberedBit(table: seq<Byte>, x: nat) {
    x / 8 < |table| && table[x / 8][7 - x % 8]
  }

  lemma CoveredBits(hash: (Key, nat) -> nat, salt: seq<nat>, table: seq<Byte>, key: Key)
    requires table != []
    ensures Positions(hash, salt, 8 * |table|, key) <= TableBits(table)
       <==> forall i :: 0 <= i < |salt| ==> NumberedBit(table, hash(key, salt[i]) % (8 * |table|))
  {
    var p := Positions(hash, salt, 8 * |table|, key);
    forall i | 0 <= i < |salt|
      ensures hash(key, salt[i]) % (8 * |table|) in p
      ensures NumberedBit(table, hash(key, salt[i]) % (8 * |table|))
         <==> hash(key, salt[i]) % (8 * |table|) in TableBits(table)
    {
      NumberedBitIsSet(table, hash(key, salt[i]) % (8 * |table|));
    }
  }

  lemma NumberedBitIsSet(table: seq<Byte>, x: nat)
    requires x < 8 * |table|
    ensures NumberedBit(table, x) <==> x in TableBits(table)
  {
  }

  // ----- what a key touches

  /** The bits a key sets: one for each salt. */
  ghost function Positions(hash: (Key, nat) -> nat, salt: seq<nat>, tableSize: nat, key: Key): (p: set<nat>)
    requires tableSize > 0
  {
    set i | 0 <= i < |salt| :: hash(key, salt[i]) % tableSize
  }

  ghost function AllPositions(hash: (Key, nat) -> nat, salt: seq<nat>, tableSize: nat, keys: set<Key>): (p: set<nat>)
    requires tableSize > 0
  {
    set k, x | k in keys && x in Positions(hash, salt, tableSize, k) :: x
  }

  class BloomFilter {
    const hash: (Key, nat) -> nat
    var salt: seq<nat>
    var bitTable: seq<Byte>
    var saltCount: nat
    var tableSize: nat
    var rawTableSize: nat
    var insertedElementCount: nat
    var randomSeed: nat

    /** The keys inserted, merged or copied in since the last clear; `exact` if nothing else set or cleared bits. */
    ghost var keys: set<Key>
    ghost var exact: bool

    ghost predicate Valid()
      reads this
    {
      && tableSize > 0 && tableSize == BITS_PER_CHAR * rawTableSize
      && |bitTable| == rawTableSize
      && AllPositions(hash, salt, tableSize, keys) <= Bits()
      && (exact ==> AllPositions(hash, salt, tableSize, keys) == Bits())
    }

    ghost function Bits(): (b: set<nat>)
      reads this
    {
      TableBits(bitTable)
    }

    ghost function Touches(key: Key): (p: set<nat>)
      requires tableSize > 0
      reads this
    {
      Positions(hash, salt, tableSize, key)
    }

    /** Everything but the table, the counter and the ghost state. */
    ghost predicate SameShape(f: BloomFilter)
      reads this, f
    {
      && hash == f.hash && salt == f.salt && saltCount == f.saltCount
      && tableSize == f.tableSize && rawTableSize == f.rawTableSize && randomSeed == f.randomSeed
    }

    /** Built from at most 128 salts: filters of equal salt count and seed hash alike. */
    ghost predicate SaltsFrom(predef: seq<nat>)
      reads this
    {
      saltCount <= |predef| && salt == MixSalts(predef[..saltCount], 0, randomSeed % TWO_32)
    }

    constructor (hash: (Key, nat) -> nat, predefSalt: seq<nat>, numberOfHashes: nat, tableSize: nat, seed: nat)
      requires numberOfHashes <= |predefSalt| == PREDEF_SALT_COUNT
      requires tableSize > 0 && tableSize % BITS_PER_CHAR == 0
      ensures Valid() && SaltsFrom(predefSalt)
      ensures |salt| == numberOfHashes && forall j :: 0 <= j < numberOfHashes ==>
        Mixed(predefSalt[..numberOfHashes], randomSeed % 0x1_0000_0000, salt, j)
      ensures this.hash == hash && saltCount == numberOfHashes && this.tableSize == tableSize
      ensures randomSeed == (seed * 0xA5A5A5A5 + 1) % (TWO_32 * TWO_32)
      ensures keys == {} && exact && insertedElementCount == 0
    {
      this.hash := hash;
      insertedElementCount, saltCount, this.tableSize := 0, numberOfHashes, tableSize;
      rawTableSize := tableSize / BITS_PER_CHAR;
      randomSeed := (seed * 0xA5A5A5A5 + 1) % (TWO_32 * TWO_32);
      salt := predefSalt[..numberOfHashes];
      keys, exact := {}, true;
      bitTable := seq(tableSize / BITS_PER_CHAR, _ => Zeros(8));
      new;
      ghost var mixed := MixSalts(salt, 0, randomSeed % TWO_32);
      for i := 0 to |salt|
        invariant |salt| == numberOfHashes && MixSalts(salt, i, randomSeed % TWO_32) == mixed
        invariant this.tableSize == tableSize && rawTableSize == tableSize / BITS_PER_CHAR && randomSeed < TWO_32 * TWO_32
        invariant bitTable == seq(tableSize / BITS_PER_CHAR, _ => Zeros(8)) && keys == {} && exact
        invariant saltCount == numberOfHashes && insertedElementCount == 0
        invariant randomSeed == (seed * 0xA5A5A5A5 + 1) % (TWO_32 * TWO_32)
      {
        salt := salt[i := (salt[i] * salt[(i + 3) % |salt|] + randomSeed % TWO_32) % TWO_32];
      }
      assert Bits() == {};
      MixSaltsFrom(predefSalt[..numberOfHashes], 0, randomSeed % TWO_32);
    }

    method Clear()
      requires Valid()
      modifies `bitTable, `insertedElementCount, `keys, `exact
      ensures Valid() && Bits() == {} && keys == {} && exact && insertedElementCount == 0
    {
      bitTable := seq(rawTableSize, _ => Zeros(8));
      insertedElementCount := 0;
      keys, exact := {}, true;
      assert Bits() == {};
    }

    method Insert(key: Key)
      requires Valid()
      modifies `bitTable, `insertedElementCount, `keys
      ensures Valid()
      ensures Bits() == old(Bits()) + Touches(key)
      ensures forall c, j :: 0 <= c < |bitTable| && 0 <= j < 8 ==>
        (bitTable[c][j] <==> old(bitTable)[c][j] || exists i :: 0 <= i < |salt| && hash(key, salt[i]) % tableSize == 8 * c + 7 - j)
      ensures keys == old(keys) + {key}
      ensures insertedElementCount == (old(insertedElementCount) + 1) % TWO_32
    {
      SetKeyBits(key);
      insertedElementCount := (insertedElementCount + 1) % TWO_32;
      keys := keys + {key};
      AllPositionsInsert(hash, salt, tableSize, old(keys), key);
      forall c, j | 0 <= c < |bitTable| && 0 <= j < 8
        ensures bitTable[c][j] <==> old(bitTable)[c][j] || exists i :: 0 <= i < |salt| && hash(key, salt[i]) % tableSize == 8 * c + 7 - j
      {
        BitAt(bitTable, c, j);
        BitAt(old(bitTable), c, j);
      }
    }

    /** The loop over the salts. */
    method SetKeyBits(key: Key)
      requires tableSize > 0 && tableSize == BITS_PER_CHAR * |bitTable|
      modifies `bitTable
      ensures |bitTable| == old(|bitTable|)
      ensures Bits() == old(Bits()) + Touches(key)
    {
      assert Positions(hash, salt[..0], tableSize, key) == {};
      for i := 0 to |salt|
        invariant |bitTable| == old(|bitTable|)
        invariant Bits() == old(Bits()) + Positions(hash, salt[..i], tableSize, key)
      {
        var bitIndex := hash(key, salt[i]) % tableSize;
        var bit := bitIndex % BITS_PER_CHAR;
        PositionsSnoc(hash, salt, tableSize, key, i);
        SetOneBit(bitTable, bitIndex);
        var cell := bitIndex / BITS_PER_CHAR;
        bitTable := bitTable[cell := Or(bitTable[cell], BitMask(bit))];
      }
      assert salt[..|salt|] == salt;
    }

    /** No false negatives: a key inserted since the last clear is always found. */
    method Contains(key: Key) returns (found: bool)
      requires Valid()
      ensures found <==> Touches(key) <= Bits()
      ensures found <==> forall i :: 0 <= i < |salt| ==> NumberedBit(bitTable, hash(key, salt[i]) % tableSize)
      ensures key in keys ==> found
    {
      AllPositionsCovers(hash, salt, tableSize, keys, key);
      CoveredBits(hash, salt, bitTable, key);
      found := TestKeyBits(key);
    }

    /** The loop over the salts. */
    method TestKeyBits(key: Key) returns (found: bool)
      requires tableSize > 0 && tableSize == BITS_PER_CHAR * |bitTable|
      ensures found <==> forall i :: 0 <= i < |salt| ==> NumberedBit(bitTable, hash(key, salt[i]) % tableSize)
    {
      for i := 0 to |salt|
        invariant forall j :: 0 <= j < i ==> NumberedBit(bitTable, hash(key, salt[j]) % tableSize)
      {
        var bitIndex := hash(key, salt[i]) % tableSize;
        var bit := bitIndex % BITS_PER_CHAR;
        MaskTest(bitTable[bitIndex / BITS_PER_CHAR], bit);
        if And(bitTable[bitIndex / BITS_PER_CHAR], BitMask(bit)) != BitMask(bit) {
          assert !NumberedBit(bitTable, hash(key, salt[i]) % tableSize);
          return false;
        }
      }
      return true;
    }

    method CopyFrom(f: BloomFilter)
      requires f.Valid() && f.hash == hash
      modifies this
      ensures Valid() && SameShape(f)
      ensures bitTable == old(f.bitTable) && insertedElementCount == old(f.insertedElementCount)
      ensures keys == old(f.keys) && exact == old(f.exact)
    {
      saltCount, tableSize, rawTableSize := f.saltCount, f.tableSize, f.rawTableSize;
      insertedElementCount, randomSeed := f.insertedElementCount, f.randomSeed;
      bitTable, salt := f.bitTable, f.salt;
      keys, exact := f.keys, f.exact;
    }

    /** The test at the head of &= and |=. */
    predicate Compatible(f: BloomFilter)
      reads this, f
    {
      saltCount == f.saltCount && tableSize == f.tableSize && randomSeed == f.randomSeed
    }

    method UnionWith(f: BloomFilter, ghost predef: seq<nat>)
      requires Valid() && f.Valid() && f.hash == hash && SaltsFrom(predef) && f.SaltsFrom(predef)
      modifies `bitTable, `keys, `exact
      ensures Valid() && SaltsFrom(predef)
      ensures Compatible(f) <==> saltCount == f.saltCount && tableSize == f.tableSize && randomSeed == f.randomSeed
      ensures !Compatible(f) ==> bitTable == old(bitTable) && keys == old(keys) && exact == old(exact)
      ensures Compatible(f) ==>
        && Bits() == old(Bits()) + old(f.Bits())
        && (forall i :: 0 <= i < |bitTable| ==> bitTable[i] == Or(old(bitTable)[i], old(f.bitTable)[i]))
        && keys == old(keys) + old(f.keys) && exact == (old(exact) && old(f.exact))
    {
      if Compatible(f) {
        ghost var other := f.bitTable;
        for i := 0 to rawTableSize
          invariant |bitTable| == rawTableSize
          invariant forall j :: 0 <= j < i ==> bitTable[j] == Or(old(bitTable)[j], other[j])
          invariant forall j :: i <= j < rawTableSize ==> bitTable[j] == old(bitTable)[j]
          invariant f != this ==> f.bitTable == other
        {
          assert f == this ==> f.bitTable[i] == other[i];
          bitTable := bitTable[i := Or(bitTable[i], f.bitTable[i])];
        }
        CellwiseOr(old(bitTable), other, bitTable);
        AllPositionsUnion(hash, salt, tableSize, old(keys), old(f.keys));
        keys, exact := old(keys) + old(f.keys), old(exact) && old(f.exact);
      }
    }

    method IntersectWith(f: BloomFilter, ghost predef: seq<nat>)
      requires Valid() && f.Valid() && f.hash == hash && SaltsFrom(predef) && f.SaltsFrom(predef)
      modifies `bitTable, `keys, `exact
      ensures Valid() && SaltsFrom(predef)
      ensures Compatible(f) <==> saltCount == f.saltCount && tableSize == f.tableSize && randomSeed == f.randomSeed
      ensures !Compatible(f) ==> bitTable == old(bitTable) && keys == old(keys) && exact == old(exact)
      ensures Compatible(f) ==>
        && Bits() == old(Bits()) * old(f.Bits()) && keys == old(keys) * old(f.keys)
        && (forall i :: 0 <= i < |bitTable| ==> bitTable[i] == And(old(bitTable)[i], old(f.bitTable)[i]))
    {
      if Compatible(f) {
        ghost var other := f.bitTable;
        for i := 0 to rawTableSize
          invariant |bitTable| == rawTableSize
          invariant forall j :: 0 <= j < i ==> bitTable[j] == And(old(bitTable)[j], other[j])
          invariant forall j :: i <= j < rawTableSize ==> bitTable[j] == old(bitTable)[j]
          invariant f != this ==> f.bitTable == other
        {
          assert f == this ==> f.bitTable[i] == other[i];
          bitTable := bitTable[i := And(bitTable[i], f.bitTable[i])];
        }
        CellwiseAnd(old(bitTable), other, bitTable);
        keys, exact := old(keys) * old(f.keys), false;
      }
    }
  }

  lemma AllPositionsInsert(hash: (Key, nat) -> nat, salt: seq<nat>, tableSize: nat, keys: set<Key>, key: Key)
    requires tableSize > 0
    ensures AllPositions(hash, salt, tableSize, keys + {key})
         == AllPositions(hash, salt, tableSize, keys) + Positions(hash, salt, tableSize, key)
  {
  }

  lemma AllPositionsCovers(hash: (Key, nat) -> nat, salt: seq<nat>, tableSize: nat, keys: set<Key>, key: Key)
    requires tableSize > 0
    ensures key in keys ==> Positions(hash, salt, tableSize, key) <= AllPositions(hash, salt, tableSize, keys)
  {
  }

  lemma PositionsSnoc(hash: (Key, nat) -> nat, salt: seq<nat>, tableSize: nat, key: Key, i: nat)
    requires tableSize > 0 && i < |salt|
    ensures Positions(hash, salt[..i + 1], tableSize, key)
         == Positions(hash, salt[..i], tableSize, key) + {hash(key, salt[i]) % tableSize}
  {
    var a, b := salt[..i + 1], salt[..i];
    assert a[i] == salt[i];
    assert forall j :: 0 <= j < i ==> a[j] == b[j];
    forall x | x in Positions(hash, b, tableSize, key)
      ensures x in Positions(hash, a, tableSize, key)
    {
      var j :| 0 <= j < |b| && x == hash(key, b[j]) % tableSize;
      assert hash(key, a[j]) % tableSize == x;
    }
  }

  lemma AllPositionsUnion(hash: (Key, nat) -> nat, salt: seq<nat>, tableSize: nat, a: set<Key>, b: set<Key>)
    requires tableSize > 0
    ensures AllPositions(hash, salt, tableSize, a + b)
         == AllPositions(hash, salt, tableSize, a) + AllPositions(hash, salt, tableSize, b)
  {
  }

  lemma CellwiseOr(a: seq<Byte>, b: seq<Byte>, c: seq<Byte>)
    requires |a| == |b| == |c| && forall j :: 0 <= j < |a| ==> c[j] == Or(a[j], b[j])
    ensures TableBits(c) == TableBits(a) + TableBits(b)
  {
    forall k: nat | k < BITS_PER_CHAR * |a|
      ensures BitSet(c, k) <==> BitSet(a, k) || BitSet(b, k)
    {
    }
  }

  lemma CellwiseAnd(a: seq<Byte>, b: seq<Byte>, c: seq<Byte>)
    requires |a| == |b| == |c| && forall j :: 0 <= j < |a| ==> c[j] == And(a[j], b[j])
    ensures TableBits(c) == TableBits(a) * TableBits(b)
  {
    forall k: nat | k < BITS_PER_CHAR * |a|
      ensures BitSet(c, k) <==> BitSet(a, k) && BitSet(b, k)
    {
    }
  }

  // ----- whole filters

  /** The parameters two compatible filters share. */
  datatype Shape = Shape(hash: (Key, nat) -> nat, predefSalt: seq<nat>, numberOfHashes: nat, tableSize: nat, seed: nat) {
    predicate Valid() {
      numberOfHashes <= |predefSalt| == PREDEF_SALT_COUNT && tableSize > 0 && tableSize % BITS_PER_CHAR == 0
    }
  }

  ghost function KeySet(keys: seq<Key>): (s: set<Key>) {
    set k | k in keys
  }

  method Build(p: Shape, keys: seq<Key>) returns (f: BloomFilter)
    requires p.Valid()
    ensures fresh(f) && f.Valid() && f.SaltsFrom(p.predefSalt) && f.exact && f.keys == KeySet(keys)
    ensures f.hash == p.hash && f.saltCount == p.numberOfHashes && f.tableSize == p.tableSize
    ensures f.randomSeed == (p.seed * 0xA5A5A5A5 + 1) % (TWO_32 * TWO_32)
  {
    f := new BloomFilter(p.hash, p.predefSalt, p.numberOfHashes, p.tableSize, p.seed);
    for i := 0 to |keys|
      invariant fresh(f) && f.Valid() && f.SaltsFrom(p.predefSalt) && f.exact && f.keys == KeySet(keys[..i])
      invariant f.hash == p.hash && f.saltCount == p.numberOfHashes && f.tableSize == p.tableSize
      invariant f.randomSeed == (p.seed * 0xA5A5A5A5 + 1) % (TWO_32 * TWO_32)
    {
      assert keys[..i + 1] == keys[..i] + [keys[i]];
      f.Insert(keys[i]);
    }
    assert keys[..|keys|] == keys;
  }

  /**
   |= of two filters is the filter of both key sets, bit for bit, whatever the order and
   repetition of the insertions.
   */
  method MergeEqualsInsertAll(p: Shape, a: seq<Key>, b: seq<Key>, all: seq<Key>)
    returns (merged: seq<Byte>, direct: seq<Byte>)
    requires p.Valid()
    requires KeySet(a) + KeySet(b) == KeySet(all)
    ensures merged == direct && BITS_PER_CHAR * |merged| == p.tableSize
  {
    var f := Build(p, a);
    var g := Build(p, b);
    var h := Build(p, all);
    f.UnionWith(g, p.predefSalt);
    BitsDetermineTable(f.bitTable, h.bitTable);
    merged, direct := f.bitTable, h.bitTable;
  }

  /** &= contains a key exactly if both filters do. */
  method IntersectionContains(p: Shape, a: seq<Key>, b: seq<Key>, key: Key)
    returns (inA: bool, inB: bool, inBoth: bool)
    requires p.Valid()
    ensures inBoth <==> inA && inB
    ensures key in a ==> inA
    ensures key in b ==> inB
  {
    var f := Build(p, a);
    var g := Build(p, b);
    inA := f.Contains(key);
    inB := g.Contains(key);
    f.IntersectWith(g, p.predefSalt);
    inBoth := f.Contains(key);
  }

  // ----- runs

  datatype Op =
    | InsertKey(key: Key)
    | Merge(keys: seq<Key>)  // |= with a compatible filter built from these keys
    | Copy                   // go on in a copy of the filter
    | ClearAll

  /** The keys a run has put in since its last clear. */
  function LiveKeys(ops: seq<Op>): (s: set<Key>)
    decreases ops
  {
    if ops == [] then {}
    else
      var before, op := LiveKeys(ops[..|ops| - 1]), ops[|ops| - 1];
      match op
      case InsertKey(k) => before + {k}
      case Merge(ks) => before + (set k | k in ks)
      case Copy => before
      case ClearAll => {}
  }

  /** The filter at any point of a run. */
  ghost predicate Tracks(f: BloomFilter, p: Shape, keys: set<Key>)
    reads f
  {
    && f.Valid() && f.SaltsFrom(p.predefSalt) && f.exact && f.keys == keys
    && f.hash == p.hash && f.saltCount == p.numberOfHashes && f.tableSize == p.tableSize
    && f.randomSeed == (p.seed * 0xA5A5A5A5 + 1) % (TWO_32 * TWO_32)
  }

  method Perform(p: Shape, f: BloomFilter, op: Op, ghost keys: set<Key>) returns (g: BloomFilter)
    requires p.Valid() && Tracks(f, p, keys)
    modifies f
    ensures g == f || fresh(g)
    ensures Tracks(g, p, match op
                         case InsertKey(k) => keys + {k}
                         case Merge(ks) => keys + KeySet(ks)
                         case Copy => keys
                         case ClearAll => {})
  {
    g := f;
    match op
    case InsertKey(k) => f.Insert(k);
    case Merge(ks) =>
      var other := Build(p, ks);
      f.UnionWith(other, p.predefSalt);
    case Copy =>
      g := new BloomFilter(p.hash, p.predefSalt, 0, BITS_PER_CHAR, 0);
      g.CopyFrom(f);
    case ClearAll => f.Clear();
  }

  /**
   After any run, no live key is missed, and the table is bit for bit the one that inserting
   the live keys into a new filter gives.
   */
  method RunFilter(p: Shape, ops: seq<Op>, key: Key, live: seq<Key>)
    returns (found: bool, table: seq<Byte>, direct: seq<Byte>)
    requires p.Valid()
    requires KeySet(live) == LiveKeys(ops)
    ensures key in LiveKeys(ops) ==> found
    ensures table == direct
  {
    var f := Build(p, []);
    for i := 0 to |ops|
      invariant fresh(f) && Tracks(f, p, LiveKeys(ops[..i]))
    {
      assert ops[..i + 1][..i] == ops[..i];
      f := Perform(p, f, ops[i], LiveKeys(ops[..i]));
    }
    assert ops[..|ops|] == ops;
    found := f.Contains(key);
    var g := Build(p, live);
    BitsDetermineTable(f.bitTable, g.bitTable);
    table, direct := f.bitTable, g.bitTable;
  }
}
