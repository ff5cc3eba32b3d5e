/** A Bloom filter over a packed bit buffer, as in bloom.c.

    The buffer holds `(array_size + 7) / 8` machine words (`size_t`, 64 bits
    here); bit `b` lives in word `b / 8` under mask `1 << (b % 8)`, so only the
    low byte of each word is ever touched. Insertion sets one bit per probe,
    a query reports "possibly present" when every probed bit is set.

    The seeded SHA-256 hash is not modelled: it is a parameter of type
    `HashFn`, fixed when the filter is created, and every property below holds
    for every such function. */
module Bloom {

  /** `size_t` on a 64-bit target. */
  const SizeMax: int := 0xFFFF_FFFF_FFFF_FFFF
  type SizeT = x: int | 0 <= x <= SizeMax

  /** The seeded hash: element bytes and seed to a `size_t` value. */
  type HashFn = (seq<bv8>, nat) -> SizeT

  /** The `switch` in insertion and query has cases for i = 0, 1, 2 only. */
  const MaxHashFunctions: nat := 3

  // ---------------------------------------------------------------------
  // Packed bit buffer
  // ---------------------------------------------------------------------

  /** Number of words needed for `arraySize` bits: the ceiling of arraySize / 8,
      computed without wrap-around (see WordCountAsWritten for the C expression). */
  function WordCount(arraySize: nat): (n: nat)
    ensures 8 * n >= arraySize && 8 * n < arraySize + 8
  {
    (arraySize + 7) / 8
  }

  /** `(array_size + 7) / 8` evaluated in `size_t`, where the addition wraps. */
  function WordCountAsWritten(arraySize: SizeT): nat
  {
    ((arraySize + 7) % (SizeMax + 1)) / 8
  }

  /** The mask `1 << (b % 8)` of bit `b` inside its word, listed by bit
      position (MaskIsShift states that it is the shift). */
  function Mask(b: nat): (m: bv64)
    ensures m != 0 && m < 256
  {
    var r := b % 8;
    if r == 0 then 1 else if r == 1 then 2 else if r == 2 then 4 else if r == 3 then 8
    else if r == 4 then 16 else if r == 5 then 32 else if r == 6 then 64 else 128
  }

  /** The listed mask is the shift of bloom.c, a single bit. */
  lemma MaskIsShift(b: nat)
    ensures Mask(b) == 1 << (b % 8)
    ensures Mask(b) & (Mask(b) - 1) == 0
  {
  }

  /** A word that only ever has its low 8 bits in use. */
  predicate LowByte(w: bv64)
  {
    w < 256
  }

  /** Only the low byte of each word of the buffer is in use. */
  predicate LowBytes(words: seq<bv64>)
  {
    forall j :: 0 <= j < |words| ==> LowByte(words[j])
  }

  predicate InBounds(words: seq<bv64>, b: nat)
  {
    b / 8 < |words|
  }

  /** Bit `b` of the packed buffer. */
  predicate BitSet(words: seq<bv64>, b: nat)
    requires InBounds(words, b)
  {
    words[b / 8] & Mask(b) != 0
  }

  /** ORing the mask of bit `b` into a word sets that bit, keeps the high
      bits clear, and leaves the bit of every other position as it was. */
  lemma OrMask(w: bv64, b: nat)
    ensures (w | Mask(b)) & Mask(b) != 0
    ensures LowByte(w) ==> LowByte(w | Mask(b))
  {
  }

  /** Distinct bits of one word have masks that do not overlap, so ORing one
      leaves the other as it was. */
  lemma OrKeepsOtherBit(w: bv64, b: nat, c: nat)
    requires b % 8 != c % 8
    ensures Mask(b) & Mask(c) == 0
    ensures (w | Mask(b)) & Mask(c) != 0 <==> w & Mask(c) != 0
  {
  }

  /** Two distinct bits of one word sit at distinct positions in it. */
  lemma SameWordOtherPosition(b: nat, c: nat)
    requires b / 8 == c / 8 && b != c
    ensures b % 8 != c % 8
  {
  }

  /** ORs the mask of bit `b` into its word: bit `b` is set, every other bit
      and every other word keep their value, and no high bit appears. */
  function SetBit(words: seq<bv64>, b: nat): (r: seq<bv64>)
    requires InBounds(words, b)
    ensures |r| == |words| && BitSet(r, b)
    ensures forall j :: 0 <= j < |words| && j != b / 8 ==> r[j] == words[j]
    ensures forall c :: InBounds(words, c) && c != b ==> (BitSet(r, c) <==> BitSet(words, c))
    ensures LowBytes(words) ==> LowBytes(r)
  {
    var r := words[b / 8 := words[b / 8] | Mask(b)];
    OrMask(words[b / 8], b);
    OtherBitsKept(words, b, r);
    r
  }

  /** ORing the mask of bit `b` into its word changes no other bit. */
  lemma OtherBitsKept(words: seq<bv64>, b: nat, r: seq<bv64>)
    requires InBounds(words, b) && r == words[b / 8 := words[b / 8] | Mask(b)]
    ensures forall c :: InBounds(words, c) && c != b ==> (BitSet(r, c) <==> BitSet(words, c))
  {
    forall c: nat | InBounds(words, c) && c != b
      ensures BitSet(r, c) <==> BitSet(words, c)
    {
      OtherBitKept(words, b, c);
    }
  }

  /** ORing the mask of bit `b` leaves any other bit `c` as it was. */
  lemma OtherBitKept(words: seq<bv64>, b: nat, c: nat)
    requires InBounds(words, b) && InBounds(words, c) && c != b
    ensures BitSet(words[b / 8 := words[b / 8] | Mask(b)], c) <==> BitSet(words, c)
  {
    if c / 8 == b / 8 {
      SameWordOtherPosition(b, c);
      SameWordBitKept(words, b, c);
    }
  }

  /** The case of OtherBitKept where `c` shares the word of `b`. */
  lemma SameWordBitKept(words: seq<bv64>, b: nat, c: nat)
    requires InBounds(words, b) && c / 8 == b / 8 && b % 8 != c % 8
    ensures BitSet(words[b / 8 := words[b / 8] | Mask(b)], c) <==> BitSet(words, c)
  {
    var w := words[b / 8];
    assert words[b / 8 := w | Mask(b)][c / 8] == w | Mask(b);
    OrKeepsOtherBit(w, b, c);
  }

  /** Setting a bit that is already set leaves the buffer unchanged. */
  lemma SetBitAlreadySet(words: seq<bv64>, b: nat)
    requires InBounds(words, b) && BitSet(words, b)
    ensures SetBit(words, b) == words
  {
  }

  /** The buffer seen as the conceptual `bool[arraySize]`. */
  function Bits(words: seq<bv64>, arraySize: nat): (bits: seq<bool>)
    requires |words| == WordCount(arraySize)
    ensures |bits| == arraySize
  {
    seq(arraySize, c requires 0 <= c < arraySize => BitSet(words, c))
  }

  /** The packed OR at bit `b` is the update of entry `b` of the bool view. */
  lemma SetBitIsBitUpdate(words: seq<bv64>, arraySize: nat, b: nat)
    requires |words| == WordCount(arraySize) && b < arraySize
    ensures Bits(SetBit(words, b), arraySize) == Bits(words, arraySize)[b := true]
  {
  }

  // ---------------------------------------------------------------------
  // Probes
  // ---------------------------------------------------------------------

  /** The seed the `switch` hands to the hash for probe `i`. */
  function Seed(i: nat): (seed: nat)
    requires i < MaxHashFunctions
    ensures seed == i + 1
  {
    if i == 0 then 1 else if i == 1 then 2 else 3
  }

  /** The filter's parameters admit insertion and query: no modulo by zero,
      and no probe beyond the cases of the `switch`. */
  predicate Usable(arraySize: SizeT, numHashFunctions: SizeT)
  {
    arraySize > 0 && numHashFunctions <= MaxHashFunctions
  }

  /** The remainder of `h` by `n`, by repeated subtraction; ReduceIsModulo
      shows it is the `h % n` of the source. Specifications use this form
      because it keeps non-linear arithmetic out of the proofs about them. */
  function Reduce(h: nat, n: nat): (r: nat)
    requires n > 0
    ensures r < n && r <= h
    decreases h
  {
    if h < n then h else Reduce(h - n, n)
  }

  lemma {:induction false} ReduceIsModulo(h: nat, n: nat)
    requires n > 0
    ensures Reduce(h, n) == h % n
    decreases h
  {
    if h >= n {
      ReduceIsModulo(h - n, n);
      ModuloStep(h, n);
    }
  }

  /** Taking `n` away from `h` does not change its remainder by `n`. */
  lemma ModuloStep(h: nat, n: nat)
    requires 0 < n <= h
    ensures (h - n) % n == h % n
  {
    var q, r := (h - n) / n, (h - n) % n;
    assert h - n == q * n + r;
    MulSucc(q, n);
    DivModUnique(h, n, q + 1, r);
  }

  lemma MulSucc(q: int, n: int)
    ensures (q + 1) * n == q * n + n
  {
  }

  /** Euclidean division has a unique quotient and remainder. */
  lemma DivModUnique(h: int, n: int, q: int, r: int)
    requires 0 < n && 0 <= r < n && h == q * n + r
    ensures h % n == r && h / n == q
  {
    var d := q - h / n;
    assert d * n == h % n - r by {
      assert q * n - (h / n) * n == d * n;
    }
  }

  /** Bit index of probe `i`, hashed with seed i + 1: always below
      `arraySize`, so its word is in bounds of a buffer of
      WordCount(arraySize) words. Defined for every `i`; the filter itself
      only ever asks for the first MaxHashFunctions probes. */
  function Probe(hash: HashFn, element: seq<bv8>, i: nat, arraySize: SizeT): (b: nat)
    requires arraySize > 0
    ensures b < arraySize
    ensures b / 8 < WordCount(arraySize)
  {
    Reduce(hash(element, i + 1), arraySize)
  }

  // ---------------------------------------------------------------------
  // The filter on its conceptual bit array, `bool[array_size]`
  // ---------------------------------------------------------------------

  /** A bit array the filter can probe: not empty, and indexable by `size_t`. */
  predicate Probeable(bits: seq<bool>)
  {
    0 < |bits| <= SizeMax
  }

  /** The query: all of the first `k` probes of `element` hit set bits. */
  predicate MayContain(bits: seq<bool>, hash: HashFn, k: nat, element: seq<bv8>)
    requires Probeable(bits)
  {
    forall i :: 0 <= i < k ==> bits[Probe(hash, element, i, |bits|)]
  }

  /** The insertion: the bit array after setting the first `k` probes of
      `element`, in order. */
  function SetProbes(bits: seq<bool>, hash: HashFn, k: nat, element: seq<bv8>): (r: seq<bool>)
    requires Probeable(bits)
    ensures |r| == |bits|
    decreases k
  {
    if k == 0 then bits
    else SetProbes(bits, hash, k - 1, element)[Probe(hash, element, k - 1, |bits|) := true]
  }

  /** The bit array after inserting every element of `elements`, first to last. */
  function SetProbesAll(bits: seq<bool>, hash: HashFn, k: nat, elements: seq<seq<bv8>>): (r: seq<bool>)
    requires Probeable(bits)
    ensures |r| == |bits|
    decreases |elements|
  {
    if elements == [] then bits
    else
      var last := |elements| - 1;
      SetProbes(SetProbesAll(bits, hash, k, elements[..last]), hash, k, elements[last])
  }

  /** Insertion sets exactly the probed bits: a bit is set afterwards iff it
      was set before or it is one of the first `k` probes of `element`. */
  lemma {:induction false} SetProbesExactly(bits: seq<bool>, hash: HashFn, k: nat, element: seq<bv8>, c: nat)
    requires Probeable(bits) && c < |bits|
    ensures SetProbes(bits, hash, k, element)[c] <==>
            (bits[c] || exists i :: 0 <= i < k && c == Probe(hash, element, i, |bits|))
  {
    if k > 0 {
      SetProbesExactly(bits, hash, k - 1, element, c);
      if c == Probe(hash, element, k - 1, |bits|) {
      } else if exists i :: 0 <= i < k && c == Probe(hash, element, i, |bits|) {
        var i :| 0 <= i < k && c == Probe(hash, element, i, |bits|);
        assert i < k - 1;
      }
    }
  }

  /** Insertion never clears a bit. */
  lemma {:induction false} SetProbesMonotone(bits: seq<bool>, hash: HashFn, k: nat, element: seq<bv8>)
    requires Probeable(bits)
    ensures forall c :: 0 <= c < |bits| && bits[c] ==> SetProbes(bits, hash, k, element)[c]
  {
    if k > 0 {
      SetProbesMonotone(bits, hash, k - 1, element);
    }
  }

  /** After inserting `element`, the query for it answers true. */
  lemma {:induction false} SetProbesSetsProbes(bits: seq<bool>, hash: HashFn, k: nat, element: seq<bv8>)
    requires Probeable(bits)
    ensures MayContain(SetProbes(bits, hash, k, element), hash, k, element)
  {
    if k > 0 {
      SetProbesSetsProbes(bits, hash, k - 1, element);
      var before := SetProbes(bits, hash, k - 1, element);
      assert forall i :: 0 <= i < k - 1 ==> before[Probe(hash, element, i, |bits|)];
    }
  }

  /** A positive answer survives the insertion of any element. */
  lemma MayContainPreserved(bits: seq<bool>, hash: HashFn, k: nat, element: seq<bv8>, other: seq<bv8>)
    requires Probeable(bits) && MayContain(bits, hash, k, element)
    ensures MayContain(SetProbes(bits, hash, k, other), hash, k, element)
  {
    SetProbesMonotone(bits, hash, k, other);
  }

  /** Inserting an element whose probes are all set changes nothing. */
  lemma {:induction false} SetProbesNoop(bits: seq<bool>, hash: HashFn, k: nat, element: seq<bv8>)
    requires Probeable(bits) && MayContain(bits, hash, k, element)
    ensures SetProbes(bits, hash, k, element) == bits
  {
    if k > 0 {
      SetProbesNoop(bits, hash, k - 1, element);
      assert bits[Probe(hash, element, k - 1, |bits|)];
    }
  }

  /** No false negatives: after any sequence of insertions, every element
      that was inserted is reported as possibly present. */
  lemma {:induction false} NoFalseNegatives(bits: seq<bool>, hash: HashFn, k: nat, elements: seq<seq<bv8>>, e: seq<bv8>)
    requires Probeable(bits) && e in elements
    ensures MayContain(SetProbesAll(bits, hash, k, elements), hash, k, e)
    decreases |elements|
  {
    var last := |elements| - 1;
    var before := SetProbesAll(bits, hash, k, elements[..last]);
    if elements[last] == e {
      SetProbesSetsProbes(before, hash, k, e);
    } else {
      assert e in elements[..last] by {
        var j :| 0 <= j < |elements| && elements[j] == e;
        assert j < last && elements[..last][j] == e;
      }
      NoFalseNegatives(bits, hash, k, elements[..last], e);
      MayContainPreserved(before, hash, k, e, elements[last]);
    }
  }

  /** With a single bit and at least one probe, one insertion makes every
      element look present. */
  lemma SingleBitSaturates(bits: seq<bool>, hash: HashFn, k: nat, inserted: seq<bv8>, queried: seq<bv8>)
    requires |bits| == 1 && 1 <= k
    ensures MayContain(SetProbes(bits, hash, k, inserted), hash, k, queried)
  {
  }

  // ---------------------------------------------------------------------
  // Insertion on the packed buffer
  // ---------------------------------------------------------------------

  /** The packed buffer after setting the first `k` probes of `element`. */
  function Insert(words: seq<bv64>, hash: HashFn, arraySize: SizeT, k: nat, element: seq<bv8>): (r: seq<bv64>)
    requires arraySize > 0 && |words| == WordCount(arraySize)
    ensures |r| == |words|
    ensures LowBytes(words) ==> LowBytes(r)
    decreases k
  {
    if k == 0 then words
    else SetBit(Insert(words, hash, arraySize, k - 1, element), Probe(hash, element, k - 1, arraySize))
  }

  /** Packed insertion is insertion on the bool view. */
  lemma {:induction false} InsertRefines(words: seq<bv64>, hash: HashFn, arraySize: SizeT, k: nat, element: seq<bv8>)
    requires arraySize > 0 && |words| == WordCount(arraySize)
    ensures Bits(Insert(words, hash, arraySize, k, element), arraySize)
         == SetProbes(Bits(words, arraySize), hash, k, element)
  {
    if k > 0 {
      InsertRefines(words, hash, arraySize, k - 1, element);
      SetBitIsBitUpdate(Insert(words, hash, arraySize, k - 1, element), arraySize, Probe(hash, element, k - 1, arraySize));
    }
  }

  /** What an insertion does to the bool view: it is SetProbes, the element
      is then reported present, and every bit set before stays set. */
  lemma InsertOnView(words: seq<bv64>, hash: HashFn, arraySize: SizeT, k: nat, element: seq<bv8>)
    requires arraySize > 0 && |words| == WordCount(arraySize)
    ensures var before, after := Bits(words, arraySize), Bits(Insert(words, hash, arraySize, k, element), arraySize);
            && after == SetProbes(before, hash, k, element)
            && MayContain(after, hash, k, element)
            && forall c :: 0 <= c < arraySize && before[c] ==> after[c]
  {
    var before := Bits(words, arraySize);
    InsertRefines(words, hash, arraySize, k, element);
    SetProbesSetsProbes(before, hash, k, element);
    SetProbesMonotone(before, hash, k, element);
  }

  /** Inserting into a buffer where every probe is already set changes nothing. */
  lemma {:induction false} InsertNoop(words: seq<bv64>, hash: HashFn, arraySize: SizeT, k: nat, element: seq<bv8>)
    requires arraySize > 0 && |words| == WordCount(arraySize)
    requires MayContain(Bits(words, arraySize), hash, k, element)
    ensures Insert(words, hash, arraySize, k, element) == words
  {
    if k > 0 {
      InsertNoop(words, hash, arraySize, k - 1, element);
      var b := Probe(hash, element, k - 1, arraySize);
      assert Bits(words, arraySize)[b];
      SetBitAlreadySet(words, b);
    }
  }

  /** Inserting the same element twice leaves the buffer of inserting it once. */
  lemma InsertIdempotent(words: seq<bv64>, hash: HashFn, arraySize: SizeT, k: nat, element: seq<bv8>)
    requires arraySize > 0 && |words| == WordCount(arraySize)
    ensures var once := Insert(words, hash, arraySize, k, element);
            Insert(once, hash, arraySize, k, element) == once
  {
    InsertRefines(words, hash, arraySize, k, element);
    SetProbesSetsProbes(Bits(words, arraySize), hash, k, element);
    InsertNoop(Insert(words, hash, arraySize, k, element), hash, arraySize, k, element);
  }

  /** The size expression of the allocation wraps for the seven largest
      `size_t` values; below them it agrees with WordCount. */
  lemma WordCountWraps(arraySize: SizeT)
    ensures arraySize <= SizeMax - 7 ==> WordCountAsWritten(arraySize) == WordCount(arraySize)
    ensures arraySize > SizeMax - 7 ==> WordCountAsWritten(arraySize) == 0 < WordCount(arraySize)
  {
  }

  /** With the largest bit count, the wrapped size gives an empty buffer, yet
      a hash value of SIZE_MAX - 1 sends the first probe to word 2^61 - 1. */
  lemma WrappedProbeOutOfBounds(hash: HashFn, element: seq<bv8>)
    requires hash(element, 1) == SizeMax - 1
    ensures WordCountAsWritten(SizeMax) == 0
    ensures Probe(hash, element, 0, SizeMax) / 8 == 0x1FFF_FFFF_FFFF_FFFF
  {
  }

  // ---------------------------------------------------------------------
  // The filter object
  // ---------------------------------------------------------------------

  class BloomFilter {
    const bitArray: array<bv64>
    const arraySize: SizeT
    const numHashFunctions: SizeT
    const hash: HashFn

    /** The buffer has one word per started group of 8 bits, and only the low
        byte of each word is in use. */
    ghost predicate Valid()
      reads bitArray
    {
      && bitArray.Length == WordCount(arraySize)
      && LowBytes(bitArray[..])
    }

    /** The buffer as the conceptual `bool[array_size]`. */
    ghost function View(): (bits: seq<bool>)
      reads bitArray
      requires Valid()
      ensures |bits| == arraySize
    {
      Bits(bitArray[..], arraySize)
    }

    /** A filter with a zeroed buffer (the `calloc` of the source). */
    constructor (arraySize: SizeT, numHashFunctions: SizeT, hash: HashFn)
      ensures Valid() && fresh(bitArray)
      ensures this.arraySize == arraySize && this.numHashFunctions == numHashFunctions && this.hash == hash
      ensures forall j :: 0 <= j < bitArray.Length ==> bitArray[j] == 0
    {
      this.bitArray := new bv64[WordCount(arraySize)](_ => 0);
      this.arraySize := arraySize;
      this.numHashFunctions := numHashFunctions;
      this.hash := hash;
    }

    /** The bit index of probe `i`: the hash under the seed the `switch`
        picks, reduced modulo the bit count. */
    method ProbeIndex(element: seq<bv8>, i: nat) returns (bitIndex: nat)
      requires arraySize > 0 && i < MaxHashFunctions
      ensures bitIndex == Probe(hash, element, i, arraySize)
    {
      var hashValue := hash(element, Seed(i));
      bitIndex := hashValue % arraySize;
      ReduceIsModulo(hashValue, arraySize);
    }

    /** ORs the mask of bit `b` into its word of the buffer. */
    method SetBitInPlace(b: nat)
      requires Valid() && b < arraySize
      modifies bitArray
      ensures Valid() && bitArray[..] == SetBit(old(bitArray[..]), b)
    {
      bitArray[b / 8] := bitArray[b / 8] | Mask(b);
      assert bitArray[..] == SetBit(old(bitArray[..]), b);
    }

    /** Sets the bit of every probe of `element`; nothing is cleared and no
        other part of the filter changes. */
    method Add(element: seq<bv8>)
      requires Valid() && Usable(arraySize, numHashFunctions)
      modifies bitArray
      ensures Valid()
      ensures bitArray[..] == Insert(old(bitArray[..]), hash, arraySize, numHashFunctions, element)
      ensures View() == SetProbes(old(View()), hash, numHashFunctions, element)
      ensures MayContain(View(), hash, numHashFunctions, element)
      ensures forall c :: 0 <= c < arraySize && old(View())[c] ==> View()[c]
    {
      ghost var start := bitArray[..];
      var i: nat := 0;
      while i < numHashFunctions
        invariant i <= numHashFunctions
        invariant bitArray[..] == Insert(start, hash, arraySize, i, element)
        invariant LowBytes(bitArray[..])
      {
        var bitIndex := ProbeIndex(element, i);
        SetBitInPlace(bitIndex);
        i := i + 1;
      }
      assert old(View()) == Bits(start, arraySize);
      InsertOnView(start, hash, arraySize, numHashFunctions, element);
    }

    /** True iff every probe of `element` hits a set bit; stops at the first
        unset one. Changes nothing. */
    method Contains(element: seq<bv8>) returns (present: bool)
      requires Valid() && Usable(arraySize, numHashFunctions)
      ensures present == MayContain(View(), hash, numHashFunctions, element)
    {
      var i: nat := 0;
      while i < numHashFunctions
        invariant i <= numHashFunctions
        invariant MayContain(View(), hash, i, element)
      {
        var bitIndex := ProbeIndex(element, i);
        assert View()[bitIndex] == (bitArray[bitIndex / 8] & Mask(bitIndex) != 0);
        if bitArray[bitIndex / 8] & Mask(bitIndex) == 0 {
          return false;
        }
        i := i + 1;
      }
      return true;
    }
  }

  /** `create_bloom_filter`. The outcomes of the two allocations are inputs:
      either failing yields null, and nothing half-built is returned. */
  method CreateBloomFilter(arraySize: SizeT, numHashFunctions: SizeT, hash: HashFn,
                           headerAllocated: bool, bufferAllocated: bool)
    returns (filter: BloomFilter?)
    ensures filter == null <==> !(headerAllocated && bufferAllocated)
    ensures filter != null ==>
              && fresh(filter) && fresh(filter.bitArray) && filter.Valid()
              && filter.arraySize == arraySize && filter.numHashFunctions == numHashFunctions
              && filter.hash == hash
              && filter.bitArray.Length == WordCount(arraySize)
              && forall j :: 0 <= j < filter.bitArray.Length ==> filter.bitArray[j] == 0
  {
    if !headerAllocated {
      return null;
    }
    if !bufferAllocated {
      return null;
    }
    filter := new BloomFilter(arraySize, numHashFunctions, hash);
  }
}
