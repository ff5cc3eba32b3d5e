# Bloom filter over a packed bit buffer

A Dafny model of the Bloom filter in `bloom.c`. A filter is a buffer of
`size_t` words together with the number of addressable bits (`array_size`) and
the number of hash probes (`num_hash_functions`). Bit `b` lives in word `b / 8`
under mask `1 << (b % 8)`, so only the low byte of each word is ever used.

- `create_bloom_filter` allocates a zeroed buffer of `(array_size + 7) / 8`
  words. If either allocation fails it returns NULL. In the model this is
  `Bloom.CreateBloomFilter`, which receives the two allocation outcomes as
  inputs and builds a `Bloom.BloomFilter`.
- `add_to_bloom_filter` computes, for probe `i`, the index
  `hash(element, i + 1) % array_size` and ORs that bit's mask into its word.
  This is `Bloom.BloomFilter.Add`, a loop that is proved against the pure
  function `Bloom.Insert`.
- `contains` walks the same probes in the same order and returns false at the
  first probe whose bit is clear. This is `Bloom.BloomFilter.Contains`, a loop
  with an early return that is proved equal to the predicate `Bloom.MayContain`.

The seeded SHA-256 hash is a parameter of type `HashFn` (element bytes and
seed to a 64-bit value). It is fixed when the filter is created. Every
property below holds for every such function. `size_t` is taken to be 64 bits
wide (`SizeT`).

The model has two layers:
- The conceptual bit array, a `seq<bool>` of `array_size` entries. On it,
  `SetProbes` is the insertion and `MayContain` is the query.
- The packed buffer of 64-bit words. On it, `SetBit` ORs one mask into one
  word and `Insert` sets every probe. `Bits` reads the buffer back as the
  conceptual array, and `InsertRefines` proves that packed insertion is
  `SetProbes` on that view.

The probe index is `hash(element, i + 1) % array_size` in the methods. In the
specification functions it is `Reduce`, a remainder by repeated subtraction.
`ReduceIsModulo` proves that the two are equal. The specification functions
are defined for any number of probes, with seed i + 1 for probe i. The filter
object only ever uses the first three.

Several lemmas connect the operations:
- every probe lands inside the buffer;
- insertion sets exactly the probed bits and clears none;
- inserting an element whose probes are all set changes nothing, so inserting
  the same element twice is the same as inserting it once;
- after any sequence of insertions, every inserted element is reported present
  (no false negatives);
- with one bit and at least one probe, a single insertion makes every element
  look present.

Three choices follow the code where a reader might expect otherwise:
- A hash count of 0 is accepted. Then `contains` answers true for every
  element. The model allows 0 with the same result, since `MayContain` with
  no probes is vacuously true.
- Only seeds 1, 2 and 3 exist: the `switch` has cases for probes 0, 1 and 2
  only. So `Add` and `Contains` require at most three probes (`Bloom.Usable`).
- The buffer is made of `size_t` words, and only the low byte of each word is
  used. The model keeps 64-bit words and proves that their upper bits stay
  clear (`LowBytes`, part of `BloomFilter.Valid`).

## Model

| member | source | states |
|---|---|---|
| Bloom.WordCount | bloom.c:31 | the buffer has the ceiling of array_size / 8 words: 8 * n covers every bit and wastes fewer than 8 |
| Bloom.WordCountAsWritten | bloom.c:31 | the word count `(array_size + 7) / 8` with the addition wrapping modulo 2^64, as `size_t` arithmetic does |
| Bloom.WordCountWraps | bloom.c:31 | the C size expression agrees with the ceiling unless array_size is within 7 of SIZE_MAX; for those sizes it yields 0 words while the ceiling is positive |
| Bloom.WrappedProbeOutOfBounds | bloom.c:31 | with array_size = SIZE_MAX and a hash value of SIZE_MAX - 1, the buffer has 0 words but the first probe addresses word 2^61 - 1 |
| Bloom.Mask | bloom.c:62 | a bit's mask is a non-zero value within the low byte |
| Bloom.MaskIsShift | bloom.c:62 | the mask is exactly `1 << (b % 8)` and has a single bit set |
| Bloom.OrMask | bloom.c:62 | ORing a bit's mask into a word sets that bit and, for a word using only its low byte, keeps the upper bits clear |
| Bloom.OrKeepsOtherBit | bloom.c:62 | masks of two different positions do not overlap, so ORing one leaves the other bit of the word as it was |
| Bloom.BitSet | bloom.c:77 | bit b is set iff its word `b / 8` ANDed with the mask `1 << (b % 8)` is non-zero; it is defined only when that word is inside the buffer |
| Bloom.SetBit | bloom.c:62 | setting bit b: b is set afterwards, every other bit keeps its value, every other word is unchanged, the length is unchanged, and the upper bits stay clear |
| Bloom.OtherBitsKept | bloom.c:62 | after the OR for bit b, every other in-bounds bit has its old value |
| Bloom.OtherBitKept | bloom.c:62 | after the OR for bit b, any single other bit c has its old value |
| Bloom.SameWordBitKept | bloom.c:62 | the same, for a bit c in the word of b at another position |
| Bloom.SetBitAlreadySet | bloom.c:62 | setting a bit that is already set leaves the whole buffer unchanged |
| Bloom.Bits | bloom.c:77 | reading each bit as its word ANDed with its mask gives the conceptual array of exactly array_size booleans |
| Bloom.SetBitIsBitUpdate | bloom.c:62 | on the packed buffer, the OR is the update `bits[b := true]` of the conceptual array |
| Bloom.Seed | bloom.c:54-58 | the switch hands seed i + 1 to the hash for probe i |
| Bloom.Reduce | bloom.c:60 | the reduced hash is below array_size and no larger than the hash |
| Bloom.ReduceIsModulo | bloom.c:60 | the reduction is exactly `hash_value % array_size` |
| Bloom.Probe | bloom.c:60 | for array_size > 0 the probe index is below array_size, and its word index is below the buffer length |
| Bloom.MayContain | bloom.c:68-82 | the query answers true iff the bit of each of the first k probes of the element is set; with k = 0 it is true |
| Bloom.SetProbes | bloom.c:52-63 | inserting keeps the length of the bit array |
| Bloom.SetProbesAll | bloom.c:51-63 | any sequence of insertions keeps the length of the bit array |
| Bloom.SetProbesExactly | bloom.c:52-63 | after insertion a bit is set iff it was set before or is one of the element's first k probes |
| Bloom.SetProbesMonotone | bloom.c:62 | insertion never clears a bit |
| Bloom.SetProbesSetsProbes | bloom.c:52-63 | after inserting an element, the query for it answers true |
| Bloom.MayContainPreserved | bloom.c:62 | a positive answer for an element survives the insertion of any element |
| Bloom.SetProbesNoop | bloom.c:62 | inserting an element whose probes are all set changes nothing |
| Bloom.NoFalseNegatives | bloom.c:51-82 | after any sequence of insertions, every inserted element is reported as possibly present |
| Bloom.SingleBitSaturates | bloom.c:60 | with array_size 1 and at least one probe, one insertion makes every element look present |
| Bloom.Insert | bloom.c:52-63 | the packed buffer after setting the first k probes has the same length and keeps the upper bits of every word clear |
| Bloom.InsertRefines | bloom.c:52-63 | packed insertion, read back as bits, is SetProbes on the conceptual array |
| Bloom.InsertOnView | bloom.c:52-63 | after packed insertion the element is reported present and every bit set before stays set |
| Bloom.InsertNoop | bloom.c:62 | packed insertion of an element whose probes are all set leaves the buffer unchanged |
| Bloom.InsertIdempotent | bloom.c:51-63 | inserting the same element twice yields the buffer of inserting it once |
| Bloom.BloomFilter.constructor | bloom.c:31-38 | a zeroed buffer of WordCount(array_size) words, with array_size, num_hash_functions and hash stored as given |
| Bloom.BloomFilter.ProbeIndex | bloom.c:53-60 | the index of probe i, hashed with the seed of the switch and reduced by `%`, is Probe |
| Bloom.BloomFilter.SetBitInPlace | bloom.c:62 | the in-place OR turns the buffer into SetBit of the old buffer and keeps the filter valid |
| Bloom.BloomFilter.Add | bloom.c:51-63 | the new buffer is Insert of the old one; its view is SetProbes of the old view; the element is reported present; every bit set before stays set |
| Bloom.BloomFilter.Contains | bloom.c:67-83 | returns true iff every probe of the element hits a set bit (`MayContain` of the view); it modifies nothing |
| Bloom.CreateBloomFilter | bloom.c:27-40 | returns null iff either allocation fails; otherwise a fresh, valid filter with a fresh zeroed buffer of WordCount(array_size) words and the given parameters |

## Left out

- `hash` and `sha256_hash_with_seed` (bloom.c:86-106): SHA-256 from OpenSSL is a foreign cryptographic primitive, so the hash is a parameter. The following quirks of the C hash are therefore not modelled:
  - the big-endian `seed_bytes` are computed but never used (bloom.c:97-101);
  - the digest receives the native-endian bytes of the `unsigned int` seed (bloom.c:103);
  - the input length comes from `strlen`, so `element_size` is ignored and bytes after a zero byte are not hashed (bloom.c:104);
  - the result is the first `sizeof(size_t)` digest bytes read in native byte order (bloom.c:89).
  The model's element is the byte sequence the hash reads. This matches the C exactly when callers pass a NUL-terminated string with `element_size == strlen(element)`, as both callers in the file do (bloom.c:123 and bloom.c:144). The other quirks are covered, because a hash with them is one possible `HashFn`.
- Calls with `element_size != strlen(element)`: the C hash then reads a different byte range than the caller describes. For example, `add_to_bloom_filter(f, "apple", 3)` hashes "apple", while `contains(f, "app", 3)` hashes "app", so the second call can answer false. The model does not describe such calls, and its no-false-negative guarantee (`NoFalseNegatives`) does not hold for them.
- Probes beyond the third: for i >= 3 the `switch` leaves `hash_value` uninitialised (bloom.c:54-58), which is undefined behaviour. `Add` and `Contains` require `numHashFunctions <= 3` instead of modelling it.
- `array_size == 0`: `create_bloom_filter` accepts it, and the model's construction does too. `Add` and `Contains` require `arraySize > 0`, because the modulo at bloom.c:60 and bloom.c:75 would divide by zero.
- Bloom.BloomFilter.constructor and Bloom.CreateBloomFilter: they allocate WordCount(array_size) words, which is the corrected size. For the seven largest `size_t` values the C expression wraps (see Findings).
- `destroy_bloom_filter` (bloom.c:43-48) and `malloc`/`calloc`/`free`: memory management is replaced by Dafny's garbage-collected objects. The allocation outcomes are inputs of `CreateBloomFilter`.
- `add_words_from_file` (bloom.c:109-127): file I/O and tokenisation driver.
- `main` (bloom.c:130-150) and its `ARRAY_SIZE 1e12` floating-point literal converted to `size_t` (bloom.c:8): demo driver with printing.
- Concurrent use of the bit array: nothing in the code is concurrent.

## Findings

| source | as written | input that shows it | evidently intended | confidence | as-written member | corrected member |
|---|---|---|---|---|---|---|
| bloom.c:31 | `(array_size + 7) / 8` is evaluated in `size_t`, and the addition wraps | `array_size` = SIZE_MAX (2^64 - 1): the count is 6 / 8 = 0 words, yet probe indices up to 2^64 - 2 address words up to 2^61 - 1 | a buffer of ceil(array_size / 8) words, so every probe's word is in bounds | not executed; medium (needs a 64-bit `size_t` and an allocation of zero words that succeeds) | Bloom.WordCountWraps and Bloom.WrappedProbeOutOfBounds (on Bloom.WordCountAsWritten) | Bloom.WordCount (with Bloom.Probe's bound) |
