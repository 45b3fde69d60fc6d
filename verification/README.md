# FixedHash in Dafny

A model of `FixedHash<N>` from evmone's `lib/evmone/FixedHash.h`: a fixed-length array of N bytes
standing for a hash or an address, whose byte 0 is the most significant byte of the N*8-bit
unsigned integer the bytes denote. The model covers the two free helpers `toBigEndian` and
`fromBigEndian`, the compile-time `StaticLog2`, every operation of the class named below, and
`right160`.

Four modules, one file each:

- `log2.dfy` (`Log2`): `Pow2`, the power-of-two test and `StaticLog2`, with its bounds.
- `big_endian.dfy` (`BigEndian`): the integer a byte buffer denotes (`BigEndianValue`, the fold
  of `fromBigEndian`) and the bytes `toBigEndian` writes (`BigEndianBytes`), the two helpers as
  loops, and the round trips between them.
- `hash_bytes.dfy` (`HashBytes`): value-level specifications over `seq<bv8>` and the lemmas about
  them. These cover bit positions, byte-wise `^ | & ~`, `contains`, the lexicographic order, the
  big-endian increment, the resize and byte-vector constructors, and the bloom projection.
- `fixed_hash.dfy` (`FixedHashes`): the class `FixedHash` over `const data: array<bv8>` (the
  `m_data` member). Operators that change the hash in place are methods with `modifies data` and
  loop invariants. Each method is proved against the functions of `HashBytes`. The module also
  holds the constructors' copy loop, `memcpy` and `right160`.

N is the length of `data`. An operator that takes a second `FixedHash` of the same type requires
equal lengths, the constraint the C++ template enforces at compile time. The `Arith` type of the
source becomes `nat`, below 256^N.

Where the source's comments and its code disagree, the model follows the code:

- `operator bool` (line 111) is documented as "true iff this is the empty hash". The code returns
  true iff some byte is non-zero, and `FixedHash.NonZero` models the code.
- The resizing constructor (line 96) takes every policy other than `AlignRight`, so also
  `FailIfDifferent`, as a copy from the left. `Resized` and `CopyAligned` do the same.

The constructors keep the C++ default arguments. The resizing constructor defaults to
`AlignLeft`, so narrowing a 32-byte hash to 20 bytes without a policy keeps the high 20 bytes,
the opposite of `right160`. The byte-vector constructors default to `FailIfDifferent`, so a
vector of the wrong length gives the zero hash.

`shiftBloom(h)` followed by `containsBloom(h)` is guaranteed only when h is not the filter
itself. With the filter itself it can fail, because shifting a filter with its own projection
changes the bytes the next projection is read from. `HashBytes.SelfShiftLosesContainment` gives a
one-byte example.

## Model

| member | source | states |
|---|---|---|
| `BigEndian.BigEndianValue` | lib/evmone/FixedHash.h:52-59 | the fold over N bytes is below 256^N |
| `BigEndian.ToBigEndian` | lib/evmone/FixedHash.h:38-47 | fills the whole buffer (its length unchanged) with the bytes of `val`, last byte first; read back, the buffer holds `val` mod 256^len |
| `BigEndian.BigEndianBytes` | lib/evmone/FixedHash.h:42-46 | the bytes `toBigEndian` leaves: exactly len of them, whatever the value; their meaning is `ValueOfBytes` |
| `BigEndian.FromBigEndian` | lib/evmone/FixedHash.h:52-59 | the loop, computed in a result type of `width` bytes, returns the big-endian value of the bytes mod 256^width, and the exact value when the type is at least as wide as the buffer |
| `BigEndian.ValueOfBytes` | lib/evmone/FixedHash.h:33-47 | `fromBigEndian(toBigEndian(v, len)) == v mod 256^len`: high bytes are truncated if the buffer is too small, leading zeros added if too big |
| `BigEndian.BytesOfValue` | lib/evmone/FixedHash.h:38-59 | `toBigEndian(fromBigEndian(s), len(s)) == s` |
| `BigEndian.ValueInjective` | lib/evmone/FixedHash.h:114 | two buffers of equal length denote the same integer iff they are equal |
| `BigEndian.ValueZeroIff` | lib/evmone/FixedHash.h:111 | a buffer denotes zero iff every byte is zero |
| `BigEndian.ValueOfConcat` | lib/evmone/FixedHash.h:52-59 | the value of `a + b` is `value(a) * 256^len(b) + value(b)` |
| `BigEndian.ValueOfZeros` | lib/evmone/FixedHash.h:93 | zero bytes denote 0, and leading zero bytes do not change a value |
| `BigEndian.ByteIsDigit` | lib/evmone/FixedHash.h:139 | byte i is base-256 digit N-1-i of the value |
| `Log2.StaticLog2` | lib/evmone/FixedHash.h:62-63 | the recursion `1 + StaticLog2<n/2>` down to `StaticLog2<1> == 0` terminates with a result below n |
| `Log2.StaticLog2Bounds` | lib/evmone/FixedHash.h:62-63 | `StaticLog2<n>` is floor(log2 n): `2^r <= n < 2^(r+1)` |
| `Log2.StaticLog2OfPow2` | lib/evmone/FixedHash.h:62-63 | `StaticLog2<2^k> == k` |
| `Log2.Pow2OfStaticLog2` | lib/evmone/FixedHash.h:195 | for M a power of two, `2^StaticLog2<M> == M` |
| `HashBytes.XorProperties` | lib/evmone/FixedHash.h:122 | `a ^ a` is zero, and `^ b` applied twice gives back `a` |
| `HashBytes.ZeroAndComplementIdentities` | lib/evmone/FixedHash.h:124-128 | `a & 0 == 0`, `a \| 0 == a`, `~~a == a` |
| `HashBytes.ComplementValue` | lib/evmone/FixedHash.h:128 | the value of `~a` is `256^N - 1 - value(a)` |
| `HashBytes.ContainsIffCovers` | lib/evmone/FixedHash.h:133-134 | `(a & c) == c` iff every 1-bit of c is set in a, in both directions |
| `HashBytes.ContainsSelfAndZero` | lib/evmone/FixedHash.h:134 | `a.contains(a)` and `a.contains(zero)` hold, and zero contains only zero |
| `HashBytes.OrCovers` | lib/evmone/FixedHash.h:124 | `a \| b` has every 1-bit of a and of b, so it contains b |
| `HashBytes.LexLessIffValueLess` | lib/evmone/FixedHash.h:116 | the lexicographic `<` on bytes is `<` on the big-endian integers, in both directions |
| `HashBytes.Trichotomy` | lib/evmone/FixedHash.h:116-119 | exactly one of `a < b`, `a == b`, `b < a` holds |
| `HashBytes.WordwiseEqualIffEqual` | lib/evmone/FixedHash.h:236-241 | comparing the four 8-byte words of two h256 values is the same as comparing the 32 bytes |
| `HashBytes.Incremented` | lib/evmone/FixedHash.h:131 | the bytes `++` leaves have the same length; their value is `IncrementedValue`, their shape `IncrementedShape` |
| `HashBytes.IncrementedValue` | lib/evmone/FixedHash.h:131 | the increment adds one modulo 256^N |
| `HashBytes.IncrementedShape` | lib/evmone/FixedHash.h:131 | the bytes before the last byte that does not wrap are unchanged; that byte goes up by one; the 0xFF bytes after it become zero |
| `HashBytes.IncrementedAllOnes` | lib/evmone/FixedHash.h:131 | all-0xFF wraps to all zeros |
| `HashBytes.FirstBitInByte` | lib/evmone/FixedHash.h:215-222 | the leading zero bits of the first non-zero byte k give the answer 8k+t |
| `HashBytes.FirstBitUnique` | lib/evmone/FixedHash.h:211 | at most one position is "the first 1-bit, or N*8 if none" |
| `HashBytes.FirstBitNoneIffZero` | lib/evmone/FixedHash.h:211-227 | that position is N*8 iff every byte is zero |
| `HashBytes.Resized` | lib/evmone/FixedHash.h:96 | the resizing constructor yields N bytes for every source length and policy; their content is `ResizedBytes` |
| `HashBytes.ResizedBytes` | lib/evmone/FixedHash.h:96 | the resize is zero except for min(M,N) copied bytes: `ret[i] == src[i]` for AlignLeft, `ret[N-1-i] == src[M-1-i]` for AlignRight |
| `HashBytes.ResizedRightValue` | lib/evmone/FixedHash.h:96 | an AlignRight resize keeps the value mod 256^N |
| `HashBytes.ResizedLeftValue` | lib/evmone/FixedHash.h:96 | an AlignLeft resize multiplies the value by 256^(N-M) when widening and divides it by 256^(M-N) when narrowing |
| `HashBytes.ResizedRoundTrip` | lib/evmone/FixedHash.h:96 | widening, then narrowing back with the same alignment, restores the source |
| `HashBytes.LowBytes` | lib/evmone/FixedHash.h:277-283 | the last n bytes are the AlignRight narrowing to n bytes and denote the value mod 256^n |
| `HashBytes.FromByteVector` | lib/evmone/FixedHash.h:102-105 | the byte-vector constructors yield N bytes for every vector length and policy; the cases are `FromByteVectorCases` |
| `HashBytes.FromByteVectorCases` | lib/evmone/FixedHash.h:102 | the byte-vector constructor builds what the resize builds for AlignLeft/AlignRight; for FailIfDifferent it builds an exact copy if the length is N, zero otherwise |
| `HashBytes.BloomBytes` | lib/evmone/FixedHash.h:193 | `c_bloomBytes = (StaticLog2<M*8> + 7) / 8` is at least one byte |
| `HashBytes.BloomParams` | lib/evmone/FixedHash.h:191-196 | the `static_assert`s (M a power of two, P*c_bloomBytes <= N) together with `M*8` fitting an `unsigned`; they imply M >= 1 and P <= N |
| `HashBytes.BloomBytesFit` | lib/evmone/FixedHash.h:191-193 | for M a power of two, c_bloomBytes is the fewest bytes whose fold reaches every index below M*8: `M*8 <= 256^c` and `256^(c-1) < M*8` |
| `HashBytes.BloomIndexFits` | lib/evmone/FixedHash.h:195-204 | under the compile-time conditions each index is folded from at most 4 bytes, so `unsigned index` does not overflow |
| `HashBytes.BloomIndex` | lib/evmone/FixedHash.h:202-205 | each masked index is below M*8 |
| `HashBytes.SetBloomBitBits` | lib/evmone/FixedHash.h:206 | setting one index adds exactly that bit, numbered as an integer bit, so it sits at bit `index % 8` of byte `M-1-index/8` |
| `HashBytes.SetBloomBitsBits` | lib/evmone/FixedHash.h:200-207 | setting a list of indices adds exactly the list's elements |
| `HashBytes.BloomProjectionBits` | lib/evmone/FixedHash.h:189-209 | the 1-bits of `bloomPart<P, M>` are exactly its P indices, so at most P bits are set |
| `HashBytes.BloomProjectionPrefix` | lib/evmone/FixedHash.h:196-204 | `bloomPart` reads only the first P*c_bloomBytes bytes: hashes that agree there have the same projection |
| `HashBytes.SetBloomBit` | lib/evmone/FixedHash.h:206 | `ret[M - 1 - index / 8] \|= 1 << (index % 8)` keeps the length; which bits it adds is `SetBloomBitBits` |
| `HashBytes.BloomProjection` | lib/evmone/FixedHash.h:198-207 | `bloomPart<P, M>` builds M bytes from the zero hash; its bits are `BloomProjectionBits` |
| `HashBytes.SelfShiftLosesContainment` | lib/evmone/FixedHash.h:179-187 | with N = M = P = 1, shifting the filter [0] with itself gives [1], whose own projection [2] is not contained in it |
| `HashBytes.LogBloomShape` | lib/evmone/FixedHash.h:189-196 | `bloomPart<3, 256>` on a 32-byte hash compiles, folds 2 bytes per index and reads 6 bytes |
| `FixedHashes.CopyAligned` | lib/evmone/FixedHash.h:96 | the copy loop of the resize and byte-vector constructors leaves the zero-filled buffer equal to the resized source |
| `FixedHashes.MemCopy` | lib/evmone/FixedHash.h:281 | `memcpy` from an offset: dst receives the dst.Length bytes starting there |
| `FixedHashes.LeadingZeroBits` | lib/evmone/FixedHash.h:218-222 | the shift loop stops at the first set bit of a non-zero byte: bit t is set and the t bits above it are clear |
| `FixedHashes.Right160` | lib/evmone/FixedHash.h:278-283 | `ret[j] == t[12+j]`: the AlignRight resize to 20 bytes, whose value is the value mod 2^160 |
| `FixedHashes.ShiftThenContains` | lib/evmone/FixedHash.h:179-187 | for a hash h other than the filter itself, after `shiftBloom(h)`, `containsBloom(h)` holds |
| `FixedHashes.FixedHash.Value` | lib/evmone/FixedHash.h:78 | the conversion to `Arith` is `fromBigEndian` of the bytes, below 256^N |
| `FixedHashes.FixedHash.Zero` | lib/evmone/FixedHash.h:93 | the default constructor gives N zero bytes, value 0 |
| `FixedHashes.FixedHash.Copy` | lib/evmone/FixedHash.h:123 | the implicit copy has the same bytes in a fresh array |
| `FixedHashes.FixedHash.FromUnsigned` | lib/evmone/FixedHash.h:99 | `FixedHash(unsigned)` holds `toBigEndian(u)` into N bytes, whose value is u mod 256^N |
| `FixedHashes.FixedHash.Resize` | lib/evmone/FixedHash.h:96 | the resize constructor, with policy `AlignLeft` by default, holds `Resized(h, N, t)` |
| `FixedHashes.FixedHash.FromVector` | lib/evmone/FixedHash.h:102-105 | the byte-vector constructors, with policy `FailIfDifferent` by default, hold `FromByteVector(b, N, t)` |
| `FixedHashes.FixedHash.NonZero` | lib/evmone/FixedHash.h:111 | `operator bool` is true iff some byte is non-zero, which is iff the value is non-zero |
| `FixedHashes.FixedHash.Equals` | lib/evmone/FixedHash.h:114 | byte-wise `==` holds iff the values are equal |
| `FixedHashes.FixedHash.NotEquals` | lib/evmone/FixedHash.h:115 | `!=` holds iff the values differ |
| `FixedHashes.FixedHash.Less` | lib/evmone/FixedHash.h:116 | the loop computes the lexicographic `<`, which is `<` on the values |
| `FixedHashes.FixedHash.GreaterOrEqual` | lib/evmone/FixedHash.h:117 | `>=` is not-less, i.e. `>=` on the values |
| `FixedHashes.FixedHash.LessOrEqual` | lib/evmone/FixedHash.h:118 | `<=` is equal-or-less, i.e. `<=` on the values |
| `FixedHashes.FixedHash.Greater` | lib/evmone/FixedHash.h:119 | `>` is not-less-or-equal, which is `c < this`, i.e. `>` on the values |
| `FixedHashes.FixedHash.XorWith` | lib/evmone/FixedHash.h:122 | `^=` leaves the byte-wise xor of the old bytes, also when c is this hash |
| `FixedHashes.FixedHash.Xor` | lib/evmone/FixedHash.h:123 | `^` returns a fresh hash holding the byte-wise xor |
| `FixedHashes.FixedHash.OrWith` | lib/evmone/FixedHash.h:124 | `\|=` leaves the byte-wise or of the old bytes |
| `FixedHashes.FixedHash.Or` | lib/evmone/FixedHash.h:125 | `\|` returns a fresh hash holding the byte-wise or |
| `FixedHashes.FixedHash.AndWith` | lib/evmone/FixedHash.h:126 | `&=` leaves the byte-wise and of the old bytes |
| `FixedHashes.FixedHash.And` | lib/evmone/FixedHash.h:127 | `&` returns a fresh hash holding the byte-wise and |
| `FixedHashes.FixedHash.Complement` | lib/evmone/FixedHash.h:128 | `~` complements every byte; its value is 256^N - 1 minus the value |
| `FixedHashes.FixedHash.Increment` | lib/evmone/FixedHash.h:131 | `++` leaves the incremented bytes, whose value is (old + 1) mod 256^N |
| `FixedHashes.FixedHash.Contains` | lib/evmone/FixedHash.h:134 | `contains(c)` holds iff every 1-bit of c is set in this hash |
| `FixedHashes.FixedHash.At` | lib/evmone/FixedHash.h:139 | the const `operator[]` returns digit N-1-i of the value in base 256 |
| `FixedHashes.FixedHash.SetAt` | lib/evmone/FixedHash.h:137 | a write through `operator[]` changes byte i and nothing else |
| `FixedHashes.FixedHash.Clear` | lib/evmone/FixedHash.h:229 | `clear` leaves N zero bytes, value 0, `operator bool` false |
| `FixedHashes.FixedHash.BloomPartStep` | lib/evmone/FixedHash.h:202-206 | one outer iteration folds c_bloomBytes bytes at the cursor into an index mod M*8 and sets its bit |
| `FixedHashes.FixedHash.BloomPart` | lib/evmone/FixedHash.h:189-209 | `bloomPart<P, M>` returns a fresh M-byte hash equal to the bloom projection |
| `FixedHashes.FixedHash.ShiftBloom` | lib/evmone/FixedHash.h:179-182 | `shiftBloom` ors the projection in; no bit is cleared and every bit of the projection is set |
| `FixedHashes.FixedHash.ContainsBloom` | lib/evmone/FixedHash.h:184-187 | `containsBloom` holds iff every bit of h's projection is set |
| `FixedHashes.FixedHash.FirstBitSet` | lib/evmone/FixedHash.h:212-227 | the result is at most N*8; no bit before it is set, and unless it is N*8 the bit at it is set |
| `FixedHashes.FixedHash.FirstBitSetEmptyIff` | lib/evmone/FixedHash.h:211-227 | `firstBitSet` returns N*8 iff `operator bool` is false |

## Left out

- `randomize` and `random()` draw from `std::random_device` and a uniform distribution. They are
  nondeterministic and external.
- The stream operators `<<` and `>>` depend on `toHex` and on a hex-string constructor.
  `toHex` and that constructor are not part of this model.
- The `boost::throw_exception` override only exits the process.
- The pointer constructor `FixedHash(byte const*, ConstructFromPointer)` and the raw views
  (`data()`, `ref()`, `begin`/`end`, `asArray`, `asBytes`) give unchecked raw-memory access. Only
  `operator[]` is modelled, with an index precondition.
- `fromBigEndian<bigint>` is modelled by a `width` at least the buffer's length. The result is
  then the exact value, as for an unbounded integer.
- The boost multiprecision types `u256`, `bigint` and `Arith` are replaced by `nat` below 256^N,
  and the library itself is not modelled.
- The container aliases (`h256s`, `h256Set`, `h256Hash`, ...) are standard-library wrappers.
- The h256 fast `==` reads the 32 bytes as four `uint64_t` words through pointer casts. It is not
  modelled as code. `HashBytes.WordwiseEqualIffEqual` states its intent: a word read from its
  8 bytes by any fixed bijection (the big-endian one here) makes word-wise and byte-wise
  equality agree.
- Integer widths: `firstBitSet`'s `unsigned ret` and bloomPart's `unsigned index` are `nat`.
  They stay below 2^32 whenever N*8 < 2^32 and c_bloomBytes <= 4. `HashBytes.BloomIndexFits`
  proves c_bloomBytes <= 4 from `BloomParams`, so the index always fits. `index &= c_mask` is written `index % (M*8)`, equal because M*8 is a power of
  two. `(index << 8) | *p` is written `index * 256 + *p`, equal because `*p < 256`.
  `BloomParams` takes the product in `static_assert(P * c_bloomBytes <= N)` exactly. The C++
  computes it in `unsigned`, where it can wrap, e.g. P = 2^31 with c_bloomBytes = 2 gives 0.
  Such a P passes the assert and the loop then reads past the hash; the model excludes it.
- `FixedHashes.FixedHash.FromVector`: the copy count is the exact `min(|b|, N)`, as the
  `bytesConstRef` constructor (line 105) computes it with `std::min<size_t>`. The `bytes`
  constructor (line 102) uses `std::min<unsigned>`, which truncates the size to 32 bits. For a
  vector of 2^32 or more bytes with |b| mod 2^32 < N, it copies only |b| mod 2^32 bytes; the
  model does not capture this.
- `HashBytes.FromByteVector`: uses the exact length for the same reason. It does not model the
  32-bit truncation of `_b.size()` in the `bytes` constructor at line 102.
- `FixedHashes.FixedHash.FromUnsigned` requires `u < 2^32` because its parameter is a C++
  `unsigned`.
- The inner loops of `bloomPart` and `firstBitSet` are separate methods: `BloomPartStep` and
  `LeadingZeroBits`. `firstBitSet` adds the inner loop's count to `ret` when it returns, instead
  of incrementing `ret` on every shift.
- Templates over N, M and P become run-time lengths and parameters, and `static_assert`s become
  preconditions (`BloomParams`). Resizing a hash into itself cannot happen, because the
  constructors build a fresh array.
