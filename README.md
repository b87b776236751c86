# CsBit bit vectors in Dafny

This project models the core of the CsBit library: the single-bit value type `Bit` and the fixed-width bit vector `BitArray<T>`.

A `BitArray<T>` takes the raw bytes of an unmanaged value `T` and splits each byte into eight `Bit`s, most significant bit first, bytes in memory order. It offers:

- elementwise `&`, `|`, `^`, `~` and `!`;
- "shift" operators `<<` and `>>`, which are rotations by index modulo the width;
- cutting the bits into 8-bit segments, and rebuilding bytes from them as Σ bit[k]·2^(7−k);
- rendering as digit text, plain or grouped by segment;
- equality and hashing.

Files:

- `primitives.dfy` (module `Primitives`): the C# integer types as newtypes (`byte` … `ulong`, `int32`), `Result`/`Option`, `Pow2`, `Max` and the decimal rendering `int.ToString()` produces.
- `bit.dfy` (module `Bits`, from `Bit.cs`): `Bit` is a datatype of the struct's two fields, `_value` and the cached `_iValue`. A subset type keeps `_iValue == (_value ? 1 : 0)`, which the private constructor guarantees. Conversions, operators, equality, hashing and `ToString` are functions.
- `bit_sequences.dfy` (module `BitSequences`): what each loop of `BitArray<T>` computes, as functions on `seq<Bit>`. Beside them are the lemmas relating those functions: the byte round trip both ways, rotation round trips, segment flattening, the segmented text layout, and the hash's insensitivity to bit order.
- `bit_array.dfy` (module `BitArrays`, from `BitArray.cs`): the struct as a class with the same three `readonly` fields, as `const`s:
  - `size` (`_size`, that is `8 * sizeof(T)`);
  - `bits` (`_bits`, an `array<Bit>`);
  - `list` (`_list`, the snapshot taken by every constructor).

  Each operation is a method with the source's loops. Each is proved against the matching `BitSequences` function.

How the model treats a few source details:

- `T` appears only through its width (`Width`, a positive multiple of 8 that fits an `int`) and through the bytes of the value, which are a parameter.
- The indexer setter is the only thing that changes state. It writes the live `bits` array. `ToString()`, `GetHashCode` and `Equals` read `list`, which keeps the construction-time bits. `GetSegments`, `GetBytes`, `ToString(true)` and the operators read `bits`.
- The copy constructor shares the other instance's array, so a write through either instance is visible through both. The client method `BitArrays.SharedArrayClient` shows this, the stale snapshot, and `==` holding between 42 and 84.
- C#'s `%` truncates toward zero, while Dafny's is Euclidean. The preconditions of `ShiftLeft` and `ShiftRight` keep every dividend non-negative, so the two agree on every shift the model admits. Those preconditions exclude the shifts that give a negative index, which throw in the source. They also exclude shifts whose index arithmetic overflows `int`: the source does not throw for all of these (see Left out).
- `GetBits(byte)` is split into its three phases: the division loop, `Array.Reverse`, and the digit-to-`Bit` copy.
- `GetBytes` is split into the outer loop over segments and the inner accumulation loop (`SegmentByte`).

The model follows the code as written; in particular:

- `&` and `|` do not check lengths. They take the left array's length and need the right one to be at least as long.
- `^`, `~`, `!` and the shifts iterate to the type's width, not the array's length.
- `Bit[]` construction does not validate the length.
- `GetSegments` returns a jagged `Bit[][]`.
- Equality compares hash codes, not bits (see Findings).

## Model

| member | source | states |
|---|---|---|
| `Bits.Make` | CsBit/Bit.cs:11-15 | the private constructor stores the given truth value, and the cached integer follows it (by the `Bit` subset type) |
| `Bits.ToBool` | CsBit/Bit.cs:20 | the bool view is true exactly when the cached integer is 1 |
| `Bits.ToByte` | CsBit/Bit.cs:21 | the byte view equals the cached integer |
| `Bits.ToSByte` | CsBit/Bit.cs:22 | the sbyte view equals the cached integer |
| `Bits.ToShort` | CsBit/Bit.cs:23 | the short view equals the cached integer |
| `Bits.ToUShort` | CsBit/Bit.cs:24 | the ushort view equals the cached integer |
| `Bits.ToInt` | CsBit/Bit.cs:25 | the int view equals the cached integer |
| `Bits.ToUInt` | CsBit/Bit.cs:26 | the uint view equals the cached integer |
| `Bits.ToLong` | CsBit/Bit.cs:27 | the long view equals the cached integer |
| `Bits.ToULong` | CsBit/Bit.cs:28 | the ulong view equals the cached integer |
| `Bits.NumericViewsAgree` | CsBit/Bit.cs:20-28 | every numeric view (byte … ulong) gives the same number, which is the cached `_iValue`; it is 1 exactly when the bit is set and 0 exactly when it is clear |
| `Bits.FromBool` | CsBit/Bit.cs:29 | bool → Bit keeps the truth value |
| `Bits.FromInt` | CsBit/Bit.cs:30-40 | int → Bit succeeds exactly for 0 and 1, and the bit's int view is then that number; every other int gives ArgumentException |
| `Bits.IntRoundTrip` | CsBit/Bit.cs:25-40 | Bit → int → Bit gives back the same bit |
| `Bits.And` | CsBit/Bit.cs:43 | `&` is the product of the 0/1 views |
| `Bits.Or` | CsBit/Bit.cs:44 | `\|` is a + b − a·b on the 0/1 views |
| `Bits.Xor` | CsBit/Bit.cs:45 | `^` is the sum of the 0/1 views mod 2 |
| `Bits.Not` | CsBit/Bit.cs:46 | `~` is 1 minus the 0/1 view |
| `Bits.NotInvolutive` | CsBit/Bit.cs:46 | `~~b == b`, and `~b` differs from `b` |
| `Bits.Eq` | CsBit/Bit.cs:47 | `==` holds exactly when the two bits are equal as values |
| `Bits.NotEq` | CsBit/Bit.cs:48 | `!=` holds exactly when the bits differ, and it is the negation of `==` |
| `Bits.Equals` | CsBit/Bit.cs:52 | `Equals(object)` holds exactly when the object is a Bit with the same value |
| `Bits.EqualBitsEqualHashes` | CsBit/Bit.cs:54 | `GetHashCode` (`Bits.HashCode`, the bool hash of `_value`) gives equal bits equal hash codes |
| `Bits.ToString` | CsBit/Bit.cs:56-59 | the text of the cached integer is exactly "1" for a set bit and "0" otherwise |
| `BitSequences.LsbDigits` | CsBit/BitArray.cs:58-63 | the division loop's digits number `n`, and each is 0 or 1 |
| `BitSequences.LsbDigitsOfZero` | CsBit/BitArray.cs:58-63 | once the value is used up, the remaining slots hold 0 |
| `BitSequences.LsbDigitsStep` | CsBit/BitArray.cs:59-63 | each pass of the division loop writes `value % 2` and leaves the digits of `value / 2` |
| `BitSequences.MsbBitsAreReversedLsbDigits` | CsBit/BitArray.cs:65-70 | reversing the least-significant-first digits and converting them gives the most-significant-first bits |
| `BitSequences.ByteBits` | CsBit/BitArray.cs:55-73 | one byte gives exactly eight bits |
| `BitSequences.ByteBitsOf42` | CsBit/BitArray.cs:55-73 | byte 42 gives 0,0,1,0,1,0,1,0 |
| `BitSequences.ByteBitsOf84` | CsBit/BitArray.cs:55-73 | byte 84 gives 0,1,0,1,0,1,0,0 |
| `BitSequences.AccumulateBound` | CsBit/BitArray.cs:219-228 | each partial sum Σ bit[k]·2^(n−1−k) leaves room for the terms still to come, so eight bits never exceed 255 |
| `BitSequences.ValueOfMsbBits` | CsBit/BitArray.cs:213-234 | the weighted sum of the bits of `v` is `v` for every `v < 2^n` |
| `BitSequences.MsbBitsOfValue` | CsBit/BitArray.cs:213-234 | decomposing the weighted sum of any run of bits gives the same bits back |
| `BitSequences.ByteValue` | CsBit/BitArray.cs:219-230 | a segment's byte is its weighted sum Σ bit[k]·2^(7−k) |
| `BitSequences.ByteRoundTrip` | CsBit/BitArray.cs:55-73 | the byte of the bits of any byte is that byte |
| `BitSequences.SegmentRoundTrip` | CsBit/BitArray.cs:213-234 | the bits of the byte of any 8-bit segment are that segment |
| `BitSequences.Decompose` | CsBit/BitArray.cs:84-91 | a value of `m` bytes gives `8m` bits |
| `BitSequences.DecomposeAt` | CsBit/BitArray.cs:84-91 | bits 8i..8i+7 of the decomposition are byte i's bits, most significant first |
| `BitSequences.Segment` | CsBit/BitArray.cs:196-208 | a segment has eight bits |
| `BitSequences.Segments` | CsBit/BitArray.cs:190-211 | there are `len / 8` segments |
| `BitSequences.FlattenSegments` | CsBit/BitArray.cs:190-211 | the segments concatenated are the first `8*(len/8)` bits; trailing bits are dropped |
| `BitSequences.BytesOf` | CsBit/BitArray.cs:213-234 | `GetBytes` yields one byte per whole segment |
| `BitSequences.BytesOfDecompose` | CsBit/BitArray.cs:55-92 | for any byte sequence, the bytes of its decomposition are the same sequence |
| `BitSequences.DecomposeBytesOf` | CsBit/BitArray.cs:213-234 | for a length that is a multiple of 8, decomposing the bytes gives back the bits |
| `BitSequences.ComplementInvolutive` | CsBit/BitArray.cs:128-138 | applying `~` twice gives back the original bits |
| `BitSequences.XorSelfIsZero` | CsBit/BitArray.cs:116-126 | `x ^ x` is all zeros |
| `BitSequences.AndAllOnesIsIdentity` | CsBit/BitArray.cs:94-103 | `x & ones == x` |
| `BitSequences.OrAllZerosIsIdentity` | CsBit/BitArray.cs:105-114 | `x \| zeros == x` |
| `BitSequences.AndOf42And24` | CsBit/BitArray.cs:94-103 | the bits of 42 AND the bits of 24 are the bits of 8 |
| `BitSequences.RotateRightUndoesRotateLeft` | CsBit/BitArray.cs:152-174 | `(x << n) >> n == x` for `0 <= n <= size` |
| `BitSequences.RotateLeftUndoesRotateRight` | CsBit/BitArray.cs:152-174 | `(x >> n) << n == x` for `0 <= n <= size` |
| `BitSequences.RotateByZeroOrWidth` | CsBit/BitArray.cs:152-174 | shifting either way by 0 or by `size` is the identity |
| `BitSequences.RotateLeftIsSplice` | CsBit/BitArray.cs:152-162 | `x << n` is `x[n%size..] + x[..n%size]` |
| `BitSequences.RotateLeftIsPermutation` | CsBit/BitArray.cs:152-162 | `<<` neither introduces nor discards bits: the result is a permutation of the input |
| `BitSequences.Digits` | CsBit/BitArray.cs:280-284 | joining the bits' texts gives one character per bit, '1' or '0' |
| `BitSequences.SegmentedDigits` | CsBit/BitArray.cs:286-302 | the segmented text of `c` segments has `9c` characters |
| `BitSequences.SegmentedDigitsLayout` | CsBit/BitArray.cs:286-302 | character 9i+j is the digit of bit 8i+j, and character 9i+8 is the single space after segment i |
| `BitSequences.BitHashesPermutation` | CsBit/BitArray.cs:257-273 | the XOR of the per-bit hashes is the same for any permutation of the bits |
| `BitSequences.HashIgnoresOrder` | CsBit/BitArray.cs:257-273 | `GetHashCode` is unchanged by any permutation of the bits |
| `BitSequences.RotationKeepsHash` | CsBit/BitArray.cs:152-162 | `HashOf(s << n) == HashOf(s)` for an `\|s\|`-bit sequence `s`; so `x == (x << n)` holds while `x.list == x.bits[..]` and `x.bits.Length == size` (after a write through the indexer, `x`'s hash still reads the old snapshot and the two may differ) |
| `BitSequences.Bits42And84Permuted` | CsBit/BitArray.cs:55-73 | the bits of 84 are a reordering of those of 42 |
| `BitSequences.HashConfuses42And84` | CsBit/BitArray.cs:242-245 | the bits of 42 and of 84 differ but hash alike, whatever the bool hash |
| `BitArrays.BitArray.FromValue` | CsBit/BitArray.cs:21-26 | constructing from a value gives `8*sizeof(T)` bits, the value's decomposition, and a snapshot equal to them |
| `BitArrays.BitArray.FromBits` | CsBit/BitArray.cs:28-33 | constructing from a `Bit[]` keeps that very array, of any length, and snapshots its contents |
| `BitArrays.BitArray.Copy` | CsBit/BitArray.cs:35-40 | the copy shares the other instance's array and snapshots its current contents |
| `BitArrays.BitArray.Get` | CsBit/BitArray.cs:44-47 | the getter reads the live array (not the snapshot); an index outside the array is not allowed |
| `BitArrays.BitArray.Set` | CsBit/BitArray.cs:49-52 | the setter changes element `index` of the live array and no other; the snapshot is a constant and does not change |
| `BitArrays.BitArray.GetByteBits` | CsBit/BitArray.cs:55-73 | `GetBits(byte)` returns a new array holding the byte's eight bits, most significant first |
| `BitArrays.BitArray.DivisionDigits` | CsBit/BitArray.cs:57-63 | the division loop fills the zeroed `int[8]` with the byte's binary digits, least significant first |
| `BitArrays.BitArray.ReverseDigits` | CsBit/BitArray.cs:65 | `Array.Reverse` puts element `len−1−k` at `k` |
| `BitArrays.BitArray.DigitsToBits` | CsBit/BitArray.cs:66-70 | each 0/1 digit becomes the bit with that int view, and the conversion never throws |
| `BitArrays.BitArray.GetValueBits` | CsBit/BitArray.cs:84-91 | the byte loop of `GetBits(T)` returns the concatenated bits of every byte, in order |
| `BitArrays.BitArray.And` | CsBit/BitArray.cs:94-103 | `&` has the left array's length, with `result[i] = left[i] & right[i]`; the right array must be at least as long |
| `BitArrays.BitArray.Or` | CsBit/BitArray.cs:105-114 | `\|` has the left array's length, with `result[i] = left[i] \| right[i]`; the right array must be at least as long |
| `BitArrays.BitArray.Xor` | CsBit/BitArray.cs:116-126 | `^` has `max(left.size, right.size)` bits, with `result[i] = left[i] ^ right[i]`; both arrays need that many |
| `BitArrays.BitArray.Complement` | CsBit/BitArray.cs:128-138 | `~` has `size` bits, each complemented |
| `BitArrays.BitArray.LogicalNot` | CsBit/BitArray.cs:140-150 | `!` gives exactly the same bits as `~` |
| `BitArrays.BitArray.ShiftLeft` | CsBit/BitArray.cs:152-162 | `<<` gives `result[i] = bits[(i+shift) % size]`; negative shifts, which throw, are excluded, and so are shifts that overflow the index arithmetic |
| `BitArrays.BitArray.ShiftRight` | CsBit/BitArray.cs:164-174 | `>>` gives `result[i] = bits[(i+size-shift) % size]`; a shift above `size` or an index overflow is excluded |
| `BitArrays.BitArray.OpEquals` | CsBit/BitArray.cs:176-179 | `==` holds exactly when the two hash codes are equal |
| `BitArrays.BitArray.OpNotEquals` | CsBit/BitArray.cs:181-184 | `!=` is the negation of `==` |
| `BitArrays.BitArray.GetSegments` | CsBit/BitArray.cs:190-211 | returns `len/8` new, pairwise distinct 8-bit arrays, with `segment[i][j] == bits[8i+j]` |
| `BitArrays.BitArray.GetBytes` | CsBit/BitArray.cs:213-234 | one byte per segment, each the weighted sum of its bits |
| `BitArrays.BitArray.SegmentByte` | CsBit/BitArray.cs:219-230 | the inner loop's `byte` accumulator ends at Σ bit[k]·2^(7−k) and never wraps |
| `BitArrays.BitArray.Equals` | CsBit/BitArray.cs:242-245 | `Equals` holds exactly when the two hash codes are equal |
| `BitArrays.BitArray.SequenceEquals` | CsBit/BitArray.cs:242-245 | positional comparison holds exactly when the enumerated bit sequences are equal |
| `BitArrays.BitArray.GetHashCode` | CsBit/BitArray.cs:257-273 | the XOR of the snapshot's per-bit hashes and of `size` |
| `BitArrays.BitArray.EqualsObject` | CsBit/BitArray.cs:275-278 | `Equals(object)` is false for anything that is not a `BitArray<T>`, and otherwise the hash comparison |
| `BitArrays.BitArray.ToString` | CsBit/BitArray.cs:280-284 | one '1'/'0' per snapshot bit, in order |
| `BitArrays.BitArray.ToStringSegmented` | CsBit/BitArray.cs:286-302 | segmented: eight digits and one space per segment of the live array; otherwise `ToString()` |

## Left out

- Copying a value into unmanaged memory and back into a `byte[]` (`Marshal.AllocHGlobal`, `StructureToPtr`, `Copy`, `FreeHGlobal`) depends on the host's memory layout and endianness. The value's `sizeof(T)` bytes are a parameter of `FromValue` instead.
- `ReadBits` reinterprets the bytes as a `T` with `Unsafe.ReadUnaligned`. That is a foreign reinterpretation, so the model stops at `GetBytes`.
- `Math.Pow(2, j)` is floating point. It is replaced by the integer `Pow2(j)`, which is exact for the exponents 0..7 used.
- `bool.GetHashCode` is a library value. It is the parameter `boolHash`, so the hash facts hold whatever it returns. Hash codes are 32-bit patterns (`bv32`).
- The `IEnumerable<Bit>` plumbing (`GetEnumerator`) is not modelled beyond this: enumeration yields `list` in order. That is what `ToString()` and `GetHashCode` read.
- Runtime exceptions the source does not raise on its own are preconditions. These come from array indexing outside the array: the indexer, the operators on short arrays, `<<` with a negative shift, and `>>` with a shift above the width.
- BitArrays.BitArray.ShiftLeft: shifts for which `i + shift` overflows `int` are excluded. The source does not throw for all of them. Unchecked C# arithmetic wraps, and with `shift = 2^31 + 1 - size` on a power-of-two width, the one overflowing index wraps to `int.MinValue`, whose remainder is 0. That shift returns the rotation by 1, and the model does not cover it.
- BitArrays.BitArray.ShiftRight: shifts for which `i + size` or `i + size - shift` overflows `int` are excluded. The analogous wrap-around case, `shift = 2*size - 2 - INT32_MAX`, still returns a rotation in the source and is not covered.
- The width `8 * sizeof(T)` is assumed to fit an `int`. Its overflow for structs over 256 MB is not modelled.
- `BitArray<T>` is a `readonly struct`. The class stands for it: every field is `const`, and no member uses object identity.
- `Program.cs` (console demo, which also names members the library lacks) and `Extensions.cs` (an unused `Skip`/`Take` wrapper) are not part of this model.

## Findings

| source | as written | input that shows it | evidently intended | confidence | as-written member | corrected member |
|---|---|---|---|---|---|---|
| CsBit/BitArray.cs:242-245 | `Equals` (and so `==`) compares only the XOR-folded hash codes, which ignore bit order | `BitArray<byte>` built from 42 and from 84 (bits 00101010 and 01010100): `==` is true | two arrays are equal when their bits are equal position by position | not executed | `BitSequences.HashConfuses42And84` | `BitArrays.BitArray.SequenceEquals` |
