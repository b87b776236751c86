/** `BitArray<T>`: the bits of an unmanaged value `T`, held in a `Bit[]` that the
    indexer writes in place, beside a `_list` copy taken when the instance is
    built. The struct's fields are all `readonly`, so they are `const` here;
    only the contents of the array change. The type argument `T` enters only
    through its width `sizeof(T) * BITS_PER_BYTE` and, for the constructor from
    a value, through the value's raw bytes. */
module BitArrays {
  import opened Primitives
  import opened Bits
  import opened BitSequences

  /** `sizeof(T) * BITS_PER_BYTE` for an unmanaged `T`: a whole, positive
      number of bytes, as an `int`. */
  type Width = n: int | 8 <= n <= 0x7FFF_FFFF && n % 8 == 0 witness 8

  class BitArray {
    /** `_size`: the width of `T`, fixed by the type, whatever `_bits` holds. */
    const size: Width
    /** `_bits`: the live store; the indexer reads and writes it, and it may be
        shared with other instances. */
    const bits: array<Bit>
    /** `_list`: the snapshot of `_bits` taken by the constructor; enumeration,
        `ToString()` and `GetHashCode` read it. */
    const list: seq<Bit>

    /** `BitArray(T value)` (and the implicit conversion from `T`): `valueBytes`
        are the `sizeof(T)` bytes the value occupies in memory. */
    constructor FromValue(width: Width, valueBytes: seq<byte>)
      requires |valueBytes| == width / BITS_PER_BYTE
      ensures size == width && fresh(bits)
      ensures bits[..] == Decompose(valueBytes) && bits.Length == width
      ensures list == bits[..]
    {
      size := width;
      var b := GetValueBits(valueBytes);
      bits := b;
      list := b[..];
    }

    /** `BitArray(Bit[] bits)` (and the implicit conversion from `Bit[]`): keeps
        the caller's array, of whatever length, as the live store. */
    constructor FromBits(width: Width, bits: array<Bit>)
      ensures size == width && this.bits == bits
      ensures list == bits[..]
    {
      size := width;
      this.bits := bits;
      list := bits[..];
    }

    /** `BitArray(BitArray<T> other)`: shares `other`'s live array, so a write
        through either instance is seen by both; the snapshot is of the array's
        current contents, not of `other`'s snapshot. */
    constructor Copy(other: BitArray)
      ensures size == other.size && bits == other.bits
      ensures list == other.bits[..]
    {
      size := other.size;
      bits := other.bits;
      list := other.bits[..];
    }

    /** The indexer's getter: reads the live array, not the snapshot. */
    function Get(index: int): (b: Bit)
      reads bits
      requires 0 <= index < bits.Length
      ensures b == bits[index]
    {
      bits[index]
    }

    /** The indexer's setter: writes one element of the live array in place;
        the snapshot, and so `ToString()` and `GetHashCode`, keep the old bit. */
    method Set(index: int, value: Bit)
      requires 0 <= index < bits.Length
      modifies bits
      ensures bits[index] == value
      ensures forall k :: 0 <= k < bits.Length && k != index ==> bits[k] == old(bits[k])
    {
      bits[index] := value;
    }

    // ---------------------------------------------------------------
    // Decomposition
    // ---------------------------------------------------------------

    /** `GetBits(byte)`: peels off binary digits by repeated division, least
        significant first, reverses them, then converts each digit to a `Bit`. */
    static method GetByteBits(value: byte) returns (result: array<Bit>)
      ensures fresh(result)
      ensures result[..] == ByteBits(value)
    {
      var digits := DivisionDigits(value);
      ghost var lsb := digits[..];
      ReverseDigits(digits);
      result := DigitsToBits(digits);
      forall m | 0 <= m < BITS_PER_BYTE
        ensures result[m] == ByteBits(value)[m]
      {
        assert digits[m] == lsb[BITS_PER_BYTE - 1 - m];
        MsbBitsAreReversedLsbDigits(value as nat, BITS_PER_BYTE, BITS_PER_BYTE - 1 - m);
      }
    }

    /** The division loop of `GetBits(byte)`: digit i of `value` in slot i of a
        zeroed `int[8]`, stopping once the value is used up. */
    static method DivisionDigits(value: byte) returns (digits: array<int32>)
      ensures fresh(digits)
      ensures digits[..] == LsbDigits(value as nat, BITS_PER_BYTE)
    {
      var count := BITS_PER_BYTE;
      digits := new int32[count](_ => 0);
      var v := value;
      var i := 0;
      ghost var all := LsbDigits(value as nat, count);
      while v > 0
        invariant 0 <= i <= count
        invariant v as nat < Pow2(count - i)
        invariant digits[..i] == all[..i]
        invariant all[i..] == LsbDigits(v as nat, count - i)
        invariant forall m :: i <= m < count ==> digits[m] == 0
        decreases v
      {
        LsbDigitsStep(all, i, v as nat, count - i);
        digits[i] := (v % 2) as int32;
        assert digits[..i + 1] == digits[..i] + [digits[i]];
        assert all[..i + 1] == all[..i] + [all[i]];
        v := v / 2;
        i := i + 1;
      }
      LsbDigitsOfZero(count - i);
      assert digits[..] == digits[..i] + digits[i..];
      assert all == all[..i] + all[i..];
    }

    /** The copy loop of `GetBits(byte)`: each 0/1 digit through the `int` to
        `Bit` conversion, which therefore never throws. */
    static method DigitsToBits(digits: array<int32>) returns (bits: array<Bit>)
      requires forall m :: 0 <= m < digits.Length ==> digits[m] == 0 || digits[m] == 1
      ensures fresh(bits) && bits.Length == digits.Length
      ensures forall m :: 0 <= m < digits.Length ==> ToInt(bits[m]) == digits[m]
    {
      bits := new Bit[digits.Length](_ => Zero);
      for k := 0 to digits.Length
        invariant forall m :: 0 <= m < k ==> ToInt(bits[m]) == digits[m]
      {
        var bit := FromInt(digits[k]);
        bits[k] := bit.value;
      }
    }

    /** `Array.Reverse` on the digit buffer. */
    static method ReverseDigits(a: array<int32>)
      modifies a
      ensures forall k :: 0 <= k < a.Length ==> a[k] == old(a[a.Length - 1 - k])
    {
      var lo, hi := 0, a.Length - 1;
      while lo < hi
        invariant 0 <= lo <= hi + 1 <= a.Length && lo + hi == a.Length - 1
        invariant forall k :: 0 <= k < lo || hi < k < a.Length ==> a[k] == old(a[a.Length - 1 - k])
        invariant forall k :: lo <= k <= hi ==> a[k] == old(a[k])
      {
        a[lo], a[hi] := a[hi], a[lo];
        lo, hi := lo + 1, hi - 1;
      }
    }

    /** The byte loop of `GetBits(T)`: every byte's bits, appended in order. */
    static method GetValueBits(valueBytes: seq<byte>) returns (result: array<Bit>)
      ensures fresh(result)
      ensures result[..] == Decompose(valueBytes)
    {
      var size := |valueBytes|;
      var collected: seq<Bit> := [];
      for i := 0 to size
        invariant collected == Decompose(valueBytes[..i])
      {
        var byteBits := GetByteBits(valueBytes[i]);
        assert valueBytes[..i + 1][..i] == valueBytes[..i];
        collected := collected + byteBits[..];
      }
      assert valueBytes[..size] == valueBytes;
      result := new Bit[|collected|](k requires 0 <= k < |collected| => collected[k]);
    }

    // ---------------------------------------------------------------
    // Operators
    // ---------------------------------------------------------------

    /** `&`: as many bits as the left array holds, each the AND of the two. */
    static method And(left: BitArray, right: BitArray) returns (r: BitArray)
      requires left.size == right.size
      requires left.bits.Length <= right.bits.Length
      ensures fresh(r) && fresh(r.bits) && r.size == left.size
      ensures r.bits[..] == AndBits(left.bits[..], right.bits[..]) && r.list == r.bits[..]
    {
      var result := new Bit[left.bits.Length](_ => Zero);
      for i := 0 to result.Length
        invariant forall k :: 0 <= k < i ==> result[k] == Bits.And(left.bits[k], right.bits[k])
      {
        result[i] := Bits.And(left.bits[i], right.bits[i]);
      }
      r := new BitArray.FromBits(left.size, result);
    }

    /** `|`: as many bits as the left array holds, each the OR of the two. */
    static method Or(left: BitArray, right: BitArray) returns (r: BitArray)
      requires left.size == right.size
      requires left.bits.Length <= right.bits.Length
      ensures fresh(r) && fresh(r.bits) && r.size == left.size
      ensures r.bits[..] == OrBits(left.bits[..], right.bits[..]) && r.list == r.bits[..]
    {
      var result := new Bit[left.bits.Length](_ => Zero);
      for i := 0 to result.Length
        invariant forall k :: 0 <= k < i ==> result[k] == Bits.Or(left.bits[k], right.bits[k])
      {
        result[i] := Bits.Or(left.bits[i], right.bits[i]);
      }
      r := new BitArray.FromBits(left.size, result);
    }

    /** `^`: the width of `T` bits (the larger of the two equal widths), read
        through the indexers. */
    static method Xor(left: BitArray, right: BitArray) returns (r: BitArray)
      requires left.size == right.size
      requires left.size <= left.bits.Length && right.size <= right.bits.Length
      ensures fresh(r) && fresh(r.bits) && r.size == left.size
      ensures r.bits[..] == XorBits(left.bits[..], right.bits[..], left.size) && r.list == r.bits[..]
    {
      var size := Max(left.size, right.size);
      var result := new Bit[size](_ => Zero);
      for i := 0 to size
        invariant forall k :: 0 <= k < i ==> result[k] == Bits.Xor(left.bits[k], right.bits[k])
      {
        result[i] := Bits.Xor(left.Get(i), right.Get(i));
      }
      r := new BitArray.FromBits(left.size, result);
    }

    /** `~`: the width of `T` bits, each complemented. */
    static method Complement(x: BitArray) returns (r: BitArray)
      requires x.size <= x.bits.Length
      ensures fresh(r) && fresh(r.bits) && r.size == x.size
      ensures r.bits[..] == BitSequences.Complement(x.bits[..], x.size) && r.list == r.bits[..]
    {
      var size := x.size;
      var result := new Bit[size](_ => Zero);
      for i := 0 to size
        invariant forall k :: 0 <= k < i ==> result[k] == Not(x.bits[k])
      {
        result[i] := Not(x.Get(i));
      }
      r := new BitArray.FromBits(x.size, result);
    }

    /** `!`: negates each bit through its `bool` view and converts back; the
        result is the same as `~`'s. */
    static method LogicalNot(x: BitArray) returns (r: BitArray)
      requires x.size <= x.bits.Length
      ensures fresh(r) && fresh(r.bits) && r.size == x.size
      ensures r.bits[..] == BitSequences.Complement(x.bits[..], x.size) && r.list == r.bits[..]
    {
      var size := x.size;
      var result := new Bit[size](_ => Zero);
      for i := 0 to size
        invariant forall k :: 0 <= k < i ==> result[k] == Not(x.bits[k])
      {
        result[i] := FromBool(!ToBool(x.Get(i)));
      }
      r := new BitArray.FromBits(x.size, result);
    }

    /** `<<`: position i takes bit (i + shift) % size, a left rotation. A
        negative shift makes some index negative and throws; shifts for which
        i + shift overflows `int` are not modelled. */
    static method ShiftLeft(x: BitArray, shift: int) returns (r: BitArray)
      requires x.size <= x.bits.Length
      requires 0 <= shift && shift + x.size - 1 <= INT32_MAX
      ensures fresh(r) && fresh(r.bits) && r.size == x.size
      ensures r.bits[..] == RotateLeft(x.bits[..], x.size, shift) && r.list == r.bits[..]
    {
      var size := x.size;
      var result := new Bit[size](_ => Zero);
      for i := 0 to size
        invariant forall k :: 0 <= k < i ==> result[k] == x.bits[(k + shift) % size]
      {
        result[i] := x.Get((i + shift) % size);
      }
      r := new BitArray.FromBits(x.size, result);
    }

    /** `>>`: position i takes bit (i + size - shift) % size, a right rotation.
        A shift above `size` makes the first index negative and throws; shifts
        for which i + size or i + size - shift overflows `int` are not modelled. */
    static method ShiftRight(x: BitArray, shift: int) returns (r: BitArray)
      requires x.size <= x.bits.Length
      requires -0x8000_0000 <= shift <= x.size
      requires 2 * x.size - 1 <= INT32_MAX && 2 * x.size - 1 - shift <= INT32_MAX
      ensures fresh(r) && fresh(r.bits) && r.size == x.size
      ensures r.bits[..] == RotateRight(x.bits[..], x.size, shift) && r.list == r.bits[..]
    {
      var size := x.size;
      var result := new Bit[size](_ => Zero);
      for i := 0 to size
        invariant forall k :: 0 <= k < i ==> result[k] == x.bits[(k + size - shift) % size]
      {
        result[i] := x.Get((i + size - shift) % size);
      }
      r := new BitArray.FromBits(x.size, result);
    }

    // ---------------------------------------------------------------
    // Segments and bytes
    // ---------------------------------------------------------------

    /** `GetSegments`: one new eight-bit array per whole byte of the live
        array, filled by a cursor that advances eight places per segment;
        trailing bits past the last whole byte are dropped. */
    method GetSegments() returns (bitmap: array<array<Bit>>)
      ensures fresh(bitmap) && bitmap.Length == SegmentCount(bits[..])
      ensures forall i :: 0 <= i < bitmap.Length ==>
                fresh(bitmap[i]) && bitmap[i][..] == Segment(bits[..], i)
      ensures forall i, j :: 0 <= i < j < bitmap.Length ==> bitmap[i] != bitmap[j]
    {
      var count := bits.Length / BITS_PER_BYTE;
      // C# starts with null rows; one shared empty array stands in for them
      // until each row is replaced by its own new segment.
      var empty := new Bit[0];
      bitmap := new array<Bit>[count](_ => empty);
      var position := 0;
      for i := 0 to count
        invariant position == BITS_PER_BYTE * i
        invariant forall k :: 0 <= k < i ==> fresh(bitmap[k]) && bitmap[k][..] == Segment(bits[..], k)
        invariant forall k, m :: 0 <= k < m < i ==> bitmap[k] != bitmap[m]
      {
        var segment := new Bit[BITS_PER_BYTE](_ => Zero);
        var index := position;
        for j := 0 to segment.Length
          invariant index == position + j
          invariant forall m :: 0 <= m < j ==> segment[m] == bits[position + m]
          modifies segment
        {
          segment[j] := bits[index];
          index := index + 1;
        }
        position := position + segment.Length;
        bitmap[i] := segment;
      }
    }

    /** `GetBytes`: each segment's byte, Σ bit[k]·2^(7−k). */
    method GetBytes() returns (bytes: array<byte>)
      ensures fresh(bytes)
      ensures bytes[..] == BytesOf(bits[..])
    {
      var bitmap := GetSegments();
      bytes := new byte[bitmap.Length](_ => 0);
      for i := 0 to bitmap.Length
        invariant forall m :: 0 <= m < i ==> bytes[m] == BytesOf(bits[..])[m]
        modifies bytes
      {
        var b := SegmentByte(bitmap[i]);
        assert bitmap[i][..] == Segment(bits[..], i);
        assert b == BytesOf(bits[..])[i];
        bytes[i] := b;
      }
    }

    /** The inner loop of `GetBytes`: walks the segment with `k` rising and the
        exponent `j` falling, adding bit[k]·2^j into a `byte` (whose
        wrap-around never happens, as the sum stays below 256). */
    static method SegmentByte(segment: array<Bit>) returns (b: byte)
      requires segment.Length == BITS_PER_BYTE
      ensures b == ByteValue(segment[..])
    {
      b := 0;
      var k := 0;
      var j := segment.Length - 1;
      while j >= 0
        invariant -1 <= j < segment.Length && k + j == segment.Length - 1
        invariant b as nat == Accumulate(segment[..], k)
      {
        AccumulateBound(segment[..], k + 1);
        var value := ToInt(segment[k]);
        var bitValue := value as int * Pow2(j);
        b := ((b as int + bitValue) % 0x100) as byte;
        k := k + 1;
        j := j - 1;
      }
    }

    // ---------------------------------------------------------------
    // Equality and hashing
    // ---------------------------------------------------------------

    /** `GetHashCode`: collects the hash of every enumerated bit (the snapshot),
        then the width, and XORs the collected values together. */
    method GetHashCode(boolHash: bool -> bv32) returns (result: bv32)
      ensures result == HashOf(list, size, boolHash)
    {
      var hashList: seq<bv32> := [];
      for i := 0 to |list|
        invariant hashList == BitHashes(list[..i], boolHash)
      {
        assert list[..i + 1] == list[..i] + [list[i]];
        BitHashesAppend(list[..i], [list[i]], boolHash);
        hashList := hashList + [HashCode(list[i], boolHash)];
      }
      assert list[..|list|] == list;
      hashList := hashList + [size as bv32];
      result := 0;
      for i := 0 to |hashList|
        invariant result == XorFold(hashList[..i])
      {
        assert hashList[..i + 1] == hashList[..i] + [hashList[i]];
        XorFoldSnoc(hashList[..i], hashList[i]);
        result := result ^ hashList[i];
      }
      assert hashList[..|hashList|] == hashList;
    }

    /** `Equals(BitArray<T>)`: compares the two hash codes, nothing else. */
    method Equals(other: BitArray, boolHash: bool -> bv32) returns (r: bool)
      requires other.size == size
      ensures r <==> HashOf(list, size, boolHash) == HashOf(other.list, other.size, boolHash)
    {
      var mine := GetHashCode(boolHash);
      var theirs := other.GetHashCode(boolHash);
      r := mine == theirs;
    }

    /** `Equals(object)`: `obj` is null when the object is not a `BitArray<T>`. */
    method EqualsObject(obj: BitArray?, boolHash: bool -> bv32) returns (r: bool)
      requires obj != null ==> obj.size == size
      ensures r <==> obj != null && HashOf(list, size, boolHash) == HashOf(obj.list, obj.size, boolHash)
    {
      if obj == null {
        r := false;
      } else {
        r := Equals(obj, boolHash);
      }
    }

    /** `==`: `left.Equals(right)`. */
    static method OpEquals(left: BitArray, right: BitArray, boolHash: bool -> bv32) returns (r: bool)
      requires left.size == right.size
      ensures r <==> HashOf(left.list, left.size, boolHash) == HashOf(right.list, right.size, boolHash)
    {
      r := left.Equals(right, boolHash);
    }

    /** `!=`: the negation of `==`. */
    static method OpNotEquals(left: BitArray, right: BitArray, boolHash: bool -> bv32) returns (r: bool)
      requires left.size == right.size
      ensures r <==> HashOf(left.list, left.size, boolHash) != HashOf(right.list, right.size, boolHash)
    {
      var eq := OpEquals(left, right, boolHash);
      r := !eq;
    }

    /** Positional comparison of the enumerated bits: what `Equals` is meant to
        decide, and which the hash comparison only approximates. */
    method SequenceEquals(other: BitArray) returns (r: bool)
      requires other.size == size
      ensures r <==> list == other.list
    {
      if |list| != |other.list| {
        return false;
      }
      r := true;
      var i := 0;
      while i < |list|
        invariant 0 <= i <= |list|
        invariant r <==> list[..i] == other.list[..i]
      {
        assert list[..i + 1] == list[..i] + [list[i]];
        assert other.list[..i + 1] == other.list[..i] + [other.list[i]];
        r := r && list[i] == other.list[i];
        i := i + 1;
      }
      assert list[..i] == list && other.list[..i] == other.list;
    }

    // ---------------------------------------------------------------
    // Text
    // ---------------------------------------------------------------

    /** `ToString()`: the digits of the enumerated bits (the snapshot). */
    function ToString(): (s: string)
      ensures |s| == |list|
      ensures forall k :: 0 <= k < |list| ==> s[k] == (if list[k].value then '1' else '0')
    {
      Digits(list)
    }

    /** `ToString(bool)`: segmented, each segment of the live array wrapped in
        its own `BitArray<T>` and rendered as eight digits and a space;
        otherwise `ToString()`. */
    method ToStringSegmented(segmented: bool) returns (s: string)
      ensures segmented ==> s == SegmentedDigits(bits[..], SegmentCount(bits[..]))
      ensures !segmented ==> s == ToString()
    {
      if segmented {
        var sb: string := "";
        var segments := GetSegments();
        for i := 0 to segments.Length
          invariant sb == SegmentedDigits(bits[..], i)
          modifies {}
        {
          var segment := new BitArray.FromBits(size, segments[i]);
          sb := sb + segment.ToString() + " ";
        }
        return sb;
      }
      return ToString();
    }
  }

  /** A client: the copy shares the live array, so a write through it shows
      in the original's indexer and segmented text, while `ToString()` still
      shows the bits at construction; and `==` holds between 42 and 84. */
  method SharedArrayClient(boolHash: bool -> bv32)
  {
    ByteBitsOf42();
    var a := new BitArray.FromValue(8, [42]);
    assert a.bits[..] == [Zero, Zero, One, Zero, One, Zero, One, Zero];
    var b := new BitArray.Copy(a);
    b.Set(7, One);
    assert a.Get(7) == One;
    assert a.list[7] == Zero;
    assert a.ToString()[7] == '0';
    var text := a.ToStringSegmented(true);
    SegmentedDigitsLayout(a.bits[..], 1, 0, 7);
    assert text[7] == '1' && text[8] == ' ';

    var c := new BitArray.FromValue(8, [84]);
    HashConfuses42And84(boolHash);
    var d := new BitArray.FromValue(8, [42]);
    assert [84 as byte][..0] == [] && [42 as byte][..0] == [];
    assert c.list == ByteBits(84) && d.list == ByteBits(42);
    var same := BitArray.OpEquals(c, d, boolHash);
    assert same;
    var positional := c.SequenceEquals(d);
    assert !positional;

    var bytes := d.GetBytes();
    BytesOfDecompose([42]);
    assert bytes[..] == [42];
  }
}
