/** The meaning of `BitArray<T>`'s operations, stated on sequences of bits: what
    each loop in the class computes, and the laws relating those results
    (byte round trip, rotation round trip, segmentation, hashing). */
module BitSequences {
  import opened Primitives
  import opened Bits

  const BITS_PER_BYTE: nat := 8

  // ------------------------------------------------------------------
  // One byte <-> eight bits
  // ------------------------------------------------------------------

  /** The `n` low binary digits of `v`, least significant first: what the
      division loop of `GetBits(byte)` leaves in its `int[]` (zero once `v` is
      exhausted, as the array starts zeroed). */
  function LsbDigits(v: nat, n: nat): (d: seq<int32>)
    ensures |d| == n
    ensures forall k :: 0 <= k < n ==> d[k] == 0 || d[k] == 1
  {
    if n == 0 then [] else [(v % 2) as int32] + LsbDigits(v / 2, n - 1)
  }

  /** The `n` low bits of `v`, most significant first. */
  function MsbBits(v: nat, n: nat): (s: seq<Bit>)
    ensures |s| == n
  {
    if n == 0 then [] else MsbBits(v / 2, n - 1) + [FromBool(v % 2 == 1)]
  }

  /** The eight bits of one byte, most significant first. */
  function ByteBits(v: byte): (s: seq<Bit>)
    ensures |s| == BITS_PER_BYTE
  {
    MsbBits(v as nat, BITS_PER_BYTE)
  }

  lemma {:induction false} LsbDigitsOfZero(n: nat)
    ensures forall k :: 0 <= k < n ==> LsbDigits(0, n)[k] == 0
  {
    if n > 0 {
      LsbDigitsOfZero(n - 1);
      assert forall k :: 1 <= k < n ==> LsbDigits(0, n)[k] == LsbDigits(0, n - 1)[k - 1];
    }
  }

  /** One step of the division loop: the next digit is `v % 2`, and the
      remaining digits are those of `v / 2`. */
  lemma LsbDigitsStep(all: seq<int32>, i: nat, v: nat, n: nat)
    requires i < |all| && 0 < n && all[i..] == LsbDigits(v, n)
    ensures all[i] == (v % 2) as int32 && all[i + 1..] == LsbDigits(v / 2, n - 1)
  {
    assert all[i] == all[i..][0];
    assert all[i + 1..] == all[i..][1..];
  }

  /** Reversing the least-significant-first digits gives the
      most-significant-first bits. */
  lemma {:induction false} MsbBitsAreReversedLsbDigits(v: nat, n: nat, k: nat)
    requires k < n
    ensures MsbBits(v, n)[n - 1 - k] == FromInt(LsbDigits(v, n)[k]).value
  {
    if k > 0 {
      MsbBitsAreReversedLsbDigits(v / 2, n - 1, k - 1);
    }
  }

  /** The first `k` terms of the byte formula Σ bit[m]·2^(|s|−1−m), in the order
      the `GetBytes` loop adds them. */
  function Accumulate(s: seq<Bit>, k: nat): nat
    requires k <= |s|
  {
    if k == 0 then 0 else Accumulate(s, k - 1) + ToInt(s[k - 1]) as nat * Pow2(|s| - k)
  }

  /** The value of a run of bits read most significant first. */
  function SegmentValue(s: seq<Bit>): nat
  {
    Accumulate(s, |s|)
  }

  /** Each partial sum leaves room for the terms still to come, so eight bits
      never sum past 255. */
  lemma {:induction false} AccumulateBound(s: seq<Bit>, k: nat)
    requires k <= |s|
    ensures Accumulate(s, k) + Pow2(|s| - k) <= Pow2(|s|)
  {
    if k > 0 {
      AccumulateBound(s, k - 1);
      assert Pow2(|s| - k + 1) == 2 * Pow2(|s| - k);
    }
  }

  lemma {:induction false} AccumulateAppend(s: seq<Bit>, x: Bit, k: nat)
    requires k <= |s|
    ensures Accumulate(s + [x], k) == 2 * Accumulate(s, k)
  {
    if k > 0 {
      AccumulateAppend(s, x, k - 1);
      assert (s + [x])[k - 1] == s[k - 1];
      assert Pow2(|s| + 1 - k) == 2 * Pow2(|s| - k);
    }
  }

  lemma SegmentValueAppend(s: seq<Bit>, x: Bit)
    ensures SegmentValue(s + [x]) == 2 * SegmentValue(s) + ToInt(x) as nat
  {
    AccumulateAppend(s, x, |s|);
    assert (s + [x])[|s|] == x;
  }

  /** Reading back the bits of `v` gives `v`. */
  lemma {:induction false} ValueOfMsbBits(v: nat, n: nat)
    requires v < Pow2(n)
    ensures SegmentValue(MsbBits(v, n)) == v
  {
    if n > 0 {
      ValueOfMsbBits(v / 2, n - 1);
      SegmentValueAppend(MsbBits(v / 2, n - 1), FromBool(v % 2 == 1));
    }
  }

  /** Decomposing the value of a run of bits gives the bits back. */
  lemma {:induction false} MsbBitsOfValue(s: seq<Bit>)
    ensures MsbBits(SegmentValue(s), |s|) == s
  {
    if s != [] {
      var init, x := s[..|s| - 1], s[|s| - 1];
      assert s == init + [x];
      SegmentValueAppend(init, x);
      MsbBitsOfValue(init);
      var v := SegmentValue(s);
      assert v / 2 == SegmentValue(init) && (v % 2 == 1) == x.value;
    }
  }

  /** The byte a segment of eight bits stands for. */
  function ByteValue(segment: seq<Bit>): (b: byte)
    requires |segment| == BITS_PER_BYTE
    ensures b as nat == SegmentValue(segment)
  {
    AccumulateBound(segment, |segment|);
    SegmentValue(segment) as byte
  }

  lemma ByteRoundTrip(v: byte)
    ensures ByteValue(ByteBits(v)) == v
  {
    ValueOfMsbBits(v as nat, BITS_PER_BYTE);
  }

  lemma SegmentRoundTrip(segment: seq<Bit>)
    requires |segment| == BITS_PER_BYTE
    ensures ByteBits(ByteValue(segment)) == segment
  {
    MsbBitsOfValue(segment);
  }

  /** Byte 42 decomposes to 0,0,1,0,1,0,1,0. */
  lemma ByteBitsOf42()
    ensures ByteBits(42) == [Zero, Zero, One, Zero, One, Zero, One, Zero]
  {
    assert MsbBits(0, 2) == [Zero, Zero];
    assert MsbBits(1, 3) == [Zero, Zero, One];
    assert MsbBits(2, 4) == [Zero, Zero, One, Zero];
    assert MsbBits(5, 5) == [Zero, Zero, One, Zero, One];
    assert MsbBits(10, 6) == [Zero, Zero, One, Zero, One, Zero];
    assert MsbBits(21, 7) == [Zero, Zero, One, Zero, One, Zero, One];
  }

  // ------------------------------------------------------------------
  // A value's bytes <-> its bits
  // ------------------------------------------------------------------

  /** The bits of a value whose raw bytes are `bytes`: each byte's eight bits,
      most significant first, bytes in order. */
  function Decompose(bytes: seq<byte>): (s: seq<Bit>)
    ensures |s| == BITS_PER_BYTE * |bytes|
  {
    if bytes == [] then [] else Decompose(bytes[..|bytes| - 1]) + ByteBits(bytes[|bytes| - 1])
  }

  /** Bits 8i..8i+7 of the decomposition are byte i's bits. */
  lemma {:induction false} DecomposeAt(bytes: seq<byte>, i: nat)
    requires i < |bytes|
    ensures Decompose(bytes)[8 * i .. 8 * i + 8] == ByteBits(bytes[i])
  {
    var n := |bytes|;
    if i < n - 1 {
      DecomposeAt(bytes[..n - 1], i);
      assert bytes[..n - 1][i] == bytes[i];
      assert Decompose(bytes)[8 * i .. 8 * i + 8] == Decompose(bytes[..n - 1])[8 * i .. 8 * i + 8];
    }
  }

  // ------------------------------------------------------------------
  // Segments
  // ------------------------------------------------------------------

  /** Segment `i`: bits 8i..8i+7. */
  function Segment(s: seq<Bit>, i: nat): (segment: seq<Bit>)
    requires BITS_PER_BYTE * i + BITS_PER_BYTE <= |s|
    ensures |segment| == BITS_PER_BYTE
  {
    s[BITS_PER_BYTE * i .. BITS_PER_BYTE * i + BITS_PER_BYTE]
  }

  /** The number of whole segments; trailing bits beyond the last multiple of
      eight belong to none. */
  function SegmentCount(s: seq<Bit>): nat
  {
    |s| / BITS_PER_BYTE
  }

  function Segments(s: seq<Bit>): (segments: seq<seq<Bit>>)
    ensures |segments| == SegmentCount(s)
  {
    seq(SegmentCount(s), i requires 0 <= i < SegmentCount(s) => Segment(s, i))
  }

  function Flatten(segments: seq<seq<Bit>>): seq<Bit>
  {
    if segments == [] then [] else Flatten(segments[..|segments| - 1]) + segments[|segments| - 1]
  }

  /** Concatenating the segments gives the bits up to the last whole byte. */
  lemma FlattenSegments(s: seq<Bit>)
    ensures Flatten(Segments(s)) == s[..BITS_PER_BYTE * SegmentCount(s)]
  {
    FlattenSegmentsPrefix(s, SegmentCount(s));
    assert Segments(s)[..SegmentCount(s)] == Segments(s);
  }

  lemma {:induction false} FlattenSegmentsPrefix(s: seq<Bit>, c: nat)
    requires c <= SegmentCount(s)
    ensures Flatten(Segments(s)[..c]) == s[..BITS_PER_BYTE * c]
  {
    if c > 0 {
      FlattenSegmentsPrefix(s, c - 1);
      assert Segments(s)[..c][..c - 1] == Segments(s)[..c - 1];
      assert s[..BITS_PER_BYTE * c] == s[..BITS_PER_BYTE * (c - 1)] + Segment(s, c - 1);
    }
  }

  /** `GetBytes`: the byte value of every whole segment. */
  function BytesOf(s: seq<Bit>): (bytes: seq<byte>)
    ensures |bytes| == SegmentCount(s)
  {
    seq(SegmentCount(s), i requires 0 <= i < SegmentCount(s) => ByteValue(Segment(s, i)))
  }

  /** Recomposing the bytes of a decomposed value gives the same bytes. */
  lemma BytesOfDecompose(bytes: seq<byte>)
    ensures BytesOf(Decompose(bytes)) == bytes
  {
    var s := Decompose(bytes);
    forall i | 0 <= i < |bytes|
      ensures BytesOf(s)[i] == bytes[i]
    {
      DecomposeAt(bytes, i);
      ByteRoundTrip(bytes[i]);
    }
  }

  /** Decomposing the bytes of a whole number of segments gives the bits back. */
  lemma DecomposeBytesOf(s: seq<Bit>)
    requires |s| % BITS_PER_BYTE == 0
    ensures Decompose(BytesOf(s)) == s
  {
    var bytes := BytesOf(s);
    var d := Decompose(bytes);
    forall i | 0 <= i < |bytes|
      ensures d[8 * i .. 8 * i + 8] == s[8 * i .. 8 * i + 8]
    {
      DecomposeAt(bytes, i);
      SegmentRoundTrip(Segment(s, i));
    }
    forall k | 0 <= k < |s|
      ensures d[k] == s[k]
    {
      var i := k / 8;
      assert d[8 * i .. 8 * i + 8][k - 8 * i] == s[8 * i .. 8 * i + 8][k - 8 * i];
    }
  }

  // ------------------------------------------------------------------
  // Elementwise operators
  // ------------------------------------------------------------------

  /** `&`: as long as the left operand. */
  function AndBits(left: seq<Bit>, right: seq<Bit>): (r: seq<Bit>)
    requires |left| <= |right|
    ensures |r| == |left|
  {
    seq(|left|, i requires 0 <= i < |left| => And(left[i], right[i]))
  }

  /** `|`: as long as the left operand. */
  function OrBits(left: seq<Bit>, right: seq<Bit>): (r: seq<Bit>)
    requires |left| <= |right|
    ensures |r| == |left|
  {
    seq(|left|, i requires 0 <= i < |left| => Or(left[i], right[i]))
  }

  /** `^`: the first `n` positions. */
  function XorBits(left: seq<Bit>, right: seq<Bit>, n: nat): (r: seq<Bit>)
    requires n <= |left| && n <= |right|
    ensures |r| == n
  {
    seq(n, i requires 0 <= i < n => Xor(left[i], right[i]))
  }

  /** `~` (and `!`): the first `n` positions complemented. */
  function Complement(s: seq<Bit>, n: nat): (r: seq<Bit>)
    requires n <= |s|
    ensures |r| == n
  {
    seq(n, i requires 0 <= i < n => Not(s[i]))
  }

  function Repeat(b: Bit, n: nat): (r: seq<Bit>)
    ensures |r| == n
  {
    seq(n, _ => b)
  }

  lemma ComplementInvolutive(s: seq<Bit>)
    ensures Complement(Complement(s, |s|), |s|) == s
  {
    forall i | 0 <= i < |s|
      ensures Complement(Complement(s, |s|), |s|)[i] == s[i]
    {
      NotInvolutive(s[i]);
    }
  }

  lemma XorSelfIsZero(s: seq<Bit>)
    ensures XorBits(s, s, |s|) == Repeat(Zero, |s|)
  {
  }

  lemma AndAllOnesIsIdentity(s: seq<Bit>)
    ensures AndBits(s, Repeat(One, |s|)) == s
  {
    forall i | 0 <= i < |s|
      ensures AndBits(s, Repeat(One, |s|))[i] == s[i]
    {
      assert ToInt(And(s[i], One)) == ToInt(s[i]);
    }
  }

  lemma OrAllZerosIsIdentity(s: seq<Bit>)
    ensures OrBits(s, Repeat(Zero, |s|)) == s
  {
    forall i | 0 <= i < |s|
      ensures OrBits(s, Repeat(Zero, |s|))[i] == s[i]
    {
      assert ToInt(Or(s[i], Zero)) == ToInt(s[i]);
    }
  }

  /** 42 & 24 == 8, bit by bit. */
  lemma AndOf42And24()
    ensures AndBits(ByteBits(42), ByteBits(24)) == ByteBits(8)
  {
    ByteBitsOf42();
    assert MsbBits(0, 3) == [Zero, Zero, Zero];
    assert MsbBits(1, 4) == [Zero, Zero, Zero, One];
    assert MsbBits(3, 5) == [Zero, Zero, Zero, One, One];
    assert MsbBits(6, 6) == [Zero, Zero, Zero, One, One, Zero];
    assert MsbBits(12, 7) == [Zero, Zero, Zero, One, One, Zero, Zero];
    assert MsbBits(0, 4) == [Zero, Zero, Zero, Zero];
    assert MsbBits(1, 5) == [Zero, Zero, Zero, Zero, One];
    assert MsbBits(2, 6) == [Zero, Zero, Zero, Zero, One, Zero];
    assert MsbBits(4, 7) == [Zero, Zero, Zero, Zero, One, Zero, Zero];
  }

  // ------------------------------------------------------------------
  // Rotations (the source's "shift" operators)
  // ------------------------------------------------------------------

  /** `<<`: position i takes the bit `shift` places further on, wrapping. */
  function RotateLeft(s: seq<Bit>, n: nat, shift: nat): (r: seq<Bit>)
    requires 0 < n <= |s|
    ensures |r| == n
  {
    seq(n, i requires 0 <= i < n => s[(i + shift) % n])
  }

  /** `>>`: position i takes the bit `shift` places back, wrapping; `shift` may be
      negative but not above `n`, so the dividend is never negative. */
  function RotateRight(s: seq<Bit>, n: nat, shift: int): (r: seq<Bit>)
    requires 0 < n <= |s| && shift <= n
    ensures |r| == n
  {
    seq(n, i requires 0 <= i < n => s[(i + n - shift) % n])
  }

  /** A dividend below twice the divisor wraps at most once. */
  lemma WrapOnce(a: int, n: int)
    requires 0 < n && 0 <= a < 2 * n
    ensures a % n == if a < n then a else a - n
  {
    if a < n {
      assert a == n * 0 + a;
    } else {
      assert a == n * 1 + (a - n);
    }
  }

  lemma RotateRightUndoesRotateLeft(s: seq<Bit>, shift: nat)
    requires 0 < |s| && shift <= |s|
    ensures RotateRight(RotateLeft(s, |s|, shift), |s|, shift) == s
  {
    var n := |s|;
    forall i | 0 <= i < n
      ensures RotateRight(RotateLeft(s, n, shift), n, shift)[i] == s[i]
    {
      var j := i + n - shift;
      WrapOnce(j, n);
      WrapOnce(j % n + shift, n);
    }
  }

  lemma RotateLeftUndoesRotateRight(s: seq<Bit>, shift: nat)
    requires 0 < |s| && shift <= |s|
    ensures RotateLeft(RotateRight(s, |s|, shift), |s|, shift) == s
  {
    var n := |s|;
    forall i | 0 <= i < n
      ensures RotateLeft(RotateRight(s, n, shift), n, shift)[i] == s[i]
    {
      WrapOnce(i + shift, n);
      WrapOnce((i + shift) % n + n - shift, n);
    }
  }

  lemma RotateByZeroOrWidth(s: seq<Bit>)
    requires 0 < |s|
    ensures RotateLeft(s, |s|, 0) == s && RotateLeft(s, |s|, |s|) == s
    ensures RotateRight(s, |s|, 0) == s && RotateRight(s, |s|, |s|) == s
  {
    var n := |s|;
    forall i | 0 <= i < n
      ensures RotateLeft(s, n, 0)[i] == s[i] && RotateLeft(s, n, n)[i] == s[i]
      ensures RotateRight(s, n, 0)[i] == s[i] && RotateRight(s, n, n)[i] == s[i]
    {
      WrapOnce(i, n);
      WrapOnce(i + n, n);
    }
  }

  /** A left rotation is the tail followed by the head. */
  lemma RotateLeftIsSplice(s: seq<Bit>, shift: nat)
    requires 0 < |s|
    ensures RotateLeft(s, |s|, shift) == s[shift % |s|..] + s[..shift % |s|]
  {
    var n, k := |s|, shift % |s|;
    forall i | 0 <= i < n
      ensures RotateLeft(s, n, shift)[i] == (s[k..] + s[..k])[i]
    {
      ShiftedWrap(i, shift, n);
    }
  }

  lemma ShiftedWrap(i: nat, shift: nat, n: nat)
    requires 0 <= i < n
    ensures (i + shift) % n == if i < n - shift % n then i + shift % n else i + shift % n - n
  {
    var q := shift / n;
    assert shift == n * q + shift % n;
    assert i + shift == n * q + (i + shift % n);
    WrapOnce(i + shift % n, n);
    ModAddMultiple(i + shift % n, q, n);
  }

  lemma {:induction false} ModAddMultiple(a: nat, q: nat, n: nat)
    requires 0 < n
    ensures (n * q + a) % n == a % n
  {
    if q > 0 {
      ModAddMultiple(a, q - 1, n);
      assert n * q + a == (n * (q - 1) + a) + n;
      ModPlusDivisor(n * (q - 1) + a, n);
    }
  }

  lemma ModPlusDivisor(y: nat, n: nat)
    requires 0 < n
    ensures (y + n) % n == y % n
  {
    var d, e := y / n, (y + n) / n;
    assert y == n * d + y % n;
    assert y + n == n * e + (y + n) % n;
    assert n * (e - d - 1) == y % n - (y + n) % n;
    MultipleOutsideDivisor(n, e - d - 1);
  }

  /** A nonzero multiple of `n` is at least `n` away from 0. */
  lemma MultipleOutsideDivisor(n: int, k: int)
    requires 0 < n
    ensures k >= 1 ==> n * k >= n
    ensures k <= -1 ==> n * k <= -n
  {
    if k >= 1 {
      assert n * k == n * (k - 1) + n;
    } else if k <= -1 {
      assert n * k == n * (k + 1) - n;
    }
  }

  lemma RotateLeftIsPermutation(s: seq<Bit>, shift: nat)
    requires 0 < |s|
    ensures multiset(RotateLeft(s, |s|, shift)) == multiset(s)
  {
    var k := shift % |s|;
    RotateLeftIsSplice(s, shift);
    assert s == s[..k] + s[k..];
  }

  // ------------------------------------------------------------------
  // Digit strings
  // ------------------------------------------------------------------

  /** `string.Join("", bits)`: every bit's `ToString`, in order. */
  function Digits(s: seq<Bit>): (str: string)
    ensures |str| == |s|
    ensures forall k :: 0 <= k < |s| ==> str[k] == (if s[k].value then '1' else '0')
  {
    if s == [] then "" else Digits(s[..|s| - 1]) + Bits.ToString(s[|s| - 1])
  }

  /** The segmented rendering of the first `c` segments: each segment's eight
      digits followed by one space. */
  function SegmentedDigits(s: seq<Bit>, c: nat): (str: string)
    requires c <= SegmentCount(s)
    ensures |str| == 9 * c
  {
    if c == 0 then "" else SegmentedDigits(s, c - 1) + Digits(Segment(s, c - 1)) + " "
  }

  /** Character 9i+j is the digit of bit 8i+j, and character 9i+8 is a space. */
  lemma {:induction false} SegmentedDigitsLayout(s: seq<Bit>, c: nat, i: nat, j: nat)
    requires c <= SegmentCount(s) && i < c && j < BITS_PER_BYTE
    ensures SegmentedDigits(s, c)[9 * i + j] == (if s[8 * i + j].value then '1' else '0')
    ensures SegmentedDigits(s, c)[9 * i + 8] == ' '
  {
    if i < c - 1 {
      SegmentedDigitsLayout(s, c - 1, i, j);
    }
  }

  // ------------------------------------------------------------------
  // Hashing
  // ------------------------------------------------------------------

  function XorFold(hashes: seq<bv32>): bv32
  {
    if hashes == [] then 0 else XorFold(hashes[..|hashes| - 1]) ^ hashes[|hashes| - 1]
  }

  /** The per-bit hashes, in enumeration order. */
  function BitHashes(s: seq<Bit>, boolHash: bool -> bv32): (hs: seq<bv32>)
    ensures |hs| == |s|
  {
    seq(|s|, i requires 0 <= i < |s| => HashCode(s[i], boolHash))
  }

  /** `GetHashCode`: the XOR of the per-bit hashes and of the width. */
  function HashOf(s: seq<Bit>, size: nat, boolHash: bool -> bv32): bv32
    requires size < 0x1_0000_0000
  {
    XorFold(BitHashes(s, boolHash) + [size as bv32])
  }

  lemma {:induction false} XorFoldAppend(a: seq<bv32>, b: seq<bv32>)
    ensures XorFold(a + b) == XorFold(a) ^ XorFold(b)
  {
    if b != [] {
      XorFoldAppend(a, b[..|b| - 1]);
      assert (a + b)[..|a + b| - 1] == a + b[..|b| - 1];
    } else {
      assert a + b == a;
    }
  }

  lemma BitHashesAppend(a: seq<Bit>, b: seq<Bit>, boolHash: bool -> bv32)
    ensures BitHashes(a + b, boolHash) == BitHashes(a, boolHash) + BitHashes(b, boolHash)
  {
  }

  /** Taking one bit out of the fold: the fold of the rest, XOR its hash. */
  lemma XorFoldRemove(t: seq<Bit>, j: nat, boolHash: bool -> bv32)
    requires j < |t|
    ensures XorFold(BitHashes(t, boolHash))
         == HashCode(t[j], boolHash) ^ XorFold(BitHashes(t[..j] + t[j + 1..], boolHash))
  {
    var h := HashCode(t[j], boolHash);
    var front, back := BitHashes(t[..j], boolHash), BitHashes(t[j + 1..], boolHash);
    assert BitHashes(t, boolHash) == (front + [h]) + back by {
      assert t == (t[..j] + [t[j]]) + t[j + 1..];
      BitHashesAppend(t[..j] + [t[j]], t[j + 1..], boolHash);
      BitHashesAppend(t[..j], [t[j]], boolHash);
    }
    assert BitHashes(t[..j] + t[j + 1..], boolHash) == front + back by {
      BitHashesAppend(t[..j], t[j + 1..], boolHash);
    }
    XorFoldAppend(front + [h], back);
    XorFoldSnoc(front, h);
    XorFoldAppend(front, back);
    XorExchange(XorFold(front), h, XorFold(back));
  }

  lemma XorFoldSnoc(a: seq<bv32>, h: bv32)
    ensures XorFold(a + [h]) == XorFold(a) ^ h
  {
    assert (a + [h])[..|a|] == a;
  }

  lemma XorExchange(x: bv32, h: bv32, y: bv32)
    ensures (x ^ h) ^ y == h ^ (x ^ y)
  {
  }

  /** The XOR of the bit hashes does not depend on the order of the bits. */
  lemma {:induction false} BitHashesPermutation(s: seq<Bit>, t: seq<Bit>, boolHash: bool -> bv32)
    requires multiset(s) == multiset(t)
    ensures XorFold(BitHashes(s, boolHash)) == XorFold(BitHashes(t, boolHash))
    decreases |s|
  {
    if s != [] {
      var x := s[0];
      assert x in multiset(t);
      var j :| 0 <= j < |t| && t[j] == x;
      var rest := t[..j] + t[j + 1..];
      assert t == t[..j] + [x] + t[j + 1..];
      assert s == [x] + s[1..];
      assert multiset(s[1..]) == multiset(rest) by {
        assert multiset(t) == multiset(t[..j]) + multiset{x} + multiset(t[j + 1..]);
        assert multiset(s) == multiset{x} + multiset(s[1..]);
        assert multiset(rest) == multiset(t[..j]) + multiset(t[j + 1..]);
        assert multiset(rest) == multiset(t) - multiset{x};
        assert multiset(s[1..]) == multiset(s) - multiset{x};
      }
      BitHashesPermutation(s[1..], rest, boolHash);
      XorFoldRemove(s, 0, boolHash);
      XorFoldRemove(t, j, boolHash);
      assert s[..0] + s[1..] == s[1..];
    } else {
      assert t == [];
    }
  }

  /** Any permutation of the bits leaves the hash unchanged. */
  lemma HashIgnoresOrder(s: seq<Bit>, t: seq<Bit>, size: nat, boolHash: bool -> bv32)
    requires multiset(s) == multiset(t) && size < 0x1_0000_0000
    ensures HashOf(s, size, boolHash) == HashOf(t, size, boolHash)
  {
    BitHashesPermutation(s, t, boolHash);
    XorFoldAppend(BitHashes(s, boolHash), [size as bv32]);
    XorFoldAppend(BitHashes(t, boolHash), [size as bv32]);
  }

  /** `HashOf(s << k) == HashOf(s)`: rotating never changes the hash, so for a
      bit array `x`, `x == (x << k)` holds while `x.list == x.bits[..]` and
      `x.bits.Length == x.size` (after an indexer write the snapshot may differ). */
  lemma RotationKeepsHash(s: seq<Bit>, shift: nat, size: nat, boolHash: bool -> bv32)
    requires 0 < |s| && size < 0x1_0000_0000
    ensures HashOf(RotateLeft(s, |s|, shift), size, boolHash) == HashOf(s, size, boolHash)
  {
    RotateLeftIsPermutation(s, shift);
    HashIgnoresOrder(RotateLeft(s, |s|, shift), s, size, boolHash);
  }

  /** Byte 84 (42 rotated left by one place) decomposes to 0,1,0,1,0,1,0,0. */
  lemma ByteBitsOf84()
    ensures ByteBits(84) == [Zero, One, Zero, One, Zero, One, Zero, Zero]
  {
    assert MsbBits(0, 1) == [Zero];
    assert MsbBits(1, 2) == [Zero, One];
    assert MsbBits(2, 3) == [Zero, One, Zero];
    assert MsbBits(5, 4) == [Zero, One, Zero, One];
    assert MsbBits(10, 5) == [Zero, One, Zero, One, Zero];
    assert MsbBits(21, 6) == [Zero, One, Zero, One, Zero, One];
    assert MsbBits(42, 7) == [Zero, One, Zero, One, Zero, One, Zero];
  }

  /** The bits of 84 are those of 42 in another order. */
  lemma Bits42And84Permuted()
    ensures ByteBits(42) != ByteBits(84)
    ensures multiset(ByteBits(42)) == multiset(ByteBits(84))
  {
    ByteBitsOf42();
    ByteBitsOf84();
    var s, t := ByteBits(42), ByteBits(84);
    assert s[1] != t[1];
    assert t == s[1..] + s[..1];
    assert s == s[..1] + s[1..];
  }

  /** The bits of 42 and of 84 differ but hash alike, whatever the per-bit hash. */
  lemma HashConfuses42And84(boolHash: bool -> bv32)
    ensures ByteBits(42) != ByteBits(84)
    ensures HashOf(ByteBits(42), 8, boolHash) == HashOf(ByteBits(84), 8, boolHash)
  {
    Bits42And84Permuted();
    HashIgnoresOrder(ByteBits(42), ByteBits(84), 8, boolHash);
  }
}
