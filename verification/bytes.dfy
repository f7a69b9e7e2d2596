/** Reading unsigned 32-bit big-endian integers out of a byte array, the two
    ways the frame splitter does it: the `BytesToUint` loop and the inline
    shift-and-or expression of its chunk walk. */
module Bytes {
  import opened Common

  const Two32: nat := 0x1_0000_0000

  /** The number the bytes of `s` denote, most significant byte first. */
  function BigEndian(s: seq<byte>): nat
    decreases |s|
  {
    if |s| == 0 then 0 else BigEndian(s[..|s| - 1]) * 256 + s[|s| - 1]
  }

  /** Four big-endian bytes weigh 2^24, 2^16, 2^8 and 1, and so denote a
      value below 2^32. */
  lemma BigEndianFour(s: seq<byte>)
    requires |s| == 4
    ensures BigEndian(s) == s[0] as int * 0x100_0000 + s[1] as int * 0x1_0000 + s[2] as int * 0x100 + s[3] as int
    ensures BigEndian(s) < Two32
  {
    assert s[..3][..2][..1][..0] == [];
    assert BigEndian(s[..3][..2][..1]) == s[0];
    assert BigEndian(s[..3][..2]) == s[0] as int * 256 + s[1] as int;
    assert BigEndian(s[..3]) == (s[0] as int * 256 + s[1] as int) * 256 + s[2] as int;
  }

  /** `1 << shift`. */
  function Pow2(shift: nat): (p: nat)
    ensures p >= 1
    decreases shift
  {
    if shift == 0 then 1 else 2 * Pow2(shift - 1)
  }

  lemma {:induction false} PowAdd(a: nat, b: nat)
    ensures Pow2(a + b) == Pow2(a) * Pow2(b)
    decreases b
  {
    if b > 0 {
      PowAdd(a, b - 1);
      assert Pow2(a + b) == 2 * Pow2(a + b - 1);
    }
  }

  lemma PowValues()
    ensures Pow2(8) == 0x100 && Pow2(16) == 0x1_0000 && Pow2(24) == 0x100_0000 && Pow2(32) == Two32
  {
    assert Pow2(4) == 16;
    PowAdd(4, 4);
    PowAdd(8, 8);
    PowAdd(16, 8);
    PowAdd(16, 16);
  }

  /** A value of `bits` bits is below 2^bits; appending a byte adds 8 bits. */
  lemma AppendByte(s: seq<byte>, b: byte)
    ensures BigEndian(s + [b]) == BigEndian(s) * 256 + b
  {
    assert (s + [b])[..|s|] == s;
  }

  lemma {:induction false} BigEndianBound(s: seq<byte>)
    ensures BigEndian(s) < Pow2(8 * |s|)
    decreases |s|
  {
    if |s| > 0 {
      var p := s[..|s| - 1];
      var big := Pow2(8 * |p|);
      BigEndianBound(p);
      assert s == p + [s[|s| - 1]];
      AppendByte(p, s[|s| - 1]);
      PowAdd(8 * |p|, 8);
      PowValues();
      assert Pow2(8 * |s|) == big * 256;
    }
  }

  lemma MulLess(x: nat, y: nat, z: nat)
    requires x < y && z > 0
    ensures x * z < y * z
  {
  }

  lemma ModSmall(x: nat, m: nat)
    requires x < m
    ensures x % m == x
  {
  }

  lemma MulTwice(a: nat, p: nat)
    ensures a * (2 * p) == 2 * (a * p)
  {
  }

  /** What the `BytesToUint` loop has summed before index `i`: the bytes
      from `offset` as a big-endian number, shifted into the high end of a
      32-bit word; nothing while no byte has been read. */
  function SumSoFar(data: seq<byte>, offset: int, i: int): nat
  {
    if 0 <= offset <= i <= |data| && i - offset <= 4 then BigEndian(data[offset..i]) * Pow2(32 - 8 * (i - offset))
    else 0
  }

  /** One round of the `BytesToUint` loop: adding the next byte, shifted,
      to the value so far appends that byte, and stays below 2^32 while
      the shifts add up to 32 bits. */
  lemma ShiftStep(p: seq<byte>, b: byte, shift: nat)
    requires 8 * (|p| + 1) + shift == 32
    ensures BigEndian(p) * Pow2(shift + 8) + b * Pow2(shift) == BigEndian(p + [b]) * Pow2(shift)
    ensures BigEndian(p + [b]) * Pow2(shift) < Two32
    ensures b * Pow2(shift) < Two32
  {
    var q, v, w := Pow2(shift), BigEndian(p), BigEndian(p + [b]);
    PowAdd(shift, 8);
    PowValues();
    assert Pow2(shift + 8) == q * 256;
    AppendByte(p, b);
    Distrib(v, b, q);
    BigEndianBound(p + [b]);
    PowAdd(8 * (|p| + 1), shift);
    MulLess(w, Pow2(8 * (|p| + 1)), q);
    MulMono(b, w, q);
  }

  lemma Distrib(v: nat, b: nat, q: nat)
    ensures v * (q * 256) + b * q == (v * 256 + b) * q
  {
  }

  /** The `uint` sum of one round of the `BytesToUint` loop, for the byte
      `b` shifted by `shift` bits (`q` is 2^shift). */
  lemma AddShifted(r: nat, p: seq<byte>, b: byte, shift: nat, q: nat, term: nat)
    requires 8 * (|p| + 1) + shift == 32
    requires q == Pow2(shift) && term == (b * q) % Two32
    requires r == BigEndian(p) * Pow2(shift + 8)
    ensures (r + term) % Two32 == BigEndian(p + [b]) * q
  {
    ShiftStep(p, b, shift);
    var x, w := b * q, BigEndian(p + [b]);
    MulNat(b, q);
    SumMod(r, term, x, w * q);
  }

  lemma MulNat(a: nat, c: nat)
    ensures a * c >= 0
  {
  }

  lemma SumMod(r: nat, term: nat, x: int, y: int)
    requires 0 <= x && r + x == y < Two32 && term == x % Two32
    ensures (r + term) % Two32 == y
  {
  }

  /** `BytesToUint(data, offset)`: four bytes from `offset`, the first one
      shifted left by 24, the next by 16, 8 and 0, summed in `uint`
      arithmetic. Each shifted byte is computed as an `int` and cast to
      `uint`, so the model reduces it modulo 2^32 before adding; so is the
      sum. Neither reduction ever changes the value. The array access
      throws at the first index outside `data`: `offset` itself when it is
      negative or past the last byte, otherwise the length of `data` when
      fewer than four bytes remain. */
  method BytesToUint(data: seq<byte>, offset: int) returns (r: Result<nat>)
    ensures 0 <= offset && offset + 4 <= |data| ==>
              r.Success? && r.value == BigEndian(data[offset..offset + 4]) && r.value < Two32
    ensures offset < 0 || |data| <= offset ==> r == Failure(IndexOutOfRange(offset))
    ensures 0 <= offset < |data| < offset + 4 ==> r == Failure(IndexOutOfRange(|data|))
  {
    var sum: nat := 0;
    var i := offset;
    var shift: int := 24;
    while i < offset + 4
      invariant offset <= i <= offset + 4
      invariant shift == 24 - 8 * (i - offset)
      invariant i > offset ==> 0 <= offset && i <= |data|
      invariant sum == SumSoFar(data, offset, i)
    {
      if i < 0 || |data| <= i {
        return Failure(IndexOutOfRange(i));
      }
      sum := AddRound(data, offset, i, shift, sum);
      i := i + 1;
      shift := shift - 8;
    }
    BigEndianFour(data[offset..offset + 4]);
    r := Success(sum);
  }

  /** One round of the `BytesToUint` loop: `data[i] << shift`, cast to
      `uint`, added to the sum of the bytes before it in `uint` arithmetic. */
  function AddRound(data: seq<byte>, offset: nat, i: nat, shift: nat, sum: nat): (next: nat)
    requires offset <= i < |data| && 8 * (i - offset + 1) + shift == 32
    requires sum == SumSoFar(data, offset, i)
    ensures next == SumSoFar(data, offset, i + 1)
  {
    var p, b := data[offset..i], data[i];
    SliceSnoc(data, offset, i);
    var q := Pow2(shift);
    var term := (b * q) % Two32;
    AddShifted(sum, p, b, shift, q, term);
    (sum + term) % Two32
  }

  lemma SliceSnoc(data: seq<byte>, lo: nat, hi: nat)
    requires lo <= hi < |data|
    ensures data[lo..hi + 1] == data[lo..hi] + [data[hi]]
  {
  }

  /** Bitwise or of two non-negative integers, bit by bit from the least
      significant. */
  function BitOr(a: nat, b: nat): nat
    decreases a + b
  {
    if a == 0 then b
    else if b == 0 then a
    else 2 * BitOr(a / 2, b / 2) + (if a % 2 == 1 || b % 2 == 1 then 1 else 0)
  }

  /** `a << k` on unbounded integers: `k` doublings. */
  function Shl(a: nat, k: nat): nat
    decreases k
  {
    if k == 0 then a else 2 * Shl(a, k - 1)
  }

  /** A shift by 8 multiplies by 256. */
  lemma ShlByte(a: nat)
    ensures Shl(a, 8) == a * 256
  {
    ShlAdd(a, 4, 4);
    assert Shl(a, 4) == 16 * a;
    assert Shl(16 * a, 4) == 16 * (16 * a);
  }

  /** Shifting by `j` then by `k` is shifting by `j + k`. */
  lemma {:induction false} ShlAdd(a: nat, j: nat, k: nat)
    ensures Shl(Shl(a, j), k) == Shl(a, j + k)
    decreases k
  {
    if k > 0 {
      ShlAdd(a, j, k - 1);
    }
  }

  /** Or-ing a value below 2^k into a value shifted by k adds it. */
  lemma {:induction false} OrLow(hi: nat, lo: nat, k: nat)
    requires lo < Pow2(k)
    ensures BitOr(Shl(hi, k), lo) == Shl(hi, k) + lo
    decreases k
  {
    if k > 0 && Shl(hi, k) > 0 && lo > 0 {
      var h := Shl(hi, k - 1);
      assert Shl(hi, k) == 2 * h;
      OrLow(hi, lo / 2, k - 1);
    }
  }

  lemma OrDouble(x: nat, y: nat)
    ensures BitOr(2 * x, 2 * y) == 2 * BitOr(x, y)
  {
    if x > 0 && y > 0 {
      assert (2 * x) / 2 == x && (2 * y) / 2 == y;
      assert (2 * x) % 2 == 0 && (2 * y) % 2 == 0;
    }
  }

  /** Or commutes with a common shift. */
  lemma {:induction false} OrScale(a: nat, b: nat, k: nat)
    ensures BitOr(Shl(a, k), Shl(b, k)) == Shl(BitOr(a, b), k)
    decreases k
  {
    if k > 0 {
      OrScale(a, b, k - 1);
      OrDouble(Shl(a, k - 1), Shl(b, k - 1));
    }
  }

  /** Line 42's `(uint)(b0 << 24 | b1 << 16 | b2 << 8 | b3)`, grouped left to
      right as C# parses it. The bytes are promoted to `int` before the
      shift; the cast to `uint` keeps the 32 bits, which the model computes
      unsigned throughout. */
  function InlineBigEndian(b0: byte, b1: byte, b2: byte, b3: byte): nat
  {
    BitOr(BitOr(BitOr(Shl(b0, 24), Shl(b1, 16)), Shl(b2, 8)), b3)
  }

  /** The shifted bytes occupy disjoint bits, so or-ing them adds them: the
      inline expression reads the same number as `BigEndian` and so as
      `BytesToUint`. */
  lemma InlineIsBigEndian(b0: byte, b1: byte, b2: byte, b3: byte)
    ensures InlineBigEndian(b0, b1, b2, b3) == BigEndian([b0, b1, b2, b3])
  {
    var x := Shl(b0, 8) + b1;
    var y := Shl(x, 8) + b2;
    OrsAreShifts(b0, b1, b2, b3, x, y);
    ShlByte(b0);
    ShlByte(x);
    ShlByte(y);
    BigEndianFour([b0, b1, b2, b3]);
  }

  /** Line 42's ors, regrouped as one byte shifted in at a time. */
  lemma OrsAreShifts(b0: byte, b1: byte, b2: byte, b3: byte, x: nat, y: nat)
    requires x == Shl(b0, 8) + b1 && y == Shl(x, 8) + b2
    ensures InlineBigEndian(b0, b1, b2, b3) == Shl(y, 8) + b3
  {
    PowValues();
    // b0 << 24 | b1 << 16 == (b0 << 8 | b1) << 16
    OrShifted(b0, b1, 8, 16, x);
    // ... | b2 << 8 == (x << 8 | b2) << 8
    OrShifted(x, b2, 8, 8, y);
    // ... | b3
    OrLow(y, b3, 8);
  }

  /** `hi << (j + k) | lo << k` is `(hi << j | lo) << k` when `lo` fits in
      `j` bits, and the inner or is a sum. */
  lemma OrShifted(hi: nat, lo: nat, j: nat, k: nat, m: nat)
    requires lo < Pow2(j) && m == Shl(hi, j) + lo
    ensures BitOr(Shl(hi, j + k), Shl(lo, k)) == Shl(m, k)
  {
    ShlAdd(hi, j, k);
    OrScale(Shl(hi, j), lo, k);
    OrLow(hi, lo, j);
  }
}
