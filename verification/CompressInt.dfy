/** The variable-length integer code (db4/common/db_compint.c). */
module CompressInt {
  import opened Bytes

  const CMP_INT_SPARE_VAL: byte := 0xFC
  const TWO32: int := 0x1_0000_0000
  const TWO64: int := 0x1_0000_0000_0000_0000

  /** Smallest value that needs n bytes. */
  function Base(n: nat): nat
    requires 1 <= n <= 9
  {
    match n
    case 1 => 0
    case 2 => 0x80
    case 3 => 0x4080
    case 4 => 0x204080
    case 5 => 0x1020_4080
    case 6 => 0x08_1020_4080
    case 7 => 0x0108_1020_4080
    case 8 => 0x01_0108_1020_4080
    case 9 => 0x0101_0108_1020_4080
  }

  /** Tag bits of the first byte of an n-byte code. */
  function Tag(n: nat): byte
    requires 1 <= n <= 9
  {
    match n
    case 1 => 0
    case 2 => 0x80
    case 3 => 0xC0
    case 4 => 0xE0
    case 5 => 0xF0
    case 6 => 0xF8
    case 7 => 0xF9
    case 8 => 0xFA
    case 9 => 0xFB
  }

  function Pow256(n: nat): (p: nat)
    ensures p > 0
  {
    if n == 0 then 1 else 256 * Pow256(n - 1)
  }

  /** __db_compress_count_int. */
  function CountInt(i: nat): (n: nat)
    ensures 1 <= n <= 9 && Base(n) <= i
  {
    if i <= 0x7F then 1
    else if i <= 0x407F then 2
    else if i <= 0x20_407F then 3
    else if i <= 0x1020_407F then 4
    else if i <= 0x08_1020_407F then 5
    else if i <= 0x0108_1020_407F then 6
    else if i <= 0x01_0108_1020_407F then 7
    else if i <= 0x0101_0108_1020_407F then 8
    else 9
  }

  /** The low n bytes of v, most significant first. */
  function BigEndian(v: nat, n: nat): (s: seq<byte>)
    ensures |s| == n
  {
    if n == 0 then [] else BigEndian(v / 256, n - 1) + [v % 256]
  }

  function FromBigEndian(s: seq<byte>): nat {
    if s == [] then 0 else 256 * FromBigEndian(s[..|s| - 1]) + s[|s| - 1]
  }

  /** __db_compress_int; its argument is a 64-bit integer. */
  function EncodeInt(i: nat): (s: seq<byte>)
    ensures |s| == CountInt(i)
    ensures i < TWO64 ==> s[0] < CMP_INT_SPARE_VAL
  {
    var n := CountInt(i);
    var v := i - Base(n);
    if i < TWO64 then
      FirstByteFits(i);
      [(Tag(n) + v / Pow256(n - 1)) as byte] + BigEndian(v, n - 1)
    else [CMP_INT_SPARE_VAL] + BigEndian(v, n - 1)
  }

  lemma FirstByteFits(i: nat)
    requires i < TWO64
    ensures var n := CountInt(i); var q := (i - Base(n)) / Pow256(n - 1);
            0 <= q && Tag(n) + q < (if n == 9 then CMP_INT_SPARE_VAL else Tag(n + 1)) && (n >= 6 ==> q == 0)
  {
    assert Pow256(0) == 1 && Pow256(1) == 0x100 && Pow256(2) == 0x1_0000 && Pow256(3) == 0x100_0000;
    assert Pow256(4) == 0x1_0000_0000 && Pow256(5) == 0x100_0000_0000;
    assert Pow256(6) == 0x1_0000_0000_0000 && Pow256(7) == 0x100_0000_0000_0000;
    assert Pow256(8) == 0x1_0000_0000_0000_0000;
  }

  /** __db_marshaled_int_size: length of the code starting with byte c, 0xFF if none does. */
  function MarshaledSize(c: byte): (n: nat)
    ensures n >= 1
  {
    if c < 0x80 then 1
    else if c < 0xC0 then 2
    else if c < 0xE0 then 3
    else if c < 0xF0 then 4
    else if c < 0xF8 then 5
    else if c == 0xF8 then 6
    else if c == 0xF9 then 7
    else if c == 0xFA then 8
    else if c == 0xFB then 9
    else 0xFF
  }

  /** __db_decompress_int: the value and the number of bytes read. */
  function DecodeInt(s: seq<byte>): (nat, nat)
    requires s != [] && MarshaledSize(s[0]) <= |s|
  {
    var n := MarshaledSize(s[0]);
    if n > 9 then (0, n)
    else
      var top := if n < 6 then s[0] - Tag(n) else 0;
      ((top * Pow256(n - 1) + FromBigEndian(s[1..n]) + Base(n)) % TWO64, n)
  }

  /** __db_decompress_int32: like DecodeInt in 32 bits; codes of more than five bytes
      are skipped and read as 0. */
  function DecodeInt32(s: seq<byte>): (nat, nat)
    requires s != [] && MarshaledSize(s[0]) <= |s|
  {
    var n := MarshaledSize(s[0]);
    if n > 5 then (0, n)
    else
      var top := if n < 5 then s[0] - Tag(n) else 0;
      ((top * Pow256(n - 1) + FromBigEndian(s[1..n]) + Base(n)) % TWO32, n)
  }

  lemma {:induction false} BigEndianRoundTrip(v: nat, n: nat)
    ensures FromBigEndian(BigEndian(v, n)) == v % Pow256(n)
  {
    if n > 0 {
      BigEndianRoundTrip(v / 256, n - 1);
      var s := BigEndian(v, n);
      assert s[..n - 1] == BigEndian(v / 256, n - 1);
      SplitLowByte(v, Pow256(n - 1));
    }
  }

  lemma SplitLowByte(v: nat, p: nat)
    requires p > 0
    ensures 256 * (v / 256 % p) + v % 256 == v % (256 * p)
  {
    var q, r := v / 256 / p, v / 256 % p;
    assert v / 256 == q * p + r;
    assert v == (256 * p) * q + (256 * r + v % 256);
    assert 0 <= 256 * r + v % 256 < 256 * p;
    DivModUnique(v, 256 * p, q, 256 * r + v % 256);
  }

  lemma DivModUnique(v: nat, d: nat, q: nat, r: nat)
    requires d > 0 && v == d * q + r && r < d
    ensures v / d == q && v % d == r
  {
    var k := q - v / d;
    assert d * k == d * q - d * (v / d) == v % d - r;
    MultipleAtLeast(d, k);
  }

  lemma MultipleAtLeast(d: nat, k: int)
    ensures k >= 1 ==> d * k >= d
    ensures k <= -1 ==> d * k <= -(d as int)
  {
    if k >= 1 {
      assert d * k == d + d * (k - 1);
    } else if k <= -1 {
      assert d * k == -(d as int) + d * (k + 1);
    }
  }

  lemma SizeFromTag(n: nat, c: byte)
    requires 1 <= n <= 9
    requires Tag(n) <= c < (if n == 9 then CMP_INT_SPARE_VAL else Tag(n + 1))
    ensures MarshaledSize(c) == n
  {
  }

  /** What the first byte and the rest of a code say about the value. */
  lemma CodeParts(i: nat, tail: seq<byte>)
    requires i < TWO64
    ensures var n, s := CountInt(i), EncodeInt(i) + tail;
            MarshaledSize(EncodeInt(i)[0]) == MarshaledSize(s[0]) == n <= |s| &&
            s[0] - Tag(n) == (i - Base(n)) / Pow256(n - 1) &&
            (n >= 6 ==> s[0] == Tag(n)) &&
            FromBigEndian(s[1..n]) == (i - Base(n)) % Pow256(n - 1)
  {
    var n, s := CountInt(i), EncodeInt(i);
    var v := i - Base(n);
    FirstByteFits(i);
    SizeFromTag(n, s[0]);
    assert (s + tail)[1..n] == BigEndian(v, n - 1);
    BigEndianRoundTrip(v, n - 1);
  }

  /** The code is self-delimiting: whatever follows it, decoding returns the value and
      consumes exactly the bytes the encoder wrote. */
  lemma IntRoundTrip(i: nat, tail: seq<byte>)
    requires i < TWO64
    ensures DecodeInt(EncodeInt(i) + tail) == (i, CountInt(i))
  {
    hide EncodeInt, FromBigEndian, Pow256, MarshaledSize, DecodeInt;
    CodeParts(i, tail);
    var n := CountInt(i);
    if n >= 6 {
      TopIsZero(i);
    }
    DecodeParts(EncodeInt(i) + tail, n, i - Base(n));
  }

  lemma TopIsZero(i: nat)
    requires i < TWO64 && CountInt(i) >= 6
    ensures (i - Base(CountInt(i))) / Pow256(CountInt(i) - 1) == 0
  {
    FirstByteFits(i);
  }

  /** Decoding bytes that hold the quotient and the remainder of a value. */
  lemma DecodeParts(s: seq<byte>, n: nat, v: nat)
    requires s != [] && MarshaledSize(s[0]) == n <= |s| && n <= 9 && v + Base(n) < TWO64
    requires (if n < 6 then s[0] - Tag(n) else 0) == v / Pow256(n - 1)
    requires FromBigEndian(s[1..n]) == v % Pow256(n - 1)
    ensures DecodeInt(s) == (v + Base(n), n)
    ensures n <= 5 && v + Base(n) < TWO32 && (n == 5 ==> v / Pow256(4) == 0) ==> DecodeInt32(s) == (v + Base(n), n)
  {
    hide FromBigEndian, Pow256, MarshaledSize, Base, Tag;
    var p := Pow256(n - 1);
    Recompose(v, p, v / p, v % p);
  }

  lemma Recompose(v: nat, p: nat, top: int, low: int)
    requires p > 0 && top == v / p && low == v % p
    ensures top * p + low == v
  {
  }

  /** The 32-bit decoder agrees on every 32-bit value. */
  lemma Int32RoundTrip(i: nat, tail: seq<byte>)
    requires i < TWO32
    ensures MarshaledSize(EncodeInt(i)[0]) == CountInt(i) <= 5
    ensures DecodeInt32(EncodeInt(i) + tail) == (i, CountInt(i))
  {
    hide EncodeInt, FromBigEndian, Pow256, MarshaledSize, DecodeInt32;
    CodeParts(i, tail);
    var n := CountInt(i);
    if n == 5 {
      FiveByteTop(i);
    }
    DecodeParts(EncodeInt(i) + tail, n, i - Base(n));
  }

  /** The first byte of a five-byte code of a 32-bit value carries no value bits. */
  lemma FiveByteTop(i: nat)
    requires i < TWO32 && CountInt(i) == 5
    ensures (i - Base(5)) / Pow256(4) == 0
  {
    assert Pow256(4) == 256 * Pow256(3) == 0x1_0000_0000;
  }

  /** The length of the code never falls, grows by at most one per unit, and the code of
      a sum is no longer than the codes of its terms together. */
  lemma CountIntGrowth(a: nat, b: nat)
    ensures CountInt(a) <= CountInt(a + b) <= CountInt(a) + b
    ensures CountInt(a + b) <= CountInt(a) + CountInt(b)
  {
    if a <= b {
      HalfIsEnough(b, a + b);
    } else {
      HalfIsEnough(a, a + b);
    }
    if b == 0 {
    } else if CountInt(a) < CountInt(a + b) {
      SlowGrowth(a, b);
    }
  }

  lemma HalfIsEnough(a: nat, c: nat)
    requires c <= 2 * a
    ensures CountInt(c) <= CountInt(a) + 1
  {
  }

  lemma {:induction false} SlowGrowth(a: nat, b: nat)
    ensures CountInt(a + b) <= CountInt(a) + b
  {
    if 0 < b < 9 {
      SlowGrowth(a, b - 1);
    }
  }

  /** No code is shorter than the one of its value, even if the value wraps around. */
  lemma DecodedSize(s: seq<byte>)
    requires s != [] && MarshaledSize(s[0]) <= |s|
    ensures CountInt(DecodeInt32(s).0) <= DecodeInt32(s).1
  {
    var n := MarshaledSize(s[0]);
    if n <= 4 {
      FromBigEndianBound(s[1..n]);
      assert Pow256(0) == 1 && Pow256(1) == 0x100 && Pow256(2) == 0x1_0000 && Pow256(3) == 0x100_0000;
    }
  }

  lemma {:induction false} FromBigEndianBound(s: seq<byte>)
    ensures FromBigEndian(s) < Pow256(|s|)
  {
    if s != [] {
      FromBigEndianBound(s[..|s| - 1]);
    }
  }
}
