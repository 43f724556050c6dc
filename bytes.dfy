/**
 * Fixed-width big-endian integers as they appear on the wire.
 *
 * Two independent encoders are defined here, because the packer has two:
 * `EncodeUint` follows the stream writer (`binary.Write` with
 * `binary.BigEndian`), which emits the most significant bytes first;
 * `PutUint` follows the typed writer (`binary.BigEndian.PutUintN`), which
 * computes every byte by shifting the value right by a multiple of 8.
 * Go's signed types are reinterpreted as unsigned by two's complement,
 * written out explicitly for each encoder.
 */
module Bytes {

  type byte = b: int | 0 <= b < 0x100

  type uint8 = x: int | 0 <= x < 0x100
  type int8 = x: int | -0x80 <= x < 0x80
  type int16 = x: int | -0x8000 <= x < 0x8000
  type int32 = x: int | -0x8000_0000 <= x < 0x8000_0000
  type uint32 = x: int | 0 <= x < 0x1_0000_0000
  type int64 = x: int | -0x8000_0000_0000_0000 <= x < 0x8000_0000_0000_0000
  type uint64 = x: int | 0 <= x < 0x1_0000_0000_0000_0000

  /** 256 to the power n: the number of values an n-byte field can hold. */
  function Pow256(n: nat): (p: nat)
    ensures p >= 1
  {
    if n == 0 then 1 else 256 * Pow256(n - 1)
  }

  lemma Pow256Widths()
    ensures Pow256(1) == 0x100
    ensures Pow256(2) == 0x1_0000
    ensures Pow256(4) == 0x1_0000_0000
    ensures Pow256(8) == 0x1_0000_0000_0000_0000
  {
    assert Pow256(2) == 0x1_0000;
    assert Pow256(4) == 0x1_0000_0000;
  }

  /** The unsigned value of a big-endian byte string (`binary.BigEndian.UintN`). */
  function DecodeUint(s: seq<byte>): (v: nat)
    ensures v < Pow256(|s|)
  {
    if s == [] then 0 else DecodeUint(s[..|s| - 1]) * 256 + s[|s| - 1]
  }

  /**
   * The big-endian encoding of v in `width` bytes, as `binary.Write` emits
   * it; only the low `width` bytes of v are kept.
   */
  function EncodeUint(v: nat, width: nat): (s: seq<byte>)
    ensures |s| == width
  {
    if width == 0 then [] else EncodeUint(v / 256, width - 1) + [v % 256]
  }

  /** Encoding then decoding gives back every value that fits the width. */
  lemma {:induction false} DecodeEncodeUint(v: nat, width: nat)
    requires v < Pow256(width)
    ensures DecodeUint(EncodeUint(v, width)) == v
  {
    if width > 0 {
      DecodeEncodeUint(v / 256, width - 1);
      var s := EncodeUint(v, width);
      assert s[..|s| - 1] == EncodeUint(v / 256, width - 1);
    }
  }

  /** Decoding then encoding gives back the bytes: the encoding is onto. */
  lemma {:induction false} EncodeDecodeUint(s: seq<byte>)
    ensures EncodeUint(DecodeUint(s), |s|) == s
  {
    if s != [] {
      var init := s[..|s| - 1];
      EncodeDecodeUint(init);
      var v := DecodeUint(s);
      assert v / 256 == DecodeUint(init) && v % 256 == s[|s| - 1];
      assert s == init + [s[|s| - 1]];
    }
  }

  /**
   * The typed writer's encoding: byte i of a `width`-byte field is
   * `byte(v >> (8 * (width - 1 - i)))`, i.e. the value shifted right and
   * truncated to 8 bits.
   */
  function PutUint(v: nat, width: nat): (s: seq<byte>)
    ensures |s| == width
    ensures forall i :: 0 <= i < width ==> s[i] == (v / Pow256(width - 1 - i)) % 256
  {
    seq(width, i requires 0 <= i < width => (v / Pow256(width - 1 - i)) % 256)
  }

  lemma MulLeft(x: int, y: int, d: nat)
    requires x <= y
    ensures d * x <= d * y
  {
    assert d * y - d * x == d * (y - x);
  }

  /** Division is determined by any quotient and remainder that fit. */
  lemma DivUnique(a: int, d: nat, q: int, r: int)
    requires d > 0 && a == d * q + r && 0 <= r < d
    ensures a / d == q && a % d == r
  {
    var q', r' := a / d, a % d;
    assert a == d * q' + r' && 0 <= r' < d;
    if q' < q {
      assert d * (q' + 1) == d * q' + d;
      MulLeft(q' + 1, q, d);
    } else if q' > q {
      assert d * (q + 1) == d * q + d;
      MulLeft(q + 1, q', d);
    }
  }

  /** Nested quotient and remainder combine into one division by b * c. */
  lemma DivDivStep(a: nat, b: nat, c: nat, q: nat, r: nat, q2: nat, r2: nat)
    requires a == b * q + r && r < b
    requires q == c * q2 + r2 && r2 < c
    ensures a == (b * c) * q2 + (b * r2 + r) && b * r2 + r < b * c
  {
    assert b * (c * q2 + r2) == b * (c * q2) + b * r2;
    MulLeft(r2, c - 1, b);
    assert b * (c - 1) == b * c - b;
  }

  lemma DivDiv(a: nat, b: nat, c: nat)
    requires b > 0 && c > 0
    ensures a / b / c == a / (b * c)
  {
    var q, r := a / b, a % b;
    var q2, r2 := q / c, q % c;
    DivDivStep(a, b, c, q, r, q2, r2);
    DivUnique(a, b * c, q2, b * r2 + r);
  }

  /**
   * The two unsigned encoders agree on every value and width: the typed
   * writer produces the same bytes as the stream writer.
   */
  lemma {:induction false} PutUintIsEncodeUint(v: nat, width: nat)
    ensures PutUint(v, width) == EncodeUint(v, width)
  {
    if width > 0 {
      PutUintIsEncodeUint(v / 256, width - 1);
      var p, e := PutUint(v, width), EncodeUint(v, width);
      forall i | 0 <= i < width ensures p[i] == e[i] {
        if i == width - 1 {
          assert Pow256(0) == 1;
        } else {
          var k := width - 1 - i;
          calc {
            p[i];
            (v / Pow256(k)) % 256;
            { DivDiv(v, 256, Pow256(k - 1)); }
            (v / 256 / Pow256(k - 1)) % 256;
            PutUint(v / 256, width - 1)[i];
          }
        }
      }
    }
  }

  /** v fits a signed field of `width` bytes. */
  predicate FitsSigned(v: int, width: nat)
  {
    var half := Pow256(width) / 2;
    -half <= v < half
  }

  /** `binary.Write` of a signed value: two's complement written as a case split. */
  function Complement(v: int, width: nat): (u: nat)
    requires FitsSigned(v, width)
    ensures u < Pow256(width)
  {
    if v < 0 then v + Pow256(width) else v
  }

  /** The typed writer's conversion `uintN(v)`: v taken modulo 2^(8 * width). */
  function Wrap(v: int, width: nat): (u: nat)
    ensures u < Pow256(width)
  {
    v % Pow256(width)
  }

  lemma WrapIsComplement(v: int, width: nat)
    requires FitsSigned(v, width)
    ensures Wrap(v, width) == Complement(v, width)
  {
    var p := Pow256(width);
    if v < 0 {
      assert v == p * -1 + (v + p);
      DivUnique(v, p, -1, v + p);
    } else {
      assert v == p * 0 + v;
      DivUnique(v, p, 0, v);
    }
  }

  /** A field of at least one byte has an even number of values, split into two equal halves. */
  lemma Pow256Halves(n: nat)
    ensures n > 0 ==> Pow256(n) == 2 * (Pow256(n) / 2)
  {
    if n > 0 {
      assert Pow256(n) == 2 * (128 * Pow256(n - 1));
    }
  }

  /** The value of a signed big-endian field (`binary.Read` into an intN). */
  function DecodeInt(s: seq<byte>): (v: int)
    ensures s != [] ==> FitsSigned(v, |s|)
  {
    var u, p := DecodeUint(s), Pow256(|s|);
    Pow256Halves(|s|);
    if u >= p / 2 then u - p else u
  }

  function EncodeInt(v: int, width: nat): (s: seq<byte>)
    requires FitsSigned(v, width)
    ensures |s| == width
  {
    EncodeUint(Complement(v, width), width)
  }

  lemma DecodeEncodeInt(v: int, width: nat)
    requires width > 0
    requires FitsSigned(v, width)
    ensures DecodeInt(EncodeInt(v, width)) == v
  {
    var p := Pow256(width);
    assert p == 256 * Pow256(width - 1);
    DecodeEncodeUint(Complement(v, width), width);
  }

  lemma EncodeDecodeInt(s: seq<byte>)
    requires s != []
    ensures EncodeInt(DecodeInt(s), |s|) == s
  {
    var p := Pow256(|s|);
    assert p == 256 * Pow256(|s| - 1);
    EncodeDecodeUint(s);
  }

  /** The typed writer's signed encoding: `PutUintN(b, uintN(v))`. */
  function PutInt(v: int, width: nat): (s: seq<byte>)
    ensures |s| == width
  {
    PutUint(Wrap(v, width), width)
  }

  lemma PutIntIsEncodeInt(v: int, width: nat)
    requires FitsSigned(v, width)
    ensures PutInt(v, width) == EncodeInt(v, width)
  {
    WrapIsComplement(v, width);
    PutUintIsEncodeUint(Complement(v, width), width);
  }

  // The scalar reads of the codec. Each result is the value whose encoding
  // is the bytes read, so nothing is lost by reading a field.

  /** `binary.BigEndian.Uint32`. */
  function Uint32BE(s: seq<byte>): (v: uint32)
    requires |s| == 4
    ensures EncodeUint(v, 4) == s
  {
    EncodeDecodeUint(s);
    Pow256Widths();
    DecodeUint(s)
  }

  /** `binary.BigEndian.Uint64`, and `binary.Read` into a uint64. */
  function Uint64BE(s: seq<byte>): (v: uint64)
    requires |s| == 8
    ensures EncodeUint(v, 8) == s
  {
    EncodeDecodeUint(s);
    Pow256Widths();
    DecodeUint(s)
  }

  /** `binary.Read` into an int64. */
  function Int64BE(s: seq<byte>): (v: int64)
    requires |s| == 8
    ensures FitsSigned(v, 8) && EncodeInt(v, 8) == s
  {
    EncodeDecodeInt(s);
    Pow256Widths();
    DecodeInt(s)
  }

  /** `binary.Read` into an int16. */
  function Int16BE(s: seq<byte>): (v: int16)
    requires |s| == 2
    ensures FitsSigned(v, 2) && EncodeInt(v, 2) == s
  {
    EncodeDecodeInt(s);
    Pow256Widths();
    DecodeInt(s)
  }

  /** Go's conversion `int8(b)` of a byte. */
  function Int8Of(b: byte): (v: int8)
    ensures FitsSigned(v, 1) && EncodeInt(v, 1) == [b]
  {
    EncodeDecodeInt([b]);
    Pow256Widths();
    DecodeInt([b])
  }

  // Every value of a Go integer type fits the width `binary.Write` gives that type.

  lemma Int8Fits(v: int8)
    ensures FitsSigned(v, 1)
  {
    Pow256Widths();
  }

  lemma Int16Fits(v: int16)
    ensures FitsSigned(v, 2)
  {
    Pow256Widths();
  }

  lemma Int32Fits(v: int32)
    ensures FitsSigned(v, 4)
  {
    Pow256Widths();
  }

  lemma Int64Fits(v: int64)
    ensures FitsSigned(v, 8)
  {
    Pow256Widths();
  }

  lemma Uint8Fits(v: uint8)
    ensures v < Pow256(1)
  {
    Pow256Widths();
  }

  lemma Uint64Fits(v: uint64)
    ensures v < Pow256(8)
  {
    Pow256Widths();
  }
}
