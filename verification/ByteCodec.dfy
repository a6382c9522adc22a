/** The byte-level codec shared by the network protocol and the files on disk: big-endian
    integers of any width, the variable-length decimal, and length-prefixed blobs.

    Encoders are functions from values to bytes. Decoders take the bytes still to be read and
    return the value together with the bytes they leave. */
module ByteCodec {

  type Byte = x: int | 0 <= x < 256
  type Bytes = seq<Byte>

  type i8 = x: int | -0x80 <= x < 0x80
  type i16 = x: int | -0x8000 <= x < 0x8000
  type i32 = x: int | -0x8000_0000 <= x < 0x8000_0000
  type i64 = x: int | -0x8000_0000_0000_0000 <= x < 0x8000_0000_0000_0000

  /** The outcome of reading a value from the front of some bytes. */
  datatype Parse<+T> = Fail | Got(value: T, rest: Bytes)

  datatype Option<+T> = None | Some(value: T)

  /** Rust's `as i8`, `as i32` and `as i64`: keep the low bits and reinterpret the sign. */
  function Signed8(b: Byte): i8 { if b < 0x80 then b else b - 0x100 }

  function AsI32(v: int): i32 {
    var low := v % 0x1_0000_0000;
    if low < 0x8000_0000 then low else low - 0x1_0000_0000
  }

  function AsI64(v: int): i64 {
    var low := v % 0x1_0000_0000_0000_0000;
    if low < 0x8000_0000_0000_0000 then low else low - 0x1_0000_0000_0000_0000
  }

  /** `as usize` of a signed number. */
  function AsUsize(n: i64): nat { if n < 0 then n + 0x1_0000_0000_0000_0000 else n }

  /** `reverse` of a list. */
  function Reversed<T>(s: seq<T>): (r: seq<T>)
    ensures |r| == |s|
  {
    if s == [] then [] else Reversed(s[1..]) + [s[0]]
  }

  // ---------- big-endian integers ----------

  /** The low n bytes of v in two's complement, most significant first (`to_be_bytes`). */
  function ToBE(v: int, n: nat): (s: Bytes)
    ensures |s| == n
    decreases n, v  // v keeps the solver from unrolling ToBE at every literal width
  {
    if n == 0 then [] else ToBE(v / 256, n - 1) + [v % 256]
  }

  /** Unsigned reading of big-endian bytes. */
  function FromBE(s: Bytes): nat {
    if s == [] then 0 else FromBE(s[..|s| - 1]) * 256 + s[|s| - 1]
  }

  /** Signed reading of big-endian bytes: the first byte carries the sign (`from_be_bytes`). */
  function SignedBE(s: Bytes): int
    requires s != []
  {
    if |s| == 1 then Signed8(s[0]) else SignedBE(s[..|s| - 1]) * 256 + s[|s| - 1]
  }

  /** 256^n, the number of values n bytes can hold. */
  function Pow256(n: nat): (p: nat)
    ensures p > 0
  {
    if n == 0 then 1 else 256 * Pow256(n - 1)
  }

  /** v fits in n bytes of two's complement. */
  predicate FitsSigned(v: int, n: nat)
    requires n > 0
  {
    -128 * Pow256(n - 1) <= v < 128 * Pow256(n - 1)
  }

  lemma {:induction false} FromToBE(v: nat, n: nat)
    requires v < Pow256(n)
    ensures FromBE(ToBE(v, n)) == v
  {
    if n > 0 {
      FromToBE(v / 256, n - 1);
      assert ToBE(v, n)[..n - 1] == ToBE(v / 256, n - 1);
    }
  }

  lemma {:induction false} ToFromBE(s: Bytes)
    ensures FromBE(s) < Pow256(|s|) && ToBE(FromBE(s), |s|) == s
  {
    if s != [] {
      ToFromBE(s[..|s| - 1]);
    }
  }

  /** Sign extension is right at every width: reading back n bytes gives v whenever v fits. */
  lemma {:induction false} SignedToBE(v: int, n: nat)
    requires n > 0 && FitsSigned(v, n)
    ensures SignedBE(ToBE(v, n)) == v
    decreases n
  {
    if n == 1 {
      assert ToBE(v, 1) == [v % 256];
    } else {
      SignedToBE(v / 256, n - 1);
      assert ToBE(v, n)[..n - 1] == ToBE(v / 256, n - 1);
    }
  }

  /** What n bytes hold always fits, and is written back as the same bytes. */
  lemma {:induction false} ToSignedBE(s: Bytes)
    requires s != []
    ensures FitsSigned(SignedBE(s), |s|) && ToBE(SignedBE(s), |s|) == s
  {
    if |s| == 1 {
      assert ToBE(SignedBE(s), 1) == [SignedBE(s) % 256];
    } else {
      ToSignedBE(s[..|s| - 1]);
      assert SignedBE(s) / 256 == SignedBE(s[..|s| - 1]);
    }
  }

  /** Two values of n bytes with the same bytes are the same value. */
  lemma SignedToBEInjective(v: int, w: int, n: nat)
    requires n > 0 && FitsSigned(v, n) && FitsSigned(w, n)
    requires ToBE(v, n) == ToBE(w, n)
    ensures v == w
  {
    SignedToBE(v, n);
    SignedToBE(w, n);
  }

  lemma Pow256Values()
    ensures Pow256(1) == 0x100 && Pow256(2) == 0x1_0000 && Pow256(3) == 0x100_0000
    ensures Pow256(4) == 0x1_0000_0000 && Pow256(5) == 0x100_0000_0000
    ensures Pow256(7) == 0x100_0000_0000_0000 && Pow256(8) == 0x1_0000_0000_0000_0000
  {
    assert Pow256(1) == 256 * Pow256(0);
    assert Pow256(2) == 256 * Pow256(1);
    assert Pow256(3) == 256 * Pow256(2);
    assert Pow256(4) == 256 * Pow256(3);
    assert Pow256(5) == 256 * Pow256(4);
    assert Pow256(6) == 256 * Pow256(5);
    assert Pow256(7) == 256 * Pow256(6);
  }

  // ---------- the hand-written 3- and 5-byte integers ----------

  /** `to_bytes3`: three shifted and masked bytes. */
  function ToBytes3(v: int): (s: Bytes)
    ensures |s| == 3
  {
    [(v / 0x1_0000) % 0x100, (v / 0x100) % 0x100, v % 0x100]
  }

  /** `to_bytes5`: five shifted and masked bytes. */
  function ToBytes5(v: int): (s: Bytes)
    ensures |s| == 5
  {
    [(v / 0x1_0000_0000) % 0x100, (v / 0x100_0000) % 0x100, (v / 0x1_0000) % 0x100,
     (v / 0x100) % 0x100, v % 0x100]
  }

  /** `to_int3`: build 32 bits from the three bytes, then shift the sign down. */
  function ToInt3(s: Bytes): int
    requires |s| == 3
  {
    var b0: int, b1: int, b2: int := s[0], s[1], s[2];
    AsI32(b0 * 0x100_0000 + b1 * 0x1_0000 + b2 * 0x100) / 0x100
  }

  /** `to_long5`: the first byte is sign-extended, the rest are or-ed in below it. */
  function ToLong5(s: Bytes): int
    requires |s| == 5
  {
    var b0: int, b1: int, b2: int, b3: int, b4: int := Signed8(s[0]), s[1], s[2], s[3], s[4];
    b0 * 0x1_0000_0000 + b1 * 0x100_0000 + b2 * 0x1_0000 + b3 * 0x100 + b4
  }

  lemma {:induction false} Bytes3AreBigEndian(v: int)
    ensures ToBytes3(v) == ToBE(v, 3)
  {
    ToBEStep(v, 3);
    ToBEStep(v / 256, 2);
    ToBEStep(v / 256 / 256, 1);
    assert ToBE(v / 256 / 256 / 256, 0) == [];
    hide ToBE;
  }

  lemma {:induction false} Bytes5AreBigEndian(v: int)
    ensures ToBytes5(v) == ToBE(v, 5)
  {
    ToBEStep(v, 5);
    ToBEStep(v / 256, 4);
    Bytes3AreBigEndian(v / 256 / 256);
    hide ToBE;
    Quotients(v);
    var w := v / 256 / 256;
    assert w / 0x1_0000 == v / 0x1_0000_0000 && w / 0x100 == v / 0x100_0000;
    assert ToBytes5(v) == ToBytes3(v / 256 / 256) + [(v / 256) % 256] + [v % 256];
  }

  lemma Quotients(v: int)
    ensures v / 0x100 / 0x100 == v / 0x1_0000
    ensures v / 0x1_0000 / 0x100 == v / 0x100_0000
    ensures v / 0x1_0000 / 0x1_0000 == v / 0x1_0000_0000
  {
  }

  lemma ToBEStep(v: int, n: nat)
    requires n > 0
    ensures ToBE(v, n) == ToBE(v / 256, n - 1) + [v % 256]
  {
  }

  lemma {:induction false} Int3IsSigned(s: Bytes)
    requires |s| == 3
    ensures ToInt3(s) == SignedBE(s)
  {
    assert s[..2][..1] == [s[0]];
    assert SignedBE(s[..2]) == Signed8(s[0]) * 256 + s[1];
    assert SignedBE(s) == SignedBE(s[..2]) * 256 + s[2];
  }

  lemma {:induction false} Long5IsSigned(s: Bytes)
    requires |s| == 5
    ensures ToLong5(s) == SignedBE(s)
  {
    assert s[..4][..3] == s[..3] && s[..3][..2] == s[..2] && s[..2][..1] == [s[0]];
    assert SignedBE(s[..2]) == Signed8(s[0]) * 256 + s[1];
    assert SignedBE(s[..3]) == SignedBE(s[..2]) * 256 + s[2];
    assert SignedBE(s[..4]) == SignedBE(s[..3]) * 256 + s[3];
    assert SignedBE(s) == SignedBE(s[..4]) * 256 + s[4];
  }

  /** File positions below 2^39 survive the 5-byte form. */
  lemma Long5RoundTrip(v: int)
    requires -0x80_0000_0000 <= v < 0x80_0000_0000
    ensures ToLong5(ToBytes5(v)) == v
  {
    Bytes5AreBigEndian(v);
    Long5IsSigned(ToBytes5(v));
    Pow256Values();
    SignedToBE(v, 5);
  }

  // ---------- fixed-width fields ----------

  /** Take the first n bytes. */
  function Take(s: Bytes, n: nat): (r: Parse<Bytes>)
    ensures r.Got? <==> n <= |s|
    ensures r.Got? ==> |r.value| == n && s == r.value + r.rest
  {
    if n <= |s| then Got(s[..n], s[n..]) else Fail
  }

  function DecSigned(s: Bytes, n: nat): (r: Parse<int>)
    requires n > 0
    ensures r.Got? ==> FitsSigned(r.value, n) && |r.rest| == |s| - n
  {
    match Take(s, n)
    case Fail => Fail
    case Got(b, rest) => ToSignedBE(b); Got(SignedBE(b), rest)
  }

  function DecUnsigned(s: Bytes, n: nat): (r: Parse<nat>)
    ensures r.Got? ==> r.value < Pow256(n) && |r.rest| == |s| - n
  {
    match Take(s, n)
    case Fail => Fail
    case Got(b, rest) => ToFromBE(b); Got(FromBE(b), rest)
  }

  lemma DecSignedOfEnc(v: int, n: nat, rest: Bytes)
    requires n > 0 && FitsSigned(v, n)
    ensures DecSigned(ToBE(v, n) + rest, n) == Got(v, rest)
  {
    SignedToBE(v, n);
  }

  lemma DecUnsignedOfEnc(v: nat, n: nat, rest: Bytes)
    requires v < Pow256(n)
    ensures DecUnsigned(ToBE(v, n) + rest, n) == Got(v, rest)
  {
    FromToBE(v, n);
  }

  // ---------- variable-length decimals ----------

  /** The fewest of the available widths (0 to 5 and 8 bytes) that hold v. */
  function ShortestWidth(v: int): nat {
    if v == 0 then 0
    else if -0x80 <= v <= 0x7F then 1
    else if -0x8000 <= v <= 0x7FFF then 2
    else if -0x80_0000 <= v <= 0x7F_FFFF then 3
    else if -0x8000_0000 <= v <= 0x7FFF_FFFF then 4
    else if -0x80_0000_0000 <= v <= 0x7F_FFFF_FFFF then 5
    else 8
  }

  /** `write_decimal`: a tag byte giving the width, then that many bytes. */
  function EncDecimal(v: int): (s: Bytes)
    ensures |s| == 1 + ShortestWidth(v)
  {
    [ShortestWidth(v)] + ToBE(v, ShortestWidth(v))
  }

  /** The number of bytes after the tag; every tag other than 0 to 5 is read as 8 bytes. */
  function DecimalWidth(tag: Byte): nat { if tag <= 5 then tag else 8 }

  /** `read_decimal`. */
  function DecDecimal(s: Bytes): (r: Parse<i64>)
    ensures r.Got? ==> |r.rest| < |s|
  {
    Pow256Values();
    if s == [] then Fail
    else if s[0] == 0 then Got(0, s[1..])
    else DecSigned(s[1..], DecimalWidth(s[0]))
  }

  /** Reading a written decimal gives the value back and leaves exactly what followed it. */
  lemma DecimalRoundTrip(v: i64, rest: Bytes)
    ensures DecDecimal(EncDecimal(v) + rest) == Got(v, rest)
  {
    Pow256Values();
    var s := EncDecimal(v) + rest;
    if v != 0 {
      var n := DecimalWidth(s[0]);
      assert s[1..] == ToBE(v, n) + rest;
      DecSignedOfEnc(v, n, rest);
    }
  }

  /** No byte string that reads as v is shorter than the one the writer produces. */
  lemma DecimalIsShortest(v: i64, s: Bytes)
    requires DecDecimal(s) == Got(v, [])
    ensures |EncDecimal(v)| <= |s|
  {
    Pow256Values();
    assert s[0] != 0 ==> FitsSigned(v, DecimalWidth(s[0]));
  }

  // ---------- length-prefixed bytes ----------

  /** `write_blob`: nothing, or a 1-, 3- or 5-byte length header and the bytes. */
  function BlobHeader(n: nat): Bytes {
    if n <= 253 then [n]
    else if n <= 65535 then [255] + ToBE(n, 2)
    else [254] + ToBE(n, 4)
  }

  function EncBlob(v: Bytes): Bytes { BlobHeader(|v|) + v }

  /** `read_blob`. A negative 4-byte length cannot be allocated, so no value is returned. */
  function DecBlob(s: Bytes): (r: Parse<Bytes>)
    ensures r.Got? ==> |r.rest| < |s|
  {
    if s == [] then Fail
    else if s[0] == 0 then Got([], s[1..])
    else if s[0] == 255 then
      match DecUnsigned(s[1..], 2)
      case Fail => Fail
      case Got(n, rest) => Take(rest, n)
    else if s[0] == 254 then
      match DecSigned(s[1..], 4)
      case Fail => Fail
      case Got(n, rest) => if n < 0 then Fail else Take(rest, n)
    else Take(s[1..], s[0])
  }

  /** Blobs round-trip exactly while their length fits the signed 4-byte header. */
  lemma BlobRoundTripIff(v: Bytes, rest: Bytes)
    ensures DecBlob(EncBlob(v) + rest) == Got(v, rest) <==> |v| <= 0x7FFF_FFFF
  {
    Pow256Values();
    if |v| <= 253 {
      InlineBlobRoundTrip(v, rest);
    } else if |v| <= 65535 {
      ShortBlobRoundTrip(v, rest);
    } else {
      LongBlobRoundTrip(v, rest);
    }
  }

  lemma BlobRoundTrip(v: Bytes, rest: Bytes)
    requires |v| <= 0x7FFF_FFFF
    ensures DecBlob(EncBlob(v) + rest) == Got(v, rest)
  {
    BlobRoundTripIff(v, rest);
  }

  lemma InlineBlobRoundTrip(v: Bytes, rest: Bytes)
    requires |v| <= 253
    ensures DecBlob(EncBlob(v) + rest) == Got(v, rest)
  {
    var s := EncBlob(v) + rest;
    assert s[0] == |v| && s[1..] == v + rest;
  }

  lemma ShortBlobRoundTrip(v: Bytes, rest: Bytes)
    requires 253 < |v| <= 65535
    ensures DecBlob(EncBlob(v) + rest) == Got(v, rest)
  {
    hide ToBE, FromBE;
    var s := EncBlob(v) + rest;
    assert s[0] == 255 && s[1..] == ToBE(|v|, 2) + (v + rest);
    Pow256Values();
    DecUnsignedOfEnc(|v|, 2, v + rest);
  }

  lemma LongBlobRoundTrip(v: Bytes, rest: Bytes)
    requires 65535 < |v|
    ensures DecBlob(EncBlob(v) + rest) == Got(v, rest) <==> |v| <= 0x7FFF_FFFF
  {
    var s := EncBlob(v) + rest;
    assert s[0] == 254 && s[1..] == ToBE(|v|, 4) + (v + rest);
    Pow256Values();
    if |v| <= 0x7FFF_FFFF {
      DecSignedOfEnc(|v|, 4, v + rest);
    }
  }

  /** `write_short_bytes`: a 2-byte length (the low 16 bits of it) and the bytes. */
  function EncShortBytes(v: Bytes): Bytes { ToBE(|v|, 2) + v }

  /** `read_short_bytes`: the length is read unsigned. */
  function DecShortBytes(s: Bytes): (r: Parse<Bytes>)
    ensures r.Got? ==> |r.rest| < |s|
  {
    match DecUnsigned(s, 2)
    case Fail => Fail
    case Got(n, rest) => Take(rest, n)
  }

  /** A byte string survives its 2-byte length exactly when it is shorter than 65536. */
  lemma ShortBytesRoundTripIff(v: Bytes, rest: Bytes)
    ensures DecShortBytes(EncShortBytes(v) + rest) == Got(v, rest) <==> |v| <= 0xFFFF
  {
    Pow256Values();
    assert EncShortBytes(v) + rest == ToBE(|v|, 2) + (v + rest);
    if |v| <= 0xFFFF {
      DecUnsignedOfEnc(|v|, 2, v + rest);
    }
  }

  /** A length written as 16 bits and read back signed. */
  lemma LowShort(n: nat)
    ensures SignedBE(ToBE(n, 2)) == if n % 0x1_0000 < 0x8000 then n % 0x1_0000 else n % 0x1_0000 - 0x1_0000
  {
    var s := ToBE(n, 2);
    assert ToBE(n / 256, 1) == ToBE(n / 256 / 256, 0) + [n / 256 % 256];
    assert s == [n / 256 % 256, n % 256];
    assert s[..1] == [n / 256 % 256];
    assert SignedBE(s) == SignedBE(s[..1]) * 256 + s[1];
    assert n % 0x1_0000 == n / 256 % 256 * 256 + n % 256;
  }

  // ---------- reading with more input ----------

  /** A successful read looks only at the bytes it consumes. */
  lemma TakeExtends(s: Bytes, t: Bytes, n: nat)
    requires n <= |s|
    ensures Take(s + t, n) == Got(s[..n], s[n..] + t)
  {
    assert (s + t)[..n] == s[..n] && (s + t)[n..] == s[n..] + t;
  }

  lemma DecimalExtends(s: Bytes, t: Bytes)
    requires DecDecimal(s).Got?
    ensures DecDecimal(s + t) == Got(DecDecimal(s).value, DecDecimal(s).rest + t)
  {
    assert (s + t)[1..] == s[1..] + t;
    if s[0] != 0 {
      TakeExtends(s[1..], t, DecimalWidth(s[0]));
    }
  }

  lemma BlobExtends(s: Bytes, t: Bytes)
    requires DecBlob(s).Got?
    ensures DecBlob(s + t) == Got(DecBlob(s).value, DecBlob(s).rest + t)
  {
    var s1 := s[1..];
    assert (s + t)[1..] == s1 + t;
    if s[0] == 255 {
      TakeExtends(s1, t, 2);
      TakeExtends(s1[2..], t, DecUnsigned(s1, 2).value);
    } else if s[0] == 254 {
      TakeExtends(s1, t, 4);
      TakeExtends(s1[4..], t, DecSigned(s1, 4).value);
    } else if s[0] != 0 {
      TakeExtends(s1, t, s[0]);
    }
  }
}
