/**
 * The fixed-span field layouts of the instruction codec: `FixedLengthUTF8`,
 * `U64` and `I64` (tests/squads_sdk/instruction.ts, with an older copy of
 * `FixedLengthUTF8` in tests/squads_sdk.ts), and the library's `u8`.
 *
 * Each `Write*` function states what one `encode` call does to the buffer;
 * the `Encode*` methods do it in place on an `array<byte>` and are proved to
 * agree with the function. Decoding is pure and reads the buffer only.
 */
module Layout {
  import opened Wrappers
  import opened Bytes
  import opened Errors
  import Utf8

  /** `after` is `before` with exactly `bytes` written at `offset` and nothing else changed. */
  ghost predicate WrittenAt(before: seq<byte>, after: seq<byte>, offset: nat, bytes: seq<byte>) {
    && |after| == |before|
    && offset + |bytes| <= |before|
    && after[offset..offset + |bytes|] == bytes
    && forall i | 0 <= i < |before| && !(offset <= i < offset + |bytes|) :: after[i] == before[i]
  }

  lemma SpliceWritten(buf: seq<byte>, offset: nat, bytes: seq<byte>)
    requires offset + |bytes| <= |buf|
    ensures WrittenAt(buf, Splice(buf, offset, bytes), offset, bytes)
  {
    var r := Splice(buf, offset, bytes);
    assert r[offset..offset + |bytes|] == bytes;
    forall i | 0 <= i < |buf| && !(offset <= i < offset + |bytes|) ensures r[i] == buf[i] {
      if i < offset {
        assert r[i] == buf[..offset][i];
      }
    }
  }

  /**
   * `FixedLengthUTF8(width).encode(src, buf, offset)`: refuses a text whose
   * UTF-8 bytes exceed the width, then refuses a field that would end past the
   * buffer (even when the text itself is shorter), and otherwise copies the
   * text's bytes only, returning their number rather than the width.
   */
  function WriteFixedUtf8(width: nat, src: JsString, buf: seq<byte>, offset: nat): (r: Result<(seq<byte>, nat), Error>)
    ensures r.Ok? <==> |Utf8.Encode(src)| <= width && offset + width <= |buf|
    ensures |Utf8.Encode(src)| > width ==> r == Err(TextTooLong)
    ensures |Utf8.Encode(src)| <= width && offset + width > |buf| ==> r == Err(Overrun)
    ensures r.Ok? ==> r.value.1 == |Utf8.Encode(src)| && |r.value.0| == |buf|
  {
    var srcb := Utf8.Encode(src);
    if width < |srcb| then Err(TextTooLong)
    else if width + offset > |buf| then Err(Overrun)
    else Ok((Splice(buf, offset, srcb), |srcb|))
  }

  /** A successful `FixedLengthUTF8.encode` writes the text's bytes at the offset and leaves every other byte alone. */
  lemma WriteFixedUtf8Writes(width: nat, src: JsString, buf: seq<byte>, offset: nat)
    requires WriteFixedUtf8(width, src, buf, offset).Ok?
    ensures WrittenAt(buf, WriteFixedUtf8(width, src, buf, offset).value.0, offset, Utf8.Encode(src))
  {
    SpliceWritten(buf, offset, Utf8.Encode(src));
  }

  /**
   * The library's `u8` (Node's `writeUInt8`): refuses a value outside 0..255,
   * then a position outside the buffer; writes one byte.
   */
  function WriteU8(n: int, buf: seq<byte>, offset: int): (r: Result<(seq<byte>, nat), Error>)
    ensures r.Ok? <==> 0 <= n < 256 && 0 <= offset < |buf|
    ensures !(0 <= n < 256) ==> r == Err(OutOfRange)
    ensures 0 <= n < 256 && !(0 <= offset < |buf|) ==> r == Err(Overrun)
    ensures r.Ok? ==> r.value.1 == 1 && |r.value.0| == |buf|
  {
    if !(0 <= n < 256) then Err(OutOfRange)
    else if offset < 0 || offset >= |buf| then Err(Overrun)
    else Ok((Splice(buf, offset, [n]), 1))
  }

  /** A successful `u8` encode writes the one byte at the offset and leaves every other byte alone. */
  lemma WriteU8Writes(n: int, buf: seq<byte>, offset: int)
    requires WriteU8(n, buf, offset).Ok?
    ensures 0 <= n < 256 && 0 <= offset
    ensures WrittenAt(buf, WriteU8(n, buf, offset).value.0, offset, [n])
  {
    SpliceWritten(buf, offset, [n]);
  }

  /**
   * `U64.encode`: refuses a negative value first, then a write past the end of
   * the buffer, then (in BN's `toBuffer("le", 8)`) a value wider than 8 bytes;
   * otherwise writes the value's 8 little-endian bytes and returns 8.
   */
  function WriteU64(n: int, buf: seq<byte>, offset: nat): (r: Result<(seq<byte>, nat), Error>)
    ensures r.Ok? <==> 0 <= n < TWO_64 && offset + 8 <= |buf|
    ensures n < 0 ==> r == Err(NegativeValue)
    ensures 0 <= n && offset + 8 > |buf| ==> r == Err(Overrun)
    ensures n >= TWO_64 && offset + 8 <= |buf| ==> r == Err(Overflow)
    ensures r.Ok? ==> r.value.1 == 8 && |r.value.0| == |buf|
  {
    if n < 0 then Err(NegativeValue)
    else if 8 + offset > |buf| then Err(Overrun)
    else if n >= TWO_64 then Err(Overflow)
    else Ok((Splice(buf, offset, LE(n, 8)), 8))
  }

  /** A successful `U64.encode` writes the value's 8 little-endian bytes at the offset and nothing else. */
  lemma WriteU64Writes(n: int, buf: seq<byte>, offset: nat)
    requires WriteU64(n, buf, offset).Ok?
    ensures 0 <= n && WrittenAt(buf, WriteU64(n, buf, offset).value.0, offset, LE(n, 8))
  {
    SpliceWritten(buf, offset, LE(n, 8));
  }

  const TWO_78: int := 0x4000_0000_0000_0000_0000

  /**
   * BN's `toTwos(64)`. A non-negative value is kept as it is. A negative
   * value's magnitude goes through `inotn(64)`, which inverts bits 0-63,
   * clears bits 64-77 and keeps bits 78 and up, and then `iaddn(1)`.
   */
  function ToTwos64(n: int): (t: nat)
    ensures t < TWO_64 <==> I64Encodable(n)
    ensures t < TWO_64 ==> t == n % TWO_64
  {
    if n >= 0 then n
    else
      var m := -n;
      var t := (m / TWO_78) * TWO_78 + (TWO_64 - 1 - m % TWO_64) + 1;
      NegativeTwos(n, m / TWO_78, m % TWO_64);
      t
  }

  /** The values whose `toTwos(64)` fits the 8 bytes `toBuffer("le", 8)` allows. */
  predicate I64Encodable(n: int) {
    if n >= 0 then n < TWO_64 else -TWO_78 < n && n % TWO_64 != 0
  }

  lemma NegativeTwos(n: int, h: int, lo: int)
    requires n < 0 && h == -n / TWO_78 && lo == -n % TWO_64
    ensures h * TWO_78 + TWO_64 - lo < TWO_64 <==> I64Encodable(n)
    ensures h * TWO_78 + TWO_64 - lo < TWO_64 ==> h * TWO_78 + TWO_64 - lo == n % TWO_64
  {
    assert 0 <= lo < TWO_64;
    if h > 0 {
      assert h * TWO_78 >= TWO_78;
      assert -n >= TWO_78;
    } else {
      assert -n < TWO_78;
      if lo != 0 {
        assert n % TWO_64 == TWO_64 - lo by {
          var q := -n / TWO_64;
          assert -n == q * TWO_64 + lo;
          assert n == (-q - 1) * TWO_64 + (TWO_64 - lo);
        }
      } else {
        assert n % TWO_64 == 0 by {
          var q := -n / TWO_64;
          assert n == (-q) * TWO_64;
        }
      }
    }
  }

  /**
   * `I64.encode`: refuses a write past the end of the buffer, then writes the
   * 64-bit two's complement of the value (`toTwos(64)`) when BN's
   * `toBuffer("le", 8)` accepts it, and throws otherwise.
   */
  function WriteI64(n: int, buf: seq<byte>, offset: nat): (r: Result<(seq<byte>, nat), Error>)
    ensures r.Ok? <==> offset + 8 <= |buf| && I64Encodable(n)
    ensures -TWO_64 < n < TWO_64 ==> I64Encodable(n)
    ensures offset + 8 > |buf| ==> r == Err(Overrun)
    ensures offset + 8 <= |buf| && !I64Encodable(n) ==> r == Err(Overflow)
    ensures r.Ok? ==> r.value.1 == 8 && |r.value.0| == |buf|
  {
    if 8 + offset > |buf| then Err(Overrun)
    else if !I64Encodable(n) then Err(Overflow)
    else Ok((Splice(buf, offset, LE(n % TWO_64, 8)), 8))
  }

  /**
   * Below -2^64, `I64.encode` wraps: -(2^64 + 1) is written as eight 0xFF
   * bytes, while -2^64 itself and every value at or below -2^78 are refused.
   */
  lemma I64BelowMinusTwo64(buf: seq<byte>, offset: nat)
    requires offset + 8 <= |buf|
    ensures WriteI64(-TWO_64 - 1, buf, offset).Ok?
    ensures WriteI64(-TWO_64 - 1, buf, offset).value.0[offset..offset + 8] == [255, 255, 255, 255, 255, 255, 255, 255]
    ensures WriteI64(-TWO_64, buf, offset) == Err(Overflow)
    ensures WriteI64(-TWO_78, buf, offset) == Err(Overflow)
  {
    assert (-TWO_64 - 1) % TWO_64 == 0xFFFF_FFFF_FFFF_FFFF;
    LEAllOnes();
    SpliceWritten(buf, offset, LE(0xFFFF_FFFF_FFFF_FFFF, 8));
  }

  lemma LEAllOnes()
    ensures LE(0xFFFF_FFFF_FFFF_FFFF, 8) == [255, 255, 255, 255, 255, 255, 255, 255]
  {
    assert LE(0xFF, 1) == [255];
    assert LE(0xFFFF, 2) == [255] + LE(0xFF, 1);
    assert LE(0xFF_FFFF, 3) == [255] + LE(0xFFFF, 2);
    assert LE(0xFFFF_FFFF, 4) == [255] + LE(0xFF_FFFF, 3);
    assert LE(0xFF_FFFF_FFFF, 5) == [255] + LE(0xFFFF_FFFF, 4);
    assert LE(0xFFFF_FFFF_FFFF, 6) == [255] + LE(0xFF_FFFF_FFFF, 5);
    assert LE(0xFF_FFFF_FFFF_FFFF, 7) == [255] + LE(0xFFFF_FFFF_FFFF, 6);
    assert LE(0xFFFF_FFFF_FFFF_FFFF, 8) == [255] + LE(0xFF_FFFF_FFFF_FFFF, 7);
  }

  /** A successful `I64.encode` writes the 8 bytes of the value modulo 2^64 at the offset and nothing else. */
  lemma WriteI64Writes(n: int, buf: seq<byte>, offset: nat)
    requires WriteI64(n, buf, offset).Ok?
    ensures WrittenAt(buf, WriteI64(n, buf, offset).value.0, offset, LE(n % TWO_64, 8))
  {
    SpliceWritten(buf, offset, LE(n % TWO_64, 8));
  }

  /** `FixedLengthUTF8.decode`: exactly `width` bytes from `offset` (fewer at the end of the buffer), nothing stripped. */
  function DecodeFixedUtf8(width: nat, buf: seq<byte>, offset: nat): (r: Option<JsString>)
    ensures r.Some? ==> Utf8.WellFormed(r.value) && Utf8.Encode(r.value) == Slice(buf, offset, offset + width)
  {
    var bytes := Slice(buf, offset, offset + width);
    Utf8.EncodeDecode(bytes);
    Utf8.Decode(bytes)
  }

  /** `U64.decode`: the unsigned value of the 8 little-endian bytes at `offset`. */
  function DecodeU64(buf: seq<byte>, offset: nat): (n: nat)
    ensures n < TWO_64
  {
    var bytes := Slice(buf, offset, offset + 8);
    Pow256Monotonic(|bytes|, 8);
    Pow256Values();
    FromLE(bytes)
  }

  /** `I64.decode`: the 8 little-endian bytes at `offset` read as two's complement (`fromTwos(64)`). */
  function DecodeI64(buf: seq<byte>, offset: nat): (n: int)
    ensures -TWO_63 <= n < TWO_63
  {
    var v := DecodeU64(buf, offset);
    if v >= TWO_63 then v - TWO_64 else v
  }

  /** A text whose UTF-8 bytes fill the field exactly decodes to itself (lone surrogates aside). */
  lemma FixedUtf8RoundTrip(width: nat, s: JsString, buf: seq<byte>, offset: nat)
    requires |Utf8.Encode(s)| == width && offset + width <= |buf|
    ensures WriteFixedUtf8(width, s, buf, offset).Ok?
    ensures DecodeFixedUtf8(width, WriteFixedUtf8(width, s, buf, offset).value.0, offset) == Some(Utf8.Scrub(s))
  {
    Utf8.DecodeEncode(s);
  }

  /** After a successful `FixedLengthUTF8.encode`, the field holds the text's bytes and then what was there before. */
  lemma FixedUtf8Window(width: nat, s: JsString, buf: seq<byte>, offset: nat)
    requires |Utf8.Encode(s)| <= width && offset + width <= |buf|
    ensures WriteFixedUtf8(width, s, buf, offset).Ok?
    ensures Slice(WriteFixedUtf8(width, s, buf, offset).value.0, offset, offset + width)
         == Utf8.Encode(s) + buf[offset + |Utf8.Encode(s)|..offset + width]
  {
    var bytes := Utf8.Encode(s);
    var after := Splice(buf, offset, bytes);
    assert WriteFixedUtf8(width, s, buf, offset).value.0 == after;
    SpliceWindow(buf, offset, bytes, width);
    assert Slice(after, offset, offset + width) == after[offset..offset + width];
  }

  /**
   * A shorter text leaves the rest of the field as it was, and decoding reads
   * that rest too: callers must pad texts to the full width.
   */
  lemma FixedUtf8ShortText(width: nat, s: JsString, buf: seq<byte>, offset: nat)
    requires |Utf8.Encode(s)| < width && offset + width <= |buf|
    ensures WriteFixedUtf8(width, s, buf, offset).Ok?
    ensures DecodeFixedUtf8(width, WriteFixedUtf8(width, s, buf, offset).value.0, offset)
         == Utf8.Decode(Utf8.Encode(s) + buf[offset + |Utf8.Encode(s)|..offset + width])
  {
    FixedUtf8Window(width, s, buf, offset);
  }

  /** `U64` round trip: every value in 0..2^64-1 is read back unchanged. */
  lemma U64RoundTrip(n: int, buf: seq<byte>, offset: nat)
    requires 0 <= n < TWO_64 && offset + 8 <= |buf|
    ensures WriteU64(n, buf, offset).Ok?
    ensures DecodeU64(WriteU64(n, buf, offset).value.0, offset) == n
  {
    Pow256Values();
    FromLEOfLE(n, 8);
  }

  /** `I64` round trip: every value in -2^63..2^63-1 is read back unchanged. */
  lemma I64RoundTrip(n: int, buf: seq<byte>, offset: nat)
    requires -TWO_63 <= n < TWO_63 && offset + 8 <= |buf|
    ensures WriteI64(n, buf, offset).Ok?
    ensures DecodeI64(WriteI64(n, buf, offset).value.0, offset) == n
  {
    assert I64Encodable(n);
    var after := Splice(buf, offset, LE(n % TWO_64, 8));
    assert WriteI64(n, buf, offset) == Ok((after, 8));
    SpliceWritten(buf, offset, LE(n % TWO_64, 8));
    DecodeI64At(after, offset, n);
  }

  /** `I64.encode` does not refuse 2^63..2^64-1: such a value is read back 2^64 lower. */
  lemma I64Wraps(n: int, buf: seq<byte>, offset: nat)
    requires TWO_63 <= n < TWO_64 && offset + 8 <= |buf|
    ensures WriteI64(n, buf, offset).Ok?
    ensures DecodeI64(WriteI64(n, buf, offset).value.0, offset) == n - TWO_64
  {
    var after := Splice(buf, offset, LE(n, 8));
    assert n % TWO_64 == n;
    assert WriteI64(n, buf, offset) == Ok((after, 8));
    SpliceWritten(buf, offset, LE(n, 8));
    DecodeU64At(after, offset, n);
  }

  /** Eight bytes holding an unsigned value read back as that value. */
  lemma DecodeU64At(buf: seq<byte>, offset: nat, n: int)
    requires 0 <= n < TWO_64 && offset + 8 <= |buf| && buf[offset..offset + 8] == LE(n, 8)
    ensures DecodeU64(buf, offset) == n
  {
    Pow256Values();
    FromLEOfLE(n, 8);
  }

  /** Eight bytes holding a signed value's two's complement read back as that value. */
  lemma DecodeI64At(buf: seq<byte>, offset: nat, n: int)
    requires -TWO_63 <= n < TWO_63 && offset + 8 <= |buf| && buf[offset..offset + 8] == LE(n % TWO_64, 8)
    ensures DecodeI64(buf, offset) == n
  {
    Pow256Values();
    FromLEOfLE(n % TWO_64, 8);
  }

  /** What an in-place `encode` returned and left in the buffer agrees with its specification. */
  ghost predicate Performed(r: Result<nat, Error>, after: seq<byte>, before: seq<byte>, spec: Result<(seq<byte>, nat), Error>) {
    match spec
    case Ok((buf, n)) => r == Ok(n) && after == buf
    case Err(e) => r == Err(e) && after == before
  }

  /** `Buffer.copy`: copies `src` into `b` at `offset`. */
  method CopyInto(b: array<byte>, offset: nat, src: seq<byte>)
    requires offset + |src| <= b.Length
    modifies b
    ensures b[..] == Splice(old(b[..]), offset, src)
  {
    var i := 0;
    while i < |src|
      invariant 0 <= i <= |src|
      invariant forall j | 0 <= j < b.Length && !(offset <= j < offset + i) :: b[j] == old(b[j])
      invariant forall j | offset <= j < offset + i :: b[j] == src[j - offset]
    {
      b[offset + i] := src[i];
      i := i + 1;
    }
    assert b[..] == Splice(old(b[..]), offset, src);
  }

  method EncodeFixedUtf8(width: nat, src: JsString, b: array<byte>, offset: nat) returns (r: Result<nat, Error>)
    modifies b
    ensures Performed(r, b[..], old(b[..]), WriteFixedUtf8(width, src, old(b[..]), offset))
  {
    var srcb := Utf8.Encode(src);
    if width < |srcb| {
      return Err(TextTooLong);
    }
    if width + offset > b.Length {
      return Err(Overrun);
    }
    CopyInto(b, offset, srcb);
    return Ok(|srcb|);
  }

  method EncodeU8(n: int, b: array<byte>, offset: int) returns (r: Result<nat, Error>)
    modifies b
    ensures Performed(r, b[..], old(b[..]), WriteU8(n, old(b[..]), offset))
  {
    if !(0 <= n < 256) {
      return Err(OutOfRange);
    }
    if offset < 0 || offset >= b.Length {
      return Err(Overrun);
    }
    CopyInto(b, offset, [n]);
    return Ok(1);
  }

  method EncodeU64(n: int, b: array<byte>, offset: nat) returns (r: Result<nat, Error>)
    modifies b
    ensures Performed(r, b[..], old(b[..]), WriteU64(n, old(b[..]), offset))
  {
    if n < 0 {
      return Err(NegativeValue);
    }
    if 8 + offset > b.Length {
      return Err(Overrun);
    }
    if n >= TWO_64 {
      return Err(Overflow);
    }
    CopyInto(b, offset, LE(n, 8));
    return Ok(8);
  }

  method EncodeI64(n: int, b: array<byte>, offset: nat) returns (r: Result<nat, Error>)
    modifies b
    ensures Performed(r, b[..], old(b[..]), WriteI64(n, old(b[..]), offset))
  {
    if 8 + offset > b.Length {
      return Err(Overrun);
    }
    var twos := ToTwos64(n);
    if twos >= TWO_64 {
      return Err(Overflow);
    }
    CopyInto(b, offset, LE(twos, 8));
    return Ok(8);
  }
}
