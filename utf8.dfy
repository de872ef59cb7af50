/**
 * UTF-8 (RFC 3629) as Node's `Buffer` applies it to JavaScript strings.
 * `Buffer.from(s, "utf8")` walks the UTF-16 code units of `s`: a surrogate
 * pair becomes one four-byte sequence, a lone surrogate becomes the bytes of
 * U+FFFD, and every other unit becomes its one- to three-byte sequence.
 */
module Utf8 {
  import opened Wrappers
  import opened Bytes

  predicate IsHighSurrogate(u: int) { 0xD800 <= u < 0xDC00 }
  predicate IsLowSurrogate(u: int) { 0xDC00 <= u < 0xE000 }
  predicate IsSurrogate(u: int) { 0xD800 <= u < 0xE000 }

  /** A Unicode scalar value: a code point that is not a surrogate. */
  predicate IsScalar(cp: int) { 0 <= cp < 0x11_0000 && !IsSurrogate(cp) }

  /** U+FFFD, substituted for a lone surrogate. */
  const REPLACEMENT: CodeUnit := 0xFFFD

  predicate IsAscii(s: JsString) { forall i | 0 <= i < |s| :: s[i] < 0x80 }

  /** Whether `s` begins with a high surrogate followed by a low surrogate. */
  predicate StartsWithPair(s: JsString) {
    |s| >= 2 && IsHighSurrogate(s[0]) && IsLowSurrogate(s[1])
  }

  /** The code point a surrogate pair stands for. */
  function PairScalar(hi: int, lo: int): (cp: int)
    requires IsHighSurrogate(hi) && IsLowSurrogate(lo)
    ensures IsScalar(cp) && cp >= 0x1_0000
  {
    0x1_0000 + (hi - 0xD800) * 0x400 + (lo - 0xDC00)
  }

  /** The UTF-8 sequence of one code point (RFC 3629, section 3). */
  function EncodeScalar(cp: int): (b: seq<byte>)
    requires 0 <= cp < 0x11_0000
    ensures |b| == (if cp < 0x80 then 1 else if cp < 0x800 then 2 else if cp < 0x1_0000 then 3 else 4)
  {
    if cp < 0x80 then [cp]
    else if cp < 0x800 then [0xC0 + cp / 64, 0x80 + cp % 64]
    else if cp < 0x1_0000 then [0xE0 + cp / 4096, 0x80 + (cp / 64) % 64, 0x80 + cp % 64]
    else [0xF0 + cp / 0x4_0000, 0x80 + (cp / 4096) % 64, 0x80 + (cp / 64) % 64, 0x80 + cp % 64]
  }

  /** `Buffer.from(s, "utf8")`: no bytes exactly for the empty text. */
  function Encode(s: JsString): (b: seq<byte>)
    ensures b == [] <==> s == []
  {
    if s == [] then []
    else if StartsWithPair(s) then EncodeScalar(PairScalar(s[0], s[1])) + Encode(s[2..])
    else if IsSurrogate(s[0]) then EncodeScalar(REPLACEMENT) + Encode(s[1..])
    else EncodeScalar(s[0]) + Encode(s[1..])
  }

  /** `s` with every lone surrogate replaced by U+FFFD: what survives a trip through UTF-8. */
  function Scrub(s: JsString): (r: JsString)
    ensures |r| == |s|
  {
    if s == [] then []
    else if StartsWithPair(s) then s[..2] + Scrub(s[2..])
    else if IsSurrogate(s[0]) then [REPLACEMENT] + Scrub(s[1..])
    else [s[0]] + Scrub(s[1..])
  }

  /** A string without lone surrogates: every surrogate is part of a pair. */
  predicate WellFormed(s: JsString) {
    if s == [] then true
    else if StartsWithPair(s) then WellFormed(s[2..])
    else !IsSurrogate(s[0]) && WellFormed(s[1..])
  }

  predicate IsContinuation(b: byte) { 0x80 <= b < 0xC0 }

  /** The byte at `i` as an integer, or 0 past the end. */
  function At(b: seq<byte>, i: nat): int {
    if i < |b| then b[i] as int else 0
  }

  /**
   * The first code point of `b` and the number of bytes it occupies, when `b`
   * starts with a well-formed UTF-8 sequence: the right lead and continuation
   * bytes, no overlong form, no surrogate, nothing above U+10FFFF.
   */
  function DecodeFirst(b: seq<byte>): (r: Option<(int, nat)>)
    requires b != []
    ensures r.Some? ==> IsScalar(r.value.0) && 1 <= r.value.1 <= |b|
  {
    var b0, b1, b2, b3 := b[0] as int, At(b, 1), At(b, 2), At(b, 3);
    if b0 < 0x80 then Some((b0, 1))
    else if 0xC0 <= b0 < 0xE0 && |b| >= 2 && IsContinuation(b[1]) then
      var cp := (b0 - 0xC0) * 64 + (b1 - 0x80);
      if cp >= 0x80 then Some((cp, 2)) else None
    else if 0xE0 <= b0 < 0xF0 && |b| >= 3 && IsContinuation(b[1]) && IsContinuation(b[2]) then
      var cp := (b0 - 0xE0) * 4096 + (b1 - 0x80) * 64 + (b2 - 0x80);
      if cp >= 0x800 && !IsSurrogate(cp) then Some((cp, 3)) else None
    else if 0xF0 <= b0 < 0xF8 && |b| >= 4 && IsContinuation(b[1]) && IsContinuation(b[2]) && IsContinuation(b[3]) then
      var cp := (b0 - 0xF0) * 0x4_0000 + (b1 - 0x80) * 4096 + (b2 - 0x80) * 64 + (b3 - 0x80);
      if 0x1_0000 <= cp < 0x11_0000 then Some((cp, 4)) else None
    else None
  }

  /** The UTF-16 code units of a scalar value. */
  function ToUnits(cp: int): (u: JsString)
    requires IsScalar(cp)
  {
    if cp < 0x1_0000 then [cp]
    else [0xD800 + (cp - 0x1_0000) / 0x400, 0xDC00 + (cp - 0x1_0000) % 0x400]
  }

  /**
   * `buf.toString("utf-8")` on well-formed input; `None` when the bytes are
   * not well-formed UTF-8.
   */
  function Decode(b: seq<byte>): (r: Option<JsString>)
    decreases |b|
  {
    if b == [] then Some([])
    else match DecodeFirst(b)
      case None => None
      case Some((cp, n)) =>
        match Decode(b[n..])
        case None => None
        case Some(rest) => Some(ToUnits(cp) + rest)
  }

  lemma DecodeFirstOfTwo(cp: int, tail: seq<byte>)
    requires 0x80 <= cp < 0x800
    ensures DecodeFirst(EncodeScalar(cp) + tail) == Some((cp, 2))
  {
    var b := EncodeScalar(cp) + tail;
    assert b[0] == 0xC0 + cp / 64 && b[1] == 0x80 + cp % 64;
  }

  lemma DecodeFirstOfThree(cp: int, tail: seq<byte>)
    requires 0x800 <= cp < 0x1_0000 && !IsSurrogate(cp)
    ensures DecodeFirst(EncodeScalar(cp) + tail) == Some((cp, 3))
  {
    var b := EncodeScalar(cp) + tail;
    var q := cp / 64;
    assert b[0] == 0xE0 + cp / 4096 && b[1] == 0x80 + q % 64 && b[2] == 0x80 + cp % 64;
    assert cp / 4096 == q / 64;
  }

  lemma DecodeFirstOfFour(cp: int, tail: seq<byte>)
    requires 0x1_0000 <= cp < 0x11_0000
    ensures DecodeFirst(EncodeScalar(cp) + tail) == Some((cp, 4))
  {
    var b := EncodeScalar(cp) + tail;
    var q := cp / 64;
    var p := q / 64;
    assert cp / 4096 == p;
    assert cp / 0x4_0000 == p / 64;
    assert b[0] == 0xF0 + p / 64 && b[1] == 0x80 + p % 64 && b[2] == 0x80 + q % 64 && b[3] == 0x80 + cp % 64;
  }

  /** The first sequence of an encoded scalar decodes to that scalar and no more. */
  lemma DecodeFirstOfScalar(cp: int, tail: seq<byte>)
    requires IsScalar(cp)
    ensures DecodeFirst(EncodeScalar(cp) + tail) == Some((cp, |EncodeScalar(cp)|))
  {
    if cp < 0x80 {
    } else if cp < 0x800 {
      DecodeFirstOfTwo(cp, tail);
    } else if cp < 0x1_0000 {
      DecodeFirstOfThree(cp, tail);
    } else {
      DecodeFirstOfFour(cp, tail);
    }
  }

  /** Decoding an encoded scalar followed by decodable bytes. */
  lemma DecodeScalarThen(cp: int, tail: seq<byte>, rest: JsString)
    requires IsScalar(cp) && Decode(tail) == Some(rest)
    ensures Decode(EncodeScalar(cp) + tail) == Some(ToUnits(cp) + rest)
  {
    var head := EncodeScalar(cp);
    DecodeFirstOfScalar(cp, tail);
    assert (head + tail)[|head|..] == tail;
  }

  lemma ToUnitsOfPair(hi: int, lo: int)
    requires IsHighSurrogate(hi) && IsLowSurrogate(lo)
    ensures ToUnits(PairScalar(hi, lo)) == [hi, lo]
  {
  }

  /** UTF-8 decoding undoes `Buffer.from(s, "utf8")`, up to the replacement of lone surrogates. */
  lemma {:induction false} DecodeEncode(s: JsString)
    ensures Decode(Encode(s)) == Some(Scrub(s))
  {
    if s != [] {
      var cp, rest;
      if StartsWithPair(s) {
        cp, rest := PairScalar(s[0], s[1]), s[2..];
        ToUnitsOfPair(s[0], s[1]);
      } else if IsSurrogate(s[0]) {
        cp, rest := REPLACEMENT as int, s[1..];
      } else {
        cp, rest := s[0] as int, s[1..];
      }
      DecodeEncode(rest);
      assert Encode(s) == EncodeScalar(cp) + Encode(rest);
      DecodeScalarThen(cp, Encode(rest), Scrub(rest));
      assert ToUnits(cp) + Scrub(rest) == Scrub(s);
    }
  }

  lemma DivMod64(q: int, r: int)
    requires 0 <= r < 64
    ensures (q * 64 + r) / 64 == q && (q * 64 + r) % 64 == r
  {
  }

  /** A two-byte sequence is the encoding of the code point it carries. */
  lemma EncodeTwo(b0: int, b1: int)
    requires 0xC0 <= b0 < 0xE0 && 0x80 <= b1 < 0xC0 && (b0 - 0xC0) * 64 + (b1 - 0x80) >= 0x80
    ensures EncodeScalar((b0 - 0xC0) * 64 + (b1 - 0x80)) == [b0, b1]
  {
    DivMod64(b0 - 0xC0, b1 - 0x80);
  }

  /** A three-byte sequence is the encoding of the code point it carries. */
  lemma EncodeThree(b0: int, b1: int, b2: int)
    requires 0xE0 <= b0 < 0xF0 && 0x80 <= b1 < 0xC0 && 0x80 <= b2 < 0xC0
    requires (b0 - 0xE0) * 4096 + (b1 - 0x80) * 64 + (b2 - 0x80) >= 0x800
    ensures EncodeScalar((b0 - 0xE0) * 4096 + (b1 - 0x80) * 64 + (b2 - 0x80)) == [b0, b1, b2]
  {
    var q := (b0 - 0xE0) * 64 + (b1 - 0x80);
    var cp := q * 64 + (b2 - 0x80);
    assert cp == (b0 - 0xE0) * 4096 + (b1 - 0x80) * 64 + (b2 - 0x80);
    DivMod64(q, b2 - 0x80);
    DivMod64(b0 - 0xE0, b1 - 0x80);
    assert cp / 4096 == q / 64;
  }

  /** A four-byte sequence is the encoding of the code point it carries. */
  lemma EncodeFour(b0: int, b1: int, b2: int, b3: int)
    requires 0xF0 <= b0 < 0xF8 && 0x80 <= b1 < 0xC0 && 0x80 <= b2 < 0xC0 && 0x80 <= b3 < 0xC0
    requires 0x1_0000 <= (b0 - 0xF0) * 0x4_0000 + (b1 - 0x80) * 4096 + (b2 - 0x80) * 64 + (b3 - 0x80) < 0x11_0000
    ensures EncodeScalar((b0 - 0xF0) * 0x4_0000 + (b1 - 0x80) * 4096 + (b2 - 0x80) * 64 + (b3 - 0x80)) == [b0, b1, b2, b3]
  {
    var p := (b0 - 0xF0) * 64 + (b1 - 0x80);
    var q := p * 64 + (b2 - 0x80);
    var cp := q * 64 + (b3 - 0x80);
    assert cp == (b0 - 0xF0) * 0x4_0000 + (b1 - 0x80) * 4096 + (b2 - 0x80) * 64 + (b3 - 0x80);
    DivMod64(q, b3 - 0x80);
    DivMod64(p, b2 - 0x80);
    DivMod64(b0 - 0xF0, b1 - 0x80);
    assert cp / 4096 == q / 64;
    assert cp / 0x4_0000 == p / 64;
  }

  /** The first sequence a decode accepts is exactly the UTF-8 sequence of the code point it yields. */
  lemma EncodeScalarOfFirst(b: seq<byte>)
    requires b != [] && DecodeFirst(b).Some?
    ensures DecodeFirst(b).value.1 <= |b|
    ensures b[..DecodeFirst(b).value.1] == EncodeScalar(DecodeFirst(b).value.0)
  {
    var b0 := b[0] as int;
    if b0 < 0x80 {
    } else if 0xC0 <= b0 < 0xE0 {
      EncodeTwo(b0, b[1]);
    } else if 0xE0 <= b0 < 0xF0 {
      EncodeThree(b0, b[1], b[2]);
    } else {
      EncodeFour(b0, b[1], b[2], b[3]);
    }
  }

  /** A scalar's code units, followed by a text without lone surrogates, encode scalar by scalar. */
  lemma UnitsThen(cp: int, rest: JsString)
    requires IsScalar(cp) && WellFormed(rest)
    ensures WellFormed(ToUnits(cp) + rest)
    ensures Encode(ToUnits(cp) + rest) == EncodeScalar(cp) + Encode(rest)
  {
    var s := ToUnits(cp) + rest;
    if cp < 0x1_0000 {
      assert s[1..] == rest;
    } else {
      var hi, lo := 0xD800 + (cp - 0x1_0000) / 0x400, 0xDC00 + (cp - 0x1_0000) % 0x400;
      assert IsHighSurrogate(hi) && IsLowSurrogate(lo);
      assert PairScalar(hi, lo) == cp;
      assert s[2..] == rest;
    }
  }

  /**
   * A successful decode of non-empty bytes: the first code point's UTF-8
   * sequence, then bytes that decode on their own.
   */
  lemma DecodeCons(b: seq<byte>) returns (cp: int, n: nat, rest: JsString)
    requires b != [] && Decode(b).Some?
    ensures IsScalar(cp) && 1 <= n <= |b| && b[..n] == EncodeScalar(cp)
    ensures Decode(b[n..]) == Some(rest) && Decode(b).value == ToUnits(cp) + rest
  {
    cp, n := DecodeFirst(b).value.0, DecodeFirst(b).value.1;
    rest := Decode(b[n..]).value;
    EncodeScalarOfFirst(b);
  }

  /** A scalar's sequence followed by the encoding of a text is the encoding of its units followed by that text. */
  lemma Reassemble(b: seq<byte>, n: nat, cp: int, rest: JsString)
    requires IsScalar(cp) && n <= |b| && b[..n] == EncodeScalar(cp)
    requires WellFormed(rest) && Encode(rest) == b[n..]
    ensures WellFormed(ToUnits(cp) + rest) && Encode(ToUnits(cp) + rest) == b
  {
    UnitsThen(cp, rest);
    assert b == b[..n] + b[n..];
  }

  /**
   * Whatever decodes is a text without lone surrogates whose UTF-8 bytes are
   * exactly the bytes decoded: the other half of the round trip.
   */
  lemma {:induction false} EncodeDecode(b: seq<byte>)
    ensures Decode(b).Some? ==> WellFormed(Decode(b).value) && Encode(Decode(b).value) == b
    decreases |b|
  {
    if b != [] && Decode(b).Some? {
      var cp, n, rest := DecodeCons(b);
      EncodeDecode(b[n..]);
      Reassemble(b, n, cp, rest);
    }
  }

  lemma {:induction false} ScrubWellFormed(s: JsString)
    requires WellFormed(s)
    ensures Scrub(s) == s
  {
    if s != [] {
      if StartsWithPair(s) {
        ScrubWellFormed(s[2..]);
        assert s == s[..2] + s[2..];
      } else {
        ScrubWellFormed(s[1..]);
        assert s == [s[0]] + s[1..];
      }
    }
  }

  /** The round trip of a text without lone surrogates is exact. */
  lemma RoundTrip(s: JsString)
    requires WellFormed(s)
    ensures Decode(Encode(s)) == Some(s)
  {
    DecodeEncode(s);
    ScrubWellFormed(s);
  }

  /** Two texts without lone surrogates have the same UTF-8 bytes only if they are equal. */
  lemma EncodeInjective(s: JsString, t: JsString)
    requires WellFormed(s) && WellFormed(t)
    requires Encode(s) == Encode(t)
    ensures s == t
  {
    RoundTrip(s);
    RoundTrip(t);
  }

  /**
   * Every code unit takes at least one byte, and exactly one only when it is
   * ASCII: the UTF-8 bytes of `s` are as many as its code units iff `s` is ASCII.
   */
  lemma {:induction false} EncodeLength(s: JsString)
    ensures |Encode(s)| >= |s|
    ensures |Encode(s)| == |s| <==> IsAscii(s)
  {
    if s != [] {
      if StartsWithPair(s) {
        EncodeLength(s[2..]);
        assert !IsAscii(s) by { assert s[0] >= 0x80; }
      } else {
        var rest := s[1..];
        EncodeLength(rest);
        assert IsAscii(s) <==> s[0] < 0x80 && IsAscii(rest) by {
          if s[0] < 0x80 && IsAscii(rest) {
            forall i | 0 <= i < |s| ensures s[i] < 0x80 {
              if i > 0 { assert s[i] == rest[i - 1]; }
            }
          }
          if IsAscii(s) {
            forall i | 0 <= i < |rest| ensures rest[i] < 0x80 { assert rest[i] == s[i + 1]; }
          }
        }
      }
    }
  }

  /** An ASCII text is its own UTF-8 encoding, byte for unit. */
  lemma {:induction false} EncodeAscii(s: JsString)
    requires IsAscii(s)
    ensures |Encode(s)| == |s|
    ensures forall i | 0 <= i < |s| :: Encode(s)[i] == s[i]
  {
    if s != [] {
      assert s[0] < 0x80;
      var rest := s[1..];
      assert IsAscii(rest) by {
        forall i | 0 <= i < |rest| ensures rest[i] < 0x80 { assert rest[i] == s[i + 1]; }
      }
      EncodeAscii(rest);
      assert Encode(s) == [s[0] as byte] + Encode(rest);
    }
  }
}
