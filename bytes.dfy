/**
 * Bytes, JavaScript strings, public keys and little-endian integers:
 * the vocabulary shared by the codec and the on-chain program.
 */
module Bytes {

  /** One byte of a Node `Buffer` / `Uint8Array`. */
  type byte = x: int | 0 <= x < 256

  /** One UTF-16 code unit; a JavaScript string is a sequence of them. */
  type CodeUnit = x: int | 0 <= x < 0x1_0000

  /** A JavaScript string as `String.prototype.length` and `slice` see it. */
  type JsString = seq<CodeUnit>

  /** A 32-byte ledger public key (`PublicKey.toBuffer()`). */
  type Pubkey = k: seq<byte> | |k| == 32 witness seq(32, _ => 0)

  const SPACE: CodeUnit := 0x20

  /** The all-zero key, Rust's `Pubkey::default()`. */
  const DEFAULT_PUBKEY: Pubkey := Zeros(32)

  /** A freshly allocated `Buffer.alloc(n)`. */
  function Zeros(n: nat): (z: seq<byte>)
    ensures |z| == n
    ensures forall i | 0 <= i < n :: z[i] == 0
  {
    seq(n, _ => 0)
  }

  /** Bytes of an ASCII literal such as `Buffer.from("!squad")` or Rust's `b"user_data"`. */
  function Ascii(s: string): (b: seq<byte>)
    requires forall i | 0 <= i < |s| :: s[i] as int < 128
    ensures |b| == |s|
    ensures forall i | 0 <= i < |s| :: b[i] == s[i] as int
  {
    seq(|s|, i requires 0 <= i < |s| => s[i] as int)
  }

  /**
   * `buf.slice(start, end)`: both ends are clamped to the buffer, so a read
   * near the end of the buffer returns fewer bytes instead of failing.
   */
  function Slice(buf: seq<byte>, start: nat, end: nat): (r: seq<byte>)
    ensures start <= end <= |buf| ==> r == buf[start..end]
    ensures |buf| <= start ==> r == []
    ensures start <= end && |buf| < end && start <= |buf| ==> r == buf[start..]
  {
    var s := if start <= |buf| then start else |buf|;
    var e := if end <= |buf| then end else |buf|;
    if e <= s then [] else buf[s..e]
  }

  /** `buf` with `bytes` copied in at `offset` (the effect of `Buffer.copy`). */
  function Splice(buf: seq<byte>, offset: nat, bytes: seq<byte>): (r: seq<byte>)
    requires offset + |bytes| <= |buf|
    ensures |r| == |buf|
  {
    buf[..offset] + bytes + buf[offset + |bytes|..]
  }

  /** After a splice, the field of `width` bytes at `offset` holds the new bytes and then what was there before. */
  lemma SpliceWindow(buf: seq<byte>, offset: nat, bytes: seq<byte>, width: nat)
    requires |bytes| <= width && offset + width <= |buf|
    ensures Splice(buf, offset, bytes)[offset..offset + width] == bytes + buf[offset + |bytes|..offset + width]
  {
    var r := Splice(buf, offset, bytes);
    var w := bytes + buf[offset + |bytes|..offset + width];
    forall j | offset <= j < offset + width
      ensures r[j] == w[j - offset]
    {
      if j < offset + |bytes| {
        assert r[j] == bytes[j - offset];
      } else {
        assert r[j] == buf[j];
      }
    }
    assert r[offset..offset + width] == w;
  }

  function Pow256(k: nat): (p: nat)
    ensures p >= 1
  {
    if k == 0 then 1 else 256 * Pow256(k - 1)
  }

  const TWO_32: int := 0x1_0000_0000
  const TWO_63: int := 0x8000_0000_0000_0000
  const TWO_64: int := 0x1_0000_0000_0000_0000

  /** A window into the second part of a concatenation. */
  lemma AppendSlice(a: seq<byte>, b: seq<byte>, j: nat, k: nat)
    requires j <= k <= |b|
    ensures (a + b)[|a| + j..|a| + k] == b[j..k]
  {
  }

  /** A window into the first part of a concatenation. */
  lemma PrefixSlice(a: seq<byte>, b: seq<byte>, j: nat, k: nat)
    requires j <= k <= |a|
    ensures (a + b)[j..k] == a[j..k]
  {
  }

  /** A window of a window is a window of the whole. */
  lemma InnerSlice(q: seq<byte>, start: nat, end: nat, j: nat, k: nat)
    requires start <= end <= |q| && j <= k <= end - start
    ensures q[start..end][j..k] == q[start + j..start + k]
  {
    assert forall n :: 0 <= n < k - j ==> q[start..end][j..k][n] == q[start + j + n];
  }

  /** The middle part of a three-way concatenation. */
  lemma MiddleSlice(a: seq<byte>, b: seq<byte>, c: seq<byte>)
    ensures |a| + |b| <= |a + (b + c)|
    ensures (a + (b + c))[|a|..|a| + |b|] == b
  {
  }

  /** A value already below 2^64 is its own remainder. */
  lemma ModTwo64(n: int)
    requires 0 <= n < TWO_64
    ensures n % TWO_64 == n
  {
  }

  lemma Pow256Values()
    ensures Pow256(4) == TWO_32
    ensures Pow256(8) == TWO_64
  {
  }

  lemma {:induction false} Pow256Monotonic(j: nat, k: nat)
    requires j <= k
    ensures Pow256(j) <= Pow256(k)
  {
    if j < k {
      Pow256Monotonic(j, k - 1);
    }
  }

  /** The `k` low-order bytes of `n`, least significant first. */
  function LE(n: nat, k: nat): (r: seq<byte>)
    ensures |r| == k
  {
    if k == 0 then [] else [n % 256] + LE(n / 256, k - 1)
  }

  /** The unsigned value of little-endian bytes (`new BN(bytes, "le")`). */
  function FromLE(b: seq<byte>): (n: nat)
    ensures n < Pow256(|b|)
  {
    if b == [] then 0 else b[0] + 256 * FromLE(b[1..])
  }

  /** Reading back `k` little-endian bytes gives the value, when it fits in `k` bytes. */
  lemma {:induction false} FromLEOfLE(n: nat, k: nat)
    requires n < Pow256(k)
    ensures FromLE(LE(n, k)) == n
  {
    if k > 0 {
      FromLEOfLE(n / 256, k - 1);
      assert LE(n, k)[1..] == LE(n / 256, k - 1);
    }
  }

  /** Writing back the value of little-endian bytes gives the same bytes. */
  lemma {:induction false} LEOfFromLE(b: seq<byte>)
    ensures LE(FromLE(b), |b|) == b
  {
    if b != [] {
      LEOfFromLE(b[1..]);
      assert FromLE(b) % 256 == b[0];
      assert FromLE(b) / 256 == FromLE(b[1..]);
    }
  }

  /** Two values that fit in `k` bytes have the same `k`-byte encoding only if they are equal. */
  lemma LEInjective(n: nat, m: nat, k: nat)
    requires n < Pow256(k) && m < Pow256(k)
    requires LE(n, k) == LE(m, k)
    ensures n == m
  {
    FromLEOfLE(n, k);
    FromLEOfLE(m, k);
  }
}
