/** Byte strings: fixed-width integers, length-prefixed chunks and cancellation. */
module ByteStrings {
  type byte = x: int | 0 <= x < 256

  type Bytes = seq<byte>

  /** The bytes of an ASCII literal. */
  function Ascii(s: string): (b: Bytes)
    ensures |b| == |s|
  {
    seq(|s|, i requires 0 <= i < |s| => (s[i] as int) % 256)
  }

  function Zeros(n: nat): (b: Bytes)
    ensures |b| == n
  {
    seq(n, _ => 0)
  }

  /** `int(v) & 0xFF` and its signed reading. */
  function U8(v: int): byte {
    v % 256
  }

  function I8(b: byte): (v: int)
    ensures -128 <= v <= 127
  {
    if b >= 128 then b as int - 256 else b
  }

  function Pow256(k: nat): (p: nat)
    ensures p >= 1
  {
    if k == 0 then 1 else 256 * Pow256(k - 1)
  }

  lemma Widths()
    ensures Pow256(1) == 0x100
    ensures Pow256(2) == 0x1_0000
    ensures Pow256(4) == 0x1_0000_0000
    ensures Pow256(8) == 0x1_0000_0000_0000_0000
  {
    assert Pow256(3) == 0x100_0000;
    assert Pow256(5) == 0x100_0000_0000;
    assert Pow256(6) == 0x1_0000_0000_0000;
    assert Pow256(7) == 0x100_0000_0000_0000;
  }

  // ---------------------------------------------------------------- integers

  /** `struct.pack` of an unsigned integer, most significant byte first. */
  function BigEndian(n: nat, k: nat): (b: Bytes)
    ensures |b| == k
  {
    if k == 0 then [] else BigEndian(n / 256, k - 1) + [n % 256]
  }

  function FromBigEndian(b: Bytes): nat {
    if |b| == 0 then 0 else FromBigEndian(b[..|b| - 1]) * 256 + b[|b| - 1]
  }

  lemma {:induction false} BigEndianRoundTrip(n: nat, k: nat)
    requires n < Pow256(k)
    ensures FromBigEndian(BigEndian(n, k)) == n
  {
    if k > 0 {
      BigEndianRoundTrip(n / 256, k - 1);
      assert BigEndian(n, k)[..k - 1] == BigEndian(n / 256, k - 1);
    }
  }

  lemma {:induction false} FromBigEndianRoundTrip(b: Bytes)
    ensures FromBigEndian(b) < Pow256(|b|)
    ensures BigEndian(FromBigEndian(b), |b|) == b
  {
    if |b| > 0 {
      FromBigEndianRoundTrip(b[..|b| - 1]);
      assert b == b[..|b| - 1] + [b[|b| - 1]];
    }
  }

  /** `struct.pack` of an unsigned integer, least significant byte first. */
  function LittleEndian(n: nat, k: nat): (b: Bytes)
    ensures |b| == k
  {
    if k == 0 then [] else [n % 256] + LittleEndian(n / 256, k - 1)
  }

  function FromLittleEndian(b: Bytes): nat {
    if |b| == 0 then 0 else FromLittleEndian(b[1..]) * 256 + b[0]
  }

  lemma {:induction false} LittleEndianRoundTrip(n: nat, k: nat)
    requires n < Pow256(k)
    ensures FromLittleEndian(LittleEndian(n, k)) == n
  {
    if k > 0 {
      LittleEndianRoundTrip(n / 256, k - 1);
      assert LittleEndian(n, k)[1..] == LittleEndian(n / 256, k - 1);
    }
  }

  lemma {:induction false} FromLittleEndianRoundTrip(b: Bytes)
    ensures FromLittleEndian(b) < Pow256(|b|)
    ensures LittleEndian(FromLittleEndian(b), |b|) == b
  {
    if |b| > 0 {
      FromLittleEndianRoundTrip(b[1..]);
      assert b == [b[0]] + b[1..];
    }
  }

  /** Two's complement of a signed integer in k bytes, and back. */
  function Signed(u: nat, k: nat): int {
    if 2 * u < Pow256(k) then u else u - Pow256(k)
  }

  predicate FitsSigned(v: int, k: nat) {
    2 * v < Pow256(k) && -2 * v <= Pow256(k)
  }

  function Unsigned(v: int, k: nat): (u: nat)
    requires FitsSigned(v, k)
    ensures u < Pow256(k)
    ensures k > 0 ==> Signed(u, k) == v
  {
    if v >= 0 then v else v + Pow256(k)
  }

  function SignedBigEndian(v: int, k: nat): (b: Bytes)
    requires FitsSigned(v, k)
    ensures |b| == k
  {
    BigEndian(Unsigned(v, k), k)
  }

  function FromSignedBigEndian(b: Bytes): int {
    Signed(FromBigEndian(b), |b|)
  }

  lemma SignedBigEndianRoundTrip(v: int, k: nat)
    requires k > 0 && FitsSigned(v, k)
    ensures FromSignedBigEndian(SignedBigEndian(v, k)) == v
  {
    BigEndianRoundTrip(Unsigned(v, k), k);
  }

  lemma FromSignedBigEndianRoundTrip(b: Bytes)
    requires |b| > 0
    ensures FitsSigned(FromSignedBigEndian(b), |b|)
    ensures SignedBigEndian(FromSignedBigEndian(b), |b|) == b
  {
    FromBigEndianRoundTrip(b);
    assert Pow256(|b|) == 256 * Pow256(|b| - 1);
  }

  // ------------------------------------------------------------ cancellation

  lemma Associates(a: Bytes, b: Bytes, c: Bytes)
    ensures (a + b) + c == a + (b + c)
  {
  }

  lemma CancelPrefix(a: Bytes, x: Bytes, b: Bytes, y: Bytes)
    requires |a| == |b|
    requires a + x == b + y
    ensures a == b && x == y
  {
    assert a == (a + x)[..|a|] == b;
    assert x == (a + x)[|a|..] == y;
  }

  // ------------------------------------------------------------------ chunks

  /** One element of a `b"".join(parts)`: raw bytes, or bytes behind their own
      4-byte big-endian length. */
  datatype Chunk = Fixed(data: Bytes) | Counted(data: Bytes)

  function ChunkBytes(c: Chunk): Bytes {
    match c
    case Fixed(d) => d
    case Counted(d) => BigEndian(|d|, 4) + d
  }

  function Join(cs: seq<Chunk>): Bytes {
    if |cs| == 0 then [] else ChunkBytes(cs[0]) + Join(cs[1..])
  }

  lemma {:induction false} JoinConcat(a: seq<Chunk>, b: seq<Chunk>)
    ensures Join(a + b) == Join(a) + Join(b)
    decreases |a|
  {
    if |a| == 0 {
      assert a + b == b;
    } else {
      assert (a + b)[1..] == a[1..] + b;
      JoinConcat(a[1..], b);
      Associates(ChunkBytes(a[0]), Join(a[1..]), Join(b));
    }
  }

  predicate SameShape(c: Chunk, d: Chunk) {
    match c
    case Fixed(x) => d.Fixed? && |d.data| == |x|
    case Counted(x) => d.Counted? && |x| < 0x1_0000_0000 && |d.data| < 0x1_0000_0000
  }

  lemma BigEndianInjective(m: nat, n: nat, k: nat)
    requires m < Pow256(k) && n < Pow256(k)
    requires BigEndian(m, k) == BigEndian(n, k)
    ensures m == n
  {
    BigEndianRoundTrip(m, k);
    BigEndianRoundTrip(n, k);
  }

  /** A length prefix tells where its data ends. */
  lemma CancelCounted(p: Bytes, a: Bytes, x: Bytes, q: Bytes, b: Bytes, y: Bytes)
    requires |p| == |q|
    requires p == q ==> |a| == |b|
    requires (p + a) + x == (q + b) + y
    ensures a == b && x == y
  {
    assert (p + a) + x == p + (a + x);
    assert (q + b) + y == q + (b + y);
    CancelPrefix(p, a + x, q, b + y);
    CancelPrefix(a, x, b, y);
  }

  lemma CancelChunk(c: Chunk, x: Bytes, d: Chunk, y: Bytes)
    requires SameShape(c, d)
    requires ChunkBytes(c) + x == ChunkBytes(d) + y
    ensures c == d && x == y
  {
    if c.Counted? {
      var p, q := BigEndian(|c.data|, 4), BigEndian(|d.data|, 4);
      if p == q {
        Widths();
        BigEndianInjective(|c.data|, |d.data|, 4);
      }
      CancelCounted(p, c.data, x, q, d.data, y);
    } else {
      CancelPrefix(c.data, x, d.data, y);
    }
  }

  /** Equal joins of equally shaped chunk lists come from equal lists, even
      when different bytes follow. */
  lemma {:induction false} JoinInjective(cs: seq<Chunk>, ds: seq<Chunk>, x: Bytes, y: Bytes)
    requires |cs| == |ds|
    requires forall i :: 0 <= i < |cs| ==> SameShape(cs[i], ds[i])
    requires Join(cs) + x == Join(ds) + y
    ensures cs == ds && x == y
    decreases |cs|
  {
    if |cs| == 0 {
      assert Join(cs) + x == x && Join(ds) + y == y;
    } else {
      var restC, restD := Join(cs[1..]) + x, Join(ds[1..]) + y;
      Associates(ChunkBytes(cs[0]), Join(cs[1..]), x);
      Associates(ChunkBytes(ds[0]), Join(ds[1..]), y);
      CancelChunk(cs[0], restC, ds[0], restD);
      JoinInjective(cs[1..], ds[1..], x, y);
      assert cs == [cs[0]] + cs[1..] && ds == [ds[0]] + ds[1..];
    }
  }
}
