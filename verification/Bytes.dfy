/** Octets, big-endian integers and the status codes shared by every layer. */
module Bytes {

  type byte = x: int | 0 <= x < 256
  type bytes = seq<byte>

  // Machine-integer types for the C counters whose overflow matters.
  newtype word8 = x: int | 0 <= x < 0x100
  newtype word16 = x: int | 0 <= x < 0x1_0000

  const TWO64: int := 0x1_0000_0000_0000_0000

  // Buffers handled by the library are shorter than this, so that the 32-bit
  // sums `pos + n` of a cursor and a 24-bit length never wrap.
  const MAX_BUFFER: int := 0x7FFF_FFFF

  datatype Option<+T> = None | Some(value: T)

  /** The library's return codes. */
  datatype Status =
    | Success
    | InvalidArg
    | CryptoErr
    | Unsupported
    | BadState
    | UnexpectedMsg
    | DecodeErr
    | BadMac
    | IllegalParam
    | BadCert
    | Closed
    | X509Decode
    | X509CritExt

  /** A slice of a message that the C code holds as an address and a length. */
  datatype Slice = Slice(off: nat, len: nat) {
    predicate In(msg: bytes) { off + len <= |msg| }
    function Of(msg: bytes): bytes
      requires In(msg)
    {
      msg[off..off + len]
    }
  }

  /** `w` octets of `n`, most significant first; the excess high part is dropped. */
  function Be(n: nat, w: nat): (r: bytes)
    ensures |r| == w
  {
    if w == 0 then [] else Be(n / 256, w - 1) + [n % 256]
  }

  function FromBe(b: bytes): nat
  {
    if b == [] then 0 else 256 * FromBe(b[..|b| - 1]) + b[|b| - 1]
  }

  function Pow256(w: nat): (r: nat)
    ensures r > 0
  {
    if w == 0 then 1 else 256 * Pow256(w - 1)
  }

  function U8(v: nat): (r: bytes)
    ensures |r| == 1
  {
    [v % 256]
  }

  function U16(v: nat): (r: bytes)
    ensures |r| == 2
  {
    [v / 256 % 256, v % 256]
  }

  function U24(v: nat): (r: bytes)
    ensures |r| == 3
  {
    [v / 0x1_0000 % 256, v / 256 % 256, v % 256]
  }

  function Zeros(n: nat): (r: bytes)
    ensures |r| == n && forall i :: 0 <= i < n ==> r[i] == 0
  {
    seq(n, _ => 0)
  }

  function Num16(b: bytes, at: nat): (r: nat)
    requires at + 2 <= |b|
    ensures r < 0x1_0000
  {
    256 * (b[at] as int) + b[at + 1]
  }

  function Num24(b: bytes, at: nat): (r: nat)
    requires at + 3 <= |b|
    ensures r < 0x100_0000
  {
    0x1_0000 * (b[at] as int) + 256 * (b[at + 1] as int) + b[at + 2]
  }

  lemma Num16Of(b: bytes, at: nat, n: nat)
    requires at + 2 <= |b| && b[at..at + 2] == U16(n)
    ensures Num16(b, at) == n % 0x1_0000
  {
    var u := b[at..at + 2];
    assert b[at] == u[0] && b[at + 1] == u[1];
    var q := n / 256;
    DivModUnique(n, 0x1_0000, q / 256, 256 * (q % 256) + n % 256);
  }

  lemma Num16Slice(data: bytes, p: nat, end: nat, i: nat)
    requires p + i + 2 <= end <= |data|
    ensures Num16(data[p..end], i) == Num16(data, p + i)
  {}

  lemma Num24Slice(data: bytes, p: nat, end: nat, i: nat)
    requires p <= end && p + i + 3 <= end <= |data|
    ensures Num24(data[p..end], i) == Num24(data, p + i)
  {}

  // The three octets of a 24-bit number.
  lemma Octets24(a: nat, b: nat, c: nat)
    requires a < 256 && b < 256 && c < 256
    ensures var n := 0x1_0000 * a + 256 * b + c;
      n / 0x1_0000 == a && n / 256 == 256 * a + b && n % 256 == c && (256 * a + b) % 256 == b
  {
    var n := 0x1_0000 * a + 256 * b + c;
    DivModUnique(n, 256, 256 * a + b, c);
    DivModUnique(n, 0x1_0000, a, 256 * b + c);
    DivModUnique(256 * a + b, 256, a, b);
  }

  lemma Num24Of(b: bytes, at: nat, n: nat)
    requires at + 3 <= |b| && b[at..at + 3] == U24(n) && n < 0x100_0000
    ensures Num24(b, at) == n
  {
    var u := b[at..at + 3];
    assert b[at] == u[0] && b[at + 1] == u[1] && b[at + 2] == u[2];
    var q := n / 256;
    assert q == 256 * (q / 256) + q % 256;
    DivModUnique(n, 0x1_0000, q / 256, 256 * (q % 256) + n % 256);
  }

  lemma U16Of(m: bytes, at: nat)
    requires at + 2 <= |m|
    ensures m[at..at + 2] == U16(Num16(m, at))
  {}

  lemma U24Of(m: bytes, at: nat)
    requires at + 3 <= |m|
    ensures m[at..at + 3] == U24(Num24(m, at))
  {
    Octets24(m[at], m[at + 1], m[at + 2]);
    assert m[at..at + 3] == [m[at], m[at + 1], m[at + 2]];
  }

  lemma BeWidths(n: nat)
    ensures Be(n, 1) == U8(n) && Be(n, 2) == U16(n) && Be(n, 3) == U24(n)
  {
    assert Be(n, 1) == Be(n / 256, 0) + [n % 256];
    assert Be(n / 256, 1) == Be(n / 256 / 256, 0) + [n / 256 % 256];
    assert Be(n / 256 / 256, 1) == Be(n / 256 / 256 / 256, 0) + [n / 256 / 256 % 256];
    assert n / 256 / 256 == n / 0x1_0000;
  }

  lemma {:induction false} FromBeOfBe(n: nat, w: nat)
    ensures FromBe(Be(n, w)) == n % Pow256(w)
  {
    if w > 0 {
      FromBeOfBe(n / 256, w - 1);
      var p := Pow256(w - 1);
      assert Be(n, w)[..w - 1] == Be(n / 256, w - 1);
      ModStep(n, p);
    }
  }

  lemma ModStep(n: nat, p: nat)
    requires p > 0
    ensures 256 * (n / 256 % p) + n % 256 == n % (256 * p)
  {
    var q, r := n / 256 / p, n / 256 % p;
    assert n / 256 == q * p + r;
    var rest := 256 * r + n % 256;
    assert n == 256 * (q * p + r) + n % 256;
    assert 256 * (q * p) == q * (256 * p);
    assert n == q * (256 * p) + rest;
    assert r <= p - 1;
    assert 0 <= rest < 256 * p;
    DivModUnique(n, 256 * p, q, rest);
  }

  lemma DivModUnique(n: nat, d: nat, q: nat, r: nat)
    requires d > 0 && n == q * d + r && r < d
    ensures n / d == q && n % d == r
  {
    var q', r' := n / d, n % d;
    SmallMultipleIsZero(q' - q, d, r - r');
  }

  lemma SmallMultipleIsZero(k: int, d: int, x: int)
    requires k * d == x && 0 - d < x < d
    ensures k == 0
  {}

  // Bitwise exclusive or of the low `k` bits.
  function XorBits(a: nat, b: nat, k: nat): (r: nat)
    ensures r < Pow2(k)
  {
    if k == 0 then 0 else (a + b) % 2 + 2 * XorBits(a / 2, b / 2, k - 1)
  }

  function Pow2(k: nat): (r: nat)
    ensures r > 0
  {
    if k == 0 then 1 else 2 * Pow2(k - 1)
  }

  function Xor(a: byte, b: byte): byte {
    assert Pow2(8) == 256 by { assert Pow2(4) == 16; }
    XorBits(a, b, 8)
  }

  lemma XorStep(a: nat, b: nat, k: nat)
    requires k > 0
    ensures XorBits(a, b, k) == (a + b) % 2 + 2 * XorBits(a / 2, b / 2, k - 1)
  {}

  lemma {:induction false} XorBitsCancel(a: nat, b: nat, k: nat)
    requires a < Pow2(k)
    ensures XorBits(XorBits(a, b, k), b, k) == a
    decreases k, 1
  {
    if k > 0 {
      CancelStep(a, b, k);
    }
  }

  lemma {:induction false} CancelStep(a: nat, b: nat, k: nat)
    requires k > 0 && a < Pow2(k)
    ensures XorBits(XorBits(a, b, k), b, k) == a
    decreases k, 0
  {
    hide XorBits;
    assert a / 2 < Pow2(k - 1);
    XorBitsCancel(a / 2, b / 2, k - 1);
    var r := XorBits(a / 2, b / 2, k - 1);
    var x := (a + b) % 2 + 2 * r;
    XorStep(a, b, k);
    XorStep(x, b, k);
    BitSplit((a + b) % 2, r);
    ParityCancels(a, b, x);
  }

  lemma BitSplit(bit: nat, r: nat)
    requires bit < 2
    ensures (bit + 2 * r) % 2 == bit && (bit + 2 * r) / 2 == r
  {}

  lemma ParityCancels(a: nat, b: nat, x: nat)
    requires x % 2 == (a + b) % 2
    ensures (x + b) % 2 == a % 2
  {}

  lemma {:induction false} XorBitsCommute(a: nat, b: nat, k: nat)
    ensures XorBits(a, b, k) == XorBits(b, a, k)
  {
    if k > 0 {
      XorBitsCommute(a / 2, b / 2, k - 1);
    }
  }

  /** Masking with the same octet is injective. */
  lemma XorInjective(m: byte, a: byte, b: byte)
    requires Xor(m, a) == Xor(m, b)
    ensures a == b
  {
    assert Pow2(8) == 256 by { assert Pow2(4) == 16; }
    XorBitsCommute(m, a, 8);
    XorBitsCommute(m, b, 8);
    XorBitsCancel(a, m, 8);
    XorBitsCancel(b, m, 8);
  }

  /** Masking twice with the same octet restores the first. */
  lemma XorCancels(a: byte, m: byte)
    ensures Xor(a, Xor(a, m)) == m
  {
    assert Pow2(8) == 256 by { assert Pow2(4) == 16; }
    XorBitsCommute(a, m, 8);
    XorBitsCommute(a, Xor(a, m), 8);
    XorBitsCancel(m, a, 8);
  }

  /** Bit `i` of the mask is set exactly where the two differ. */
  lemma {:induction false} XorBitAt(a: nat, b: nat, k: nat, i: nat)
    requires i < k
    ensures XorBits(a, b, k) / Pow2(i) % 2 == if a / Pow2(i) % 2 == b / Pow2(i) % 2 then 0 else 1
    decreases k
  {
    hide XorBits;
    var r := XorBits(a / 2, b / 2, k - 1);
    XorStep(a, b, k);
    BitSplit((a + b) % 2, r);
    if i == 0 {
      BitsDiffer(a, b);
    } else {
      XorBitAt(a / 2, b / 2, k - 1, i - 1);
      HalfFirst(a, i);
      HalfFirst(b, i);
      HalfFirst((a + b) % 2 + 2 * r, i);
    }
  }

  lemma BitsDiffer(a: nat, b: nat)
    ensures (a + b) % 2 == (if a % 2 == b % 2 then 0 else 1) && Pow2(0) == 1
  {}

  lemma HalfFirst(a: nat, i: nat)
    requires i > 0
    ensures a / Pow2(i) == a / 2 / Pow2(i - 1)
  {
    var p := Pow2(i - 1);
    var q, r := a / 2 / p, a / 2 % p;
    assert a / 2 == q * p + r;
    assert a == q * (2 * p) + (2 * r + a % 2);
    DivModUnique(a, 2 * p, q, 2 * r + a % 2);
  }

  lemma Pow256Eight()
    ensures Pow256(8) == TWO64
  {}

  lemma Join(c: bytes, x: bytes, y: bytes)
    ensures c + x + y == c + (x + y)
  {}

  /** A slice of a slice is a slice. */
  lemma SubSlice(data: bytes, p: nat, end: nat, i: nat, j: nat)
    requires p <= end <= |data| && i <= j <= end - p
    ensures data[p..end][i..j] == data[p + i..p + j]
  {
    var a, b := data[p..end][i..j], data[p + i..p + j];
    forall k | 0 <= k < j - i
      ensures a[k] == b[k]
    {
      assert data[p..end][i + k] == data[p + (i + k)];
    }
  }

  /** Nothing in `buf` changed except, possibly, `buf[lo .. hi)`. */
  twostate predicate OnlyChanged(buf: array<byte>, lo: int, hi: int)
    reads buf
  {
    forall i :: 0 <= i < buf.Length && !(lo <= i < hi) ==> buf[i] == old(buf[i])
  }
}
