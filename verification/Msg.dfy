/** Wire encoding and decoding primitives with a sticky error (`wn_msg.c`). */
module Msg {
  import opened Bytes

  /** Writes into `buf[base .. base + cap)`; once a write overruns, `err` stays set. */
  class Writer {
    const buf: array<byte>
    const base: nat
    const cap: nat
    var len: nat
    var err: bool

    ghost predicate Valid()
      reads this
    {
      base + cap <= buf.Length && cap <= MAX_BUFFER && len <= cap
    }

    ghost function Contents(): (s: bytes)
      reads this, buf
      requires Valid()
    {
      buf[base..base + len]
    }

    /** One write of `x`: it is appended, or the error latches because it does not fit. */
    twostate predicate Wrote(x: bytes)
      reads this, buf
      requires old(Valid())
    {
      && Valid()
      && err == (old(err) || old(len) + |x| > cap)
      && (!err ==> Contents() == old(Contents()) + x)
      && Framed()
    }

    twostate predicate Framed()
      reads buf
    {
      OnlyChanged(buf, base, base + cap)
    }

    constructor (buf: array<byte>, base: nat, cap: nat)
      requires base + cap <= buf.Length && cap <= MAX_BUFFER
      ensures this.buf == buf && this.base == base && this.cap == cap
      ensures Valid() && len == 0 && !err && Contents() == []
    {
      this.buf, this.base, this.cap, len, err := buf, base, cap, 0, false;
    }

    method PutU8(v: nat)
      requires Valid()
      modifies this, buf
      ensures Wrote(U8(v))
    {
      if !err && len < cap {
        buf[base + len] := v % 256;
        len := len + 1;
      } else {
        err := true;
      }
    }

    method PutU16(v: nat)
      requires Valid()
      modifies this, buf
      ensures Wrote(U16(v))
    {
      if !err && len + 2 <= cap {
        buf[base + len] := v / 256 % 256;
        buf[base + len + 1] := v % 256;
        len := len + 2;
      } else {
        err := true;
      }
    }

    method PutU24(v: nat)
      requires Valid()
      modifies this, buf
      ensures Wrote(U24(v))
    {
      if !err && len + 3 <= cap {
        buf[base + len] := v / 0x1_0000 % 256;
        buf[base + len + 1] := v / 256 % 256;
        buf[base + len + 2] := v % 256;
        len := len + 3;
      } else {
        err := true;
      }
    }

    method PutBytes(p: bytes)
      requires Valid()
      requires |p| <= MAX_BUFFER
      modifies this, buf
      ensures Wrote(p)
    {
      if !err && len + |p| <= cap {
        forall i | 0 <= i < |p| {
          buf[base + len + i] := p[i];
        }
        len := len + |p|;
      } else {
        err := true;
      }
    }

    /** Reserve `lenBytes` octets for a length; the result is where the content starts. */
    method LenStart(lenBytes: nat) returns (off: nat)
      requires Valid()
      requires lenBytes <= 3
      modifies this, buf
      ensures Wrote(Zeros(lenBytes))
      ensures off == len
      ensures !err ==> off == old(len) + lenBytes
    {
      var i := 0;
      while i < lenBytes
        invariant 0 <= i <= lenBytes
        invariant Wrote(Zeros(i))
        invariant !err ==> len == old(len) + i
      {
        PutU8(0);
        i := i + 1;
      }
      off := len;
    }

    // The `w` octets of `n` at offset `at` of the content.
    method PutLength(at: nat, n: nat, w: nat)
      requires Valid() && at + w <= cap
      modifies buf
      ensures buf[base + at..base + at + w] == Be(n, w)
      ensures OnlyChanged(buf, base + at, base + at + w)
    {
      hide Be, Pow256;
      var i := 0;
      while i < w
        invariant 0 <= i <= w
        invariant forall k :: 0 <= k < i ==> buf[base + at + k] == Be(n, w)[k]
        invariant OnlyChanged(buf, base + at, base + at + w)
      {
        BeAt(n, w, i);
        buf[base + at + i] := n / Pow256(w - 1 - i) % 256;
        i := i + 1;
      }
    }

    /** Patch the reserved octets with the low `lenBytes` octets of the content length. */
    method LenEnd(offset: nat, lenBytes: nat)
      requires Valid()
      requires !err ==> lenBytes <= offset <= len
      modifies buf
      ensures Valid() && Framed()
      ensures !err ==> Contents() == Patched(old(Contents()), offset, lenBytes)
    {
      hide Be;
      if !err {
        ghost var was := buf[..];
        PutLength(offset - lenBytes, len - offset, lenBytes);
        PatchedInside(was, buf[..], base, len, offset, lenBytes);
      }
    }
  }

  /** Reads an immutable message; a read that runs short sets `err`, and `err` stays set. */
  class Reader {
    const data: bytes
    var pos: nat
    var err: bool

    ghost predicate Valid()
      reads this
    {
      |data| <= MAX_BUFFER && pos <= |data|
    }

    /** A read of `n` octets: the cursor moves over them, or the error latches. */
    twostate predicate Took(n: nat)
      reads this
    {
      && Valid()
      && err == (old(err) || old(pos) + n > |data|)
      && pos == if err then old(pos) else old(pos) + n
    }

    constructor (data: bytes)
      requires |data| <= MAX_BUFFER
      ensures this.data == data && pos == 0 && !err && Valid()
    {
      this.data, pos, err := data, 0, false;
    }

    method GetU8() returns (v: nat)
      requires Valid()
      modifies this
      ensures Took(1)
      ensures v == if err then 0 else data[old(pos)]
    {
      v := 0;
      if !err && pos < |data| {
        v := data[pos];
        pos := pos + 1;
      } else {
        err := true;
      }
    }

    method GetU16() returns (v: nat)
      requires Valid()
      modifies this
      ensures Took(2)
      ensures v == if err then 0 else Num16(data, old(pos))
    {
      v := 0;
      if !err && pos + 2 <= |data| {
        v := Num16(data, pos);
        pos := pos + 2;
      } else {
        err := true;
      }
    }

    method GetU24() returns (v: nat)
      requires Valid()
      modifies this
      ensures Took(3)
      ensures v == if err then 0 else Num24(data, old(pos))
    {
      v := 0;
      if !err && pos + 3 <= |data| {
        v := Num24(data, pos);
        pos := pos + 3;
      } else {
        err := true;
      }
    }

    /** The offset of the next `n` octets, or None where the C code returns NULL. */
    method GetBytes(n: nat) returns (p: Option<nat>)
      requires Valid()
      requires n <= MAX_BUFFER
      modifies this
      ensures Took(n)
      ensures p == if err then None else Some(old(pos))
    {
      p := None;
      if !err && pos + n <= |data| {
        p := Some(pos);
        pos := pos + n;
      } else {
        err := true;
      }
    }
  }

  function Patched(s: bytes, offset: nat, w: nat): bytes
    requires w <= offset <= |s|
  {
    s[..offset - w] + Be(|s| - offset, w) + s[offset..]
  }

  lemma PatchedInside(was: bytes, now: bytes, base: nat, len: nat, offset: nat, w: nat)
    requires |was| == |now| && base + len <= |now| && w <= offset <= len
    requires forall i :: 0 <= i < |now| && !(base + offset - w <= i < base + offset) ==> now[i] == was[i]
    requires now[base + offset - w..base + offset] == Be(len - offset, w)
    ensures now[base..base + len] == Patched(was[base..base + len], offset, w)
  {
    hide Be;
    var x, y, n := was[base..base + len], now[base..base + len], Be(len - offset, w);
    var p := Patched(x, offset, w);
    forall k | 0 <= k < len
      ensures y[k] == p[k]
    {
      assert y[k] == now[base + k] && x[k] == was[base + k];
      if offset - w <= k < offset {
        assert n[k - (offset - w)] == now[base + k];
      }
    }
  }

  /** Patching the reserved octets turns `pre, reserved, body` into `pre, length of body, body`. */
  lemma PatchedPrefix(pre: bytes, reserved: bytes, body: bytes)
    ensures Patched(pre + reserved + body, |pre| + |reserved|, |reserved|)
         == pre + (Be(|body|, |reserved|) + body)
  {
    var s := pre + reserved + body;
    var len := Be(|body|, |reserved|);
    assert s[..|pre|] == pre;
    assert s[|pre| + |reserved|..] == body;
    assert pre + len + body == pre + (len + body);
  }

  /** Octet `i` of a big-endian number is the number shifted right and masked. */
  lemma {:induction false} BeAt(n: nat, w: nat, i: nat)
    requires i < w
    ensures Be(n, w)[i] == n / Pow256(w - 1 - i) % 256
  {
    if i < w - 1 {
      BeAt(n / 256, w - 1, i);
      var p := Pow256(w - 2 - i);
      DivDiv(n, p);
    }
  }

  lemma DivDiv(n: nat, p: nat)
    requires p > 0
    ensures n / 256 / p == n / (256 * p)
  {
    var q, r := n / 256 / p, n / 256 % p;
    assert n / 256 == q * p + r;
    var rest := 256 * r + n % 256;
    assert n == 256 * (q * p + r) + n % 256;
    assert 256 * (q * p) == q * (256 * p);
    DivModUnique(n, 256 * p, q, rest);
  }
}
