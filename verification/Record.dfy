/** Record framing and protection (`wn_record.c`). */
module Record {
  import opened Bytes
  import opened Crypto
  import opened Transport
  import opened Msg

  const HEADER_SZ: nat := 5
  const MAX_PLAINTEXT: nat := 16384
  const REC_CCS: byte := 20
  const REC_ALERT: byte := 21
  const REC_HANDSHAKE: byte := 22
  const REC_APPDATA: byte := 23

  // ----- framing ---------------------------------------------------------------------------

  function Header(ctype: byte, len: nat): bytes {
    [ctype, 3, 3] + U16(len)
  }

  /** A plaintext record; `len` is truncated to the 16-bit field as in the C code. */
  function PlainRecord(ctype: byte, body: bytes): bytes {
    Header(ctype, |body|) + body
  }

  const CCS_RECORD: bytes := PlainRecord(REC_CCS, [1])

  datatype Received = Received(status: Status, ctype: byte, rec: bytes, rest: bytes)

  /** Reading one record from the input stream into a buffer of `cap` octets. */
  function RecordIn(inp: bytes, cap: nat): (r: Received)
    ensures |r.rest| <= |inp|
    ensures r.status == Success ==> |r.rec| > HEADER_SZ && |r.rec| <= cap && inp == r.rec + r.rest && r.ctype == r.rec[0]
    ensures r.status == Success ==> |r.rest| < |inp|
  {
    if |inp| < HEADER_SZ then Received(CryptoErr, 0, [], []) else
    var frag := Num16(inp, 3);
    if BadLength(frag, cap) then Received(CryptoErr, inp[0], [], inp[HEADER_SZ..])
    else if |inp| < HEADER_SZ + frag then Received(CryptoErr, inp[0], [], [])
    else
      var rec, rest := inp[..HEADER_SZ + frag], inp[HEADER_SZ + frag..];
      if inp[0] == REC_CCS && (frag != 1 || inp[HEADER_SZ] != 1)
      then Received(DecodeErr, inp[0], rec, rest)
      else Received(Success, inp[0], rec, rest)
  }

  /** Read exactly `n` octets however the transport chunks them. */
  method RecvExact(t: Pipe, buf: array<byte>, off: nat, n: nat) returns (ret: Status)
    requires off + n <= buf.Length
    modifies t`inp, buf
    ensures ret == if n <= |old(t.inp)| then Success else CryptoErr
    ensures t.inp == if n <= |old(t.inp)| then old(t.inp)[n..] else []
    ensures ret == Success ==> buf[off..off + n] == old(t.inp)[..n]
    ensures OnlyChanged(buf, off, off + n)
  {
    ret := Success;
    var got := 0;
    ghost var all := t.inp;
    while got < n && ret == Success
      invariant 0 <= got <= n
      invariant ret == Success ==> got <= |all| && t.inp == all[got..] && buf[off..off + got] == all[..got]
      invariant ret != Success ==> ret == CryptoErr && |all| < n && t.inp == []
      invariant OnlyChanged(buf, off, off + n)
      decreases n - got, ret == Success
    {
      ghost var before := buf[off..off + got];
      var r := t.Recv(buf, off + got, n - got);
      if r == 0 {
        ret := CryptoErr;
      } else {
        assert buf[off..off + got] == before;
        got := got + r;
        assert forall k :: 0 <= k < got ==> buf[off + k] == all[k];
      }
    }
  }

  predicate BadLength(frag: nat, cap: nat) {
    frag == 0 || frag + HEADER_SZ > cap || frag > MAX_PLAINTEXT + 256
  }

  // The five octets of the header, and whether the length in them is acceptable.
  method RecvHeader(t: Pipe, buf: array<byte>, off: nat, cap: nat) returns (ret: Status, ctype: byte, frag: nat)
    requires off + cap <= buf.Length && HEADER_SZ <= cap
    modifies t`inp, buf
    ensures OnlyChanged(buf, off, off + HEADER_SZ)
    ensures var all := old(t.inp);
      if |all| < HEADER_SZ then ret == CryptoErr && t.inp == []
      else
        && t.inp == all[HEADER_SZ..] && ctype == all[0] && frag == Num16(all, 3)
        && ret == (if BadLength(frag, cap) then CryptoErr else Success)
        && (ret == Success ==> buf[off..off + HEADER_SZ] == all[..HEADER_SZ])
  {
    ctype, frag := 0, 0;
    ghost var all := t.inp;
    ret := RecvExact(t, buf, off, HEADER_SZ);
    if ret == Success {
      ghost var got := buf[off..off + HEADER_SZ];
      assert buf[off] == got[0] && buf[off + 3] == got[3] && buf[off + 4] == got[4];
      ctype := buf[off];
      frag := 256 * (buf[off + 3] as int) + buf[off + 4];
      if frag == 0 || frag + HEADER_SZ > cap || frag > MAX_PLAINTEXT + 256 {
        ret := CryptoErr;
      }
    }
  }

  /** Read one record into `buf[off .. off + cap)`. */
  method RecvRecord(t: Pipe, buf: array<byte>, off: nat, cap: nat)
    returns (ret: Status, ctype: byte, recLen: nat)
    requires off + cap <= buf.Length && HEADER_SZ <= cap
    modifies t`inp, buf
    ensures var r := RecordIn(old(t.inp), cap);
      && ret == r.status && t.inp == r.rest
      && (ret == Success ==> ctype == r.ctype && recLen == |r.rec| && buf[off..off + recLen] == r.rec)
    ensures OnlyChanged(buf, off, off + cap)
  {
    hide Num16;
    recLen := 0;
    ghost var all := t.inp;
    var frag;
    ret, ctype, frag := RecvHeader(t, buf, off, cap);
    if ret == Success {
      ret := RecvBody(t, buf, off, frag, all);
      recLen := frag + HEADER_SZ;
    }
    if ret == Success {
      assert buf[off + HEADER_SZ] == buf[off..off + recLen][HEADER_SZ];
      if ctype == REC_CCS && (frag != 1 || buf[off + HEADER_SZ] != 1) {
        ret := DecodeErr;
      }
    }
  }

  // The body behind a header that has been read.
  method RecvBody(t: Pipe, buf: array<byte>, off: nat, frag: nat, ghost all: bytes) returns (ret: Status)
    requires off + HEADER_SZ + frag <= buf.Length && |all| >= HEADER_SZ
    requires t.inp == all[HEADER_SZ..] && buf[off..off + HEADER_SZ] == all[..HEADER_SZ]
    modifies t`inp, buf
    ensures OnlyChanged(buf, off, off + HEADER_SZ + frag)
    ensures if |all| < HEADER_SZ + frag then ret == CryptoErr && t.inp == []
      else
        && ret == Success && t.inp == all[HEADER_SZ + frag..]
        && buf[off..off + HEADER_SZ + frag] == all[..HEADER_SZ + frag]
  {
    var start := off + HEADER_SZ;
    ghost var head := buf[off..start];
    ret := RecvExact(t, buf, start, frag);
    if ret == Success {
      assert buf[off..start] == head;
      assert buf[off..start + frag] == buf[off..start] + buf[start..start + frag];
      assert all[..HEADER_SZ + frag] == all[..HEADER_SZ] + all[HEADER_SZ..][..frag];
      assert all[HEADER_SZ..][frag..] == all[HEADER_SZ + frag..];
    }
  }

  /** An application-data record whose header states its length. */
  predicate WellFramed(rec: bytes) {
    && HEADER_SZ < |rec| <= HEADER_SZ + MAX_PLAINTEXT + 256
    && rec[0] == REC_APPDATA && Num16(rec, 3) == |rec| - HEADER_SZ
  }

  /** A well-formed record at the front of the stream is read whole and nothing else is. */
  lemma RecordInReads(rec: bytes, rest: bytes, cap: nat)
    requires HEADER_SZ < |rec| <= cap && |rec| - HEADER_SZ <= MAX_PLAINTEXT + 256
    requires Num16(rec, 3) == |rec| - HEADER_SZ
    requires rec[0] == REC_CCS ==> |rec| == 6 && rec[5] == 1
    ensures RecordIn(rec + rest, cap) == Received(Success, rec[0], rec, rest)
  {}

  lemma PlainRecordIn(ctype: byte, body: bytes, rest: bytes, cap: nat)
    requires 0 < |body| <= MAX_PLAINTEXT && |body| + HEADER_SZ <= cap
    requires ctype == REC_CCS ==> body == [1]
    ensures RecordIn(PlainRecord(ctype, body) + rest, cap)
         == Received(Success, ctype, PlainRecord(ctype, body), rest)
  {}

  // ----- nonces ----------------------------------------------------------------------------

  /** `iv` with its last octets masked by those of `mask`, the two aligned on the right. */
  function Masked(iv: bytes, mask: bytes): (r: bytes)
    ensures |r| == |iv|
    decreases |iv|
  {
    if iv == [] || mask == [] then iv else
    Masked(iv[..|iv| - 1], mask[..|mask| - 1]) + [Xor(iv[|iv| - 1], mask[|mask| - 1])]
  }

  lemma {:induction false} MaskedAt(iv: bytes, mask: bytes, k: nat)
    requires |mask| <= |iv| && k < |iv|
    ensures Masked(iv, mask)[k]
         == if k < |iv| - |mask| then iv[k] else Xor(iv[k], mask[k - (|iv| - |mask|)])
    decreases |iv|
  {
    if mask != [] && k < |iv| - 1 {
      MaskedAt(iv[..|iv| - 1], mask[..|mask| - 1], k);
    }
  }

  /** The write IV masked by the 64-bit sequence number (RFC 8446 section 5.3). */
  function Nonce(iv: bytes, seqNo: nat): (r: bytes)
    ensures |r| == |iv|
  {
    Masked(iv, Be(seqNo, 8))
  }

  /** Octet by octet: the counter, most significant octet first, masks the last eight octets of the IV. */
  lemma NonceAt(iv: bytes, seqNo: nat, k: nat)
    requires |iv| == 12 && k < 12
    ensures Nonce(iv, seqNo)[k] == if k < 4 then iv[k] else Xor(iv[k], seqNo / Pow256(11 - k) % 256)
  {
    hide Be, Masked, Pow256;
    MaskedAt(iv, Be(seqNo, 8), k);
    if k >= 4 {
      BeAt(seqNo, 8, k - 4);
    }
  }

  /** What the mask amounts to: removed again, the last eight octets read as the counter. */
  lemma NonceReadsAsCounter(iv: bytes, seqNo: nat)
    requires |iv| == 12 && seqNo < TWO64
    ensures FromBe(seq(8, j requires 0 <= j < 8 => Xor(iv[4 + j], Nonce(iv, seqNo)[4 + j]))) == seqNo
  {
    hide Masked, Be, FromBe;
    var mask, back := Be(seqNo, 8), seq(8, j requires 0 <= j < 8 => Xor(iv[4 + j], Nonce(iv, seqNo)[4 + j]));
    forall j | 0 <= j < 8
      ensures back[j] == mask[j]
    {
      MaskedAt(iv, mask, 4 + j);
      XorCancels(iv[4 + j], mask[j]);
    }
    assert back == mask;
    FromBeOfBe(seqNo, 8);
    Pow256Eight();
  }

  method BuildNonce(iv: bytes, seqNo: nat) returns (nonce: bytes)
    requires |iv| == IV_SZ && seqNo < TWO64
    ensures nonce == Nonce(iv, seqNo)
    ensures forall k :: 0 <= k < 12 ==> nonce[k] == if k < 4 then iv[k] else Xor(iv[k], seqNo / Pow256(11 - k) % 256)
  {
    hide Nonce, Xor, Pow256;
    var a := new byte[12](i requires 0 <= i < 12 => iv[i]);
    var i := 0;
    while i < 8
      invariant 0 <= i <= 8
      invariant forall k :: 0 <= k < 12 - i ==> a[k] == iv[k]
      invariant forall k :: 12 - i <= k < 12 ==> a[k] == Xor(iv[k], seqNo / Pow256(11 - k) % 256)
    {
      a[11 - i] := Xor(a[11 - i], seqNo / Pow256(i) % 256);
      i := i + 1;
    }
    nonce := a[..];
    forall k | 0 <= k < 12
      ensures nonce[k] == Nonce(iv, seqNo)[k]
    {
      NonceAt(iv, seqNo, k);
    }
  }

  /** For a fixed IV, two sequence numbers give the same nonce only if they are equal mod 2^64. */
  lemma NonceInjective(iv: bytes, a: nat, b: nat)
    requires |iv| == IV_SZ
    requires Nonce(iv, a) == Nonce(iv, b)
    ensures a % TWO64 == b % TWO64
  {
    var x, y := Be(a, 8), Be(b, 8);
    forall i | 0 <= i < 8
      ensures x[i] == y[i]
    {
      MaskedAt(iv, x, 4 + i);
      MaskedAt(iv, y, 4 + i);
      XorInjective(iv[4 + i], x[i], y[i]);
    }
    assert x == y;
    FromBeOfBe(a, 8);
    FromBeOfBe(b, 8);
    Pow256Eight();
  }

  // ----- protection ------------------------------------------------------------------------

  /** The length of `inner` without its trailing zero padding. */
  function Unpadded(inner: bytes): (n: nat)
    ensures n <= |inner|
    ensures n > 0 ==> inner[n - 1] != 0
    ensures forall i :: n <= i < |inner| ==> inner[i] == 0
  {
    if inner == [] || inner[|inner| - 1] != 0 then |inner| else Unpadded(inner[..|inner| - 1])
  }

  /** A protected record carrying `content`, its type and `pad` zero octets. */
  function Sealed(c: Suite, key: bytes, iv: bytes, seqNo: nat, ctype: byte, content: bytes, pad: nat): bytes {
    var inner := content + [ctype] + Zeros(pad);
    var hdr := Header(REC_APPDATA, |inner| + TAG_SZ);
    hdr + c.seal(key, Nonce(iv, seqNo), hdr, inner)
  }

  datatype Opened = Opened(status: Status, content: bytes, ctype: byte)

  function Unsealed(c: Suite, key: bytes, iv: bytes, seqNo: nat, rec: bytes): Opened {
    if |rec| < HEADER_SZ + TAG_SZ + 1 then Opened(InvalidArg, [], 0) else
    match c.open(key, Nonce(iv, seqNo), rec[..HEADER_SZ], rec[HEADER_SZ..])
    case None => Opened(BadMac, [], 0)
    case Some(inner) =>
      var n := Unpadded(inner);
      if n == 0 then Opened(DecodeErr, [], 0) else Opened(Success, inner[..n - 1], inner[n - 1])
  }

  /** Build a protected record in `buf[off ..)`; the library itself never pads. */
  method Protect(c: Suite, buf: array<byte>, off: nat, key: bytes, iv: bytes, seqNo: nat,
                 ctype: byte, content: bytes) returns (ret: Status, recLen: nat)
    requires c.Laws() && |iv| == IV_SZ && seqNo < TWO64
    requires |content| <= MAX_PLAINTEXT ==> off + HEADER_SZ + |content| + 1 + TAG_SZ <= buf.Length
    modifies buf
    ensures ret == if |content| > MAX_PLAINTEXT then InvalidArg else Success
    ensures ret == Success ==>
      && recLen == HEADER_SZ + |content| + 1 + TAG_SZ
      && buf[off..off + recLen] == Sealed(c, key, iv, seqNo, ctype, content, 0)
    ensures OnlyChanged(buf, off, off + HEADER_SZ + |content| + 1 + TAG_SZ)
  {
    hide Nonce;
    recLen := 0;
    if |content| > MAX_PLAINTEXT {
      return InvalidArg, 0;
    }
    var innerLen := |content| + 1;
    var ctLen := innerLen + TAG_SZ;
    var nonce := BuildNonce(iv, seqNo);
    Stage(buf, off, ctype, content, ctLen);
    var start := off + HEADER_SZ;
    var hdr, inner := buf[off..start], buf[start..start + innerLen];
    assert inner == content + [ctype] + Zeros(0);
    var ct := c.seal(key, nonce, hdr, inner);
    assert |ct| == ctLen;
    Overwrite(buf, start, ct);
    recLen := HEADER_SZ + ctLen;
    assert buf[off..start] == hdr;
    assert buf[off..off + recLen] == hdr + ct;
    ret := Success;
  }

  method Overwrite(buf: array<byte>, off: nat, data: bytes)
    requires off + |data| <= buf.Length
    modifies buf
    ensures buf[off..off + |data|] == data
    ensures OnlyChanged(buf, off, off + |data|)
  {
    forall i | 0 <= i < |data| {
      buf[off + i] := data[i];
    }
  }

  method PutHeader(buf: array<byte>, off: nat, len: nat)
    requires off + HEADER_SZ <= buf.Length
    modifies buf
    ensures buf[off..off + HEADER_SZ] == Header(REC_APPDATA, len)
    ensures OnlyChanged(buf, off, off + HEADER_SZ)
  {
    buf[off], buf[off + 1], buf[off + 2] := 23, 3, 3;
    buf[off + 3], buf[off + 4] := len / 256 % 256, len % 256;
  }

  method PutInner(buf: array<byte>, start: nat, ctype: byte, content: bytes)
    requires start + |content| + 1 <= buf.Length
    modifies buf
    ensures buf[start..start + |content| + 1] == content + [ctype]
    ensures OnlyChanged(buf, start, start + |content| + 1)
  {
    Overwrite(buf, start, content);
    ghost var put := buf[start..start + |content|];
    buf[start + |content|] := ctype;
    assert buf[start..start + |content|] == put;
    assert buf[start..start + |content| + 1] == buf[start..start + |content|] + [buf[start + |content|]];
  }

  // The header and the plaintext that is then encrypted in place.
  method Stage(buf: array<byte>, off: nat, ctype: byte, content: bytes, ctLen: nat)
    requires off + HEADER_SZ + |content| + 1 <= buf.Length
    modifies buf
    ensures buf[off..off + HEADER_SZ] == Header(REC_APPDATA, ctLen)
    ensures buf[off + HEADER_SZ..off + HEADER_SZ + |content| + 1] == content + [ctype]
    ensures OnlyChanged(buf, off, off + HEADER_SZ + |content| + 1)
  {
    hide Header;
    var start := off + HEADER_SZ;
    PutHeader(buf, off, ctLen);
    ghost var hdr := buf[off..start];
    PutInner(buf, start, ctype, content);
    assert buf[off..start] == hdr;
  }

  /** Open the record `src[sOff ..)` into `dst[dOff ..)`, which may overlap it. */
  method Unprotect(c: Suite, dst: array<byte>, dOff: nat, key: bytes, iv: bytes, seqNo: nat,
                   src: array<byte>, sOff: nat, recLen: nat)
    returns (ret: Status, contentLen: nat, ctype: byte)
    requires c.Laws() && |iv| == IV_SZ && seqNo < TWO64
    requires sOff + recLen <= src.Length
    requires recLen > HEADER_SZ + TAG_SZ ==> dOff + recLen - HEADER_SZ - TAG_SZ <= dst.Length
    modifies dst
    ensures OpenedInto(ret, contentLen, ctype, dst, dOff, recLen,
                       Unsealed(c, key, iv, seqNo, old(src[sOff..sOff + recLen])))
    ensures OnlyChanged(dst, dOff, dOff + recLen - HEADER_SZ - TAG_SZ)
  {
    hide Nonce;
    ret, contentLen, ctype := Success, 0, 0;
    ghost var rec := src[sOff..sOff + recLen];
    if recLen < HEADER_SZ + TAG_SZ + 1 {
      ret := InvalidArg;
    } else {
      var innerLen := recLen - HEADER_SZ - TAG_SZ;
      var nonce := BuildNonce(iv, seqNo);
      var hdr, ct := src[sOff..sOff + HEADER_SZ], src[sOff + HEADER_SZ..sOff + recLen];
      assert hdr == rec[..HEADER_SZ] && ct == rec[HEADER_SZ..];
      var plain := c.open(key, nonce, hdr, ct);
      if plain.None? {
        ret := BadMac;
      } else {
        assert |plain.value| == innerLen;
        Overwrite(dst, dOff, plain.value);
        ret, contentLen, ctype := TakeContent(dst, dOff, innerLen);
      }
    }
  }

  ghost predicate OpenedInto(ret: Status, contentLen: nat, ctype: byte, dst: array<byte>, dOff: nat, recLen: nat,
                             r: Opened)
    reads dst
  {
    && ret == r.status
    && (ret == Success ==>
      && ctype == r.ctype && contentLen == |r.content|
      && contentLen < recLen - HEADER_SZ - TAG_SZ && dOff + contentLen <= dst.Length
      && dst[dOff..dOff + contentLen] == r.content)
  }

  /** Split the inner plaintext at its last non-zero octet, which is the content type. */
  method TakeContent(dst: array<byte>, dOff: nat, innerLen: nat)
    returns (ret: Status, contentLen: nat, ctype: byte)
    requires dOff + innerLen <= dst.Length
    ensures var inner := dst[dOff..dOff + innerLen]; var n := Unpadded(inner);
      if n == 0 then ret == DecodeErr
      else
        && ret == Success && contentLen == n - 1 && ctype == inner[n - 1]
        && dst[dOff..dOff + contentLen] == inner[..n - 1]
  {
    ret, contentLen, ctype := Success, 0, 0;
    var n := StripPadding(dst, dOff, innerLen);
    if n == 0 {
      ret := DecodeErr;
    } else {
      ctype, contentLen := dst[dOff + n - 1], n - 1;
    }
  }

  /** Find the last non-zero octet of the inner plaintext. */
  method StripPadding(dst: array<byte>, dOff: nat, innerLen: nat) returns (n: nat)
    requires dOff + innerLen <= dst.Length
    ensures n == Unpadded(dst[dOff..dOff + innerLen])
  {
    var inner := dst[dOff..dOff + innerLen];
    n := innerLen;
    assert inner[..n] == inner;
    while n > 0 && dst[dOff + n - 1] == 0
      invariant 0 <= n <= innerLen
      invariant Unpadded(inner[..n]) == Unpadded(inner)
    {
      assert inner[..n][..n - 1] == inner[..n - 1];
      n := n - 1;
    }
    assert n > 0 ==> inner[..n][n - 1] == dst[dOff + n - 1];
  }

  lemma {:induction false} UnpaddedOfPadding(inner: bytes, pad: nat)
    requires inner != [] && inner[|inner| - 1] != 0
    ensures Unpadded(inner + Zeros(pad)) == |inner|
  {
    if pad == 0 {
      assert inner + Zeros(0) == inner;
    } else {
      var s := inner + Zeros(pad);
      assert s[..|s| - 1] == inner + Zeros(pad - 1);
      UnpaddedOfPadding(inner, pad - 1);
    }
  }

  /** Opening a protected record gives back its content and type, whatever its padding. */
  lemma UnsealSealed(c: Suite, key: bytes, iv: bytes, seqNo: nat, ctype: byte, content: bytes, pad: nat)
    requires c.Laws() && ctype != 0
    ensures Unsealed(c, key, iv, seqNo, Sealed(c, key, iv, seqNo, ctype, content, pad))
         == Opened(Success, content, ctype)
  {
    var inner := content + [ctype] + Zeros(pad);
    var hdr := Header(REC_APPDATA, |inner| + TAG_SZ);
    var ct := c.seal(key, Nonce(iv, seqNo), hdr, inner);
    var rec := hdr + ct;
    assert |ct| == |inner| + TAG_SZ;
    assert rec[..HEADER_SZ] == hdr && rec[HEADER_SZ..] == ct;
    assert c.open(key, Nonce(iv, seqNo), hdr, ct) == Some(inner);
    UnpaddedOfPadding(content + [ctype], pad);
    assert inner[..|content|] == content;
  }

  /** A protected record that fits is framed so that the receiver reads exactly it. */
  lemma SealedIn(c: Suite, key: bytes, iv: bytes, seqNo: nat, ctype: byte, content: bytes, pad: nat, rest: bytes,
    cap: nat)
    requires c.Laws()
    requires |content| + 1 + pad + TAG_SZ <= MAX_PLAINTEXT + 256
    requires HEADER_SZ + |content| + 1 + pad + TAG_SZ <= cap
    ensures var rec := Sealed(c, key, iv, seqNo, ctype, content, pad);
      && |rec| == HEADER_SZ + |content| + 1 + pad + TAG_SZ && WellFramed(rec)
      && RecordIn(rec + rest, cap) == Received(Success, REC_APPDATA, rec, rest)
  {
    var inner := content + [ctype] + Zeros(pad);
    var hdr := Header(REC_APPDATA, |inner| + TAG_SZ);
    assert |c.seal(key, Nonce(iv, seqNo), hdr, inner)| == |inner| + TAG_SZ;
    RecordInReads(Sealed(c, key, iv, seqNo, ctype, content, pad), rest, cap);
  }
}
