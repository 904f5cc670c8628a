/** The server's first messages: ServerHello, HelloRetryRequest, EncryptedExtensions. */
module ServerHelloBuild {
  import opened Bytes
  import opened Msg
  import opened ServerHello

  // ----- what they are ---------------------------------------------------------------------

  function ShHead(random: bytes, sid: bytes, cipher: nat): bytes {
    U16(LEGACY_VERSION) + (random + (U8(|sid|) + (sid + (U16(cipher) + U8(0)))))
  }

  function ShBody(random: bytes, sid: bytes, cipher: nat, exts: bytes): bytes {
    ShHead(random, sid, cipher) + (U16(|exts|) + exts)
  }

  function ShMessage(random: bytes, sid: bytes, cipher: nat, exts: bytes): bytes {
    U8(2) + (U24(|ShBody(random, sid, cipher, exts)|) + ShBody(random, sid, cipher, exts))
  }

  const VERSION_EXT: bytes := U16(43) + (U16(2) + U16(0x0304))

  function ShareExt(group: nat, pub: bytes): bytes {
    U16(51) + (U16(4 + |pub|) + (U16(group) + (U16(|pub|) + pub)))
  }

  function PskExt(psk: Option<nat>): bytes {
    if psk.None? then [] else U16(41) + (U16(2) + U16(psk.value))
  }

  function ShExts(group: nat, pub: bytes, psk: Option<nat>): bytes {
    VERSION_EXT + (ShareExt(group, pub) + PskExt(psk))
  }

  function RetryExts(group: nat): bytes {
    VERSION_EXT + (U16(51) + (U16(2) + U16(group)))
  }

  function ShBytes(random: bytes, sid: bytes, cipher: nat, group: nat, pub: bytes, psk: Option<nat>): bytes {
    ShMessage(random, sid, cipher, ShExts(group, pub, psk))
  }

  function RetryBytes(sid: bytes, cipher: nat, group: nat): bytes {
    ShMessage(HRR_RANDOM, sid, cipher, RetryExts(group))
  }

  const EE_BYTES: bytes := [8, 0, 0, 2, 0, 0]

  // ----- the builders ----------------------------------------------------------------------

  // The session id and what follows it.
  function ShEcho(sid: bytes, cipher: nat): bytes { U8(|sid|) + (sid + (U16(cipher) + U8(0))) }

  method PutEcho(w: Writer, sid: bytes, cipher: nat)
    requires w.Valid() && |sid| < 256
    modifies w, w.buf
    ensures w.Wrote(ShEcho(sid, cipher))
  {
    hide U8, U16;
    w.PutU8(|sid|);
    w.PutBytes(sid);
    w.PutU16(cipher);
    w.PutU8(0);
    ghost var c := old(w.Contents());
    assert c + U8(|sid|) + sid + U16(cipher) + U8(0) == c + ShEcho(sid, cipher);
  }

  method PutShHead(w: Writer, random: bytes, sid: bytes, cipher: nat)
    requires w.Valid() && |random| == 32 && |sid| < 256
    modifies w, w.buf
    ensures w.Wrote(ShHead(random, sid, cipher))
  {
    hide U16, ShEcho;
    w.PutU16(LEGACY_VERSION);
    w.PutBytes(random);
    PutEcho(w, sid, cipher);
    ghost var c := old(w.Contents());
    assert c + U16(LEGACY_VERSION) + random + ShEcho(sid, cipher)
        == c + (U16(LEGACY_VERSION) + (random + ShEcho(sid, cipher)));
    ShHeadIs(random, sid, cipher);
  }

  lemma ShHeadIs(random: bytes, sid: bytes, cipher: nat)
    ensures ShHead(random, sid, cipher) == U16(LEGACY_VERSION) + (random + ShEcho(sid, cipher))
  {}

  method PutVersion(w: Writer)
    requires w.Valid()
    modifies w, w.buf
    ensures w.Wrote(VERSION_EXT)
  {
    w.PutU16(EXT_VERSION);
    w.PutU16(2);
    w.PutU16(0x0304);
    if !w.err {
      Join(old(w.Contents()) + U16(43), U16(2), U16(0x0304));
      Join(old(w.Contents()), U16(43), U16(2) + U16(0x0304));
    }
  }

  method PutShare(w: Writer, group: nat, pub: bytes)
    requires w.Valid() && |pub| <= 0xFFFF
    modifies w, w.buf
    ensures w.Wrote(ShareExt(group, pub))
  {
    hide U16;
    w.PutU16(EXT_KEY_SHARE);
    w.PutU16(4 + |pub|);
    w.PutU16(group);
    w.PutU16(|pub|);
    w.PutBytes(pub);
    if !w.err {
      var c, a, b, d := old(w.Contents()), U16(51), U16(4 + |pub|), U16(group);
      Join(c + a + b + d, U16(|pub|), pub);
      Join(c + a + b, d, U16(|pub|) + pub);
      Join(c + a, b, d + (U16(|pub|) + pub));
      Join(c, a, b + (d + (U16(|pub|) + pub)));
    }
  }

  method PutPsk(w: Writer, psk: Option<nat>)
    requires w.Valid()
    modifies w, w.buf
    ensures w.Wrote(PskExt(psk))
  {
    if psk.Some? {
      w.PutU16(EXT_PSK);
      w.PutU16(2);
      w.PutU16(psk.value);
      if !w.err {
        Join(old(w.Contents()) + U16(41), U16(2), U16(psk.value));
        Join(old(w.Contents()), U16(41), U16(2) + U16(psk.value));
      }
    }
  }

  method PutShExts(w: Writer, group: nat, pub: bytes, psk: Option<nat>)
    requires w.Valid() && |pub| <= 0xFFFF
    modifies w, w.buf
    ensures w.Wrote(ShExts(group, pub, psk))
  {
    hide ShareExt, PskExt;
    PutVersion(w);
    PutShare(w, group, pub);
    PutPsk(w, psk);
    if !w.err {
      Join(old(w.Contents()) + VERSION_EXT, ShareExt(group, pub), PskExt(psk));
      Join(old(w.Contents()), VERSION_EXT, ShareExt(group, pub) + PskExt(psk));
    }
  }

  method PutRetryExts(w: Writer, group: nat)
    requires w.Valid()
    modifies w, w.buf
    ensures w.Wrote(RetryExts(group))
  {
    hide U16;
    PutVersion(w);
    w.PutU16(EXT_KEY_SHARE);
    w.PutU16(2);
    w.PutU16(group);
    if !w.err {
      var c := old(w.Contents()) + VERSION_EXT;
      Join(c + U16(51), U16(2), U16(group));
      Join(c, U16(51), U16(2) + U16(group));
      Join(old(w.Contents()), VERSION_EXT, U16(51) + (U16(2) + U16(group)));
    }
  }

  // Closing the two open length fields around the extensions `e`.
  lemma Closed(c: bytes, head: bytes, e: bytes)
    ensures var s1 := c + U8(2) + Zeros(3) + head + Zeros(2) + e;
      var s2 := Patched(s1, |c| + 6 + |head|, 2);
      var body := head + (U16(|e|) + e);
      && |s2| == |s1| && |s1| == |c| + 6 + |head| + |e|
      && Patched(s2, |c| + 4, 3) == c + (U8(2) + (U24(|body|) + body))
  {
    hide U8, U16, U24, Be;
    var body := head + (U16(|e|) + e);
    PatchedPrefix(c + U8(2) + Zeros(3) + head, Zeros(2), e);
    BeWidths(|e|);
    Join(c + U8(2) + Zeros(3), head, U16(|e|) + e);
    PatchedPrefix(c + U8(2), Zeros(3), body);
    BeWidths(|body|);
    Join(c, U8(2), U24(|body|) + body);
  }

  // The same at the start of a buffer.
  lemma ClosedFirst(head: bytes, e: bytes)
    ensures var s1 := U8(2) + Zeros(3) + head + Zeros(2) + e;
      var s2 := Patched(s1, 6 + |head|, 2);
      var body := head + (U16(|e|) + e);
      && |s2| == |s1| == 6 + |head| + |e|
      && Patched(s2, 4, 3) == U8(2) + (U24(|body|) + body)
  {
    hide U8, U16, U24, Be, Patched;
    Closed([], head, e);
    assert [] + U8(2) == U8(2);
    var x := U8(2) + (U24(|head + (U16(|e|) + e)|) + (head + (U16(|e|) + e)));
    assert [] + x == x;
  }

  // Everything before the extensions, with the two length fields still open.
  method Open(w: Writer, random: bytes, sid: bytes, cipher: nat) returns (body: nat, ext: nat)
    requires w.Valid() && w.len == 0 && !w.err && |random| == 32 && |sid| < 256
    modifies w, w.buf
    ensures w.Wrote(U8(2) + Zeros(3) + ShHead(random, sid, cipher) + Zeros(2))
    ensures !w.err ==> body == 4 && ext == 6 + |ShHead(random, sid, cipher)|
  {
    hide ShHead, U8, U16;
    w.PutU8(HS_SERVER_HELLO);
    body := w.LenStart(3);
    PutShHead(w, random, sid, cipher);
    ext := w.LenStart(2);
    if !w.err {
      assert old(w.Contents()) + U8(2) == U8(2);
    }
  }

  /** `wn_ServerHello_Build`. */
  method BuildServerHello(buf: array<byte>, base: nat, cap: nat, random: bytes, sid: bytes, cipher: nat,
                          group: nat, pub: bytes, psk: Option<nat>) returns (ret: Status, len: nat)
    requires base + cap <= buf.Length && cap <= MAX_BUFFER && |random| == 32 && |sid| < 256 && |pub| <= 0xFFFF
    modifies buf
    ensures OnlyChanged(buf, base, base + cap)
    ensures var m := ShBytes(random, sid, cipher, group, pub, psk);
      ret == (if |m| <= cap then Success else CryptoErr) && (ret == Success ==> len == |m| && buf[base..base + len] == m)
  {
    hide ShHead, ShExts, U8, U16, U24;
    var w := new Writer(buf, base, cap);
    ghost var head, e := ShHead(random, sid, cipher), ShExts(group, pub, psk);
    var body, ext := Open(w, random, sid, cipher);
    PutShExts(w, group, pub, psk);
    ret, len := Finish(w, body, ext, head, e);
  }

  /** `wn_HelloRetryRequest_Build`. */
  method BuildRetry(buf: array<byte>, base: nat, cap: nat, sid: bytes, cipher: nat, group: nat)
    returns (ret: Status, len: nat)
    requires base + cap <= buf.Length && cap <= MAX_BUFFER && |sid| < 256
    modifies buf
    ensures OnlyChanged(buf, base, base + cap)
    ensures var m := RetryBytes(sid, cipher, group);
      ret == (if |m| <= cap then Success else CryptoErr) && (ret == Success ==> len == |m| && buf[base..base + len] == m)
  {
    hide ShHead, RetryExts, U8, U16, U24;
    var w := new Writer(buf, base, cap);
    ghost var head, e := ShHead(HRR_RANDOM, sid, cipher), RetryExts(group);
    var body, ext := Open(w, HRR_RANDOM, sid, cipher);
    PutRetryExts(w, group);
    ret, len := Finish(w, body, ext, head, e);
  }

  method Finish(w: Writer, body: nat, ext: nat, ghost head: bytes, ghost e: bytes) returns (ret: Status, len: nat)
    requires w.Valid() && (!w.err ==> body == 4 && ext == 6 + |head|)
    requires w.err || w.Contents() == U8(2) + Zeros(3) + head + Zeros(2) + e
    modifies w.buf
    ensures w.Valid() && w.Framed()
    ensures if w.err then ret == CryptoErr
      else var m := U8(2) + (U24(|head + (U16(|e|) + e)|) + (head + (U16(|e|) + e)));
        ret == Success && len == |m| && w.buf[w.base..w.base + len] == m
  {
    hide U8, U16, U24, Be, Patched;
    ret, len := Success, 0;
    w.LenEnd(ext, 2);
    w.LenEnd(body, 3);
    if w.err {
      ret := CryptoErr;
    } else {
      len := w.len;
      ClosedFirst(head, e);
    }
  }

  /** `wn_EncExt_Build`: an EncryptedExtensions message without extensions. */
  method BuildEncExt(buf: array<byte>, base: nat, cap: nat) returns (ret: Status, len: nat)
    requires base + cap <= buf.Length && cap <= MAX_BUFFER
    modifies buf
    ensures OnlyChanged(buf, base, base + cap)
    ensures ret == (if 6 <= cap then Success else CryptoErr)
    ensures ret == Success ==> len == 6 && buf[base..base + 6] == EE_BYTES
  {
    hide U8, U16, U24, Be;
    ret, len := Success, 0;
    var w := new Writer(buf, base, cap);
    w.PutU8(8);
    var body := w.LenStart(3);
    w.PutU16(0);
    w.LenEnd(body, 3);
    EncExtBytes();
    if w.err {
      ret := CryptoErr;
    } else {
      len := w.len;
    }
  }

  lemma EncExtBytes()
    ensures [] + U8(8) + Zeros(3) + U16(0) == U8(8) + Zeros(3) + U16(0)
    ensures Patched(U8(8) + Zeros(3) + U16(0), 4, 3) == EE_BYTES
  {}
}
