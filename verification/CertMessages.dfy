/**
 * Certificate and CertificateVerify: what the server writes (`wn_servercert.c`) and what the
 * client's flight loop reads (`wn_connect.c`), and the order of the flight (`wn_flight.h`).
 */
module CertMessages {
  import opened Bytes
  import opened Crypto
  import opened Msg
  import opened Handshake
  import Record

  const HS_CERTIFICATE: byte := 11
  const HS_CERT_REQUEST: byte := 13
  const HS_CERT_VERIFY: byte := 15
  const MAX_CHAIN: nat := 4

  // ----- Certificate -----------------------------------------------------------------------

  function CertEntry(der: bytes): bytes { U24(|der|) + (der + U16(0)) }

  function CertBody(der: bytes): bytes { U8(0) + (U24(|CertEntry(der)|) + CertEntry(der)) }

  /** A Certificate message with one certificate and no extensions. */
  function CertMsg(der: bytes): bytes { U8(HS_CERTIFICATE) + (U24(|CertBody(der)|) + CertBody(der)) }

  lemma CertClosed(der: bytes)
    ensures var s2 := Patched(OpenCert(der), 11, 3) + U16(0);
      && |Patched(OpenCert(der), 11, 3)| == 11 + |der| && |s2| == 13 + |der| && |Patched(s2, 8, 3)| == 13 + |der|
      && Patched(Patched(s2, 8, 3), 4, 3) == CertMsg(der)
  {
    hide U8, U16, U24, Be;
    var h, ctx := U8(HS_CERTIFICATE), U8(0);
    PatchedPrefix(h + Zeros(3) + ctx + Zeros(3), Zeros(3), der);
    BeWidths(|der|);
    var pre := h + Zeros(3) + ctx;
    var entry := U24(|der|) + (der + U16(0));
    assert pre + Zeros(3) + (U24(|der|) + der) + U16(0) == pre + Zeros(3) + entry;
    PatchedPrefix(pre, Zeros(3), entry);
    BeWidths(|entry|);
    Join(h + Zeros(3), ctx, U24(|entry|) + entry);
    PatchedPrefix(h, Zeros(3), ctx + (U24(|entry|) + entry));
    BeWidths(|ctx + (U24(|entry|) + entry)|);
  }

  /** `wn_ServerCert_Build`. */
  method BuildServerCert(buf: array<byte>, base: nat, cap: nat, certDer: bytes) returns (ret: Status, len: nat)
    requires base + cap <= buf.Length && cap <= MAX_BUFFER && |certDer| <= MAX_BUFFER
    modifies buf
    ensures OnlyChanged(buf, base, base + cap)
    ensures var m := CertMsg(certDer);
      ret == (if |m| <= cap then Success else CryptoErr) && (ret == Success ==> len == |m| && buf[base..base + len] == m)
  {
    hide U8, U16, CertMsg, OpenCert;
    ret, len := Success, 0;
    CertMsgSize(certDer);
    var w := new Writer(buf, base, cap);
    var body, list, entry := PutCert(w, certDer);
    CloseCert(w, body, list, entry, certDer);
    if w.err {
      ret := CryptoErr;
    } else {
      len := w.len;
    }
  }

  // Everything up to the end of the certificate, with three length fields still open.
  function OpenCert(der: bytes): (r: bytes)
    ensures |r| == 11 + |der|
  {
    U8(HS_CERTIFICATE) + Zeros(3) + U8(0) + Zeros(3) + Zeros(3) + der
  }

  method CloseCert(w: Writer, body: nat, list: nat, entry: nat, ghost certDer: bytes)
    requires w.Valid() && (!w.err ==> body == 4 && list == 8 && entry == 11)
    requires w.err || w.Contents() == OpenCert(certDer)
    requires !w.err ==> 11 + |certDer| <= w.cap
    modifies w, w.buf
    ensures w.Valid() && OnlyChanged(w.buf, w.base, w.base + w.cap)
    ensures w.err == (old(w.err) || 13 + |certDer| > w.cap)
    ensures !w.err ==> w.Contents() == CertMsg(certDer)
  {
    hide U8, U16, Patched, CertMsg;
    CertClosed(certDer);
    w.LenEnd(entry, 3);
    ghost var s1 := w.Contents();
    w.PutU16(0);
    ghost var s2 := w.Contents();
    w.LenEnd(list, 3);
    ghost var s3 := w.Contents();
    w.LenEnd(body, 3);
    if !w.err {
      assert s2 == s1 + U16(0);
      assert s3 == Patched(s2, 8, 3);
    }
  }

  lemma CertMsgSize(der: bytes)
    ensures |CertMsg(der)| == 13 + |der|
  {}

  lemma OpenIs(der: bytes)
    ensures var head, list := U8(HS_CERTIFICATE) + Zeros(3), Zeros(3) + Zeros(3);
      [] + head + U8(0) + list + der == [] + OpenCert(der)
  {
    hide U8;
    var head := U8(HS_CERTIFICATE) + Zeros(3);
    assert [] + head == head;
    Join(head + U8(0), Zeros(3), Zeros(3));
  }

  method PutCert(w: Writer, certDer: bytes) returns (body: nat, list: nat, entry: nat)
    requires w.Valid() && w.len == 0 && !w.err && |certDer| <= MAX_BUFFER
    modifies w, w.buf
    ensures w.Wrote(OpenCert(certDer))
    ensures !w.err ==> body == 4 && list == 8 && entry == 11
  {
    hide U8, OpenCert;
    body := PutMessageHead(w, HS_CERTIFICATE);
    w.PutU8(0);
    list, entry := PutListHead(w);
    w.PutBytes(certDer);
    OpenIs(certDer);
    assert old(w.Contents()) == [];
  }

  // The type of a message and its open length.
  method PutMessageHead(w: Writer, mType: byte) returns (body: nat)
    requires w.Valid() && w.len == 0 && !w.err
    modifies w, w.buf
    ensures w.Wrote(U8(mType) + Zeros(3))
    ensures !w.err ==> body == w.len == 4
  {
    hide U8;
    w.PutU8(mType);
    body := w.LenStart(3);
    Join(old(w.Contents()), U8(mType), Zeros(3));
  }

  // The open lengths of a list and of its first entry.
  method PutListHead(w: Writer) returns (list: nat, entry: nat)
    requires w.Valid()
    modifies w, w.buf
    ensures w.Wrote(Zeros(3) + Zeros(3))
    ensures !w.err ==> list == old(w.len) + 3 && entry == old(w.len) + 6
  {
    list := w.LenStart(3);
    entry := w.LenStart(3);
    Join(old(w.Contents()), Zeros(3), Zeros(3));
  }

  // ----- what the client reads -------------------------------------------------------------

  /** The certificate_list entries; at most four. */
  function Entries(b: bytes, n: nat): Option<seq<bytes>>
    decreases |b|
  {
    if b == [] then Some([])
    else if n >= MAX_CHAIN || |b| < 3 || |b| < 3 + Num24(b, 0) + 2 then None
    else
      var cl := Num24(b, 0);
      var end := 5 + cl + Num16(b, 3 + cl);
      if |b| < end then None else
      var rest := Entries(b[end..], n + 1);
      if rest.None? then None else Some([b[3..3 + cl]] + rest.value)
  }

  /** The chain of a Certificate body: an empty request context and a list that fills the message. */
  function CertListOf(body: bytes): Option<seq<bytes>> {
    if |body| < 4 || body[0] != 0 || 4 + Num24(body, 1) != |body| then None else Entries(body[4..], 0)
  }

  lemma {:induction false} EntriesAreFew(b: bytes, n: nat)
    requires n <= MAX_CHAIN && Entries(b, n).Some?
    ensures n + |Entries(b, n).value| <= MAX_CHAIN
    decreases |b|
  {
    if b != [] {
      var cl := Num24(b, 0);
      EntriesAreFew(b[5 + cl + Num16(b, 3 + cl)..], n + 1);
    }
  }

  method ReadEntry(r: Reader) returns (cert: bytes)
    requires r.Valid() && !r.err && r.pos < |r.data|
    modifies r
    ensures r.Valid() && r.pos >= old(r.pos) && (!r.err ==> r.pos > old(r.pos))
    ensures forall n: nat :: n < MAX_CHAIN ==>
      Entries(r.data[old(r.pos)..], n) == if r.err then None else Prepended(cert, Entries(r.data[r.pos..], n + 1))
  {
    hide Num16, Num24;
    ghost var p, b := r.pos, r.data[r.pos..];
    cert := [];
    var cl := r.GetU24();
    var at := r.GetBytes(cl);
    if at.Some? {
      cert := r.data[at.value..at.value + cl];
    }
    var extl := r.GetU16();
    var _ := r.GetBytes(extl);
    Num24Sub(r.data, p);
    if !r.err {
      Num16Sub(r.data, p, 3 + cl);
      assert b[5 + cl + extl..] == r.data[r.pos..];
      assert b[3..3 + cl] == cert;
    } else if |b| >= 3 && |b| >= 5 + Num24(b, 0) {
      Num16Sub(r.data, p, 3 + Num24(b, 0));
    }
  }

  function Prepended(cert: bytes, rest: Option<seq<bytes>>): Option<seq<bytes>> {
    if rest.None? then None else Some([cert] + rest.value)
  }

  lemma Num24Sub(data: bytes, p: nat)
    requires p <= |data|
    ensures p + 3 <= |data| ==> Num24(data[p..], 0) == Num24(data, p)
  {}

  lemma Num16Sub(data: bytes, p: nat, i: nat)
    requires p + i + 2 <= |data|
    ensures Num16(data[p..], i) == Num16(data, p + i)
  {}

  /** The client's loop over the chain. */
  method ReadCertList(body: bytes) returns (ret: Status, certs: seq<bytes>)
    requires |body| <= MAX_BUFFER
    ensures CertListOf(body) == if ret == Success then Some(certs) else None
    ensures ret == Success || ret == DecodeErr
  {
    hide Entries;
    ret, certs := Success, [];
    var r := new Reader(body);
    var ctxLen := r.GetU8();
    var _ := r.GetBytes(ctxLen);
    var listLen := r.GetU24();
    var listEnd := r.pos + listLen;
    if r.err || ctxLen != 0 || listEnd != |body| {
      ret := DecodeErr;
    }
    ghost var goal := CertListOf(body);
    AppendNone([], if ret == Success then Entries(body[r.pos..], 0) else None);
    while ret == Success && r.pos < listEnd && |certs| < MAX_CHAIN && !r.err
      invariant r.Valid() && r.data == body && |certs| <= MAX_CHAIN
      invariant ret == Success ==>
        goal == if r.err then None else Appended(certs, Entries(body[r.pos..], |certs|))
      decreases |body| - r.pos, !r.err
    {
      ghost var was, p := certs, r.pos;
      var cert := ReadEntry(r);
      certs := certs + [cert];
      if !r.err {
        AppendOne(was, cert, Entries(body[r.pos..], |certs|));
      }
    }
    if ret == Success && (r.err || r.pos != listEnd) {
      ret := DecodeErr;
    }
    EntriesEnd(body, r.pos, |certs|);
    assert certs + [] == certs;
  }

  function Appended(front: seq<bytes>, rest: Option<seq<bytes>>): Option<seq<bytes>> {
    if rest.None? then None else Some(front + rest.value)
  }

  lemma AppendNone(front: seq<bytes>, rest: Option<seq<bytes>>)
    requires front == []
    ensures Appended(front, rest) == rest
  {
    if rest.Some? {
      assert [] + rest.value == rest.value;
    }
  }

  lemma AppendOne(front: seq<bytes>, cert: bytes, rest: Option<seq<bytes>>)
    ensures Appended(front, Prepended(cert, rest)) == Appended(front + [cert], rest)
  {
    if rest.Some? {
      assert front + ([cert] + rest.value) == front + [cert] + rest.value;
    }
  }

  lemma EntriesEnd(body: bytes, p: nat, n: nat)
    requires p <= |body|
    ensures p == |body| ==> Entries(body[p..], n) == Some([])
    ensures p < |body| && n >= MAX_CHAIN ==> Entries(body[p..], n) == None
  {}

  /** What the server writes the client reads: a chain of the one certificate. */
  lemma CertRoundTrip(der: bytes)
    requires |der| + 9 < 0x100_0000
    ensures CertMsg(der)[0] == HS_CERTIFICATE && Num24(CertMsg(der), 1) == |CertMsg(der)| - 4
    ensures CertListOf(CertMsg(der)[4..]) == Some([der])
  {
    hide U16, U24, Num24, Num16, Entries;
    var m, body, e := CertMsg(der), CertBody(der), CertEntry(der);
    assert m[1..4] == U24(|body|);
    Num24Of(m, 1, |body|);
    assert m[4..] == body && body[1..4] == U24(|e|) && body[4..] == e;
    Num24Of(body, 1, |e|);
    assert e[0..3] == U24(|der|) && e[3 + |der|..5 + |der|] == U16(0);
    Num24Of(e, 0, |der|);
    Num16Of(e, 3 + |der|, 0);
    OneEntry(e, der);
  }

  lemma OneEntry(e: bytes, der: bytes)
    requires |e| == 5 + |der| && Num24(e, 0) == |der| && Num16(e, 3 + |der|) == 0 && e[3..3 + |der|] == der
    ensures Entries(e, 0) == Some([der])
  {
    hide Num24, Num16;
    assert e[5 + |der|..] == [];
    assert Entries([], 1) == Some([]);
    assert [der] + [] == [der];
  }

  // ----- CertificateVerify -----------------------------------------------------------------

  // "TLS 1.3, server CertificateVerify"
  const CV_LABEL: bytes := [
    0x54, 0x4C, 0x53, 0x20, 0x31, 0x2E, 0x33, 0x2C, 0x20, 0x73, 0x65, 0x72, 0x76, 0x65, 0x72, 0x20, 0x43, 0x65, 0x72, 0x74,
    0x69, 0x66, 0x69, 0x63, 0x61, 0x74, 0x65, 0x56, 0x65, 0x72, 0x69, 0x66, 0x79]

  function Spaces(n: nat): bytes { seq(n, _ => 0x20) }

  /** The signed content of RFC 8446 section 4.4.3. */
  function CvContent(th: bytes): bytes { Spaces(64) + CV_LABEL + [0] + th }

  function CvBody(scheme: nat, sig: bytes): bytes { U16(scheme) + (U16(|sig|) + sig) }

  function CvMsg(scheme: nat, sig: bytes): bytes {
    U8(HS_CERT_VERIFY) + (U24(|CvBody(scheme, sig)|) + CvBody(scheme, sig))
  }

  lemma CvClosed(scheme: nat, sig: bytes)
    ensures var s := U8(HS_CERT_VERIFY) + Zeros(3) + U16(scheme) + Zeros(2) + sig;
      && |s| == 8 + |sig| && |Patched(s, 8, 2)| == |s|
      && Patched(Patched(s, 8, 2), 4, 3) == CvMsg(scheme, sig)
  {
    hide U8, U16, U24, Be;
    var h := U8(HS_CERT_VERIFY);
    PatchedPrefix(h + Zeros(3) + U16(scheme), Zeros(2), sig);
    BeWidths(|sig|);
    Join(h + Zeros(3), U16(scheme), U16(|sig|) + sig);
    PatchedPrefix(h, Zeros(3), CvBody(scheme, sig));
    BeWidths(|CvBody(scheme, sig)|);
  }

  /** The message the server signs into its buffer of `cap` octets, or None. */
  function SignedCv(c: Suite, key: bytes, scheme: nat, th: bytes, cap: int): (m: Option<bytes>)
    ensures m.Some? ==> |m.value| <= cap
  {
    var sig := c.sign(key, scheme, CvContent(th));
    if sig.None? || 8 + |sig.value| > cap then None else Some(CvMsg(scheme, sig.value))
  }

  /** `wn_ServerCertVerify_Sign`: the signature is written straight behind the header. */
  method SignCertVerify(c: Suite, buf: array<byte>, base: nat, cap: nat, scheme: nat, key: bytes, th: bytes)
    returns (ret: Status, len: nat)
    requires base + cap <= buf.Length && cap <= MAX_BUFFER
    modifies buf
    ensures OnlyChanged(buf, base, base + cap)
    ensures var m := SignedCv(c, key, scheme, th, cap);
      && ret == (if m.Some? then Success else CryptoErr)
      && (ret == Success ==> len == |m.value| && buf[base..base + len] == m.value)
  {
    hide U8, U16, U24, Be, CvMsg, CvContent;
    ret, len := Success, 0;
    var tbs := CvContent(th);
    var w := new Writer(buf, base, cap);
    var body, lenOff := PutCvHead(w, scheme);
    if w.err {
      return CryptoErr, 0;
    }
    var sig := c.sign(key, scheme, tbs);
    if sig.None? || |sig.value| > cap - w.len {
      ret := CryptoErr;
    }
    if ret == Success {
      len := FinishCv(w, body, lenOff, scheme, sig.value);
    }
  }

  method PutCvHead(w: Writer, scheme: nat) returns (body: nat, lenOff: nat)
    requires w.Valid() && w.len == 0 && !w.err
    modifies w, w.buf
    ensures w.Wrote(U8(HS_CERT_VERIFY) + Zeros(3) + U16(scheme) + Zeros(2))
    ensures !w.err ==> body == 4 && lenOff == 8
  {
    hide U8, U16;
    body := PutMessageHead(w, HS_CERT_VERIFY);
    w.PutU16(scheme);
    lenOff := w.LenStart(2);
    ghost var head := U8(HS_CERT_VERIFY) + Zeros(3);
    assert old(w.Contents()) == [] && [] + head == head;
    assert [] + (head + U16(scheme) + Zeros(2)) == head + U16(scheme) + Zeros(2);
  }

  method FinishCv(w: Writer, body: nat, lenOff: nat, scheme: nat, sig: bytes) returns (len: nat)
    requires w.Valid() && !w.err && body == 4 && lenOff == 8 && w.len + |sig| <= w.cap
    requires w.Contents() == U8(HS_CERT_VERIFY) + Zeros(3) + U16(scheme) + Zeros(2)
    modifies w, w.buf
    ensures OnlyChanged(w.buf, w.base, w.base + w.cap) && len <= w.cap
    ensures len == |CvMsg(scheme, sig)| && w.buf[w.base..w.base + len] == CvMsg(scheme, sig)
  {
    hide U8, U16, U24, Be, CvMsg;
    ghost var head := w.Contents();
    Record.Overwrite(w.buf, w.base + w.len, sig);
    assert w.Contents() == head;
    w.len := w.len + |sig|;
    assert w.Contents() == head + sig;
    CvClosed(scheme, sig);
    w.LenEnd(lenOff, 2);
    w.LenEnd(body, 3);
    len := w.len;
  }

  /** The scheme and signature of a CertificateVerify body; the signature must end it. */
  function CvOf(body: bytes): Option<(nat, bytes)> {
    if |body| < 4 || 4 + Num16(body, 2) != |body| then None else Some((Num16(body, 0), body[4..]))
  }

  lemma CvRoundTrip(scheme: nat, sig: bytes)
    requires scheme < 0x1_0000 && |sig| < 0x1_0000
    ensures CvMsg(scheme, sig)[0] == HS_CERT_VERIFY && Num24(CvMsg(scheme, sig), 1) == |CvMsg(scheme, sig)| - 4
    ensures CvOf(CvMsg(scheme, sig)[4..]) == Some((scheme, sig))
  {
    hide U16, U24, Num24, Num16;
    var m, body := CvMsg(scheme, sig), CvBody(scheme, sig);
    assert m[1..4] == U24(|body|);
    Num24Of(m, 1, |body|);
    assert m[4..] == body && body[0..2] == U16(scheme) && body[2..4] == U16(|sig|) && body[4..] == sig;
    Num16Of(body, 0, scheme);
    Num16Of(body, 2, |sig|);
  }

  method ReadCertVerify(body: bytes) returns (ret: Status, scheme: nat, sig: bytes)
    requires |body| <= MAX_BUFFER
    ensures CvOf(body) == if ret == Success then Some((scheme, sig)) else None
    ensures ret == Success || ret == DecodeErr
  {
    ret, sig := Success, [];
    var r := new Reader(body);
    scheme := r.GetU16();
    var cvLen := r.GetU16();
    if r.err || r.pos + cvLen != |body| {
      ret := DecodeErr;
    } else {
      sig := body[r.pos..r.pos + cvLen];
      assert body[4..|body|] == body[4..];
    }
  }

  // ----- the order of the flight -----------------------------------------------------------

  /** What has been seen: EncryptedExtensions, Certificate, CertificateVerify. */
  datatype Seen = Seen(ee: bool, cert: bool, cv: bool)

  const NONE_SEEN: Seen := Seen(false, false, false)

  method FlightOrder(mType: byte, gotEE: bool, gotCert: bool, gotCv: bool)
    returns (ret: Status, ee: bool, cert: bool, cv: bool)
    ensures Ordered(mType, Seen(gotEE, gotCert, gotCv)) == if ret == Success then Some(Seen(ee, cert, cv)) else None
    ensures ret == OrderStatus(mType, Seen(gotEE, gotCert, gotCv))
  {
    ret, ee, cert, cv := Success, gotEE, gotCert, gotCv;
    if mType == HS_ENCRYPTED_EXT {
      if gotEE {
        ret := UnexpectedMsg;
      }
      ee := true;
    } else if mType == HS_CERT_REQUEST {
      ret := Unsupported;
    } else if mType == HS_CERTIFICATE {
      if !gotEE || gotCert {
        ret := UnexpectedMsg;
      }
      cert := true;
    } else if mType == HS_CERT_VERIFY {
      if !gotCert || gotCv {
        ret := UnexpectedMsg;
      }
      cv := true;
    } else if mType == HS_FINISHED {
      if !gotCv {
        ret := UnexpectedMsg;
      }
    } else {
      ret := UnexpectedMsg;
    }
  }

  // The flags after an admissible message.
  function Ordered(mType: byte, s: Seen): Option<Seen> {
    if mType == HS_ENCRYPTED_EXT && !s.ee then Some(s.(ee := true))
    else if mType == HS_CERTIFICATE && s.ee && !s.cert then Some(s.(cert := true))
    else if mType == HS_CERT_VERIFY && s.cert && !s.cv then Some(s.(cv := true))
    else if mType == HS_FINISHED && s.cv then Some(s)
    else None
  }

  function OrderStatus(mType: byte, s: Seen): Status {
    if Ordered(mType, s).Some? then Success
    else if mType == HS_CERT_REQUEST then Unsupported
    else UnexpectedMsg
  }

  function OrderRun(types: seq<byte>, s: Seen): Option<Seen>
    decreases |types|
  {
    if types == [] then Some(s) else
    var s1 := Ordered(types[0], s);
    if s1.None? then None else OrderRun(types[1..], s1.value)
  }

  const FLIGHT: seq<byte> := [HS_ENCRYPTED_EXT, HS_CERTIFICATE, HS_CERT_VERIFY, HS_FINISHED]

  /** How far into the flight the flags say we are. */
  function Position(s: Seen): nat { if s.cv then 3 else if s.cert then 2 else if s.ee then 1 else 0 }

  predicate Reachable(s: Seen) { (s.cv ==> s.cert) && (s.cert ==> s.ee) }

  /** One message is admitted exactly when it is the next of the flight. */
  lemma OrderStep(t: byte, s: Seen)
    requires Reachable(s)
    ensures Ordered(t, s).Some? <==> t == FLIGHT[Position(s)]
    ensures Ordered(t, s).Some? ==> Reachable(Ordered(t, s).value)
    ensures Ordered(t, s).Some? && t != HS_FINISHED ==> Position(Ordered(t, s).value) == Position(s) + 1
  {}

  /**
   * Message types without a Finished are admitted exactly when they start the flight; so the gate
   * lets a Finished through only behind EncryptedExtensions, Certificate, CertificateVerify.
   */
  lemma {:induction false} OrderAcceptsFlight(types: seq<byte>, s: Seen)
    requires Reachable(s) && HS_FINISHED !in types
    ensures OrderRun(types, s).Some?
      <==> Position(s) + |types| <= 3 && types == FLIGHT[Position(s)..Position(s) + |types|]
    ensures OrderRun(types, s).Some? ==> Position(OrderRun(types, s).value) == Position(s) + |types|
    decreases |types|
  {
    if types != [] {
      OrderStep(types[0], s);
      var s1 := Ordered(types[0], s);
      if s1.Some? {
        OrderAcceptsFlight(types[1..], s1.value);
        if Position(s) + |types| <= 3 {
          var f := FLIGHT[Position(s)..Position(s) + |types|];
          assert f[0] == types[0] && f[1..] == FLIGHT[Position(s) + 1..Position(s) + |types|];
          assert types == [types[0]] + types[1..] && f == [f[0]] + f[1..];
        }
      } else if Position(s) + |types| <= 3 {
        assert FLIGHT[Position(s)..Position(s) + |types|][0] == FLIGHT[Position(s)];
      }
    }
  }
}
