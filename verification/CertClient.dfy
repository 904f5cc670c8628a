/** `wn_connect_cert_impl`: the certificate client over its partitioned scratch buffer. */
module CertClient {
  import opened Bytes
  import opened Crypto
  import opened KeySchedule
  import opened Transport
  import opened Record
  import opened Handshake
  import opened HandshakeKeys
  import opened ClientStart
  import opened CertHello
  import opened CertMessages
  import opened CertClientSpec
  import opened Chain
  import opened Session
  import ServerHelloRoundTrip

  // ----- one message -----------------------------------------------------------------------

  /**
   * One complete message `m` of the accumulator. The certificates are read out of it and used
   * before anything else is written.
   */
  method TakeMessage(c: Suite, k: Client, secret: bytes, m: bytes, tr: bytes, seen: Seen, leaf: bytes, ghost fl: Flight)
    returns (ret: Status, tr': bytes, seen': Seen, leaf': bytes, done: bool)
    requires 4 <= |m| <= HS_ACC_SZ && fl.tr == tr && fl.seen == seen && fl.leaf == leaf
    ensures OnMessage(c, k, secret, fl, m)
      == if ret != Success then Refused(ret)
         else if done then Ended(tr')
         else Took(fl.(tr := tr', seen := seen', leaf := leaf'))
  {
    hide OnCertificate, OnCertVerify, ServerHelloRoundTrip.EncExtVerdict, Ordered;
    tr', leaf', done := tr, leaf, false;
    var gotEE, gotCert, gotCv;
    ret, gotEE, gotCert, gotCv := FlightOrder(m[0], seen.ee, seen.cert, seen.cv);
    seen' := Seen(gotEE, gotCert, gotCv);
    OrderedTypes(m[0], seen);
    if ret == Success && m[0] == HS_ENCRYPTED_EXT {
      ret := ServerHelloRoundTrip.CheckEncExt(m[4..], |k.Name()| > 0);
    }
    var th := c.hash(tr);
    if ret == Success {
      tr' := tr + m;
    }
    ghost var fl1 := fl.(tr := tr + m, seen := seen');
    if ret == Success && m[0] == HS_CERTIFICATE {
      ret, leaf' := TakeCertificate(c, k, m[4..], fl1);
    }
    if ret == Success && m[0] == HS_CERT_VERIFY {
      ret := TakeCertVerify(c, leaf, m[4..], th, fl1);
    }
    if ret == Success && m[0] == HS_FINISHED {
      if |m| - 4 != 32 || m[4..] != FinishedMac(c, secret, th) {
        ret := BadMac;
      }
      if ret == Success {
        done := true;
      }
    }
  }

  lemma OrderedTypes(t: byte, s: Seen)
    ensures Ordered(t, s).Some? ==> t in {HS_ENCRYPTED_EXT, HS_CERTIFICATE, HS_CERT_VERIFY, HS_FINISHED}
  {}

  method TakeCertificate(c: Suite, k: Client, body: bytes, ghost fl: Flight) returns (ret: Status, leaf: bytes)
    requires |body| <= HS_ACC_SZ
    ensures OnCertificate(c, k, fl, body) == if ret != Success then Refused(ret) else Took(fl.(leaf := leaf))
  {
    hide CertListOf, ChainVerdict;
    leaf := [];
    var certs;
    ret, certs := ReadCertList(body);
    if ret == Success {
      ret, leaf := VerifyChain(c, k.trust, k.id, certs);
    }
  }

  method TakeCertVerify(c: Suite, leaf: bytes, body: bytes, th: bytes, ghost fl: Flight) returns (ret: Status)
    requires |body| <= HS_ACC_SZ && fl.leaf == leaf
    ensures OnCertVerify(c, fl, body, th) == if ret != Success then Refused(ret) else Took(fl)
  {
    hide CvOf;
    var scheme, sig;
    ret, scheme, sig := ReadCertVerify(body);
    if ret == Success && !c.verify(leaf, scheme, CvContent(th), sig) {
      ret := BadCert;
    }
  }

  // ----- the accumulator: scratch[base .. base + accLen) -----------------------------------

  method ParseFlight(c: Suite, k: Client, scratch: array<byte>, base: nat, accLen: nat, secret: bytes, from: nat,
                     tc: bytes, before: Seen, key: bytes, ghost fl: Flight)
    returns (ret: Status, off: nat, tr: bytes, seen: Seen, leaf: bytes, done: bool)
    requires base + accLen <= scratch.Length && accLen <= HS_ACC_SZ
    requires fl.Valid() && fl == Flight(scratch[base..base + accLen], from, fl.rd, tc, before, key)
    ensures ret == Success ==> off <= accLen
    ensures Messages(c, k, secret, fl)
      == if ret != Success then Refused(ret) else if done then Ended(tr)
         else Took(Flight(fl.acc, off, fl.rd, tr, seen, leaf))
  {
    hide NextMessage;
    ret, off, tr, seen, leaf, done := Success, from, tc, before, key, false;
    var wait := false;
    while ret == Success && !done && !wait
      invariant 0 <= off <= accLen || ret != Success
      invariant ret == Success ==>
        var cur := Flight(fl.acc, off, fl.rd, tr, seen, leaf);
        Messages(c, k, secret, fl) == if done then Ended(tr) else if wait then Took(cur) else Messages(c, k, secret, cur)
      invariant ret != Success ==> Messages(c, k, secret, fl) == Refused(ret)
      decreases ret == Success && !done && !wait, accLen - off
    {
      ret, off, tr, seen, leaf, wait, done :=
        OneMessage(c, k, scratch, base, accLen, secret, off, tr, seen, leaf, Flight(fl.acc, off, fl.rd, tr, seen, leaf));
    }
  }

  method OneMessage(c: Suite, k: Client, scratch: array<byte>, base: nat, accLen: nat, secret: bytes, off: nat,
                    tr: bytes, seen: Seen, leaf: bytes, ghost fl: Flight)
    returns (ret: Status, off': nat, tr': bytes, seen': Seen, leaf': bytes, wait: bool, done: bool)
    requires base + accLen <= scratch.Length && accLen <= HS_ACC_SZ
    requires fl.Valid() && fl == Flight(scratch[base..base + accLen], off, fl.rd, tr, seen, leaf)
    ensures off <= off' <= accLen || ret != Success
    ensures NextMessage(c, k, secret, fl)
      == if ret != Success then Refused(ret) else if wait then Wait else if done then Ended(tr')
         else Took(Flight(fl.acc, off', fl.rd, tr', seen', leaf'))
    ensures ret == Success && !wait && !done ==> off' > off
    ensures ret == Success && wait ==> off' == off && tr' == tr && seen' == seen && leaf' == leaf && !done
  {
    hide OnMessage;
    ret, off', tr', seen', leaf', wait, done := Success, off, tr, seen, leaf, false, false;
    if accLen - off < 4 {
      wait := true;
      return;
    }
    var at := base + off;
    var mLen := 0x1_0000 * (scratch[at + 1] as int) + 256 * (scratch[at + 2] as int) + scratch[at + 3];
    assert mLen == Num24(fl.acc, off + 1);
    if off + 4 + mLen > accLen {
      wait := true;
    } else {
      off' := off + 4 + mLen;
      var m := scratch[at..base + off'];
      SubSlice(scratch[..], base, base + accLen, off, off');
      assert m == fl.acc[off..off'];
      ret, tr', seen', leaf', done := TakeMessage(c, k, secret, m, tr, seen, leaf, fl.(off := off'));
    }
  }

  // ----- records ---------------------------------------------------------------------------

  /** One record: decrypted in place in the I/O region, then appended to the accumulator. */
  method FlightStep(c: Suite, t: Pipe, scratch: array<byte>, k: Client, accLen: nat, secret: bytes, rd: Dir, off: nat,
                    tc: bytes, before: Seen, key: bytes, ghost fl: Flight)
    returns (ret: Status, accLen': nat, rd': Dir, off': nat, tr: bytes, seen: Seen, leaf: bytes, done: bool)
    requires c.Laws() && k.ArgsOk() && k.scratchLen <= scratch.Length && accLen <= HS_ACC_SZ
    requires rd.Sized() && fl.Valid() && fl == Flight(scratch[k.IoCap()..k.IoCap() + accLen], off, rd, tc, before, key)
    modifies t`inp, scratch
    ensures accLen' <= HS_ACC_SZ && rd'.Sized() && (ret == Success ==> off' <= accLen') && |t.inp| <= |old(t.inp)|
    ensures FlightRecord(c, k, secret, fl, old(t.inp))
      == if ret != Success then Over(Bad(ret, t.inp)) else if done then Over(Done(tr, t.inp))
         else Onward(Flight(scratch[k.IoCap()..k.IoCap() + accLen'], off', rd', tr, seen, leaf), t.inp)
  {
    hide NextRecord, FlightContent;
    accLen', rd', off', tr, seen, leaf, done := accLen, rd, off, tc, before, key, false;
    var rtype, recLen;
    ret, rtype, recLen := RecvSkippingCcs(t, scratch, 0, k.IoCap());
    assert scratch[k.IoCap()..k.IoCap() + accLen] == fl.acc;
    if ret == Success && rtype != REC_APPDATA {
      ret := UnexpectedMsg;
    }
    if ret == Success {
      ret, accLen', rd', off', tr, seen, leaf, done :=
        OpenFlight(c, k, scratch, recLen, accLen, secret, rd, off, tc, before, key, fl, t.inp);
    }
  }

  method OpenFlight(c: Suite, k: Client, scratch: array<byte>, recLen: nat, accLen: nat, secret: bytes, rd: Dir, off: nat,
                    tc: bytes, before: Seen, key: bytes, ghost fl: Flight, ghost rest: bytes)
    returns (ret: Status, accLen': nat, rd': Dir, off': nat, tr: bytes, seen: Seen, leaf: bytes, done: bool)
    requires c.Laws() && k.ArgsOk() && k.scratchLen <= scratch.Length && accLen <= HS_ACC_SZ && recLen <= k.IoCap()
    requires rd.Sized() && fl.Valid() && fl == Flight(scratch[k.IoCap()..k.IoCap() + accLen], off, rd, tc, before, key)
    modifies scratch
    ensures accLen' <= HS_ACC_SZ && rd'.Sized() && (ret == Success ==> off' <= accLen')
    ensures FlightContent(c, k, secret, fl, Unsealed(c, rd.key, rd.iv, rd.seqNo, old(scratch[0..recLen])), rest)
      == if ret != Success then Over(Bad(ret, rest)) else if done then Over(Done(tr, rest))
         else Onward(Flight(scratch[k.IoCap()..k.IoCap() + accLen'], off', rd', tr, seen, leaf), rest)
  {
    hide Messages, Unsealed;
    var base := k.IoCap();
    accLen', off', tr, seen, leaf, done := accLen, off, tc, before, key, false;
    ghost var o := Unsealed(c, rd.key, rd.iv, rd.seqNo, scratch[0..recLen]);
    var plainLen;
    ret, plainLen := Decrypt(c, scratch, base, recLen, accLen, rd, fl.acc);
    rd' := rd.Advance();
    if ret == Success {
      Append(scratch, base, accLen, HEADER_SZ, plainLen);
      accLen' := accLen + plainLen;
      ghost var fl1 := fl.(acc := fl.acc + o.content, rd := rd');
      assert scratch[base..base + accLen'] == fl1.acc;
      ret, off', tr, seen, leaf, done := ParseFlight(c, k, scratch, base, accLen', secret, off, tc, before, key, fl1);
    }
  }

  // Decrypt the record in place; its plaintext must be handshake messages that still fit.
  method Decrypt(c: Suite, scratch: array<byte>, base: nat, recLen: nat, accLen: nat, rd: Dir, ghost acc: bytes)
    returns (ret: Status, plainLen: nat)
    requires c.Laws() && rd.Sized() && recLen <= base && base + accLen <= scratch.Length
        && scratch[base..base + accLen] == acc
    modifies scratch
    ensures scratch[base..base + accLen] == acc
    ensures var o := Unsealed(c, rd.key, rd.iv, rd.seqNo, old(scratch[0..recLen]));
      if o.status != Success then ret == o.status
      else if o.ctype != REC_HANDSHAKE then ret == UnexpectedMsg
      else if accLen + |o.content| > HS_ACC_SZ then ret == DecodeErr
      else ret == Success && plainLen == |o.content| && HEADER_SZ + plainLen <= base
           && scratch[HEADER_SZ..HEADER_SZ + plainLen] == o.content
  {
    hide Unsealed;
    var ctype;
    ret, plainLen, ctype := Unprotect(c, scratch, HEADER_SZ, rd.key, rd.iv, rd.seqNo, scratch, 0, recLen);
    assert scratch[base..base + accLen] == acc;
    if ret == Success && ctype != REC_HANDSHAKE {
      ret := UnexpectedMsg;
    }
    if ret == Success && accLen + plainLen > HS_ACC_SZ {
      ret := DecodeErr;
    }
  }

  method Append(scratch: array<byte>, base: nat, accLen: nat, from: nat, len: nat)
    requires from + len <= base && base + accLen + len <= scratch.Length
    modifies scratch
    ensures scratch[base..base + accLen + len] == old(scratch[base..base + accLen]) + old(scratch[from..from + len])
  {
    ghost var was, new_part := scratch[base..base + accLen], scratch[from..from + len];
    Overwrite(scratch, base + accLen, scratch[from..from + len]);
    assert scratch[base..base + accLen] == was;
    assert scratch[base..base + accLen + len]
        == scratch[base..base + accLen] + scratch[base + accLen..base + accLen + len];
  }

  method RecvFlight(c: Suite, t: Pipe, scratch: array<byte>, k: Client, keys: HsKeys, tc: bytes)
    returns (ret: Status, tr: bytes)
    requires c.Laws() && k.ArgsOk() && k.scratchLen <= scratch.Length && keys.server.Sized()
    modifies t`inp, scratch
    ensures FlightLoop(c, k, keys.server.secret, StartOf(keys.server, tc), old(t.inp))
      == if ret == Success then Done(tr, t.inp) else Bad(ret, t.inp)
  {
    hide FlightRecord;
    var base := k.IoCap();
    var accLen, off, rd, seen, leaf, done := 0, 0, keys.server, NONE_SEEN, [], false;
    ret, tr := Success, tc;
    ghost var goal := FlightLoop(c, k, keys.server.secret, StartOf(keys.server, tc), t.inp);
    assert scratch[base..base] == [];
    while ret == Success && !done
      invariant 0 <= accLen <= HS_ACC_SZ && rd.Sized() && (ret == Success ==> 0 <= off <= accLen)
      invariant ret == Success && !done ==>
        FlightLoop(c, k, keys.server.secret, Flight(scratch[base..base + accLen], off, rd, tr, seen, leaf), t.inp) == goal
      invariant ret == Success && done ==> goal == Done(tr, t.inp)
      invariant ret != Success ==> goal == Bad(ret, t.inp)
      decreases |t.inp|, ret == Success && !done
    {
      ret, accLen, rd, off, tr, seen, leaf, done :=
        FlightStep(c, t, scratch, k, accLen, keys.server.secret, rd, off, tr, seen, leaf,
                   Flight(scratch[base..base + accLen], off, rd, tr, seen, leaf));
    }
  }

  // ----- the client ------------------------------------------------------------------------

  method SendHello(c: Suite, t: Pipe, scratch: array<byte>, k: Client) returns (ret: Status, tc: bytes)
    requires c.Laws() && k.Sized() && k.ArgsOk() && k.scratchLen <= scratch.Length <= MAX_BUFFER
    modifies t, scratch
    ensures if |k.Name()| > SNI_MAX_HOST then ret == InvalidArg && t.State() == old(t.State())
      else tc == k.Hello(c) && Sending(ret, t.State()) == SendWithCcs(old(t.State()), k.Hello(c))
  {
    hide CertHelloBytes;
    tc := [];
    var pub, chLen := c.share(k.priv), 0;
    if |k.Name()| <= SNI_MAX_HOST {
      CertHelloFields(k.random, k.sid, pub, k.Name());
    }
    ret, chLen := BuildCertHello(scratch, 0, k.scratchLen, k.random, k.sid, pub, k.Name());
    if ret == Success {
      assert scratch[0..chLen] == scratch[..chLen];
      tc := scratch[..chLen];
      ret := SendThenCcs(t, scratch[..chLen]);
    }
  }

  /** The certificate client; a session that is not completed is left wiped. */
  method ConnectCert(c: Suite, sess: Session, k: Client) returns (ret: Status)
    requires sess.Valid() && sess.suite == c && k.Sized() && k.scratchLen <= sess.scratch.Length
    modifies sess, sess.pipe, sess.scratch, sess.cAppSecret, sess.cKey, sess.cIv, sess.sAppSecret, sess.sKey, sess.sIv
    ensures sess.Valid()
    ensures ResultOf(ret, sess) == ClientRun(c, k, old(sess.pipe.State()))
    ensures ret == Success ==> Ready(sess, k.scratchLen)
    ensures ret != Success && k.ArgsOk() ==> sess.State() == old(sess.State()).Wiped()
  {
    hide AwaitServerHello, SendWithCcs, AppEnds, FlightLoop, FinishedRecord, Client.Hello;
    ret := Success;
    if k.scratchLen < CERT_SCRATCH_MIN {
      return InvalidArg;
    }
    sess.Wipe();
    var tc, keys := [], NoKeys();
    ret, tc := SendHello(c, sess.pipe, sess.scratch, k);
    if ret == Success {
      ret, keys, tc := RecvServerHello(c, sess.pipe, sess.scratch, k.IoCap(), k.Offered(c), tc);
    }
    if ret == Success {
      ret, tc := RecvFlight(c, sess.pipe, sess.scratch, k, keys, tc);
    }
    if ret == Success {
      ret := SendFinished(c, sess.pipe, sess.scratch, keys.client, tc);
    }
    if ret == Success {
      SessionEstablish(c, Role.Client, sess, keys.hs, c.hash(tc), k.scratchLen);
    }
  }
}
