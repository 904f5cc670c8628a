/** `wn_Connect_Psk_ex`: the client over its scratch buffer, transcript and session object. */
module PskClient {
  import opened Bytes
  import opened Crypto
  import opened KeySchedule
  import opened Transport
  import opened Record
  import opened Handshake
  import opened HandshakeKeys
  import opened PskHello
  import opened ClientStart
  import opened PskClientSpec
  import opened Session
  import opened Msg
  import ServerHelloRoundTrip

  // ----- ClientHello -----------------------------------------------------------------------

  /** Build the ClientHello in the scratch buffer, write the binder into its slot, send it. */
  method SendHello(c: Suite, t: Pipe, scratch: array<byte>, k: Client) returns (ret: Status, tc: bytes)
    requires c.Laws() && k.Sized() && k.ArgsOk() && k.scratchLen <= scratch.Length <= MAX_BUFFER
    modifies t, scratch
    ensures if |k.Hello(c)| > k.scratchLen then ret == CryptoErr && t.State() == old(t.State())
      else tc == k.Hello(c) && Sending(ret, t.State()) == SendWithCcs(old(t.State()), k.Hello(c))
  {
    hide PskHelloBytes, HashedPart, Binder;
    ret, tc := Success, [];
    var pub := c.share(k.priv);
    var w := new Writer(scratch, 0, k.scratchLen);
    var truncOff, binderOff := BuildPskHello(w, k.random, k.sid, pub, k.identity);
    ghost var m0 := PskHelloBytes(k.random, k.sid, pub, k.identity, Zeros(32));
    var chLen := w.len;
    assert [] + m0 == m0;
    HelloSize(c, k);
    if w.err {
      ret := CryptoErr;
    }
    if ret == Success {
      assert scratch[0..chLen] == scratch[..chLen] == m0;
      FillBinder(c, scratch, k, chLen, truncOff, binderOff);
      tc := scratch[..chLen];
      ret := SendThenCcs(t, scratch[..chLen]);
    }
  }

  lemma HelloSize(c: Suite, k: Client)
    requires c.Laws()
    ensures |k.Hello(c)| == |PskHelloBytes(k.random, k.sid, c.share(k.priv), k.identity, Zeros(32))|
  {
    hide PskHelloBytes, HashedPart;
    var pub := c.share(k.priv);
    BinderPatch(k.random, k.sid, pub, k.identity, Binder(c, k.psk, HashedPart(k.random, k.sid, pub, k.identity)));
  }

  method FillBinder(c: Suite, scratch: array<byte>, k: Client, chLen: nat, truncOff: nat, binderOff: nat)
    requires c.Laws() && chLen <= scratch.Length && truncOff + 35 == chLen && binderOff + 32 == chLen
    requires scratch[..chLen] == PskHelloBytes(k.random, k.sid, c.share(k.priv), k.identity, Zeros(32))
    modifies scratch
    ensures scratch[..chLen] == k.Hello(c)
  {
    hide PskHelloBytes, HashedPart;
    ghost var pub, m0 := c.share(k.priv), scratch[..chLen];
    var early := c.extract([], k.psk);
    var binderKey := DeriveSecret(c, early, "ext binder", c.hash([]));
    var th := c.hash(scratch[..truncOff]);
    var binder := FinishedMac(c, binderKey, th);
    BinderPatch(k.random, k.sid, pub, k.identity, binder);
    assert scratch[..truncOff] == m0[..truncOff] == HashedPart(k.random, k.sid, pub, k.identity);
    Overwrite(scratch, binderOff, binder);
    assert scratch[..chLen] == m0[..binderOff] + binder;
  }

  // ----- the encrypted flight --------------------------------------------------------------

  /** One complete message: `done` after Finished, `wait` when it is not complete yet. */
  method OneMessage(c: Suite, plain: array<byte>, accLen: nat, secret: bytes, accOff: nat, tr: bytes, gotEE: bool,
                    ghost fl: Flight)
    returns (ret: Status, accOff': nat, tr': bytes, gotEE': bool, wait: bool, done: bool)
    requires c.Laws() && accLen <= plain.Length == PLAIN_CAP
    requires fl.Valid() && fl == Flight(plain[..accLen], accOff, fl.rd, tr, gotEE)
    ensures accOff <= accOff' <= accLen || ret != Success
    ensures NextMessage(c, secret, fl)
      == if ret != Success then Refused(ret) else if wait then Wait else if done then Ended(tr')
         else Took(Flight(fl.acc, accOff', fl.rd, tr', gotEE'))
    ensures ret == Success && !wait && !done ==> accOff' > accOff
    ensures ret == Success && wait ==> accOff' == accOff && tr' == tr && gotEE' == gotEE && !done
  {
    hide OnMessage;
    ret, accOff', tr', gotEE', wait, done := Success, accOff, tr, gotEE, false, false;
    if accLen - accOff < 4 {
      wait := true;
      return;
    }
    var mStart := accOff;
    var mLen := 0x1_0000 * (plain[accOff + 1] as int) + 256 * (plain[accOff + 2] as int) + plain[accOff + 3];
    assert mLen == Num24(fl.acc, accOff + 1);
    if accOff + 4 + mLen > PLAIN_CAP {
      ret := DecodeErr;
    } else if accOff + 4 + mLen > accLen {
      wait := true;
    } else {
      accOff' := accOff + 4 + mLen;
      var m := plain[mStart..accOff'];
      SubSlice(plain[..], 0, accLen, mStart, accOff');
      assert m == fl.acc[mStart..accOff'];
      ret, tr', gotEE', done := TakeMessage(c, secret, m, tr, gotEE, fl.(off := accOff'));
    }
  }

  method TakeMessage(c: Suite, secret: bytes, m: bytes, tr: bytes, gotEE: bool, ghost fl: Flight)
    returns (ret: Status, tr': bytes, gotEE': bool, done: bool)
    requires 4 <= |m| <= PLAIN_CAP && fl.tr == tr && fl.gotEE == gotEE
    ensures OnMessage(c, secret, fl, m)
      == if ret != Success then Refused(ret) else if done then Ended(tr') else Took(fl.(tr := tr', gotEE := gotEE'))
  {
    hide ServerHelloRoundTrip.EncExtVerdict;
    ret, tr', gotEE', done := Success, tr, gotEE, false;
    if m[0] == HS_ENCRYPTED_EXT {
      if gotEE {
        ret := UnexpectedMsg;
      } else {
        ret := ServerHelloRoundTrip.CheckEncExt(m[4..], false);
        if ret == Success {
          tr' := tr + m;
        }
        gotEE' := true;
      }
    } else if m[0] == HS_FINISHED {
      if !gotEE || |m| - 4 != 32 {
        ret := BadMac;
      }
      if ret == Success {
        var mac := FinishedMac(c, secret, c.hash(tr));
        if mac != m[4..] {
          ret := BadMac;
        }
      }
      if ret == Success {
        tr' := tr + m;
        done := true;
      }
    } else {
      ret := UnexpectedMsg;
    }
  }

  /** Parse only complete messages, leaving a partial one for the next record. */
  method ParseFlight(c: Suite, plain: array<byte>, accLen: nat, secret: bytes, off: nat, tc: bytes, ee: bool,
    ghost fl: Flight)
    returns (ret: Status, accOff: nat, tr: bytes, gotEE: bool, done: bool)
    requires c.Laws() && accLen <= plain.Length == PLAIN_CAP
    requires fl.Valid() && fl == Flight(plain[..accLen], off, fl.rd, tc, ee)
    ensures ret == Success ==> accOff <= accLen
    ensures Messages(c, secret, fl)
      == if ret != Success then Refused(ret)
         else if done then Ended(tr)
         else Took(Flight(fl.acc, accOff, fl.rd, tr, gotEE))
  {
    hide NextMessage;
    ret, accOff, tr, gotEE, done := Success, off, tc, ee, false;
    var wait := false;
    while ret == Success && !done && !wait
      invariant 0 <= accOff <= accLen || ret != Success
      invariant ret == Success ==>
        var cur := Flight(fl.acc, accOff, fl.rd, tr, gotEE);
        Messages(c, secret, fl) == if done then Ended(tr) else if wait then Took(cur) else Messages(c, secret, cur)
      invariant ret != Success ==> Messages(c, secret, fl) == Refused(ret)
      decreases ret == Success && !done && !wait, accLen - accOff
    {
      ret, accOff, tr, gotEE, wait, done :=
        OneMessage(c, plain, accLen, secret, accOff, tr, gotEE, Flight(fl.acc, accOff, fl.rd, tr, gotEE));
    }
  }

  /** One record of the flight, decrypted behind what `plain` already holds. */
  method FlightStep(c: Suite, t: Pipe, scratch: array<byte>, cap: nat, plain: array<byte>, accLen: nat, secret: bytes,
                    rd: Dir, off: nat, tc: bytes, ee: bool, ghost fl: Flight)
    returns (ret: Status, accLen': nat, rd': Dir, accOff: nat, tr: bytes, gotEE: bool, done: bool)
    requires c.Laws() && HEADER_SZ <= cap <= scratch.Length && accLen <= plain.Length == PLAIN_CAP && scratch != plain
    requires rd.Sized() && fl.Valid() && fl == Flight(plain[..accLen], off, rd, tc, ee)
    modifies t`inp, scratch, plain
    ensures accLen' <= PLAIN_CAP && rd'.Sized() && (ret == Success ==> accOff <= accLen') && |t.inp| <= |old(t.inp)|
    ensures FlightRecord(c, secret, cap, fl, old(t.inp))
      == if ret != Success then Over(Bad(ret, t.inp)) else if done then Over(Done(tr, t.inp))
         else Onward(Flight(plain[..accLen'], accOff, rd', tr, gotEE), t.inp)
  {
    hide NextRecord, FlightContent;
    accLen', rd', accOff, tr, gotEE, done := accLen, rd, off, tc, ee, false;
    var rtype, recLen;
    ret, rtype, recLen := RecvSkippingCcs(t, scratch, 0, cap);
    if ret == Success && rtype != REC_APPDATA {
      ret := UnexpectedMsg;
    }
    if ret == Success && (recLen < HEADER_SZ + TAG_SZ || recLen - HEADER_SZ - TAG_SZ > PLAIN_CAP - accLen) {
      ret := DecodeErr;
    }
    if ret == Success {
      ret, accLen', rd', accOff, tr, gotEE, done :=
        OpenFlight(c, scratch, recLen, plain, accLen, secret, rd, off, tc, ee, fl, t.inp);
    }
  }

  method OpenFlight(c: Suite, scratch: array<byte>, recLen: nat, plain: array<byte>, accLen: nat, secret: bytes,
                    rd: Dir, off: nat, tc: bytes, ee: bool, ghost fl: Flight, ghost rest: bytes)
    returns (ret: Status, accLen': nat, rd': Dir, accOff: nat, tr: bytes, gotEE: bool, done: bool)
    requires c.Laws() && HEADER_SZ + TAG_SZ <= recLen <= scratch.Length && scratch != plain
    requires accLen + recLen - HEADER_SZ - TAG_SZ <= plain.Length == PLAIN_CAP
    requires rd.Sized() && fl.Valid() && fl == Flight(plain[..accLen], off, rd, tc, ee)
    modifies plain
    ensures accLen' <= PLAIN_CAP && rd'.Sized() && (ret == Success ==> accOff <= accLen')
    ensures FlightContent(c, secret, fl, Unsealed(c, rd.key, rd.iv, rd.seqNo, scratch[0..recLen]), rest)
      == if ret != Success then Over(Bad(ret, rest)) else if done then Over(Done(tr, rest))
         else Onward(Flight(plain[..accLen'], accOff, rd', tr, gotEE), rest)
  {
    hide Messages, Unsealed;
    accLen', rd', accOff, tr, gotEE, done := accLen, rd, off, tc, ee, false;
    ghost var o := Unsealed(c, rd.key, rd.iv, rd.seqNo, scratch[0..recLen]);
    var plainLen, ctype;
    ret, plainLen, ctype := Unprotect(c, plain, accLen, rd.key, rd.iv, rd.seqNo, scratch, 0, recLen);
    rd' := rd.Advance();
    assert plain[..accLen] == fl.acc;
    if ret == Success && ctype != REC_HANDSHAKE {
      ret := UnexpectedMsg;
    }
    if ret == Success {
      accLen' := accLen + plainLen;
      assert plain[..accLen'] == plain[..accLen] + plain[accLen..accLen'];
      ghost var fl1 := fl.(acc := fl.acc + o.content, rd := rd');
      ret, accOff, tr, gotEE, done := ParseFlight(c, plain, accLen', secret, off, tc, ee, fl1);
    }
  }

  method RecvFlight(c: Suite, t: Pipe, scratch: array<byte>, cap: nat, keys: HsKeys, tc: bytes)
    returns (ret: Status, tr: bytes)
    requires c.Laws() && HEADER_SZ <= cap <= scratch.Length && keys.server.Sized()
    modifies t`inp, scratch
    ensures FlightLoop(c, keys.server.secret, cap, Flight([], 0, keys.server, tc, false), old(t.inp))
      == if ret == Success then Done(tr, t.inp) else Bad(ret, t.inp)
  {
    hide FlightRecord;
    var plain := new byte[512];
    var accLen, accOff, gotEE, done, rd := 0, 0, false, false, keys.server;
    ret, tr := Success, tc;
    ghost var goal := FlightLoop(c, keys.server.secret, cap, Flight([], 0, keys.server, tc, false), t.inp);
    assert plain[..0] == [];
    while ret == Success && !done
      invariant 0 <= accLen <= PLAIN_CAP && rd.Sized() && (ret == Success ==> 0 <= accOff <= accLen)
      invariant ret == Success && !done ==>
        FlightLoop(c, keys.server.secret, cap, Flight(plain[..accLen], accOff, rd, tr, gotEE), t.inp) == goal
      invariant ret == Success && done ==> goal == Done(tr, t.inp)
      invariant ret != Success ==> goal == Bad(ret, t.inp)
      decreases |t.inp|, ret == Success && !done
    {
      ret, accLen, rd, accOff, tr, gotEE, done :=
        FlightStep(c, t, scratch, cap, plain, accLen, keys.server.secret, rd, accOff, tr, gotEE,
                   Flight(plain[..accLen], accOff, rd, tr, gotEE));
    }
  }

  // ----- Finished and the whole client -----------------------------------------------------

  /** The client; a session that is not completed is left wiped. */
  method ConnectPsk(c: Suite, sess: Session, k: Client) returns (ret: Status)
    requires sess.Valid() && sess.suite == c && k.Sized() && k.scratchLen <= sess.scratch.Length
    modifies sess, sess.pipe, sess.scratch, sess.cAppSecret, sess.cKey, sess.cIv, sess.sAppSecret, sess.sKey, sess.sIv
    ensures sess.Valid()
    ensures ResultOf(ret, sess) == ClientRun(c, k, old(sess.pipe.State()))
    ensures ret == Success ==> Ready(sess, k.scratchLen)
    ensures ret != Success && k.ArgsOk() ==> sess.State() == old(sess.State()).Wiped()
  {
    hide AwaitServerHello, SendWithCcs, AppEnds, FlightLoop, FinishedRecord, Client.Hello;
    ret := Success;
    if k.psk == [] || k.scratchLen < SCRATCH_MIN || |k.identity| > 0xFFFF {
      return InvalidArg;
    }
    sess.Wipe();
    var tc, keys := [], NoKeys();
    ret, tc := SendHello(c, sess.pipe, sess.scratch, k);
    if ret == Success {
      ret, keys, tc := RecvServerHello(c, sess.pipe, sess.scratch, k.scratchLen, k.Offered(c), tc);
    }
    if ret == Success {
      ret, tc := RecvFlight(c, sess.pipe, sess.scratch, k.scratchLen, keys, tc);
    }
    if ret == Success {
      ret := SendFinished(c, sess.pipe, sess.scratch, keys.client, tc);
    }
    if ret == Success {
      SessionEstablish(c, Role.Client, sess, keys.hs, c.hash(tc), k.scratchLen);
    }
  }
}
