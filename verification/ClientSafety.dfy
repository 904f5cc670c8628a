/**
 * What every successful run of a client has verified and what it ends with: the server's choice, its
 * flight and Finished, and the keys, each written out as RFC 8446 has it.
 */
module ClientSafety {
  import opened Bytes
  import opened Crypto
  import opened Transport
  import opened Record
  import opened Handshake
  import opened HandshakeKeys
  import opened ClientStart
  import opened RfcSchedule
  import opened WireFormat
  import opened ServerHelloLanguage
  import opened CertMessages
  import opened ChainExactly
  import Chain
  import PH = PskHello
  import CH = CertHello
  import HrrTranscript
  import Psk = PskClientSpec
  import PskFlight = PskFlightRun
  import Cert = CertClientSpec
  import CertFlight = FlightRun

  lemma SentFirst(n: Net, msg: bytes)
    requires SendWithCcs(n, msg).ret == Success
    ensures var n1 := SendWithCcs(n, msg).n;
      n1.inp == n.inp && n1.out == n.out + (PlainRecord(REC_HANDSHAKE, msg) + CCS_RECORD)
  {
    HrrTranscript.SentOutWithCcs(n, msg);
    Join(n.out, PlainRecord(REC_HANDSHAKE, msg), CCS_RECORD);
  }

  /** A client's Finished goes out under its handshake key; then its session has the application keys. */
  lemma FinishIs(c: Suite, psk: bytes, z: bytes, early: bytes, tr0: bytes, tr: bytes, n: Net)
    requires early == Early(c, psk) && ClientFinish(c, DeriveHsKeys(c, early, z, c.hash(tr0)), tr, n).ret == Success
    ensures var r := ClientFinish(c, DeriveHsKeys(c, early, z, c.hash(tr0)), tr, n);
      var client, inputs := Traffic(c, [psk, z], "c hs traffic", tr0), [psk, z, Zeros(32)];
      && r.n.inp == n.inp
      && r.n.out == n.out + Sealed(c, client.key, client.iv, 0, 22, Finished(c, client.secret, tr), 0)
      && r.ends == Some(Ends(Traffic(c, inputs, "c ap traffic", tr), Traffic(c, inputs, "s ap traffic", tr)))
  {
    hide Sealed, DeriveHsKeys, AppEnds, Traffic, Finished, FinishedMsg;
    HandshakeStage(c, psk, z, tr0);
    FinishedIs(c, Traffic(c, [psk, z], "c hs traffic", tr0).secret, tr);
    ApplicationStage(c, psk, z, Role.Client, tr);
  }

  /** The first record past any ChangeCipherSpecs brings a ServerHello `m` that selects what was offered. */
  ghost predicate Answered(c: Suite, o: Offer, cap: nat, inp: bytes, m: bytes, msg: ServerMsg, z: bytes) {
    var got := NextRecord(inp, cap);
    && got.status == Success && got.ctype == 22 && got.rec[5..] == m
    && IsServerHello(m, msg) && Selects(o, msg) && c.agree(o.priv, ShareIn(msg)) == Some(z)
  }

  /**
   * The transcript `all` is `tr` and the front of what the records behind the ServerHello carry; the
   * client's Finished over it is the last that is sent, and the session has the keys that belong to it.
   */
  ghost predicate Concluded(c: Suite, psk: bytes, z: bytes, hello: bytes, tr: bytes, all: bytes, cap: nat, n: Net,
                            r: HsResult)
  {
    var server, client := Traffic(c, [psk, z], "s hs traffic", tr), Traffic(c, [psk, z], "c hs traffic", tr);
    var inputs := [psk, z, Zeros(32)];
    && (exists e, i: nat, p: nat ::
          e == Done(all, r.n.inp) && CertFlight.TakenFrom(c, cap, tr, [], server, NextRecord(n.inp, cap).rest, e, i, p))
    && r.n.out == n.out + (PlainRecord(REC_HANDSHAKE, hello) + CCS_RECORD)
         + Sealed(c, client.key, client.iv, 0, 22, Finished(c, client.secret, all), 0)
    && r.ends == Some(Ends(Traffic(c, inputs, "c ap traffic", all), Traffic(c, inputs, "s ap traffic", all)))
  }

  // ----- the PSK client --------------------------------------------------------------------

  /** What stands behind a successful run: the ServerHello `m`, the shared secret, EncryptedExtensions. */
  ghost predicate PskVerified(c: Suite, k: Psk.Client, n: Net, m: bytes, msg: ServerMsg, z: bytes, ee: bytes) {
    var tr := k.Hello(c) + m;
    && Answered(c, k.Offered(c), k.scratchLen, n.inp, m, msg, z)
    && PskFlight.EeOk(ee)
    && var server := Traffic(c, [k.psk, z], "s hs traffic", tr);
    && Concluded(c, k.psk, z, k.Hello(c), tr, tr + ee + Finished(c, server.secret, tr + ee), k.scratchLen, n,
                 Psk.ClientRun(c, k, n))
  }

  /**
   * Every successful run of the PSK client: the ServerHello selects what was offered, the server has
   * proved with a Finished over the transcript before it that it holds the handshake keys, nothing
   * that was not offered stands in EncryptedExtensions, and the session's keys are those of the key
   * schedule over the transcript through the server's Finished.
   */
  lemma PskClientSafety(c: Suite, k: Psk.Client, n: Net) returns (m: bytes, msg: ServerMsg, z: bytes, ee: bytes)
    requires c.Laws() && Psk.ClientRun(c, k, n).ret == Success
    ensures PskVerified(c, k, n, m, msg, z, ee)
  {
    hide Psk.Client.Hello, AwaitServerHello, SendWithCcs, PlainRecord, Psk.FlightLoop, ClientFinish, Traffic, Finished,
         FinishedMsg, DeriveHsKeys, IsServerHello, Selects, CertFlight.TakenFrom, PskFlight.EeOk, Sealed, NextRecord;
    SentFirst(n, k.Hello(c));
    var s := SendWithCcs(n, k.Hello(c));
    var o := k.Offered(c);
    var x := AwaitServerHello(c, o, k.scratchLen, s.n);
    KeyedExactly(c, o, k.scratchLen, s.n, x.keys, x.tr, x.n);
    m, msg, z :| HelloTaken(c, o, k.scratchLen, s.n, m, msg, z, x.keys, x.tr, x.n);
    HandshakeStage(c, k.psk, z, x.tr);
    var e := Psk.FlightLoop(c, x.keys.server.secret, k.scratchLen, Psk.Flight([], 0, x.keys.server, x.tr, false),
        x.n.inp);
    PskFlight.DoneMeansComplete(c, k.scratchLen, x.keys, x.tr, x.n.inp);
    ee :| PskFlight.FlightComplete(c, x.keys.server.secret, x.tr, e.tr, ee);
    FinishedIs(c, x.keys.server.secret, x.tr + ee);
    FinishIs(c, k.psk, z, o.early, x.tr, e.tr, x.n.(inp := e.rest));
  }

  // ----- the certificate client ------------------------------------------------------------

  /** EncryptedExtensions, Certificate and CertificateVerify, the two latter with their checks. */
  ghost predicate FlightVerified(c: Suite, k: Cert.Client, tr: bytes, ms: seq<bytes>, leaf: bytes) {
    && |ms| == 3 && (forall i :: 0 <= i < 3 ==> CertFlight.IsMessage(ms[i], [8, 11, 15][i]))
    && CertFlight.CertChecked(c, k, ms[1], leaf) && CertFlight.CvChecked(c, ms[2], leaf, tr + ms[0] + ms[1])
  }

  /** Likewise, with the three messages of the flight before Finished, and the leaf key. */
  ghost predicate CertVerified(c: Suite, k: Cert.Client, n: Net, m: bytes, msg: ServerMsg, z: bytes, ms: seq<bytes>,
                               leaf: bytes)
  {
    var tr := k.Hello(c) + m;
    && k.ArgsOk() && Answered(c, k.Offered(c), k.IoCap(), n.inp, m, msg, z)
    && FlightVerified(c, k, tr, ms, leaf)
    && var before := tr + ms[0] + ms[1] + ms[2];
    && var server := Traffic(c, [Zeros(32), z], "s hs traffic", tr);
    && Concluded(c, Zeros(32), z, k.Hello(c), tr, before + Finished(c, server.secret, before), k.IoCap(), n,
                 Cert.ClientRun(c, k, n))
  }

  /**
   * Every successful run of the certificate client: besides, the chain was verified, the signature covers
   * the transcript through Certificate and verifies under the leaf key, and Finished covers all of it.
   */
  lemma CertClientSafety(c: Suite, k: Cert.Client, n: Net)
    returns (m: bytes, msg: ServerMsg, z: bytes, ms: seq<bytes>, leaf: bytes)
    requires c.Laws() && Cert.ClientRun(c, k, n).ret == Success
    ensures CertVerified(c, k, n, m, msg, z, ms, leaf)
  {
    hide Cert.Client.Hello, AwaitServerHello, SendWithCcs, PlainRecord, Cert.FlightLoop, ClientFinish, Traffic, Finished,
        FinishedMsg, DeriveHsKeys, IsServerHello, Selects, CertFlight.TakenFrom, CertFlight.CertChecked,
        CertFlight.CvChecked, Sealed, NextRecord, CertFlight.IsMessage;
    SentFirst(n, k.Hello(c));
    var s := SendWithCcs(n, k.Hello(c));
    var o := k.Offered(c);
    var x := AwaitServerHello(c, o, k.IoCap(), s.n);
    KeyedExactly(c, o, k.IoCap(), s.n, x.keys, x.tr, x.n);
    m, msg, z :| HelloTaken(c, o, k.IoCap(), s.n, m, msg, z, x.keys, x.tr, x.n);
    HandshakeStage(c, Zeros(32), z, x.tr);
    var e := Cert.FlightLoop(c, k, x.keys.server.secret, Cert.StartOf(x.keys.server, x.tr), x.n.inp);
    CertFlight.DoneMeansComplete(c, k, x.keys, x.tr, x.n.inp);
    ms, leaf :| CertFlight.FlightComplete(c, k, x.keys.server.secret, x.tr, e.tr, ms, leaf);
    FinishedIs(c, x.keys.server.secret, x.tr + ms[0] + ms[1] + ms[2]);
    FinishIs(c, Zeros(32), z, o.early, x.tr, e.tr, x.n.(inp := e.rest));
  }

  /**
   * And whatever it was sent, its session is with the server that the caller named: the received chain
   * leads to the anchor, its leaf may serve under the given name or pinned key, and the CertificateVerify
   * that was checked verifies under that leaf's key.
   */
  lemma CertClientAuthenticates(c: Suite, k: Cert.Client, n: Net)
    returns (m: bytes, msg: ServerMsg, z: bytes, ms: seq<bytes>, leaf: bytes, certs: seq<bytes>)
    requires c.Laws() && Cert.ClientRun(c, k, n).ret == Success
    ensures CertVerified(c, k, n, m, msg, z, ms, leaf)
    ensures |ms| == 3 && |ms[1]| >= 4 && CertListOf(ms[1][4..]) == Some(certs) && certs != []
    ensures Serves(certs[0], k.id, k.trust.now, leaf) && exists i :: Reaches(c, k.trust, certs, i)
  {
    hide CertVerified, Chain.ChainVerdict, CertFlight.CvChecked, Serves, Reaches, CertListOf, CertFlight.IsMessage;
    m, msg, z, ms, leaf := CertClientSafety(c, k, n);
    FlightOf(c, k, n, m, msg, z, ms, leaf);
    certs := CertListOf(ms[1][4..]).value;
    VerdictExactly(c, k.trust, k.id, certs, leaf);
  }

  lemma FlightOf(c: Suite, k: Cert.Client, n: Net, m: bytes, msg: ServerMsg, z: bytes, ms: seq<bytes>, leaf: bytes)
    requires CertVerified(c, k, n, m, msg, z, ms, leaf)
    ensures FlightVerified(c, k, k.Hello(c) + m, ms, leaf)
  {
    hide FlightVerified, Answered, Concluded;
  }

  // ----- what they offer -------------------------------------------------------------------

  /** The PSK client's hello carries its identity and the MAC of its PSK over all but the last 35 octets. */
  lemma PskOfferReads(c: Suite, k: Psk.Client)
    requires c.Laws() && k.Sized() && |k.identity| <= 0xFF00
    ensures |k.Hello(c)| >= 35
    ensures ReadClient(k.Hello(c)) == Some(ClientMsg(0x0303, k.random, k.sid, [0x13, 0x01], [0],
      PskList(c.share(k.priv), k.identity, BinderMac(c, k.psk, k.Hello(c)[..|k.Hello(c)| - 35]))))
  {
    hide PH.PskHelloBytes, PH.HashedPart, ReadClient, PskList, Psk.Binder, BinderMac;
    var pub := c.share(k.priv);
    var front := PH.HashedPart(k.random, k.sid, pub, k.identity);
    var b := Psk.Binder(c, k.psk, front);
    BinderIs(c, k.psk, front);
    PH.BinderPatch(k.random, k.sid, pub, k.identity, b);
    PskHelloReads(k.random, k.sid, pub, k.identity, b);
  }

  lemma BinderIs(c: Suite, psk: bytes, tr: bytes)
    requires c.Laws()
    ensures Psk.Binder(c, psk, tr) == BinderMac(c, psk, tr) && |BinderMac(c, psk, tr)| == 32
  {
    SecretAfterOne(c, psk);
  }

  /** The certificate client's hello carries the name that the server is asked for. */
  lemma CertOfferReads(c: Suite, k: Cert.Client)
    requires c.Laws() && k.Sized() && |k.Name()| <= 255
    ensures ReadClient(k.Hello(c)) == Some(ClientMsg(0x0303, k.random, k.sid, [0x13, 0x01], [0],
      CertList(c.share(k.priv), k.Name())))
  {
    hide CH.CertHelloBytes, ReadClient, CertList;
    CertHelloReads(k.random, k.sid, c.share(k.priv), k.Name());
  }
}
