/**
 * The HelloRetryRequest path in every run of a server: what the transcript holds, and that one
 * ChangeCipherSpec follows the first server message (RFC 8446 sections 4.1.4, 4.4.1 and D.4).
 */
module HrrTranscript {
  import opened Bytes
  import opened Crypto
  import opened Transport
  import opened Record
  import opened Handshake
  import opened HandshakeKeys
  import opened HelloRetry
  import opened ServerStart
  import opened ClientHelloSpec
  import opened CertHello
  import opened CertMessages
  import Build = ServerHelloBuild
  import Cert = CertServer
  import KeySchedule
  import Psk = PskServer
  import ClientSpec = PskClientSpec

  /** The first ClientHello of the input, as reassembled from its records. */
  function FirstHello(n: Net, scratchLen: nat): bytes {
    Gather(n.inp, [], scratchLen / 2, scratchLen - scratchLen / 2).msg
  }

  /** The messages before the ServerHello's own transcript entry, and the records sent for them. */
  ghost predicate Prologue(c: Suite, n: Net, scratchLen: nat, g: Greeting) {
    var ch1 := FirstHello(n, scratchLen);
    && ParseHello(ch1).Accept?
    && g.Greeting? && g.Valid() && g.hello.keyShare.Some?
    && (g.retried <==> ParseHello(ch1).hello.keyShare.None?)
    && (!g.retried ==> g.pre == [] && g.msg == ch1 && g.n.out == n.out)
    && (g.retried ==>
          var retry := RetryFor(ch1, ParseHello(ch1).hello);
          && g.pre == [0xFE, 0, 0, 32] + c.hash(ch1) + retry
          && g.n.out == n.out + PlainRecord(REC_HANDSHAKE, retry) + CCS_RECORD)
  }

  lemma SentOut(n: Net, ctype: byte, body: bytes)
    requires SendPlain(n, ctype, body).ret == Success
    ensures SendPlain(n, ctype, body).n.out == n.out + PlainRecord(ctype, body)
    ensures SendPlain(n, ctype, body).n.inp == n.inp
  {}

  lemma SentOutWithCcs(n: Net, msg: bytes)
    requires SendWithCcs(n, msg).ret == Success
    ensures SendWithCcs(n, msg).n.out == n.out + PlainRecord(REC_HANDSHAKE, msg) + CCS_RECORD
    ensures SendWithCcs(n, msg).n.inp == n.inp
  {}

  /** A server that goes on has asked for at most one retry, and only without a key share. */
  lemma GreetPrologue(c: Suite, n: Net, scratchLen: nat)
    requires Greet(c, n, scratchLen).Greeting?
    ensures Prologue(c, n, scratchLen, Greet(c, n, scratchLen))
  {
    hide ParseHello, Gather, SendWithCcs, PlainRecord, RetryFor;
    var g1 := RecvHello(n, scratchLen, [], false);
    if g1.hello.keyShare.None? {
      var retry := RetryFor(g1.msg, g1.hello);
      SentOutWithCcs(g1.n, retry);
      assert [] + RetryPrefix(c, g1.msg, retry) == RetryPrefix(c, g1.msg, retry);
    }
  }

  /** The records sent up to and including the ServerHello. */
  ghost function Opening(c: Suite, n: Net, scratchLen: nat, g: Greeting, sh: bytes): bytes
    requires Prologue(c, n, scratchLen, g)
  {
    if g.retried
    then PlainRecord(REC_HANDSHAKE, RetryFor(FirstHello(n, scratchLen), ParseHello(FirstHello(n, scratchLen)).hello))
         + CCS_RECORD + PlainRecord(REC_HANDSHAKE, sh)
    else PlainRecord(REC_HANDSHAKE, sh) + CCS_RECORD
  }

  /**
   * Once the keys are exchanged the server has sent exactly one ChangeCipherSpec, right behind its
   * first message, and the transcript is the retry prefix (if any), the ClientHello, the ServerHello.
   */
  lemma AnswerOpening(c: Suite, d: Drawn, n: Net, scratchLen: nat, psk: Option<nat>, early: bytes)
    requires Greet(c, n, scratchLen).Greeting? && Answer(c, d, Greet(c, n, scratchLen), psk, early).Keyed?
    ensures var g := Greet(c, n, scratchLen);
      var sh := ServerHelloFor(c, d, g, psk);
      && Prologue(c, n, scratchLen, g)
      && Answer(c, d, g, psk, early).tr == g.pre + g.msg + sh
      && Answer(c, d, g, psk, early).n.out == n.out + Opening(c, n, scratchLen, g, sh)
  {
    hide ParseHello, Greet, SendWithCcs, SendPlain, PlainRecord, ServerHelloFor, DeriveHsKeys, ShareOf, RetryFor, Gather;
    GreetPrologue(c, n, scratchLen);
    var g := Greet(c, n, scratchLen);
    var sh := ServerHelloFor(c, d, g, psk);
    if g.retried {
      SentOut(g.n, REC_HANDSHAKE, sh);
      var ch1 := FirstHello(n, scratchLen);
      var retry := PlainRecord(REC_HANDSHAKE, RetryFor(ch1, ParseHello(ch1).hello));
      assert n.out + retry + CCS_RECORD + PlainRecord(REC_HANDSHAKE, sh)
          == n.out + (retry + CCS_RECORD + PlainRecord(REC_HANDSHAKE, sh));
    } else {
      SentOutWithCcs(g.n, sh);
      assert n.out + PlainRecord(REC_HANDSHAKE, sh) + CCS_RECORD == n.out + (PlainRecord(REC_HANDSHAKE, sh) + CCS_RECORD);
    }
  }

  /**
   * Every successful PSK server run: the accepted binder is the MAC over the ClientHello up to the
   * cut, behind the synthetic message and the HelloRetryRequest when there was one; and the output
   * is the opening records and one protected record, the flight that follows the transcript so far,
   * so that no second ChangeCipherSpec is sent.
   */
  lemma PskServerTranscript(c: Suite, k: Psk.Server, n: Net)
    requires c.Laws() && Psk.ServerRun(c, k, n).ret == Success
    ensures var g := Greet(c, n, k.scratchLen);
      && Prologue(c, n, k.scratchLen, g) && g.hello.psk.Some?
      && g.hello.psk.value.binder.In(g.msg) && g.hello.psk.value.truncLen <= |g.msg|
      && var ch1 := FirstHello(n, k.scratchLen);
      && var before := if g.retried then [0xFE, 0, 0, 32] + c.hash(ch1) + RetryFor(ch1, ParseHello(ch1).hello) else [];
      && g.hello.psk.value.binder.Of(g.msg) == ClientSpec.Binder(c, k.psk, before + g.msg[..g.hello.psk.value.truncLen])
      && var sh := ServerHelloFor(c, k.drawn, g, Some(0));
      && exists d: KeySchedule.Dir ::
           var rec := Psk.FlightOut(c, d, g.pre + g.msg + sh);
           rec != [] && rec[0] == REC_APPDATA
           && Psk.ServerRun(c, k, n).n.out == n.out + Opening(c, n, k.scratchLen, g, sh) + rec
  {
    hide ParseHello, Greet, Answer, Opening, AwaitFinished, Sealed, RetryFor, Gather, ServerHelloFor, AppEnds,
        ClientSpec.Binder;
    var g := Greet(c, n, k.scratchLen);
    OfferInside(g.msg, g.hello);
    AnswerOpening(c, k.drawn, n, k.scratchLen, Some(0), Early(c, k.psk));
    var e := Answer(c, k.drawn, g, Some(0), Early(c, k.psk));
    var rec := Psk.FlightOut(c, e.keys.server, e.tr);
    FlightIsProtected(c, e.keys.server, e.tr);
    AwaitKeepsOut(c, e.keys.client, k.scratchLen, Psk.FLIGHT_CAP, Psk.AfterFlight(c, e.keys, e.tr), e.n.Sent(rec));
  }

  lemma FlightIsProtected(c: Suite, d: KeySchedule.Dir, tr: bytes)
    ensures Psk.FlightOut(c, d, tr) != [] && Psk.FlightOut(c, d, tr)[0] == REC_APPDATA
  {}

  /**
   * Every successful certificate server run: CertificateVerify is signed over the retry prefix (if
   * any), the ClientHello, the ServerHello, EncryptedExtensions and Certificate; and again the
   * output is the opening records and one protected record.
   */
  lemma CertServerTranscript(c: Suite, k: Cert.Server, n: Net)
    requires c.Laws() && Cert.ServerRun(c, k, n).ret == Success
    ensures var g := Greet(c, n, k.scratchLen);
      && Prologue(c, n, k.scratchLen, g) && Offers(g.msg, g.hello, k.scheme)
      && var sh := ServerHelloFor(c, k.drawn, g, None);
      && var tr := g.pre + g.msg + sh;
      && var certified := tr + Build.EE_BYTES + CertMsg(k.cert);
      && exists d: KeySchedule.Dir, sig: bytes ::
           && c.sign(k.key, k.scheme, CvContent(c.hash(certified))) == Some(sig)
           && var flight := Cert.WholeFlight(c, d.secret, tr, Build.EE_BYTES + CertMsg(k.cert) + CvMsg(k.scheme, sig));
           && var rec := Cert.FlightOut(c, d, flight);
           && rec != [] && rec[0] == REC_APPDATA
           && Cert.ServerRun(c, k, n).n.out == n.out + Opening(c, n, k.scratchLen, g, sh) + rec
  {
    hide ParseHello, Greet, Answer, Opening, AwaitFinished, Sealed, RetryFor, Gather, ServerHelloFor, AppEnds,
        Offers, CertMsg, CvMsg,
         Cert.WholeFlight;
    var g := Greet(c, n, k.scratchLen);
    AnswerOpening(c, k.drawn, n, k.scratchLen, None, Cert.NoPsk(c));
    var e := Answer(c, k.drawn, g, None, Cert.NoPsk(c));
    var flight := Cert.WholeFlight(c, e.keys.server.secret, e.tr, Cert.FlightPrefix(c, k, e.tr).msgs);
    var rec := Cert.FlightOut(c, e.keys.server, flight);
    SealedIsAppData(c, e.keys.server, flight);
    AwaitKeepsOut(c, e.keys.client, k.scratchLen, k.Half(), e.tr + flight, e.n.Sent(rec));
  }

  lemma SealedIsAppData(c: Suite, d: KeySchedule.Dir, content: bytes)
    ensures var rec := Cert.FlightOut(c, d, content); rec != [] && rec[0] == REC_APPDATA
  {}

  lemma AwaitKeepsOut(c: Suite, d: KeySchedule.Dir, cap: nat, limit: nat, tr: bytes, n: Net)
    ensures AwaitFinished(c, d, cap, limit, tr, n).n.out == n.out
  {}
}
