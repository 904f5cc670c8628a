/**
 * Honest certificate agreement: signer and verifier use the same hash, both Finished MACs match,
 * and the two endpoints end with mirrored application keys.
 */
module CertAgreement {
  import opened Bytes
  import opened Crypto
  import opened KeySchedule
  import opened Transport
  import opened Record
  import opened Handshake
  import opened HandshakeKeys
  import opened ClientStart
  import opened CertClientSpec
  import opened CertServer
  import opened CertHello
  import opened CertMessages
  import opened Chain
  import opened ServerStart
  import opened HelloRetry
  import opened HonestRun
  import opened Reassembly
  import FlightRun
  import X509Spec
  import CH = ClientHelloSpec
  import SH = ServerHello
  import SB = ServerHelloBuild
  import EE = ServerHelloRoundTrip

  // ----- the conversation ------------------------------------------------------------------

  datatype Pair = Pair(client: Client, server: Server) {
    ghost predicate Matched() { client.Sized() && client.ArgsOk() && server.Sized() && server.ArgsOk() }

    /** The client can ask for the server by its name. */
    ghost predicate Asks() { Matched() && |client.Name()| <= SNI_MAX_HOST }

    /** And it offers the server's scheme. */
    ghost predicate Offered() { Asks() && server.scheme in {0x0807, 0x0503, 0x0403, 0x0806, 0x0805, 0x0804} }

    /**
     * The server's certificate is an acceptable chain for the client and it can sign under a scheme that
     * the client offers, with a signature that verifies under the leaf key.
     */
    ghost predicate Honest(c: Suite) {
      Offered() && server.drawn.random != SH.HRR_RANDOM && Signature(c).Some? && Trusted(c)
    }

    ghost predicate Trusted(c: Suite)
      requires Signature(c).Some?
    {
      var leaf := ChainVerdict(c, client.trust, client.id, [server.cert]);
      leaf.Ok? && c.verify(leaf.value, server.scheme, CvContent(c.hash(Certified(c))), Signature(c).value)
    }

    function FlightLen(c: Suite): nat
      requires Signature(c).Some?
    {
      6 + (13 + |server.cert|) + (8 + |Signature(c).value|) + 36
    }

    /** The flight fits the server's half buffer and one record. */
    predicate Sendable(c: Suite)
      requires Signature(c).Some?
    {
      FlightLen(c) + HEADER_SZ + 1 + TAG_SZ <= server.Half() && FlightLen(c) <= MAX_PLAINTEXT
    }

    /** And it fits the client's two regions. */
    predicate Fits(c: Suite)
      requires Signature(c).Some?
    {
      && Sendable(c) && FlightLen(c) <= HS_ACC_SZ
      && FlightLen(c) + HEADER_SZ + 1 + TAG_SZ <= client.scratchLen - HS_ACC_SZ - LEAF_SPKI_SZ
    }

    function Hello(c: Suite): bytes { client.Hello(c) }

    function Reply(c: Suite): bytes {
      SB.ShBytes(server.drawn.random, client.sid, CH.CIPHER, CH.GROUP, c.share(server.drawn.priv), None)
    }

    function Hellos(c: Suite): bytes { Hello(c) + Reply(c) }

    // Everything the CertificateVerify signature covers.
    function Certified(c: Suite): bytes { Hellos(c) + SB.EE_BYTES + CertMsg(server.cert) }

    function Signature(c: Suite): Option<bytes> {
      c.sign(server.key, server.scheme, CvContent(c.hash(Certified(c))))
    }

    function Secret(c: Suite): Option<bytes> { c.agree(client.priv, c.share(server.drawn.priv)) }

    function Keys(c: Suite): HsKeys
      requires Secret(c).Some?
    {
      DeriveHsKeys(c, NoPsk(c), Secret(c).value, c.hash(Hellos(c)))
    }

    function Cv(c: Suite): bytes
      requires Signature(c).Some?
    {
      CvMsg(server.scheme, Signature(c).value)
    }

    function FlightBytes(c: Suite): bytes
      requires Secret(c).Some? && Signature(c).Some?
    {
      WholeFlight(c, Keys(c).server.secret, Hellos(c), SB.EE_BYTES + CertMsg(server.cert) + Cv(c))
    }

    // The transcript through the server's Finished.
    function Transcript(c: Suite): bytes
      requires Secret(c).Some? && Signature(c).Some?
    {
      Hellos(c) + FlightBytes(c)
    }

    function First(c: Suite): bytes { PlainRecord(REC_HANDSHAKE, Hello(c)) + CCS_RECORD }

    function Second(c: Suite): bytes
      requires Secret(c).Some? && Signature(c).Some?
    {
      PlainRecord(REC_HANDSHAKE, Reply(c)) + CCS_RECORD + FlightOut(c, Keys(c).server, FlightBytes(c))
    }

    function Third(c: Suite): bytes
      requires Secret(c).Some? && Signature(c).Some?
    {
      FinishedRecord(c, Keys(c).client, Transcript(c))
    }

    function ClientEnds(c: Suite): Ends
      requires Secret(c).Some? && Signature(c).Some?
    {
      AppEnds(c, Role.Client, Keys(c).hs, c.hash(Transcript(c)))
    }
  }

  lemma SecretShared(c: Suite, p: Pair)
    requires c.Laws()
    ensures p.Secret(c).Some? && p.Secret(c) == c.agree(p.server.drawn.priv, c.share(p.client.priv))
  {
    Agreed(c, p.client.priv, p.server.drawn.priv);
  }

  // ----- the client's reading of the flight ------------------------------------------------

  // One complete message `m` at the front of what is unread.
  lemma NextIs(c: Suite, k: Client, secret: bytes, fl: Flight, m: bytes, rest: bytes)
    requires fl.Valid() && fl.acc[fl.off..] == m + rest && |m| >= 4 && Num24(m, 1) == |m| - 4
    ensures fl.off + |m| <= |fl.acc| && fl.acc[fl.off + |m|..] == rest
    ensures NextMessage(c, k, secret, fl) == OnMessage(c, k, secret, fl.(off := fl.off + |m|), m)
  {
    hide OnMessage;
    var b := fl.acc[fl.off..];
    assert b[1] == m[1] && b[2] == m[2] && b[3] == m[3];
    assert fl.acc[fl.off + 1] == b[1] && fl.acc[fl.off + 2] == b[2] && fl.acc[fl.off + 3] == b[3];
    assert b[..|m|] == m && b[|m|..] == rest;
    assert fl.acc[fl.off..fl.off + |m|] == b[..|m|];
  }

  lemma OneStep(c: Suite, k: Client, secret: bytes, fl: Flight, m: bytes, rest: bytes, fl1: Flight)
    requires fl.Valid() && fl.acc[fl.off..] == m + rest && |m| >= 4 && Num24(m, 1) == |m| - 4
    requires OnMessage(c, k, secret, fl.(off := fl.off + |m|), m) == Took(fl1)
    ensures fl1.Valid() && fl1.acc == fl.acc && fl1.off == fl.off + |m| && fl1.acc[fl1.off..] == rest
    ensures Messages(c, k, secret, fl) == Messages(c, k, secret, fl1)
  {
    hide OnMessage, NextMessage;
    NextIs(c, k, secret, fl, m, rest);
  }

  lemma EeTaken(c: Suite, k: Client, secret: bytes, fl: Flight)
    requires fl.seen == NONE_SEEN
    ensures OnMessage(c, k, secret, fl, SB.EE_BYTES)
         == Took(fl.(tr := fl.tr + SB.EE_BYTES, seen := Seen(true, false, false)))
  {
    hide EE.EncExtVerdict;
    EE.EncExtRoundTrip(k.Name() != []);
  }

  lemma CertTaken(c: Suite, k: Client, secret: bytes, fl: Flight, cert: bytes)
    requires fl.seen == Seen(true, false, false) && |cert| + 9 < 0x100_0000
    ensures |CertMsg(cert)| >= 4
    ensures OnMessage(c, k, secret, fl, CertMsg(cert))
         == match ChainVerdict(c, k.trust, k.id, [cert])
            case Fail(status) => Refused(status)
            case Ok(spki) =>
              Took(fl.(tr := fl.tr + CertMsg(cert), seen := Seen(true, true, false), leaf := spki))
  {
    hide CertMsg, CertListOf, ChainVerdict;
    CertRoundTrip(cert);
    CertMsgSize(cert);
  }

  lemma CvTaken(c: Suite, k: Client, secret: bytes, fl: Flight, scheme: nat, sig: bytes)
    requires fl.seen == Seen(true, true, false) && scheme < 0x1_0000 && |sig| < 0x1_0000
    ensures |CvMsg(scheme, sig)| >= 4
    ensures OnMessage(c, k, secret, fl, CvMsg(scheme, sig))
         == if c.verify(fl.leaf, scheme, CvContent(c.hash(fl.tr)), sig)
            then Took(fl.(tr := fl.tr + CvMsg(scheme, sig), seen := Seen(true, true, true))) else Refused(BadCert)
  {
    hide CvMsg, CvOf, CvContent;
    CvRoundTrip(scheme, sig);
    CvSize(scheme, sig);
  }

  lemma CvSize(scheme: nat, sig: bytes)
    ensures |CvMsg(scheme, sig)| == 8 + |sig|
  {}

  /** A certified key is enough: what it signs verifies under the leaf key. */
  lemma CertifiedIsTrusted(c: Suite, p: Pair)
    requires c.Laws() && p.Signature(c).Some?
    requires ChainVerdict(c, p.client.trust, p.client.id, [p.server.cert]) == X509Spec.Ok(c.spkiOf(p.server.key))
    ensures p.Trusted(c)
  {
    hide ChainVerdict, CvContent;
    Verifies(c, p.server.key, p.server.scheme, CvContent(c.hash(p.Certified(c))), p.Signature(c).value);
  }

  lemma Verifies(c: Suite, key: bytes, scheme: nat, content: bytes, sig: bytes)
    requires c.Laws() && c.sign(key, scheme, content) == Some(sig)
    ensures c.verify(c.spkiOf(key), scheme, content, sig)
  {}

  lemma FinTaken(c: Suite, k: Client, secret: bytes, fl: Flight)
    requires c.Laws() && fl.seen == Seen(true, true, true)
    ensures var m := FinishedMsg(c, secret, fl.tr);
      |m| >= 4 && OnMessage(c, k, secret, fl, m) == Ended(fl.tr + m)
  {
    hide FinishedMsg;
    FinishedSize(c, secret, fl.tr);
  }

  // CertificateVerify and Finished.
  lemma LastTwo(c: Suite, k: Client, secret: bytes, fl: Flight, scheme: nat, sig: bytes)
    requires c.Laws() && fl.Valid() && fl.seen == Seen(true, true, false) && scheme < 0x1_0000 && |sig| < 0x1_0000
    requires var cv := CvMsg(scheme, sig); fl.acc[fl.off..] == cv + FinishedMsg(c, secret, fl.tr + cv)
    ensures var cv := CvMsg(scheme, sig);
      Messages(c, k, secret, fl) == if c.verify(fl.leaf, scheme, CvContent(c.hash(fl.tr)), sig)
        then Ended(fl.tr + cv + FinishedMsg(c, secret, fl.tr + cv)) else Refused(BadCert)
  {
    hide CvMsg, FinishedMsg, OnMessage, NextMessage, CvContent;
    var cv := CvMsg(scheme, sig);
    var fin := FinishedMsg(c, secret, fl.tr + cv);
    CvRoundTrip(scheme, sig);
    CvTaken(c, k, secret, fl.(off := fl.off + |cv|), scheme, sig);
    var fl1 := fl.(off := fl.off + |cv|, tr := fl.tr + cv, seen := Seen(true, true, true));
    NextIs(c, k, secret, fl, cv, fin);
    if c.verify(fl.leaf, scheme, CvContent(c.hash(fl.tr)), sig) {
      OneStep(c, k, secret, fl, cv, fin, fl1);
      FinishedSize(c, secret, fl1.tr);
      FinTaken(c, k, secret, fl1.(off := fl1.off + |fin|));
      assert fin + [] == fin;
      NextIs(c, k, secret, fl1, fin, []);
    }
  }

  lemma FlightNested(tr: bytes, ee: bytes, cm: bytes, cv: bytes, fin: bytes)
    ensures (ee + cm + cv + fin)[0..] == ee + (cm + (cv + fin))
    ensures tr + ee + cm + cv == tr + (ee + cm + cv)
    ensures tr + ee + cm + cv + fin == tr + (ee + cm + cv + fin)
  {}

  // EncryptedExtensions and Certificate in front of them.
  lemma AllFour(c: Suite, k: Client, secret: bytes, rd: Dir, tr: bytes, cert: bytes, scheme: nat, sig: bytes)
    requires c.Laws() && |cert| + 9 < 0x100_0000 && scheme < 0x1_0000 && |sig| < 0x1_0000
    ensures var msgs := SB.EE_BYTES + CertMsg(cert) + CvMsg(scheme, sig);
      var flight := WholeFlight(c, secret, tr, msgs);
      var leaf := ChainVerdict(c, k.trust, k.id, [cert]);
      Messages(c, k, secret, Flight(flight, 0, rd, tr, NONE_SEEN, []))
      == if leaf.Fail? then Refused(leaf.status)
         else if c.verify(leaf.value, scheme, CvContent(c.hash(tr + SB.EE_BYTES + CertMsg(cert))), sig)
         then Ended(tr + flight) else Refused(BadCert)
  {
    hide CertMsg, CvMsg, FinishedMsg, OnMessage, Messages, ChainVerdict, CvContent;
    var ee, cm, cv := SB.EE_BYTES, CertMsg(cert), CvMsg(scheme, sig);
    var fin := FinishedMsg(c, secret, tr + (ee + cm + cv));
    FlightNested(tr, ee, cm, cv, fin);
    var acc := WholeFlight(c, secret, tr, ee + cm + cv);
    var fl0 := Flight(acc, 0, rd, tr, NONE_SEEN, []);
    EeTaken(c, k, secret, fl0.(off := 6));
    var fl1 := fl0.(off := 6, tr := tr + ee, seen := Seen(true, false, false));
    OneStep(c, k, secret, fl0, ee, cm + (cv + fin), fl1);
    LastThree(c, k, secret, fl1, cert, scheme, sig);
  }

  lemma LastThree(c: Suite, k: Client, secret: bytes, fl: Flight, cert: bytes, scheme: nat, sig: bytes)
    requires c.Laws() && |cert| + 9 < 0x100_0000 && scheme < 0x1_0000 && |sig| < 0x1_0000
    requires fl.Valid() && fl.seen == Seen(true, false, false)
    requires var cm, cv := CertMsg(cert), CvMsg(scheme, sig);
      fl.acc[fl.off..] == cm + (cv + FinishedMsg(c, secret, fl.tr + cm + cv))
    ensures var cm, cv := CertMsg(cert), CvMsg(scheme, sig);
      var leaf := ChainVerdict(c, k.trust, k.id, [cert]);
      Messages(c, k, secret, fl)
      == if leaf.Fail? then Refused(leaf.status)
         else if c.verify(leaf.value, scheme, CvContent(c.hash(fl.tr + cm)), sig)
         then Ended(fl.tr + cm + cv + FinishedMsg(c, secret, fl.tr + cm + cv)) else Refused(BadCert)
  {
    hide CertMsg, CvMsg, FinishedMsg, OnMessage, NextMessage, ChainVerdict, CvContent;
    var cm, cv := CertMsg(cert), CvMsg(scheme, sig);
    var fin := FinishedMsg(c, secret, fl.tr + cm + cv);
    CertRoundTrip(cert);
    CertTaken(c, k, secret, fl.(off := fl.off + |cm|), cert);
    NextIs(c, k, secret, fl, cm, cv + fin);
    match ChainVerdict(c, k.trust, k.id, [cert])
    case Fail(_) =>
    case Ok(spki) =>
      var fl1 := fl.(off := fl.off + |cm|, tr := fl.tr + cm, seen := Seen(true, true, false), leaf := spki);
      OneStep(c, k, secret, fl, cm, cv + fin, fl1);
      LastTwo(c, k, secret, fl1, scheme, sig);
  }

  /** The four messages of the flight, read one after the other, are accepted exactly if the server is trusted. */
  lemma FourMessages(c: Suite, p: Pair, rd: Dir)
    requires c.Laws() && p.Offered() && p.Signature(c).Some? && p.Sendable(c) && p.Secret(c).Some?
    ensures var r := Messages(c, p.client, p.Keys(c).server.secret,
                              Flight(p.FlightBytes(c), 0, rd, p.Hellos(c), NONE_SEEN, []));
      if p.Trusted(c) then r == Ended(p.Transcript(c)) else r.Refused?
  {
    hide Pair.Hellos, Pair.Keys, CertMsg, CvMsg, WholeFlight, Messages, ChainVerdict, SH.HRR_RANDOM, CvContent;
    AllFour(c, p.client, p.Keys(c).server.secret, rd, p.Hellos(c), p.server.cert, p.server.scheme,
        p.Signature(c).value);
  }

  lemma FlightSize(c: Suite, p: Pair)
    requires c.Laws() && p.Offered() && p.Signature(c).Some? && p.Secret(c).Some?
    ensures |p.FlightBytes(c)| == p.FlightLen(c)
  {
    hide Pair.Hellos, Pair.Keys, CertMsg, CvMsg, FinishedMsg, ChainVerdict, SH.HRR_RANDOM;
    CertMsgSize(p.server.cert);
    CvSize(p.server.scheme, p.Signature(c).value);
    FinishedSize(c, p.Keys(c).server.secret, p.Hellos(c) + (SB.EE_BYTES + CertMsg(p.server.cert) + p.Cv(c)));
  }

  /** The flight comes in one record behind a ChangeCipherSpec; it has to fit and to be trusted. */
  lemma FlightRead(c: Suite, p: Pair, rest: bytes)
    requires c.Laws() && p.Offered() && p.Signature(c).Some? && p.Sendable(c) && p.Secret(c).Some?
    ensures var d := p.Keys(c).server;
      var e := FlightLoop(c, p.client, d.secret, StartOf(d, p.Hellos(c)),
                          CCS_RECORD + (FlightOut(c, d, p.FlightBytes(c)) + rest));
      if p.Trusted(c) && p.Fits(c) then e == Done(p.Transcript(c), rest) else e.Bad?
  {
    hide NextRecord, Messages, Sealed, Unsealed, Pair.FlightBytes, Pair.Hellos, DeriveHsKeys, ChainVerdict,
        SH.HRR_RANDOM, Pair.Transcript, Pair.Trusted;
    var d, flight := p.Keys(c).server, p.FlightBytes(c);
    FlightSize(c, p);
    KeysFresh(c, NoPsk(c), p.Secret(c).value, c.hash(p.Hellos(c)));
    if HEADER_SZ + |flight| + 1 + TAG_SZ <= p.client.IoCap() {
      ProtectedNext(c, d, flight, rest, p.client.IoCap());
      assert [] + flight == flight;
      FourMessages(c, p, d.Advance());
    } else {
      ProtectedOverlong(c, d, flight, rest, p.client.IoCap());
    }
  }

  /** However the flight is divided into records, padded and interleaved with ChangeCipherSpecs, it is accepted. */
  lemma AnyDivisionAccepted(c: Suite, p: Pair, ps: seq<FlightRun.Part>, rest: bytes) returns (j: nat)
    requires c.Laws() && p.Honest(c) && p.Fits(c) && p.Secret(c).Some?
    requires FlightRun.Contents(ps) == p.FlightBytes(c) && forall i :: 0 <= i < |ps| ==> ps[i].Fits(p.client.IoCap())
    ensures j <= |ps|
    ensures var d := p.Keys(c).server;
      FlightLoop(c, p.client, d.secret, StartOf(d, p.Hellos(c)), FlightRun.Wire(c, d, ps) + rest)
      == Done(p.Transcript(c), FlightRun.Wire(c, FlightRun.DirAfter(d, j), ps[j..]) + rest)
  {
    hide Messages, FlightLoop, Pair.FlightBytes, Pair.Hellos, Pair.Keys, Pair.Transcript, ChainVerdict, SH.HRR_RANDOM;
    var d := p.Keys(c).server;
    FlightSize(c, p);
    assert [] + p.FlightBytes(c) == p.FlightBytes(c);
    FourMessages(c, p, d);
    j := FlightRun.AnySplit(c, p.client, d.secret, StartOf(d, p.Hellos(c)), ps, rest);
  }

  /** The client's run on the server's flight, up to its reading of the encrypted messages. */
  lemma ClientUpToFlight(c: Suite, p: Pair, rest: bytes, out: bytes, sends: seq<bool>)
    requires c.Laws() && p.Asks() && p.Signature(c).Some? && AllSent(sends)
    ensures p.Secret(c).Some?
    ensures var tail := CCS_RECORD + (FlightOut(c, p.Keys(c).server, p.FlightBytes(c)) + rest);
      var n := Net(tail, out + p.First(c), sends[4..]);
      ClientRun(c, p.client, Net(p.Second(c) + rest, out, sends))
      == if p.server.drawn.random == SH.HRR_RANDOM then Failed(Unsupported, n)
         else ClientFlight(c, p.client, p.Keys(c), p.Hellos(c), n)
  {
    hide Client.Hello, SB.ShBytes, AwaitServerHello, FlightOut, WholeFlight, DeriveHsKeys, Pair.FlightBytes,
         SendWithCcs, PlainRecord, ClientFlight, ChainVerdict, SH.HRR_RANDOM, Pair.Signature;
    SecretShared(c, p);
    var ch, sh := p.Hello(c), p.Reply(c);
    var flight := FlightOut(c, p.Keys(c).server, p.FlightBytes(c));
    var tail := CCS_RECORD + (flight + rest);
    FirstFlightSent(Net(p.Second(c) + rest, out, sends), ch);
    SecondSplit(PlainRecord(REC_HANDSHAKE, sh), CCS_RECORD, flight, rest);
    var k, d := p.client, p.server.drawn;
    if d.random == SH.HRR_RANDOM {
      RetryDeclined(c, k.Offered(c), k.IoCap(), d.random, c.share(d.priv), tail, out + p.First(c), sends[4..]);
    } else {
      ReplyKeyed(c, k.Offered(c), k.IoCap(), d.random, d.priv, tail, out + p.First(c), sends[4..]);
    }
  }

  /** Given the server's flight, the client completes and has sent its two flights. */
  lemma ClientCompletes(c: Suite, p: Pair, rest: bytes, out: bytes, sends: seq<bool>)
    requires c.Laws() && p.Honest(c) && p.Fits(c) && AllSent(sends)
    ensures p.Secret(c).Some?
    ensures ClientRun(c, p.client, Net(p.Second(c) + rest, out, sends))
         == HsResult(Success, Net(rest, out + p.First(c) + p.Third(c), sends[5..]), Some(p.ClientEnds(c)))
  {
    hide ClientRun, FlightLoop, FlightOut, Pair.FlightBytes, Pair.Hellos, Pair.Keys, Pair.Transcript, Pair.Trusted,
         Pair.First, Pair.Second, FinishedRecord, AppEnds, SH.HRR_RANDOM, Pair.Signature, Pair.Fits;
    ClientUpToFlight(c, p, rest, out, sends);
    FitsSendable(c, p);
    FlightRead(c, p, rest);
    assert sends[4..][0] && sends[4..][1..] == sends[5..];
  }

  lemma FitsSendable(c: Suite, p: Pair)
    requires p.Signature(c).Some? && p.Fits(c)
    ensures p.Sendable(c)
  {
    hide Pair.Signature;
  }

  /** If the server is not trusted, or its flight does not fit, or its random asks for a retry, the client fails. */
  lemma ClientRefuses(c: Suite, p: Pair, sends: seq<bool>)
    requires c.Laws() && p.Offered() && p.Signature(c).Some? && p.Sendable(c) && AllSent(sends)
    requires !(p.Honest(c) && p.Fits(c))
    ensures p.Secret(c).Some?
    ensures ClientRun(c, p.client, Net(p.Second(c), [], sends)).ends.None?
  {
    hide ClientRun, FlightLoop, FlightOut, Pair.FlightBytes, Pair.Hellos, Pair.Keys, Pair.Transcript, Pair.Trusted,
         Pair.First, Pair.Second, SH.HRR_RANDOM, Pair.Signature, Pair.Fits, Pair.Sendable;
    ClientUpToFlight(c, p, [], [], sends);
    assert p.Second(c) + [] == p.Second(c);
    if p.server.drawn.random != SH.HRR_RANDOM {
      FlightRead(c, p, []);
      var tail := CCS_RECORD + (FlightOut(c, p.Keys(c).server, p.FlightBytes(c)) + []);
      BadIsFailure(c, p, p.Keys(c), p.Hellos(c), Net(tail, [] + p.First(c), sends[4..]));
    }
  }

  lemma BadIsFailure(c: Suite, p: Pair, keys: HsKeys, tr: bytes, n: Net)
    requires p.client.ArgsOk() && FlightLoop(c, p.client, keys.server.secret, StartOf(keys.server, tr), n.inp).Bad?
    ensures ClientFlight(c, p.client, keys, tr, n).ends.None?
  {
    hide FlightLoop;
  }

  // ----- the server's side -----------------------------------------------------------------

  /** The server reads the ClientHello without a retry and looks for its scheme. */
  lemma HelloGreeted(c: Suite, p: Pair, more: bytes, out: bytes, sends: seq<bool>) returns (g: Greeting)
    requires c.Laws() && p.Asks()
    ensures g.Greeting? && g.Valid() && g.pre == [] && g.msg == p.Hello(c) && !g.retried && g.n == Net(more, out, sends)
    ensures g.hello.keyShare.Some? && ShareOf(g.msg, g.hello) == c.share(p.client.priv)
        && SidOf(g.msg, g.hello) == p.client.sid
    ensures Greet(c, Net(PlainRecord(REC_HANDSHAKE, p.Hello(c)) + more, out, sends), p.server.scratchLen) == g
    ensures Offers(g.msg, g.hello, p.server.scheme) <==> p.Offered()
  {
    hide CertHelloBytes, CH.ParseHello, Gather, PlainRecord, ChainVerdict, SH.HRR_RANDOM, CH.Words, Pair.Signature,
        SCHEMES;
    var k, half := p.client, p.server.Half();
    var pub, m := c.share(k.priv), p.Hello(c);
    CertHelloRoundTrip(k.random, k.sid, pub, k.Name());
    CertHelloFields(k.random, k.sid, pub, k.Name());
    GatherOfOne(m, more, half, p.server.scratchLen - half);
    var h := CertParsed(32, k.Name());
    g := Greeting.Greeting([], m, h, false, Net(more, out, sends));
    OwnSchemes(p.server.scheme);
    OfferInside(m, h);
  }

  lemma HelloAnswered(c: Suite, p: Pair, g: Greeting)
    requires c.Laws() && p.Asks() && g.Greeting? && g.Valid() && g.pre == [] && g.msg == p.Hello(c) && !g.retried
    requires g.hello.keyShare.Some?
    requires ShareOf(g.msg, g.hello) == c.share(p.client.priv) && SidOf(g.msg, g.hello) == p.client.sid
    requires AllSent(g.n.sends)
    ensures p.Secret(c).Some?
    ensures Answer(c, p.server.drawn, g, None, NoPsk(c))
         == Keyed(p.Keys(c), p.Hellos(c),
                  Net(g.n.inp, g.n.out + (PlainRecord(REC_HANDSHAKE, p.Reply(c)) + CCS_RECORD), g.n.sends[4..]))
  {
    hide CH.ParseHello, ShareOf, SidOf, SB.ShBytes, SendWithCcs, PlainRecord, DeriveHsKeys, Client.Hello,
        ChainVerdict, SH.HRR_RANDOM;
    SecretShared(c, p);
    FirstFlightSent(g.n, p.Reply(c));
    assert [] + p.Hello(c) == p.Hello(c);
  }

  /** The server builds exactly the flight the client reads, or none. */
  lemma PrefixBuilt(c: Suite, p: Pair)
    requires c.Laws() && p.Offered() && p.Secret(c).Some?
    ensures var x := FlightPrefix(c, p.server, p.Hellos(c));
      if p.Signature(c).Some? && p.FlightLen(c) + HEADER_SZ + 1 + TAG_SZ <= p.server.Half()
      then x == Prefix(Success, SB.EE_BYTES + CertMsg(p.server.cert) + p.Cv(c)) else x.status != Success
  {
    hide Pair.Hellos, CertMsg, CvMsg, ChainVerdict, SH.HRR_RANDOM, CvContent;
    CertMsgSize(p.server.cert);
    if p.Signature(c).Some? {
      CvSize(p.server.scheme, p.Signature(c).value);
    }
  }

  /** Given the client's first flight, the server has the keys, if its scheme is offered. */
  lemma ServerKeyed(c: Suite, p: Pair, more: bytes, out: bytes, sends: seq<bool>)
    requires c.Laws() && p.Asks() && AllSent(sends)
    ensures p.Secret(c).Some?
    ensures var n := Net(p.First(c) + more, out, sends);
      if p.Offered() then ToKeys(c, p.server, n) == Keyed(p.Keys(c), p.Hellos(c),
        Net(CCS_RECORD + more, out + (PlainRecord(REC_HANDSHAKE, p.Reply(c)) + CCS_RECORD), sends[4..]))
      else ToKeys(c, p.server, n).Broken? && ToKeys(c, p.server, n).status == IllegalParam
  {
    hide Client.Hello, SB.ShBytes, Greet, Offers, Answer, DeriveHsKeys, PlainRecord, CH.ParseHello, SH.HRR_RANDOM,
        Pair.Offered;
    SecretShared(c, p);
    Join(PlainRecord(REC_HANDSHAKE, p.Hello(c)), CCS_RECORD, more);
    var g := HelloGreeted(c, p, CCS_RECORD + more, out, sends);
    HelloAnswered(c, p, g);
  }

  /** Given the client's first flight, the server sends its own; then it waits for Finished. */
  lemma ServerUpToFinished(c: Suite, p: Pair, more: bytes, out: bytes, sends: seq<bool>)
    requires c.Laws() && p.Offered() && p.Signature(c).Some? && p.Sendable(c) && AllSent(sends)
    ensures p.Secret(c).Some?
    ensures var n := Net(CCS_RECORD + more, out + p.Second(c), sends[5..]);
      var s := AwaitFinished(c, p.Keys(c).client, p.server.scratchLen, p.server.Half(), p.Transcript(c), n);
      ServerRun(c, p.server, Net(p.First(c) + more, out, sends))
      == if s.ret != Success then Failed(s.ret, s.n) else HsResult(Success, s.n, Some(p.ClientEnds(c).Mirrored()))
  {
    hide SB.ShBytes, ToKeys, AwaitFinished, FlightOut, FlightPrefix, WholeFlight, CertMsg, PlainRecord, AppEnds,
        SH.HRR_RANDOM, CvMsg, Pair.Hellos, Pair.Keys, Pair.Signature, Pair.First;
    ServerKeyed(c, p, more, out, sends);
    PrefixBuilt(c, p);
    FlightSize(c, p);
    assert sends[4..][0] && sends[4..][1..] == sends[5..];
    Join(out, PlainRecord(REC_HANDSHAKE, p.Reply(c)) + CCS_RECORD, FlightOut(c, p.Keys(c).server, p.FlightBytes(c)));
    RolesMirror(c, p.Keys(c).hs, c.hash(p.Transcript(c)));
  }

  /** A server whose scheme is not offered, or that has no signature or no room for its flight, fails. */
  lemma ServerRefuses(c: Suite, p: Pair, more: bytes, sends: seq<bool>)
    requires c.Laws() && p.Asks() && AllSent(sends)
    requires !(p.Offered() && p.Signature(c).Some? && p.Sendable(c))
    ensures ServerRun(c, p.server, Net(p.First(c) + more, [], sends)).ret != Success
  {
    hide SB.ShBytes, ToKeys, AwaitFinished, FlightOut, FlightPrefix, WholeFlight, CertMsg, PlainRecord, AppEnds,
        SH.HRR_RANDOM, CvMsg, Pair.Hellos, Pair.Keys, Pair.Signature, Pair.First, Pair.Offered;
    ServerKeyed(c, p, more, [], sends);
    if p.Offered() {
      PrefixBuilt(c, p);
      if p.Signature(c).Some? {
        FlightSize(c, p);
      }
    }
  }

  /** Given the client's two flights, the server completes and has sent its own. */
  lemma ServerCompletes(c: Suite, p: Pair, rest: bytes, out: bytes, sends: seq<bool>)
    requires c.Laws() && p.Offered() && p.Signature(c).Some? && p.Sendable(c) && AllSent(sends)
    ensures p.Secret(c).Some?
    ensures ServerRun(c, p.server, Net(p.First(c) + p.Third(c) + rest, out, sends))
         == HsResult(Success, Net(rest, out + p.Second(c), sends[5..]), Some(p.ClientEnds(c).Mirrored()))
  {
    hide ServerRun, Pair.First, Pair.Second, AppEnds, AwaitFinished, ChainVerdict, SH.HRR_RANDOM, Pair.Keys,
        Pair.Transcript, FinishedRecord;
    SecretShared(c, p);
    Join(p.First(c), p.Third(c), rest);
    ServerUpToFinished(c, p, p.Third(c) + rest, out, sends);
    FinishedAccepted(c, p.Keys(c).client, p.server.scratchLen, p.server.Half(), p.Transcript(c),
                     Net(CCS_RECORD + (p.Third(c) + rest), out + p.Second(c), sends[5..]), rest);
  }

  // ----- joint runs ------------------------------------------------------------------------

  lemma ClientOpens(c: Suite, p: Pair, inp: bytes, sends: seq<bool>) returns (more: bytes)
    requires c.Laws() && p.Asks() && AllSent(sends)
    ensures ClientRun(c, p.client, Net(inp, [], sends)).n.out == p.First(c) + more
  {
    hide Client.Hello, AwaitServerHello, FlightLoop, SendWithCcs, PlainRecord, FinishedRecord, AppEnds, ChainVerdict,
        SH.HRR_RANDOM;
    FirstFlightSent(Net(inp, [], sends), p.Hello(c));
    assert [] + p.First(c) == p.First(c);
    AwaitKeepsOut(c, p.client.Offered(c), p.client.IoCap(), Net(inp, p.First(c), sends[4..]));
    var out := ClientRun(c, p.client, Net(inp, [], sends)).n.out;
    assert |out| >= |p.First(c)| && out[..|p.First(c)|] == p.First(c);
    more := out[|p.First(c)|..];
  }

  /** Each endpoint reads what the other sends, in order and completely. */
  ghost predicate Joined(c: Suite, p: Pair, toClient: bytes, toServer: bytes, cs: seq<bool>, ss: seq<bool>) {
    && toServer == ClientRun(c, p.client, Net(toClient, [], cs)).n.out
    && toClient == ServerRun(c, p.server, Net(toServer, [], ss)).n.out
  }

  lemma FinishedKeepsOut(c: Suite, d: Dir, cap: nat, limit: nat, tr: bytes, n: Net)
    ensures AwaitFinished(c, d, cap, limit, tr, n).n.out == n.out
  {}

  lemma ServerAnswers(c: Suite, p: Pair, more: bytes, sends: seq<bool>)
    requires c.Laws() && p.Offered() && p.Signature(c).Some? && p.Sendable(c) && AllSent(sends)
    ensures p.Secret(c).Some?
    ensures ServerRun(c, p.server, Net(p.First(c) + more, [], sends)).n.out == p.Second(c)
  {
    hide ServerRun, Pair.First, Pair.Second, AppEnds, AwaitFinished, ChainVerdict, SH.HRR_RANDOM, Pair.Keys,
        Pair.Transcript;
    ServerUpToFinished(c, p, more, [], sends);
    assert [] + p.Second(c) == p.Second(c);
    FinishedKeepsOut(c, p.Keys(c).client, p.server.scratchLen, p.server.Half(), p.Transcript(c),
                     Net(CCS_RECORD + more, p.Second(c), sends[5..]));
  }

  /**
   * Honest certificate agreement: in every joint run both sides succeed, and each one's write
   * secret, key and IV are the other's read secret, key and IV, with all counters at 0. The run
   * exists.
   */
  lemma HonestCertAgreement(c: Suite, p: Pair, toClient: bytes, toServer: bytes, cs: seq<bool>, ss: seq<bool>)
    requires c.Laws() && p.Honest(c) && p.Fits(c) && AllSent(cs) && AllSent(ss)
    ensures p.Secret(c).Some?
    ensures Joined(c, p, toClient, toServer, cs, ss) <==> toClient == p.Second(c) && toServer == p.First(c) + p.Third(c)
    ensures Joined(c, p, toClient, toServer, cs, ss) ==>
      Mirrored(ClientRun(c, p.client, Net(toClient, [], cs)), ServerRun(c, p.server, Net(toServer, [], ss)))
  {
    hide ClientRun, ServerRun, Pair.First, Pair.Second, Pair.Third, Pair.Keys, Pair.Transcript, DirOf, ChainVerdict,
        SH.HRR_RANDOM;
    SecretShared(c, p);
    RolesMirror(c, p.Keys(c).hs, c.hash(p.Transcript(c)));
    var w1, w2, w3 := p.First(c), p.Second(c), p.Third(c);
    ClientCompletes(c, p, [], [], cs);
    ServerCompletes(c, p, [], [], ss);
    assert w2 + [] == w2 && w1 + w3 + [] == w1 + w3;
    assert [] + w1 + w3 == w1 + w3 && [] + w2 == w2;
    if Joined(c, p, toClient, toServer, cs, ss) {
      var more := ClientOpens(c, p, toClient, cs);
      ServerAnswers(c, p, more, ss);
    }
  }

  // ----- when it fails ---------------------------------------------------------------------

  /**
   * The conditions are exact: a joint run succeeds on both sides, with mirrored keys, if and only if
   * the client can ask for the server by its name and offers its scheme, the server's random is not the
   * retry sentinel, the server can sign, its chain is accepted with a leaf key under which the signature
   * verifies, and the flight fits.
   */
  lemma CertAgreementExactly(c: Suite, p: Pair, toClient: bytes, toServer: bytes, cs: seq<bool>, ss: seq<bool>)
    requires c.Laws() && p.Matched() && AllSent(cs) && AllSent(ss)
    requires Joined(c, p, toClient, toServer, cs, ss)
    ensures Mirrored(ClientRun(c, p.client, Net(toClient, [], cs)), ServerRun(c, p.server, Net(toServer, [], ss)))
      <==> p.Honest(c) && p.Fits(c)
  {
    hide ServerRun, Pair.First, Pair.Second, Pair.Third, Pair.Keys, SH.HRR_RANDOM, Pair.Trusted, Pair.Offered,
         Pair.Fits, Pair.Sendable, Pair.Signature, SendWithCcs, AwaitServerHello, ClientFlight;
    if p.Asks() {
      var more := ClientOpens(c, p, toClient, cs);
      if !(p.Offered() && p.Signature(c).Some? && p.Sendable(c)) {
        ServerRefuses(c, p, more, ss);
        NotSendable(c, p);
      } else if p.Honest(c) && p.Fits(c) {
        HonestCertAgreement(c, p, toClient, toServer, cs, ss);
      } else {
        ServerAnswers(c, p, more, ss);
        ClientRefuses(c, p, cs);
      }
    } else {
      NotOffered(p);
    }
  }

  lemma NotSendable(c: Suite, p: Pair)
    requires !(p.Offered() && p.Signature(c).Some? && p.Sendable(c))
    ensures !(p.Honest(c) && p.Fits(c))
  {
    hide Pair.Offered, Pair.Signature, Pair.Trusted, SH.HRR_RANDOM;
  }

  lemma NotOffered(p: Pair)
    requires !p.Asks()
    ensures !p.Offered()
  {}
}
