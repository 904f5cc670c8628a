/**
 * Honest PSK agreement: the two endpoints, joined by an in-order channel, complete and end with
 * mirrored application keys.
 */
module PskAgreement {
  import opened Bytes
  import opened Crypto
  import opened KeySchedule
  import opened Transport
  import opened Record
  import opened Handshake
  import opened HandshakeKeys
  import opened ClientStart
  import opened PskClientSpec
  import opened PskServer
  import opened PskHello
  import opened ServerStart
  import opened HelloRetry
  import opened HonestRun
  import opened Reassembly
  import CH = ClientHelloSpec
  import HelloGrammar
  import SH = ServerHello
  import SB = ServerHelloBuild
  import EE = ServerHelloRoundTrip

  // ----- the conversation ------------------------------------------------------------------

  datatype Pair = Pair(client: Client, server: Server) {
    /** Both hold the same PSK under the same identity. */
    ghost predicate Matched() {
      && client.Sized() && client.ArgsOk() && server.Sized() && server.ArgsOk()
      && client.psk == server.psk && client.identity == server.identity
    }

    /** The identity is not empty, and the ClientHello fits one record and every buffer it passes through. */
    ghost predicate Readable() { Matched() && client.identity != [] && Fits() }

    ghost predicate Honest() { Readable() && server.drawn.random != SH.HRR_RANDOM }

    predicate Fits() { |client.identity| + 199 <= client.scratchLen && Receivable() }

    predicate Receivable() {
      var n := |client.identity| + 199;
      n <= MAX_PLAINTEXT + 256 && n + HEADER_SZ <= server.scratchLen - server.scratchLen / 2
    }

    function Hello(c: Suite): bytes { client.Hello(c) }

    function Reply(c: Suite): bytes {
      SB.ShBytes(server.drawn.random, client.sid, CH.CIPHER, CH.GROUP, c.share(server.drawn.priv), Some(0))
    }

    function Secret(c: Suite): Option<bytes> { c.agree(client.priv, c.share(server.drawn.priv)) }

    function Keys(c: Suite): HsKeys
      requires Secret(c).Some?
    {
      DeriveHsKeys(c, Early(c, client.psk), Secret(c).value, c.hash(Hello(c) + Reply(c)))
    }

    // The transcript through the server's Finished.
    function Transcript(c: Suite): bytes
      requires Secret(c).Some?
    {
      AfterFlight(c, Keys(c), Hello(c) + Reply(c))
    }

    /** What crosses the wire: the client's first flight, the server's, the client's Finished. */
    function First(c: Suite): bytes { PlainRecord(REC_HANDSHAKE, Hello(c)) + CCS_RECORD }

    function Second(c: Suite): bytes
      requires Secret(c).Some?
    {
      PlainRecord(REC_HANDSHAKE, Reply(c)) + CCS_RECORD + FlightOut(c, Keys(c).server, Hello(c) + Reply(c))
    }

    function Third(c: Suite): bytes
      requires Secret(c).Some?
    {
      FinishedRecord(c, Keys(c).client, Transcript(c))
    }

    function ClientEnds(c: Suite): Ends
      requires Secret(c).Some?
    {
      AppEnds(c, Role.Client, Keys(c).hs, c.hash(Transcript(c)))
    }
  }

  // ----- the client's side -----------------------------------------------------------------

  /** Reading the server's flight: both messages come in one record, and both are accepted. */
  lemma FlightAccepted(c: Suite, keys: HsKeys, tr: bytes, cap: nat, rest: bytes)
    requires c.Laws() && 256 <= cap && keys.server.seqNo == 0
    ensures FlightLoop(c, keys.server.secret, cap, Flight([], 0, keys.server, tr, false),
                       CCS_RECORD + (FlightOut(c, keys.server, tr) + rest))
         == Done(AfterFlight(c, keys, tr), rest)
  {
    hide NextRecord, Messages, Sealed, Unsealed, FinishedMsg;
    var fin := FinishedMsg(c, keys.server.secret, tr + SB.EE_BYTES);
    FinishedSize(c, keys.server.secret, tr + SB.EE_BYTES);
    ProtectedNext(c, keys.server, SB.EE_BYTES + fin, rest, cap);
    assert [] + (SB.EE_BYTES + fin) == SB.EE_BYTES + fin;
    BothMessages(c, keys.server.secret, tr, keys.server.Advance());
  }

  lemma BothMessages(c: Suite, secret: bytes, tr: bytes, rd: Dir)
    requires c.Laws()
    ensures var fin := FinishedMsg(c, secret, tr + SB.EE_BYTES);
      Messages(c, secret, Flight(SB.EE_BYTES + fin, 0, rd, tr, false)) == Ended(tr + SB.EE_BYTES + fin)
  {
    hide FinishedMsg, EE.EncExtVerdict;
    var fin := FinishedMsg(c, secret, tr + SB.EE_BYTES);
    FinishedSize(c, secret, tr + SB.EE_BYTES);
    var acc := SB.EE_BYTES + fin;
    EE.EncExtRoundTrip(false);
    assert acc[0..6] == SB.EE_BYTES && acc[6..42] == fin;
    var fl := Flight(acc, 0, rd, tr, false);
    var fl1 := Flight(acc, 6, rd, tr + SB.EE_BYTES, true);
    assert Num24(acc, 1) == 2;
    assert NextMessage(c, secret, fl) == Took(fl1);
    assert Num24(acc, 7) == Num24(fin, 1);
    assert NextMessage(c, secret, fl1) == Ended(tr + SB.EE_BYTES + fin);
  }

  lemma SecretShared(c: Suite, p: Pair)
    requires c.Laws()
    ensures p.Secret(c).Some? && p.Secret(c) == c.agree(p.server.drawn.priv, c.share(p.client.priv))
  {
    Agreed(c, p.client.priv, p.server.drawn.priv);
  }

  /** Given the server's flight, the client completes and has sent its two flights. */
  lemma ClientCompletes(c: Suite, p: Pair, rest: bytes, out: bytes, sends: seq<bool>)
    requires c.Laws() && p.Honest() && AllSent(sends)
    ensures p.Secret(c).Some?
    ensures ClientRun(c, p.client, Net(p.Second(c) + rest, out, sends))
         == HsResult(Success, Net(rest, out + p.First(c) + p.Third(c), sends[5..]), Some(p.ClientEnds(c)))
  {
    hide Client.Hello, SB.ShBytes, AwaitServerHello, FlightLoop, FlightOut, AfterFlight, DeriveHsKeys,
         SendWithCcs, PlainRecord, FinishedRecord, AppEnds;
    SecretShared(c, p);
    var ch, sh := p.Hello(c), p.Reply(c);
    var keys := p.Keys(c);
    var tail := CCS_RECORD + (FlightOut(c, keys.server, ch + sh) + rest);
    HelloFits(c, p);
    FirstFlightSent(Net(p.Second(c) + rest, out, sends), ch);
    SecondSplit(PlainRecord(REC_HANDSHAKE, sh), CCS_RECORD, FlightOut(c, keys.server, ch + sh), rest);
    ReplyKeyed(c, p.client.Offered(c), p.client.scratchLen, p.server.drawn.random, p.server.drawn.priv, tail,
        out + p.First(c), sends[4..]);
    KeysFresh(c, Early(c, p.client.psk), p.Secret(c).value, c.hash(ch + sh));
    FlightAccepted(c, keys, ch + sh, p.client.scratchLen, rest);
    assert sends[4..][0] && sends[4..][1..] == sends[5..];
  }

  // ----- the server's side -----------------------------------------------------------------

  lemma HelloFits(c: Suite, p: Pair)
    requires c.Laws() && p.Readable()
    ensures var m := p.Hello(c); |m| == |p.client.identity| + 199 && WholeMessage(m, p.server.scratchLen / 2)
  {
    hide PskHelloBytes;
    var k := p.client;
    var pub := c.share(k.priv);
    var b := Binder(c, k.psk, HashedPart(k.random, k.sid, pub, k.identity));
    PskHelloFields(k.random, k.sid, pub, k.identity, b);
    HelloIsWhole(k.random, k.sid, pub, k.identity, b);
  }

  lemma HelloIsWhole(random: bytes, sid: bytes, pub: bytes, identity: bytes, binder: bytes)
    requires |random| == 32 && |sid| == 32
    ensures var m := PskHelloBytes(random, sid, pub, identity, binder);
      |m| >= 4 && (|m| < 0x100_0000 ==> Num24(m, 1) == |m| - 4)
  {
    hide Num24, HelloGrammar.HelloBytes, HelloGrammar.EncExts, U24;
    var m := PskHelloBytes(random, sid, pub, identity, binder);
    HelloGrammar.HelloLayout(random, sid, U16(CH.CIPHER), HelloGrammar.EncExts(PskExts(pub, identity, binder)));
    if |m| < 0x100_0000 {
      Num24Of(m, 1, |m| - 4);
    }
  }

  /** The server reads the honest ClientHello without a retry. */
  lemma HelloGreeted(c: Suite, p: Pair, more: bytes, out: bytes, sends: seq<bool>) returns (h: CH.Parsed)
    requires c.Laws() && p.Readable()
    ensures CH.ParseHello(p.Hello(c)) == CH.Accept(h)
    ensures var n := |p.client.identity|;
      h == CH.Parsed(Slice(39, 32), Some(Slice(114, 32)), Some(Slice(100, 4)),
                     Some(CH.Psk(Slice(160, n), Slice(n + 167, 32), n + 164)))
    ensures Greet(c, Net(PlainRecord(REC_HANDSHAKE, p.Hello(c)) + more, out, sends), p.server.scratchLen)
         == Greeting.Greeting([], p.Hello(c), h, false, Net(more, out, sends))
  {
    hide PskHelloBytes, CH.ParseHello, Gather, PlainRecord, HashedPart, Binder, WholeMessage;
    var k, half := p.client, p.server.scratchLen / 2;
    var pub := c.share(k.priv);
    var b := Binder(c, k.psk, HashedPart(k.random, k.sid, pub, k.identity));
    assert |b| == 32 by { BinderSize(c, k.psk, HashedPart(k.random, k.sid, pub, k.identity)); }
    PskHelloRoundTrip(k.random, k.sid, pub, k.identity, b);
    h := PskVerdict(k.identity).hello;
    HelloFits(c, p);
    GatherOfOne(p.Hello(c), more, half, p.server.scratchLen - half);
  }

  lemma BinderSize(c: Suite, psk: bytes, prefix: bytes)
    requires c.Laws()
    ensures |Binder(c, psk, prefix)| == 32
  {}

  /** The identity is ours, the binder is the one we compute, and the share is the client's. */
  lemma OfferAccepted(c: Suite, p: Pair, g: Greeting)
    requires c.Laws() && p.Readable() && g.Greeting? && g.Valid() && g.pre == [] && g.msg == p.Hello(c)
    requires var n := |p.client.identity|;
      g.hello == CH.Parsed(Slice(39, 32), Some(Slice(114, 32)), Some(Slice(100, 4)),
                           Some(CH.Psk(Slice(160, n), Slice(n + 167, 32), n + 164)))
    ensures OfferVerdict(c, p.server, g) == Success
    ensures ShareOf(g.msg, g.hello) == c.share(p.client.priv) && SidOf(g.msg, g.hello) == p.client.sid
  {
    hide PskHelloBytes, CH.ParseHello, HashedPart, Binder;
    var k := p.client;
    var pub := c.share(k.priv);
    var b := Binder(c, k.psk, HashedPart(k.random, k.sid, pub, k.identity));
    BinderSize(c, k.psk, HashedPart(k.random, k.sid, pub, k.identity));
    PskHelloFields(k.random, k.sid, pub, k.identity, b);
    OfferInside(g.msg, g.hello);
    var m := g.msg;
    assert m[|k.identity| + 167..|k.identity| + 199] == b;
    assert [] + m[..|k.identity| + 164] == m[..|k.identity| + 164];
  }

  lemma HelloAnswered(c: Suite, p: Pair, g: Greeting)
    requires c.Laws() && p.Readable() && g.Greeting? && g.Valid() && g.pre == [] && g.msg == p.Hello(c) && !g.retried
    requires g.hello.keyShare.Some?
    requires ShareOf(g.msg, g.hello) == c.share(p.client.priv) && SidOf(g.msg, g.hello) == p.client.sid
    requires AllSent(g.n.sends)
    ensures p.Secret(c).Some?
    ensures Answer(c, p.server.drawn, g, Some(0), Early(c, p.server.psk))
         == Keyed(p.Keys(c), p.Hello(c) + p.Reply(c),
                  Net(g.n.inp, g.n.out + (PlainRecord(REC_HANDSHAKE, p.Reply(c)) + CCS_RECORD), g.n.sends[4..]))
  {
    hide CH.ParseHello, ShareOf, SidOf, SB.ShBytes, SendWithCcs, PlainRecord, DeriveHsKeys, Client.Hello;
    FirstFlightSent(g.n, p.Reply(c));
    assert [] + p.Hello(c) == p.Hello(c);
  }

  /** Given the client's two flights, the server completes and has sent its own. */
  lemma ServerCompletes(c: Suite, p: Pair, rest: bytes, out: bytes, sends: seq<bool>)
    requires c.Laws() && p.Honest() && AllSent(sends)
    ensures p.Secret(c).Some?
    ensures ServerRun(c, p.server, Net(p.First(c) + p.Third(c) + rest, out, sends))
         == HsResult(Success, Net(rest, out + p.Second(c), sends[5..]), Some(p.ClientEnds(c).Mirrored()))
  {
    hide Client.Hello, Pair.Reply, Greet, OfferVerdict, Answer, AwaitFinished, FlightOut, AfterFlight, DeriveHsKeys,
         PlainRecord, FinishedRecord, AppEnds, CH.ParseHello;
    SecretShared(c, p);
    var ch, sh := p.Hello(c), p.Reply(c);
    var keys := p.Keys(c);
    var more := CCS_RECORD + (p.Third(c) + rest);
    SecondSplit(PlainRecord(REC_HANDSHAKE, ch), CCS_RECORD, p.Third(c), rest);
    var h := HelloGreeted(c, p, more, out, sends);
    var g := Greeting.Greeting([], ch, h, false, Net(more, out, sends));
    OfferAccepted(c, p, g);
    HelloAnswered(c, p, g);
    var n := Net(more, out + (PlainRecord(REC_HANDSHAKE, sh) + CCS_RECORD), sends[4..]);
    assert sends[4..][0] && sends[4..][1..] == sends[5..];
    Join(out, PlainRecord(REC_HANDSHAKE, sh) + CCS_RECORD, FlightOut(c, keys.server, ch + sh));
    FinishedAccepted(c, keys.client, p.server.scratchLen, FLIGHT_CAP, p.Transcript(c),
                     Net(more, out + p.Second(c), sends[5..]), rest);
    RolesMirror(c, keys.hs, c.hash(p.Transcript(c)));
  }

  const FINISHED_SZ: nat := 58 // a record that holds a Finished

  // ----- joint runs ------------------------------------------------------------------------

  lemma ThirdSize(c: Suite, d: Dir, tr: bytes)
    requires c.Laws()
    ensures |FinishedRecord(c, d, tr)| == FINISHED_SZ
  {
    hide Sealed, FinishedMsg;
    FinishedSize(c, d.secret, tr);
    ProtectedNext(c, d, FinishedMsg(c, d.secret, tr), [], 2048);
  }

  lemma FlightAppends(c: Suite, keys: HsKeys, cap: nat, tr: bytes, n: Net) returns (more: bytes)
    requires c.Laws()
    ensures |more| <= FINISHED_SZ && ClientFlight(c, keys, cap, tr, n).n.out == n.out + more
  {
    hide FlightLoop, FinishedRecord, AppEnds;
    more := [];
    match FlightLoop(c, keys.server.secret, cap, Flight([], 0, keys.server, tr, false), n.inp)
    case Done(tr1, rest) =>
      ThirdSize(c, keys.client, tr1);
      if n.CanSend() {
        more := FinishedRecord(c, keys.client, tr1);
      }
    case Bad(_, _) =>
  }

  /** Whatever it is sent, the client has sent its first flight and appends to it at most its Finished. */
  lemma ClientOpens(c: Suite, p: Pair, inp: bytes, sends: seq<bool>) returns (more: bytes)
    requires c.Laws() && p.client.ArgsOk() && |p.Hello(c)| <= p.client.scratchLen && AllSent(sends)
    ensures |more| <= FINISHED_SZ
    ensures ClientRun(c, p.client, Net(inp, [], sends)).n.out == p.First(c) + more
  {
    hide Client.Hello, AwaitServerHello, ClientFlight, SendWithCcs, PlainRecord;
    FirstFlightSent(Net(inp, [], sends), p.Hello(c));
    assert [] + p.First(c) == p.First(c);
    var k, n := p.client, Net(inp, p.First(c), sends[4..]);
    AwaitKeepsOut(c, k.Offered(c), k.scratchLen, n);
    more := [];
    match AwaitServerHello(c, k.Offered(c), k.scratchLen, n)
    case Keyed(keys, tr, n1) => more := FlightAppends(c, keys, k.scratchLen, tr, n1);
    case Broken(_, _) =>
  }

  /** Given the client's first flight, the server sends its own and nothing more, whatever follows. */
  lemma ServerAnswers(c: Suite, p: Pair, more: bytes, sends: seq<bool>)
    requires c.Laws() && p.Readable() && AllSent(sends)
    ensures p.Secret(c).Some?
    ensures ServerRun(c, p.server, Net(p.First(c) + more, [], sends)).n.out == p.Second(c)
  {
    hide Client.Hello, Pair.Reply, Greet, OfferVerdict, Answer, NextRecord, FinishedVerdict, FlightOut, AfterFlight,
        DeriveHsKeys,
         PlainRecord, AppEnds, CH.ParseHello;
    SecretShared(c, p);
    var ch, sh := p.Hello(c), p.Reply(c);
    Join(PlainRecord(REC_HANDSHAKE, ch), CCS_RECORD, more);
    var h := HelloGreeted(c, p, CCS_RECORD + more, [], sends);
    var g := Greeting.Greeting([], ch, h, false, Net(CCS_RECORD + more, [], sends));
    OfferAccepted(c, p, g);
    HelloAnswered(c, p, g);
    assert [] + (PlainRecord(REC_HANDSHAKE, sh) + CCS_RECORD) == PlainRecord(REC_HANDSHAKE, sh) + CCS_RECORD;
    assert sends[4..][0];
  }

  /** Each endpoint reads what the other sends, in order and completely. */
  ghost predicate Joined(c: Suite, p: Pair, toClient: bytes, toServer: bytes, cs: seq<bool>, ss: seq<bool>) {
    && toServer == ClientRun(c, p.client, Net(toClient, [], cs)).n.out
    && toClient == ServerRun(c, p.server, Net(toServer, [], ss)).n.out
  }

  /**
   * Honest PSK agreement: in every joint run both sides succeed, and each one's write secret, key
   * and IV are the other's read secret, key and IV, with all counters at 0. The run exists.
   */
  lemma HonestPskAgreement(c: Suite, p: Pair, toClient: bytes, toServer: bytes, cs: seq<bool>, ss: seq<bool>)
    requires c.Laws() && p.Honest() && AllSent(cs) && AllSent(ss)
    ensures p.Secret(c).Some?
    ensures Joined(c, p, toClient, toServer, cs, ss) <==> toClient == p.Second(c) && toServer == p.First(c) + p.Third(c)
    ensures Joined(c, p, toClient, toServer, cs, ss) ==>
      Mirrored(ClientRun(c, p.client, Net(toClient, [], cs)), ServerRun(c, p.server, Net(toServer, [], ss)))
  {
    hide ClientRun, ServerRun, Pair.First, Pair.Second, Pair.Third, Pair.Keys, Pair.Transcript, DirOf;
    SecretShared(c, p);
    RolesMirror(c, p.Keys(c).hs, c.hash(p.Transcript(c)));
    var w1, w2, w3 := p.First(c), p.Second(c), p.Third(c);
    ClientCompletes(c, p, [], [], cs);
    ServerCompletes(c, p, [], [], ss);
    assert w2 + [] == w2 && w1 + w3 + [] == w1 + w3;
    assert [] + w1 + w3 == w1 + w3 && [] + w2 == w2;
    if Joined(c, p, toClient, toServer, cs, ss) {
      HelloFits(c, p);
      var more := ClientOpens(c, p, toClient, cs);
      ServerAnswers(c, p, more, ss);
    }
  }

  // ----- when it fails ---------------------------------------------------------------------

  lemma HelloSize(c: Suite, p: Pair)
    requires c.Laws() && p.Matched()
    ensures |p.Hello(c)| == |p.client.identity| + 199 && Num24(p.Hello(c), 1) == |p.client.identity| + 195
  {
    hide PskHelloBytes, HashedPart, Binder;
    var k := p.client;
    var pub := c.share(k.priv);
    var b := Binder(c, k.psk, HashedPart(k.random, k.sid, pub, k.identity));
    BinderSize(c, k.psk, HashedPart(k.random, k.sid, pub, k.identity));
    HelloLength(k.random, k.sid, pub, k.identity, b);
    HelloIsWhole(k.random, k.sid, pub, k.identity, b);
  }

  lemma HelloLength(random: bytes, sid: bytes, pub: bytes, identity: bytes, b: bytes)
    requires |random| == 32 && |sid| == 32 && |pub| == 32 && |b| == 32
    ensures |PskHelloBytes(random, sid, pub, identity, b)| == |identity| + 199
  {
    hide HelloGrammar.HelloBytes, HelloGrammar.EncExts;
    BodyLengths(pub, identity, b);
    HelloGrammar.HelloLayout(random, sid, U16(CH.CIPHER), HelloGrammar.EncExts(PskExts(pub, identity, b)));
  }

  /**
   * A ClientHello that is too long for the server's buffers or for a record leads to no session. Where
   * the header truncates its length this needs that little follows it, as from a client.
   */
  lemma TooLongFails(c: Suite, p: Pair, more: bytes, out: bytes, sends: seq<bool>)
    requires c.Laws() && p.Matched() && !p.Receivable()
    requires |p.Hello(c)| < 0x1_0000 || p.server.scratchLen / 2 < |p.Hello(c)| || |more| < FINISHED_SZ + 20
    ensures ServerRun(c, p.server, Net(PlainRecord(REC_HANDSHAKE, p.Hello(c)) + more, out, sends)).ret != Success
  {
    hide ServerRun, Client.Hello, Gather, PlainRecord;
    HelloSize(c, p);
    var m, half := p.Hello(c), p.server.scratchLen / 2;
    if |m| < 0x1_0000 {
      OverlongUngathered(m, more, half, p.server.scratchLen - half);
    } else {
      TruncatedCosts(m, more, half, p.server.scratchLen - half);
    }
    var n := Net(PlainRecord(REC_HANDSHAKE, m) + more, out, sends);
    if ServerRun(c, p.server, n).ret == Success {
      SuccessLeaves(c, p.server, n);
    }
  }

  /** A server that succeeds has gathered a ClientHello and had a Finished behind it. */
  lemma SuccessLeaves(c: Suite, k: Server, n: Net)
    requires c.Laws() && ServerRun(c, k, n).ret == Success
    ensures var g := Gather(n.inp, [], k.scratchLen / 2, k.scratchLen - k.scratchLen / 2);
      g.status == Success && |g.rest| >= FINISHED_SZ
  {
    hide CH.ParseHello, OfferVerdict, Answer, Gather, AwaitFinished, FlightOut, AfterFlight, AppEnds, MaybeRetry;
    var g0 := RecvHello(n, k.scratchLen, [], false);
    RetryShrinks(c, g0, k.scratchLen);
    var g := Greet(c, n, k.scratchLen);
    AnswerKeepsInput(c, k.drawn, g, Some(0), Early(c, k.psk));
    var x := Answer(c, k.drawn, g, Some(0), Early(c, k.psk));
    var n1 := x.n.Sent(FlightOut(c, x.keys.server, x.tr));
    FinishedTakes(c, x.keys.client, k.scratchLen, FLIGHT_CAP, AfterFlight(c, x.keys, x.tr), n1);
  }

  lemma HelloShrinks(n: Net, scratchLen: nat, pre: bytes, retried: bool)
    ensures |RecvHello(n, scratchLen, pre, retried).n.inp| <= |n.inp|
  {
    hide CH.ParseHello, Gather;
    GatherShrinks(n.inp, [], scratchLen / 2, scratchLen - scratchLen / 2);
  }

  lemma SendKeepsInput(n: Net, msg: bytes)
    ensures SendWithCcs(n, msg).n.inp == n.inp
  {}

  lemma RetryShrinks(c: Suite, g: Greeting, scratchLen: nat)
    requires g.Greeting? && g.Valid()
    ensures |MaybeRetry(c, g, scratchLen).n.inp| <= |g.n.inp|
  {
    hide CH.ParseHello, RecvHello, RetryFor, RetryPrefix, SendWithCcs;
    var retry := RetryFor(g.msg, g.hello);
    SendKeepsInput(g.n, retry);
    HelloShrinks(SendWithCcs(g.n, retry).n, scratchLen, g.pre + RetryPrefix(c, g.msg, retry), true);
  }

  lemma AnswerKeepsInput(c: Suite, d: Drawn, g: Greeting, psk: Option<nat>, early: bytes)
    requires g.Greeting? && g.Valid() && g.hello.keyShare.Some?
    ensures Answer(c, d, g, psk, early).n.inp == g.n.inp
  {
    hide CH.ParseHello, ShareOf, ServerHelloFor, DeriveHsKeys;
  }

  lemma FinishedTakes(c: Suite, d: Dir, cap: nat, limit: nat, tr: bytes, n: Net)
    requires c.Laws() && AwaitFinished(c, d, cap, limit, tr, n).ret == Success
    ensures |n.inp| >= FINISHED_SZ
  {
    hide NextRecord;
    var rec := NextRecord(n.inp, cap).rec;
    RecordTakes(n.inp, cap);
    OpenedSize(c, d.key, d.iv, 0, rec);
  }

  lemma {:induction false} RecordTakes(inp: bytes, cap: nat)
    requires NextRecord(inp, cap).status == Success
    ensures |NextRecord(inp, cap).rec| <= |inp|
    decreases |inp|
  {
    hide RecordIn;
    var r := RecordIn(inp, cap);
    if r.ctype == REC_CCS {
      RecordTakes(r.rest, cap);
    }
  }

  lemma OpenedSize(c: Suite, key: bytes, iv: bytes, seqNo: nat, rec: bytes)
    requires c.Laws() && Unsealed(c, key, iv, seqNo, rec).status == Success
    ensures |rec| >= HEADER_SZ + |Unsealed(c, key, iv, seqNo, rec).content| + 1 + TAG_SZ
  {}

  lemma CcsSize()
    ensures |CCS_RECORD| == 6
  {}

  lemma HeaderRead(m: bytes, more: bytes)
    ensures var inp := PlainRecord(REC_HANDSHAKE, m) + more;
      && |inp| >= HEADER_SZ + |m| && inp[0] == REC_HANDSHAKE && Num16(inp, 3) == |m| % 0x1_0000
      && inp[HEADER_SZ..] == m + more
  {
    hide Num16, U16;
    var inp := PlainRecord(REC_HANDSHAKE, m) + more;
    assert inp[3..5] == U16(|m|);
    Num16Of(inp, 3, |m|);
  }

  lemma OverlongUngathered(m: bytes, more: bytes, half: nat, cap: nat)
    requires 0 < |m| < 0x1_0000 && BadLength(|m|, cap)
    ensures Gather(PlainRecord(REC_HANDSHAKE, m) + more, [], half, cap).status == CryptoErr
  {
    hide Num16, PlainRecord;
    HeaderRead(m, more);
    assert Piece(PlainRecord(REC_HANDSHAKE, m) + more, [], half, cap).Halt?;
  }

  // The header's length is what the message has above 65536.
  lemma TruncatedFront(m: bytes, more: bytes, half: nat, cap: nat)
    requires 0x1_0000 <= |m| < 0x1_0100 && !BadLength(|m| - 0x1_0000, cap)
    ensures var n := |m| - 0x1_0000;
      Piece(PlainRecord(REC_HANDSHAKE, m) + more, [], half, cap) == Collect(m[..n], m[n..] + more, half)
  {
    hide Num16, PlainRecord, Collect;
    HeaderRead(m, more);
    var inp, n := PlainRecord(REC_HANDSHAKE, m) + more, |m| - 0x1_0000;
    assert |m| % 0x1_0000 == n;
    var acc, rest := m[..n], m[n..] + more;
    assert inp[HEADER_SZ..HEADER_SZ + n] == inp[HEADER_SZ..][..n] == acc;
    assert inp[HEADER_SZ + n..] == inp[HEADER_SZ..][n..] == rest;
    assert RecordIn(inp, cap) == Received(Success, REC_HANDSHAKE, inp[..HEADER_SZ + n], rest);
    assert inp[..HEADER_SZ + n][HEADER_SZ..] == acc && [] + acc == acc;
  }

  // A front without the whole length: the octet behind it is taken for a record type that is not expected.
  lemma ShortFront(m: bytes, more: bytes, half: nat, cap: nat)
    requires 0x1_0000 < |m| < 0x1_0004 && Num24(m, 1) == |m| - 4
    ensures var n := |m| - 0x1_0000; Gather(m[n..] + more, m[..n], half, cap).status != Success
  {
    hide Num24, Collect;
    var n := |m| - 0x1_0000;
    var rest := m[n..] + more;
    LengthOctets(m, n);
    assert rest[0] == m[n];
    assert RecordIn(rest, cap).status == Success ==> RecordIn(rest, cap).ctype == m[n];
  }

  // The front tells the length; the other 65536 octets come behind further headers.
  lemma RestCosts(m: bytes, more: bytes, half: nat, cap: nat)
    requires 0x1_0004 <= |m| < 0x1_0100 && Num24(m, 1) == |m| - 4
    ensures var n := |m| - 0x1_0000; var g := Gather(m[n..] + more, m[..n], half, cap);
      g.status == Success ==> |m| <= half && |g.rest| + 20 <= |more|
  {
    hide Gather, Num24;
    var n := |m| - 0x1_0000;
    var rest, acc := m[n..] + more, m[..n];
    var g := Gather(rest, acc, half, cap);
    if g.status == Success {
      GatherCosts(rest, acc, half, cap);
      SameNum24(m, n);
      SameNum24(g.msg, n);
      assert |g.msg| == |m|;
      assert (MAX_PLAINTEXT + 256) * (|rest| - |g.rest| - 0x1_0000) >= HEADER_SZ * 0x1_0000;
    }
  }

  /**
   * A length that the header truncates makes the server take the front of the message for all of the
   * record. The other 65536 octets it would have to find behind further record headers, five octets for
   * at most 16640, so that it eats into what follows the message.
   */
  lemma TruncatedCosts(m: bytes, more: bytes, half: nat, cap: nat)
    requires 0x1_0000 <= |m| < 0x1_0100 && Num24(m, 1) == |m| - 4
    ensures var g := Gather(PlainRecord(REC_HANDSHAKE, m) + more, [], half, cap);
      g.status == Success ==> |m| <= half && |g.rest| + 20 <= |more|
  {
    hide Num16, PlainRecord, Num24, Collect;
    var n := |m| - 0x1_0000;
    if BadLength(n, cap) {
      HeaderRead(m, more);
      assert |m| % 0x1_0000 == n;
      assert Piece(PlainRecord(REC_HANDSHAKE, m) + more, [], half, cap).Halt?;
    } else {
      TruncatedFront(m, more, half, cap);
      CollectVerdict(m[..n], m[n..] + more, half);
      if n < 4 {
        ShortFront(m, more, half, cap);
      } else {
        SameNum24(m, n);
        RestCosts(m, more, half, cap);
      }
    }
  }

  lemma SameNum24(m: bytes, n: nat)
    requires 4 <= n <= |m|
    ensures Num24(m[..n], 1) == Num24(m, 1)
  {}

  lemma LengthOctets(m: bytes, n: nat)
    requires 1 <= n <= 3 && |m| == 0x1_0000 + n && Num24(m, 1) == |m| - 4
    ensures m[n] == if n == 1 then 0 else 0xFF
  {}

  lemma MalformedRefused(c: Suite, k: Server, n: Net, m: bytes, rest: bytes, status: Status)
    requires k.ArgsOk() && CH.ParseHello(m) == CH.Reject(status)
    requires Gather(n.inp, [], k.scratchLen / 2, k.scratchLen - k.scratchLen / 2) == Gathered(Success, m, rest)
    ensures ServerRun(c, k, n) == Failed(status, n.(inp := rest))
  {
    hide CH.ParseHello, Gather, OfferVerdict, Answer, MaybeRetry, ServerFlight;
  }

  /** An empty identity is refused as malformed. */
  lemma EmptyIdentityFails(c: Suite, p: Pair, more: bytes, n: Net)
    requires c.Laws() && p.Matched() && p.Receivable() && p.client.identity == []
    requires n.inp == PlainRecord(REC_HANDSHAKE, p.Hello(c)) + more
    ensures ServerRun(c, p.server, n) == Failed(DecodeErr, n.(inp := more))
  {
    hide CH.ParseHello, Gather, PlainRecord, Client.Hello, ServerRun;
    var half := p.server.scratchLen / 2;
    HelloSize(c, p);
    EmptyHello(c, p.client);
    GatherOfOne(p.Hello(c), more, half, p.server.scratchLen - half);
    MalformedRefused(c, p.server, n, p.Hello(c), more, DecodeErr);
  }

  lemma EmptyHello(c: Suite, k: Client)
    requires c.Laws() && k.Sized() && k.identity == []
    ensures CH.ParseHello(k.Hello(c)) == CH.Reject(DecodeErr)
  {
    hide PskHelloBytes, CH.ParseHello, HashedPart, Binder;
    var pub := c.share(k.priv);
    var b := Binder(c, k.psk, HashedPart(k.random, k.sid, pub, k.identity));
    BinderSize(c, k.psk, HashedPart(k.random, k.sid, pub, k.identity));
    PskHelloRoundTrip(k.random, k.sid, pub, [], b);
  }

  /** A server random that is the retry sentinel makes the client give up. */
  lemma SentinelFails(c: Suite, p: Pair, n: Net, tail: bytes)
    requires c.Laws() && p.client.Sized() && p.client.ArgsOk() && p.server.Sized()
        && p.server.drawn.random == SH.HRR_RANDOM
    requires n.inp == PlainRecord(REC_HANDSHAKE, p.Reply(c)) + tail
    ensures AwaitServerHello(c, p.client.Offered(c), p.client.scratchLen, n) == Broken(Unsupported, n.(inp := tail))
  {
    hide SH.HRR_RANDOM, SB.ShBytes, AwaitServerHello, PlainRecord, Client.Hello;
    var d := p.server.drawn;
    RetryDeclined(c, p.client.Offered(c), p.client.scratchLen, d.random, c.share(d.priv), tail, n.out, n.sends);
  }

  lemma SentinelRunFails(c: Suite, p: Pair, inp: bytes, sends: seq<bool>)
    requires c.Laws() && p.Readable() && p.server.drawn.random == SH.HRR_RANDOM && AllSent(sends)
    requires p.Secret(c).Some? && inp == p.Second(c)
    ensures ClientRun(c, p.client, Net(inp, [], sends)).ret == Unsupported
  {
    hide Client.Hello, Pair.Reply, AwaitServerHello, SendWithCcs, PlainRecord, SH.HRR_RANDOM, FlightOut, DeriveHsKeys;
    HelloFits(c, p);
    FirstFlightSent(Net(inp, [], sends), p.Hello(c));
    var flight := FlightOut(c, p.Keys(c).server, p.Hello(c) + p.Reply(c));
    Join(PlainRecord(REC_HANDSHAKE, p.Reply(c)), CCS_RECORD, flight);
    SentinelFails(c, p, SendWithCcs(Net(inp, [], sends), p.Hello(c)).n, CCS_RECORD + flight);
  }

  /**
   * The conditions are exact: a joint run of two endpoints with the same PSK and identity succeeds
   * on both sides, with mirrored keys, if and only if the identity is not empty, the ClientHello
   * fits, and the server's random is not the retry sentinel.
   */
  lemma PskAgreementExactly(c: Suite, p: Pair, toClient: bytes, toServer: bytes, cs: seq<bool>, ss: seq<bool>)
    requires c.Laws() && p.Matched() && AllSent(cs) && AllSent(ss)
    requires Joined(c, p, toClient, toServer, cs, ss)
    ensures Mirrored(ClientRun(c, p.client, Net(toClient, [], cs)), ServerRun(c, p.server, Net(toServer, [], ss)))
      <==> p.client.identity != [] && p.Fits() && p.server.drawn.random != SH.HRR_RANDOM
  {
    hide ServerRun, Pair.Second, Pair.Third, Pair.Keys, PlainRecord, Client.Hello, SH.HRR_RANDOM, SendWithCcs,
         AwaitServerHello, ClientFlight;
    HelloSize(c, p);
    if p.Honest() {
      HonestPskAgreement(c, p, toClient, toServer, cs, ss);
    } else if |p.Hello(c)| <= p.client.scratchLen {
      var more := ClientOpens(c, p, toClient, cs);
      Join(PlainRecord(REC_HANDSHAKE, p.Hello(c)), CCS_RECORD, more);
      if !p.Receivable() {
        CcsSize();
        TooLongFails(c, p, CCS_RECORD + more, [], ss);
      } else if p.client.identity == [] {
        EmptyIdentityFails(c, p, CCS_RECORD + more, Net(toServer, [], ss));
      } else {
        ServerAnswers(c, p, more, ss);
        SentinelRunFails(c, p, toClient, cs);
      }
    }
  }
}
