/**
 * Two sessions of this library joined by a channel: whatever the one does, its output is a
 * conforming peer's stream, so the other stays in step with it and delivers its data in order.
 */
module Interop {
  import opened Bytes
  import opened Crypto
  import opened KeySchedule
  import opened Transport
  import opened Record
  import opened SessionSpec
  import opened SessionRuns
  import opened Lockstep
  import opened HandshakeKeys
  import opened HonestRun
  import opened PskClientSpec
  import opened PskServer
  import Psk = PskAgreement
  import Cert = CertAgreement
  import CC = CertClientSpec
  import CS = CertServer
  import opened Chain
  import opened ServerHello

  // ----- appending to a stream -------------------------------------------------------------

  lemma {:induction false} StreamSnoc(c: Suite, d: Dir, ps: seq<PeerRec>, p: PeerRec)
    ensures PeerDir(c, d, ps + [p]) == PeerAfter(c, PeerDir(c, d, ps), p)
    ensures PeerStream(c, d, ps + [p]) == PeerStream(c, d, ps) + PeerBytes(c, PeerDir(c, d, ps), p)
    ensures DataOf(ps + [p]) == DataOf(ps) + if p.Data? then [p.data] else []
    decreases |ps|
  {
    hide PeerAfter, PeerBytes;
    if ps == [] {
      assert ([] + [p])[0] == p && ([] + [p])[1..] == [];
      assert PeerStream(c, PeerAfter(c, d, p), []) == [] && PeerBytes(c, d, p) + [] == PeerBytes(c, d, p);
    } else {
      assert (ps + [p])[1..] == ps[1..] + [p];
      StreamSnoc(c, PeerAfter(c, d, ps[0]), ps[1..], p);
    }
  }

  // ----- the log as a peer's records -------------------------------------------------------

  function RecOf(e: Seal): PeerRec {
    if e.ctype == REC_APPDATA then Data(e.content, 0) else PostHandshake([], Some(false), 0)
  }

  function Recs(log: seq<Seal>): (ps: seq<PeerRec>)
    ensures |ps| == |log|
  {
    seq(|log|, i requires 0 <= i < |log| => RecOf(log[i]))
  }

  /** What the session has sealed is data or an update announcement. */
  ghost predicate Ordinary(log: seq<Seal>) {
    forall i :: 0 <= i < |log| ==> OrdinarySeal(log[i])
  }

  predicate OrdinarySeal(e: Seal) {
    && |e.content| <= MAX_PLAINTEXT
    && (e.ctype == REC_APPDATA || (e.ctype == REC_HANDSHAKE && e.content == KU_NOT_REQUESTED))
  }

  /**
   * While no send has failed, the output is the stream of a conforming peer whose records are the
   * log and whose data is `sent`, and the write direction is where that peer's is.
   */
  ghost predicate Streaming(c: Suite, d0: Dir, sends0: seq<bool>, sent: seq<bytes>, s: Sess, n: Net) {
    && s.established
    && (SendsHeld(s.log, sends0) ==>
      && n.sends == sends0[|s.log|..] && Ordinary(s.log)
      && n.out == PeerStream(c, d0, Recs(s.log)) && s.w == PeerDir(c, d0, Recs(s.log))
      && DataOf(Recs(s.log)) == sent)
  }

  lemma RecordIsPeers(c: Suite, d: Dir, e: Seal)
    requires OrdinarySeal(e)
    ensures PeerBytes(c, d, RecOf(e)) == Sealed(c, d.key, d.iv, d.seqNo, e.ctype, e.content, 0)
    ensures PeerAfter(c, d, RecOf(e)) == if e.ctype == REC_APPDATA then d.Advance() else Rekeyed(c, d.Advance())
  {
    hide Sealed;
    assert [] + KU_NOT_REQUESTED == KU_NOT_REQUESTED;
  }

  /** Sealing and sending one more record; the direction is then rotated behind an announcement. */
  lemma SealKeepsStreaming(c: Suite, d0: Dir, sends0: seq<bool>, sent: seq<bytes>, s: Sess, n: Net,
                           ctype: byte, content: bytes)
    requires Streaming(c, d0, sends0, sent, s, n)
    requires ctype == REC_APPDATA || (ctype == REC_HANDSHAKE && content == KU_NOT_REQUESTED)
    requires |content| <= MAX_PLAINTEXT
    ensures var s1, n1 := s.Emitted(ctype, content), n.Sent(s.RecordFor(c, ctype, content));
      SendsHeld(s1.log, sends0) ==>
        && n.CanSend()
        && Streaming(c, d0, sends0, sent + if ctype == REC_APPDATA then [content] else [],
                     if ctype == REC_APPDATA then s1 else s1.(w := Rekeyed(c, s1.w), gen := s.gen + 1), n1)
  {
    hide Sealed, Nonce, Rekeyed, PeerStream, PeerDir, PeerBytes, PeerAfter, DataOf;
    var s1 := s.Emitted(ctype, content);
    if SendsHeld(s1.log, sends0) {
      var e := s1.log[|s.log|];
      assert s1.log == s.log + [e];
      assert sends0[|s.log|];
      assert SendsHeld(s.log, sends0);
      assert Recs(s1.log) == Recs(s.log) + [RecOf(e)];
      StreamSnoc(c, d0, Recs(s.log), RecOf(e));
      RecordIsPeers(c, s.w, e);
      assert sent + [] == sent;
    }
  }

  // ----- every call keeps it ---------------------------------------------------------------

  lemma ReplyKeepsStreaming(c: Suite, d0: Dir, sends0: seq<bool>, sent: seq<bytes>, s: Sess, n: Net)
    requires Streaming(c, d0, sends0, sent, s, n)
    ensures var o := SendKeyUpdate(c, s, n); Streaming(c, d0, sends0, sent, o.s, o.n)
  {
    hide Sealed, Nonce, Rekeyed;
    SealKeepsStreaming(c, d0, sends0, sent, s, n, REC_HANDSHAKE, KU_NOT_REQUESTED);
    assert sent + [] == sent;
  }

  lemma {:induction false} PostHsKeepsStreaming(c: Suite, d0: Dir, sends0: seq<bool>, sent: seq<bytes>,
                                                s: Sess, n: Net, msg: bytes)
    requires Streaming(c, d0, sends0, sent, s, n)
    ensures var o := PostHs(c, s, n, msg); Streaming(c, d0, sends0, sent, o.s, o.n)
    decreases |msg|
  {
    hide Sealed, Rekeyed, SendKeyUpdate, Num24;
    if msg == [] {
    } else if msg[0] == HS_NEW_SESSION_TICKET {
      if |msg| >= 4 && |msg| >= 4 + Num24(msg, 1) {
        PostHsKeepsStreaming(c, d0, sends0, sent, s, n, msg[4 + Num24(msg, 1)..]);
      }
    } else if msg[0] == HS_KEY_UPDATE && |msg| >= 5 && Num24(msg, 1) == 1 && msg[4] <= 1 {
      var s1 := PeerRekeyed(c, s);
      if msg[4] == 1 {
        ReplyKeepsStreaming(c, d0, sends0, sent, s1, n);
        var o := SendKeyUpdate(c, s1, n);
        if o.ret == Success {
          PostHsKeepsStreaming(c, d0, sends0, sent, o.s, o.n, msg[5..]);
        }
      } else {
        PostHsKeepsStreaming(c, d0, sends0, sent, s1, n, msg[5..]);
      }
    }
  }

  // Reading touches neither the write direction, nor the log, nor the output.
  lemma SameStream(c: Suite, d0: Dir, sends0: seq<bool>, sent: seq<bytes>, s: Sess, n: Net, s1: Sess, n1: Net)
    requires Streaming(c, d0, sends0, sent, s, n) && s1.log == s.log && s1.w == s.w
    requires s1.established && s1.scratchLen == s.scratchLen && n1.out == n.out && n1.sends == n.sends
    ensures Streaming(c, d0, sends0, sent, s1, n1)
  {}

  lemma StepKeepsStreaming(c: Suite, d0: Dir, sends0: seq<bool>, sent: seq<bytes>, s: Sess, n: Net, outCap: nat)
    requires Streaming(c, d0, sends0, sent, s, n)
    ensures var st := RecvStep(c, s, n, outCap);
      if st.More? then Streaming(c, d0, sends0, sent, st.s, st.n)
      else Streaming(c, d0, sends0, sent, st.o.s, st.o.n)
  {
    assert s.established;
    hide Streaming, RecordIn, Unsealed, PostHs;
    var got := RecordIn(n.inp, s.scratchLen);
    var s1, n1 := s.(r := s.r.Advance()), n.(inp := got.rest);
    SameStream(c, d0, sends0, sent, s, n, s, n1);
    SameStream(c, d0, sends0, sent, s, n, s1, n1);
    SameStream(c, d0, sends0, sent, s, n, s1.(closed := true), n1);
    if got.status == Success && got.ctype != REC_CCS {
      var o := Unsealed(c, s.r.key, s.r.iv, s.r.seqNo, got.rec);
      if o.status == Success && o.ctype == REC_HANDSHAKE {
        PostHsKeepsStreaming(c, d0, sends0, sent, s1, n1, o.content);
      }
    }
  }

  lemma {:induction false} RecvKeepsStreaming(c: Suite, d0: Dir, sends0: seq<bool>, sent: seq<bytes>,
                                              s: Sess, n: Net, outCap: nat)
    requires Streaming(c, d0, sends0, sent, s, n)
    ensures var o := RecvLoop(c, s, n, outCap); Streaming(c, d0, sends0, sent, o.s, o.n)
    decreases |n.inp|
  {
    hide Streaming, RecvStep;
    StepKeepsStreaming(c, d0, sends0, sent, s, n, outCap);
    match RecvStep(c, s, n, outCap)
    case More(s1, n1) => RecvKeepsStreaming(c, d0, sends0, sent, s1, n1, outCap);
    case Done(_) =>
  }

  /** The data that a run of calls hands over for sending, in the calls that report success. */
  function Submitted(c: Suite, w: World, calls: seq<Call>): seq<bytes>
    decreases |calls|
  {
    if calls == [] then [] else
    (if calls[0].DoSend? && Send(c, w.s, w.n, calls[0].data).ret == Success then [calls[0].data] else [])
    + Submitted(c, Apply(c, w, calls[0]), calls[1..])
  }

  lemma SendKeepsStreaming(c: Suite, d0: Dir, sends0: seq<bool>, sent: seq<bytes>, s: Sess, n: Net, data: bytes)
    requires Streaming(c, d0, sends0, sent, s, n)
    ensures var o := Send(c, s, n, data);
      Streaming(c, d0, sends0, sent + if o.ret == Success then [data] else [], o.s, o.n)
  {
    hide Sealed, Nonce, PeerStream, PeerDir, DataOf, Recs;
    assert sent + [] == sent;
    if Send(c, s, n, data).ret in {Success, CryptoErr} {
      SealKeepsStreaming(c, d0, sends0, sent, s, n, REC_APPDATA, data);
    }
  }

  lemma {:induction false} RunKeepsStreaming(c: Suite, d0: Dir, sends0: seq<bool>, sent: seq<bytes>,
                                             w: World, calls: seq<Call>)
    requires Streaming(c, d0, sends0, sent, w.s, w.n)
    requires forall i :: 0 <= i < |calls| ==> !calls[i].DoClose?
    ensures var end := Run(c, w, calls);
      Streaming(c, d0, sends0, sent + Submitted(c, w, calls), end.s, end.n)
    decreases |calls|
  {
    hide Streaming, Send, RecvLoop;
    if calls == [] {
      assert sent + [] == sent;
    } else {
      var next := Apply(c, w, calls[0]);
      var one := if calls[0].DoSend? && Send(c, w.s, w.n, calls[0].data).ret == Success then [calls[0].data] else [];
      match calls[0] {
        case DoSend(data) => SendKeepsStreaming(c, d0, sends0, sent, w.s, w.n, data);
        case DoRecv(outCap) =>
          RecvKeepsStreaming(c, d0, sends0, sent, w.s, w.n, outCap);
          assert sent + [] == sent;
      }
      RunKeepsStreaming(c, d0, sends0, sent + one, next, calls[1..]);
      assert sent + one + Submitted(c, next, calls[1..]) == sent + (one + Submitted(c, next, calls[1..]));
    }
  }

  // ----- the two sessions ------------------------------------------------------------------

  /**
   * Session `b` reads the output of session `a`: `a` makes any calls but a close, answering whatever
   * it receives, with no failed send; `b` makes any calls but a close, with a scratch buffer that
   * holds each record `a` sealed and receive buffers that hold its data, and any failures of its own
   * sends. The two scratch buffers may differ in size.
   */
  ghost predicate Feeds(c: Suite, a: World, aCalls: seq<Call>, b: World, bCalls: seq<Call>) {
    && a.n.out == []
    && (forall i :: 0 <= i < |aCalls| ==> !aCalls[i].DoClose?)
    && (forall i :: 0 <= i < |bCalls| ==> !bCalls[i].DoClose?)
    && SendsHeld(Run(c, a, aCalls).s.log, a.n.sends) && b.n.inp == Run(c, a, aCalls).n.out
    && AllFit(Recs(Run(c, a, aCalls).s.log), b.s.scratchLen) && RoomyCalls(bCalls, Recs(Run(c, a, aCalls).s.log))
  }

  /**
   * `b` has delivered, in order and unchanged, the data of the first `k` records of `a`, a prefix of
   * what was submitted to `a`; once all records are read it has delivered everything, and its read
   * direction is `a`'s write direction again.
   */
  ghost predicate DeliversPrefix(c: Suite, a: World, aCalls: seq<Call>, b: World, bCalls: seq<Call>, k: nat) {
    var log := Run(c, a, aCalls).s.log;
    && k <= |log|
    && DataOf(Recs(log)) == Submitted(c, a, aCalls)
    && Delivered(c, b, bCalls) == DataOf(Recs(log)[..k])
    && Delivered(c, b, bCalls) <= Submitted(c, a, aCalls)
    && (k == |log| ==>
      && Delivered(c, b, bCalls) == Submitted(c, a, aCalls)
      && Run(c, b, bCalls).s.r == Run(c, a, aCalls).s.w && Run(c, b, bCalls).n.inp == [])
  }

  /** End to end, for any two fresh sessions of which the one reads with what the other writes with. */
  lemma EndToEnd(c: Suite, a: World, aCalls: seq<Call>, b: World, bCalls: seq<Call>) returns (k: nat)
    requires c.Laws() && Fresh(a.s) && Fresh(b.s) && b.s.r == a.s.w && Feeds(c, a, aCalls, b, bCalls)
    ensures DeliversPrefix(c, a, aCalls, b, bCalls, k)
  {
    hide Run, PeerDir, DataOf, Delivered, Submitted;
    var end := Run(c, a, aCalls);
    var ps := Recs(end.s.log);
    Idle(c, a);
    RunKeepsStreaming(c, a.s.w, a.n.sends, [], a, aCalls);
    assert [] + Submitted(c, a, aCalls) == Submitted(c, a, aCalls);
    k := RunInLockstep(c, b, bCalls, ps);
    DataOfSplit(ps, k, |ps|);
    assert ps[..|ps|] == ps;
  }

  lemma Idle(c: Suite, a: World)
    requires Fresh(a.s) && a.n.out == []
    ensures Streaming(c, a.s.w, a.n.sends, [], a.s, a.n)
  {}

  // ----- when the records fit --------------------------------------------------------------

  /** Each datum handed over for sending, and an update announcement, fit a buffer of `cap` octets. */
  predicate SmallCalls(calls: seq<Call>, cap: nat) {
    && SEND_OVERHEAD + |KU_NOT_REQUESTED| <= cap
    && forall i :: 0 <= i < |calls| && calls[i].DoSend? ==> SEND_OVERHEAD + |calls[i].data| <= cap
  }

  lemma {:induction false} SubmittedSmall(c: Suite, w: World, calls: seq<Call>, cap: nat)
    requires SmallCalls(calls, cap)
    ensures forall d :: d in Submitted(c, w, calls) ==> SEND_OVERHEAD + |d| <= cap
    decreases |calls|
  {
    hide Send, Apply;
    if calls != [] {
      SubmittedSmall(c, Apply(c, w, calls[0]), calls[1..], cap);
    }
  }

  lemma {:induction false} DataIn(ps: seq<PeerRec>, i: nat)
    requires i < |ps| && ps[i].Data?
    ensures ps[i].data in DataOf(ps)
    decreases i
  {
    if i > 0 {
      DataIn(ps[1..], i - 1);
    }
  }

  /** A condition that can be checked before the run: if all data is small enough, every record fits. */
  lemma SmallDataFits(c: Suite, a: World, aCalls: seq<Call>, cap: nat)
    requires c.Laws() && Fresh(a.s) && a.n.out == [] && SmallCalls(aCalls, cap)
    requires forall i :: 0 <= i < |aCalls| ==> !aCalls[i].DoClose?
    requires SendsHeld(Run(c, a, aCalls).s.log, a.n.sends)
    ensures AllFit(Recs(Run(c, a, aCalls).s.log), cap)
  {
    hide Run, PeerDir, PeerStream, DataOf, Submitted;
    var log := Run(c, a, aCalls).s.log;
    Idle(c, a);
    RunKeepsStreaming(c, a.s.w, a.n.sends, [], a, aCalls);
    SubmittedSmall(c, a, aCalls, cap);
    assert [] + Submitted(c, a, aCalls) == Submitted(c, a, aCalls);
    forall i | 0 <= i < |log|
      ensures Recs(log)[i].Fits(cap)
    {
      assert OrdinarySeal(log[i]);
      if log[i].ctype == REC_APPDATA {
        DataIn(Recs(log), i);
      } else {
        assert [] + KU_NOT_REQUESTED == KU_NOT_REQUESTED;
      }
    }
  }

  // ----- behind a handshake ----------------------------------------------------------------

  /** The session that a completed handshake leaves. */
  function Established(r: HsResult, scratchLen: nat): Sess
    requires r.ends.Some?
  {
    Sess(r.ends.value.w, r.ends.value.r, true, false, scratchLen, 0, [])
  }

  /** If both handshakes have completed, `a` and `b` are the sessions they left, one way round or the other. */
  predicate Facing(x: HsResult, xLen: nat, y: HsResult, yLen: nat, a: Sess, b: Sess, fromClient: bool) {
    x.ends.Some? && y.ends.Some? ==>
      var client, server := Established(x, xLen), Established(y, yLen);
      if fromClient then a == client && b == server else a == server && b == client
  }

  /** What a pair of sessions needs for one direction of the data: fresh, and the one reads as the other writes. */
  ghost predicate Matching(a: Sess, b: Sess) { Fresh(a) && Fresh(b) && b.r == a.w }

  lemma EndsSized(c: Suite, role: Role, hs: bytes, th: bytes)
    requires c.Laws()
    ensures AppEnds(c, role, hs, th).w.Sized() && AppEnds(c, role, hs, th).r.Sized()
  {}

  /** In every joint run of honest PSK endpoints both sides succeed and leave matching sessions. */
  lemma PskSessionsMatch(c: Suite, p: Psk.Pair, toClient: bytes, toServer: bytes, cs: seq<bool>, ss: seq<bool>,
                         a: Sess, b: Sess, fromClient: bool)
    requires c.Laws() && p.Honest() && AllSent(cs) && AllSent(ss) && Psk.Joined(c, p, toClient, toServer, cs, ss)
    requires Facing(ClientRun(c, p.client, Net(toClient, [], cs)), p.client.scratchLen,
                    ServerRun(c, p.server, Net(toServer, [], ss)), p.server.scratchLen, a, b, fromClient)
    ensures Matching(a, b)
  {
    hide ClientRun, ServerRun, AppEnds, Psk.Pair.Keys, Psk.Pair.Transcript, Psk.Pair.First, Psk.Pair.Second,
         Psk.Pair.Third;
    Psk.HonestPskAgreement(c, p, toClient, toServer, cs, ss);
    Psk.ClientCompletes(c, p, [], [], cs);
    assert p.Second(c) + [] == p.Second(c);
    EndsSized(c, Role.Client, p.Keys(c).hs, c.hash(p.Transcript(c)));
  }

  /** Likewise for the certificate endpoints. */
  lemma CertSessionsMatch(c: Suite, p: Cert.Pair, toClient: bytes, toServer: bytes, cs: seq<bool>, ss: seq<bool>,
                          a: Sess, b: Sess, fromClient: bool)
    requires c.Laws() && p.Honest(c) && p.Fits(c) && AllSent(cs) && AllSent(ss)
    requires Cert.Joined(c, p, toClient, toServer, cs, ss)
    requires Facing(CC.ClientRun(c, p.client, Net(toClient, [], cs)), p.client.scratchLen,
                    CS.ServerRun(c, p.server, Net(toServer, [], ss)), p.server.scratchLen, a, b, fromClient)
    ensures Matching(a, b)
  {
    hide CC.ClientRun, CS.ServerRun, AppEnds, Cert.Pair.Keys, Cert.Pair.Transcript, Cert.Pair.First,
         Cert.Pair.Second, Cert.Pair.Third, ChainVerdict, HRR_RANDOM;
    Cert.HonestCertAgreement(c, p, toClient, toServer, cs, ss);
    Cert.ClientCompletes(c, p, [], [], cs);
    assert p.Second(c) + [] == p.Second(c);
    EndsSized(c, Role.Client, p.Keys(c).hs, c.hash(p.Transcript(c)));
  }

  /** From the PSK handshake to the data: either side delivers what is submitted to the other. */
  lemma PskSessionsDeliver(c: Suite, p: Psk.Pair, toClient: bytes, toServer: bytes, cs: seq<bool>, ss: seq<bool>,
                           a: World, aCalls: seq<Call>, b: World, bCalls: seq<Call>, fromClient: bool) returns (k: nat)
    requires c.Laws() && p.Honest() && AllSent(cs) && AllSent(ss) && Psk.Joined(c, p, toClient, toServer, cs, ss)
    requires Facing(ClientRun(c, p.client, Net(toClient, [], cs)), p.client.scratchLen,
                    ServerRun(c, p.server, Net(toServer, [], ss)), p.server.scratchLen, a.s, b.s, fromClient)
    requires Feeds(c, a, aCalls, b, bCalls)
    ensures DeliversPrefix(c, a, aCalls, b, bCalls, k)
  {
    hide ClientRun, ServerRun, Feeds, DeliversPrefix, Facing;
    PskSessionsMatch(c, p, toClient, toServer, cs, ss, a.s, b.s, fromClient);
    k := EndToEnd(c, a, aCalls, b, bCalls);
  }

  /** From the certificate handshake to the data, likewise. */
  lemma CertSessionsDeliver(c: Suite, p: Cert.Pair, toClient: bytes, toServer: bytes, cs: seq<bool>, ss: seq<bool>,
                            a: World, aCalls: seq<Call>, b: World, bCalls: seq<Call>, fromClient: bool) returns (k: nat)
    requires c.Laws() && p.Honest(c) && p.Fits(c) && AllSent(cs) && AllSent(ss)
    requires Cert.Joined(c, p, toClient, toServer, cs, ss)
    requires Facing(CC.ClientRun(c, p.client, Net(toClient, [], cs)), p.client.scratchLen,
                    CS.ServerRun(c, p.server, Net(toServer, [], ss)), p.server.scratchLen, a.s, b.s, fromClient)
    requires Feeds(c, a, aCalls, b, bCalls)
    ensures DeliversPrefix(c, a, aCalls, b, bCalls, k)
  {
    hide CC.ClientRun, CS.ServerRun, Feeds, DeliversPrefix, Facing, HRR_RANDOM;
    CertSessionsMatch(c, p, toClient, toServer, cs, ss, a.s, b.s, fromClient);
    k := EndToEnd(c, a, aCalls, b, bCalls);
  }
}
