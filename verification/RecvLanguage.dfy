/**
 * Exactly which input makes a session deliver data, or report the end of the stream: records that hold
 * whole post-handshake messages, and then the one with the data or the close_notify.
 */
module RecvLanguage {
  import opened Bytes
  import opened Crypto
  import opened KeySchedule
  import opened Transport
  import opened Record
  import opened RecordFormat
  import opened SessionSpec
  import opened PostHsLanguage
  import opened Lockstep

  /** The input starts with a record of another type than ChangeCipherSpec that opens to `content` of type `ctype`. */
  predicate Brings(c: Suite, s: Sess, inp: bytes, rec: bytes, ctype: byte, content: bytes) {
    && IsRecord(rec, s.scratchLen) && rec[0] != 20 && rec <= inp
    && Unsealed(c, s.r.key, s.r.iv, s.r.seqNo, rec) == Opened(Success, content, ctype)
  }

  /** A record of whole tickets and key updates, whose answers can be sent. */
  ghost predicate PostHandshakes(c: Suite, s: Sess, n: Net, rec: bytes, ms: seq<Message>) {
    Brings(c, s, n.inp, rec, 22, EncMessages(ms)) && AllProper(ms) && CanAnswer(n.sends, Requests(ms))
  }

  /** What such a record does. */
  ghost function Behind(c: Suite, s: Sess, n: Net, rec: bytes, ms: seq<Message>): Outcome
    requires rec <= n.inp
  {
    Effect(c, s.(r := s.r.Advance()), n.(inp := n.inp[|rec|..]), ms)
  }

  /** The input is some such records, and behind them one that ends the call, with the session at `s1`. */
  ghost predicate EndsWith(c: Suite, s: Sess, n: Net, hs: seq<(bytes, seq<Message>)>, rec: bytes, ctype: byte,
                           content: bytes, s1: Sess, n1: Net)
    decreases |hs|
  {
    if hs == [] then
      Brings(c, s, n.inp, rec, ctype, content) && s1 == s.(r := s.r.Advance()) && n1 == n.(inp := n.inp[|rec|..])
    else
      && PostHandshakes(c, s, n, hs[0].0, hs[0].1)
      && var o := Behind(c, s, n, hs[0].0, hs[0].1);
         EndsWith(c, o.s, o.n, hs[1..], rec, ctype, content, s1, n1)
  }

  // ----- one record ------------------------------------------------------------------------

  lemma BroughtIsRead(c: Suite, s: Sess, n: Net, rec: bytes, ctype: byte, content: bytes)
    requires Brings(c, s, n.inp, rec, ctype, content)
    ensures RecordIn(n.inp, s.scratchLen) == Received(Success, rec[0], rec, n.inp[|rec|..])
  {
    hide RecordIn, Unsealed;
    RecordExactly(n.inp, s.scratchLen, rec[0], rec, n.inp[|rec|..]);
  }

  lemma StepOfBrought(c: Suite, s: Sess, n: Net, outCap: nat, rec: bytes, ctype: byte, content: bytes)
    requires Brings(c, s, n.inp, rec, ctype, content)
    ensures RecvStep(c, s, n, outCap)
         == Dispatch(c, s.(r := s.r.Advance()), n.(inp := n.inp[|rec|..]), outCap, Opened(Success, content, ctype))
  {
    hide RecordIn, Unsealed, Dispatch;
    BroughtIsRead(c, s, n, rec, ctype, content);
  }

  /** What one record that opens does to the call, by the type of its content. */
  lemma StepExactly(c: Suite, s: Sess, n: Net, outCap: nat, rec: bytes, ctype: byte, content: bytes)
    requires Brings(c, s, n.inp, rec, ctype, content) && ctype != 22
    ensures var s1, n1 := s.(r := s.r.Advance()), n.(inp := n.inp[|rec|..]);
      RecvStep(c, s, n, outCap) == Done(
        if ctype == 23 then
          if |content| <= outCap then RecvOutcome(Success, s1, n1, content) else RecvOutcome(InvalidArg, s1, n1, [])
        else if ctype == 21 then
          if |content| >= 2 && content[1] == 0 then RecvOutcome(Closed, s1.(closed := true), n1, [])
          else RecvOutcome(CryptoErr, s1, n1, [])
        else RecvOutcome(UnexpectedMsg, s1, n1, []))
  {
    hide Brings, PostHs, RecvStep;
    StepOfBrought(c, s, n, outCap, rec, ctype, content);
  }

  /** A ChangeCipherSpec is out of place; whatever is no record, or does not open, is reported as it is. */
  lemma StepRefuses(c: Suite, s: Sess, n: Net, outCap: nat)
    ensures var got := RecordIn(n.inp, s.scratchLen);
      var o := Unsealed(c, s.r.key, s.r.iv, s.r.seqNo, got.rec);
      && (got.status != Success ==> RecvLoop(c, s, n, outCap) == RecvOutcome(got.status, s, n.(inp := got.rest), []))
      && (got.status == Success && got.ctype == 20 ==>
            RecvLoop(c, s, n, outCap) == RecvOutcome(UnexpectedMsg, s, n.(inp := got.rest), []))
      && (got.status == Success && got.ctype != 20 && o.status != Success ==>
            RecvLoop(c, s, n, outCap) == RecvOutcome(o.status, s, n.(inp := got.rest), []))
  {
    hide RecordIn, Unsealed, Dispatch;
  }

  lemma StepOfPostHandshakes(c: Suite, s: Sess, n: Net, outCap: nat, rec: bytes, ms: seq<Message>)
    requires PostHandshakes(c, s, n, rec, ms)
    ensures var o := Behind(c, s, n, rec, ms);
      o.ret == Success && RecvStep(c, s, n, outCap) == More(o.s, o.n)
  {
    hide Unsealed, IsRecord, PostHs, RecvStep, Effect, CanAnswer;
    StepOfBrought(c, s, n, outCap, rec, 22, EncMessages(ms));
    WholeDecides(c, s.(r := s.r.Advance()), n.(inp := n.inp[|rec|..]), ms);
  }

  /** Conversely, a record that lets the call go on is such a record. */
  lemma MoreIsPostHandshakes(c: Suite, s: Sess, n: Net, outCap: nat) returns (rec: bytes, ms: seq<Message>)
    requires RecvStep(c, s, n, outCap).More?
    ensures PostHandshakes(c, s, n, rec, ms)
    ensures var o := Behind(c, s, n, rec, ms); RecvStep(c, s, n, outCap) == More(o.s, o.n)
  {
    hide RecordIn, Unsealed, PostHs, Effect, CanAnswer;
    var got := RecordIn(n.inp, s.scratchLen);
    rec := got.rec;
    RecordExactly(n.inp, s.scratchLen, got.ctype, rec, got.rest);
    var o := Unsealed(c, s.r.key, s.r.iv, s.r.seqNo, rec);
    var s1, n1 := s.(r := s.r.Advance()), n.(inp := got.rest);
    assert n.inp[|rec|..] == got.rest && rec <= n.inp;
    PostHsExactly(c, s1, n1, o.content);
    ms :| AllProper(ms) && EncMessages(ms) == o.content && CanAnswer(n1.sends, Requests(ms));
    StepOfPostHandshakes(c, s, n, outCap, rec, ms);
  }

  /** A record that ends the call with success or with the end of the stream opens to data, or to a close_notify. */
  lemma DoneIsBrought(c: Suite, s: Sess, n: Net, outCap: nat) returns (rec: bytes, ctype: byte, content: bytes)
    requires var st := RecvStep(c, s, n, outCap); st.Done? && (st.o.ret == Success || (st.o.ret == Closed && !s.closed))
    ensures Brings(c, s, n.inp, rec, ctype, content) && ctype != 22
  {
    hide RecordIn, Unsealed, PostHs;
    var got := RecordIn(n.inp, s.scratchLen);
    rec := got.rec;
    StatusesOf(c, s, n, got);
    RecordExactly(n.inp, s.scratchLen, got.ctype, rec, got.rest);
    var o := Unsealed(c, s.r.key, s.r.iv, s.r.seqNo, rec);
    ctype, content := o.ctype, o.content;
    PostHsNeverCloses(c, s.(r := s.r.Advance()), n.(inp := got.rest), content);
  }

  lemma StatusesOf(c: Suite, s: Sess, n: Net, got: Received)
    requires got == RecordIn(n.inp, s.scratchLen)
    ensures got.status != Closed && Unsealed(c, s.r.key, s.r.iv, s.r.seqNo, got.rec).status != Closed
  {
    hide Nonce, Unpadded;
  }

  lemma {:induction false} PostHsNeverCloses(c: Suite, s: Sess, n: Net, msg: bytes)
    ensures PostHs(c, s, n, msg).ret != Closed
    decreases |msg|
  {
    hide Num24, Sealed, Rekeyed;
    if msg != [] && msg[0] == HS_NEW_SESSION_TICKET && |msg| >= 4 && |msg| >= 4 + Num24(msg, 1) {
      PostHsNeverCloses(c, s, n, msg[4 + Num24(msg, 1)..]);
    } else if msg != [] && msg[0] == HS_KEY_UPDATE && |msg| >= 5 {
      var s1 := PeerRekeyed(c, s);
      var o := if msg[4] == 1 then SendKeyUpdate(c, s1, n) else Outcome(Success, s1, n);
      PostHsNeverCloses(c, o.s, o.n, msg[5..]);
    }
  }

  // ----- the call --------------------------------------------------------------------------

  lemma {:induction false} LoopEndsWith(c: Suite, s: Sess, n: Net, outCap: nat)
    returns (hs: seq<(bytes, seq<Message>)>, rec: bytes, ctype: byte, content: bytes, s1: Sess, n1: Net)
    requires !s.closed && RecvLoop(c, s, n, outCap).ret in {Success, Closed}
    ensures ctype != 22 && EndsWith(c, s, n, hs, rec, ctype, content, s1, n1)
    decreases |n.inp|
  {
    hide RecvStep, Unsealed, IsRecord, Effect, CanAnswer, AllProper;
    match RecvStep(c, s, n, outCap)
    case Done(o) =>
      rec, ctype, content := DoneIsBrought(c, s, n, outCap);
      hs, s1, n1 := [], s.(r := s.r.Advance()), n.(inp := n.inp[|rec|..]);
    case More(s0, n0) =>
      var rec0, ms := MoreIsPostHandshakes(c, s, n, outCap);
      var hs0;
      hs0, rec, ctype, content, s1, n1 := LoopEndsWith(c, s0, n0, outCap);
      hs := [(rec0, ms)] + hs0;
      assert hs[1..] == hs0;
  }

  lemma {:induction false} LoopOfEnd(c: Suite, s: Sess, n: Net, outCap: nat, hs: seq<(bytes, seq<Message>)>, rec: bytes,
                                     ctype: byte, content: bytes, s1: Sess, n1: Net)
    requires ctype != 22 && EndsWith(c, s, n, hs, rec, ctype, content, s1, n1)
    ensures RecvLoop(c, s, n, outCap) ==
      if ctype == 23 then
        if |content| <= outCap then RecvOutcome(Success, s1, n1, content) else RecvOutcome(InvalidArg, s1, n1, [])
      else if ctype == 21 then
        if |content| >= 2 && content[1] == 0 then RecvOutcome(Closed, s1.(closed := true), n1, [])
        else RecvOutcome(CryptoErr, s1, n1, [])
      else RecvOutcome(UnexpectedMsg, s1, n1, [])
    decreases |hs|
  {
    hide RecvStep, Unsealed, IsRecord, Effect, CanAnswer, AllProper;
    if hs == [] {
      StepExactly(c, s, n, outCap, rec, ctype, content);
    } else {
      StepOfPostHandshakes(c, s, n, outCap, hs[0].0, hs[0].1);
      var o := Behind(c, s, n, hs[0].0, hs[0].1);
      LoopOfEnd(c, o.s, o.n, outCap, hs[1..], rec, ctype, content, s1, n1);
    }
  }

  /**
   * A receive call delivers `data` if and only if the session is open and the input is some records of
   * whole post-handshake messages whose answers can be sent, and behind them one that opens, under the
   * keys as they are by then, to this data as application data, and it fits the caller's buffer.
   */
  lemma DeliversExactly(c: Suite, s: Sess, n: Net, outCap: nat, s1: Sess, n1: Net, data: bytes)
    ensures Recv(c, s, n, outCap) == RecvOutcome(Success, s1, n1, data)
      <==> s.established && !s.closed && |data| <= outCap
           && exists hs, rec :: EndsWith(c, s, n, hs, rec, 23, data, s1, n1)
  {
    hide RecvLoop, EndsWith;
    if Recv(c, s, n, outCap) == RecvOutcome(Success, s1, n1, data) {
      var hs, rec, ctype, content, s2, n2 := LoopEndsWith(c, s, n, outCap);
      LoopOfEnd(c, s, n, outCap, hs, rec, ctype, content, s2, n2);
    }
    if s.established && !s.closed && |data| <= outCap {
      if hs, rec :| EndsWith(c, s, n, hs, rec, 23, data, s1, n1) {
        LoopOfEnd(c, s, n, outCap, hs, rec, 23, data, s1, n1);
      }
    }
  }

  /** Likewise for the end of the stream: the record holds an alert whose second octet is 0. */
  lemma ClosesExactly(c: Suite, s: Sess, n: Net, outCap: nat, s1: Sess, n1: Net)
    requires s.established && !s.closed
    ensures Recv(c, s, n, outCap) == RecvOutcome(Closed, s1, n1, [])
      <==> exists hs, rec, alert, s0: Sess :: IsCloseNotify(alert) && s1 == s0.(closed := true)
                           && EndsWith(c, s, n, hs, rec, 21, alert, s0, n1)
  {
    hide RecvLoop, EndsWith;
    if Recv(c, s, n, outCap) == RecvOutcome(Closed, s1, n1, []) {
      var hs, rec, ctype, content, s2, n2 := LoopEndsWith(c, s, n, outCap);
      LoopOfEnd(c, s, n, outCap, hs, rec, ctype, content, s2, n2);
      assert IsCloseNotify(content) && s1 == s2.(closed := true) && EndsWith(c, s, n, hs, rec, 21, content, s2, n1);
    }
    if hs, rec, alert, s0: Sess
      :| IsCloseNotify(alert) && s1 == s0.(closed := true) && EndsWith(c, s, n, hs, rec, 21, alert, s0, n1) {
      LoopOfEnd(c, s, n, outCap, hs, rec, 21, alert, s0, n1);
    }
  }

  // ----- sending ---------------------------------------------------------------------------

  /**
   * A send call succeeds if and only if the session is open, the data fits one record and the scratch
   * buffer, and the transport takes it; then exactly one record with it has been sent.
   */
  lemma SendsExactly(c: Suite, s: Sess, n: Net, data: bytes)
    ensures var o := Send(c, s, n, data);
      && (o.ret == Success <==>
            s.established && !s.closed && |data| <= 16384 && |data| + 22 <= s.scratchLen && n.CanSend())
      && (o.ret == Success ==>
            o.n == Net(n.inp, n.out + Sealed(c, s.w.key, s.w.iv, s.w.seqNo, 23, data, 0), n.sends[1..])
            && o.s.w == s.w.Advance() && o.s.r == s.r)
      && (o.ret in {Closed, BadState, InvalidArg} ==> o.s == s && o.n == n)
  {
    hide Sealed, Nonce;
  }

  /** Closing leaves nothing of the keys and counters, and sends one close_notify if the session was open. */
  lemma CloseErases(c: Suite, s: Sess, n: Net)
    ensures var o := Close(c, s, n); var zero := Dir(seq(32, _ => 0), seq(16, _ => 0), seq(12, _ => 0), 0);
      && o.ret == Success && o.s.w == zero && o.s.r == zero && !o.s.established && !o.s.closed && o.s.scratchLen == 0
      && o.n == if s.established && !s.closed then n.Sent(Sealed(c, s.w.key, s.w.iv, s.w.seqNo, 21, [1, 0], 0)) else n
  {
    hide Sealed, Nonce;
    assert Zeros(32) == seq(32, _ => 0) && Zeros(16) == seq(16, _ => 0) && Zeros(12) == seq(12, _ => 0);
  }
}
