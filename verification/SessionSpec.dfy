/**
 * The application-data session as a state machine: what each call does to the session, to the
 * transport and to the log of records it has sealed (`wn_session.c`).
 */
module SessionSpec {
  import opened Bytes
  import opened Crypto
  import opened KeySchedule
  import opened Transport
  import opened Record

  const HS_NEW_SESSION_TICKET: byte := 4
  const HS_KEY_UPDATE: byte := 24
  const SEND_OVERHEAD: nat := HEADER_SZ + 1 + TAG_SZ

  // One sealed record: the write-key generation, the counter and the nonce it used, and what it carried.
  datatype Seal = Seal(gen: nat, seqNo: nat, nonce: bytes, ctype: byte, content: bytes)

  /** `w` is the own (write) direction, `r` the peer's; `gen` counts the own key updates. */
  datatype Sess = Sess(w: Dir, r: Dir, established: bool, closed: bool, scratchLen: nat,
                       gen: nat, log: seq<Seal>)
  {
    function RecordFor(c: Suite, ctype: byte, content: bytes): bytes {
      Sealed(c, w.key, w.iv, w.seqNo, ctype, content, 0)
    }

    // The log entry is made and the counter advanced whether or not the send succeeds.
    function Emitted(ctype: byte, content: bytes): Sess {
      Logged(ctype, content).(w := w.Advance())
    }

    function Logged(ctype: byte, content: bytes): Sess {
      this.(log := log + [Seal(gen, w.seqNo, Nonce(w.iv, w.seqNo), ctype, content)])
    }

    predicate Like(s: Sess) {
      established == s.established && closed == s.closed && scratchLen == s.scratchLen
    }

    function Wiped(): Sess {
      Sess(Dir(Zeros(HASH_SZ), Zeros(KEY_SZ), Zeros(IV_SZ), 0),
           Dir(Zeros(HASH_SZ), Zeros(KEY_SZ), Zeros(IV_SZ), 0), false, false, 0, gen, log)
    }
  }

  datatype Outcome = Outcome(ret: Status, s: Sess, n: Net)
  datatype RecvOutcome = RecvOutcome(ret: Status, s: Sess, n: Net, data: bytes)

  const KU_NOT_REQUESTED: bytes := [HS_KEY_UPDATE, 0, 0, 1, 0]

  function SendKeyUpdate(c: Suite, s: Sess, n: Net): Outcome {
    var s1 := s.Emitted(REC_HANDSHAKE, KU_NOT_REQUESTED);
    var n1 := n.Sent(s.RecordFor(c, REC_HANDSHAKE, KU_NOT_REQUESTED));
    if n.CanSend()
    then Outcome(Success, s1.(w := Rekeyed(c, s1.w), gen := s.gen + 1), n1)
    else Outcome(CryptoErr, s1, n1)
  }

  function PeerRekeyed(c: Suite, s: Sess): Sess {
    s.(r := Rekeyed(c, s.r))
  }

  /** Post-handshake messages of one record, in order, until one is refused. */
  function PostHs(c: Suite, s: Sess, n: Net, msg: bytes): (o: Outcome)
    ensures o.n.inp == n.inp
    ensures o.s.Like(s)
    decreases |msg|
  {
    if msg == [] then Outcome(Success, s, n)
    else if msg[0] == HS_NEW_SESSION_TICKET then
      if |msg| < 4 || |msg| < 4 + Num24(msg, 1) then Outcome(DecodeErr, s, n)
      else PostHs(c, s, n, msg[4 + Num24(msg, 1)..])
    else if msg[0] == HS_KEY_UPDATE then
      if |msg| < 5 || Num24(msg, 1) != 1 || msg[4] > 1 then Outcome(DecodeErr, s, n) else
      var s1 := PeerRekeyed(c, s);
      var o := if msg[4] == 1 then SendKeyUpdate(c, s1, n) else Outcome(Success, s1, n);
      if o.ret == Success then PostHs(c, o.s, o.n, msg[5..]) else o
    else Outcome(UnexpectedMsg, s, n)
  }

  /** The first message decides how the others are reached. */
  lemma PostHsFirst(c: Suite, s: Sess, n: Net, msg: bytes)
    requires msg != []
    ensures PostHs(c, s, n, msg) ==
      if msg[0] == HS_NEW_SESSION_TICKET then
        if |msg| < 4 || |msg| < 4 + Num24(msg, 1) then Outcome(DecodeErr, s, n)
        else PostHs(c, s, n, msg[4 + Num24(msg, 1)..])
      else if msg[0] != HS_KEY_UPDATE then Outcome(UnexpectedMsg, s, n)
      else if |msg| < 5 || Num24(msg, 1) != 1 || msg[4] > 1 then Outcome(DecodeErr, s, n)
      else
        var s1 := PeerRekeyed(c, s);
        var o := if msg[4] == 1 then SendKeyUpdate(c, s1, n) else Outcome(Success, s1, n);
        if o.ret == Success then PostHs(c, o.s, o.n, msg[5..]) else o
  {
    hide Num24, PeerRekeyed, SendKeyUpdate;
  }

  function Send(c: Suite, s: Sess, n: Net, data: bytes): Outcome {
    if s.closed then Outcome(Closed, s, n)
    else if !s.established then Outcome(BadState, s, n)
    else if |data| > MAX_PLAINTEXT || s.scratchLen < SEND_OVERHEAD || |data| > s.scratchLen - SEND_OVERHEAD
    then Outcome(InvalidArg, s, n)
    else
      Outcome(if n.CanSend() then Success else CryptoErr, s.Emitted(REC_APPDATA, data),
              n.Sent(s.RecordFor(c, REC_APPDATA, data)))
  }

  /** One iteration of the receive loop; `Some` result ends it. */
  datatype Step = Done(o: RecvOutcome) | More(s: Sess, n: Net)

  function RecvStep(c: Suite, s: Sess, n: Net, outCap: nat): (st: Step)
    ensures st.More? ==> |st.n.inp| < |n.inp| && st.s.Like(s)
  {
    var got := RecordIn(n.inp, s.scratchLen);
    var n1 := n.(inp := got.rest);
    if got.status != Success then Done(RecvOutcome(got.status, s, n1, []))
    else if got.ctype == REC_CCS then Done(RecvOutcome(UnexpectedMsg, s, n1, []))
    else
      var o := Unsealed(c, s.r.key, s.r.iv, s.r.seqNo, got.rec);
      if o.status != Success then Done(RecvOutcome(o.status, s, n1, []))
      else Dispatch(c, s.(r := s.r.Advance()), n1, outCap, o)
  }

  function Dispatch(c: Suite, s: Sess, n: Net, outCap: nat, o: Opened): (st: Step)
    ensures st.More? ==> st.n.inp == n.inp && st.s.Like(s)
  {
    if o.ctype == REC_APPDATA then
      if |o.content| > outCap then Done(RecvOutcome(InvalidArg, s, n, []))
      else Done(RecvOutcome(Success, s, n, o.content))
    else if o.ctype == REC_HANDSHAKE then
      var p := PostHs(c, s, n, o.content);
      if p.ret == Success then More(p.s, p.n) else Done(RecvOutcome(p.ret, p.s, p.n, []))
    else if o.ctype == REC_ALERT then
      if |o.content| >= 2 && o.content[1] == 0
      then Done(RecvOutcome(Closed, s.(closed := true), n, []))
      else Done(RecvOutcome(CryptoErr, s, n, []))
    else Done(RecvOutcome(UnexpectedMsg, s, n, []))
  }

  function RecvLoop(c: Suite, s: Sess, n: Net, outCap: nat): RecvOutcome
    decreases |n.inp|
  {
    match RecvStep(c, s, n, outCap)
    case Done(o) => o
    case More(s1, n1) => RecvLoop(c, s1, n1, outCap)
  }

  function Recv(c: Suite, s: Sess, n: Net, outCap: nat): RecvOutcome {
    if s.closed then RecvOutcome(Closed, s, n, [])
    else if !s.established then RecvOutcome(BadState, s, n, [])
    else RecvLoop(c, s, n, outCap)
  }

  function Close(c: Suite, s: Sess, n: Net): Outcome {
    if !s.closed && s.established
    then Outcome(Success, s.Logged(REC_ALERT, [1, 0]).Wiped(), n.Sent(s.RecordFor(c, REC_ALERT, [1, 0])))
    else Outcome(Success, s.Wiped(), n)
  }
}
