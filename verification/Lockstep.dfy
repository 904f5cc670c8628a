/**
 * The session against any peer that follows RFC 8446 sections 4.6.3 and 7.2: the reader stays in
 * step with the peer's writer, and the session's own stream stays decodable in order.
 */
module Lockstep {
  import opened Bytes
  import opened Crypto
  import opened KeySchedule
  import opened Transport
  import opened Record
  import opened SessionSpec
  import opened SessionRuns

  // ----- the peer --------------------------------------------------------------------------

  /** One record of the peer, possibly padded; a key update is the last message of its record. */
  datatype PeerRec =
    | Data(data: bytes, pad: nat)
    | PostHandshake(tickets: seq<bytes>, update: Option<bool>, pad: nat)
    | Alert(alert: bytes, pad: nat)
  {
    function Type(): byte {
      match this
      case Data(_, _) => REC_APPDATA
      case PostHandshake(_, _, _) => REC_HANDSHAKE
      case Alert(_, _) => REC_ALERT
    }

    function Content(): bytes {
      match this
      case Data(data, _) => data
      case PostHandshake(tickets, update, _) => TicketBytes(tickets) + UpdateBytes(update)
      case Alert(alert, _) => alert
    }

    /** It respects the plaintext limit, fits the receiver's buffer and does not close the connection. */
    predicate Fits(cap: nat) {
      && |Content()| + pad <= MAX_PLAINTEXT
      && HEADER_SZ + |Content()| + 1 + pad + TAG_SZ <= cap
      && (Alert? ==> !IsCloseNotify(alert))
    }
  }

  predicate IsCloseNotify(alert: bytes) { |alert| >= 2 && alert[1] == 0 }

  function TicketBytes(ts: seq<bytes>): bytes {
    if ts == [] then [] else [HS_NEW_SESSION_TICKET] + U24(|ts[0]|) + ts[0] + TicketBytes(ts[1..])
  }

  function UpdateBytes(u: Option<bool>): bytes {
    if u.None? then [] else [HS_KEY_UPDATE, 0, 0, 1, if u.value then 1 else 0]
  }

  /** The peer's write direction after it has sent `p`. */
  function PeerAfter(c: Suite, d: Dir, p: PeerRec): Dir {
    if p.PostHandshake? && p.update.Some? then Rekeyed(c, d.Advance()) else d.Advance()
  }

  function PeerBytes(c: Suite, d: Dir, p: PeerRec): bytes {
    Sealed(c, d.key, d.iv, d.seqNo, p.Type(), p.Content(), p.pad)
  }

  function PeerDir(c: Suite, d: Dir, ps: seq<PeerRec>): Dir
    decreases |ps|
  {
    if ps == [] then d else PeerDir(c, PeerAfter(c, d, ps[0]), ps[1..])
  }

  function PeerStream(c: Suite, d: Dir, ps: seq<PeerRec>): bytes
    decreases |ps|
  {
    if ps == [] then [] else PeerBytes(c, d, ps[0]) + PeerStream(c, PeerAfter(c, d, ps[0]), ps[1..])
  }

  function DataOf(ps: seq<PeerRec>): seq<bytes> {
    if ps == [] then [] else (if ps[0].Data? then [ps[0].data] else []) + DataOf(ps[1..])
  }

  // ----- one record ------------------------------------------------------------------------

  function AfterReply(c: Suite, s: Sess, n: Net, u: Option<bool>): Outcome {
    if u.None? then Outcome(Success, s, n)
    else if u.value then SendKeyUpdate(c, PeerRekeyed(c, s), n)
    else Outcome(Success, PeerRekeyed(c, s), n)
  }

  lemma UpdateHandled(c: Suite, s: Sess, n: Net, u: Option<bool>)
    ensures PostHs(c, s, n, UpdateBytes(u)) == AfterReply(c, s, n, u)
  {}

  lemma {:induction false} PostHsOfPeer(c: Suite, s: Sess, n: Net, ts: seq<bytes>, u: Option<bool>)
    requires |TicketBytes(ts)| <= MAX_PLAINTEXT
    ensures PostHs(c, s, n, TicketBytes(ts) + UpdateBytes(u)) == AfterReply(c, s, n, u)
    decreases |ts|
  {
    hide U24, Num24, SendKeyUpdate, PeerRekeyed;
    var msg := TicketBytes(ts) + UpdateBytes(u);
    if ts == [] {
      assert msg == UpdateBytes(u);
      UpdateHandled(c, s, n, u);
    } else {
      var rest := TicketBytes(ts[1..]) + UpdateBytes(u);
      assert TicketBytes(ts) == [HS_NEW_SESSION_TICKET] + U24(|ts[0]|) + ts[0] + TicketBytes(ts[1..]);
      assert msg == [HS_NEW_SESSION_TICKET] + U24(|ts[0]|) + ts[0] + rest;
      assert msg[1..4] == U24(|ts[0]|);
      Num24Of(msg, 1, |ts[0]|);
      assert msg[4 + |ts[0]|..] == rest;
      PostHsOfPeer(c, s, n, ts[1..], u);
    }
  }

  /** What one iteration of the receive loop does with a record of the peer. */
  function PeerStep(c: Suite, s: Sess, n: Net, outCap: nat, p: PeerRec, rest: bytes): Step {
    var s1, n1 := s.(r := s.r.Advance()), n.(inp := rest);
    if p.Data? then
      Done(if |p.data| > outCap then RecvOutcome(InvalidArg, s1, n1, []) else RecvOutcome(Success, s1, n1, p.data))
    else if p.Alert? then Done(RecvOutcome(CryptoErr, s1, n1, []))
    else
      var o := AfterReply(c, s1, n1, p.update);
      if o.ret == Success then More(o.s, o.n) else Done(RecvOutcome(o.ret, o.s, o.n, []))
  }

  lemma StepOfPeer(c: Suite, s: Sess, n: Net, outCap: nat, p: PeerRec, rest: bytes)
    requires c.Laws() && p.Fits(s.scratchLen)
    requires n.inp == PeerBytes(c, s.r, p) + rest
    ensures RecvStep(c, s, n, outCap) == PeerStep(c, s, n, outCap, p, rest)
  {
    SealedIn(c, s.r.key, s.r.iv, s.r.seqNo, p.Type(), p.Content(), p.pad, rest, s.scratchLen);
    UnsealSealed(c, s.r.key, s.r.iv, s.r.seqNo, p.Type(), p.Content(), p.pad);
    if p.PostHandshake? {
      PostHsOfPeer(c, s.(r := s.r.Advance()), n.(inp := rest), p.tickets, p.update);
    }
  }

  /**
   * Processing one record of the peer leaves the reader exactly where the peer's writer is, even
   * when the reply cannot be sent, the caller's buffer is too small or the peer alerts; data is handed
   * over as it is.
   */
  lemma StepInLockstep(c: Suite, s: Sess, n: Net, outCap: nat, p: PeerRec, rest: bytes) returns (st: Step)
    requires c.Laws() && p.Fits(s.scratchLen)
    requires n.inp == PeerBytes(c, s.r, p) + rest
    ensures RecvLoop(c, s, n, outCap) == if st.More? then RecvLoop(c, st.s, st.n, outCap) else st.o
    ensures st.More? <==> p.PostHandshake? && (p.update == Some(true) ==> n.CanSend())
    ensures st.More? ==>
      && st.s.r == PeerAfter(c, s.r, p) && st.n.inp == rest && st.s.Like(s)
      && st.n.sends == if p.update == Some(true) then n.sends[1..] else n.sends
    ensures st.Done? ==>
      && st.o.s.r == PeerAfter(c, s.r, p) && st.o.n.inp == rest && st.o.s.Like(s)
      && (st.o.ret == Success <==> p.Data? && |p.data| <= outCap) && st.o.ret != Closed
      && st.o.data == (if p.Data? && |p.data| <= outCap then p.data else [])
      && (!p.PostHandshake? ==> st.o.n.sends == n.sends)
  {
    StepOfPeer(c, s, n, outCap, p, rest);
    st := PeerStep(c, s, n, outCap, p, rest);
  }

  // ----- whole runs ------------------------------------------------------------------------

  ghost predicate AllFit(ps: seq<PeerRec>, cap: nat) {
    forall i :: 0 <= i < |ps| ==> ps[i].Fits(cap)
  }

  /** The session has read the first records of the peer and nothing of the rest. */
  ghost predicate InStep(c: Suite, s: Sess, n: Net, left: seq<PeerRec>) {
    s.established && n.inp == PeerStream(c, s.r, left) && AllFit(left, s.scratchLen)
  }

  /** The number of peer records that one call of Recv consumes, given that replies can be sent. */
  function Consumed(ps: seq<PeerRec>, sends: seq<bool>): nat {
    if ps == [] then 0
    else if !ps[0].PostHandshake? then 1
    else if ps[0].update == Some(true) then
      if sends != [] && sends[0] then 1 + Consumed(ps[1..], sends[1..]) else 1
    else 1 + Consumed(ps[1..], sends)
  }

  lemma {:induction false} ConsumedBound(ps: seq<PeerRec>, sends: seq<bool>)
    ensures Consumed(ps, sends) <= |ps|
    decreases |ps|
  {
    if ps != [] && ps[0].PostHandshake? {
      ConsumedBound(ps[1..], sends);
      if sends != [] {
        ConsumedBound(ps[1..], sends[1..]);
      }
    }
  }

  lemma {:induction false} PeerDirSplit(c: Suite, d: Dir, ps: seq<PeerRec>, k: nat)
    requires 0 < k <= |ps|
    ensures PeerDir(c, d, ps[..k]) == PeerDir(c, PeerAfter(c, d, ps[0]), ps[1..][..k - 1])
    ensures DataOf(ps[..k]) == (if ps[0].Data? then [ps[0].data] else []) + DataOf(ps[1..][..k - 1])
  {
    assert ps[..k][1..] == ps[1..][..k - 1];
  }

  /** What a call of Recv with outcome `o` has done with the first `k` of the peer's records. */
  ghost predicate ReadUpTo(c: Suite, s: Sess, o: RecvOutcome, ps: seq<PeerRec>, k: nat, outCap: nat)
    requires k <= |ps|
  {
    && o.s.Like(s)
    && o.s.r == PeerDir(c, s.r, ps[..k])
    && InStep(c, o.s, o.n, ps[k..])
    && DataOf(ps[..k]) == (if o.ret == Success then [o.data]
        else if DataTooLong(ps, k, outCap) then [ps[k - 1].data] else [])
  }

  predicate DataTooLong(ps: seq<PeerRec>, k: nat, outCap: nat)
    requires k <= |ps|
  {
    k > 0 && ps[k - 1].Data? && |ps[k - 1].data| > outCap
  }

  /**
   * One call of Recv: it consumes `Consumed` records, the reader ends in step with the peer, and
   * it returns the data of the last of them, if that is a data record that fits, and no other data.
   */
  lemma {:induction false} RecvInLockstep(c: Suite, s: Sess, n: Net, outCap: nat, ps: seq<PeerRec>)
    requires c.Laws() && InStep(c, s, n, ps)
    ensures Consumed(ps, n.sends) <= |ps|
    ensures ReadUpTo(c, s, RecvLoop(c, s, n, outCap), ps, Consumed(ps, n.sends), outCap)
    decreases |ps|
  {
    hide RecvLoop, Sealed, PeerAfter, PeerDir, DataOf, Nonce, ReadUpTo;
    ConsumedBound(ps, n.sends);
    if ps == [] {
      NothingRead(c, s, n, outCap);
    } else {
      var p, rest := ps[0], PeerStream(c, PeerAfter(c, s.r, ps[0]), ps[1..]);
      var st := StepInLockstep(c, s, n, outCap, p, rest);
      if st.More? {
        RecvInLockstep(c, st.s, st.n, outCap, ps[1..]);
        OneMoreRead(c, s, st.s, RecvLoop(c, st.s, st.n, outCap), ps, Consumed(ps, n.sends), outCap);
      } else {
        OnlyOneRead(c, s, st.o, ps, outCap);
      }
    }
  }

  lemma OnlyOneRead(c: Suite, s: Sess, o: RecvOutcome, ps: seq<PeerRec>, outCap: nat)
    requires ps != [] && o.s.Like(s) && InStep(c, o.s, o.n, ps[1..]) && o.s.r == PeerAfter(c, s.r, ps[0])
    requires o.ret == Success <==> ps[0].Data? && |ps[0].data| <= outCap
    requires o.data == if ps[0].Data? && |ps[0].data| <= outCap then ps[0].data else []
    ensures ReadUpTo(c, s, o, ps, 1, outCap)
  {
    hide PeerAfter, PeerStream;
    var p := ps[0];
    assert ps[..1] == [p] && [p][1..] == [];
    assert DataOf([p]) == (if p.Data? then [p.data] else []) + DataOf([]);
    assert PeerDir(c, s.r, [p]) == PeerDir(c, PeerAfter(c, s.r, p), []);
  }

  lemma NothingRead(c: Suite, s: Sess, n: Net, outCap: nat)
    requires InStep(c, s, n, [])
    ensures ReadUpTo(c, s, RecvLoop(c, s, n, outCap), [], 0, outCap)
  {}

  lemma OneMoreRead(c: Suite, s: Sess, s1: Sess, o: RecvOutcome, ps: seq<PeerRec>, k: nat, outCap: nat)
    requires 0 < k <= |ps| && ps[0].PostHandshake? && s1.Like(s) && s1.r == PeerAfter(c, s.r, ps[0])
    requires ReadUpTo(c, s1, o, ps[1..], k - 1, outCap)
    ensures ReadUpTo(c, s, o, ps, k, outCap)
  {
    PeerDirSplit(c, s.r, ps, k);
    assert ps[1..][k - 1..] == ps[k..];
    if k > 1 {
      assert ps[1..][k - 2] == ps[k - 1];
    }
  }

  /** The data that a run of calls returns to the application. */
  function Delivered(c: Suite, w: World, calls: seq<Call>): seq<bytes>
    decreases |calls|
  {
    if calls == [] then [] else
    (if calls[0].DoRecv? && Recv(c, w.s, w.n, calls[0].outCap).ret == Success
     then [Recv(c, w.s, w.n, calls[0].outCap).data] else [])
    + Delivered(c, Apply(c, w, calls[0]), calls[1..])
  }

  ghost predicate RoomyCalls(calls: seq<Call>, ps: seq<PeerRec>) {
    forall i, j :: 0 <= i < |calls| && calls[i].DoRecv? && 0 <= j < |ps| && ps[j].Data?
        ==> |ps[j].data| <= calls[i].outCap
  }

  lemma {:induction false} DataOfSplit(ps: seq<PeerRec>, i: nat, j: nat)
    requires i <= j <= |ps|
    ensures DataOf(ps[..j]) == DataOf(ps[..i]) + DataOf(ps[i..][..j - i])
    decreases i
  {
    if i == 0 {
      assert ps[0..] == ps;
    } else {
      assert ps[..j][1..] == ps[1..][..j - 1] && ps[..i][1..] == ps[1..][..i - 1];
      assert ps[i..] == ps[1..][i - 1..];
      DataOfSplit(ps[1..], i - 1, j - 1);
    }
  }

  lemma {:induction false} PeerDirCompose(c: Suite, d: Dir, ps: seq<PeerRec>, i: nat, j: nat)
    requires i <= j <= |ps|
    ensures PeerDir(c, d, ps[..j]) == PeerDir(c, PeerDir(c, d, ps[..i]), ps[i..][..j - i])
    decreases i
  {
    if i == 0 {
      assert ps[0..] == ps;
    } else {
      assert ps[..j][1..] == ps[1..][..j - 1] && ps[..i][1..] == ps[1..][..i - 1];
      assert ps[i..] == ps[1..][i - 1..];
      PeerDirCompose(c, PeerAfter(c, d, ps[0]), ps[1..], i - 1, j - 1);
    }
  }

  /** The peer's records in two goes. */
  lemma InTwoGoes(c: Suite, d: Dir, ps: seq<PeerRec>, i: nat, j: nat)
    requires i + j <= |ps|
    ensures PeerDir(c, d, ps[..i + j]) == PeerDir(c, PeerDir(c, d, ps[..i]), ps[i..][..j])
    ensures DataOf(ps[..i + j]) == DataOf(ps[..i]) + DataOf(ps[i..][..j])
    ensures ps[i..][j..] == ps[i + j..]
  {
    hide PeerDir, DataOf;
    DataOfSplit(ps, i, i + j);
    PeerDirCompose(c, d, ps, i, i + j);
  }

  /** One receive call of a run, when the buffer holds every datum that is left. */
  lemma RecvInRun(c: Suite, s: Sess, n: Net, outCap: nat, ps: seq<PeerRec>) returns (k: nat)
    requires c.Laws() && InStep(c, s, n, ps) && !s.closed
    requires forall j :: 0 <= j < |ps| && ps[j].Data? ==> |ps[j].data| <= outCap
    ensures k <= |ps|
    ensures var o := Recv(c, s, n, outCap);
      && o.s.Like(s) && o.s.r == PeerDir(c, s.r, ps[..k]) && InStep(c, o.s, o.n, ps[k..])
      && DataOf(ps[..k]) == if o.ret == Success then [o.data] else []
  {
    hide RecvLoop, Consumed, PeerDir, DataOf, PeerStream, AllFit;
    RecvInLockstep(c, s, n, outCap, ps);
    k := Consumed(ps, n.sends);
    assert !DataTooLong(ps, k, outCap);
  }

  /** A send neither reads nor touches the read direction. */
  lemma SendKeepsStep(c: Suite, s: Sess, n: Net, data: bytes, ps: seq<PeerRec>)
    requires InStep(c, s, n, ps)
    ensures var o := Send(c, s, n, data);
      InStep(c, o.s, o.n, ps) && o.s.r == s.r && o.s.Like(s)
  {}

  /**
   * Session lockstep. Over every run of sends and receives, in any order and with any send
   * failures, against any conforming peer: after the run the reader is where the peer's writer was
   * after the `k` records consumed, the other records are still to be read, and the application
   * has been given exactly the data of those `k` records, in order.
   */
  lemma {:induction false} RunInLockstep(c: Suite, w: World, calls: seq<Call>, ps: seq<PeerRec>) returns (k: nat)
    requires c.Laws() && InStep(c, w.s, w.n, ps) && !w.s.closed
    requires forall i :: 0 <= i < |calls| ==> !calls[i].DoClose?
    requires RoomyCalls(calls, ps)
    ensures k <= |ps|
    ensures var end := Run(c, w, calls);
      && end.s.r == PeerDir(c, w.s.r, ps[..k])
      && InStep(c, end.s, end.n, ps[k..])
      && Delivered(c, w, calls) == DataOf(ps[..k])
    decreases |calls|
  {
    hide Recv, Send, PeerDir, DataOf, InStep;
    if calls == [] {
      k := 0;
      assert ps[0..] == ps && ps[..0] == [];
      NoRecords(c, w.s.r);
    } else {
      var call, next := calls[0], Apply(c, w, calls[0]);
      if call.DoSend? {
        SendKeepsStep(c, w.s, w.n, call.data, ps);
        k := RunInLockstep(c, next, calls[1..], ps);
      } else {
        var k0 := RecvInRun(c, w.s, w.n, call.outCap, ps);
        var k1 := RunInLockstep(c, next, calls[1..], ps[k0..]);
        k := k0 + k1;
        InTwoGoes(c, w.s.r, ps, k0, k1);
      }
    }
  }

  lemma NoRecords(c: Suite, d: Dir)
    ensures PeerDir(c, d, []) == d && DataOf([]) == []
  {}

  /** While a data record is left, replies can be sent and the buffer suffices, Recv succeeds. */
  lemma {:induction false} RecvProgress(c: Suite, s: Sess, n: Net, outCap: nat, ps: seq<PeerRec>, at: nat)
    requires c.Laws() && InStep(c, s, n, ps)
    requires at < |ps| && ps[at].Data? && |ps[at].data| <= outCap
    requires forall i :: 0 <= i < at ==> ps[i].PostHandshake?
    requires |n.sends| >= at && forall i :: 0 <= i < at ==> n.sends[i]
    ensures RecvLoop(c, s, n, outCap).ret == Success && RecvLoop(c, s, n, outCap).data == ps[at].data
    decreases at
  {
    hide RecvLoop, Sealed, PeerAfter;
    var p, rest := ps[0], PeerStream(c, PeerAfter(c, s.r, ps[0]), ps[1..]);
    var st := StepInLockstep(c, s, n, outCap, p, rest);
    if at > 0 {
      assert ps[1..][at - 1] == ps[at];
      RecvProgress(c, st.s, st.n, outCap, ps[1..], at - 1);
    }
  }

  // ----- the session's own stream ----------------------------------------------------------

  /** A conforming reader of the session's output: records in order, rekeying at each key update. */
  datatype Read = Read(dir: Dir, contents: seq<(byte, bytes)>)

  function ReadRecord(c: Suite, d: Dir, rec: bytes): Option<(Dir, byte, bytes)> {
    var o := Unsealed(c, d.key, d.iv, d.seqNo, rec);
    if o.status != Success then None
    else if o.ctype == REC_HANDSHAKE && o.content == KU_NOT_REQUESTED
    then Some((Rekeyed(c, d.Advance()), o.ctype, o.content))
    else Some((d.Advance(), o.ctype, o.content))
  }

  function ReadStream(c: Suite, d: Dir, b: bytes): Option<Read>
    decreases |b|
  {
    if b == [] then Some(Read(d, [])) else
    var got := RecordIn(b, MAX_BUFFER);
    if got.status != Success then None else
    var one := ReadRecord(c, d, got.rec);
    if one.None? then None else Prepend(one.value, ReadStream(c, one.value.0, got.rest))
  }

  function Prepend(one: (Dir, byte, bytes), more: Option<Read>): Option<Read> {
    if more.None? then None else Some(Read(more.value.dir, [(one.1, one.2)] + more.value.contents))
  }

  function ContentsOf(log: seq<Seal>): seq<(byte, bytes)> {
    seq(|log|, i requires 0 <= i < |log| => (log[i].ctype, log[i].content))
  }

  /** Appending one more record to a readable stream appends one entry to what is read. */
  lemma {:induction false} ReadStreamAppend(c: Suite, d: Dir, b: bytes, rec: bytes)
    requires ReadStream(c, d, b).Some? && WellFramed(rec)
    requires ReadRecord(c, ReadStream(c, d, b).value.dir, rec).Some?
    ensures var r, one := ReadStream(c, d, b).value, ReadRecord(c, ReadStream(c, d, b).value.dir, rec).value;
      ReadStream(c, d, b + rec) == Some(Read(one.0, r.contents + [(one.1, one.2)]))
    decreases |b|
  {
    hide Unsealed, ReadRecord;
    if b == [] {
      RecordInReads(rec, [], MAX_BUFFER);
      assert b + rec == rec + [];
      ReadOneMore(c, d, b + rec, rec, []);
      var one := ReadRecord(c, d, rec).value;
      assert ReadStream(c, one.0, []) == Some(Read(one.0, []));
      assert [(one.1, one.2)] + [] == [] + [(one.1, one.2)];
    } else {
      var got := RecordIn(b, MAX_BUFFER);
      var one := ReadRecord(c, d, got.rec).value;
      RecordInExtends(b, rec);
      ReadOneMore(c, d, b, got.rec, got.rest);
      ReadOneMore(c, d, b + rec, got.rec, got.rest + rec);
      ReadStreamAppend(c, one.0, got.rest, rec);
      var r := ReadStream(c, one.0, got.rest).value;
      var last := ReadRecord(c, r.dir, rec).value;
      assert [(one.1, one.2)] + (r.contents + [(last.1, last.2)]) == [(one.1, one.2)] + r.contents + [(last.1, last.2)];
    }
  }

  lemma ReadOneMore(c: Suite, d: Dir, b: bytes, rec: bytes, rest: bytes)
    requires b != [] && var got := RecordIn(b, MAX_BUFFER); got.status == Success && got.rec == rec && got.rest == rest
    requires ReadRecord(c, d, rec).Some?
    ensures var one := ReadRecord(c, d, rec).value;
      ReadStream(c, d, b) == Prepend(one, ReadStream(c, one.0, rest))
  {}

  lemma RecordInExtends(b: bytes, more: bytes)
    requires RecordIn(b, MAX_BUFFER).status == Success
    ensures var got := RecordIn(b, MAX_BUFFER);
      RecordIn(b + more, MAX_BUFFER) == got.(rest := got.rest + more)
  {}

  /** No send attempted so far has failed: the first `|log|` outcomes are all successes. */
  ghost predicate SendsHeld(log: seq<Seal>, sends: seq<bool>) {
    |log| <= |sends| && forall i :: 0 <= i < |log| ==> sends[i]
  }

  /** What the reader has recovered is the log, and it is ready for the session's next record. */
  ghost predicate Readable(c: Suite, d0: Dir, sends0: seq<bool>, s: Sess, n: Net) {
    SendsHeld(s.log, sends0) ==>
      && n.sends == sends0[|s.log|..]
      && ReadStream(c, d0, n.out).Some?
      && ReadStream(c, d0, n.out).value.contents == ContentsOf(s.log)
      && (s.established ==> ReadStream(c, d0, n.out).value.dir == s.w)
  }

  lemma SealKeepsReadable(c: Suite, d0: Dir, sends0: seq<bool>, s: Sess, n: Net, ctype: byte, content: bytes)
    requires c.Laws() && Readable(c, d0, sends0, s, n) && s.established
    requires |content| <= MAX_PLAINTEXT && ctype != 0
    ensures var t, n1 := s.Logged(ctype, content), n.Sent(s.RecordFor(c, ctype, content));
      SendsHeld(t.log, sends0) ==>
        && n.CanSend()
        && n1.sends == sends0[|t.log|..]
        && ReadStream(c, d0, n1.out).Some?
        && ReadStream(c, d0, n1.out).value.contents == ContentsOf(t.log)
        && ReadStream(c, d0, n1.out).value.dir
             == if ctype == REC_HANDSHAKE && content == KU_NOT_REQUESTED then Rekeyed(c, s.w.Advance()) else s.w.Advance()
  {
    hide Sealed, ReadRecord, ReadStream, Nonce, Rekeyed;
    var t, rec := s.Logged(ctype, content), s.RecordFor(c, ctype, content);
    if SendsHeld(t.log, sends0) {
      assert t.log[|s.log|] == Seal(s.gen, s.w.seqNo, Nonce(s.w.iv, s.w.seqNo), ctype, content);
      assert forall i :: 0 <= i < |s.log| ==> sends0[i];
      assert SendsHeld(s.log, sends0);
      OwnRecordRead(c, s.w, ctype, content);
      ReadStreamAppend(c, d0, n.out, rec);
      assert ContentsOf(t.log) == ContentsOf(s.log) + [(ctype, content)];
    }
  }

  lemma OwnRecordRead(c: Suite, d: Dir, ctype: byte, content: bytes)
    requires c.Laws() && |content| <= MAX_PLAINTEXT && ctype != 0
    ensures var rec := Sealed(c, d.key, d.iv, d.seqNo, ctype, content, 0);
      && WellFramed(rec)
      && ReadRecord(c, d, rec) == Some((if ctype == REC_HANDSHAKE && content == KU_NOT_REQUESTED
                                         then Rekeyed(c, d.Advance()) else d.Advance(), ctype, content))
  {
    SealedIn(c, d.key, d.iv, d.seqNo, ctype, content, 0, [], MAX_BUFFER);
    UnsealSealed(c, d.key, d.iv, d.seqNo, ctype, content, 0);
  }

  lemma {:induction false} PostHsKeepsReadable(c: Suite, d0: Dir, sends0: seq<bool>, s: Sess, n: Net, msg: bytes)
    requires c.Laws() && Readable(c, d0, sends0, s, n) && s.established
    ensures var o := PostHs(c, s, n, msg); Readable(c, d0, sends0, o.s, o.n)
    decreases |msg|
  {
    if msg == [] {
    } else if msg[0] == HS_NEW_SESSION_TICKET {
      if |msg| >= 4 && |msg| >= 4 + Num24(msg, 1) {
        PostHsKeepsReadable(c, d0, sends0, s, n, msg[4 + Num24(msg, 1)..]);
      }
    } else if msg[0] == HS_KEY_UPDATE && |msg| >= 5 && Num24(msg, 1) == 1 && msg[4] <= 1 {
      var s1 := PeerRekeyed(c, s);
      if msg[4] == 1 {
        SealKeepsReadable(c, d0, sends0, s1, n, REC_HANDSHAKE, KU_NOT_REQUESTED);
        var o := SendKeyUpdate(c, s1, n);
        if o.ret == Success {
          PostHsKeepsReadable(c, d0, sends0, o.s, o.n, msg[5..]);
        }
      } else {
        PostHsKeepsReadable(c, d0, sends0, s1, n, msg[5..]);
      }
    }
  }

  // Reading touches neither the write direction, nor the log, nor the output.
  lemma SameOutput(c: Suite, d0: Dir, sends0: seq<bool>, s: Sess, n: Net, s1: Sess, n1: Net)
    requires Readable(c, d0, sends0, s, n) && s1.log == s.log && s1.w == s.w && (s1.established ==> s.established)
    requires n1.out == n.out && n1.sends == n.sends
    ensures Readable(c, d0, sends0, s1, n1)
  {}

  lemma StepKeepsReadable(c: Suite, d0: Dir, sends0: seq<bool>, s: Sess, n: Net, outCap: nat)
    requires c.Laws() && Readable(c, d0, sends0, s, n) && s.established
    ensures var st := RecvStep(c, s, n, outCap);
      if st.More? then st.s.established && Readable(c, d0, sends0, st.s, st.n)
      else Readable(c, d0, sends0, st.o.s, st.o.n)
  {
    hide Readable, RecordIn, Unsealed, PostHs;
    var got := RecordIn(n.inp, s.scratchLen);
    var s1, n1 := s.(r := s.r.Advance()), n.(inp := got.rest);
    SameOutput(c, d0, sends0, s, n, s, n1);
    SameOutput(c, d0, sends0, s, n, s1, n1);
    SameOutput(c, d0, sends0, s, n, s1.(closed := true), n1);
    if got.status == Success && got.ctype != REC_CCS {
      var o := Unsealed(c, s.r.key, s.r.iv, s.r.seqNo, got.rec);
      if o.status == Success && o.ctype == REC_HANDSHAKE {
        PostHsKeepsReadable(c, d0, sends0, s1, n1, o.content);
      }
    }
  }

  lemma {:induction false} RecvKeepsReadable(c: Suite, d0: Dir, sends0: seq<bool>, s: Sess, n: Net, outCap: nat)
    requires c.Laws() && Readable(c, d0, sends0, s, n) && s.established
    ensures var o := RecvLoop(c, s, n, outCap); Readable(c, d0, sends0, o.s, o.n)
    decreases |n.inp|
  {
    hide Readable, RecvStep;
    StepKeepsReadable(c, d0, sends0, s, n, outCap);
    match RecvStep(c, s, n, outCap)
    case More(s1, n1) => RecvKeepsReadable(c, d0, sends0, s1, n1, outCap);
    case Done(_) =>
  }

  lemma ApplyKeepsReadable(c: Suite, d0: Dir, sends0: seq<bool>, w: World, call: Call)
    requires c.Laws() && Readable(c, d0, sends0, w.s, w.n)
    ensures Readable(c, d0, sends0, Apply(c, w, call).s, Apply(c, w, call).n)
  {
    if w.s.established && !w.s.closed {
      match call
      case DoSend(data) =>
        if |data| <= MAX_PLAINTEXT {
          SealKeepsReadable(c, d0, sends0, w.s, w.n, REC_APPDATA, data);
        }
      case DoRecv(cap) => RecvKeepsReadable(c, d0, sends0, w.s, w.n, cap);
      case DoClose => SealKeepsReadable(c, d0, sends0, w.s, w.n, REC_ALERT, [1, 0]);
    }
  }

  lemma {:induction false} RunKeepsReadable(c: Suite, d0: Dir, sends0: seq<bool>, w: World, calls: seq<Call>)
    requires c.Laws() && Readable(c, d0, sends0, w.s, w.n)
    ensures var end := Run(c, w, calls); Readable(c, d0, sends0, end.s, end.n)
    decreases |calls|
  {
    if calls != [] {
      ApplyKeepsReadable(c, d0, sends0, w, calls[0]);
      RunKeepsReadable(c, d0, sends0, Apply(c, w, calls[0]), calls[1..]);
    }
  }

  /**
   * Whatever the peer sends and whatever the application calls, as long as no send failed, a
   * conforming reader that starts with the same write keys recovers from the session's output
   * exactly what it sealed, in order, across every key update it announced.
   */
  lemma OwnStreamReadable(c: Suite, w: World, calls: seq<Call>)
    requires c.Laws() && Fresh(w.s) && w.n.out == []
    ensures var end := Run(c, w, calls);
      SendsHeld(end.s.log, w.n.sends) ==>
        && ReadStream(c, w.s.w, end.n.out).Some?
        && ReadStream(c, w.s.w, end.n.out).value.contents == ContentsOf(end.s.log)
        && (end.s.established ==> ReadStream(c, w.s.w, end.n.out).value.dir == end.s.w)
  {
    assert ContentsOf(w.s.log) == [];
    assert w.n.sends[0..] == w.n.sends;
    RunKeepsReadable(c, w.s.w, w.n.sends, w, calls);
  }
}
