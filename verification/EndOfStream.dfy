/**
 * The end of a stream. A session that is told of the end by the peer's close_notify has delivered
 * everything; a stream that is cut anywhere before it is never taken for a complete one.
 */
module EndOfStream {
  import opened Bytes
  import opened Crypto
  import opened KeySchedule
  import opened Transport
  import opened Record
  import opened SessionSpec
  import opened SessionRuns
  import opened Lockstep
  import opened Interop
  import opened HonestRun
  import opened PskClientSpec
  import opened PskServer
  import Psk = PskAgreement
  import Cert = CertAgreement
  import CC = CertClientSpec
  import CS = CertServer

  // ----- what stands behind the peer's last whole record -----------------------------------

  /** Either nothing or the front of a record, or the close_notify and then anything. */
  datatype End = Cut(stub: bytes) | Notice(alert: bytes, pad: nat, tail: bytes) {
    function Wire(c: Suite, d: Dir): bytes {
      match this
      case Cut(stub) => stub
      case Notice(alert, pad, tail) => Sealed(c, d.key, d.iv, d.seqNo, REC_ALERT, alert, pad) + tail
    }

    predicate Fits(cap: nat) {
      match this
      case Cut(stub) => Unfinished(stub, cap)
      case Notice(alert, pad, _) =>
        IsCloseNotify(alert) && |alert| + pad <= MAX_PLAINTEXT && HEADER_SZ + |alert| + 1 + pad + TAG_SZ <= cap
    }
  }

  /** No record can be read from `b`, and trying uses it up. */
  predicate Unfinished(b: bytes, cap: nat) {
    RecordIn(b, cap).status == CryptoErr && RecordIn(b, cap).rest == []
  }

  /** The session has still to read the records `left` and the end of the stream. */
  ghost predicate Before(c: Suite, s: Sess, n: Net, left: seq<PeerRec>, e: End) {
    && s.established && !s.closed && AllFit(left, s.scratchLen) && e.Fits(s.scratchLen)
    && n.inp == PeerStream(c, s.r, left) + e.Wire(c, PeerDir(c, s.r, left))
  }

  // ----- one receive call ------------------------------------------------------------------

  /** Whether one receive call gets to the end: no data and no alert is left, and all replies are sent. */
  predicate Reaches(left: seq<PeerRec>, sends: seq<bool>) {
    left == [] || (left[0].PostHandshake? &&
      if left[0].update == Some(true) then sends != [] && sends[0] && Reaches(left[1..], sends[1..])
      else Reaches(left[1..], sends))
  }

  /** It reports the close_notify and reads nothing behind it, or reports the cut as an error. */
  ghost predicate AtTheEnd(c: Suite, s: Sess, o: RecvOutcome, left: seq<PeerRec>, e: End) {
    && DataOf(left) == [] && o.data == [] && o.s.established && o.s.scratchLen == s.scratchLen
    && match e
       case Notice(_, _, tail) =>
         o.ret == Closed && o.s.closed && o.n.inp == tail && o.s.r == PeerDir(c, s.r, left).Advance()
       case Cut(_) =>
         o.ret == CryptoErr && !o.s.closed && o.n.inp == [] && o.s.r == PeerDir(c, s.r, left)
  }

  /** It stops at one of the first `k` records, which it has consumed. */
  ghost predicate Short(c: Suite, s: Sess, o: RecvOutcome, left: seq<PeerRec>, e: End, k: nat, outCap: nat) {
    && k <= |left| && o.s.Like(s) && o.ret != Closed
    && o.s.r == PeerDir(c, s.r, left[..k]) && Before(c, o.s, o.n, left[k..], e)
    && DataOf(left[..k]) == (if o.ret == Success then [o.data]
        else if DataTooLong(left, k, outCap) then [left[k - 1].data] else [])
  }

  lemma NoticeRead(c: Suite, s: Sess, n: Net, outCap: nat, e: End)
    requires c.Laws() && e.Notice? && e.Fits(s.scratchLen) && n.inp == e.Wire(c, s.r)
    ensures RecvStep(c, s, n, outCap)
         == Done(RecvOutcome(Closed, s.(r := s.r.Advance(), closed := true), n.(inp := e.tail), []))
  {
    hide Sealed, Unsealed, RecordIn, PostHs;
    SealedIn(c, s.r.key, s.r.iv, s.r.seqNo, REC_ALERT, e.alert, e.pad, e.tail, s.scratchLen);
    UnsealSealed(c, s.r.key, s.r.iv, s.r.seqNo, REC_ALERT, e.alert, e.pad);
  }

  lemma CutRead(c: Suite, s: Sess, n: Net, outCap: nat)
    requires Unfinished(n.inp, s.scratchLen)
    ensures RecvStep(c, s, n, outCap) == Done(RecvOutcome(CryptoErr, s, n.(inp := []), []))
  {
    hide RecordIn, Unsealed;
  }

  lemma EndRead(c: Suite, s: Sess, n: Net, outCap: nat, e: End)
    requires c.Laws() && Before(c, s, n, [], e)
    ensures AtTheEnd(c, s, RecvLoop(c, s, n, outCap), [], e)
  {
    hide RecvStep, Sealed, Unfinished, AllFit;
    NoRecords(c, s.r);
    assert n.inp == e.Wire(c, s.r);
    if e.Notice? {
      NoticeRead(c, s, n, outCap, e);
    } else {
      CutRead(c, s, n, outCap);
    }
  }

  /** One record of the peer, with the others and the end behind it. */
  lemma FirstStep(c: Suite, s: Sess, n: Net, outCap: nat, left: seq<PeerRec>, e: End) returns (st: Step)
    requires c.Laws() && left != [] && Before(c, s, n, left, e)
    ensures RecvLoop(c, s, n, outCap) == if st.More? then RecvLoop(c, st.s, st.n, outCap) else st.o
    ensures st.More? <==> left[0].PostHandshake? && (left[0].update == Some(true) ==> n.CanSend())
    ensures st.More? ==>
      && st.s.r == PeerAfter(c, s.r, left[0]) && st.s.Like(s) && Before(c, st.s, st.n, left[1..], e)
      && st.n.sends == if left[0].update == Some(true) then n.sends[1..] else n.sends
    ensures st.Done? ==>
      && st.o.s.r == PeerAfter(c, s.r, left[0]) && st.o.s.Like(s) && Before(c, st.o.s, st.o.n, left[1..], e)
      && (st.o.ret == Success <==> left[0].Data? && |left[0].data| <= outCap) && st.o.ret != Closed
      && st.o.data == (if left[0].Data? && |left[0].data| <= outCap then left[0].data else [])
      && (!left[0].PostHandshake? ==> st.o.n.sends == n.sends)
  {
    hide RecvLoop, PeerAfter, PeerDir, End.Wire, End.Fits, PeerBytes;
    var d := PeerAfter(c, s.r, left[0]);
    var rest := PeerStream(c, d, left[1..]) + e.Wire(c, PeerDir(c, d, left[1..]));
    DirOfFirst(c, s.r, left);
    Join(PeerBytes(c, s.r, left[0]), PeerStream(c, d, left[1..]), e.Wire(c, PeerDir(c, d, left[1..])));
    st := StepInLockstep(c, s, n, outCap, left[0], rest);
  }

  lemma {:induction false} RecvTowardsEnd(c: Suite, s: Sess, n: Net, outCap: nat, left: seq<PeerRec>, e: End)
    requires c.Laws() && Before(c, s, n, left, e)
    ensures var o := RecvLoop(c, s, n, outCap);
      if Reaches(left, n.sends) then AtTheEnd(c, s, o, left, e)
      else Short(c, s, o, left, e, Consumed(left, n.sends), outCap)
    decreases |left|
  {
    hide RecvLoop, PeerAfter, AtTheEnd, Short, Before;
    if left == [] {
      EndRead(c, s, n, outCap, e);
    } else {
      var st := FirstStep(c, s, n, outCap, left, e);
      if st.More? {
        RecvTowardsEnd(c, st.s, st.n, outCap, left[1..], e);
        FirstSkipped(c, s, st.s, RecvLoop(c, st.s, st.n, outCap), left, e, Consumed(left, n.sends), outCap);
      } else {
        FirstStops(c, s, st.o, left, e, outCap);
      }
    }
  }

  lemma DirOfFirst(c: Suite, d: Dir, left: seq<PeerRec>)
    requires left != []
    ensures PeerDir(c, d, left) == PeerDir(c, PeerAfter(c, d, left[0]), left[1..])
    ensures DataOf(left) == (if left[0].Data? then [left[0].data] else []) + DataOf(left[1..])
  {}

  lemma FirstSkipped(c: Suite, s: Sess, s1: Sess, o: RecvOutcome, left: seq<PeerRec>, e: End, k: nat, outCap: nat)
    requires left != [] && left[0].PostHandshake? && s1.Like(s) && s1.r == PeerAfter(c, s.r, left[0])
    ensures AtTheEnd(c, s1, o, left[1..], e) ==> AtTheEnd(c, s, o, left, e)
    ensures k > 0 && Short(c, s1, o, left[1..], e, k - 1, outCap) ==> Short(c, s, o, left, e, k, outCap)
  {
    hide PeerAfter, Before;
    DirOfFirst(c, s.r, left);
    assert [] + DataOf(left[1..]) == DataOf(left[1..]);
    if 0 < k <= |left| {
      PeerDirSplit(c, s.r, left, k);
      assert left[1..][k - 1..] == left[k..];
      if k > 1 {
        assert left[1..][k - 2] == left[k - 1];
      }
    }
  }

  lemma FirstStops(c: Suite, s: Sess, o: RecvOutcome, left: seq<PeerRec>, e: End, outCap: nat)
    requires left != [] && o.s.Like(s) && o.ret != Closed && o.s.r == PeerAfter(c, s.r, left[0])
    requires Before(c, o.s, o.n, left[1..], e)
    requires o.ret == Success <==> left[0].Data? && |left[0].data| <= outCap
    requires o.data == if left[0].Data? && |left[0].data| <= outCap then left[0].data else []
    ensures Short(c, s, o, left, e, 1, outCap)
  {
    hide PeerAfter, Before;
    var p := left[0];
    assert left[..1] == [p] && [p][1..] == [];
    DirOfFirst(c, s.r, [p]);
    NoRecords(c, PeerAfter(c, s.r, p));
  }

  // ----- whole runs ------------------------------------------------------------------------

  /** Some receive call of the run reports the end of the stream. */
  predicate ToldClosed(c: Suite, w: World, calls: seq<Call>)
    decreases |calls|
  {
    calls != [] &&
      ((calls[0].DoRecv? && Recv(c, w.s, w.n, calls[0].outCap).ret == Closed)
       || ToldClosed(c, Apply(c, w, calls[0]), calls[1..]))
  }

  /** Behind the end, or behind its own closing, a session refuses every call and touches nothing. */
  lemma {:induction false} ClosedIsSilent(c: Suite, w: World, calls: seq<Call>)
    requires w.s.closed || !w.s.established
    ensures Delivered(c, w, calls) == [] && Submitted(c, w, calls) == [] && Run(c, w, calls).n == w.n
    ensures var end := Run(c, w, calls).s; end == w.s || end == w.s.Wiped()
    ensures !w.s.closed ==> !ToldClosed(c, w, calls)
    decreases |calls|
  {
    hide RecvLoop;
    if calls != [] {
      ClosedIsSilent(c, Apply(c, w, calls[0]), calls[1..]);
    }
  }

  lemma SendKeepsBefore(c: Suite, s: Sess, n: Net, data: bytes, left: seq<PeerRec>, e: End)
    requires Before(c, s, n, left, e)
    ensures var o := Send(c, s, n, data); Before(c, o.s, o.n, left, e) && o.s.r == s.r
  {
    hide End.Wire, End.Fits, AllFit;
  }

  /** One receive call of a run, when the buffer holds every datum that is left. */
  lemma RecvRoomy(c: Suite, s: Sess, n: Net, outCap: nat, left: seq<PeerRec>, e: End) returns (k: nat, e1: End)
    requires c.Laws() && Before(c, s, n, left, e)
    requires forall j :: 0 <= j < |left| && left[j].Data? ==> |left[j].data| <= outCap
    ensures k <= |left|
    ensures var o := Recv(c, s, n, outCap);
      && DataOf(left[..k]) == (if o.ret == Success then [o.data] else [])
      && if o.s.closed then o.ret == Closed && e.Notice? && k == |left| && o.n.inp == e.tail
         else o.ret != Closed && Before(c, o.s, o.n, left[k..], e1) && (e1 == e || e1 == Cut([]))
  {
    hide RecvLoop, PeerDir, PeerStream, AllFit, DataOf;
    RecvTowardsEnd(c, s, n, outCap, left, e);
    k, e1 := Consumed(left, n.sends), e;
    if Reaches(left, n.sends) {
      k := |left|;
      assert left[..k] == left && left[k..] == [];
      if e.Cut? {
        e1 := Cut([]);
        NothingLeft(c, RecvLoop(c, s, n, outCap).s, RecvLoop(c, s, n, outCap).n);
      }
    } else {
      assert !DataTooLong(left, k, outCap);
    }
  }

  lemma NothingLeft(c: Suite, s: Sess, n: Net)
    requires s.established && !s.closed && n.inp == []
    ensures Before(c, s, n, [], Cut([]))
  {}

  /**
   * Over every run of calls, in any order: the session delivers the data of some first records, in
   * order, and it is told of the end only by a close_notify, behind the data of all records.
   */
  lemma {:induction false} RunToEnd(c: Suite, w: World, calls: seq<Call>, left: seq<PeerRec>, e: End) returns (k: nat)
    requires c.Laws() && Before(c, w.s, w.n, left, e) && RoomyCalls(calls, left)
    ensures k <= |left| && Delivered(c, w, calls) == DataOf(left[..k])
    ensures ToldClosed(c, w, calls) ==> e.Notice? && k == |left| && Run(c, w, calls).n.inp == e.tail
    decreases |calls|
  {
    hide Recv, Send, PeerDir, DataOf, Before;
    k := 0;
    NoRecords(c, w.s.r);
    assert left[..0] == [];
    if calls != [] {
      var next := Apply(c, w, calls[0]);
      match calls[0] {
        case DoSend(data) =>
          SendKeepsBefore(c, w.s, w.n, data, left, e);
          k := RunToEnd(c, next, calls[1..], left, e);
        case DoClose =>
          ClosedIsSilent(c, next, calls[1..]);
        case DoRecv(outCap) =>
          var k0, e1 := RecvRoomy(c, w.s, w.n, outCap, left, e);
          if next.s.closed {
            ClosedIsSilent(c, next, calls[1..]);
            k := k0;
          } else {
            var k1 := RunToEnd(c, next, calls[1..], left[k0..], e1);
            DataOfSplit(left, k0, k0 + k1);
            k := k0 + k1;
          }
      }
    }
  }

  // ----- the end is reached ----------------------------------------------------------------

  predicate Sendable(sends: seq<bool>, k: nat) {
    |sends| >= k && forall i :: 0 <= i < k ==> sends[i]
  }

  /** While replies can be sent, a receive call that does not get to the end consumes a record. */
  lemma {:induction false} SendsUsed(c: Suite, s: Sess, n: Net, outCap: nat, left: seq<PeerRec>, e: End)
    requires c.Laws() && Before(c, s, n, left, e) && Sendable(n.sends, |left|) && !Reaches(left, n.sends)
    ensures var k := Consumed(left, n.sends);
      0 < k <= |left| && Sendable(RecvLoop(c, s, n, outCap).n.sends, |left| - k)
    decreases |left|
  {
    hide RecvLoop, PeerAfter, Before;
    ConsumedBound(left, n.sends);
    var st := FirstStep(c, s, n, outCap, left, e);
    if st.More? {
      SendsUsed(c, st.s, st.n, outCap, left[1..], e);
    }
  }

  /** More receive calls than records are enough to be told of the end. */
  lemma {:induction false} EnoughReceives(c: Suite, w: World, calls: seq<Call>, left: seq<PeerRec>, e: End)
    requires c.Laws() && Before(c, w.s, w.n, left, e) && e.Notice? && Sendable(w.n.sends, |left|)
    requires |calls| > |left| && forall i :: 0 <= i < |calls| ==> calls[i].DoRecv?
    ensures ToldClosed(c, w, calls)
    decreases |left|
  {
    hide RecvLoop, Before, PeerDir, DataOf, Sendable;
    assert Recv(c, w.s, w.n, calls[0].outCap) == RecvLoop(c, w.s, w.n, calls[0].outCap) by {
      IsOpen(c, w.s, w.n, left, e);
    }
    RecvTowardsEnd(c, w.s, w.n, calls[0].outCap, left, e);
    if !Reaches(left, w.n.sends) {
      var k := Consumed(left, w.n.sends);
      SendsUsed(c, w.s, w.n, calls[0].outCap, left, e);
      EnoughReceives(c, Apply(c, w, calls[0]), calls[1..], left[k..], e);
    }
  }

  lemma IsOpen(c: Suite, s: Sess, n: Net, left: seq<PeerRec>, e: End)
    requires Before(c, s, n, left, e)
    ensures s.established && !s.closed
  {}

  // ----- a stream cut anywhere -------------------------------------------------------------

  /** The front of a record is not a record. */
  lemma FrontUnfinished(c: Suite, d: Dir, ctype: byte, content: bytes, pad: nat, stub: bytes, cap: nat)
    requires c.Laws() && |content| + pad <= MAX_PLAINTEXT && HEADER_SZ + |content| + 1 + pad + TAG_SZ <= cap
    requires stub < Sealed(c, d.key, d.iv, d.seqNo, ctype, content, pad)
    ensures Unfinished(stub, cap)
  {
    hide Sealed;
    var rec := Sealed(c, d.key, d.iv, d.seqNo, ctype, content, pad);
    SealedIn(c, d.key, d.iv, d.seqNo, ctype, content, pad, [], cap);
    assert rec + [] == rec;
    if |stub| >= HEADER_SZ {
      assert stub[3] == rec[3] && stub[4] == rec[4];
    }
  }

  /** What the peer has put on the wire: its records, and its close_notify if it has closed. */
  function WireOf(c: Suite, d: Dir, ps: seq<PeerRec>, closes: bool): bytes {
    PeerStream(c, d, ps) + if closes then Notice([1, 0], 0, []).Wire(c, PeerDir(c, d, ps)) else []
  }

  /** Any front of it is some whole records and an end, which is the close_notify only if nothing is cut. */
  lemma {:induction false} CutAnywhere(c: Suite, d: Dir, ps: seq<PeerRec>, closes: bool, inp: bytes, cap: nat)
    returns (j: nat, e: End)
    requires c.Laws() && AllFit(ps, cap) && SEND_OVERHEAD + 2 <= cap && inp <= WireOf(c, d, ps, closes)
    ensures j <= |ps| && e.Fits(cap) && inp == PeerStream(c, d, ps[..j]) + e.Wire(c, PeerDir(c, d, ps[..j]))
    ensures e.Notice? <==> closes && inp == WireOf(c, d, ps, closes)
    ensures e.Notice? ==> j == |ps| && e.tail == []
    decreases |ps|
  {
    hide Sealed, PeerAfter, Unfinished;
    j, e := 0, Cut(inp);
    NothingSent(c, d, inp);
    assert ps[..0] == [];
    if ps == [] {
      assert [] + inp == inp;
      if !closes {
        EmptyUnfinished(cap);
      } else if inp == WireOf(c, d, ps, closes) {
        e := Notice([1, 0], 0, []);
      } else {
        assert Sealed(c, d.key, d.iv, d.seqNo, REC_ALERT, [1, 0], 0) + [] == WireOf(c, d, ps, closes);
        FrontUnfinished(c, d, REC_ALERT, [1, 0], 0, inp, cap);
      }
    } else {
      var first, d1 := PeerBytes(c, d, ps[0]), PeerAfter(c, d, ps[0]);
      WireOfFirst(c, d, ps, closes);
      if |inp| < |first| {
        assert inp < first;
        FrontUnfinished(c, d, ps[0].Type(), ps[0].Content(), ps[0].pad, inp, cap);
      } else {
        assert inp[..|first|] == first && inp == first + inp[|first|..];
        assert inp[|first|..] <= WireOf(c, d1, ps[1..], closes);
        j, e := CutAnywhere(c, d1, ps[1..], closes, inp[|first|..], cap);
        assert ps[..j + 1][1..] == ps[1..][..j];
        Join(first, PeerStream(c, d1, ps[1..][..j]), e.Wire(c, PeerDir(c, d1, ps[1..][..j])));
        j := j + 1;
      }
    }
  }

  lemma NothingSent(c: Suite, d: Dir, inp: bytes)
    ensures PeerStream(c, d, []) == [] && PeerDir(c, d, []) == d && [] + inp == inp
  {}

  lemma EmptyUnfinished(cap: nat)
    ensures Unfinished([], cap)
  {}

  lemma WireOfFirst(c: Suite, d: Dir, ps: seq<PeerRec>, closes: bool)
    requires ps != []
    ensures WireOf(c, d, ps, closes) == PeerBytes(c, d, ps[0]) + WireOf(c, PeerAfter(c, d, ps[0]), ps[1..], closes)
  {
    hide PeerBytes, PeerAfter, Sealed;
  }

  // ----- two sessions ----------------------------------------------------------------------

  /** The index of the first closing call, or the number of calls. */
  function FirstClose(calls: seq<Call>): (i: nat)
    ensures i <= |calls| && (i < |calls| ==> calls[i].DoClose?)
    ensures forall j :: 0 <= j < i ==> !calls[j].DoClose?
  {
    if calls == [] || calls[0].DoClose? then 0 else 1 + FirstClose(calls[1..])
  }

  /** The session as it is when it comes to be closed, or at the end of the run. */
  function BeforeClose(c: Suite, a: World, calls: seq<Call>): World { Run(c, a, calls[..FirstClose(calls)]) }

  /** It is closed by a call while it is still open: then it sends a close_notify. */
  predicate Notifies(c: Suite, a: World, calls: seq<Call>) {
    FirstClose(calls) < |calls| && !BeforeClose(c, a, calls).s.closed
  }

  lemma {:induction false} RunSplit(c: Suite, w: World, calls: seq<Call>, i: nat)
    requires i <= |calls|
    ensures var mid := Run(c, w, calls[..i]);
      && Run(c, w, calls) == Run(c, mid, calls[i..])
      && Submitted(c, w, calls) == Submitted(c, w, calls[..i]) + Submitted(c, mid, calls[i..])
    decreases i
  {
    hide Apply, Send;
    if i == 0 {
      assert calls[..0] == [] && calls[0..] == calls;
    } else {
      assert calls[..i][1..] == calls[1..][..i - 1] && calls[i..] == calls[1..][i - 1..];
      RunSplit(c, Apply(c, w, calls[0]), calls[1..], i - 1);
    }
  }

  /** What a session that is closed at some point, or never, has put on the wire by then. */
  lemma WholeWire(c: Suite, a: World, calls: seq<Call>)
    requires c.Laws() && Fresh(a.s) && a.n.out == [] && SendsHeld(Run(c, a, calls).s.log, a.n.sends)
    ensures var ps := Recs(BeforeClose(c, a, calls).s.log);
      && Run(c, a, calls).n.out == WireOf(c, a.s.w, ps, Notifies(c, a, calls))
      && DataOf(ps) == Submitted(c, a, calls)
  {
    hide Run, Submitted, PeerStream, PeerDir, DataOf, Sealed, Nonce, Ordinary;
    var i, w := FirstClose(calls), BeforeClose(c, a, calls);
    Idle(c, a);
    RunKeepsStreaming(c, a.s.w, a.n.sends, [], a, calls[..i]);
    assert [] + Submitted(c, a, calls[..i]) == Submitted(c, a, calls[..i]);
    RunSplit(c, a, calls, i);
    if i == |calls| {
      NoCalls(c, w);
      assert calls[i..] == [];
    } else {
      ClosingCall(c, w, calls[i..]);
    }
  }

  lemma NoCalls(c: Suite, w: World)
    ensures Run(c, w, []) == w && Submitted(c, w, []) == []
  {}

  /** Closing, and whatever is called behind it. */
  lemma ClosingCall(c: Suite, w: World, calls: seq<Call>)
    requires calls != [] && calls[0].DoClose?
    ensures var end := Run(c, w, calls); var o := Close(c, w.s, w.n);
      end.n == o.n && end.s.log == o.s.log && Submitted(c, w, calls) == []
  {
    var next := Apply(c, w, calls[0]);
    ClosedIsSilent(c, next, calls[1..]);
  }

  /**
   * `b` reads some front of what `a` puts on the wire: the channel may be cut at any octet. Both make
   * any calls, closing calls too; no send of `a` fails, and what `a` seals fits the buffers of `b`.
   */
  ghost predicate FedUntilCut(c: Suite, a: World, aCalls: seq<Call>, b: World, bCalls: seq<Call>) {
    var ps := Recs(BeforeClose(c, a, aCalls).s.log);
    && a.n.out == [] && SendsHeld(Run(c, a, aCalls).s.log, a.n.sends) && b.n.inp <= Run(c, a, aCalls).n.out
    && AllFit(ps, b.s.scratchLen) && SEND_OVERHEAD + 2 <= b.s.scratchLen && RoomyCalls(bCalls, ps)
  }

  /** `b` has been told of the end only if `a` has closed, nothing was cut, and all data is delivered. */
  ghost predicate NotTruncated(c: Suite, a: World, aCalls: seq<Call>, b: World, bCalls: seq<Call>) {
    && Delivered(c, b, bCalls) <= Submitted(c, a, aCalls)
    && (ToldClosed(c, b, bCalls) ==>
      && Notifies(c, a, aCalls) && b.n.inp == Run(c, a, aCalls).n.out
      && Delivered(c, b, bCalls) == Submitted(c, a, aCalls) && Run(c, b, bCalls).n.inp == [])
  }

  lemma FrontToRead(c: Suite, a: World, aCalls: seq<Call>, b: World, bCalls: seq<Call>) returns (j: nat, e: End)
    requires c.Laws() && Matching(a.s, b.s) && FedUntilCut(c, a, aCalls, b, bCalls)
    ensures var ps := Recs(BeforeClose(c, a, aCalls).s.log);
      && j <= |ps| && Before(c, b.s, b.n, ps[..j], e) && RoomyCalls(bCalls, ps[..j])
      && DataOf(ps[..j]) <= DataOf(ps) == Submitted(c, a, aCalls)
      && (e.Notice? <==> Notifies(c, a, aCalls) && b.n.inp == Run(c, a, aCalls).n.out)
      && (e.Notice? ==> j == |ps| && e.tail == [])
  {
    hide Run, BeforeClose, Notifies, PeerStream, PeerDir, DataOf, Submitted, WireOf, End.Wire, End.Fits;
    var ps := Recs(BeforeClose(c, a, aCalls).s.log);
    WholeWire(c, a, aCalls);
    j, e := CutAnywhere(c, a.s.w, ps, Notifies(c, a, aCalls), b.n.inp, b.s.scratchLen);
    DataOfSplit(ps, j, |ps|);
    assert ps[..|ps|] == ps;
  }

  /**
   * No truncation. Wherever the channel is cut, `b` delivers a prefix of what was submitted to `a`, in
   * order; and if it is told of the end of the stream, then `a` has closed and `b` has delivered
   * everything. An end that is not announced is an error and never looks like a complete stream.
   */
  lemma NoTruncation(c: Suite, a: World, aCalls: seq<Call>, b: World, bCalls: seq<Call>)
    requires c.Laws() && Matching(a.s, b.s) && FedUntilCut(c, a, aCalls, b, bCalls)
    ensures NotTruncated(c, a, aCalls, b, bCalls)
  {
    hide Run, BeforeClose, Notifies, DataOf, Submitted, Delivered, ToldClosed, Before, FedUntilCut;
    var ps := Recs(BeforeClose(c, a, aCalls).s.log);
    var j, e := FrontToRead(c, a, aCalls, b, bCalls);
    var k := RunToEnd(c, b, bCalls, ps[..j], e);
    DataOfSplit(ps[..j], k, j);
    assert ps[..j][..j] == ps[..j] && ps[..|ps|] == ps;
  }

  /**
   * The end is announced exactly when it is there: with more receive calls than records, and replies
   * that can be sent, `b` is told of the end if and only if `a` has closed and nothing was cut.
   */
  lemma ToldExactly(c: Suite, a: World, aCalls: seq<Call>, b: World, bCalls: seq<Call>)
    requires c.Laws() && Matching(a.s, b.s) && FedUntilCut(c, a, aCalls, b, bCalls)
    requires var n := |BeforeClose(c, a, aCalls).s.log|;
      Sendable(b.n.sends, n) && |bCalls| > n && forall i :: 0 <= i < |bCalls| ==> bCalls[i].DoRecv?
    ensures ToldClosed(c, b, bCalls) <==> Notifies(c, a, aCalls) && b.n.inp == Run(c, a, aCalls).n.out
  {
    hide Run, BeforeClose, Notifies, DataOf, Submitted, Delivered, ToldClosed, Before, FedUntilCut;
    var ps := Recs(BeforeClose(c, a, aCalls).s.log);
    NoTruncation(c, a, aCalls, b, bCalls);
    var j, e := FrontToRead(c, a, aCalls, b, bCalls);
    if e.Notice? {
      EnoughReceives(c, b, bCalls, ps[..j], e);
    }
  }

  // ----- behind a handshake ----------------------------------------------------------------

  /** Sessions that an honest PSK handshake leaves are not truncated unnoticed, in either direction. */
  lemma PskNoTruncation(c: Suite, p: Psk.Pair, toClient: bytes, toServer: bytes, cs: seq<bool>, ss: seq<bool>,
                        a: World, aCalls: seq<Call>, b: World, bCalls: seq<Call>, fromClient: bool)
    requires c.Laws() && p.Honest() && AllSent(cs) && AllSent(ss) && Psk.Joined(c, p, toClient, toServer, cs, ss)
    requires Facing(ClientRun(c, p.client, Net(toClient, [], cs)), p.client.scratchLen,
                    ServerRun(c, p.server, Net(toServer, [], ss)), p.server.scratchLen, a.s, b.s, fromClient)
    requires FedUntilCut(c, a, aCalls, b, bCalls)
    ensures NotTruncated(c, a, aCalls, b, bCalls)
  {
    hide ClientRun, ServerRun, FedUntilCut, NotTruncated, Facing;
    PskSessionsMatch(c, p, toClient, toServer, cs, ss, a.s, b.s, fromClient);
    NoTruncation(c, a, aCalls, b, bCalls);
  }

  /** Nor are those of an honest certificate handshake. */
  lemma CertNoTruncation(c: Suite, p: Cert.Pair, toClient: bytes, toServer: bytes, cs: seq<bool>, ss: seq<bool>,
                         a: World, aCalls: seq<Call>, b: World, bCalls: seq<Call>, fromClient: bool)
    requires c.Laws() && p.Honest(c) && p.Fits(c) && AllSent(cs) && AllSent(ss)
    requires Cert.Joined(c, p, toClient, toServer, cs, ss)
    requires Facing(CC.ClientRun(c, p.client, Net(toClient, [], cs)), p.client.scratchLen,
                    CS.ServerRun(c, p.server, Net(toServer, [], ss)), p.server.scratchLen, a.s, b.s, fromClient)
    requires FedUntilCut(c, a, aCalls, b, bCalls)
    ensures NotTruncated(c, a, aCalls, b, bCalls)
  {
    hide CC.ClientRun, CS.ServerRun, FedUntilCut, NotTruncated, Facing;
    CertSessionsMatch(c, p, toClient, toServer, cs, ss, a.s, b.s, fromClient);
    NoTruncation(c, a, aCalls, b, bCalls);
  }
}
