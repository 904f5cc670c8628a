/** RFC 8446 section 5.3: no two records of a session are sealed with the same key and nonce. */
module NonceUniqueness {
  import opened Bytes
  import opened Crypto
  import opened KeySchedule
  import opened Transport
  import opened Record
  import opened SessionSpec
  import opened SessionRuns

  /** The write direction after `g` updates. */
  function Generation(c: Suite, d: Dir, g: nat): Dir {
    if g == 0 then d else Rekeyed(c, Generation(c, d, g - 1))
  }

  ghost predicate Follows(a: Seal, b: Seal) {
    || (b.gen == a.gen && b.seqNo == (a.seqNo + 1) % TWO64)
    || (b.gen == a.gen + 1 && b.seqNo == 0)
  }

  // The log counts up within a generation and starts again at zero in the next.
  ghost predicate Chained(log: seq<Seal>) {
    forall i :: 0 < i < |log| ==> FollowsAt(log, i)
  }

  ghost predicate FollowsAt(log: seq<Seal>, i: int)
    requires 0 < i < |log|
  {
    Follows(log[i - 1], log[i])
  }

  ghost predicate Genuine(c: Suite, d0: Dir, e: Seal) {
    e.seqNo < TWO64 && e.nonce == Nonce(Generation(c, d0, e.gen).iv, e.seqNo)
  }

  ghost predicate AllGenuine(c: Suite, d0: Dir, log: seq<Seal>) {
    forall i :: 0 <= i < |log| ==> Genuine(c, d0, log[i])
  }

  /** What every call keeps: the log is chained, and the next seal would continue the chain. */
  ghost predicate Inv(c: Suite, d0: Dir, s: Sess) {
    && Chained(s.log) && AllGenuine(c, d0, s.log)
    && (s.established ==>
         && s.w == Generation(c, d0, s.gen).(seqNo := s.w.seqNo)
         && s.w.seqNo < TWO64
         && (s.log != [] ==> Follows(s.log[|s.log| - 1], Seal(s.gen, s.w.seqNo, [], 0, []))))
  }

  lemma LoggedKeepsChain(c: Suite, d0: Dir, s: Sess, ctype: byte, content: bytes)
    requires Inv(c, d0, s) && s.established
    ensures var t := s.Logged(ctype, content);
      Chained(t.log) && AllGenuine(c, d0, t.log) && t.log != []
      && t.log[|t.log| - 1].gen == s.gen && t.log[|t.log| - 1].seqNo == s.w.seqNo
  {
    hide Nonce;
    var log := s.Logged(ctype, content).log;
    forall i | 0 < i < |log|
      ensures FollowsAt(log, i)
    {
      if i < |s.log| {
        assert FollowsAt(s.log, i);
      }
    }
  }

  lemma SendKeyUpdateKeeps(c: Suite, d0: Dir, s: Sess, n: Net)
    requires Inv(c, d0, s) && s.established
    ensures Inv(c, d0, SendKeyUpdate(c, s, n).s)
  {
    hide Nonce, Sealed;
    LoggedKeepsChain(c, d0, s, REC_HANDSHAKE, KU_NOT_REQUESTED);
    var s1 := s.Emitted(REC_HANDSHAKE, KU_NOT_REQUESTED);
    assert Inv(c, d0, s1);
    if n.CanSend() {
      assert s1.w == Generation(c, d0, s.gen).(seqNo := s1.w.seqNo);
      RekeyedIgnoresCounter(c, Generation(c, d0, s.gen), s1.w.seqNo);
      assert Rekeyed(c, s1.w) == Generation(c, d0, s.gen + 1);
    }
  }

  lemma RekeyedIgnoresCounter(c: Suite, d: Dir, k: nat)
    ensures Rekeyed(c, d.(seqNo := k)) == Rekeyed(c, d)
  {}

  lemma {:induction false} PostHsKeeps(c: Suite, d0: Dir, s: Sess, n: Net, msg: bytes)
    requires Inv(c, d0, s) && s.established
    ensures Inv(c, d0, PostHs(c, s, n, msg).s)
    decreases |msg|
  {
    if msg == [] {
    } else if msg[0] == HS_NEW_SESSION_TICKET {
      if |msg| >= 4 && |msg| >= 4 + Num24(msg, 1) {
        PostHsKeeps(c, d0, s, n, msg[4 + Num24(msg, 1)..]);
      }
    } else if msg[0] == HS_KEY_UPDATE && |msg| >= 5 && Num24(msg, 1) == 1 && msg[4] <= 1 {
      var s1 := PeerRekeyed(c, s);
      if msg[4] == 1 {
        SendKeyUpdateKeeps(c, d0, s1, n);
        var o := SendKeyUpdate(c, s1, n);
        if o.ret == Success {
          PostHsKeeps(c, d0, o.s, o.n, msg[5..]);
        }
      } else {
        PostHsKeeps(c, d0, s1, n, msg[5..]);
      }
    }
  }

  lemma RecvStepKeeps(c: Suite, d0: Dir, s: Sess, n: Net, outCap: nat)
    requires Inv(c, d0, s) && s.established
    ensures var st := RecvStep(c, s, n, outCap);
      Inv(c, d0, if st.More? then st.s else st.o.s)
  {
    hide Nonce, Unsealed, RecordIn, Dispatch;
    var got := RecordIn(n.inp, s.scratchLen);
    if got.status == Success && got.ctype != REC_CCS {
      var o := Unsealed(c, s.r.key, s.r.iv, s.r.seqNo, got.rec);
      if o.status == Success {
        DispatchKeeps(c, d0, s.(r := s.r.Advance()), n.(inp := got.rest), outCap, o);
      }
    }
  }

  lemma DispatchKeeps(c: Suite, d0: Dir, s: Sess, n: Net, outCap: nat, o: Opened)
    requires Inv(c, d0, s) && s.established
    ensures var st := Dispatch(c, s, n, outCap, o);
      Inv(c, d0, if st.More? then st.s else st.o.s)
  {
    if o.ctype == REC_HANDSHAKE {
      PostHsKeeps(c, d0, s, n, o.content);
    }
  }

  lemma {:induction false} RecvLoopKeeps(c: Suite, d0: Dir, s: Sess, n: Net, outCap: nat)
    requires Inv(c, d0, s) && s.established
    ensures Inv(c, d0, RecvLoop(c, s, n, outCap).s)
    decreases |n.inp|
  {
    RecvStepKeeps(c, d0, s, n, outCap);
    var st := RecvStep(c, s, n, outCap);
    if st.More? {
      RecvLoopKeeps(c, d0, st.s, st.n, outCap);
    }
  }

  lemma ApplyKeeps(c: Suite, d0: Dir, w: World, call: Call)
    requires Inv(c, d0, w.s)
    ensures Inv(c, d0, Apply(c, w, call).s)
  {
    hide Nonce, Sealed;
    if w.s.established {
      match call
      case DoSend(data) => LoggedKeepsChain(c, d0, w.s, REC_APPDATA, data);
      case DoRecv(cap) => RecvLoopKeeps(c, d0, w.s, w.n, cap);
      case DoClose => LoggedKeepsChain(c, d0, w.s, REC_ALERT, [1, 0]);
    }
  }

  lemma {:induction false} RunKeeps(c: Suite, d0: Dir, w: World, calls: seq<Call>)
    requires Inv(c, d0, w.s)
    ensures Inv(c, d0, Run(c, w, calls).s)
    decreases |calls|
  {
    if calls != [] {
      ApplyKeeps(c, d0, w, calls[0]);
      RunKeeps(c, d0, Apply(c, w, calls[0]), calls[1..]);
    }
  }

  // ----- counting --------------------------------------------------------------------------

  function Count(log: seq<Seal>, g: nat): nat {
    if log == [] then 0
    else Count(log[..|log| - 1], g) + if log[|log| - 1].gen == g then 1 else 0
  }

  /** Two seals that share both the key generation and the nonce. */
  ghost predicate Repeats(a: Seal, b: Seal) {
    a.gen == b.gen && a.nonce == b.nonce
  }

  ghost predicate NoReuse(log: seq<Seal>) {
    forall i, j :: 0 <= i < j < |log| ==> !Repeats(log[i], log[j])
  }

  lemma {:induction false} GenerationsGrow(log: seq<Seal>, i: nat, j: nat)
    requires Chained(log) && i <= j < |log|
    ensures log[i].gen <= log[j].gen
    decreases j - i
  {
    if i < j {
      GenerationsGrow(log, i, j - 1);
      assert FollowsAt(log, j);
    }
  }

  lemma ModSucc(a: nat, k: nat)
    ensures ((a + k) % TWO64 + 1) % TWO64 == (a + k + 1) % TWO64
  {}

  /** Within a generation the counter is the distance, modulo 2^64. */
  lemma {:induction false} CounterIsDistance(log: seq<Seal>, i: nat, j: nat)
    requires Chained(log) && i <= j < |log| && log[i].gen == log[j].gen && log[i].seqNo < TWO64
    ensures log[j].seqNo == (log[i].seqNo + (j - i)) % TWO64
    decreases j - i
  {
    if i < j {
      GenerationsGrow(log, i, j - 1);
      GenerationsGrow(log, j - 1, j);
      CounterIsDistance(log, i, j - 1);
      assert FollowsAt(log, j);
      ModSucc(log[i].seqNo, j - 1 - i);
    }
  }

  lemma ChainedPrefix(log: seq<Seal>)
    requires Chained(log) && log != []
    ensures Chained(log[..|log| - 1])
  {
    var front := log[..|log| - 1];
    forall i | 0 < i < |front|
      ensures FollowsAt(front, i)
    {
      assert FollowsAt(log, i);
    }
  }

  lemma {:induction false} CountSpan(log: seq<Seal>, i: nat, j: nat)
    requires Chained(log) && i <= j < |log| && log[i].gen == log[j].gen
    ensures Count(log, log[i].gen) >= j - i + 1
    decreases |log|
  {
    var g, last := log[i].gen, |log| - 1;
    ChainedPrefix(log);
    if j < last {
      CountSpan(log[..last], i, j);
    } else if i < j {
      GenerationsGrow(log, i, j - 1);
      GenerationsGrow(log, j - 1, j);
      CountSpan(log[..last], i, j - 1);
    }
  }

  /** The entries of a generation are consecutive: the last one, and the first one `Count` before it. */
  lemma {:induction false} SpanOfCount(log: seq<Seal>, g: nat) returns (last: nat)
    requires Chained(log) && Count(log, g) > 0
    ensures Count(log, g) - 1 <= last < |log|
    ensures log[last].gen == g && log[last - (Count(log, g) - 1)].gen == g
    ensures forall k :: last < k < |log| ==> log[k].gen != g
    decreases |log|
  {
    var n := |log| - 1;
    var front := log[..n];
    ChainedPrefix(log);
    if log[n].gen != g {
      last := SpanOfCount(front, g);
    } else {
      last := n;
      if Count(front, g) > 0 {
        var before := SpanOfCount(front, g);
        GenerationsGrow(log, before, n - 1);
        GenerationsGrow(log, n - 1, n);
        assert front[n - 1].gen == g;
        assert before == n - 1;
      }
    }
  }

  lemma OneTurnApartRepeats(c: Suite, d0: Dir, log: seq<Seal>, first: nat, last: nat)
    requires Chained(log) && AllGenuine(c, d0, log)
    requires first + TWO64 <= last < |log| && log[first].gen == log[last].gen
    ensures Repeats(log[first], log[first + TWO64])
  {
    hide Nonce;
    var next := first + TWO64;
    GenerationsGrow(log, first, next);
    GenerationsGrow(log, next, last);
    assert Genuine(c, d0, log[first]) && Genuine(c, d0, log[next]);
    CounterIsDistance(log, first, next);
    AddWholeTurn(log[first].seqNo, next - first);
  }

  lemma OverflowReuses(c: Suite, d0: Dir, log: seq<Seal>, g: nat)
    requires Chained(log) && AllGenuine(c, d0, log)
    requires Count(log, g) > TWO64
    ensures !NoReuse(log)
  {
    hide Nonce, Generation, Genuine;
    var last := SpanOfCount(log, g);
    OneTurnApartRepeats(c, d0, log, last - (Count(log, g) - 1), last);
  }

  lemma RepeatsShareCounter(c: Suite, d0: Dir, a: Seal, b: Seal)
    requires c.Laws() && |d0.iv| == IV_SZ
    requires Genuine(c, d0, a) && Genuine(c, d0, b) && Repeats(a, b)
    ensures a.seqNo == b.seqNo
  {
    hide Nonce;
    GenerationIv(c, d0, a.gen);
    NonceInjective(Generation(c, d0, a.gen).iv, a.seqNo, b.seqNo);
  }

  lemma ReuseOverflows(c: Suite, d0: Dir, log: seq<Seal>, i: nat, j: nat)
    requires c.Laws() && |d0.iv| == IV_SZ
    requires Chained(log) && AllGenuine(c, d0, log)
    requires i < j < |log| && Repeats(log[i], log[j])
    ensures Count(log, log[i].gen) > TWO64
  {
    hide Nonce, Generation;
    var a, b := log[i], log[j];
    assert Genuine(c, d0, a) && Genuine(c, d0, b);
    RepeatsShareCounter(c, d0, a, b);
    CounterIsDistance(log, i, j);
    WholeTurns(a.seqNo, j - i);
    CountSpan(log, i, j);
  }

  /** A log with the invariant repeats a nonce exactly when some generation sealed over 2^64 records. */
  lemma ReuseIffOverflow(c: Suite, d0: Dir, log: seq<Seal>)
    requires c.Laws() && |d0.iv| == IV_SZ
    requires Chained(log) && AllGenuine(c, d0, log)
    ensures NoReuse(log) <==> forall g: nat :: Count(log, g) <= TWO64
  {
    if !NoReuse(log) {
      var i: nat, j: nat :| i < j < |log| && Repeats(log[i], log[j]);
      ReuseOverflows(c, d0, log, i, j);
    }
    if g: nat :| Count(log, g) > TWO64 {
      OverflowReuses(c, d0, log, g);
    }
  }

  lemma GenerationIv(c: Suite, d0: Dir, g: nat)
    requires c.Laws() && |d0.iv| == IV_SZ
    ensures |Generation(c, d0, g).iv| == IV_SZ
  {}

  lemma WholeTurns(a: nat, k: nat)
    requires a < TWO64 && a == (a + k) % TWO64 && k > 0
    ensures k >= TWO64
  {}

  lemma AddWholeTurn(a: nat, k: nat)
    requires a < TWO64 && k == TWO64
    ensures (a + k) % TWO64 == a
  {}

  /**
   * Over every run of sends, receives and closes from a fresh session, failed sends and failed
   * key-update replies included, a (generation, nonce) pair is used twice if and only if some
   * generation sealed more than 2^64 records.
   */
  lemma NonceNeverReused(c: Suite, w: World, calls: seq<Call>)
    requires c.Laws() && Fresh(w.s)
    ensures var log := Run(c, w, calls).s.log;
      NoReuse(log) <==> forall g: nat :: Count(log, g) <= TWO64
  {
    RunKeeps(c, w.s.w, w, calls);
    ReuseIffOverflow(c, w.s.w, Run(c, w, calls).s.log);
  }
}
