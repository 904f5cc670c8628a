/**
 * The PSK client's flight loop over whole runs: what must have been received before it is done, and
 * when the division of the flight into records matters.
 */
module PskFlightRun {
  import opened Bytes
  import opened Crypto
  import opened KeySchedule
  import opened Record
  import opened Handshake
  import opened HandshakeKeys
  import opened ClientStart
  import opened PskClientSpec
  import opened FlightRun
  import EE = ServerHelloRoundTrip

  // ----- done only after the two messages --------------------------------------------------

  /** An EncryptedExtensions message with nothing in it that was not offered. */
  predicate EeOk(m: bytes) {
    IsMessage(m, HS_ENCRYPTED_EXT) && EE.EncExtVerdict(m[4..], false) == Success
  }

  /** `m` is what has been processed so far: nothing, or an acceptable EncryptedExtensions. */
  predicate Processed(tr: bytes, fl: Flight, m: bytes) {
    fl.Valid() && fl.acc[..fl.off] == m && fl.tr == tr + m && (if fl.gotEE then EeOk(m) else m == [])
  }

  /** What `Ended` means: an acceptable EncryptedExtensions, and a Finished over it. */
  ghost predicate FlightComplete(c: Suite, secret: bytes, tr: bytes, tr1: bytes, m: bytes) {
    EeOk(m) && tr1 == tr + m + FinishedMsg(c, secret, tr + m)
  }

  // What accepting one message establishes.
  lemma OnMessageIs(c: Suite, secret: bytes, fl: Flight, x: bytes)
    requires |x| >= 4 && Num24(x, 1) == |x| - 4
    ensures var r := OnMessage(c, secret, fl, x);
      && (r.Took? ==> !fl.gotEE && EeOk(x) && r.fl == fl.(tr := fl.tr + x, gotEE := true))
      && (r.Ended? ==> fl.gotEE && x == FinishedMsg(c, secret, fl.tr) && r.tr == fl.tr + x)
  {
    hide EE.EncExtVerdict, FinishedMac, FinishedMsg, Num24;
    if OnMessage(c, secret, fl, x).Ended? {
      FinishedIs(c, secret, fl.tr, x);
    }
  }

  lemma FrontGrows(tr: bytes, fl: Flight, m: bytes, end: nat)
    requires Processed(tr, fl, m) && fl.off <= end <= |fl.acc|
    ensures var x := fl.acc[fl.off..end];
      fl.acc[..end] == m + x && tr + m + x == tr + (m + x) && (m == [] ==> m + x == x)
  {
    hide EeOk;
    var x := fl.acc[fl.off..end];
    assert fl.acc[..end] == fl.acc[..fl.off] + x;
    Join(tr, m, x);
    if m == [] {
      assert m + x == x;
    }
  }

  lemma MessageKeeps(c: Suite, secret: bytes, tr: bytes, fl: Flight, m: bytes, end: nat)
    requires Processed(tr, fl, m) && fl.off + 4 <= end <= |fl.acc| && end == fl.off + 4 + Num24(fl.acc, fl.off + 1)
    ensures var x := fl.acc[fl.off..end]; var r := OnMessage(c, secret, fl.(off := end), x);
      && (r.Took? ==> Processed(tr, r.fl, m + x) && r.fl.acc == fl.acc && r.fl.rd == fl.rd)
      && (r.Ended? ==> FlightComplete(c, secret, tr, r.tr, m) && r.tr == tr + fl.acc[..end])
  {
    hide OnMessage, EeOk, FinishedMsg, Num24;
    var x := fl.acc[fl.off..end];
    MessageFramed(fl.acc, fl.off, end);
    OnMessageIs(c, secret, fl.(off := end), x);
    FrontGrows(tr, fl, m, end);
  }

  lemma NextKeeps(c: Suite, secret: bytes, tr: bytes, fl: Flight, m: bytes) returns (m1: bytes, p: nat)
    requires Processed(tr, fl, m)
    ensures var r := NextMessage(c, secret, fl);
      && (r.Took? ==> Processed(tr, r.fl, m1) && r.fl.acc == fl.acc && r.fl.rd == fl.rd)
      && (r.Ended? ==> FlightComplete(c, secret, tr, r.tr, m) && p <= |fl.acc| && r.tr == tr + fl.acc[..p])
  {
    hide OnMessage, FlightComplete, EeOk, Num24;
    m1, p := m, 0;
    if |fl.acc| - fl.off >= 4 {
      var end := fl.off + 4 + Num24(fl.acc, fl.off + 1);
      if end <= |fl.acc| {
        MessageKeeps(c, secret, tr, fl, m, end);
        m1, p := m + fl.acc[fl.off..end], end;
      }
    }
  }

  lemma {:induction false} MessagesKeep(c: Suite, secret: bytes, tr: bytes, fl: Flight, m: bytes)
    returns (m1: bytes, p: nat)
    requires Processed(tr, fl, m)
    ensures var r := Messages(c, secret, fl);
      && (r.Took? ==> Processed(tr, r.fl, m1) && r.fl.acc == fl.acc && r.fl.rd == fl.rd)
      && (r.Ended? ==> FlightComplete(c, secret, tr, r.tr, m1) && p <= |fl.acc| && r.tr == tr + fl.acc[..p])
    decreases |fl.acc| - fl.off
  {
    hide NextMessage, FlightComplete;
    m1, p := NextKeeps(c, secret, tr, fl, m);
    match NextMessage(c, secret, fl)
    case Took(fl1) => m1, p := MessagesKeep(c, secret, tr, fl1, m1);
    case _ => m1 := m;
  }

  lemma MoreInput(tr: bytes, fl: Flight, m: bytes, more: bytes, rd: Dir)
    requires Processed(tr, fl, m)
    ensures Processed(tr, fl.(acc := fl.acc + more, rd := rd), m)
  {
    hide EeOk;
    assert (fl.acc + more)[..fl.off] == fl.acc[..fl.off];
  }

  lemma {:induction false} LoopComplete(c: Suite, secret: bytes, cap: nat, tr: bytes, fl: Flight, inp: bytes, m: bytes)
    returns (m1: bytes, n: nat, p: nat)
    requires Processed(tr, fl, m) && FlightLoop(c, secret, cap, fl, inp).Done?
    ensures var e := FlightLoop(c, secret, cap, fl, inp);
      FlightComplete(c, secret, tr, e.tr, m1) && TakenFrom(c, cap, tr, fl.acc, fl.rd, inp, e, n, p)
    decreases |inp|
  {
    hide EeOk, FlightComplete, Messages, NextRecord, Unsealed, TakenFrom;
    var got := NextRecord(inp, cap);
    var o := Unsealed(c, fl.rd.key, fl.rd.iv, fl.rd.seqNo, got.rec);
    var fl0 := fl.(acc := fl.acc + o.content, rd := fl.rd.Advance());
    MoreInput(tr, fl, m, o.content, fl.rd.Advance());
    m1, p := MessagesKeep(c, secret, tr, fl0, m);
    match FlightRecord(c, secret, cap, fl, inp)
    case Onward(fl1, rest) =>
      m1, n, p := LoopComplete(c, secret, cap, tr, fl1, rest, m1);
      TakenMore(c, cap, tr, fl.acc, fl.rd, inp, FlightLoop(c, secret, cap, fl, inp), n, p);
      n := n + 1;
    case Over(e) =>
      TakenAll(c, cap, tr, fl0.acc, fl0.rd, got.rest, e, p);
      TakenMore(c, cap, tr, fl.acc, fl.rd, inp, e, 0, p);
      n := 1;
  }

  /**
   * Whatever it receives, the PSK client is done only after exactly an acceptable
   * EncryptedExtensions and a Finished over the transcript through it, and these two are the front
   * of what the consumed records carry.
   */
  lemma DoneMeansComplete(c: Suite, cap: nat, keys: HsKeys, tr: bytes, inp: bytes)
    requires FlightLoop(c, keys.server.secret, cap, Flight([], 0, keys.server, tr, false), inp).Done?
    ensures var e := FlightLoop(c, keys.server.secret, cap, Flight([], 0, keys.server, tr, false), inp);
      && (exists m: bytes :: FlightComplete(c, keys.server.secret, tr, e.tr, m))
      && (exists n: nat, p: nat :: TakenFrom(c, cap, tr, [], keys.server, inp, e, n, p))
  {
    hide FlightLoop, FlightComplete, TakenFrom, EeOk;
    assert tr + [] == tr;
    var m, n, p := LoopComplete(c, keys.server.secret, cap, tr, Flight([], 0, keys.server, tr, false), inp, []);
  }

  // ----- any division into records ---------------------------------------------------------

  ghost predicate SameReading(c: Suite, secret: bytes, less: Reading<Flight>, more: bytes, r: Reading<Flight>) {
    match less
    case Took(fl1) => fl1.Valid() && r == Messages(c, secret, fl1.(acc := fl1.acc + more))
    case Ended(tr) => r == Ended(tr)
    case Refused(status) => r == Refused(status)
    case Wait => false
  }

  lemma OnMessageOfMore(c: Suite, secret: bytes, fl: Flight, m: bytes, more: bytes)
    requires |m| >= 4
    ensures var r, r2 := OnMessage(c, secret, fl, m), OnMessage(c, secret, fl.(acc := fl.acc + more), m);
      r2 == if r.Took? then Took(r.fl.(acc := fl.acc + more)) else r
  {
    hide EE.EncExtVerdict, FinishedMac;
  }

  lemma NextOfMore(c: Suite, secret: bytes, fl: Flight, more: bytes)
    requires fl.Valid()
    ensures var r, r2 := NextMessage(c, secret, fl), NextMessage(c, secret, fl.(acc := fl.acc + more));
      match r
      case Wait => true
      case Took(fl1) => r2 == Took(fl1.(acc := fl1.acc + more))
      case Ended(tr) => r2 == Ended(tr)
      case Refused(status) => r2 == Refused(status)
  {
    hide OnMessage;
    var acc := fl.acc + more;
    if |fl.acc| - fl.off >= 4 {
      assert Num24(acc, fl.off + 1) == Num24(fl.acc, fl.off + 1);
      var end := fl.off + 4 + Num24(fl.acc, fl.off + 1);
      if end <= |fl.acc| {
        assert acc[fl.off..end] == fl.acc[fl.off..end];
        OnMessageOfMore(c, secret, fl.(off := end), fl.acc[fl.off..end], more);
      }
    }
  }

  /** Reading the accumulator in two goes gives what reading it at once gives. */
  lemma {:induction false} MessagesOfMore(c: Suite, secret: bytes, fl: Flight, more: bytes)
    requires fl.Valid()
    ensures SameReading(c, secret, Messages(c, secret, fl), more, Messages(c, secret, fl.(acc := fl.acc + more)))
    decreases |fl.acc| - fl.off
  {
    hide NextMessage;
    NextOfMore(c, secret, fl, more);
    match NextMessage(c, secret, fl)
    case Took(fl1) => MessagesOfMore(c, secret, fl1, more);
    case _ =>
  }

  ghost predicate SameButDir(r: Reading<Flight>, r2: Reading<Flight>, rd: Dir) {
    if r.Took? then r2 == Took(r.fl.(rd := rd)) else r2 == r
  }

  lemma {:induction false} MessagesIgnoreDir(c: Suite, secret: bytes, fl: Flight, rd: Dir)
    requires fl.Valid()
    ensures SameButDir(Messages(c, secret, fl), Messages(c, secret, fl.(rd := rd)), rd)
    decreases |fl.acc| - fl.off
  {
    hide NextMessage;
    NextIgnoresDir(c, secret, fl, rd);
    match NextMessage(c, secret, fl)
    case Took(fl1) => MessagesIgnoreDir(c, secret, fl1, rd);
    case _ =>
  }

  lemma NextIgnoresDir(c: Suite, secret: bytes, fl: Flight, rd: Dir)
    requires fl.Valid()
    ensures SameButDir(NextMessage(c, secret, fl), NextMessage(c, secret, fl.(rd := rd)), rd)
  {
    hide EE.EncExtVerdict, FinishedMac, Num24;
  }

  /** Behind `have` octets of the accumulator, a record with its type octet and its padding still fits. */
  predicate FitsBehind(p: Part, have: nat) { have + |p.content| + 1 + p.pad <= PLAIN_CAP }

  predicate AllFitBehind(ps: seq<Part>, have: nat, cap: nat)
    decreases |ps|
  {
    ps != [] ==> ps[0].Fits(cap) && FitsBehind(ps[0], have) && AllFitBehind(ps[1..], have + |ps[0].content|, cap)
  }

  /** The bound is on the record and not on what it carries: one that is padded too far is refused unread. */
  lemma OverlongRefused(c: Suite, secret: bytes, cap: nat, fl: Flight, p: Part, rest: bytes)
    requires c.Laws() && fl.Valid() && p.Fits(cap) && 6 <= cap && !FitsBehind(p, |fl.acc|)
    ensures FlightLoop(c, secret, cap, fl, p.Wire(c, fl.rd) + rest) == Bad(DecodeErr, rest)
  {
    hide Messages, NextRecord, Sealed, Unsealed, Part.Wire;
    PartRead(c, fl.rd, p, rest, cap);
    RecordSize(c, fl.rd, p, cap);
  }

  lemma RecordSize(c: Suite, d: Dir, p: Part, cap: nat)
    requires c.Laws() && p.Fits(cap)
    ensures |Sealed(c, d.key, d.iv, d.seqNo, REC_HANDSHAKE, p.content, p.pad)|
      == HEADER_SZ + |p.content| + 1 + p.pad + TAG_SZ
  {
    hide Sealed;
    SealedIn(c, d.key, d.iv, d.seqNo, REC_HANDSHAKE, p.content, p.pad, [], cap);
  }

  /** How the loop goes on from a reading of the accumulator. */
  function GoOn(c: Suite, secret: bytes, cap: nat, r: Reading<Flight>, rest: bytes): FlightEnd
    requires !r.Wait? && (r.Took? ==> r.fl.Valid())
  {
    match r
    case Took(fl1) => FlightLoop(c, secret, cap, fl1, rest)
    case Ended(tr) => Done(tr, rest)
    case Refused(status) => Bad(status, rest)
  }

  /** The first record of a division, when it fits: the loop goes on from what it carries. */
  lemma PartStep(c: Suite, secret: bytes, cap: nat, fl: Flight, p: Part, rest: bytes)
    requires c.Laws() && fl.Valid() && p.Fits(cap) && 6 <= cap && FitsBehind(p, |fl.acc|)
    ensures var r := Messages(c, secret, fl.(acc := fl.acc + p.content, rd := fl.rd.Advance()));
      FlightLoop(c, secret, cap, fl, p.Wire(c, fl.rd) + rest) == GoOn(c, secret, cap, r, rest)
  {
    hide Messages, NextRecord, Sealed, Unsealed, Part.Wire;
    PartRead(c, fl.rd, p, rest, cap);
    RecordSize(c, fl.rd, p, cap);
  }

  /**
   * If reading the whole flight at once would end it, with success or not, then so does every
   * division of it into records of which each, padding included, fits behind what precedes it.
   */
  lemma {:induction false} AnySplit(c: Suite, secret: bytes, cap: nat, fl: Flight, ps: seq<Part>, rest: bytes)
    returns (j: nat)
    requires c.Laws() && 6 <= cap && fl.Valid() && AllFitBehind(ps, |fl.acc|, cap) && ps != []
    requires !Messages(c, secret, fl.(acc := fl.acc + Contents(ps))).Took?
    ensures Settled(c, FlightLoop(c, secret, cap, fl, Wire(c, fl.rd, ps) + rest),
                    Messages(c, secret, fl.(acc := fl.acc + Contents(ps))), fl.rd, ps, j, rest)
    decreases |ps|
  {
    hide Messages, FlightLoop, Part.Wire, FitsBehind;
    var p, tail := ps[0], ps[1..];
    var after := Wire(c, fl.rd.Advance(), tail) + rest;
    assert Wire(c, fl.rd, ps) + rest == p.Wire(c, fl.rd) + after;
    PartStep(c, secret, cap, fl, p, after);
    var fl0 := fl.(acc := fl.acc + p.content, rd := fl.rd.Advance());
    var all := fl.(acc := fl.acc + Contents(ps));
    assert fl.acc + Contents(ps) == fl.acc + p.content + Contents(tail);
    MessagesIgnoreDir(c, secret, all, fl.rd.Advance());
    MessagesOfMore(c, secret, fl0, Contents(tail));
    j := 1;
    var r := Messages(c, secret, fl0);
    if r.Took? {
      KeepsAccAndDir(c, secret, fl0);
      NoPartsLeft(c, secret, fl0, r.fl, tail);
      var i := AnySplit(c, secret, cap, r.fl, tail, rest);
      j := i + 1;
      assert ps[j..] == tail[i..];
    }
  }

  lemma {:induction false} KeepsAccAndDir(c: Suite, secret: bytes, fl: Flight)
    requires fl.Valid() && Messages(c, secret, fl).Took?
    ensures var fl1 := Messages(c, secret, fl).fl; fl1.acc == fl.acc && fl1.rd == fl.rd
    ensures Messages(c, secret, Messages(c, secret, fl).fl) == Messages(c, secret, fl)
    decreases |fl.acc| - fl.off
  {
    hide EE.EncExtVerdict, FinishedMac, Num24;
    match NextMessage(c, secret, fl)
    case Took(fl1) => KeepsAccAndDir(c, secret, fl1);
    case _ =>
  }

  // Without further input a waiting reader goes on waiting.
  lemma NoPartsLeft(c: Suite, secret: bytes, fl0: Flight, fl1: Flight, tail: seq<Part>)
    requires fl0.Valid() && Messages(c, secret, fl0) == Took(fl1)
    ensures tail == [] ==> Messages(c, secret, fl1.(acc := fl1.acc + Contents(tail))).Took?
  {
    hide Messages;
    KeepsAccAndDir(c, secret, fl0);
    if tail == [] {
      assert fl1.acc + Contents(tail) == fl1.acc;
    }
  }

  // What the records behind the first one add to a reading of the accumulator.
  lemma ReadsOn(c: Suite, secret: bytes, fl: Flight, x: bytes, more: bytes)
    requires fl.Valid()
    ensures var r, r2 := Messages(c, secret, fl.(acc := fl.acc + x, rd := fl.rd.Advance())),
                         Messages(c, secret, fl.(acc := fl.acc + (x + more)));
      && (r2.Took? ==> r.Took?) && (r.Ended? ==> r2.Ended?) && (r.Refused? ==> r2.Refused?)
      && (r.Took? ==>
        && r.fl.acc == fl.acc + x && r.fl.rd == fl.rd.Advance()
        && var r1 := Messages(c, secret, r.fl.(acc := r.fl.acc + more));
           (r1.Took? <==> r2.Took?) && (r1.Ended? <==> r2.Ended?))
  {
    hide Messages;
    var fl0 := fl.(acc := fl.acc + x, rd := fl.rd.Advance());
    Join(fl.acc, x, more);
    MessagesIgnoreDir(c, secret, fl.(acc := fl.acc + (x + more)), fl.rd.Advance());
    MessagesOfMore(c, secret, fl0, more);
    if Messages(c, secret, fl0).Took? {
      KeepsAccAndDir(c, secret, fl0);
    }
  }

  /**
   * The condition is exact: a complete flight, divided into records none of which is superfluous, is
   * accepted if and only if each record, padding included, fits behind what precedes it.
   */
  lemma {:induction false} SplitExactly(c: Suite, secret: bytes, cap: nat, fl: Flight, ps: seq<Part>, rest: bytes)
    requires c.Laws() && 6 <= cap && fl.Valid() && ps != [] && forall i :: 0 <= i < |ps| ==> ps[i].Fits(cap)
    requires Messages(c, secret, fl.(acc := fl.acc + Contents(ps))).Ended?
    requires Messages(c, secret, fl.(acc := fl.acc + Contents(ps[..|ps| - 1]))).Took?
    ensures FlightLoop(c, secret, cap, fl, Wire(c, fl.rd, ps) + rest).Done? <==> AllFitBehind(ps, |fl.acc|, cap)
    decreases |ps|
  {
    hide Messages, FlightLoop, Part.Wire, Part.Fits, FitsBehind;
    var p, tail := ps[0], ps[1..];
    var after := Wire(c, fl.rd.Advance(), tail) + rest;
    assert Wire(c, fl.rd, ps) + rest == p.Wire(c, fl.rd) + after;
    if !FitsBehind(p, |fl.acc|) {
      OverlongRefused(c, secret, cap, fl, p, after);
    } else {
      PartStep(c, secret, cap, fl, p, after);
      ReadsOn(c, secret, fl, p.content, Contents(tail));
      if tail == [] {
        var fl0 := fl.(acc := fl.acc + p.content, rd := fl.rd.Advance());
        if Messages(c, secret, fl0).Took? {
          NoPartsLeft(c, secret, fl0, Messages(c, secret, fl0).fl, tail);
        }
      } else {
        var front := ps[..|ps| - 1];
        assert front[0] == p && front[1..] == tail[..|tail| - 1];
        ReadsOn(c, secret, fl, p.content, Contents(front[1..]));
        var fl1 := Messages(c, secret, fl.(acc := fl.acc + p.content, rd := fl.rd.Advance())).fl;
        SplitExactly(c, secret, cap, fl1, tail, rest);
      }
    }
  }
}
