/**
 * The certificate client's flight loop over whole runs: what must have been received before it is
 * done, and that the division of the flight into records does not matter.
 */
module FlightRun {
  import opened Bytes
  import opened Crypto
  import opened KeySchedule
  import opened Record
  import opened Handshake
  import opened HandshakeKeys
  import opened ClientStart
  import opened CertMessages
  import opened CertClientSpec
  import opened Chain
  import X509Spec

  // ----- done only after the four messages -------------------------------------------------

  function Flat(ms: seq<bytes>): bytes {
    if ms == [] then [] else Flat(ms[..|ms| - 1]) + ms[|ms| - 1]
  }

  /** A handshake message of this type whose length field is right. */
  predicate IsMessage(m: bytes, t: byte) { |m| >= 4 && m[0] == t && Num24(m, 1) == |m| - 4 }

  /** The leaf key comes from the received chain, which was verified. */
  ghost predicate CertChecked(c: Suite, k: Client, cert: bytes, leaf: bytes) {
    && |cert| >= 4 && CertListOf(cert[4..]).Some?
    && ChainVerdict(c, k.trust, k.id, CertListOf(cert[4..]).value) == X509Spec.Ok(leaf)
  }

  /** The signature covers the transcript up to and including Certificate. */
  ghost predicate CvChecked(c: Suite, cv: bytes, leaf: bytes, covered: bytes) {
    && |cv| >= 4 && CvOf(cv[4..]).Some?
    && c.verify(leaf, CvOf(cv[4..]).value.0, CvContent(c.hash(covered)), CvOf(cv[4..]).value.1)
  }

  /** `ms` are the messages processed so far: the first ones of the flight, each with its check passed. */
  ghost predicate Processed(c: Suite, k: Client, tr: bytes, fl: Flight, ms: seq<bytes>) {
    && fl.Valid() && Reachable(fl.seen) && |ms| == Position(fl.seen)
    && fl.tr == tr + Flat(ms) && fl.acc[..fl.off] == Flat(ms)
    && (forall i :: 0 <= i < |ms| ==> IsMessage(ms[i], FLIGHT[i]))
    && (|ms| >= 2 ==> CertChecked(c, k, ms[1], fl.leaf))
    && (|ms| >= 3 ==> CvChecked(c, ms[2], fl.leaf, tr + ms[0] + ms[1]))
  }

  lemma FlatTwo(ms: seq<bytes>)
    requires |ms| == 2
    ensures Flat(ms) == ms[0] + ms[1]
  {
    assert ms[..1][..0] == [];
    assert Flat(ms[..1]) == Flat([]) + ms[0] == ms[0];
  }

  lemma FlatThree(ms: seq<bytes>)
    requires |ms| == 3
    ensures Flat(ms) == ms[0] + ms[1] + ms[2]
  {
    FlatTwo(ms[..2]);
  }

  lemma FlatSnoc(ms: seq<bytes>, m: bytes)
    ensures Flat(ms + [m]) == Flat(ms) + m
  {}

  // What accepting one message establishes.
  ghost predicate Accepted(c: Suite, k: Client, fl: Flight, m: bytes, fl1: Flight) {
    && |m| >= 4 && Ordered(m[0], fl.seen) == Some(fl1.seen) && m[0] != HS_FINISHED
    && fl1.acc == fl.acc && fl1.off == fl.off && fl1.tr == fl.tr + m
    && (if m[0] == HS_CERTIFICATE then CertChecked(c, k, m, fl1.leaf) else fl1.leaf == fl.leaf)
    && (m[0] == HS_CERT_VERIFY ==> CvChecked(c, m, fl.leaf, fl.tr))
  }

  lemma TakenIsAccepted(c: Suite, k: Client, secret: bytes, fl: Flight, m: bytes)
    requires |m| >= 4 && OnMessage(c, k, secret, fl, m).Took?
    ensures Accepted(c, k, fl, m, OnMessage(c, k, secret, fl, m).fl)
  {
    hide ChainVerdict, CertListOf, CvOf, CvContent, FinishedMac;
  }

  /** One more message keeps the record of what has been processed. */
  lemma MessageKeeps(c: Suite, k: Client, secret: bytes, tr: bytes, fl: Flight, ms: seq<bytes>) returns (ms1: seq<bytes>)
    requires Processed(c, k, tr, fl, ms) && NextMessage(c, k, secret, fl).Took?
    ensures Processed(c, k, tr, NextMessage(c, k, secret, fl).fl, ms1)
  {
    hide OnMessage, Accepted, Processed;
    assert fl.Valid() by { ProcessedValid(c, k, tr, fl, ms); }
    var end := fl.off + 4 + Num24(fl.acc, fl.off + 1);
    var m := fl.acc[fl.off..end];
    TakenIsAccepted(c, k, secret, fl.(off := end), m);
    MessageFramed(fl.acc, fl.off, end);
    ms1 := ms + [m];
    ProcessedOneMore(c, k, tr, fl, ms, m, OnMessage(c, k, secret, fl.(off := end), m).fl);
  }

  lemma ProcessedOneMore(c: Suite, k: Client, tr: bytes, fl: Flight, ms: seq<bytes>, m: bytes, fl1: Flight)
    requires Processed(c, k, tr, fl, ms) && fl.off + |m| <= |fl.acc| && m == fl.acc[fl.off..fl.off + |m|]
    requires |m| >= 4 && Num24(m, 1) == |m| - 4 && Accepted(c, k, fl.(off := fl.off + |m|), m, fl1)
    ensures Processed(c, k, tr, fl1, ms + [m])
  {
    hide CertChecked, CvChecked, Flat, Ordered;
    OrderStep(m[0], fl.seen);
    FlatSnoc(ms, m);
    assert fl.acc[..fl.off + |m|] == fl.acc[..fl.off] + m;
    assert tr + (Flat(ms) + m) == tr + Flat(ms) + m;
    if |ms| == 2 {
      FlatTwo(ms);
      assert tr + ms[0] + ms[1] == tr + Flat(ms);
    }
  }

  lemma MessageFramed(acc: bytes, off: nat, end: nat)
    requires off + 4 <= |acc| && end == off + 4 + Num24(acc, off + 1) <= |acc|
    ensures Num24(acc[off..end], 1) == end - off - 4
  {}

  /** What `Ended` means: three messages processed, then a Finished over all of them. */
  ghost predicate FlightComplete(c: Suite, k: Client, secret: bytes, tr: bytes, tr1: bytes, ms: seq<bytes>, leaf: bytes) {
    && |ms| == 3 && (forall i :: 0 <= i < 3 ==> IsMessage(ms[i], FLIGHT[i]))
    && CertChecked(c, k, ms[1], leaf)
    && CvChecked(c, ms[2], leaf, tr + ms[0] + ms[1])
    && tr1 == tr + ms[0] + ms[1] + ms[2] + FinishedMsg(c, secret, tr + ms[0] + ms[1] + ms[2])
  }

  lemma FinishedIs(c: Suite, secret: bytes, tr: bytes, m: bytes)
    requires |m| == 36 && IsMessage(m, HS_FINISHED) && m[4..] == FinishedMac(c, secret, c.hash(tr))
    ensures m == FinishedMsg(c, secret, tr)
  {}

  // What the last message is.
  lemma EndedIsFinished(c: Suite, k: Client, secret: bytes, fl: Flight, m: bytes)
    requires |m| >= 4 && Num24(m, 1) == |m| - 4 && OnMessage(c, k, secret, fl, m).Ended?
    ensures Ordered(m[0], fl.seen).Some? && m[0] == HS_FINISHED
    ensures m == FinishedMsg(c, secret, fl.tr) && OnMessage(c, k, secret, fl, m).tr == fl.tr + m
  {
    hide ChainVerdict, CertListOf, CvOf, CvContent, FinishedMac, FinishedMsg, Ordered, Num24;
    OrderedType(m[0], fl.seen);
    FinishedIs(c, secret, fl.tr, m);
  }

  lemma OrderedType(t: byte, s: Seen)
    ensures Ordered(t, s).Some? ==> t in {HS_ENCRYPTED_EXT, HS_CERTIFICATE, HS_CERT_VERIFY, HS_FINISHED}
  {}

  // All three are there when Finished is admitted.
  lemma FinishedComesLast(s: Seen)
    requires Reachable(s) && Ordered(HS_FINISHED, s).Some?
    ensures Position(s) == 3
  {
    OrderStep(HS_FINISHED, s);
  }

  lemma EndedComplete(c: Suite, k: Client, secret: bytes, tr: bytes, fl: Flight, ms: seq<bytes>)
    requires Processed(c, k, tr, fl, ms) && NextMessage(c, k, secret, fl).Ended?
    ensures FlightComplete(c, k, secret, tr, NextMessage(c, k, secret, fl).tr, ms, fl.leaf)
    ensures var end := fl.off + 4 + Num24(fl.acc, fl.off + 1);
      end <= |fl.acc| && NextMessage(c, k, secret, fl).tr == tr + fl.acc[..end]
  {
    hide CertChecked, CvChecked, IsMessage, OnMessage, Flat, FinishedMsg, Num24, Position, Reachable, Ordered;
    var end := fl.off + 4 + Num24(fl.acc, fl.off + 1);
    var m := fl.acc[fl.off..end];
    MessageFramed(fl.acc, fl.off, end);
    EndedIsFinished(c, k, secret, fl.(off := end), m);
    FinishedComesLast(fl.seen);
    assert fl.acc[..end] == fl.acc[..fl.off] + m;
    assert tr + (Flat(ms) + m) == tr + Flat(ms) + m;
    FlatThree(ms);
    assert tr + (ms[0] + ms[1] + ms[2]) == tr + ms[0] + ms[1] + ms[2];
  }

  lemma {:induction false} MessagesKeep(c: Suite, k: Client, secret: bytes, tr: bytes, fl: Flight, ms: seq<bytes>)
    returns (ms1: seq<bytes>, leaf: bytes, p: nat)
    requires Processed(c, k, tr, fl, ms)
    ensures var r := Messages(c, k, secret, fl);
      && (r.Took? ==> Processed(c, k, tr, r.fl, ms1) && r.fl.acc == fl.acc && r.fl.rd == fl.rd)
      && (r.Ended? ==> FlightComplete(c, k, secret, tr, r.tr, ms1, leaf) && p <= |fl.acc| && r.tr == tr + fl.acc[..p])
    decreases |fl.acc| - fl.off
  {
    hide NextMessage, Processed, FlightComplete;
    assert fl.Valid() by { ProcessedValid(c, k, tr, fl, ms); }
    ms1, leaf, p := ms, fl.leaf, 0;
    match NextMessage(c, k, secret, fl)
    case Took(fl1) =>
      var ms2 := MessageKeeps(c, k, secret, tr, fl, ms);
      TookKeepsDir(c, k, secret, fl);
      ms1, leaf, p := MessagesKeep(c, k, secret, tr, fl1, ms2);
    case Ended(_) =>
      EndedComplete(c, k, secret, tr, fl, ms);
      p := fl.off + 4 + Num24(fl.acc, fl.off + 1);
    case Wait =>
    case Refused(_) =>
  }

  lemma TookKeepsDir(c: Suite, k: Client, secret: bytes, fl: Flight)
    requires fl.Valid() && NextMessage(c, k, secret, fl).Took?
    ensures NextMessage(c, k, secret, fl).fl.rd == fl.rd
  {
    hide ChainVerdict, CertListOf, CvOf, CvContent, FinishedMac, Ordered, OrderStatus;
  }

  lemma ProcessedValid(c: Suite, k: Client, tr: bytes, fl: Flight, ms: seq<bytes>)
    requires Processed(c, k, tr, fl, ms)
    ensures fl.Valid()
  {}

  lemma MoreInput(c: Suite, k: Client, tr: bytes, fl: Flight, ms: seq<bytes>, more: bytes, rd: Dir)
    requires Processed(c, k, tr, fl, ms)
    ensures Processed(c, k, tr, fl.(acc := fl.acc + more, rd := rd), ms)
  {
    hide ChainVerdict, CertListOf, CvOf, CvContent, Flat, FLIGHT;
    assert (fl.acc + more)[..fl.off] == fl.acc[..fl.off];
  }

  /** What the first `n` protected records of the input carry, and the input behind them. */
  function Carried(c: Suite, cap: nat, d: Dir, inp: bytes, n: nat): Option<(bytes, bytes)>
    decreases n
  {
    if n == 0 then Some(([], inp)) else
    var got := NextRecord(inp, cap);
    if got.status != Success || got.ctype != REC_APPDATA then None else
    var o := Unsealed(c, d.key, d.iv, d.seqNo, got.rec);
    if o.status != Success || o.ctype != REC_HANDSHAKE then None else
    var more := Carried(c, cap, d.Advance(), got.rest, n - 1);
    if more.None? then None else Some((o.content + more.value.0, more.value.1))
  }

  /**
   * The loop has consumed `n` records: what it added to the transcript is what they carry, up to
   * `p`. What stands behind that in the last record is dropped.
   */
  ghost predicate TakenFrom(c: Suite, cap: nat, tr: bytes, acc: bytes, d: Dir, inp: bytes, e: FlightEnd, n: nat, p: nat) {
    && e.Done? && Carried(c, cap, d, inp, n).Some?
    && var (content, rest) := Carried(c, cap, d, inp, n).value;
    && rest == e.rest && p <= |acc + content| && e.tr == tr + (acc + content)[..p]
  }

  lemma TakenMore(c: Suite, cap: nat, tr: bytes, acc: bytes, d: Dir, inp: bytes, e: FlightEnd, n: nat, p: nat)
    requires NextRecord(inp, cap).status == Success && NextRecord(inp, cap).ctype == REC_APPDATA
    requires var o := Unsealed(c, d.key, d.iv, d.seqNo, NextRecord(inp, cap).rec);
      && o.status == Success && o.ctype == REC_HANDSHAKE
      && TakenFrom(c, cap, tr, acc + o.content, d.Advance(), NextRecord(inp, cap).rest, e, n, p)
    ensures TakenFrom(c, cap, tr, acc, d, inp, e, n + 1, p)
  {
    hide NextRecord, Unsealed;
    var got := NextRecord(inp, cap);
    var o := Unsealed(c, d.key, d.iv, d.seqNo, got.rec);
    var more := Carried(c, cap, d.Advance(), got.rest, n).value.0;
    assert acc + o.content + more == acc + (o.content + more);
  }

  lemma TakenAll(c: Suite, cap: nat, tr: bytes, acc: bytes, d: Dir, inp: bytes, e: FlightEnd, p: nat)
    requires e.Done? && e.rest == inp && p <= |acc| && e.tr == tr + acc[..p]
    ensures TakenFrom(c, cap, tr, acc, d, inp, e, 0, p)
  {
    assert acc + [] == acc;
  }

  lemma {:induction false} LoopComplete(c: Suite, k: Client, secret: bytes, tr: bytes, fl: Flight, inp: bytes,
                                        ms: seq<bytes>)
    returns (ms1: seq<bytes>, leaf: bytes, n: nat, p: nat)
    requires k.ArgsOk() && Processed(c, k, tr, fl, ms) && fl.Valid() && FlightLoop(c, k, secret, fl, inp).Done?
    ensures var e := FlightLoop(c, k, secret, fl, inp);
      && FlightComplete(c, k, secret, tr, e.tr, ms1, leaf)
      && TakenFrom(c, k.IoCap(), tr, fl.acc, fl.rd, inp, e, n, p)
    decreases |inp|
  {
    hide Processed, FlightComplete, Messages, NextRecord, Unsealed, TakenFrom;
    var got := NextRecord(inp, k.IoCap());
    var o := Unsealed(c, fl.rd.key, fl.rd.iv, fl.rd.seqNo, got.rec);
    var fl0 := fl.(acc := fl.acc + o.content, rd := fl.rd.Advance());
    MoreInput(c, k, tr, fl, ms, o.content, fl.rd.Advance());
    ms1, leaf, p := MessagesKeep(c, k, secret, tr, fl0, ms);
    match FlightRecord(c, k, secret, fl, inp)
    case Onward(fl1, rest) =>
      ms1, leaf, n, p := LoopComplete(c, k, secret, tr, fl1, rest, ms1);
      TakenMore(c, k.IoCap(), tr, fl.acc, fl.rd, inp, FlightLoop(c, k, secret, fl, inp), n, p);
      n := n + 1;
    case Over(e) =>
      TakenAll(c, k.IoCap(), tr, fl0.acc, fl0.rd, got.rest, e, p);
      TakenMore(c, k.IoCap(), tr, fl.acc, fl.rd, inp, e, 0, p);
      n := 1;
  }

  /**
   * Flight run correctness: whatever it receives, the client is done only after exactly
   * EncryptedExtensions, Certificate, CertificateVerify and Finished, in this order; the chain was
   * verified, the signature covers the hellos through Certificate, the Finished MAC the hellos
   * through CertificateVerify, and the application secrets the hellos through Finished. These four
   * messages are the front of what the consumed records carry; octets behind them in the last record
   * are dropped without an error.
   */
  lemma DoneMeansComplete(c: Suite, k: Client, keys: HsKeys, tr: bytes, inp: bytes)
    requires k.ArgsOk() && FlightLoop(c, k, keys.server.secret, StartOf(keys.server, tr), inp).Done?
    ensures var e := FlightLoop(c, k, keys.server.secret, StartOf(keys.server, tr), inp);
      && (exists ms: seq<bytes>, leaf: bytes :: FlightComplete(c, k, keys.server.secret, tr, e.tr, ms, leaf))
      && (exists n: nat, p: nat :: TakenFrom(c, k.IoCap(), tr, [], keys.server, inp, e, n, p))
  {
    hide FlightLoop, FlightComplete, ChainVerdict, TakenFrom;
    var fl := StartOf(keys.server, tr);
    assert tr + Flat([]) == tr;
    assert Processed(c, k, tr, fl, []);
    var ms, leaf, n, p := LoopComplete(c, k, keys.server.secret, tr, fl, inp, []);
  }

  // ----- any division into records ---------------------------------------------------------

  // What `Messages` makes of more input, given what it made of less.
  ghost predicate SameReading(c: Suite, k: Client, secret: bytes, less: Reading<Flight>, more: bytes,
                              r: Reading<Flight>) {
    match less
    case Took(fl1) => fl1.Valid() && r == Messages(c, k, secret, fl1.(acc := fl1.acc + more))
    case Ended(tr) => r == Ended(tr)
    case Refused(status) => r == Refused(status)
    case Wait => false
  }

  lemma OnMessageOfMore(c: Suite, k: Client, secret: bytes, fl: Flight, m: bytes, more: bytes)
    requires |m| >= 4
    ensures var r, r2 := OnMessage(c, k, secret, fl, m), OnMessage(c, k, secret, fl.(acc := fl.acc + more), m);
      if r.Took? then r2 == Took(r.fl.(acc := fl.acc + more)) else r2 == r
  {
    hide ChainVerdict, CertListOf, CvOf, CvContent, FinishedMac, Ordered, OrderStatus;
  }

  lemma NextOfMore(c: Suite, k: Client, secret: bytes, fl: Flight, more: bytes)
    requires fl.Valid()
    ensures var r, r2 := NextMessage(c, k, secret, fl), NextMessage(c, k, secret, fl.(acc := fl.acc + more));
      match r
      case Wait => true
      case Took(fl1) => r2 == Took(fl1.(acc := fl1.acc + more))
      case Ended(tr) => r2 == Ended(tr)
      case Refused(status) => r2 == Refused(status)
  {
    hide OnMessage;
    var acc := fl.acc + more;
    if |fl.acc| - fl.off >= 4 {
      assert Num24(acc, fl.off + 1) == Num24(fl.acc, fl.off + 1);
      var end := fl.off + 4 + Num24(fl.acc, fl.off + 1);
      if end <= |fl.acc| {
        assert acc[fl.off..end] == fl.acc[fl.off..end];
        OnMessageOfMore(c, k, secret, fl.(off := end), fl.acc[fl.off..end], more);
      }
    }
  }

  /** Reading the accumulator in two goes gives what reading it at once gives. */
  lemma {:induction false} MessagesOfMore(c: Suite, k: Client, secret: bytes, fl: Flight, more: bytes)
    requires fl.Valid()
    ensures SameReading(c, k, secret, Messages(c, k, secret, fl), more, Messages(c, k, secret, fl.(acc := fl.acc + more)))
    decreases |fl.acc| - fl.off
  {
    hide NextMessage;
    NextOfMore(c, k, secret, fl, more);
    match NextMessage(c, k, secret, fl)
    case Took(fl1) => MessagesOfMore(c, k, secret, fl1, more);
    case r =>
  }

  // The cipher state plays no part in reading messages.
  ghost predicate SameButDir(r: Reading<Flight>, r2: Reading<Flight>, rd: Dir) {
    if r.Took? then r2 == Took(r.fl.(rd := rd)) else r2 == r
  }

  lemma OnMessageIgnoresDir(c: Suite, k: Client, secret: bytes, fl: Flight, m: bytes, rd: Dir)
    requires |m| >= 4
    ensures SameButDir(OnMessage(c, k, secret, fl, m), OnMessage(c, k, secret, fl.(rd := rd), m), rd)
  {
    hide ChainVerdict, CertListOf, CvOf, CvContent, FinishedMac, Ordered, OrderStatus;
  }

  lemma NextIgnoresDir(c: Suite, k: Client, secret: bytes, fl: Flight, rd: Dir)
    requires fl.Valid()
    ensures SameButDir(NextMessage(c, k, secret, fl), NextMessage(c, k, secret, fl.(rd := rd)), rd)
  {
    hide OnMessage;
    if |fl.acc| - fl.off >= 4 {
      var end := fl.off + 4 + Num24(fl.acc, fl.off + 1);
      if end <= |fl.acc| {
        OnMessageIgnoresDir(c, k, secret, fl.(off := end), fl.acc[fl.off..end], rd);
      }
    }
  }

  lemma {:induction false} MessagesIgnoreDir(c: Suite, k: Client, secret: bytes, fl: Flight, rd: Dir)
    requires fl.Valid()
    ensures SameButDir(Messages(c, k, secret, fl), Messages(c, k, secret, fl.(rd := rd)), rd)
    decreases |fl.acc| - fl.off
  {
    hide NextMessage;
    NextIgnoresDir(c, k, secret, fl, rd);
    match NextMessage(c, k, secret, fl)
    case Took(fl1) => MessagesIgnoreDir(c, k, secret, fl1, rd);
    case r =>
  }

  /** A record of the server's flight, possibly padded, behind any number of ChangeCipherSpecs. */
  datatype Part = Part(ccs: nat, content: bytes, pad: nat) {
    predicate Fits(cap: nat) {
      |content| + pad <= MAX_PLAINTEXT && HEADER_SZ + |content| + 1 + pad + TAG_SZ <= cap
    }

    function Wire(c: Suite, d: Dir): bytes {
      CcsRecords(ccs) + Sealed(c, d.key, d.iv, d.seqNo, REC_HANDSHAKE, content, pad)
    }
  }

  function CcsRecords(n: nat): bytes { if n == 0 then [] else CCS_RECORD + CcsRecords(n - 1) }

  function Wire(c: Suite, d: Dir, ps: seq<Part>): bytes
    decreases |ps|
  {
    if ps == [] then [] else ps[0].Wire(c, d) + Wire(c, d.Advance(), ps[1..])
  }

  function Contents(ps: seq<Part>): bytes {
    if ps == [] then [] else ps[0].content + Contents(ps[1..])
  }

  lemma {:induction false} PartRead(c: Suite, d: Dir, p: Part, rest: bytes, cap: nat)
    requires c.Laws() && p.Fits(cap) && 6 <= cap
    ensures var rec := Sealed(c, d.key, d.iv, d.seqNo, REC_HANDSHAKE, p.content, p.pad);
      && NextRecord(p.Wire(c, d) + rest, cap) == Received(Success, REC_APPDATA, rec, rest)
      && Unsealed(c, d.key, d.iv, d.seqNo, rec) == Opened(Success, p.content, REC_HANDSHAKE)
    decreases p.ccs
  {
    hide Sealed, Unsealed, RecordIn;
    var rec := Sealed(c, d.key, d.iv, d.seqNo, REC_HANDSHAKE, p.content, p.pad);
    SealedIn(c, d.key, d.iv, d.seqNo, REC_HANDSHAKE, p.content, p.pad, rest, cap);
    UnsealSealed(c, d.key, d.iv, d.seqNo, REC_HANDSHAKE, p.content, p.pad);
    if p.ccs == 0 {
      assert [] + rec + rest == rec + rest;
    } else {
      var less := p.(ccs := p.ccs - 1);
      assert p.Wire(c, d) + rest == CCS_RECORD + (less.Wire(c, d) + rest);
      PlainRecordIn(REC_CCS, [1], less.Wire(c, d) + rest, cap);
      PartRead(c, d, less, rest, cap);
    }
  }

  /** The loop's result read off the whole flight, and how many records it took to get there. */
  ghost predicate Settled<F>(c: Suite, e: FlightEnd, r: Reading<F>, d: Dir, ps: seq<Part>, j: nat, rest: bytes) {
    && j <= |ps|
    && match r
       case Ended(tr) => e == Done(tr, Wire(c, DirAfter(d, j), ps[j..]) + rest)
       case Refused(status) => e == Bad(status, Wire(c, DirAfter(d, j), ps[j..]) + rest)
       case _ => false
  }

  function DirAfter(d: Dir, n: nat): Dir
    decreases n
  {
    if n == 0 then d else DirAfter(d.Advance(), n - 1)
  }

  /**
   * The division of the flight into records does not matter: if reading all of it at once would
   * end the flight, with success or not, then so does any split of it into records, with any
   * padding and any ChangeCipherSpecs, as soon as the deciding record has arrived.
   */
  lemma {:induction false} AnySplit(c: Suite, k: Client, secret: bytes, fl: Flight, ps: seq<Part>, rest: bytes)
    returns (j: nat)
    requires c.Laws() && k.ArgsOk() && fl.Valid() && (forall i :: 0 <= i < |ps| ==> ps[i].Fits(k.IoCap()))
    requires |fl.acc| + |Contents(ps)| <= HS_ACC_SZ
    requires !Messages(c, k, secret, fl.(acc := fl.acc + Contents(ps))).Took?
    requires ps != []
    ensures Settled(c, FlightLoop(c, k, secret, fl, Wire(c, fl.rd, ps) + rest),
                    Messages(c, k, secret, fl.(acc := fl.acc + Contents(ps))), fl.rd, ps, j, rest)
    decreases |ps|
  {
    hide Messages, NextRecord, Sealed, Unsealed, Part.Wire;
    var p, tail := ps[0], ps[1..];
    var after := Wire(c, fl.rd.Advance(), tail) + rest;
    assert Wire(c, fl.rd, ps) + rest == p.Wire(c, fl.rd) + after;
    PartRead(c, fl.rd, p, after, k.IoCap());
    var fl0 := fl.(acc := fl.acc + p.content, rd := fl.rd.Advance());
    var all := fl.(acc := fl.acc + Contents(ps));
    assert fl.acc + Contents(ps) == fl.acc + p.content + Contents(tail);
    MessagesIgnoreDir(c, k, secret, all, fl.rd.Advance());
    MessagesOfMore(c, k, secret, fl0, Contents(tail));
    j := 1;
    var r := Messages(c, k, secret, fl0);
    if r.Took? {
      KeepsAccAndDir(c, k, secret, fl0);
      NoPartsLeft(c, k, secret, fl0, r.fl, tail);
      var i := AnySplit(c, k, secret, r.fl, tail, rest);
      j := i + 1;
      assert ps[j..] == tail[i..];
    }
  }

  lemma {:induction false} KeepsAccAndDir(c: Suite, k: Client, secret: bytes, fl: Flight)
    requires fl.Valid() && Messages(c, k, secret, fl).Took?
    ensures var fl1 := Messages(c, k, secret, fl).fl; fl1.acc == fl.acc && fl1.rd == fl.rd
    ensures Messages(c, k, secret, Messages(c, k, secret, fl).fl) == Messages(c, k, secret, fl)
    decreases |fl.acc| - fl.off
  {
    hide ChainVerdict, CertListOf, CvOf, CvContent, FinishedMac, Ordered, OrderStatus;
    match NextMessage(c, k, secret, fl)
    case Took(fl1) => KeepsAccAndDir(c, k, secret, fl1);
    case _ =>
  }

  // Without further input a waiting reader goes on waiting.
  lemma NoPartsLeft(c: Suite, k: Client, secret: bytes, fl0: Flight, fl1: Flight, tail: seq<Part>)
    requires fl0.Valid() && Messages(c, k, secret, fl0) == Took(fl1)
    ensures tail == [] ==> Messages(c, k, secret, fl1.(acc := fl1.acc + Contents(tail))).Took?
  {
    hide Messages;
    KeepsAccAndDir(c, k, secret, fl0);
    if tail == [] {
      assert fl1.acc + Contents(tail) == fl1.acc;
    }
  }
}
