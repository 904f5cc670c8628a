/**
 * Which post-handshake records a session accepts: exactly those that hold whole messages. RFC 8446
 * section 5.1 lets a peer spread a message over records; such a record is refused.
 */
module PostHsLanguage {
  import opened Bytes
  import opened Crypto
  import opened Transport
  import opened Record
  import opened SessionSpec

  /** A message that the session understands. */
  datatype Message = Ticket(body: bytes) | Update(requested: bool) {
    predicate Proper() { Ticket? ==> |body| < 0x100_0000 }

    function Encode(): bytes {
      match this
      case Ticket(body) => [HS_NEW_SESSION_TICKET] + U24(|body|) + body
      case Update(requested) => [HS_KEY_UPDATE, 0, 0, 1, if requested then 1 else 0]
    }
  }

  function EncMessages(ms: seq<Message>): bytes {
    if ms == [] then [] else ms[0].Encode() + EncMessages(ms[1..])
  }

  ghost predicate AllProper(ms: seq<Message>) {
    forall i :: 0 <= i < |ms| ==> ms[i].Proper()
  }

  /** How many of the messages ask for an answer. */
  function Requests(ms: seq<Message>): nat {
    if ms == [] then 0 else (if ms[0] == Update(true) then 1 else 0) + Requests(ms[1..])
  }

  /** The next `k` sends succeed. */
  predicate CanAnswer(sends: seq<bool>, k: nat) {
    |sends| >= k && forall i :: 0 <= i < k ==> sends[i]
  }

  /** What one message does: a ticket nothing, an update rotates the read keys and may be answered. */
  function EffectOf(c: Suite, s: Sess, n: Net, m: Message): Outcome {
    match m
    case Ticket(_) => Outcome(Success, s, n)
    case Update(requested) =>
      var s1 := PeerRekeyed(c, s);
      if requested then SendKeyUpdate(c, s1, n) else Outcome(Success, s1, n)
  }

  /** What a list of messages does, until an answer cannot be sent. */
  function Effect(c: Suite, s: Sess, n: Net, ms: seq<Message>): Outcome
    decreases |ms|
  {
    if ms == [] then Outcome(Success, s, n) else
    var o := EffectOf(c, s, n, ms[0]);
    if o.ret == Success then Effect(c, o.s, o.n, ms[1..]) else o
  }

  lemma OneHandled(c: Suite, s: Sess, n: Net, m: Message, rest: bytes)
    requires m.Proper()
    ensures var o := EffectOf(c, s, n, m);
      PostHs(c, s, n, m.Encode() + rest) == if o.ret == Success then PostHs(c, o.s, o.n, rest) else o
  {
    hide U24, Num24, SendKeyUpdate, PeerRekeyed;
    var msg := m.Encode() + rest;
    match m
    case Ticket(body) =>
      assert msg[1..4] == U24(|body|);
      Num24Of(msg, 1, |body|);
      assert msg[4 + |body|..] == rest;
    case Update(_) =>
      UpdateLength(msg);
      assert msg[5..] == rest;
  }

  lemma UpdateLength(msg: bytes)
    requires |msg| >= 4 && msg[1] == 0 && msg[2] == 0 && msg[3] == 1
    ensures Num24(msg, 1) == 1
  {}

  /** Whole messages in front of anything are handled in order. */
  lemma {:induction false} WholeHandled(c: Suite, s: Sess, n: Net, ms: seq<Message>, rest: bytes)
    requires AllProper(ms)
    ensures var o := Effect(c, s, n, ms);
      PostHs(c, s, n, EncMessages(ms) + rest) == if o.ret == Success then PostHs(c, o.s, o.n, rest) else o
    decreases |ms|
  {
    hide PostHs, EffectOf;
    if ms == [] {
      assert [] + rest == rest;
    } else {
      var more := EncMessages(ms[1..]) + rest;
      assert EncMessages(ms) + rest == ms[0].Encode() + more;
      OneHandled(c, s, n, ms[0], more);
      var o := EffectOf(c, s, n, ms[0]);
      if o.ret == Success {
        WholeHandled(c, o.s, o.n, ms[1..], rest);
      }
    }
  }

  lemma {:induction false} EffectSucceeds(c: Suite, s: Sess, n: Net, ms: seq<Message>)
    ensures Effect(c, s, n, ms).ret == Success <==> CanAnswer(n.sends, Requests(ms))
    decreases |ms|
  {
    hide PeerRekeyed, Sealed;
    if ms != [] {
      var o := EffectOf(c, s, n, ms[0]);
      if o.ret == Success {
        EffectSucceeds(c, o.s, o.n, ms[1..]);
        if ms[0] == Update(true) {
          OneMoreAnswer(n.sends, Requests(ms[1..]));
        }
      }
    }
  }

  lemma OneMoreAnswer(sends: seq<bool>, k: nat)
    requires sends != [] && sends[0]
    ensures CanAnswer(sends, k + 1) <==> CanAnswer(sends[1..], k)
  {
    if CanAnswer(sends[1..], k) {
      forall i | 0 <= i < k + 1
        ensures sends[i]
      {
        assert i > 0 ==> sends[i] == sends[1..][i - 1];
      }
    }
  }

  lemma MessageAssembled(msg: bytes) returns (m: Message, rest: bytes)
    requires |msg| >= 4
    requires if msg[0] == HS_NEW_SESSION_TICKET then |msg| >= 4 + Num24(msg, 1)
             else msg[0] == HS_KEY_UPDATE && |msg| >= 5 && Num24(msg, 1) == 1 && msg[4] <= 1
    ensures m.Proper() && msg == m.Encode() + rest
    ensures rest == msg[|msg| - |rest|..] && |rest| < |msg|
  {
    if msg[0] == HS_NEW_SESSION_TICKET {
      var len := Num24(msg, 1);
      m, rest := Ticket(msg[4..4 + len]), msg[4 + len..];
      TicketAssembled(msg, len);
    } else {
      m, rest := Update(msg[4] == 1), msg[5..];
    }
  }

  lemma TicketAssembled(msg: bytes, len: nat)
    requires |msg| >= 4 + len && msg[0] == HS_NEW_SESSION_TICKET && Num24(msg, 1) == len
    ensures msg == Ticket(msg[4..4 + len]).Encode() + msg[4 + len..]
  {
    hide Num24, U24;
    U24Of(msg, 1);
    assert msg == [msg[0]] + msg[1..4] + msg[4..4 + len] + msg[4 + len..];
  }

  /** What is processed without an error is a list of whole messages. */
  lemma {:induction false} SuccessIsWhole(c: Suite, s: Sess, n: Net, msg: bytes) returns (ms: seq<Message>)
    requires PostHs(c, s, n, msg).ret == Success
    ensures AllProper(ms) && EncMessages(ms) == msg
    decreases |msg|
  {
    hide Num24, SendKeyUpdate, PeerRekeyed, Message.Encode;
    if msg == [] {
      ms := [];
    } else {
      var m, rest := MessageAssembled(msg);
      OneHandled(c, s, n, m, rest);
      var o := EffectOf(c, s, n, m);
      var tail := SuccessIsWhole(c, o.s, o.n, rest);
      ms := [m] + tail;
      assert ms[1..] == tail;
    }
  }

  /**
   * The exact language: a record is processed without an error if and only if it holds whole
   * messages, tickets and updates in any order, and the answers they ask for can be sent.
   */
  lemma PostHsExactly(c: Suite, s: Sess, n: Net, msg: bytes)
    ensures PostHs(c, s, n, msg).ret == Success
      <==> exists ms :: AllProper(ms) && EncMessages(ms) == msg && CanAnswer(n.sends, Requests(ms))
  {
    hide PostHs, Effect, CanAnswer;
    if PostHs(c, s, n, msg).ret == Success {
      var ms := SuccessIsWhole(c, s, n, msg);
      WholeDecides(c, s, n, ms);
    }
    if ms :| AllProper(ms) && EncMessages(ms) == msg && CanAnswer(n.sends, Requests(ms)) {
      WholeDecides(c, s, n, ms);
    }
  }

  lemma WholeDecides(c: Suite, s: Sess, n: Net, ms: seq<Message>)
    requires AllProper(ms)
    ensures PostHs(c, s, n, EncMessages(ms)) == Effect(c, s, n, ms)
    ensures PostHs(c, s, n, EncMessages(ms)).ret == Success <==> CanAnswer(n.sends, Requests(ms))
  {
    hide Effect, CanAnswer, EffectOf;
    WholeHandled(c, s, n, ms, []);
    assert EncMessages(ms) + [] == EncMessages(ms);
    EffectSucceeds(c, s, n, ms);
  }

  // ----- a message that is spread over records ---------------------------------------------

  /** A message cut anywhere is refused, and nothing of it takes effect. */
  lemma CutRefused(c: Suite, s: Sess, n: Net, m: Message, k: nat)
    requires m.Proper() && 0 < k < |m.Encode()|
    ensures PostHs(c, s, n, m.Encode()[..k]) == Outcome(DecodeErr, s, n)
  {
    hide U24, Num24;
    var e := m.Encode();
    var msg := e[..k];
    assert msg[0] == e[0];
    if m.Ticket? && k >= 4 {
      assert e[1..4] == U24(|m.body|);
      assert msg[1..4] == e[1..4];
      Num24Of(msg, 1, |m.body|);
    }
  }

  /**
   * So a peer that spreads a message over records is not understood: the record with its first part
   * is refused, after what stands whole in front of it has taken effect.
   */
  lemma FragmentRefused(c: Suite, s: Sess, n: Net, outCap: nat, ms: seq<Message>, m: Message, k: nat, pad: nat,
                        rest: bytes)
    requires c.Laws() && AllProper(ms) && m.Proper() && 0 < k < |m.Encode()|
    requires var content := EncMessages(ms) + m.Encode()[..k];
      && |content| + pad <= MAX_PLAINTEXT && HEADER_SZ + |content| + 1 + pad + TAG_SZ <= s.scratchLen
      && n.inp == Sealed(c, s.r.key, s.r.iv, s.r.seqNo, REC_HANDSHAKE, content, pad) + rest
    ensures var o := Effect(c, s.(r := s.r.Advance()), n.(inp := rest), ms);
      RecvLoop(c, s, n, outCap) == RecvOutcome(if o.ret == Success then DecodeErr else o.ret, o.s, o.n, [])
  {
    hide Effect, PostHs, Message.Encode, Sealed, Unsealed, RecordIn;
    var content := EncMessages(ms) + m.Encode()[..k];
    SealedIn(c, s.r.key, s.r.iv, s.r.seqNo, REC_HANDSHAKE, content, pad, rest, s.scratchLen);
    UnsealSealed(c, s.r.key, s.r.iv, s.r.seqNo, REC_HANDSHAKE, content, pad);
    var s1, n1 := s.(r := s.r.Advance()), n.(inp := rest);
    WholeHandled(c, s1, n1, ms, m.Encode()[..k]);
    var o := Effect(c, s1, n1, ms);
    CutRefused(c, o.s, o.n, m, k);
  }
}
