/** Handshake helpers shared by client and server (`wn_handshake.c`). */
module Handshake {
  import opened Bytes
  import opened Transport
  import opened Record

  const HS_ENCRYPTED_EXT: byte := 8
  const HS_FINISHED: byte := 20

  // ----- sending in the clear --------------------------------------------------------------

  datatype Sending = Sending(ret: Status, n: Net)

  /** Header and body go out in two sends; a failed header suppresses the body. */
  function SendPlain(n: Net, ctype: byte, body: bytes): Sending {
    var n1 := n.Sent(Header(ctype, |body|));
    if !n.CanSend() then Sending(CryptoErr, n1)
    else Sending(if n1.CanSend() then Success else CryptoErr, n1.Sent(body))
  }

  method SendPlainRecord(t: Pipe, ctype: byte, body: bytes) returns (ret: Status)
    modifies t`out, t`sends
    ensures Sending(ret, t.State()) == SendPlain(old(t.State()), ctype, body)
  {
    ret := Success;
    var hdr := [ctype, 3, 3, |body| / 256 % 256, |body| % 256];
    assert hdr == Header(ctype, |body|);
    var ok := t.Send(hdr);
    if !ok {
      ret := CryptoErr;
    }
    if ret == Success {
      ok := t.Send(body);
      if !ok {
        ret := CryptoErr;
      }
    }
  }

  method SendCcs(t: Pipe) returns (ret: Status)
    modifies t`out, t`sends
    ensures Sending(ret, t.State()) == SendPlain(old(t.State()), REC_CCS, [1])
  {
    ret := SendPlainRecord(t, REC_CCS, [1]);
  }

  /** A first message and the one compatibility ChangeCipherSpec right behind it. */
  function SendWithCcs(n: Net, msg: bytes): Sending {
    var s := SendPlain(n, REC_HANDSHAKE, msg);
    if s.ret == Success then SendPlain(s.n, REC_CCS, [1]) else s
  }

  method SendThenCcs(t: Pipe, msg: bytes) returns (ret: Status)
    modifies t`out, t`sends
    ensures Sending(ret, t.State()) == SendWithCcs(old(t.State()), msg)
  {
    ret := SendPlainRecord(t, REC_HANDSHAKE, msg);
    if ret == Success {
      ret := SendCcs(t);
    }
  }

  /** Two successful sends put exactly one record on the wire. */
  lemma SentWhole(n: Net, ctype: byte, body: bytes)
    requires |n.sends| >= 2 && n.sends[0] && n.sends[1]
    ensures SendPlain(n, ctype, body)
         == Sending(Success, Net(n.inp, n.out + PlainRecord(ctype, body), n.sends[2..]))
  {}

  // ----- receiving -------------------------------------------------------------------------

  /** The next record that is not a ChangeCipherSpec. */
  function NextRecord(inp: bytes, cap: nat): (r: Received)
    ensures |r.rest| <= |inp|
    ensures r.status == Success ==> |r.rest| < |inp| && HEADER_SZ < |r.rec| <= cap && r.ctype == r.rec[0]
    decreases |inp|
  {
    var r := RecordIn(inp, cap);
    if r.status == Success && r.ctype == REC_CCS then NextRecord(r.rest, cap) else r
  }

  method RecvSkippingCcs(t: Pipe, buf: array<byte>, off: nat, cap: nat)
    returns (ret: Status, rtype: byte, recLen: nat)
    requires off + cap <= buf.Length && HEADER_SZ <= cap
    modifies t`inp, buf
    ensures var r := NextRecord(old(t.inp), cap);
      && ret == r.status && t.inp == r.rest
      && (ret == Success ==> rtype == r.ctype && recLen == |r.rec| && buf[off..off + recLen] == r.rec)
    ensures OnlyChanged(buf, off, off + cap)
  {
    ret, rtype, recLen := RecvRecord(t, buf, off, cap);
    while ret == Success && rtype == REC_CCS
      invariant OnlyChanged(buf, off, off + cap)
      invariant if ret == Success && rtype == REC_CCS then NextRecord(t.inp, cap) == NextRecord(old(t.inp), cap)
        else var r := NextRecord(old(t.inp), cap);
          && ret == r.status && t.inp == r.rest
          && (ret == Success ==> rtype == r.ctype && recLen == |r.rec| && buf[off..off + recLen] == r.rec)
      decreases |t.inp|, ret == Success && rtype == REC_CCS
    {
      ret, rtype, recLen := RecvRecord(t, buf, off, cap);
    }
  }

  // ----- reassembly ------------------------------------------------------------------------

  datatype Gathered = Gathered(status: Status, msg: bytes, rest: bytes)

  datatype GatherStep = More(acc: bytes, rest: bytes) | Halt(g: Gathered)

  /** One more record towards a message of which `acc` has arrived. */
  function Piece(inp: bytes, acc: bytes, accCap: nat, tmpCap: nat): (st: GatherStep)
    ensures st.More? ==> |st.rest| < |inp|
  {
    var r := RecordIn(inp, tmpCap);
    if r.status != Success then Halt(Gathered(r.status, [], r.rest))
    else if r.ctype == REC_CCS then More(acc, r.rest)
    else if r.ctype != REC_HANDSHAKE then Halt(Gathered(UnexpectedMsg, [], r.rest))
    else Collect(acc + r.rec[HEADER_SZ..], r.rest, accCap)
  }

  function Collect(acc: bytes, rest: bytes, accCap: nat): GatherStep {
    if |acc| > accCap then Halt(Gathered(DecodeErr, [], rest))
    else if |acc| < 4 then More(acc, rest)
    else if 4 + Num24(acc, 1) > accCap then Halt(Gathered(DecodeErr, [], rest))
    else if |acc| < 4 + Num24(acc, 1) then More(acc, rest)
    else if |acc| == 4 + Num24(acc, 1) then Halt(Gathered(Success, acc, rest))
    else Halt(Gathered(DecodeErr, [], rest))
  }

  /** Reading one handshake message that may be spread over records. */
  function Gather(inp: bytes, acc: bytes, accCap: nat, tmpCap: nat): Gathered
    decreases |inp|
  {
    match Piece(inp, acc, accCap, tmpCap)
    case Halt(g) => g
    case More(acc1, rest) => Gather(rest, acc1, accCap, tmpCap)
  }

  /** Reassemble into `buf[accOff ..)`, each record passing through `buf[tmpOff ..)`. */
  method RecvHandshake(t: Pipe, buf: array<byte>, accOff: nat, accCap: nat, tmpOff: nat, tmpCap: nat)
    returns (ret: Status, msgLen: nat)
    requires accOff + accCap <= tmpOff && tmpOff + tmpCap <= buf.Length && HEADER_SZ <= tmpCap
    modifies t`inp, buf
    ensures var g := Gather(old(t.inp), [], accCap, tmpCap);
      && ret == g.status && t.inp == g.rest
      && (ret == Success ==> msgLen == |g.msg| && msgLen <= accCap && buf[accOff..accOff + msgLen] == g.msg)
    ensures OnlyChanged(buf, accOff, tmpOff + tmpCap)
  {
    hide Piece;
    ghost var goal := Gather(t.inp, [], accCap, tmpCap);
    var accLen, mLen, complete := 0, 0, false;
    ret, msgLen := Success, 0;
    assert buf[accOff..accOff] == [];
    while ret == Success && !complete
      invariant 0 <= accLen <= accCap
      invariant OnlyChanged(buf, accOff, tmpOff + tmpCap)
      invariant ret == Success && !complete ==> Gather(t.inp, buf[accOff..accOff + accLen], accCap, tmpCap) == goal
      invariant ret == Success && complete ==>
        goal == AtEnd(buf[accOff..accOff + accLen], mLen, t.inp)
      invariant ret != Success ==> goal.status == ret && goal.rest == t.inp
      decreases |t.inp|, ret == Success && !complete
    {
      ret, complete, accLen, mLen := RecvPiece(t, buf, accOff, accCap, tmpOff, tmpCap, accLen);
    }
    if ret == Success && accLen != 4 + mLen {
      ret := DecodeErr;
    }
    if ret == Success {
      msgLen := accLen;
    }
  }

  // The first flight carries exactly one message.
  function AtEnd(acc: bytes, mLen: nat, rest: bytes): Gathered {
    if |acc| == 4 + mLen then Gathered(Success, acc, rest) else Gathered(DecodeErr, [], rest)
  }

  method RecvPiece(t: Pipe, buf: array<byte>, accOff: nat, accCap: nat, tmpOff: nat, tmpCap: nat, have: nat)
    returns (ret: Status, complete: bool, accLen: nat, mLen: nat)
    requires accOff + accCap <= tmpOff && tmpOff + tmpCap <= buf.Length && HEADER_SZ <= tmpCap && have <= accCap
    modifies t`inp, buf
    ensures accLen <= accCap && OnlyChanged(buf, accOff, tmpOff + tmpCap) && |t.inp| <= |old(t.inp)|
    ensures StepTaken(Piece(old(t.inp), old(buf[accOff..accOff + have]), accCap, tmpCap), ret, complete,
                      buf[accOff..accOff + accLen], mLen, t.inp)
  {
    hide Collect, RecordIn;
    complete, accLen, mLen := false, have, 0;
    ghost var acc := buf[accOff..accOff + have];
    var rtype, recLen;
    ret, rtype, recLen := RecvRecord(t, buf, tmpOff, tmpCap);
    assert buf[accOff..accOff + have] == acc;
    if ret == Success && rtype == REC_CCS {
      return;
    }
    if ret == Success && rtype != REC_HANDSHAKE {
      ret := UnexpectedMsg;
    }
    if ret == Success {
      ret, complete, accLen, mLen := Absorb(buf, accOff, accCap, tmpOff, recLen, have, t.inp);
    }
  }

  ghost predicate StepTaken(st: GatherStep, ret: Status, complete: bool, acc: bytes, mLen: nat, rest: bytes) {
    if ret != Success then st.Halt? && st.g.status == ret && st.g.rest == rest
    else if complete then st == Halt(AtEnd(acc, mLen, rest))
    else st == More(acc, rest)
  }

  // Append the fragment of the record at `buf[tmpOff ..)` and look whether the message is complete.
  method Absorb(buf: array<byte>, accOff: nat, accCap: nat, tmpOff: nat, recLen: nat, have: nat, ghost rest: bytes)
    returns (ret: Status, complete: bool, accLen: nat, mLen: nat)
    requires have <= accCap && accOff + accCap <= tmpOff && tmpOff + recLen <= buf.Length && HEADER_SZ < recLen
    modifies buf
    ensures accLen <= accCap && OnlyChanged(buf, accOff, accOff + accCap)
    ensures StepTaken(Collect(old(buf[accOff..accOff + have]) + old(buf[tmpOff..tmpOff + recLen])[HEADER_SZ..],
                              rest, accCap),
                      ret, complete, buf[accOff..accOff + accLen], mLen, rest)
  {
    hide Num24, AtEnd;
    ret, complete, accLen, mLen := Success, false, have, 0;
    ghost var acc := buf[accOff..accOff + have];
    var body := buf[tmpOff + HEADER_SZ..tmpOff + recLen];
    assert buf[tmpOff..tmpOff + recLen][HEADER_SZ..] == body;
    if recLen - HEADER_SZ > accCap - accLen {
      ret := DecodeErr;
    } else {
      Overwrite(buf, accOff + accLen, body);
      accLen := accLen + recLen - HEADER_SZ;
      assert buf[accOff..accOff + accLen] == buf[accOff..accOff + have] + buf[accOff + have..accOff + accLen];
      assert buf[accOff..accOff + have] == acc;
      ret, complete, mLen := Judge(buf, accOff, accLen, accCap, rest);
    }
  }

  method Judge(buf: array<byte>, accOff: nat, accLen: nat, accCap: nat, ghost rest: bytes)
    returns (ret: Status, complete: bool, mLen: nat)
    requires accOff + accLen <= buf.Length && accLen <= accCap
    ensures StepTaken(Collect(buf[accOff..accOff + accLen], rest, accCap), ret, complete,
                      buf[accOff..accOff + accLen], mLen, rest)
  {
    ret, complete, mLen := Success, false, 0;
    if accLen >= 4 {
      ghost var acc := buf[accOff..accOff + accLen];
      mLen := 0x1_0000 * (buf[accOff + 1] as int) + 256 * (buf[accOff + 2] as int) + buf[accOff + 3];
      assert mLen == Num24(acc, 1);
      if 4 + mLen > accCap {
        ret := DecodeErr;
      } else if accLen >= 4 + mLen {
        complete := true;
      }
    }
  }
}
