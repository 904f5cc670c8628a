/** The start of both server handshakes: ClientHello and HelloRetryRequest (`wn_accept.c`). */
module HelloRetry {
  import opened Bytes
  import opened Crypto
  import opened Transport
  import opened Record
  import opened Handshake
  import opened ClientHelloSpec
  import ClientHello
  import Build = ServerHelloBuild

  /** The ClientHello the server goes on with, and the transcript in front of it. */
  datatype Greeting =
    | Greeting(pre: bytes, msg: bytes, hello: Parsed, retried: bool, n: Net)
    | Refusal(status: Status, n: Net)
  {
    predicate Valid() { Greeting? ==> ParseHello(msg) == Accept(hello) }
  }

  /** Receive and decode one ClientHello; `pre` is what the transcript already holds. */
  function RecvHello(n: Net, scratchLen: nat, pre: bytes, retried: bool): (g: Greeting)
    ensures g.Valid() && (g.Refusal? ==> g.status != Success)
  {
    var half := scratchLen / 2;
    var r := Gather(n.inp, [], half, scratchLen - half);
    var n1 := n.(inp := r.rest);
    if r.status != Success then Refusal(r.status, n1) else
    match ParseHello(r.msg)
    case Reject(status) => Refusal(status, n1)
    case Accept(h) => Greeting(pre, r.msg, h, retried, n1)
  }

  function SidOf(msg: bytes, h: Parsed): (sid: bytes)
    requires ParseHello(msg) == Accept(h)
    ensures |sid| <= 32
  {
    h.sid.Of(msg)
  }

  /** RFC 8446 section 4.4.1: a retried ClientHello is represented by its hash. */
  function RetryPrefix(c: Suite, ch1: bytes, retry: bytes): bytes {
    [0xFE, 0, 0, 32] + c.hash(ch1) + retry
  }

  function RetryFor(ch1: bytes, h: Parsed): bytes
    requires ParseHello(ch1) == Accept(h)
  {
    Build.RetryBytes(SidOf(ch1, h), CIPHER, GROUP)
  }

  /** Without a key share the client is asked, once, for another ClientHello. */
  function MaybeRetry(c: Suite, g: Greeting, scratchLen: nat): (g2: Greeting)
    requires g.Greeting? && g.Valid()
    ensures g2.Valid() && (g2.Greeting? ==> g2.hello.keyShare.Some?)
    ensures g2.Refusal? ==> g2.status != Success
  {
    if g.hello.keyShare.Some? then g else
    var retry := RetryFor(g.msg, g.hello);
    var s := SendWithCcs(g.n, retry);
    if s.ret != Success then Refusal(s.ret, s.n) else
    var g2 := RecvHello(s.n, scratchLen, g.pre + RetryPrefix(c, g.msg, retry), true);
    if g2.Greeting? && g2.hello.keyShare.None? then Refusal(IllegalParam, g2.n) else g2
  }

  /** The whole start of the handshake. */
  function Greet(c: Suite, n: Net, scratchLen: nat): (g: Greeting)
    ensures g.Valid() && (g.Greeting? ==> g.hello.keyShare.Some?)
    ensures g.Refusal? ==> g.status != Success
  {
    var g := RecvHello(n, scratchLen, [], false);
    if g.Greeting? then MaybeRetry(c, g, scratchLen) else g
  }

  // ----- the code --------------------------------------------------------------------------

  method RecvClientHello(t: Pipe, scratch: array<byte>, scratchLen: nat, ghost pre: bytes, ghost retried: bool)
    returns (ret: Status, len: nat, hello: Parsed)
    requires HEADER_SZ <= scratchLen / 2 && scratchLen <= scratch.Length <= MAX_BUFFER
    modifies t`inp, scratch
    ensures ret == Success ==> len <= scratchLen
    ensures Greeted(ret, len, hello, scratch, t.State(), pre, retried,
                    RecvHello(old(t.State()), scratchLen, pre, retried))
  {
    hide Gather, ParseHello;
    hello := Parsed(Slice(0, 0), None, None, None);
    var half := scratchLen / 2;
    ret, len := RecvHandshake(t, scratch, 0, half, half, scratchLen - half);
    if ret == Success {
      ret, hello := ClientHello.Parse(scratch[..len]);
      assert scratch[0..len] == scratch[..len];
    }
  }

  ghost predicate Greeted(ret: Status, len: nat, hello: Parsed, scratch: array<byte>, n: Net, pre: bytes,
                          retried: bool, g: Greeting)
    reads scratch
  {
    if ret == Success then len <= scratch.Length && g == Greeting.Greeting(pre, scratch[..len], hello, retried, n)
    else g == Refusal(ret, n)
  }

  /** `wn_Accept_MaybeHrr`: `tc` is the transcript so far; the scratch buffer holds the ClientHello. */
  method AcceptMaybeHrr(c: Suite, t: Pipe, scratch: array<byte>, scratchLen: nat, chLen: nat, ch: Parsed, tc: bytes)
    returns (ret: Status, len: nat, hello: Parsed, tc': bytes)
    requires HEADER_SZ <= scratchLen / 2 && chLen <= scratchLen <= scratch.Length <= MAX_BUFFER
    requires ParseHello(scratch[..chLen]) == Accept(ch)
    modifies t, scratch
    ensures ret == Success ==> len <= scratchLen
    ensures Greeted(ret, len, hello, scratch, t.State(), tc', ch.keyShare.None?,
      MaybeRetry(c, Greeting.Greeting(tc, old(scratch[..chLen]), ch, false, old(t.State())), scratchLen))
  {
    hide Gather, ParseHello, RecvHello, SidOf, SendWithCcs;
    ret, len, hello, tc' := Success, chLen, ch, tc;
    if ch.keyShare.None? {
      ret, tc' := RequestRetry(c, t, scratch[..chLen], ch, tc);
      if ret == Success {
        ret, len, hello := RecvClientHello(t, scratch, scratchLen, tc', true);
      }
      if ret == Success && hello.keyShare.None? {
        ret := IllegalParam;
      }
    }
  }

  method RequestRetry(c: Suite, t: Pipe, ch1: bytes, ch: Parsed, tc: bytes) returns (ret: Status, tc': bytes)
    requires ParseHello(ch1) == Accept(ch)
    modifies t
    ensures tc' == tc + RetryPrefix(c, ch1, RetryFor(ch1, ch))
    ensures Sending(ret, t.State()) == SendWithCcs(old(t.State()), RetryFor(ch1, ch))
  {
    hide ParseHello, Build.RetryBytes;
    SidInside(ch1, ch);
    var sid := ch1[ch.sid.off..ch.sid.off + ch.sid.len];
    var synth := [0xFE, 0, 0, 32] + c.hash(ch1);
    var hrr := new byte[128];
    var hrrLen;
    RetrySize(sid);
    ret, hrrLen := Build.BuildRetry(hrr, 0, 128, sid, CIPHER, GROUP);
    assert hrr[0..hrrLen] == hrr[..hrrLen];
    tc' := tc + (synth + hrr[..hrrLen]);
    ret := SendThenCcs(t, hrr[..hrrLen]);
  }

  lemma SidInside(msg: bytes, h: Parsed)
    requires ParseHello(msg) == Accept(h)
    ensures h.sid.In(msg) && h.sid.len <= 32 && SidOf(msg, h) == msg[h.sid.off..h.sid.off + h.sid.len]
  {}

  lemma RetrySize(sid: bytes)
    requires |sid| <= 32
    ensures |Build.RetryBytes(sid, CIPHER, GROUP)| <= 128
  {}
}
