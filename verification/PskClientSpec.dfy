/**
 * The PSK client as a function of its input stream: what it sends, and the keys it ends with
 * (`wn_Connect_Psk_ex` in `wn_connect.c`).
 */
module PskClientSpec {
  import opened Bytes
  import opened Crypto
  import opened KeySchedule
  import opened Transport
  import opened Record
  import opened Handshake
  import opened HandshakeKeys
  import opened PskHello
  import opened ClientStart
  import EE = ServerHelloRoundTrip

  const PLAIN_CAP: nat := 512

  /** The MAC that proves knowledge of the PSK, over the transcript up to the binders. */
  function Binder(c: Suite, psk: bytes, prefix: bytes): bytes {
    FinishedMac(c, DeriveSecret(c, Early(c, psk), "ext binder", c.hash([])), c.hash(prefix))
  }

  /** The caller's arguments and the random values the client draws. */
  datatype Client = Client(random: bytes, sid: bytes, priv: bytes, psk: bytes, identity: bytes, scratchLen: nat) {
    predicate Sized() { |random| == 32 && |sid| == 32 }

    predicate ArgsOk() { psk != [] && scratchLen >= SCRATCH_MIN && |identity| <= 0xFFFF }

    function Hello(c: Suite): bytes {
      var pub := c.share(priv);
      PskHelloBytes(random, sid, pub, identity, Binder(c, psk, HashedPart(random, sid, pub, identity)))
    }

    function Offered(c: Suite): Offer { Offer(Hello(c), sid, priv, Some(0), Early(c, psk)) }
  }

  function ClientRun(c: Suite, k: Client, n: Net): HsResult {
    if !k.ArgsOk() then Failed(InvalidArg, n)
    else if |k.Hello(c)| > k.scratchLen then Failed(CryptoErr, n)
    else
      var s := SendWithCcs(n, k.Hello(c));
      if s.ret != Success then Failed(s.ret, s.n) else
      match AwaitServerHello(c, k.Offered(c), k.scratchLen, s.n)
      case Broken(status, n1) => Failed(status, n1)
      case Keyed(keys, tr, n1) => ClientFlight(c, keys, k.scratchLen, tr, n1)
  }

  /** The encrypted flight as reassembled so far: `acc[..off]` has been processed. */
  datatype Flight = Flight(acc: bytes, off: nat, rd: Dir, tr: bytes, gotEE: bool) {
    predicate Valid() { off <= |acc| }
  }

  /** The next message of the flight, once it is complete. */
  function NextMessage(c: Suite, secret: bytes, fl: Flight): (r: Reading<Flight>)
    requires fl.Valid()
    ensures r.Took? ==> r.fl.Valid() && r.fl.acc == fl.acc && r.fl.off > fl.off
    ensures r.Refused? ==> r.status != Success
  {
    if |fl.acc| - fl.off < 4 then Wait else
    var end := fl.off + 4 + Num24(fl.acc, fl.off + 1);
    if end > PLAIN_CAP then Refused(DecodeErr)
    else if end > |fl.acc| then Wait
    else OnMessage(c, secret, fl.(off := end), fl.acc[fl.off..end])
  }

  function OnMessage(c: Suite, secret: bytes, fl: Flight, m: bytes): (r: Reading<Flight>)
    requires |m| >= 4
    ensures r.Took? ==> r.fl.acc == fl.acc && r.fl.off == fl.off
    ensures r.Refused? ==> r.status != Success
  {
    if m[0] == HS_ENCRYPTED_EXT then
      if fl.gotEE then Refused(UnexpectedMsg) else
      var v := EE.EncExtVerdict(m[4..], false);
      if v != Success then Refused(v) else Took(fl.(tr := fl.tr + m, gotEE := true))
    else if m[0] == HS_FINISHED then
      if !fl.gotEE || |m| != 36 || m[4..] != FinishedMac(c, secret, c.hash(fl.tr)) then Refused(BadMac)
      else Ended(fl.tr + m)
    else Refused(UnexpectedMsg)
  }

  /** Process the complete messages; a partial one waits for the next record. */
  function Messages(c: Suite, secret: bytes, fl: Flight): (r: Reading<Flight>)
    requires fl.Valid()
    ensures r.Took? ==> r.fl.Valid()
    ensures !r.Wait? && (r.Refused? ==> r.status != Success)
    decreases |fl.acc| - fl.off
  {
    match NextMessage(c, secret, fl)
    case Wait => Took(fl)
    case Took(fl1) => Messages(c, secret, fl1)
    case r => r
  }

  /** One more record of the flight. */
  function FlightRecord(c: Suite, secret: bytes, cap: nat, fl: Flight, inp: bytes): (st: FlightStep<Flight>)
    requires fl.Valid()
    ensures st.Onward? ==> |st.rest| < |inp| && st.fl.Valid()
    ensures st.Over? && st.e.Bad? ==> st.e.status != Success
  {
    var got := NextRecord(inp, cap);
    if got.status != Success then Over(Bad(got.status, got.rest))
    else if got.ctype != REC_APPDATA then Over(Bad(UnexpectedMsg, got.rest))
    else if |got.rec| < HEADER_SZ + TAG_SZ || |got.rec| - HEADER_SZ - TAG_SZ > PLAIN_CAP - |fl.acc|
    then Over(Bad(DecodeErr, got.rest))
    else FlightContent(c, secret, fl, Unsealed(c, fl.rd.key, fl.rd.iv, fl.rd.seqNo, got.rec), got.rest)
  }

  function FlightContent(c: Suite, secret: bytes, fl: Flight, o: Opened, rest: bytes): (st: FlightStep<Flight>)
    requires fl.Valid()
    ensures st.Onward? ==> st.rest == rest && st.fl.Valid()
    ensures st.Over? && st.e.Bad? ==> st.e.status != Success
  {
    if o.status != Success then Over(Bad(o.status, rest))
    else if o.ctype != REC_HANDSHAKE then Over(Bad(UnexpectedMsg, rest))
    else
      match Messages(c, secret, fl.(acc := fl.acc + o.content, rd := fl.rd.Advance()))
      case Took(fl1) => Onward(fl1, rest)
      case Ended(tr) => Over(Done(tr, rest))
      case Refused(status) => Over(Bad(status, rest))
  }

  function FlightLoop(c: Suite, secret: bytes, cap: nat, fl: Flight, inp: bytes): (e: FlightEnd)
    requires fl.Valid()
    ensures e.Bad? ==> e.status != Success
    decreases |inp|
  {
    match FlightRecord(c, secret, cap, fl, inp)
    case Onward(fl1, rest) => FlightLoop(c, secret, cap, fl1, rest)
    case Over(e) => e
  }

  function ClientFlight(c: Suite, keys: HsKeys, cap: nat, tr: bytes, n: Net): HsResult {
    match FlightLoop(c, keys.server.secret, cap, Flight([], 0, keys.server, tr, false), n.inp)
    case Done(tr1, rest) => ClientFinish(c, keys, tr1, n.(inp := rest))
    case Bad(status, rest) => Failed(status, n.(inp := rest))
  }
}
