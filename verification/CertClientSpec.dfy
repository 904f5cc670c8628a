/**
 * The certificate client as a function of its input stream (`wn_connect_cert_impl` in
 * `wn_connect.c`).
 */
module CertClientSpec {
  import opened Bytes
  import opened Crypto
  import opened KeySchedule
  import opened Transport
  import opened Record
  import opened Handshake
  import opened HandshakeKeys
  import opened ClientStart
  import opened CertHello
  import opened CertMessages
  import opened Chain
  import EE = ServerHelloRoundTrip

  const HS_ACC_SZ: nat := 6144
  const IO_MIN: nat := 4096
  const CERT_SCRATCH_MIN: nat := IO_MIN + HS_ACC_SZ + LEAF_SPKI_SZ

  /** The caller's arguments and the random values the client draws. */
  datatype Client = Client(random: bytes, sid: bytes, priv: bytes, trust: Trust, id: Identity, scratchLen: nat) {
    predicate Sized() { |random| == 32 && |sid| == 32 }

    predicate ArgsOk() { scratchLen >= CERT_SCRATCH_MIN }

    // The scratch buffer is partitioned: record I/O, accumulator, leaf key.
    function IoCap(): nat
      requires ArgsOk()
    {
      scratchLen - HS_ACC_SZ - LEAF_SPKI_SZ
    }

    function Name(): bytes { if id.serverName.Some? then id.serverName.value else [] }

    function Hello(c: Suite): bytes { CertHelloBytes(random, sid, c.share(priv), Name()) }

    function Offered(c: Suite): Offer { Offer(Hello(c), sid, priv, None, Early(c, Zeros(HASH_SZ))) }
  }

  ghost function ClientRun(c: Suite, k: Client, n: Net): HsResult {
    if !k.ArgsOk() || |k.Name()| > SNI_MAX_HOST then Failed(InvalidArg, n) else
    var s := SendWithCcs(n, k.Hello(c));
    if s.ret != Success then Failed(s.ret, s.n) else
    match AwaitServerHello(c, k.Offered(c), k.IoCap(), s.n)
    case Broken(status, n1) => Failed(status, n1)
    case Keyed(keys, tr, n1) => ClientFlight(c, k, keys, tr, n1)
  }

  /** The flight as reassembled so far, what has been seen of it, and the verified leaf key. */
  datatype Flight = Flight(acc: bytes, off: nat, rd: Dir, tr: bytes, seen: Seen, leaf: bytes) {
    predicate Valid() { off <= |acc| }
  }

  ghost function NextMessage(c: Suite, k: Client, secret: bytes, fl: Flight): (r: Reading<Flight>)
    requires fl.Valid()
    ensures r.Took? ==> r.fl.Valid() && r.fl.acc == fl.acc && r.fl.off > fl.off
    ensures r.Refused? ==> r.status != Success
  {
    if |fl.acc| - fl.off < 4 then Wait else
    var end := fl.off + 4 + Num24(fl.acc, fl.off + 1);
    if end > |fl.acc| then Wait else OnMessage(c, k, secret, fl.(off := end), fl.acc[fl.off..end])
  }

  /**
   * CertificateVerify is checked against the transcript before it, so through Certificate, and
   * Finished against the transcript through CertificateVerify.
   */
  ghost function OnMessage(c: Suite, k: Client, secret: bytes, fl: Flight, m: bytes): (r: Reading<Flight>)
    requires |m| >= 4
    ensures r.Took? ==> r.fl.acc == fl.acc && r.fl.off == fl.off
    ensures r.Refused? ==> r.status != Success
  {
    var seen := Ordered(m[0], fl.seen);
    if seen.None? then Refused(OrderStatus(m[0], fl.seen)) else
    var fl1 := fl.(tr := fl.tr + m, seen := seen.value);
    if m[0] == HS_ENCRYPTED_EXT then
      var v := EE.EncExtVerdict(m[4..], k.Name() != []);
      if v != Success then Refused(v) else Took(fl1)
    else if m[0] == HS_CERTIFICATE then OnCertificate(c, k, fl1, m[4..])
    else if m[0] == HS_CERT_VERIFY then OnCertVerify(c, fl1, m[4..], c.hash(fl.tr))
    else if |m| != 36 || m[4..] != FinishedMac(c, secret, c.hash(fl.tr)) then Refused(BadMac)
    else Ended(fl.tr + m)
  }

  ghost function OnCertificate(c: Suite, k: Client, fl: Flight, body: bytes): (r: Reading<Flight>)
    ensures r.Took? ==> r.fl.acc == fl.acc && r.fl.off == fl.off
    ensures r.Refused? ==> r.status != Success
  {
    var certs := CertListOf(body);
    if certs.None? then Refused(DecodeErr) else
    match ChainVerdict(c, k.trust, k.id, certs.value)
    case Fail(status) => Refused(status)
    case Ok(spki) => Took(fl.(leaf := spki))
  }

  function OnCertVerify(c: Suite, fl: Flight, body: bytes, th: bytes): (r: Reading<Flight>)
    ensures r.Took? ==> r.fl == fl
    ensures r.Refused? ==> r.status != Success
  {
    var cv := CvOf(body);
    if cv.None? then Refused(DecodeErr)
    else if !c.verify(fl.leaf, cv.value.0, CvContent(th), cv.value.1) then Refused(BadCert)
    else Took(fl)
  }

  /** Process the complete messages; a partial one waits for the next record. */
  ghost function Messages(c: Suite, k: Client, secret: bytes, fl: Flight): (r: Reading<Flight>)
    requires fl.Valid()
    ensures r.Took? ==> r.fl.Valid()
    ensures !r.Wait? && (r.Refused? ==> r.status != Success)
    decreases |fl.acc| - fl.off
  {
    match NextMessage(c, k, secret, fl)
    case Wait => Took(fl)
    case Took(fl1) => Messages(c, k, secret, fl1)
    case r => r
  }

  ghost function FlightRecord(c: Suite, k: Client, secret: bytes, fl: Flight, inp: bytes): (st: FlightStep<Flight>)
    requires fl.Valid() && k.ArgsOk()
    ensures st.Onward? ==> |st.rest| < |inp| && st.fl.Valid()
    ensures st.Over? && st.e.Bad? ==> st.e.status != Success
  {
    var got := NextRecord(inp, k.IoCap());
    if got.status != Success then Over(Bad(got.status, got.rest))
    else if got.ctype != REC_APPDATA then Over(Bad(UnexpectedMsg, got.rest))
    else FlightContent(c, k, secret, fl, Unsealed(c, fl.rd.key, fl.rd.iv, fl.rd.seqNo, got.rec), got.rest)
  }

  ghost function FlightContent(c: Suite, k: Client, secret: bytes, fl: Flight, o: Opened, rest: bytes)
    : (st: FlightStep<Flight>)
    requires fl.Valid()
    ensures st.Onward? ==> st.rest == rest && st.fl.Valid()
    ensures st.Over? && st.e.Bad? ==> st.e.status != Success
  {
    if o.status != Success then Over(Bad(o.status, rest))
    else if o.ctype != REC_HANDSHAKE then Over(Bad(UnexpectedMsg, rest))
    else if |fl.acc| + |o.content| > HS_ACC_SZ then Over(Bad(DecodeErr, rest))
    else
      match Messages(c, k, secret, fl.(acc := fl.acc + o.content, rd := fl.rd.Advance()))
      case Took(fl1) => Onward(fl1, rest)
      case Ended(tr) => Over(Done(tr, rest))
      case Refused(status) => Over(Bad(status, rest))
  }

  ghost function FlightLoop(c: Suite, k: Client, secret: bytes, fl: Flight, inp: bytes): (e: FlightEnd)
    requires fl.Valid() && k.ArgsOk()
    ensures e.Bad? ==> e.status != Success
    decreases |inp|
  {
    match FlightRecord(c, k, secret, fl, inp)
    case Onward(fl1, rest) => FlightLoop(c, k, secret, fl1, rest)
    case Over(e) => e
  }

  function StartOf(d: Dir, tr: bytes): Flight { Flight([], 0, d, tr, NONE_SEEN, []) }

  ghost function ClientFlight(c: Suite, k: Client, keys: HsKeys, tr: bytes, n: Net): HsResult
    requires k.ArgsOk()
  {
    match FlightLoop(c, k, keys.server.secret, StartOf(keys.server, tr), n.inp)
    case Done(tr1, rest) => ClientFinish(c, keys, tr1, n.(inp := rest))
    case Bad(status, rest) => Failed(status, n.(inp := rest))
  }
}
