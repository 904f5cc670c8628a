/** The handshake and application key schedules (`wn_DeriveHsKeys`, `wn_SessionEstablish`). */
module HandshakeKeys {
  import opened Bytes
  import opened Crypto
  import opened KeySchedule
  import opened Record
  import opened Handshake
  import opened Session
  import opened Transport
  import SessionSpec

  datatype Role = Client | Server

  /** The handshake secret and both handshake traffic directions. */
  datatype HsKeys = HsKeys(hs: bytes, client: Dir, server: Dir)

  /** What a side writes with and what it reads with. */
  datatype Ends = Ends(w: Dir, r: Dir) {
    function Mirrored(): Ends { Ends(r, w) }
  }

  /** RFC 8446 section 7.1, from the early secret down to the handshake traffic keys. */
  function DeriveHsKeys(c: Suite, early: bytes, ecdhe: bytes, th: bytes): HsKeys {
    var hs := c.extract(DeriveSecret(c, early, "derived", c.hash([])), ecdhe);
    HsKeys(hs, DirOf(c, DeriveSecret(c, hs, "c hs traffic", th)), DirOf(c, DeriveSecret(c, hs, "s hs traffic", th)))
  }

  lemma KeysSized(c: Suite, early: bytes, ecdhe: bytes, th: bytes)
    requires c.Laws()
    ensures var k := DeriveHsKeys(c, early, ecdhe, th); k.client.Sized() && k.server.Sized()
  {}

  function Master(c: Suite, hs: bytes): bytes {
    c.extract(DeriveSecret(c, hs, "derived", c.hash([])), Zeros(HASH_SZ))
  }

  /** A server writes with "s ap traffic", a client with "c ap traffic". */
  function AppEnds(c: Suite, role: Role, hs: bytes, th: bytes): Ends {
    var our := if role.Server? then "s ap traffic" else "c ap traffic";
    var peer := if role.Server? then "c ap traffic" else "s ap traffic";
    Ends(DirOf(c, DeriveSecret(c, Master(c, hs), our, th)), DirOf(c, DeriveSecret(c, Master(c, hs), peer, th)))
  }

  /** The two roles read each other's writing. */
  lemma RolesMirror(c: Suite, hs: bytes, th: bytes)
    ensures AppEnds(c, Client, hs, th) == AppEnds(c, Server, hs, th).Mirrored()
    ensures var e := AppEnds(c, Client, hs, th); e.w.seqNo == 0 && e.r.seqNo == 0
  {}

  /** How a handshake ends; `ends` is the application traffic of a completed one. */
  datatype HsResult = HsResult(ret: Status, n: Net, ends: Option<Ends>)

  function Failed(ret: Status, n: Net): HsResult { HsResult(ret, n, None) }

  /** The early secret of a PSK, or of zeros when there is none. */
  function Early(c: Suite, psk: bytes): bytes { c.extract([], psk) }

  /** The state once the ServerHello has been exchanged: keys and transcript so far. */
  datatype Exchange = Keyed(keys: HsKeys, tr: bytes, n: Net) | Broken(status: Status, n: Net)

  function FinishedMsg(c: Suite, secret: bytes, tr: bytes): bytes {
    [HS_FINISHED, 0, 0, 32] + FinishedMac(c, secret, c.hash(tr))
  }

  function FinishedRecord(c: Suite, d: Dir, tr: bytes): bytes {
    Sealed(c, d.key, d.iv, 0, REC_HANDSHAKE, FinishedMsg(c, d.secret, tr), 0)
  }

  /** Fill an open session in place. */
  method SessionEstablish(c: Suite, role: Role, sess: Session, hs: bytes, th: bytes, scratchLen: nat)
    requires sess.Valid() && sess.suite == c && HEADER_SZ <= scratchLen <= sess.scratch.Length
    modifies sess, sess.cAppSecret, sess.cKey, sess.cIv, sess.sAppSecret, sess.sKey, sess.sIv
    ensures sess.Valid()
    ensures var e := AppEnds(c, role, hs, th);
      sess.State() == SessionSpec.Sess(e.w, e.r, true, false, scratchLen, 0, [])
  {
    hide DirOf, DeriveSecret;
    var ourLabel, peerLabel := "c ap traffic", "s ap traffic";
    if role == Server {
      ourLabel, peerLabel := "s ap traffic", "c ap traffic";
    }
    var derived := DeriveSecret(c, hs, "derived", c.hash([]));
    var master := c.extract(derived, Zeros(HASH_SZ));
    var ours, peers := DeriveSecret(c, master, ourLabel, th), DeriveSecret(c, master, peerLabel, th);
    SecretSize(c, master, ourLabel, th);
    SecretSize(c, master, peerLabel, th);
    FillKeys(c, sess.cAppSecret, sess.cKey, sess.cIv, ours);
    FillKeys(c, sess.sAppSecret, sess.sKey, sess.sIv, peers);
    sess.scratchLen, sess.cSeq, sess.sSeq := scratchLen, 0, 0;
    sess.established, sess.closed := true, false;
    sess.gen, sess.log := 0, [];
  }

  lemma SecretSize(c: Suite, secret: bytes, name: string, hash: bytes)
    requires c.Laws()
    ensures |DeriveSecret(c, secret, name, hash)| == HASH_SZ
  {}

  method FillKeys(c: Suite, secret: array<byte>, key: array<byte>, iv: array<byte>, value: bytes)
    requires c.Laws() && |value| == HASH_SZ
    requires secret.Length == HASH_SZ && key.Length == KEY_SZ && iv.Length == IV_SZ
    modifies secret, key, iv
    ensures Dir(secret[..], key[..], iv[..], 0) == DirOf(c, value)
  {
    Fill(secret, value);
    Fill(key, c.expand(value, "key", [], KEY_SZ));
    Fill(iv, c.expand(value, "iv", [], IV_SZ));
  }
}
