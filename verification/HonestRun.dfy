/** Steps of an honest run that both handshakes share. */
module HonestRun {
  import opened Bytes
  import opened Crypto
  import opened KeySchedule
  import opened Transport
  import opened Record
  import opened Handshake
  import opened HandshakeKeys
  import opened ClientStart
  import opened ServerStart
  import CH = ClientHelloSpec
  import SH = ServerHello
  import SB = ServerHelloBuild
  import EE = ServerHelloRoundTrip

  ghost predicate AllSent(sends: seq<bool>) {
    |sends| >= 5 && forall i :: 0 <= i < 5 ==> sends[i]
  }

  /** Both succeeded and read everything; what one writes with, the other reads with. */
  predicate Mirrored(a: HsResult, b: HsResult) {
    && a.ret == Success && b.ret == Success && a.n.inp == [] && b.n.inp == []
    && a.ends.Some? && b.ends.Some?
    && a.ends.value.w == b.ends.value.r && a.ends.value.r == b.ends.value.w
    && a.ends.value.w.seqNo == 0 && a.ends.value.r.seqNo == 0
  }

  // ----- shared steps ----------------------------------------------------------------------

  lemma FirstFlightSent(n: Net, msg: bytes)
    requires |n.sends| >= 4 && n.sends[0] && n.sends[1] && n.sends[2] && n.sends[3]
    ensures SendWithCcs(n, msg)
         == Sending(Success, Net(n.inp, n.out + (PlainRecord(REC_HANDSHAKE, msg) + CCS_RECORD), n.sends[4..]))
  {
    hide PlainRecord, SendPlain;
    SentWhole(n, REC_HANDSHAKE, msg);
    SentWhole(Net(n.inp, n.out + PlainRecord(REC_HANDSHAKE, msg), n.sends[2..]), REC_CCS, [1]);
    assert n.sends[2..][2..] == n.sends[4..];
    Join(n.out, PlainRecord(REC_HANDSHAKE, msg), CCS_RECORD);
  }

  /** Behind a ChangeCipherSpec, the next record is the protected one. */
  lemma ProtectedNext(c: Suite, d: Dir, content: bytes, rest: bytes, cap: nat)
    requires c.Laws() && HEADER_SZ + |content| + 1 + TAG_SZ <= cap && |content| <= MAX_PLAINTEXT
    ensures var rec := Sealed(c, d.key, d.iv, 0, REC_HANDSHAKE, content, 0);
      && |rec| == HEADER_SZ + |content| + 1 + TAG_SZ
      && NextRecord(CCS_RECORD + (rec + rest), cap) == Received(Success, REC_APPDATA, rec, rest)
      && NextRecord(rec + rest, cap) == Received(Success, REC_APPDATA, rec, rest)
      && Unsealed(c, d.key, d.iv, 0, rec) == Opened(Success, content, REC_HANDSHAKE)
  {
    hide Sealed, Unsealed, RecordIn;
    var rec := Sealed(c, d.key, d.iv, 0, REC_HANDSHAKE, content, 0);
    PlainRecordIn(REC_CCS, [1], rec + rest, cap);
    SealedIn(c, d.key, d.iv, 0, REC_HANDSHAKE, content, 0, rest, cap);
    UnsealSealed(c, d.key, d.iv, 0, REC_HANDSHAKE, content, 0);
  }

  /** A protected record that is longer than the buffer is not read. */
  lemma ProtectedOverlong(c: Suite, d: Dir, content: bytes, rest: bytes, cap: nat)
    requires c.Laws() && HEADER_SZ + |content| + 1 + TAG_SZ > cap >= 6 && |content| <= MAX_PLAINTEXT
    ensures var rec := Sealed(c, d.key, d.iv, 0, REC_HANDSHAKE, content, 0);
      NextRecord(CCS_RECORD + (rec + rest), cap).status != Success
  {
    hide Sealed, RecordIn;
    var rec := Sealed(c, d.key, d.iv, 0, REC_HANDSHAKE, content, 0);
    PlainRecordIn(REC_CCS, [1], rec + rest, cap);
    SealedIn(c, d.key, d.iv, 0, REC_HANDSHAKE, content, 0, rest, HEADER_SZ + |content| + 1 + TAG_SZ);
    OverlongUnread(rec, rest, cap, |rec|);
  }

  lemma OverlongUnread(rec: bytes, rest: bytes, cap: nat, enough: nat)
    requires RecordIn(rec + rest, enough).status == Success && RecordIn(rec + rest, enough).rec == rec && |rec| > cap
    ensures RecordIn(rec + rest, cap).status == CryptoErr
  {}

  lemma FinishedSize(c: Suite, secret: bytes, tr: bytes)
    requires c.Laws()
    ensures var m := FinishedMsg(c, secret, tr);
      && |m| == 36 && m[0] == HS_FINISHED && Num24(m, 1) == 32 && m[4..] == FinishedMac(c, secret, c.hash(tr))
  {}

  lemma SecondSplit(a: bytes, b: bytes, d: bytes, rest: bytes)
    ensures a + b + d + rest == a + (b + (d + rest))
  {}

  lemma ReplyRead(sh: bytes, tail: bytes, cap: nat)
    requires 0 < |sh| <= 1024 && 2048 <= cap
    ensures NextRecord(PlainRecord(REC_HANDSHAKE, sh) + tail, cap)
         == Received(Success, REC_HANDSHAKE, PlainRecord(REC_HANDSHAKE, sh), tail)
    ensures PlainRecord(REC_HANDSHAKE, sh)[HEADER_SZ..] == sh
  {
    PlainRecordIn(REC_HANDSHAKE, sh, tail, cap);
  }

  lemma KeysFresh(c: Suite, early: bytes, z: bytes, th: bytes)
    ensures DeriveHsKeys(c, early, z, th).server.seqNo == 0
  {}

  lemma FinishedAccepted(c: Suite, d: Dir, cap: nat, limit: nat, tr: bytes, n: Net, rest: bytes)
    requires c.Laws() && 2048 <= cap && 37 <= limit && n.inp == CCS_RECORD + (FinishedRecord(c, d, tr) + rest)
    ensures AwaitFinished(c, d, cap, limit, tr, n) == Sending(Success, n.(inp := rest))
  {
    hide NextRecord, Sealed, Unsealed, FinishedMsg;
    FinishedSize(c, d.secret, tr);
    ProtectedNext(c, d, FinishedMsg(c, d.secret, tr), rest, cap);
  }

  lemma AwaitKeepsOut(c: Suite, o: Offer, cap: nat, n: Net)
    ensures AwaitServerHello(c, o, cap, n).n.out == n.out
  {}

  /** The client accepts the reply of an honest server to its offer. */
  lemma ReplyAccepted(o: Offer, random: bytes, pub: bytes)
    requires |random| == 32 && random != SH.HRR_RANDOM && |o.sid| == 32 && |pub| == SHARE_SZ
    requires o.psk.Some? ==> o.psk.value < 0x1_0000
    ensures var m := SB.ShBytes(random, o.sid, CH.CIPHER, CH.GROUP, pub, o.psk);
      122 <= |m| <= 128 && Negotiated(o, m) == Share(pub)
  {
    hide SH.ParseSh, SH.HRR_RANDOM, SB.ShBytes;
    ReplySize(pub, o.psk);
    EE.ServerHelloRoundTrip(random, o.sid, CH.CIPHER, CH.GROUP, pub, o.psk);
    EE.ServerHelloSlices(random, o.sid, CH.CIPHER, CH.GROUP, pub, o.psk);
  }

  lemma ReplySize(pub: bytes, psk: Option<nat>)
    requires |pub| == SHARE_SZ
    ensures |SB.PskExt(psk)| <= 6 && |SB.ShExts(CH.GROUP, pub, psk)| == 46 + |SB.PskExt(psk)|
  {}

  /** So it derives the handshake keys over both hellos. */
  lemma ReplyKeyed(c: Suite, o: Offer, cap: nat, random: bytes, priv: bytes, tail: bytes, out: bytes, sends: seq<bool>)
    requires c.Laws() && 2048 <= cap && |random| == 32 && random != SH.HRR_RANDOM && |o.sid| == 32
    requires o.psk.Some? ==> o.psk.value < 0x1_0000
    ensures var m := SB.ShBytes(random, o.sid, CH.CIPHER, CH.GROUP, c.share(priv), o.psk);
      var z := c.agree(o.priv, c.share(priv));
      && z.Some?
      && AwaitServerHello(c, o, cap, Net(PlainRecord(REC_HANDSHAKE, m) + tail, out, sends))
         == Keyed(DeriveHsKeys(c, o.early, z.value, c.hash(o.hello + m)), o.hello + m, Net(tail, out, sends))
  {
    hide NextRecord, Negotiated, DeriveHsKeys, PlainRecord, SB.ShBytes;
    var m := SB.ShBytes(random, o.sid, CH.CIPHER, CH.GROUP, c.share(priv), o.psk);
    Agreed(c, o.priv, priv);
    ReplyAccepted(o, random, c.share(priv));
    ReplyRead(m, tail, cap);
  }

  /** A random that is the retry sentinel makes the client give up. */
  lemma RetryDeclined(c: Suite, o: Offer, cap: nat, random: bytes, pub: bytes, tail: bytes, out: bytes,
                      sends: seq<bool>)
    requires |random| == 32 && random == SH.HRR_RANDOM && |o.sid| == 32 && |pub| == SHARE_SZ && 2048 <= cap
    requires o.psk.Some? ==> o.psk.value < 0x1_0000
    ensures var m := SB.ShBytes(random, o.sid, CH.CIPHER, CH.GROUP, pub, o.psk);
      AwaitServerHello(c, o, cap, Net(PlainRecord(REC_HANDSHAKE, m) + tail, out, sends))
      == Broken(Unsupported, Net(tail, out, sends))
  {
    hide SH.ParseSh, SH.HRR_RANDOM, SB.ShBytes, NextRecord, PlainRecord;
    ReplySize(pub, o.psk);
    EE.ServerHelloRoundTrip(random, o.sid, CH.CIPHER, CH.GROUP, pub, o.psk);
    EE.ServerHelloSlices(random, o.sid, CH.CIPHER, CH.GROUP, pub, o.psk);
    ReplyRead(SB.ShBytes(random, o.sid, CH.CIPHER, CH.GROUP, pub, o.psk), tail, cap);
  }

  lemma Agreed(c: Suite, a: bytes, b: bytes)
    requires c.Laws()
    ensures c.agree(a, c.share(b)).Some? && c.agree(a, c.share(b)) == c.agree(b, c.share(a))
  {}
}
