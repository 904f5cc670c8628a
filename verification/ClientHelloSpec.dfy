/**
 * What the server's ClientHello parser accepts and returns, read off the message octets
 * (`wn_ClientHello_Parse` in `wn_clienthello.c`). One (EC)DHE group is configured: X25519.
 */
module ClientHelloSpec {
  import opened Bytes

  const HS_CLIENT_HELLO: byte := 1
  const LEGACY_VERSION: nat := 0x0303
  const TLS13: nat := 0x0304
  const CIPHER: nat := 0x1301      // TLS_AES_128_GCM_SHA256
  const GROUP: nat := 0x001d       // x25519
  const PUB_SZ: nat := 32
  const MAX_EXTS: nat := 40

  const EXT_SERVER_NAME: nat := 0
  const EXT_GROUPS: nat := 10
  const EXT_SIG_ALGS: nat := 13
  const EXT_PSK: nat := 41
  const EXT_VERSIONS: nat := 43
  const EXT_KEX_MODES: nat := 45
  const EXT_KEY_SHARE: nat := 51

  /** The 16-bit words of an octet string; an odd last octet is ignored. */
  function Words(b: bytes): (r: seq<nat>)
    ensures |r| == |b| / 2
  {
    seq(|b| / 2, i requires 0 <= i < |b| / 2 => Num16(b, 2 * i))
  }

  // ----- extension bodies ------------------------------------------------------------------

  /**
   * The client_shares entries: `limit` octets of the vector are left, `at` is the offset of `b` in
   * the message. The share of our group that comes last is kept. An entry may run past the vector
   * as long as it ends with the extension: the vector is not required to be filled exactly.
   */
  function KeyShareEntries(b: bytes, limit: int, at: nat, cur: Option<Slice>): Option<Option<Slice>>
    decreases |b|
  {
    if limit <= 0 then (if b == [] then Some(cur) else None)
    else if |b| < 4 || |b| < 4 + Num16(b, 2) then None
    else
      var n := Num16(b, 2);
      KeyShareEntries(b[4 + n..], limit - 4 - n, at + 4 + n,
                      if Num16(b, 0) == GROUP then Some(Slice(at + 4, n)) else cur)
  }

  function KeyShareBody(b: bytes, at: nat): Option<Option<Slice>> {
    if |b| < 2 || 2 + Num16(b, 0) > |b| then None
    else KeyShareEntries(b[2..], Num16(b, 0), at + 2, None)
  }

  function SigAlgsBody(b: bytes, at: nat): Option<Slice> {
    if |b| < 2 || 2 + Num16(b, 0) != |b| then None else Some(Slice(at + 2, |b| - 2))
  }

  /** Whether our group is offered; an odd list length is rounded down. */
  function GroupsBody(b: bytes): Option<bool> {
    if |b| < 2 || |b| != 2 + Num16(b, 0) / 2 * 2 then None else Some(GROUP in Words(b[2..]))
  }

  function VersionsBody(b: bytes): Option<bool> {
    if |b| < 1 || |b| != 1 + (b[0] as int) / 2 * 2 then None else Some(TLS13 in Words(b[1..]))
  }

  function KexModesBody(b: bytes): Option<bool> {
    if |b| < 1 || |b| != 1 + (b[0] as int) then None else Some(1 in b[1..])
  }

  /** PskIdentity entries: a non-empty identity and a four-octet ticket age each. */
  function Identities(b: bytes): (r: Option<seq<bytes>>)
    decreases |b|
  {
    if b == [] then Some([])
    else if |b| < 2 || Num16(b, 0) == 0 || |b| < 6 + Num16(b, 0) then None
    else
      var n := Num16(b, 0);
      var rest := Identities(b[6 + n..]);
      if rest.None? then None else Some([b[2..2 + n]] + rest.value)
  }

  function Binders(b: bytes): (r: Option<seq<bytes>>)
    decreases |b|
  {
    if b == [] then Some([])
    else if |b| < 1 + (b[0] as int) then None
    else
      var rest := Binders(b[1 + (b[0] as int)..]);
      if rest.None? then None else Some([b[1..1 + (b[0] as int)]] + rest.value)
  }

  /** The offered PSK that the server looks at: the first identity and the first binder. */
  datatype Psk = Psk(identity: Slice, binder: Slice, truncLen: nat)

  function PskBody(b: bytes, at: nat): Option<Psk> {
    if |b| < 2 || 2 + Num16(b, 0) > |b| then None else
    var bnd := 2 + Num16(b, 0);
    var ids := Identities(b[2..bnd]);
    if ids.None? || |b| < bnd + 2 || bnd + 2 + Num16(b, bnd) != |b| then None else
    var binders := Binders(b[bnd + 2..]);
    if binders.None? || ids.value == [] || |ids.value| != |binders.value| then None
    else Some(Psk(Slice(at + 4, |ids.value[0]|), Slice(at + bnd + 3, |binders.value[0]|), at + bnd))
  }

  // ----- the extension block ---------------------------------------------------------------

  /** What has been learnt from the extensions so far. */
  datatype Known = Known(seen: seq<nat>, tls13: bool, pskDhe: bool, haveGroups: bool, groupOffered: bool,
                         keyShare: Option<Slice>, sigAlgs: Option<Slice>, psk: Option<Psk>)

  const NOTHING: Known := Known([], false, false, false, false, None, None, None)

  /** What the body `b` of one extension, which starts at offset `at`, adds; None is a decoding error. */
  function LearnBody(k: Known, et: nat, b: bytes, at: nat): Option<Known> {
    if et == EXT_KEY_SHARE then
      var v := KeyShareBody(b, at); if v.None? then None else Some(k.(keyShare := v.value))
    else if et == EXT_SIG_ALGS then
      var v := SigAlgsBody(b, at); if v.None? then None else Some(k.(sigAlgs := v))
    else if et == EXT_GROUPS then
      var v := GroupsBody(b); if v.None? then None else Some(k.(haveGroups := true, groupOffered := v.value))
    else if et == EXT_VERSIONS then
      var v := VersionsBody(b); if v.None? then None else Some(k.(tls13 := v.value))
    else if et == EXT_KEX_MODES then
      var v := KexModesBody(b); if v.None? then None else Some(k.(pskDhe := v.value))
    else if et == EXT_PSK then
      var v := PskBody(b, at); if v.None? then None else Some(k.(psk := v))
    else Some(k)
  }

  /** No extension follows pre_shared_key, none is repeated, and there are at most 40. */
  function Learn(k: Known, et: nat, b: bytes, at: nat): Option<Known> {
    if k.psk.Some? || et in k.seen || |k.seen| >= MAX_EXTS then None else
    var r := LearnBody(k, et, b, at);
    if r.None? then None else Some(r.value.(seen := k.seen + [et]))
  }

  function Extensions(b: bytes, at: nat, k: Known): Option<Known>
    decreases |b|
  {
    if b == [] then Some(k)
    else if |b| < 4 || |b| < 4 + Num16(b, 2) then None
    else
      var n := Num16(b, 2);
      var k1 := Learn(k, Num16(b, 0), b[4..4 + n], at + 4);
      if k1.None? then None else Extensions(b[4 + n..], at + 4 + n, k1.value)
  }

  // ----- the whole message -----------------------------------------------------------------

  /** The fixed part: session id, whether our suite is offered, where the extensions start. */
  datatype Prelude = Prelude(sid: Slice, cipher: bool, extAt: nat)

  function PreludeOf(msg: bytes): (r: Option<Prelude>)
    ensures r.Some? ==> r.value.extAt <= |msg| && r.value.sid.In(msg)
  {
    if |msg| < 39 || 4 + Num24(msg, 1) != |msg| || Num16(msg, 4) != LEGACY_VERSION || msg[38] > 32 then None else
    var p := 39 + (msg[38] as int);
    if |msg| < p + 2 || Num16(msg, p) % 2 != 0 then None else
    var q := p + 2 + Num16(msg, p);
    if |msg| < q + 4 || msg[q] != 1 || msg[q + 1] != 0 || q + 4 + Num16(msg, q + 2) != |msg| then None
    else Some(Prelude(Slice(39, msg[38]), CIPHER in Words(msg[p + 2..q]), q + 4))
  }

  /** A decoded ClientHello: slices of the message, None where the C code leaves a flag at 0. */
  datatype Parsed = Parsed(sid: Slice, keyShare: Option<Slice>, sigAlgs: Option<Slice>, psk: Option<Psk>)

  datatype Result = Accept(hello: Parsed) | Reject(status: Status)

  predicate Acceptable(cipher: bool, k: Known) {
    && cipher && k.tls13 && k.haveGroups && k.groupOffered
    && (k.keyShare.Some? ==> k.keyShare.value.len == PUB_SZ)
    && (k.psk.Some? ==> k.psk.value.binder.len == 32 && k.pskDhe)
  }

  function ParseHello(msg: bytes): (r: Result)
    ensures r.Reject? ==> r.status != Success
  {
    if msg == [] || msg[0] != HS_CLIENT_HELLO then Reject(UnexpectedMsg) else
    var pre := PreludeOf(msg);
    if pre.None? then Reject(DecodeErr) else
    var k := Extensions(msg[pre.value.extAt..], pre.value.extAt, NOTHING);
    if k.None? then Reject(DecodeErr)
    else if !Acceptable(pre.value.cipher, k.value) then Reject(IllegalParam)
    else Accept(Parsed(pre.value.sid, k.value.keyShare, k.value.sigAlgs, k.value.psk))
  }
}
