/**
 * The key schedule drawn as RFC 8446 section 7.1 draws it: a chain of extractions, one for each
 * input, and under each of its secrets the derived ones, named by their labels.
 */
module RfcSchedule {
  import opened Bytes
  import opened Crypto
  import opened KeySchedule
  import opened HandshakeKeys

  /** The secret after the inputs so far: the salt of each extraction is derived from the one before. */
  function SecretAfter(c: Suite, inputs: seq<bytes>): bytes {
    if inputs == [] then [] else
    var n := |inputs| - 1;
    var salt := if n == 0 then [] else c.expand(SecretAfter(c, inputs[..n]), "derived", c.hash([]), 32);
    c.extract(salt, inputs[n])
  }

  /** A traffic secret of that stage with its record key and IV (sections 7.1 and 7.3); the counter is 0. */
  function Traffic(c: Suite, inputs: seq<bytes>, name: string, transcript: bytes): Dir {
    Keyed(c, c.expand(SecretAfter(c, inputs), name, c.hash(transcript), 32))
  }

  function Keyed(c: Suite, secret: bytes): Dir {
    Dir(secret, c.expand(secret, "key", [], 16), c.expand(secret, "iv", [], 12), 0)
  }

  /** The MAC of a Finished message or a PSK binder (section 4.4.4). */
  function Mac(c: Suite, base: bytes, transcript: bytes): bytes {
    c.hmac(c.expand(base, "finished", [], 32), c.hash(transcript))
  }

  function Finished(c: Suite, base: bytes, transcript: bytes): bytes {
    [20, 0, 0, 32] + Mac(c, base, transcript)
  }

  /** The binder of an external PSK (section 4.2.11.2). */
  function BinderMac(c: Suite, psk: bytes, transcript: bytes): bytes {
    Mac(c, c.expand(SecretAfter(c, [psk]), "ext binder", c.hash([]), 32), transcript)
  }

  lemma SecretAfterOne(c: Suite, psk: bytes)
    ensures SecretAfter(c, [psk]) == c.extract([], psk)
  {}

  lemma SecretAfterTwo(c: Suite, psk: bytes, z: bytes)
    ensures SecretAfter(c, [psk, z]) == c.extract(c.expand(SecretAfter(c, [psk]), "derived", c.hash([]), 32), z)
  {
    assert [psk, z][..1] == [psk];
  }

  lemma SecretAfterThree(c: Suite, psk: bytes, z: bytes, last: bytes)
    ensures SecretAfter(c, [psk, z, last])
      == c.extract(c.expand(SecretAfter(c, [psk, z]), "derived", c.hash([]), 32), last)
  {
    assert [psk, z, last][..2] == [psk, z];
  }

  /** The handshake secret and both handshake directions are those of the drawing. */
  lemma HandshakeStage(c: Suite, psk: bytes, z: bytes, tr: bytes)
    ensures var k := DeriveHsKeys(c, Early(c, psk), z, c.hash(tr));
      && k.hs == SecretAfter(c, [psk, z])
      && k.client == Traffic(c, [psk, z], "c hs traffic", tr) && k.server == Traffic(c, [psk, z], "s hs traffic", tr)
  {
    hide SecretAfter;
    SecretAfterOne(c, psk);
    SecretAfterTwo(c, psk, z);
  }

  /** And the application directions: a client writes with the client's, a server with the server's. */
  lemma ApplicationStage(c: Suite, psk: bytes, z: bytes, role: Role, tr: bytes)
    ensures var inputs := [psk, z, Zeros(32)];
      var cl, sv := Traffic(c, inputs, "c ap traffic", tr), Traffic(c, inputs, "s ap traffic", tr);
      AppEnds(c, role, SecretAfter(c, [psk, z]), c.hash(tr)) == if role.Client? then Ends(cl, sv) else Ends(sv, cl)
  {
    hide SecretAfter;
    SecretAfterThree(c, psk, z, Zeros(32));
  }

  lemma FinishedIs(c: Suite, base: bytes, tr: bytes)
    ensures FinishedMac(c, base, c.hash(tr)) == Mac(c, base, tr) && FinishedMsg(c, base, tr) == Finished(c, base, tr)
  {}

  // ----- key updates -----------------------------------------------------------------------

  /** The traffic secret after `n` key updates (section 7.2). */
  function Updated(c: Suite, secret: bytes, n: nat): bytes {
    if n == 0 then secret else c.expand(Updated(c, secret, n - 1), "traffic upd", [], 32)
  }

  lemma UpdatedNext(c: Suite, secret: bytes, n: nat, d: Dir)
    requires d.secret == Updated(c, secret, n)
    ensures Rekeyed(c, d) == Keyed(c, Updated(c, secret, n + 1))
  {}
}
