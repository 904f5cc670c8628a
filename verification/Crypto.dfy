/** The `wc_*` seam: the primitives as total functions, and the laws the shell relies on. */
module Crypto {
  import opened Bytes

  const HASH_SZ: nat := 32
  const KEY_SZ: nat := 16
  const IV_SZ: nat := 12
  const TAG_SZ: nat := 16
  const SHARE_SZ: nat := 32

  datatype Suite = Suite(
    hash: bytes -> bytes,
    extract: (bytes, bytes) -> bytes,                 // salt, input keying material
    expand: (bytes, string, bytes, nat) -> bytes,     // secret, label, context, length
    hmac: (bytes, bytes) -> bytes,                    // key, message
    seal: (bytes, bytes, bytes, bytes) -> bytes,      // key, nonce, additional data, plaintext
    open: (bytes, bytes, bytes, bytes) -> Option<bytes>,
    share: bytes -> bytes,                            // ephemeral private key to public share
    agree: (bytes, bytes) -> Option<bytes>,           // own private key, peer share
    spkiOf: bytes -> bytes,                           // signing key to its SubjectPublicKeyInfo
    sign: (bytes, nat, bytes) -> Option<bytes>,       // signing key, scheme, content
    verify: (bytes, nat, bytes, bytes) -> bool,       // SubjectPublicKeyInfo, scheme, content, signature
    certSigned: (bytes, bytes, nat, bytes) -> bool    // issuer SPKI, child tbs, signature algorithm, signature
  ) {
    /** Output sizes, decryption inverts encryption, the exchange commutes, signatures verify. */
    ghost predicate Laws() {
      SizeLaws() && SealLaws() && AgreeLaws() && SignLaws()
    }

    ghost predicate SizeLaws() {
      && (forall m :: |hash(m)| == HASH_SZ)
      && (forall s, k :: |extract(s, k)| == HASH_SZ)
      && (forall s, l, c, n: nat :: |expand(s, l, c, n)| == n)
      && (forall k, m :: |hmac(k, m)| == HASH_SZ)
      && (forall a :: |share(a)| == SHARE_SZ)
    }

    ghost predicate SealLaws() {
      && (forall k, n, a, p :: |seal(k, n, a, p)| == |p| + TAG_SZ)
      && (forall k, n, a, p :: open(k, n, a, seal(k, n, a, p)) == Some(p))
      && (forall k, n, a, c :: open(k, n, a, c).Some? ==> |open(k, n, a, c).value| + TAG_SZ == |c|)
    }

    ghost predicate AgreeLaws() {
      forall a, b :: agree(a, share(b)).Some? && agree(a, share(b)) == agree(b, share(a))
    }

    ghost predicate SignLaws() {
      forall k, s: nat, t :: sign(k, s, t).Some? ==> verify(spkiOf(k), s, t, sign(k, s, t).value)
    }
  }

  function ToyOpen(ct: bytes): Option<bytes> {
    if |ct| < TAG_SZ then None else Some(ct[..|ct| - TAG_SZ])
  }

  function Toy(): Suite {
    Suite(m => Zeros(32), (s, k) => Zeros(32), (s, l, c, n) => Zeros(n), (k, m) => Zeros(32),
          (k, n, a, p) => p + Zeros(TAG_SZ), (k, n, a, c) => ToyOpen(c),
          a => Zeros(32), (a, b) => Some(Zeros(32)), k => k, (k, s, t) => Some([]),
          (k, s, t, g) => true, (k, t, a, g) => true)
  }

  lemma ToySealLaws()
    ensures Toy().SealLaws()
  {}

  /** A degenerate suite: it shows that the laws do not contradict each other. */
  lemma ToyLaws()
    ensures Toy().Laws()
  {
    ToySealLaws();
    assert Toy().SizeLaws();
  }
}
