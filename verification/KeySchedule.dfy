/** The key schedule over the seam (`wn_keyschedule.c`), SHA-256 and AES-128-GCM throughout. */
module KeySchedule {
  import opened Bytes
  import opened Crypto

  function DeriveSecret(c: Suite, secret: bytes, name: string, hash: bytes): bytes {
    c.expand(secret, name, hash, HASH_SZ)
  }

  function FinishedMac(c: Suite, baseKey: bytes, hash: bytes): bytes {
    c.hmac(c.expand(baseKey, "finished", [], HASH_SZ), hash)
  }

  /** One direction of protected traffic: its secret, record key and IV, and the record counter. */
  datatype Dir = Dir(secret: bytes, key: bytes, iv: bytes, seqNo: nat) {
    predicate Sized() {
      |secret| == HASH_SZ && |key| == KEY_SZ && |iv| == IV_SZ && seqNo < TWO64
    }

    // The 64-bit counter wraps, as the C counter does.
    function Advance(): Dir { this.(seqNo := (seqNo + 1) % TWO64) }
  }

  /** The record key and IV that belong to a traffic secret, with a fresh counter. */
  function DirOf(c: Suite, secret: bytes): Dir {
    Dir(secret, c.expand(secret, "key", [], KEY_SZ), c.expand(secret, "iv", [], IV_SZ), 0)
  }

  /** RFC 8446 section 7.2: the next generation of a direction. */
  function Rekeyed(c: Suite, d: Dir): Dir {
    DirOf(c, c.expand(d.secret, "traffic upd", [], HASH_SZ))
  }

  /** Rotate secret, key and IV in the caller's buffers. */
  method KeyUpdate(c: Suite, secret: array<byte>, key: array<byte>, iv: array<byte>)
    requires c.Laws()
    requires secret.Length == HASH_SZ && key.Length == KEY_SZ && iv.Length == IV_SZ
    modifies secret, key, iv
    ensures Dir(secret[..], key[..], iv[..], 0) == Rekeyed(c, Dir(old(secret[..]), old(key[..]), old(iv[..]), 0))
  {
    var newSecret := c.expand(secret[..], "traffic upd", [], HASH_SZ);
    Fill(secret, newSecret);
    var newKey := c.expand(secret[..], "key", [], KEY_SZ);
    Fill(key, newKey);
    var newIv := c.expand(secret[..], "iv", [], IV_SZ);
    Fill(iv, newIv);
  }

  method Fill(a: array<byte>, data: bytes)
    requires a.Length == |data|
    modifies a
    ensures a[..] == data
  {
    forall i | 0 <= i < |data| {
      a[i] := data[i];
    }
  }
}
