/** Over whole runs the keys of both directions are those of RFC 8446 section 7.2. */
module KeyGenerations {
  import opened Bytes
  import opened Crypto
  import opened KeySchedule
  import opened Record
  import opened SessionSpec
  import opened SessionRuns
  import opened NonceUniqueness
  import opened Lockstep
  import opened RfcSchedule

  lemma {:induction false} GenerationIs(c: Suite, secret: bytes, g: nat)
    ensures Generation(c, Keyed(c, secret), g) == Keyed(c, Updated(c, secret, g))
  {
    hide Rekeyed, Keyed;
    if g > 0 {
      GenerationIs(c, secret, g - 1);
      KeyedSecret(c, Updated(c, secret, g - 1));
      UpdatedNext(c, secret, g - 1, Keyed(c, Updated(c, secret, g - 1)));
    }
  }

  lemma KeyedSecret(c: Suite, secret: bytes)
    ensures Keyed(c, secret).secret == secret
  {}

  /**
   * Over every run of calls, whatever is received: the write direction has the keys of the secret after as
   * many updates as were announced, and every record was sealed with the IV of its generation.
   */
  lemma WriteKeysOverRuns(c: Suite, w: World, calls: seq<Call>, secret: bytes)
    requires Fresh(w.s) && w.s.w == Keyed(c, secret)
    ensures var s := Run(c, w, calls).s;
      && (s.established ==> s.w == Keyed(c, Updated(c, secret, s.gen)).(seqNo := s.w.seqNo))
      && forall i :: 0 <= i < |s.log| ==>
           s.log[i].nonce == Nonce(Keyed(c, Updated(c, secret, s.log[i].gen)).iv, s.log[i].seqNo)
  {
    hide Run, Nonce, Keyed, Updated, Generation;
    var s := Run(c, w, calls).s;
    StartsGenuine(c, w.s);
    RunKeeps(c, w.s.w, w, calls);
    GenerationIs(c, secret, s.gen);
    forall i | 0 <= i < |s.log|
      ensures s.log[i].nonce == Nonce(Keyed(c, Updated(c, secret, s.log[i].gen)).iv, s.log[i].seqNo)
    {
      assert Genuine(c, w.s.w, s.log[i]);
      GenerationIs(c, secret, s.log[i].gen);
    }
  }

  lemma StartsGenuine(c: Suite, s: Sess)
    requires Fresh(s)
    ensures Inv(c, s.w, s)
  {}

  /** How many key updates the peer's records announce. */
  function Updates(ps: seq<PeerRec>): nat {
    if ps == [] then 0 else (if ps[0].PostHandshake? && ps[0].update.Some? then 1 else 0) + Updates(ps[1..])
  }

  /** A peer writes, and so its reader reads, with the keys of the secret after as many updates. */
  lemma {:induction false} PeerKeys(c: Suite, secret: bytes, n: nat, d: Dir, ps: seq<PeerRec>)
    requires d == Keyed(c, Updated(c, secret, n)).(seqNo := d.seqNo)
    ensures var e := PeerDir(c, d, ps); e == Keyed(c, Updated(c, secret, n + Updates(ps))).(seqNo := e.seqNo)
    decreases |ps|
  {
    hide Rekeyed;
    if ps != [] {
      var d1 := PeerAfter(c, d, ps[0]);
      if ps[0].PostHandshake? && ps[0].update.Some? {
        UpdatedNext(c, secret, n, d.Advance());
        PeerKeys(c, secret, n + 1, d1, ps[1..]);
      } else {
        PeerKeys(c, secret, n, d1, ps[1..]);
      }
    }
  }
}
