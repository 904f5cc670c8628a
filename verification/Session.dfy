/** `wn_Session`: the object whose keys, counters and flags the calls update in place. */
module Session {
  import opened Bytes
  import opened Crypto
  import opened KeySchedule
  import opened Transport
  import opened Record
  import opened Msg
  import Spec = SessionSpec

  class Session {
    const suite: Suite
    const pipe: Pipe
    const scratch: array<byte>
    const cAppSecret: array<byte>
    const sAppSecret: array<byte>
    const cKey: array<byte>
    const cIv: array<byte>
    const sKey: array<byte>
    const sIv: array<byte>
    var cSeq: nat
    var sSeq: nat
    var established: bool
    var closed: bool
    var scratchLen: nat
    ghost var gen: nat
    ghost var log: seq<Spec.Seal>

    /** A zeroed session, not yet established. */
    constructor (suite: Suite, pipe: Pipe, scratch: array<byte>)
      requires suite.Laws() && scratch.Length <= MAX_BUFFER
      ensures this.suite == suite && this.pipe == pipe && this.scratch == scratch
      ensures fresh(cAppSecret) && fresh(sAppSecret) && fresh(cKey) && fresh(cIv) && fresh(sKey) && fresh(sIv)
      ensures Valid() && !established && !closed && log == []
    {
      this.suite, this.pipe, this.scratch := suite, pipe, scratch;
      cAppSecret, sAppSecret := new byte[32](_ => 0), new byte[32](_ => 0);
      cKey, sKey := new byte[16](_ => 0), new byte[16](_ => 0);
      cIv, sIv := new byte[12](_ => 0), new byte[12](_ => 0);
      cSeq, sSeq, established, closed, scratchLen := 0, 0, false, false, scratch.Length;
      gen, log := 0, [];
    }

    ghost predicate Valid()
      reads this, cIv, sIv
    {
      && suite.Laws()
      && cAppSecret.Length == HASH_SZ && sAppSecret.Length == HASH_SZ && cAppSecret != sAppSecret
      && cKey.Length == KEY_SZ && sKey.Length == KEY_SZ && cKey != sKey
      && cIv.Length == IV_SZ && sIv.Length == IV_SZ && cIv != sIv
      && scratch !in {cAppSecret, sAppSecret, cKey, sKey, cIv, sIv}
      && cSeq < TWO64 && sSeq < TWO64
      && scratchLen <= scratch.Length <= MAX_BUFFER
      && (established ==> HEADER_SZ <= scratchLen)
    }

    ghost function Writing(): Dir
      reads this, cAppSecret, cKey, cIv
    {
      Dir(cAppSecret[..], cKey[..], cIv[..], cSeq)
    }

    ghost function Reading(): Dir
      reads this, sAppSecret, sKey, sIv
    {
      Dir(sAppSecret[..], sKey[..], sIv[..], sSeq)
    }

    ghost function State(): Spec.Sess
      reads this, cAppSecret, cKey, cIv, sAppSecret, sKey, sIv
    {
      Spec.Sess(Writing(), Reading(), established, closed, scratchLen, gen, log)
    }

    /** Seal one record into `buf` and advance the write counter. */
    method SealInto(buf: array<byte>, ctype: byte, content: bytes) returns (recLen: nat)
      requires Valid()
      requires |content| <= MAX_PLAINTEXT && HEADER_SZ + |content| + 1 + TAG_SZ <= buf.Length
      requires buf !in {cAppSecret, sAppSecret, cKey, sKey, cIv, sIv}
      modifies this`cSeq, this`log, buf
      ensures Valid()
      ensures State() == old(State()).Emitted(ctype, content)
      ensures recLen <= buf.Length && buf[..recLen] == old(State()).RecordFor(suite, ctype, content)
    {
      hide Sealed, Nonce;
      ghost var was := State();
      var ret;
      ret, recLen := Protect(suite, buf, 0, cKey[..], cIv[..], cSeq, ctype, content);
      log := was.Emitted(ctype, content).log;
      cSeq := (cSeq + 1) % TWO64;
    }

    method RotateWrite()
      requires Valid()
      modifies this`cSeq, this`gen, cAppSecret, cKey, cIv
      ensures Valid()
      ensures State() == old(State()).(w := Rekeyed(suite, old(Writing())), gen := old(gen) + 1)
    {
      KeyUpdate(suite, cAppSecret, cKey, cIv);
      gen := gen + 1;
      cSeq := 0;
    }

    method RotateRead()
      requires Valid()
      modifies this`sSeq, sAppSecret, sKey, sIv
      ensures Valid()
      ensures State() == Spec.PeerRekeyed(suite, old(State()))
    {
      KeyUpdate(suite, sAppSecret, sKey, sIv);
      sSeq := 0;
    }

    /** Announce a write-key update to the peer, then rotate the write keys. */
    method SendKeyUpdate() returns (ret: Status)
      requires Valid()
      modifies this, pipe, cAppSecret, cKey, cIv
      ensures Valid()
      ensures Spec.Outcome(ret, State(), pipe.State()) == Spec.SendKeyUpdate(suite, old(State()), old(pipe.State()))
    {
      hide Sealed, Nonce;
      ret := Success;
      var rec := new byte[HEADER_SZ + 5 + 1 + TAG_SZ];
      var recLen := SealInto(rec, REC_HANDSHAKE, [24, 0, 0, 1, 0]);
      var ok := pipe.Send(rec[..recLen]);
      if !ok {
        ret := CryptoErr;
      }
      if ret == Success {
        RotateWrite();
      }
    }

    /**
     * Process the messages of a decrypted post-handshake record. `msg` still lies in the scratch
     * buffer, which this method may not modify: the reply is built in a buffer of its own.
     */
    method PostHs(msg: bytes) returns (ret: Status)
      requires Valid() && |msg| <= MAX_BUFFER
      modifies this, pipe, cAppSecret, cKey, cIv, sAppSecret, sKey, sIv
      ensures Valid()
      ensures Spec.Outcome(ret, State(), pipe.State()) == Spec.PostHs(suite, old(State()), old(pipe.State()), msg)
    {
      ret := Success;
      var r := new Reader(msg);
      ghost var goal := Spec.PostHs(suite, State(), pipe.State(), msg);
      assert msg[0..] == msg;
      while r.pos < |msg| && ret == Success
        invariant r.Valid() && r.data == msg && Valid()
        invariant ret == Success ==> !r.err && Spec.PostHs(suite, State(), pipe.State(), msg[r.pos..]) == goal
        invariant ret != Success ==> Spec.Outcome(ret, State(), pipe.State()) == goal
        decreases |msg| - r.pos, ret == Success
      {
        ghost var rest := msg[r.pos..];
        ret := PostHsMessage(r, msg);
        if ret == Success && r.err {
          ret := DecodeErr;
        }
      }
      assert ret == Success ==> msg[r.pos..] == [];
    }

    // Rotate the read keys, and answer when asked to.
    method OnKeyUpdate(requested: bool) returns (ret: Status)
      requires Valid()
      modifies this, pipe, cAppSecret, cKey, cIv, sAppSecret, sKey, sIv
      ensures Valid()
      ensures var s1 := Spec.PeerRekeyed(suite, old(State()));
        Spec.Outcome(ret, State(), pipe.State())
        == if requested then Spec.SendKeyUpdate(suite, s1, old(pipe.State()))
           else Spec.Outcome(Success, s1, old(pipe.State()))
    {
      hide Spec.PeerRekeyed, Spec.SendKeyUpdate;
      ret := Success;
      RotateRead();
      if requested {
        ret := SendKeyUpdate();
      }
    }

    /** One message of a post-handshake record: the reader moves past it, or an error is reported. */
    method PostHsMessage(r: Reader, msg: bytes) returns (ret: Status)
      requires Valid() && r.Valid() && r.data == msg && !r.err && r.pos < |msg|
      modifies this, pipe, cAppSecret, cKey, cIv, sAppSecret, sKey, sIv, r
      ensures Valid() && r.Valid() && r.pos >= old(r.pos)
      ensures var goal := Spec.PostHs(suite, old(State()), old(pipe.State()), msg[old(r.pos)..]);
        if ret == Success && !r.err
        then r.pos > old(r.pos) && Spec.PostHs(suite, State(), pipe.State(), msg[r.pos..]) == goal
        else goal == Spec.Outcome(if ret == Success then DecodeErr else ret, State(), pipe.State())
    {
      hide Sealed, Nonce, Num24, Spec.PeerRekeyed, Spec.SendKeyUpdate, Spec.PostHs;
      ret := Success;
      ghost var rest := msg[r.pos..];
      ghost var at := r.pos;
      if |rest| >= 4 {
        Num24Slice(msg, at, |msg|, 1);
        assert rest == msg[at..|msg|];
      }
      Spec.PostHsFirst(suite, State(), pipe.State(), rest);
      var mType := r.GetU8();
      var mLen := r.GetU24();
      if mType == 4 {
        var _ := r.GetBytes(mLen);
        assert !r.err ==> rest[4 + mLen..] == msg[r.pos..];
      } else if mType == 24 {
        var req := r.GetU8();
        assert !r.err ==> rest[5..] == msg[r.pos..];
        if r.err || mLen != 1 || req > 1 {
          ret := DecodeErr;
        }
        if ret == Success {
          ret := OnKeyUpdate(req == 1);
        }
      } else {
        ret := UnexpectedMsg;
      }
    }

    /** Encrypt and send one application-data record. */
    method Send(data: bytes) returns (ret: Status)
      requires Valid()
      modifies this, pipe, scratch
      ensures Valid()
      ensures Spec.Outcome(ret, State(), pipe.State()) == Spec.Send(suite, old(State()), old(pipe.State()), data)
    {
      var overhead := HEADER_SZ + 1 + TAG_SZ;
      ret := Success;
      if closed {
        ret := Closed;
      }
      if ret == Success && !established {
        ret := BadState;
      }
      if ret == Success && (|data| > MAX_PLAINTEXT || scratchLen < overhead || |data| > scratchLen - overhead) {
        ret := InvalidArg;
      }
      if ret == Success {
        var recLen := SealInto(scratch, REC_APPDATA, data);
        var ok := pipe.Send(scratch[..recLen]);
        if !ok {
          ret := CryptoErr;
        }
      }
    }

    /**
     * Receive one application-data record, answering what comes before it. Each record is read
     * into the scratch buffer and decrypted in place behind its header.
     */
    method Recv(out: array<byte>, outCap: nat) returns (ret: Status, outLen: nat)
      requires Valid() && outCap <= out.Length
      requires out !in {scratch, cAppSecret, sAppSecret, cKey, sKey, cIv, sIv}
      modifies this, pipe, scratch, cAppSecret, cKey, cIv, sAppSecret, sKey, sIv, out
      ensures Valid() && outLen <= outCap
      ensures Spec.RecvOutcome(ret, State(), pipe.State(), out[..outLen])
           == Spec.Recv(suite, old(State()), old(pipe.State()), outCap)
    {
      ret, outLen := Success, 0;
      if closed {
        ret := Closed;
      }
      if ret == Success && !established {
        ret := BadState;
      }
      if ret == Success {
        ret, outLen := RecvRecords(out, outCap);
      }
    }

    // The receive loop of an open session.
    method RecvRecords(out: array<byte>, outCap: nat) returns (ret: Status, outLen: nat)
      requires Valid() && established && !closed && outCap <= out.Length
      requires out !in {scratch, cAppSecret, sAppSecret, cKey, sKey, cIv, sIv}
      modifies this, pipe, scratch, cAppSecret, cKey, cIv, sAppSecret, sKey, sIv, out
      ensures Valid() && outLen <= outCap
      ensures Spec.RecvOutcome(ret, State(), pipe.State(), out[..outLen])
           == Spec.RecvLoop(suite, old(State()), old(pipe.State()), outCap)
    {
      ret, outLen := Success, 0;
      var done := false;
      ghost var goal := Spec.RecvLoop(suite, State(), pipe.State(), outCap);
      while ret == Success && !done
        invariant Valid() && outLen <= outCap
        invariant ret == Success ==> established && !closed
        invariant if ret == Success && !done
                  then Spec.RecvLoop(suite, State(), pipe.State(), outCap) == goal
                  else Spec.RecvOutcome(ret, State(), pipe.State(), out[..outLen]) == goal
        decreases |pipe.inp|, ret == Success && !done
      {
        ret, outLen, done := RecvOne(out, outCap);
      }
    }

    /** One iteration of the receive loop. */
    method RecvOne(out: array<byte>, outCap: nat) returns (ret: Status, outLen: nat, done: bool)
      requires Valid() && established && !closed && outCap <= out.Length
      requires out !in {scratch, cAppSecret, sAppSecret, cKey, sKey, cIv, sIv}
      modifies this, pipe, scratch, cAppSecret, cKey, cIv, sAppSecret, sKey, sIv, out
      ensures Valid() && outLen <= outCap && (ret == Success ==> established && !closed)
      ensures |pipe.inp| <= |old(pipe.inp)|
      ensures var st := Spec.RecvStep(suite, old(State()), old(pipe.State()), outCap);
        if ret == Success && !done
        then st == Spec.More(State(), pipe.State())
        else st == Spec.Done(Spec.RecvOutcome(ret, State(), pipe.State(), out[..outLen]))
    {
      outLen, done := 0, false;
      ghost var n0 := pipe.State();
      ghost var got := RecordIn(n0.inp, scratchLen);
      var rtype, recLen;
      ret, rtype, recLen := RecvRecord(pipe, scratch, 0, scratchLen);
      assert pipe.State() == n0.(inp := got.rest);
      if ret == Success && rtype == REC_CCS {
        ret := UnexpectedMsg;
      }
      if ret == Success {
        ret, outLen, done := OpenRecord(out, outCap, recLen, got.rec);
      }
    }

    /** Decrypt the record in the scratch buffer in place and act on it. */
    method OpenRecord(out: array<byte>, outCap: nat, recLen: nat, ghost rec: bytes)
      returns (ret: Status, outLen: nat, done: bool)
      requires Valid() && established && !closed && outCap <= out.Length
      requires out !in {scratch, cAppSecret, sAppSecret, cKey, sKey, cIv, sIv}
      requires recLen <= scratch.Length && scratch[0..recLen] == rec
      modifies this, pipe, scratch, cAppSecret, cKey, cIv, sAppSecret, sKey, sIv, out
      ensures Valid() && outLen <= outCap && (ret == Success ==> established && !closed)
      ensures pipe.inp == old(pipe.inp)
      ensures var o := Unsealed(suite, old(sKey[..]), old(sIv[..]), old(sSeq), rec);
        if o.status != Success
        then ret == o.status && outLen == 0 && State() == old(State()) && pipe.State() == old(pipe.State())
        else HandledAs(ret, outLen, done, out,
               Spec.Dispatch(suite, old(State()).(r := old(Reading()).Advance()), old(pipe.State()), outCap, o))
    {
      hide Nonce, Unsealed, Spec.Dispatch;
      outLen, done := 0, false;
      ghost var o := Unsealed(suite, sKey[..], sIv[..], sSeq, rec);
      var plainLen, ctype;
      ret, plainLen, ctype := Unprotect(suite, scratch, HEADER_SZ, sKey[..], sIv[..], sSeq, scratch, 0, recLen);
      if ret == Success {
        sSeq := (sSeq + 1) % TWO64;
        ret, outLen, done := Handle(out, outCap, plainLen, ctype, o);
      }
    }

    ghost predicate HandledAs(ret: Status, outLen: nat, done: bool, out: array<byte>, st: Spec.Step)
      reads this, pipe, out, cAppSecret, cKey, cIv, sAppSecret, sKey, sIv
      requires outLen <= out.Length
    {
      if ret == Success && !done
      then st == Spec.More(State(), pipe.State())
      else st == Spec.Done(Spec.RecvOutcome(ret, State(), pipe.State(), out[..outLen]))
    }

    /** Act on the record whose plaintext `o` lies in the scratch buffer. */
    method Handle(out: array<byte>, outCap: nat, plainLen: nat, ctype: byte, ghost o: Opened)
      returns (ret: Status, outLen: nat, done: bool)
      requires Valid() && established && !closed && outCap <= out.Length
      requires out !in {scratch, cAppSecret, sAppSecret, cKey, sKey, cIv, sIv}
      requires HEADER_SZ + plainLen <= scratch.Length
      requires o == Opened(Success, scratch[HEADER_SZ..HEADER_SZ + plainLen], ctype)
      modifies this, pipe, cAppSecret, cKey, cIv, sAppSecret, sKey, sIv, out
      ensures Valid() && outLen <= outCap && (ret == Success ==> established && !closed)
      ensures pipe.inp == old(pipe.inp)
      ensures HandledAs(ret, outLen, done, out, Spec.Dispatch(suite, old(State()), old(pipe.State()), outCap, o))
    {
      ret, outLen, done := Success, 0, false;
      if ctype == REC_APPDATA {
        if plainLen > outCap {
          ret := InvalidArg;
        } else {
          Overwrite(out, 0, scratch[HEADER_SZ..HEADER_SZ + plainLen]);
          outLen, done := plainLen, true;
          assert out[..outLen] == o.content;
        }
      } else if ctype == REC_HANDSHAKE {
        ret := PostHs(scratch[HEADER_SZ..HEADER_SZ + plainLen]);
      } else if ctype == REC_ALERT {
        if plainLen >= 2 && scratch[HEADER_SZ + 1] == 0 {
          closed := true;
          ret := Closed;
        } else {
          ret := CryptoErr;
        }
      } else {
        ret := UnexpectedMsg;
      }
    }

    /** Send close_notify if the session is open, then wipe it. */
    method Close() returns (ret: Status)
      requires Valid()
      modifies this, pipe, cAppSecret, cKey, cIv, sAppSecret, sKey, sIv
      ensures Valid()
      ensures Spec.Outcome(ret, State(), pipe.State()) == Spec.Close(suite, old(State()), old(pipe.State()))
    {
      hide Sealed, Nonce;
      ret := Success;
      if !closed && established {
        var rec := new byte[HEADER_SZ + 2 + 1 + TAG_SZ];
        var recLen;
        ret, recLen := Protect(suite, rec, 0, cKey[..], cIv[..], cSeq, REC_ALERT, [1, 0]);
        log := old(State()).Logged(REC_ALERT, [1, 0]).log;
        var _ := pipe.Send(rec[..recLen]);
      }
      Wipe();
    }

    method Wipe()
      requires Valid()
      modifies this, cAppSecret, cKey, cIv, sAppSecret, sKey, sIv
      ensures Valid()
      ensures State() == old(State()).Wiped()
    {
      WipeKeys(cAppSecret, cKey, cIv);
      WipeKeys(sAppSecret, sKey, sIv);
      cSeq, sSeq, established, closed, scratchLen := 0, 0, false, false, 0;
    }

    static method WipeKeys(secret: array<byte>, key: array<byte>, iv: array<byte>)
      requires secret.Length == HASH_SZ && key.Length == KEY_SZ && iv.Length == IV_SZ
      modifies secret, key, iv
      ensures Dir(secret[..], key[..], iv[..], 0) == Dir(Zeros(HASH_SZ), Zeros(KEY_SZ), Zeros(IV_SZ), 0)
    {
      Fill(secret, Zeros(HASH_SZ));
      Fill(key, Zeros(KEY_SZ));
      Fill(iv, Zeros(IV_SZ));
    }
  }
}
