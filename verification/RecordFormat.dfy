/**
 * Records as RFC 8446 section 5 lays them out: exactly which octets are read as a record, what a
 * protected record consists of, and exactly which records open to which content.
 */
module RecordFormat {
  import opened Bytes
  import opened Crypto
  import opened Transport
  import opened Record
  import opened Handshake

  // ----- framing ---------------------------------------------------------------------------

  /** A header with a length of 1 to 16640, and that many octets; a ChangeCipherSpec is one octet 1. */
  predicate IsRecord(rec: bytes, cap: nat) {
    && 5 < |rec| <= cap && |rec| <= 5 + 16640
    && 256 * (rec[3] as int) + rec[4] as int == |rec| - 5
    && (rec[0] == 20 ==> rec[5..] == [1])
  }

  /** A record is read if and only if it stands at the front of the input; the version octets are ignored. */
  lemma RecordExactly(inp: bytes, cap: nat, ctype: byte, rec: bytes, rest: bytes)
    ensures RecordIn(inp, cap) == Received(Success, ctype, rec, rest)
      <==> inp == rec + rest && IsRecord(rec, cap) && ctype == rec[0]
  {
    if RecordIn(inp, cap) == Received(Success, ctype, rec, rest) {
      assert rec[3] == inp[3] && rec[4] == inp[4];
    }
    if inp == rec + rest && IsRecord(rec, cap) && ctype == rec[0] {
      RecordInReads(rec, rest, cap);
    }
  }

  /** Nothing but ChangeCipherSpecs. */
  ghost predicate AllCcs(recs: seq<bytes>, cap: nat) {
    forall i :: 0 <= i < |recs| ==> IsRecord(recs[i], cap) && recs[i][0] == 20
  }

  function Flat(recs: seq<bytes>): bytes {
    if recs == [] then [] else recs[0] + Flat(recs[1..])
  }

  ghost predicate BehindCcs(inp: bytes, cap: nat, recs: seq<bytes>, rec: bytes, rest: bytes) {
    AllCcs(recs, cap) && IsRecord(rec, cap) && rec[0] != 20 && inp == Flat(recs) + (rec + rest)
  }

  /** The next record is the first one that is not a ChangeCipherSpec. */
  lemma {:induction false} NextRecordBehindCcs(inp: bytes, cap: nat) returns (recs: seq<bytes>)
    requires NextRecord(inp, cap).status == Success
    ensures var r := NextRecord(inp, cap); BehindCcs(inp, cap, recs, r.rec, r.rest) && r.ctype == r.rec[0]
    decreases |inp|
  {
    hide RecordIn, IsRecord;
    var r := RecordIn(inp, cap);
    RecordExactly(inp, cap, r.ctype, r.rec, r.rest);
    recs := [];
    if r.ctype == REC_CCS {
      var more := NextRecordBehindCcs(r.rest, cap);
      recs := [r.rec] + more;
      assert recs[1..] == more;
      var got := NextRecord(inp, cap);
      Join(r.rec, Flat(more), got.rec + got.rest);
    } else {
      assert Flat([]) + (r.rec + r.rest) == r.rec + r.rest;
    }
  }

  lemma {:induction false} BehindCcsIsNext(inp: bytes, cap: nat, recs: seq<bytes>, rec: bytes, rest: bytes)
    requires BehindCcs(inp, cap, recs, rec, rest)
    ensures NextRecord(inp, cap) == Received(Success, rec[0], rec, rest)
    decreases |recs|
  {
    hide RecordIn;
    if recs == [] {
      assert inp == rec + rest;
      RecordExactly(inp, cap, rec[0], rec, rest);
    } else {
      var more := Flat(recs[1..]) + (rec + rest);
      Join(recs[0], Flat(recs[1..]), rec + rest);
      RecordExactly(inp, cap, 20, recs[0], more);
      BehindCcsIsNext(more, cap, recs[1..], rec, rest);
    }
  }

  lemma NextRecordExactly(inp: bytes, cap: nat, rec: bytes, rest: bytes)
    ensures (exists t :: NextRecord(inp, cap) == Received(Success, t, rec, rest))
      <==> exists recs :: BehindCcs(inp, cap, recs, rec, rest)
  {
    hide NextRecord, BehindCcs;
    if t :| NextRecord(inp, cap) == Received(Success, t, rec, rest) {
      var recs := NextRecordBehindCcs(inp, cap);
    }
    if recs :| BehindCcs(inp, cap, recs, rec, rest) {
      BehindCcsIsNext(inp, cap, recs, rec, rest);
    }
  }

  // ----- protection ------------------------------------------------------------------------

  /** Content, its type, and `pad` zero octets. */
  predicate IsInner(inner: bytes, content: bytes, ctype: byte, pad: nat) {
    && |inner| == |content| + 1 + pad && inner[..|content|] == content && inner[|content|] == ctype
    && forall i :: |content| < i < |inner| ==> inner[i] == 0
  }

  /**
   * A protected record is of type 23 and version 3.3, states the length of its encrypted part, and this
   * is the content, its type and the padding, sealed with its own header as additional data.
   */
  lemma SealedFormat(c: Suite, key: bytes, iv: bytes, seqNo: nat, ctype: byte, content: bytes, pad: nat)
    requires c.Laws() && |content| + 1 + pad + TAG_SZ < 0x1_0000
    ensures var rec := Sealed(c, key, iv, seqNo, ctype, content, pad);
      && |rec| > 5 && rec[..3] == [23, 3, 3] && 256 * (rec[3] as int) + rec[4] as int == |rec| - 5
      && exists inner :: IsInner(inner, content, ctype, pad) && rec[5..] == c.seal(key, Nonce(iv, seqNo), rec[..5], inner)
  {
    hide Nonce, U16;
    var inner := content + [ctype] + Zeros(pad);
    var rec := Sealed(c, key, iv, seqNo, ctype, content, pad);
    var n := |inner| + TAG_SZ;
    assert rec[..5] == Header(REC_APPDATA, n) && rec[3..5] == U16(n);
    Num16Of(rec, 3, n);
    assert IsInner(inner, content, ctype, pad);
    assert rec[5..] == c.seal(key, Nonce(iv, seqNo), rec[..5], inner);
  }

  lemma {:induction false} UnpaddedOfZeros(x: bytes, t: byte, pad: nat)
    requires t != 0
    ensures Unpadded(x + [t] + Zeros(pad)) == |x| + 1
    decreases pad
  {
    var inner := x + [t] + Zeros(pad);
    if pad > 0 {
      assert inner[..|inner| - 1] == x + [t] + Zeros(pad - 1);
      UnpaddedOfZeros(x, t, pad - 1);
    }
  }

  /**
   * A record opens to a content and a type if and only if its encrypted part, of 17 octets or more,
   * decrypts with the record's header as additional data to that content, the type, which is not zero,
   * and zero octets.
   */
  lemma UnsealedExactly(c: Suite, key: bytes, iv: bytes, seqNo: nat, rec: bytes, content: bytes, ctype: byte)
    ensures Unsealed(c, key, iv, seqNo, rec) == Opened(Success, content, ctype)
      <==> |rec| >= 22 && ctype != 0
           && exists pad: nat ::
                c.open(key, Nonce(iv, seqNo), rec[..5], rec[5..]) == Some(content + [ctype] + Zeros(pad))
  {
    hide Nonce, Unpadded;
    if Unsealed(c, key, iv, seqNo, rec) == Opened(Success, content, ctype) {
      var inner := c.open(key, Nonce(iv, seqNo), rec[..5], rec[5..]).value;
      var n := Unpadded(inner);
      assert inner == content + [ctype] + Zeros(|inner| - n);
    }
    if |rec| >= 22 && ctype != 0 {
      if pad: nat :| c.open(key, Nonce(iv, seqNo), rec[..5], rec[5..]) == Some(content + [ctype] + Zeros(pad)) {
        UnpaddedOfZeros(content, ctype, pad);
        assert (content + [ctype] + Zeros(pad))[..|content|] == content;
      }
    }
  }

  // ----- refusals --------------------------------------------------------------------------

  /** What is no record is refused; a ChangeCipherSpec with another content is malformed. */
  lemma NoRecordRefused(inp: bytes, cap: nat)
    ensures var n := if |inp| >= 5 then 256 * (inp[3] as int) + inp[4] as int else 0;
      var r := RecordIn(inp, cap);
      && (|inp| < 5 ==> r.status == CryptoErr && r.rest == [])
      && (|inp| >= 5 && (n == 0 || n + 5 > cap || n > 16640) ==> r.status == CryptoErr && r.rest == inp[5..])
      && (0 < n <= 16640 && n + 5 <= cap && |inp| < 5 + n ==> r.status == CryptoErr && r.rest == [])
      && (0 < n <= 16640 && n + 5 <= cap && |inp| >= 5 + n && inp[0] == 20 && inp[5..5 + n] != [1] ==>
            r.status == DecodeErr && r.rest == inp[5 + n..])
  {}

  /** A record that is too short, does not decrypt, or decrypts to nothing but zeros. */
  lemma UnopenedRefused(c: Suite, key: bytes, iv: bytes, seqNo: nat, rec: bytes)
    ensures var o := Unsealed(c, key, iv, seqNo, rec);
      && (|rec| < 22 ==> o.status == InvalidArg)
      && (|rec| >= 22 ==>
            var inner := c.open(key, Nonce(iv, seqNo), rec[..5], rec[5..]);
            && (inner.None? ==> o.status == BadMac)
            && (inner.Some? && (forall i :: 0 <= i < |inner.value| ==> inner.value[i] == 0) ==> o.status == DecodeErr))
  {
    hide Nonce;
  }

  // ----- sending in the clear --------------------------------------------------------------

  /** Whatever the transport does, what goes out is a front of the record, and all of it exactly on success. */
  lemma SentInOrder(n: Net, ctype: byte, body: bytes) returns (k: nat)
    requires |body| < 0x1_0000
    ensures var s := SendPlain(n, ctype, body); var rec := [ctype, 3, 3, |body| / 256, |body| % 256] + body;
      && k <= |rec| && s.n.out == n.out + rec[..k] && (s.ret == Success ==> k == |rec|)
      && (k == |rec| && body != [] ==> s.ret == Success)
  {
    var rec := [ctype, 3, 3, |body| / 256, |body| % 256] + body;
    assert rec[..5] == Header(ctype, |body|) && rec[5..] == body;
    k := if !n.CanSend() then 0 else if n.Sent(Header(ctype, |body|)).CanSend() then |rec| else 5;
    assert rec[..0] == [] && n.out + [] == n.out;
    assert n.out + Header(ctype, |body|) + body == n.out + rec[..|rec|];
  }
}
