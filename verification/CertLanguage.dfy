/**
 * The certificate messages octet by octet: exactly which bodies the client reads as a chain and as a
 * signature, what the server writes, and what is signed (RFC 8446 sections 4.4.2 and 4.4.3).
 */
module CertLanguage {
  import opened Bytes
  import opened CertMessages

  // ----- Certificate -----------------------------------------------------------------------

  /** A certificate with its extensions, which are not looked at. */
  datatype Entry = Entry(der: bytes, exts: bytes) {
    predicate Proper() { |der| < 0x100_0000 && |exts| < 0x1_0000 }

    function Encode(): bytes { U24(|der|) + der + U16(|exts|) + exts }
  }

  function EncEntries(es: seq<Entry>): bytes {
    if es == [] then [] else es[0].Encode() + EncEntries(es[1..])
  }

  function Ders(es: seq<Entry>): seq<bytes> {
    if es == [] then [] else [es[0].der] + Ders(es[1..])
  }

  ghost predicate AllProper(es: seq<Entry>) {
    forall i :: 0 <= i < |es| ==> es[i].Proper()
  }

  lemma EntryLayout(e: Entry, rest: bytes)
    requires e.Proper()
    ensures var b, cl := e.Encode() + rest, |e.der|;
      && |b| >= 5 + cl + |e.exts| && Num24(b, 0) == cl && Num16(b, 3 + cl) == |e.exts|
      && b[3..3 + cl] == e.der && b[5 + cl + |e.exts|..] == rest
  {
    hide U24, U16, Num24, Num16;
    var b, cl := e.Encode() + rest, |e.der|;
    assert b[0..3] == U24(cl) && b[3 + cl..3 + cl + 2] == U16(|e.exts|);
    Num24Of(b, 0, cl);
    Num16Of(b, 3 + cl, |e.exts|);
  }

  lemma {:induction false} EntriesRead(es: seq<Entry>, n: nat)
    requires AllProper(es) && n + |es| <= 4
    ensures Entries(EncEntries(es), n) == Some(Ders(es))
    decreases |es|
  {
    hide Entry.Encode, Num24, Num16;
    if es != [] {
      EntryLayout(es[0], EncEntries(es[1..]));
      EntriesRead(es[1..], n + 1);
    }
  }

  lemma EntryAssembled(b: bytes)
    requires |b| >= 5 && |b| >= 5 + Num24(b, 0) && |b| >= 5 + Num24(b, 0) + Num16(b, 3 + Num24(b, 0))
    ensures var cl := Num24(b, 0); var end := 5 + cl + Num16(b, 3 + cl);
      b == Entry(b[3..3 + cl], b[5 + cl..end]).Encode() + b[end..]
  {
    hide Num24, Num16, U24, U16;
    var cl := Num24(b, 0);
    var end := 5 + cl + Num16(b, 3 + cl);
    U24Of(b, 0);
    U16Of(b, 3 + cl);
    assert b == b[0..3] + b[3..3 + cl] + b[3 + cl..5 + cl] + b[5 + cl..end] + b[end..];
  }

  lemma {:induction false} EntriesOf(b: bytes, n: nat) returns (es: seq<Entry>)
    requires n <= 4 && Entries(b, n).Some?
    ensures AllProper(es) && EncEntries(es) == b && Ders(es) == Entries(b, n).value && n + |es| <= 4
    decreases |b|
  {
    hide Entry.Encode, Num24, Num16;
    es := [];
    if b != [] {
      var cl := Num24(b, 0);
      var end := 5 + cl + Num16(b, 3 + cl);
      var rest := EntriesOf(b[end..], n + 1);
      var e := Entry(b[3..3 + cl], b[5 + cl..end]);
      es := [e] + rest;
      assert es[1..] == rest;
      EntryAssembled(b);
    }
  }

  /** An empty context, and a list of at most four entries that fills the body. */
  ghost predicate IsCertList(body: bytes, es: seq<Entry>) {
    AllProper(es) && |es| <= 4 && |EncEntries(es)| < 0x100_0000 && body == [0] + U24(|EncEntries(es)|) + EncEntries(es)
  }

  lemma ListFramed(list: bytes)
    requires |list| < 0x100_0000
    ensures var body := [0] + U24(|list|) + list;
      |body| == 4 + |list| && body[0] == 0 && Num24(body, 1) == |list| && body[4..] == list
  {
    hide U24, Num24;
    var body := [0] + U24(|list|) + list;
    assert body[1..4] == U24(|list|);
    Num24Of(body, 1, |list|);
  }

  lemma CertListExactly(body: bytes, certs: seq<bytes>)
    ensures CertListOf(body) == Some(certs) <==> exists es :: IsCertList(body, es) && certs == Ders(es)
  {
    hide U24, Num24, Entries, EncEntries, Ders, AllProper;
    if CertListOf(body) == Some(certs) {
      var es := EntriesOf(body[4..], 0);
      U24Of(body, 1);
      assert body == [body[0]] + body[1..4] + body[4..];
      assert IsCertList(body, es);
    }
    if es :| IsCertList(body, es) && certs == Ders(es) {
      ListFramed(EncEntries(es));
      EntriesRead(es, 0);
    }
  }

  /** The server's message: type 11, and one entry without extensions. */
  lemma CertMsgIs(der: bytes)
    ensures CertMsg(der)
         == [11] + U24(|der| + 9) + [0] + U24(|der| + 5) + U24(|der|) + der + [0, 0]
  {
    hide U24;
    assert U16(0) == [0, 0] && U8(0) == [0];
  }

  // ----- CertificateVerify -----------------------------------------------------------------

  lemma CvExactly(body: bytes, scheme: nat, sig: bytes)
    ensures CvOf(body) == Some((scheme, sig))
      <==> scheme < 0x1_0000 && |sig| < 0x1_0000 && body == U16(scheme) + U16(|sig|) + sig
  {
    hide Num16, U16;
    if CvOf(body) == Some((scheme, sig)) {
      U16Of(body, 0);
      U16Of(body, 2);
      assert body == body[0..2] + body[2..4] + body[4..];
    }
    if scheme < 0x1_0000 && |sig| < 0x1_0000 && body == U16(scheme) + U16(|sig|) + sig {
      assert body[0..2] == U16(scheme) && body[2..4] == U16(|sig|) && body[4..] == sig;
      Num16Of(body, 0, scheme);
      Num16Of(body, 2, |sig|);
    }
  }

  lemma CvMsgIs(scheme: nat, sig: bytes)
    ensures CvMsg(scheme, sig) == [15] + U24(|sig| + 4) + U16(scheme) + U16(|sig|) + sig
  {
    hide U24, U16;
  }

  const CONTEXT: string := "TLS 1.3, server CertificateVerify"

  /** What is signed: 64 spaces, the context string, a zero octet, and the transcript hash. */
  lemma SignedContentIs(th: bytes)
    ensures var t := CvContent(th);
      && |CONTEXT| == 33 && |t| == 98 + |th|
      && (forall i :: 0 <= i < 64 ==> t[i] == 0x20)
      && (forall i :: 0 <= i < 33 ==> t[64 + i] == CONTEXT[i] as int)
      && t[97] == 0 && t[98..] == th
  {
    var t := CvContent(th);
    assert t[64..97] == CV_LABEL;
    forall i | 0 <= i < 33
      ensures t[64 + i] == CONTEXT[i] as int
    {
      assert t[64 + i] == t[64..97][i];
      LabelAt(i);
    }
  }

  lemma LabelAt(i: nat)
    requires i < 33
    ensures |CONTEXT| == 33 && CV_LABEL[i] == CONTEXT[i] as int
  {}

  // ----- the order -------------------------------------------------------------------------

  /** Out of order, a CertificateRequest is unsupported and everything else unexpected. */
  lemma OrderRefuses(t: byte, s: Seen)
    requires Reachable(s)
    ensures OrderStatus(t, s)
         == if t == [8, 11, 15, 20][Position(s)] then Success else if t == 13 then Unsupported else UnexpectedMsg
  {
    OrderStep(t, s);
  }
}
