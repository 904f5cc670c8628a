/** The hypotheses of the two agreement theorems can be met: a suite and a pair of endpoints for each. */
module Witness {
  import opened Bytes
  import opened Crypto
  import opened Der
  import opened X509Spec
  import opened X509Grammar
  import opened CertTime
  import opened Chain
  import opened ServerStart
  import X509RoundTrip
  import SH = ServerHello
  import Psk = PskAgreement
  import PskClientSpec
  import PskServer
  import Cert = CertAgreement
  import CertClientSpec
  import CertServer

  lemma NotSentinel()
    ensures Zeros(32) != SH.HRR_RANDOM
  {
    assert Zeros(32)[0] == 0 && SH.HRR_RANDOM[0] != 0;
  }

  lemma PskPairExists()
    ensures exists c: Suite, p: Psk.Pair :: c.Laws() && p.Honest()
  {
    hide SH.HRR_RANDOM;
    ToyLaws();
    NotSentinel();
    var client := PskClientSpec.Client(Zeros(32), Zeros(32), [], [1], [2], 2048);
    var server := PskServer.Server(Drawn(Zeros(32), []), [1], [2], 2048);
    assert Psk.Pair(client, server).Honest();
  }

  // ----- a certificate that is its own anchor ----------------------------------------------

  const NO_ALG: AlgId := AlgId([], [])

  function When(t: Time): Field
    requires t.Valid()
  {
    Field(X509Spec.GENERALIZED_TIME, GeneralizedTlv(t)[2..])
  }

  /** Version 1, no extensions, valid for one second. */
  function SelfAnchored(t: Time): Certificate
    requires t.Valid()
  {
    Certificate(0, [1], NO_ALG, [], When(t), When(t), [], NO_ALG, [], [], None, [])
  }

  lemma TimeSize(t: Time)
    requires t.Valid()
    ensures |GeneralizedTlv(t)| == 17 && GeneralizedTlv(t)[..2] == [X509Spec.GENERALIZED_TIME, 15]
  {
    hide Fields, Rest;
    ReadRest(t);
  }

  lemma WhenIs(t: Time)
    requires t.Valid()
    ensures When(t).Encode() == GeneralizedTlv(t) && Kept(When(t)) == GeneralizedTlv(t) && |GeneralizedTlv(t)| == 17
  {
    hide GeneralizedTlv, Be;
    TimeSize(t);
    assert EncLen(15) == [15];
    assert GeneralizedTlv(t) == GeneralizedTlv(t)[..2] + GeneralizedTlv(t)[2..];
  }

  lemma SelfFramed(t: Time)
    requires t.Valid()
    ensures SelfAnchored(t).Framed() && |SelfAnchored(t).Encode()| <= 160 && |SelfAnchored(t).Spki()| <= 30
  {
    hide GeneralizedTlv, EncLen;
    WhenIs(t);
    var k := SelfAnchored(t);
    assert |k.sigAlg.Encode()| <= 12;
    assert |k.FrontBytes()| <= 25;
    assert |k.MiddleBytes()| <= 46;
    assert |k.Spki()| <= 25;
    assert |k.Tbs()| <= 110;
  }

  lemma SelfVerdict(t: Time)
    requires t.Valid()
    ensures var k := SelfAnchored(t);
      ChainVerdict(Toy(), Trust(k.Encode(), t.Epoch()), Identity(None, None), [k.Encode()]) == Ok(k.Spki())
  {
    hide Tlv, GeneralizedTlv, TimeOf, ParseCert, Certificate.Encode, Certificate.Spki;
    var k := SelfAnchored(t);
    SelfFramed(t);
    WhenIs(t);
    TimeRoundTrip(t);
    X509RoundTrip.ParsePrint(k);
    var p := ParseCert(k.Encode()).value;
    assert Fold([], EMPTY) == Ok(EMPTY);
    assert X509RoundTrip.Recovered(k, p, EMPTY);
    assert Text(p.notBefore, k.Encode()) == GeneralizedTlv(t);
    assert Text(p.notAfter, k.Encode()) == GeneralizedTlv(t);
    assert Trust(k.Encode(), t.Epoch()).AtAnchor(k.Encode());
  }

  lemma CertPairExists()
    ensures exists c: Suite, p: Cert.Pair :: c.Laws() && p.Honest(c) && p.Fits(c)
  {
    hide SH.HRR_RANDOM, ChainVerdict, Certificate.Encode, Certificate.Spki;
    ToyLaws();
    NotSentinel();
    var t := Time(1970, 1, 1, 0, 0, 0);
    var k := SelfAnchored(t);
    SelfFramed(t);
    SelfVerdict(t);
    var trust := Trust(k.Encode(), t.Epoch());
    var client := CertClientSpec.Client(Zeros(32), Zeros(32), [], trust, Identity(None, None), 16384);
    var server := CertServer.Server(Drawn(Zeros(32), []), k.Encode(), k.Spki(), 0x0807, 16384);
    var p := Cert.Pair(client, server);
    assert p.Signature(Toy()) == Some([]);
    assert p.Honest(Toy());
    assert p.Fits(Toy());
  }
}
