/**
 * The hello messages taken apart by a reader of their own, field by field and extension by extension
 * (RFC 8446 section 4.1), and what it finds in each message that the library builds.
 */
module WireFormat {
  import opened Bytes
  import opened HelloGrammar
  import SH = ServerHello
  import SB = ServerHelloBuild
  import RT = ServerHelloRoundTrip
  import PH = PskHello
  import CH = CertHello
  import Structure = HelloStructure

  // ----- the reader ------------------------------------------------------------------------

  /** An extension block as a list of types and bodies. */
  function ReadExts(b: bytes): Option<seq<Ext>>
    decreases |b|
  {
    if b == [] then Some([])
    else if |b| < 4 || |b| < 4 + Num16(b, 2) then None
    else
      var more := ReadExts(b[4 + Num16(b, 2)..]);
      if more.None? then None else Some([Ext(Num16(b, 0), b[4..4 + Num16(b, 2)])] + more.value)
  }

  /** What a ServerHello and a HelloRetryRequest consist of. */
  datatype ServerMsg = ServerMsg(version: nat, random: bytes, sid: bytes, cipher: nat, compression: byte, exts: seq<Ext>)

  function ReadServer(m: bytes): Option<ServerMsg> {
    if |m| < 39 || m[0] != 2 || Num24(m, 1) != |m| - 4 then None else
    var p := 39 + m[38] as int;
    if |m| < p + 5 || p + 5 + Num16(m, p + 3) != |m| then None else
    var es := ReadExts(m[p + 5..]);
    if es.None? then None else
    Some(ServerMsg(Num16(m, 4), m[6..38], m[39..p], Num16(m, p), m[p + 2], es.value))
  }

  /** What a ClientHello consists of; `suites` and `compressions` are the octets of the two lists. */
  datatype ClientMsg = ClientMsg(version: nat, random: bytes, sid: bytes, suites: bytes, compressions: bytes,
                                 exts: seq<Ext>)

  function ReadClient(m: bytes): Option<ClientMsg> {
    if |m| < 39 || m[0] != 1 || Num24(m, 1) != |m| - 4 then None else
    var p := 39 + m[38] as int;
    if |m| < p + 2 || |m| < p + 3 + Num16(m, p) then None else
    var q := p + 2 + Num16(m, p);
    var r := q + 1 + m[q] as int;
    if |m| < r + 2 || r + 2 + Num16(m, r) != |m| then None else
    var es := ReadExts(m[r + 2..]);
    if es.None? then None else
    Some(ClientMsg(Num16(m, 4), m[6..38], m[39..p], m[p + 2..q], m[q + 1..r], es.value))
  }

  lemma {:induction false} ExtsRead(es: seq<Ext>)
    requires Narrow(es)
    ensures ReadExts(EncExts(es)) == Some(es)
    decreases |es|
  {
    hide EncExt;
    if es != [] {
      hide ReadExts;
      FirstRead(es[0], EncExts(es[1..]));
      ExtsRead(es[1..]);
      assert es == [es[0]] + es[1..];
    }
  }

  lemma FirstRead(e: Ext, rest: bytes)
    requires e.etype < 0x1_0000 && |e.body| < 0x1_0000
    ensures ReadExts(EncExt(e) + rest)
      == if ReadExts(rest).None? then None else Some([e] + ReadExts(rest).value)
  {
    hide EncExt, Num16;
    ExtLayout(e, rest);
  }

  // ----- looking an extension up ------------------------------------------------------------

  /** The body of the first extension of this type, and its offset in a message where the list starts at `at`. */
  function Find(es: seq<Ext>, t: nat, at: nat): Option<(bytes, nat)>
    decreases |es|
  {
    if es == [] then None
    else if es[0].etype == t then Some((es[0].body, at + 4))
    else Find(es[1..], t, at + 4 + |es[0].body|)
  }

  predicate TypesOnce(es: seq<Ext>) {
    es != [] ==> Find(es[1..], es[0].etype, 0).None? && TypesOnce(es[1..])
  }

  lemma {:induction false} FindAnywhere(es: seq<Ext>, t: nat, at: nat, at': nat)
    ensures Find(es, t, at).Some? == Find(es, t, at').Some?
    ensures Find(es, t, at).Some? ==> Find(es, t, at).value.0 == Find(es, t, at').value.0
    decreases |es|
  {
    if es != [] {
      FindAnywhere(es[1..], t, at + 4 + |es[0].body|, at' + 4 + |es[0].body|);
    }
  }

  lemma {:induction false} FoundInBlock(es: seq<Ext>, t: nat, at: nat)
    requires Find(es, t, at).Some?
    ensures var (b, off) := Find(es, t, at).value;
      at <= off && off - at + |b| <= |EncExts(es)| && EncExts(es)[off - at..off - at + |b|] == b
    decreases |es|
  {
    var e := es[0];
    assert EncExts(es) == EncExt(e) + EncExts(es[1..]);
    assert |EncExt(e)| == 4 + |e.body| && EncExt(e)[4..] == e.body;
    if e.etype == t {
      assert EncExts(es)[4..4 + |e.body|] == e.body;
    } else {
      FoundInBlock(es[1..], t, at + 4 + |e.body|);
      var (b, off) := Find(es, t, at).value;
      var i := off - at - 4 - |e.body|;
      assert EncExts(es)[4 + |e.body| + i..4 + |e.body| + i + |b|] == EncExts(es[1..])[i..i + |b|];
    }
  }

  // ----- the server's messages -------------------------------------------------------------

  /** Two octets, the high one first. */
  function Two(n: nat): bytes { [n / 256 % 256, n % 256] }

  lemma ServerFieldsRead(random: bytes, sid: bytes, cipher: nat, es: seq<Ext>)
    requires |random| == 32 && |sid| < 256 && cipher < 0x1_0000 && Narrow(es) && |EncExts(es)| < 0x1_0000
    ensures ReadServer(SB.ShMessage(random, sid, cipher, EncExts(es)))
         == Some(ServerMsg(0x0303, random, sid, cipher, 0, es))
  {
    hide SB.ShMessage, RT.ShTail, EncExts, ReadExts, Num16, Num24, U16, U24;
    var b := EncExts(es);
    var m, p := SB.ShMessage(random, sid, cipher, b), 39 + |sid|;
    RT.ShLayout(random, sid, cipher, b);
    RT.ShTailLayout(m, p, cipher, b);
    Num16Of(m, 4, 0x0303);
    Num24Of(m, 1, |m| - 4);
    Num16Of(m, p, cipher);
    Num16Of(m, p + 3, |b|);
    ExtsRead(es);
  }

  function RetryList(group: nat): seq<Ext> { [Ext(43, [3, 4]), Ext(51, Two(group))] }

  function HelloList(group: nat, pub: bytes, psk: Option<nat>): seq<Ext> {
    [Ext(43, [3, 4]), Ext(51, Two(group) + Two(|pub|) + pub)] + if psk.None? then [] else [Ext(41, Two(psk.value))]
  }

  lemma TwoExts(a: Ext, b: Ext)
    ensures EncExts([a, b]) == EncExt(a) + EncExt(b) && EncExts([a]) == EncExt(a)
  {
    hide EncExt;
    assert [a, b][1..] == [b] && [b][1..] == [] && [a][1..] == [];
    assert EncExts([]) == [] && EncExt(b) + [] == EncExt(b) && EncExt(a) + [] == EncExt(a);
    assert EncExts([b]) == EncExt(b) + EncExts([]);
  }

  lemma RetryListIs(group: nat)
    ensures EncExts(RetryList(group)) == SB.RetryExts(group) && |SB.RetryExts(group)| == 12
  {
    TwoExts(Ext(43, [3, 4]), Ext(51, Two(group)));
  }

  /** A HelloRetryRequest carries the session id, the cipher, the version and the selected group, and no more. */
  lemma RetryReads(sid: bytes, cipher: nat, group: nat)
    requires |sid| < 256 && cipher < 0x1_0000 && group < 0x1_0000
    ensures ReadServer(SB.RetryBytes(sid, cipher, group))
         == Some(ServerMsg(0x0303, SH.HRR_RANDOM, sid, cipher, 0, [Ext(43, [3, 4]), Ext(51, Two(group))]))
  {
    hide SB.ShMessage, ReadServer, EncExts;
    RetryListIs(group);
    ServerFieldsRead(SH.HRR_RANDOM, sid, cipher, RetryList(group));
  }

  lemma ShareExtIs(group: nat, pub: bytes)
    ensures EncExt(Ext(51, Two(group) + Two(|pub|) + pub)) == SB.ShareExt(group, pub)
  {}

  lemma HelloListIs(group: nat, pub: bytes, psk: Option<nat>)
    ensures EncExts(HelloList(group, pub, psk)) == SB.ShExts(group, pub, psk)
  {
    hide SB.ShareExt;
    var v, s := Ext(43, [3, 4]), Ext(51, Two(group) + Two(|pub|) + pub);
    ShareExtIs(group, pub);
    VersionExtIs();
    TwoExts(v, s);
    if psk.Some? {
      var k := Ext(41, Two(psk.value));
      TwoExts(k, k);
      PskExtIs(psk.value);
      assert [v, s] + [k] == [v, s, k] && [v, s, k][1..] == [s, k];
      TwoExts(s, k);
      assert EncExts([v, s, k]) == EncExt(v) + EncExts([s, k]);
    } else {
      assert [v, s] + [] == [v, s];
      assert SB.ShareExt(group, pub) + [] == SB.ShareExt(group, pub);
    }
  }

  lemma VersionExtIs()
    ensures EncExt(Ext(43, [3, 4])) == SB.VERSION_EXT
  {}

  lemma PskExtIs(psk: nat)
    ensures EncExt(Ext(41, Two(psk))) == SB.PskExt(Some(psk))
  {}

  /** And a ServerHello, besides, the random, the share, and the selected identity if there is one. */
  lemma ServerHelloReads(random: bytes, sid: bytes, cipher: nat, group: nat, pub: bytes, psk: Option<nat>)
    requires |random| == 32 && |sid| < 256 && cipher < 0x1_0000 && |SB.ShExts(group, pub, psk)| < 0x1_0000
    ensures ReadServer(SB.ShBytes(random, sid, cipher, group, pub, psk))
         == Some(ServerMsg(0x0303, random, sid, cipher, 0, HelloList(group, pub, psk)))
  {
    hide SB.ShMessage, ReadServer, EncExts, SB.ShExts;
    HelloListIs(group, pub, psk);
    HelloListNarrow(group, pub, psk);
    ServerFieldsRead(random, sid, cipher, HelloList(group, pub, psk));
  }

  lemma HelloListNarrow(group: nat, pub: bytes, psk: Option<nat>)
    requires |SB.ShExts(group, pub, psk)| < 0x1_0000
    ensures Narrow(HelloList(group, pub, psk))
  {}

  // ----- the client's messages -------------------------------------------------------------

  lemma ClientFieldsRead(random: bytes, sid: bytes, suites: bytes, es: seq<Ext>)
    requires |random| == 32 && |sid| <= 32 && |suites| < 0x1_0000 && Narrow(es) && |EncExts(es)| < 0x1_0000
    ensures ReadClient(HelloBytes(random, sid, suites, EncExts(es)))
         == Some(ClientMsg(0x0303, random, sid, suites, [0], es))
  {
    hide HelloBytes, HelloTail, EncExts, ReadExts, Num16, Num24, U16, U24;
    var b := EncExts(es);
    var m, p := HelloBytes(random, sid, suites, b), 39 + |sid|;
    HelloLayout(random, sid, suites, b);
    TailLayout(m, p, suites, b);
    var q := p + 2 + |suites|;
    Num24Of(m, 1, |m| - 4);
    Num16Of(m, p, |suites|);
    Num16Of(m, q + 2, |b|);
    ExtsRead(es);
    SingleAt(m, q + 1);
  }

  lemma SingleAt(m: bytes, i: nat)
    requires i < |m|
    ensures m[i..i + 1] == [m[i]]
  {}

  /** What the PSK client offers: TLS 1.3, x25519, two schemes, its share, psk_dhe_ke, its identity and binder. */
  function PskList(pub: bytes, identity: bytes, binder: bytes): seq<Ext> {
    [Ext(43, [2, 3, 4]), Ext(10, [0, 2, 0, 29]), Ext(13, [0, 4, 8, 7, 4, 3]),
     Ext(51, Two(|pub| + 4) + [0, 29] + Two(|pub|) + pub), Ext(45, [1, 1]),
     Ext(41, Two(|identity| + 6) + Two(|identity|) + identity + [0, 0, 0, 0]
       + Two(|binder| + 1) + [|binder| % 256] + binder)]
  }

  lemma OneOffer(identity: bytes, binder: bytes)
    ensures Structure.EncOffers([Structure.Offer(identity, [0, 0, 0, 0])]) == Two(|identity|) + identity + [0, 0, 0, 0]
    ensures Structure.EncBinders([binder]) == [|binder| % 256] + binder
  {
    var os := [Structure.Offer(identity, [0, 0, 0, 0])];
    assert os[1..] == [] && [binder][1..] == [];
    assert Structure.EncOffers([]) == [] && Structure.EncBinders([]) == [];
  }

  lemma FixedBodies(pub: bytes)
    ensures PH.VERSIONS_BODY == [2, 3, 4] && PH.GROUPS_BODY == [0, 2, 0, 29] && PH.KEX_BODY == [1, 1]
    ensures PH.SIG_ALGS_BODY == [0, 4, 8, 7, 4, 3]
    ensures CH.SCHEMES_BODY == [0, 12, 8, 7, 5, 3, 4, 3, 8, 6, 8, 5, 8, 4]
    ensures PH.ShareBody(pub) == Two(|pub| + 4) + [0, 29] + Two(|pub|) + pub
  {
    assert U16(29) == [0, 29];
  }

  lemma PskListIs(pub: bytes, identity: bytes, binder: bytes)
    ensures PH.PskExts(pub, identity, binder) == PskList(pub, identity, binder)
  {
    FixedBodies(pub);
    OneOffer(identity, binder);
    var o, b := Two(|identity|) + identity + [0, 0, 0, 0], [|binder| % 256] + binder;
    assert |o| == |identity| + 6 && |b| == |binder| + 1;
    assert Two(|o|) + o + (Two(|b|) + b)
        == Two(|identity| + 6) + Two(|identity|) + identity + [0, 0, 0, 0]
             + Two(|binder| + 1) + [|binder| % 256] + binder;
  }

  /** The PSK client's ClientHello, for an identity that its length fields can hold. */
  lemma PskHelloReads(random: bytes, sid: bytes, pub: bytes, identity: bytes, binder: bytes)
    requires |random| == 32 && |sid| == 32 && |pub| == 32 && |binder| == 32 && |identity| <= 0xFF00
    ensures ReadClient(PH.PskHelloBytes(random, sid, pub, identity, binder))
         == Some(ClientMsg(0x0303, random, sid, [0x13, 0x01], [0], PskList(pub, identity, binder)))
  {
    hide HelloBytes, ReadClient, EncExts;
    PskListIs(pub, identity, binder);
    PH.BodyLengths(pub, identity, binder);
    ClientFieldsRead(random, sid, [0x13, 0x01], PskList(pub, identity, binder));
  }

  /** What the certificate client offers: the server's name if it has one, TLS 1.3, x25519, six schemes, its share. */
  function CertList(pub: bytes, name: bytes): seq<Ext> {
    (if name == [] then [] else [Ext(0, Two(|name| + 3) + [0] + Two(|name|) + name)])
    + [Ext(43, [2, 3, 4]), Ext(10, [0, 2, 0, 29]), Ext(13, [0, 12, 8, 7, 5, 3, 4, 3, 8, 6, 8, 5, 8, 4]),
       Ext(51, Two(|pub| + 4) + [0, 29] + Two(|pub|) + pub)]
  }

  lemma CertListIs(pub: bytes, name: bytes)
    ensures CH.SniExt(name) + CH.CertExts(pub) == CertList(pub, name)
  {
    FixedBodies(pub);
    assert CH.SniBody(name) == Two(|name| + 3) + [0] + Two(|name|) + name;
  }

  /** The certificate client's ClientHello. */
  lemma CertHelloReads(random: bytes, sid: bytes, pub: bytes, name: bytes)
    requires |random| == 32 && |sid| == 32 && |pub| == 32 && |name| <= 255
    ensures ReadClient(CH.CertHelloBytes(random, sid, pub, name))
         == Some(ClientMsg(0x0303, random, sid, [0x13, 0x01], [0], CertList(pub, name)))
  {
    hide HelloBytes, ReadClient, EncExts;
    CertListIs(pub, name);
    CH.ExtBlockSize(pub, name);
    ClientFieldsRead(random, sid, [0x13, 0x01], CertList(pub, name));
  }
}
