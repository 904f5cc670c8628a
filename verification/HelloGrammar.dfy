/**
 * The ClientHello as an abstract message with its encoding, and the theorem that the parser
 * accepts exactly the encodings of admissible messages (RFC 8446 section 4.1.2).
 */
module HelloGrammar {
  import opened Bytes
  import opened ClientHelloSpec

  datatype Ext = Ext(etype: nat, body: bytes)

  datatype Hello = Hello(random: bytes, sid: bytes, suites: bytes, exts: seq<Ext>) {
    predicate WellFormed() {
      && |random| == 32 && |sid| <= 32 && |suites| % 2 == 0 && |suites| < 0x1_0000
      && (forall i :: 0 <= i < |exts| ==> exts[i].etype < 0x1_0000 && |exts[i].body| < 0x1_0000)
      && |EncExts(exts)| < 0x1_0000
    }

    function Encode(): bytes {
      HelloBytes(random, sid, suites, EncExts(exts))
    }

    // Where the extension block starts.
    function ExtAt(): nat { 45 + |sid| + |suites| }
  }

  function EncExt(e: Ext): bytes { U16(e.etype) + U16(|e.body|) + e.body }

  function EncExts(es: seq<Ext>): bytes {
    if es == [] then [] else EncExt(es[0]) + EncExts(es[1..])
  }

  // The message around an extension block; nested to the right so that each field is a prefix.
  function HelloTail(suites: bytes, exts: bytes): bytes {
    U16(|suites|) + (suites + ([1, 0] + (U16(|exts|) + exts)))
  }

  function HelloBody(random: bytes, sid: bytes, suites: bytes, exts: bytes): bytes {
    U16(LEGACY_VERSION) + (random + (U8(|sid|) + (sid + HelloTail(suites, exts))))
  }

  function HelloBytes(random: bytes, sid: bytes, suites: bytes, exts: bytes): bytes {
    [HS_CLIENT_HELLO] + (U24(|HelloBody(random, sid, suites, exts)|) + HelloBody(random, sid, suites, exts))
  }

  lemma HelloLayout(random: bytes, sid: bytes, suites: bytes, exts: bytes)
    requires |random| == 32 && |sid| <= 32
    ensures var m, p := HelloBytes(random, sid, suites, exts), 39 + |sid|;
      && |m| == 45 + |sid| + |suites| + |exts|
      && m[0] == HS_CLIENT_HELLO && Num16(m, 4) == LEGACY_VERSION && m[38] == |sid|
      && m[6..38] == random && m[39..p] == sid && m[p..] == HelloTail(suites, exts)
      && m[1..4] == U24(|m| - 4)
  {
    hide U24, HelloTail, Num16, U16;
    var m := HelloBytes(random, sid, suites, exts);
    var body, tail := HelloBody(random, sid, suites, exts), HelloTail(suites, exts);
    TailSize(suites, exts);
    BodyLayout(body, random, sid, tail);
    assert m == [HS_CLIENT_HELLO] + (U24(|body|) + body);
    assert m[4..] == body;
    assert m[6..38] == body[2..34] && m[39..39 + |sid|] == body[35..35 + |sid|] && m[39 + |sid|..] == body[35 + |sid|..];
    assert m[38] == body[34] && m[4..6] == body[..2];
    Num16Of(m, 4, LEGACY_VERSION);
  }

  lemma TailSize(suites: bytes, exts: bytes)
    ensures |HelloTail(suites, exts)| == 6 + |suites| + |exts|
  {}

  lemma BodyLayout(body: bytes, random: bytes, sid: bytes, tail: bytes)
    requires |random| == 32 && |sid| <= 32 && body == U16(LEGACY_VERSION) + (random + (U8(|sid|) + (sid + tail)))
    ensures |body| == 35 + |sid| + |tail| && body[..2] == U16(LEGACY_VERSION) && body[2..34] == random
    ensures body[34] == |sid| && body[35..35 + |sid|] == sid && body[35 + |sid|..] == tail
  {
    hide U16;
    var r := random + (U8(|sid|) + (sid + tail));
    assert body[2..] == r;
    assert r[32..] == U8(|sid|) + (sid + tail);
    assert r[33..] == sid + tail;
    assert body[34] == r[32] && body[35..35 + |sid|] == r[33..33 + |sid|] && body[35 + |sid|..] == r[33 + |sid|..];
  }

  lemma TailLayout(m: bytes, p: nat, suites: bytes, exts: bytes)
    requires p <= |m| && m[p..] == HelloTail(suites, exts)
    ensures var q := p + 2 + |suites|;
      && |m| == q + 4 + |exts|
      && m[p..p + 2] == U16(|suites|) && m[p + 2..q] == suites && m[q] == 1 && m[q + 1] == 0
      && m[q + 2..q + 4] == U16(|exts|) && m[q + 4..] == exts
  {}

  /** The fixed part of an encoding is decoded, unless the extension block overflows its length. */
  lemma PreludeOfBytes(random: bytes, sid: bytes, suites: bytes, exts: bytes)
    requires |random| == 32 && |sid| <= 32 && |suites| % 2 == 0 && |suites| < 0x1_0000 && |exts| < 0x80_0000
    ensures var m, at := HelloBytes(random, sid, suites, exts), 45 + |sid| + |suites|;
      && m != [] && m[0] == HS_CLIENT_HELLO && at <= |m| && m[at..] == exts
      && PreludeOf(m)
         == if |exts| < 0x1_0000 then Some(Prelude(Slice(39, |sid|), CIPHER in Words(suites), at)) else None
  {
    hide HelloBytes, HelloTail, Num16, Num24, U16, U24, Words;
    var m, p := HelloBytes(random, sid, suites, exts), 39 + |sid|;
    HelloLayout(random, sid, suites, exts);
    TailLayout(m, p, suites, exts);
    Num16Of(m, p, |suites|);
    Num16Of(m, p + 4 + |suites|, |exts|);
    Num24Of(m, 1, |m| - 4);
  }

  lemma TailAssembled(m: bytes, p: nat, q: nat)
    requires p + 2 <= q && q + 4 <= |m| && m[q] == 1 && m[q + 1] == 0
    requires Num16(m, p) == q - p - 2 && Num16(m, q + 2) == |m| - q - 4
    ensures m[p..] == HelloTail(m[p + 2..q], m[q + 4..])
  {
    hide Num16, U16;
    var suites, exts := m[p + 2..q], m[q + 4..];
    U16Of(m, p);
    U16Of(m, q + 2);
    assert m[q + 2..] == m[q + 2..q + 4] + exts;
    assert m[q..q + 2] == [1, 0];
    assert m[q..] == m[q..q + 2] + m[q + 2..];
    assert m[p + 2..] == suites + m[q..];
    assert m[p..] == m[p..p + 2] + m[p + 2..];
  }

  lemma BytesAssembled(m: bytes, p: nat, suites: bytes, exts: bytes)
    requires 39 <= p <= |m| && m[0] == HS_CLIENT_HELLO && Num24(m, 1) == |m| - 4
    requires Num16(m, 4) == LEGACY_VERSION && m[38] == p - 39 && p <= 71
    requires m[p..] == HelloTail(suites, exts)
    ensures m == HelloBytes(m[6..38], m[39..p], suites, exts)
  {
    hide Num16, Num24, U16, U24, HelloTail;
    var random, sid := m[6..38], m[39..p];
    U24Of(m, 1);
    U16Of(m, 4);
    assert m[39..] == sid + m[p..];
    assert m[38..] == [m[38]] + m[39..];
    assert U8(|sid|) == [m[38]];
    assert m[6..] == random + m[38..];
    assert m[4..] == m[4..6] + m[6..];
    assert m[4..] == HelloBody(random, sid, suites, exts);
    assert m[1..] == m[1..4] + m[4..];
    assert m == [m[0]] + m[1..];
  }

  /** Conversely, a decodable fixed part is the encoding of its fields. */
  lemma BytesOfPrelude(m: bytes)
    requires m != [] && m[0] == HS_CLIENT_HELLO && PreludeOf(m).Some?
    ensures var pre := PreludeOf(m).value;
      && pre.sid == Slice(39, pre.sid.len) && pre.sid.len <= 32
      && 45 + pre.sid.len <= pre.extAt <= |m| && |m| - pre.extAt < 0x1_0000
      && var suites := m[41 + pre.sid.len..pre.extAt - 4];
      && |suites| % 2 == 0 && |suites| < 0x1_0000 && pre.cipher == (CIPHER in Words(suites))
      && m == HelloBytes(m[6..38], m[39..39 + pre.sid.len], suites, m[pre.extAt..])
  {
    hide HelloBytes, HelloTail, Num24, U16, U24, Words;
    var pre := PreludeOf(m).value;
    var p, q := 39 + pre.sid.len, pre.extAt - 4;
    TailAssembled(m, p, q);
    BytesAssembled(m, p, m[p + 2..q], m[q + 4..]);
  }

  /** The effect of a list of extensions, the first of which starts at offset `at`. */
  function LearnAll(es: seq<Ext>, at: nat, k: Known): Option<Known>
    decreases |es|
  {
    if es == [] then Some(k) else
    var k1 := Learn(k, es[0].etype, es[0].body, at + 4);
    if k1.None? then None else LearnAll(es[1..], at + 4 + |es[0].body|, k1.value)
  }

  ghost predicate Narrow(es: seq<Ext>) {
    forall i :: 0 <= i < |es| ==> es[i].etype < 0x1_0000 && |es[i].body| < 0x1_0000
  }

  lemma ExtLayout(e: Ext, rest: bytes)
    requires e.etype < 0x1_0000 && |e.body| < 0x1_0000
    ensures var b := EncExt(e) + rest;
      && |b| >= 4 + |e.body| && Num16(b, 0) == e.etype && Num16(b, 2) == |e.body|
      && b[4..4 + |e.body|] == e.body && b[4 + |e.body|..] == rest
  {}

  lemma {:induction false} ExtensionsOfEncoding(es: seq<Ext>, at: nat, k: Known)
    requires Narrow(es)
    ensures Extensions(EncExts(es), at, k) == LearnAll(es, at, k)
    decreases |es|
  {
    hide Learn, EncExt, Num16;
    if es != [] {
      var e := es[0];
      ExtLayout(e, EncExts(es[1..]));
      var k1 := Learn(k, e.etype, e.body, at + 4);
      if k1.Some? {
        ExtensionsOfEncoding(es[1..], at + 4 + |e.body|, k1.value);
      }
    }
  }

  lemma ExtAssembled(b: bytes)
    requires |b| >= 4 && |b| >= 4 + Num16(b, 2)
    ensures var n := Num16(b, 2); b == EncExt(Ext(Num16(b, 0), b[4..4 + n])) + b[4 + n..]
  {
    hide Num16, U16;
    var n := Num16(b, 2);
    U16Of(b, 0);
    U16Of(b, 2);
    assert b == b[0..2] + b[2..4] + b[4..4 + n] + b[4 + n..];
  }

  lemma {:induction false} EncodingOfExtensions(b: bytes, at: nat, k: Known) returns (es: seq<Ext>)
    requires Extensions(b, at, k).Some?
    ensures Narrow(es) && EncExts(es) == b
    decreases |b|
  {
    hide Learn, EncExt, Num16;
    es := [];
    if b != [] {
      var n := Num16(b, 2);
      var e := Ext(Num16(b, 0), b[4..4 + n]);
      var rest := EncodingOfExtensions(b[4 + n..], at + 4 + n, Learn(k, e.etype, e.body, at + 4).value);
      es := [e] + rest;
      assert es[1..] == rest;
      ExtAssembled(b);
    }
  }

  /** The server's rule for a well-formed ClientHello. */
  function Verdict(h: Hello): Result {
    var k := LearnAll(h.exts, h.ExtAt(), NOTHING);
    if k.None? then Reject(DecodeErr)
    else if !Acceptable(CIPHER in Words(h.suites), k.value) then Reject(IllegalParam)
    else Accept(Parsed(Slice(39, |h.sid|), k.value.keyShare, k.value.sigAlgs, k.value.psk))
  }

  /** Parsing the encoding of a well-formed message gives that message's verdict. */
  lemma ParseOfEncode(h: Hello)
    requires h.WellFormed()
    ensures ParseHello(h.Encode()) == Verdict(h)
  {
    hide PreludeOf, Learn, HelloBytes, Acceptable, Words, LearnAll, Extensions, EncExts;
    PreludeOfBytes(h.random, h.sid, h.suites, EncExts(h.exts));
    ExtensionsOfEncoding(h.exts, h.ExtAt(), NOTHING);
  }

  /** Whatever the parser accepts, or refuses only for its parameters, is such an encoding. */
  lemma AcceptedIsEncoding(m: bytes) returns (h: Hello)
    requires ParseHello(m).Accept? || ParseHello(m) == Reject(IllegalParam)
    ensures h.WellFormed() && h.Encode() == m && ParseHello(m) == Verdict(h)
  {
    hide Learn, HelloBytes, PreludeOf, Acceptable, Words, LearnAll, Extensions, EncExts, Verdict;
    BytesOfPrelude(m);
    var pre := PreludeOf(m).value;
    var es := EncodingOfExtensions(m[pre.extAt..], pre.extAt, NOTHING);
    h := Hello(m[6..38], m[39..39 + pre.sid.len], m[41 + pre.sid.len..pre.extAt - 4], es);
    ParseOfEncode(h);
  }

  /** The parser accepts exactly the encodings of the messages whose verdict is to accept. */
  lemma ParserAcceptsExactly(m: bytes, p: Parsed)
    ensures ParseHello(m) == Accept(p)
      <==> exists h: Hello :: h.WellFormed() && h.Encode() == m && Verdict(h) == Accept(p)
  {
    hide ParseHello, Verdict;
    if ParseHello(m) == Accept(p) {
      var h := AcceptedIsEncoding(m);
      assert h.WellFormed() && h.Encode() == m && Verdict(h) == Accept(p);
    }
    if h: Hello :| h.WellFormed() && h.Encode() == m && Verdict(h) == Accept(p) {
      ParseOfEncode(h);
    }
  }

  // ----- writing the frame -----------------------------------------------------------------

  /** The fields of the body before the extension block. */
  function HeadFields(random: bytes, sid: bytes, suites: bytes): bytes {
    U16(LEGACY_VERSION) + (random + (U8(|sid|) + (sid + (U16(|suites|) + (suites + [1, 0])))))
  }

  lemma BodyFromHead(random: bytes, sid: bytes, suites: bytes, exts: bytes)
    ensures HelloBody(random, sid, suites, exts) == HeadFields(random, sid, suites) + (U16(|exts|) + exts)
  {}

  /** A tail of the extension block can be split off the whole message. */
  function HelloFront(random: bytes, sid: bytes, suites: bytes, n: nat, front: bytes): bytes {
    var head := HeadFields(random, sid, suites);
    [HS_CLIENT_HELLO] + (U24(|head| + 2 + n) + (head + (U16(n) + front)))
  }

  lemma SplitTail(random: bytes, sid: bytes, suites: bytes, front: bytes, back: bytes)
    ensures HelloBytes(random, sid, suites, front + back)
         == HelloFront(random, sid, suites, |front + back|, front) + back
  {}
}
