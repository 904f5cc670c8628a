/** What the server builds, the client's parsers read back (`wn_serverhello.c`, `wn_connect.c`). */
module ServerHelloRoundTrip {
  import opened Bytes
  import opened ServerHello
  import opened ServerHelloBuild
  import HelloGrammar
  import Msg

  // ----- layout ----------------------------------------------------------------------------

  lemma ShLayout(random: bytes, sid: bytes, cipher: nat, exts: bytes)
    requires |random| == 32 && |sid| < 256
    ensures var m, p := ShMessage(random, sid, cipher, exts), 39 + |sid|;
      && |m| == p + 5 + |exts| && m[0] == 2 && m[1..4] == U24(|m| - 4) && m[4..6] == U16(LEGACY_VERSION)
      && m[6..38] == random && m[38] == |sid| && m[39..p] == sid && m[p..] == ShTail(cipher, exts)
  {
    hide U16, U24;
    var m, tail := ShMessage(random, sid, cipher, exts), ShTail(cipher, exts);
    ShBodyNested(random, sid, cipher, exts);
    assert m[4..] == ShBody(random, sid, cipher, exts);
    assert m[6..] == random + (U8(|sid|) + (sid + tail));
    assert m[38..] == U8(|sid|) + (sid + tail);
    assert m[39..] == sid + tail;
    assert m[39 + |sid|..] == tail;
  }

  function ShTail(cipher: nat, exts: bytes): bytes {
    U16(cipher) + (U8(0) + (U16(|exts|) + exts))
  }

  lemma ShBodyNested(random: bytes, sid: bytes, cipher: nat, exts: bytes)
    ensures ShBody(random, sid, cipher, exts)
         == U16(LEGACY_VERSION) + (random + (U8(|sid|) + (sid + ShTail(cipher, exts))))
  {}

  lemma ShTailLayout(m: bytes, p: nat, cipher: nat, exts: bytes)
    requires p <= |m| && m[p..] == ShTail(cipher, exts)
    ensures |m| == p + 5 + |exts| && m[p..p + 2] == U16(cipher) && m[p + 2] == 0
    ensures m[p + 3..p + 5] == U16(|exts|) && m[p + 5..] == exts
  {}

  function Decoded(random: bytes, n: nat, cipher: nat, exts: bytes): Option<Sh> {
    if random == HRR_RANDOM then Some(Retry) else
    match ShExtensions(exts, 44 + n, NO_EXTS)
    case None => None
    case Some(x) => Some(Sh(Slice(39, n), cipher, x))
  }

  lemma ParseOfFields(m: bytes, random: bytes, n: nat, cipher: nat, exts: bytes)
    requires n < 256 && |m| >= 44 + n && m[0] == HS_SERVER_HELLO && m[38] == n && m[41 + n] == 0
    requires Num24(m, 1) == |m| - 4 && Num16(m, 4) == LEGACY_VERSION && Num16(m, 42 + n) == |m| - 44 - n
    requires m[6..38] == random && Num16(m, 39 + n) == cipher && m[44 + n..] == exts
    ensures ParseSh(m) == Decoded(random, n, cipher, exts)
  {}

  /** The parser on any well-formed message that is not a retry: it reads the extension block. */
  lemma ParseOfMessage(random: bytes, sid: bytes, cipher: nat, exts: bytes)
    requires |random| == 32 && |sid| < 256 && cipher < 0x1_0000 && |exts| < 0x1_0000
    ensures ParseSh(ShMessage(random, sid, cipher, exts)) == Decoded(random, |sid|, cipher, exts)
  {
    hide U16, U24, ShMessage, ShTail, ShExtensions, Num16, Num24, ParseSh, Decoded;
    var m, p := ShMessage(random, sid, cipher, exts), 39 + |sid|;
    ShLayout(random, sid, cipher, exts);
    ShTailLayout(m, p, cipher, exts);
    Num16Of(m, 4, LEGACY_VERSION);
    Num24Of(m, 1, |m| - 4);
    Num16Of(m, p, cipher);
    Num16Of(m, p + 3, |exts|);
    ParseOfFields(m, random, |sid|, cipher, exts);
  }

  // ----- the extension block ---------------------------------------------------------------

  lemma ReadOne(et: nat, body: bytes, rest: bytes, at: nat, x: Exts)
    requires et < 0x1_0000 && |body| < 0x1_0000
    ensures ShExtensions(U16(et) + (U16(|body|) + body) + rest, at, x)
         == match ShLearn(x, et, body, at + 4)
              case None => None
              case Some(x1) => ShExtensions(rest, at + 4 + |body|, x1)
  {
    hide U16, Num16, ShLearn;
    var b := U16(et) + (U16(|body|) + body) + rest;
    assert b[0..2] == U16(et) && b[2..4] == U16(|body|);
    Num16Of(b, 0, et);
    Num16Of(b, 2, |body|);
    assert b[4..4 + |body|] == body && b[4 + |body|..] == rest;
  }

  lemma ShareBody(group: nat, pub: bytes)
    requires group < 0x1_0000 && |pub| < 0x1_0000
    ensures var b := U16(group) + (U16(|pub|) + pub);
      |b| == 4 + |pub| && Num16(b, 0) == group && Num16(b, 2) == |pub|
  {}

  lemma ReadPsk(psk: Option<nat>, at: nat, x: Exts)
    requires x.psk.None? && (psk.Some? ==> psk.value < 0x1_0000)
    ensures ShExtensions(PskExt(psk), at, x) == Some(x.(psk := psk))
  {}

  lemma ReadShare(group: nat, pub: bytes, rest: bytes, at: nat, x: Exts)
    requires group < 0x1_0000 && |pub| < 0xFFFC && x.keyShare.None?
    ensures ShExtensions(ShareExt(group, pub) + rest, at, x)
         == ShExtensions(rest, at + 8 + |pub|, x.(group := group, keyShare := Some(Slice(at + 8, |pub|))))
  {
    hide U16, Num16;
    ReadOne(EXT_KEY_SHARE, U16(group) + (U16(|pub|) + pub), rest, at, x);
    ShareBody(group, pub);
  }

  lemma ReadVersion(rest: bytes, at: nat)
    ensures ShExtensions(VERSION_EXT + rest, at, NO_EXTS) == ShExtensions(rest, at + 6, NO_EXTS.(version := Some(0x0304)))
  {
    ReadOne(EXT_VERSION, U16(0x0304), rest, at, NO_EXTS);
  }

  lemma ReadShExts(group: nat, pub: bytes, psk: Option<nat>, at: nat)
    requires group < 0x1_0000 && |pub| < 0xFFFC && (psk.Some? ==> psk.value < 0x1_0000)
    ensures ShExtensions(ShExts(group, pub, psk), at, NO_EXTS)
         == Some(Exts(group, Some(Slice(at + 14, |pub|)), Some(0x0304), psk))
  {
    hide ShExtensions, ShareExt, PskExt;
    ReadVersion(ShareExt(group, pub) + PskExt(psk), at);
    var x := NO_EXTS.(version := Some(0x0304));
    ReadShare(group, pub, PskExt(psk), at + 6, x);
    ReadPsk(psk, at + 14 + |pub|, x.(group := group, keyShare := Some(Slice(at + 14, |pub|))));
  }

  // ----- round trips -----------------------------------------------------------------------

  /** Everything the server put into its ServerHello, and where; or the retry flag. */
  lemma ServerHelloRoundTrip(random: bytes, sid: bytes, cipher: nat, group: nat, pub: bytes, psk: Option<nat>)
    requires |random| == 32 && |sid| < 256 && cipher < 0x1_0000 && group < 0x1_0000
    requires psk.Some? ==> psk.value < 0x1_0000
    requires |ShExts(group, pub, psk)| < 0x1_0000
    ensures ParseSh(ShBytes(random, sid, cipher, group, pub, psk))
         == if random == HRR_RANDOM then Some(Retry) else
            Some(Sh(Slice(39, |sid|), cipher, Exts(group, Some(Slice(58 + |sid|, |pub|)), Some(0x0304), psk)))
  {
    hide ShExtensions, U16;
    ParseOfMessage(random, sid, cipher, ShExts(group, pub, psk));
    ReadShExts(group, pub, psk, 44 + |sid|);
  }

  /** The two slices the parser reports are the echoed session id and the server's share. */
  lemma ServerHelloSlices(random: bytes, sid: bytes, cipher: nat, group: nat, pub: bytes, psk: Option<nat>)
    requires |random| == 32 && |sid| < 256
    ensures var m := ShBytes(random, sid, cipher, group, pub, psk);
      && |m| == 44 + |sid| + |ShExts(group, pub, psk)|
      && |m| == 58 + |sid| + |pub| + |PskExt(psk)|
      && m[39..39 + |sid|] == sid && m[58 + |sid|..58 + |sid| + |pub|] == pub
  {
    hide ShMessage, ShTail, U16, PskExt;
    var e := ShExts(group, pub, psk);
    var m, p := ShBytes(random, sid, cipher, group, pub, psk), 39 + |sid|;
    ShLayout(random, sid, cipher, e);
    ShTailLayout(m, p, cipher, e);
    assert e[6..] == ShareExt(group, pub) + PskExt(psk);
    assert e[14..14 + |pub|] == pub;
    assert m[p + 19..p + 19 + |pub|] == m[p + 5..][14..14 + |pub|];
  }

  /** A HelloRetryRequest is recognised as one whatever it carries. */
  lemma RetryRoundTrip(sid: bytes, cipher: nat, group: nat)
    requires |sid| < 256 && cipher < 0x1_0000
    ensures ParseSh(RetryBytes(sid, cipher, group)) == Some(Retry)
    ensures |RetryBytes(sid, cipher, group)| == 56 + |sid|
  {
    hide ShExtensions, ShMessage, ShTail;
    ParseOfMessage(HRR_RANDOM, sid, cipher, RetryExts(group));
    ShLayout(HRR_RANDOM, sid, cipher, RetryExts(group));
  }

  // ----- EncryptedExtensions ---------------------------------------------------------------

  const EXT_SERVER_NAME: nat := 0
  const EXT_SUPPORTED_GROUPS: nat := 10

  function EeExtensions(b: bytes, sniOffered: bool): Status
    decreases |b|
  {
    if b == [] then Success
    else if |b| < 4 || |b| < 4 + Num16(b, 2) then DecodeErr
    else if Num16(b, 0) == EXT_SUPPORTED_GROUPS || (Num16(b, 0) == EXT_SERVER_NAME && sniOffered && Num16(b, 2) == 0)
    then EeExtensions(b[4 + Num16(b, 2)..], sniOffered)
    else UnexpectedMsg
  }

  /** What the client makes of the body of an EncryptedExtensions message. */
  function EncExtVerdict(body: bytes, sniOffered: bool): Status {
    if |body| < 2 || 2 + Num16(body, 0) != |body| then DecodeErr else EeExtensions(body[2..], sniOffered)
  }

  lemma EeStep(data: bytes, p: nat, sni: bool)
    requires p < |data|
    ensures var goal := EeExtensions(data[p..], sni);
      if |data| < p + 4 || |data| < p + 4 + Num16(data, p + 2) then goal == DecodeErr
      else if || Num16(data, p) == EXT_SUPPORTED_GROUPS
              || (Num16(data, p) == EXT_SERVER_NAME && sni && Num16(data, p + 2) == 0)
      then goal == EeExtensions(data[p + 4 + Num16(data, p + 2)..], sni)
      else goal == UnexpectedMsg
  {}

  method CheckEncExt(body: bytes, sniOffered: bool) returns (ret: Status)
    requires |body| <= MAX_BUFFER
    ensures ret == EncExtVerdict(body, sniOffered)
  {
    hide EeExtensions;
    ret := Success;
    var r := new Msg.Reader(body);
    var extLen := r.GetU16();
    var extEnd := r.pos + extLen;
    if r.err || extEnd != |body| {
      ret := DecodeErr;
    } else {
      while ret == Success && r.pos < extEnd && !r.err
        invariant r.Valid() && r.pos >= 2
        invariant r.err ==> ret != Success
        invariant EncExtVerdict(body, sniOffered)
               == if ret != Success then ret else EeExtensions(body[r.pos..], sniOffered)
        decreases |body| - r.pos, ret == Success
      {
        EeStep(body, r.pos, sniOffered);
        var et := r.GetU16();
        var el := r.GetU16();
        var p := r.GetBytes(el);
        if r.err {
          ret := DecodeErr;
        } else if et != EXT_SUPPORTED_GROUPS {
          var sniAck := et == EXT_SERVER_NAME && sniOffered && el == 0;
          if !sniAck {
            ret := UnexpectedMsg;
          }
        }
      }
      EeEmpty(sniOffered);
      assert body[|body|..] == [];
    }
  }

  lemma EeEmpty(sni: bool)
    ensures EeExtensions([], sni) == Success
  {}

  /** The server's EncryptedExtensions pass the client's check. */
  lemma EncExtRoundTrip(sniOffered: bool)
    ensures EncExtVerdict(EE_BYTES[4..], sniOffered) == Success
  {}

  /** An accepted body is a list of offered extensions and nothing else. */
  lemma {:induction false} EeAcceptsOnlyOffered(b: bytes, sni: bool, es: seq<HelloGrammar.Ext>)
    requires b == HelloGrammar.EncExts(es) && HelloGrammar.Narrow(es)
    ensures EeExtensions(b, sni) == Success <==>
      forall i :: 0 <= i < |es| ==> es[i].etype == EXT_SUPPORTED_GROUPS
                                    || (es[i].etype == EXT_SERVER_NAME && sni && es[i].body == [])
    decreases |es|
  {
    hide Num16, U16;
    if es != [] {
      HelloGrammar.ExtLayout(es[0], HelloGrammar.EncExts(es[1..]));
      EeAcceptsOnlyOffered(b[4 + |es[0].body|..], sni, es[1..]);
      assert forall i :: 0 < i < |es| ==> es[i] == es[1..][i - 1];
    }
  }
}
