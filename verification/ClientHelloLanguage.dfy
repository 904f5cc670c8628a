/**
 * Exactly which ClientHellos the server accepts, said of the extensions as a list: which there have to
 * be, what each may look like, and what the server takes from it (RFC 8446 sections 4.1.2 and 4.2).
 */
module ClientHelloLanguage {
  import opened Bytes
  import opened ClientHelloSpec
  import opened HelloGrammar
  import opened HelloStructure
  import opened WireFormat

  // ----- lists of 16-bit values ------------------------------------------------------------

  /** The pair of octets stands at an even place of the list. */
  predicate Lists(b: bytes, high: byte, low: byte) {
    exists i :: 0 <= i < |b| / 2 && b[2 * i] == high && b[2 * i + 1] == low
  }

  lemma WordsList(b: bytes, high: byte, low: byte)
    ensures 256 * (high as int) + low as int in Words(b) <==> Lists(b, high, low)
  {
    var w := 256 * (high as int) + low as int;
    if w in Words(b) {
      var i :| 0 <= i < |b| / 2 && Words(b)[i] == w;
      WordIs(b[2 * i], b[2 * i + 1], high, low);
    }
    if i :| 0 <= i < |b| / 2 && b[2 * i] == high && b[2 * i + 1] == low {
      assert Words(b)[i] == w;
    }
  }

  lemma WordIs(a: byte, b: byte, high: byte, low: byte)
    requires 256 * (a as int) + b as int == 256 * (high as int) + low as int
    ensures a == high && b == low
  {}

  // ----- key shares ------------------------------------------------------------------------

  datatype Entry = Entry(group: nat, key: bytes)

  /** The entries of a client_shares list that fills `b`. */
  function ReadShares(b: bytes): Option<seq<Entry>>
    decreases |b|
  {
    if b == [] then Some([])
    else if |b| < 4 || |b| < 4 + Num16(b, 2) then None
    else
      var more := ReadShares(b[4 + Num16(b, 2)..]);
      if more.None? then None else Some([Entry(Num16(b, 0), b[4..4 + Num16(b, 2)])] + more.value)
  }

  /** The vector of `len` octets ends within the last entry, or with it. */
  predicate EndsInLast(es: seq<Entry>, len: int) {
    if es == [] then len <= 0
    else if |es| == 1 then 0 < len <= 4 + |es[0].key|
    else EndsInLast(es[1..], len - 4 - |es[0].key|)
  }

  /** The last share of x25519, as a slice; `at` is where the entries start. */
  function LastShare(es: seq<Entry>, at: nat, before: Option<Slice>): Option<Slice>
    decreases |es|
  {
    if es == [] then before
    else LastShare(es[1..], at + 4 + |es[0].key|,
                   if es[0].group == 29 then Some(Slice(at + 4, |es[0].key|)) else before)
  }

  lemma {:induction false} LaterEnds(es: seq<Entry>, len: int)
    requires EndsInLast(es, len)
    ensures es != [] <==> len > 0
    decreases |es|
  {
    if |es| > 1 {
      LaterEnds(es[1..], len - 4 - |es[0].key|);
    }
  }

  lemma {:induction false} SharesExactly(b: bytes, len: int, at: nat, cur: Option<Slice>)
    ensures var es := ReadShares(b);
      KeyShareEntries(b, len, at, cur)
      == if es.Some? && EndsInLast(es.value, len) then Some(LastShare(es.value, at, cur)) else None
    decreases |b|
  {
    hide Num16;
    if b == [] {
    } else if |b| >= 4 && |b| >= 4 + Num16(b, 2) {
      var n := Num16(b, 2);
      var next := if Num16(b, 0) == GROUP then Some(Slice(at + 4, n)) else cur;
      SharesExactly(b[4 + n..], len - 4 - n, at + 4 + n, next);
      if ReadShares(b).Some? {
        var es := ReadShares(b).value;
        assert es[1..] == ReadShares(b[4 + n..]).value;
        assert |es[0].key| == n;
        FirstEnds(es, len);
      }
    }
  }

  lemma FirstEnds(es: seq<Entry>, len: int)
    requires es != []
    ensures EndsInLast(es, len) <==> len > 0 && EndsInLast(es[1..], len - 4 - |es[0].key|)
  {
    if EndsInLast(es, len) {
      LaterEnds(es, len);
    }
    if EndsInLast(es[1..], len - 4 - |es[0].key|) {
      LaterEnds(es[1..], len - 4 - |es[0].key|);
    }
  }

  // ----- one extension ---------------------------------------------------------------------

  /** The number in two octets. */
  function Number(b: bytes, at: nat): nat
    requires at + 2 <= |b|
  {
    256 * (b[at] as int) + b[at + 1] as int
  }

  /** As many identities as binders, and at least one. */
  ghost predicate IsPskOffer(b: bytes) {
    exists os: seq<Offer>, bs: seq<bytes> ::
      && ProperOffers(os) && ProperBinders(bs) && |os| == |bs| > 0 && b == EncPsk(os, bs)
      && |EncOffers(os)| < 0x1_0000 && |EncBinders(bs)| < 0x1_0000
  }

  /** The body is of the form of its type; an odd last octet of a list is not counted. Other types are ignored. */
  ghost predicate Shaped(e: Ext) {
    var b := e.body;
    if e.etype == 43 then |b| >= 1 && |b| - 1 == b[0] as int - b[0] as int % 2
    else if e.etype == 10 then |b| >= 2 && |b| - 2 == Number(b, 0) - Number(b, 0) % 2
    else if e.etype == 13 then |b| >= 2 && |b| - 2 == Number(b, 0)
    else if e.etype == 45 then |b| >= 1 && |b| - 1 == b[0] as int
    else if e.etype == 51 then
      |b| >= 2 && Number(b, 0) <= |b| - 2 && ReadShares(b[2..]).Some?
      && EndsInLast(ReadShares(b[2..]).value, Number(b, 0))
    else e.etype == 41 ==> IsPskOffer(b)
  }

  /** What the server takes from the body of each type, when it stands at `at`. */
  function VersionOffered(b: bytes): bool { |b| >= 1 && Lists(b[1..], 3, 4) }

  function GroupOffered(b: bytes): bool { |b| >= 2 && Lists(b[2..], 0, 29) }

  function PskDheOffered(b: bytes): bool { |b| >= 1 && 1 in b[1..] }

  function ShareOffered(b: bytes, at: nat): Option<Slice> {
    if |b| >= 2 && ReadShares(b[2..]).Some? then LastShare(ReadShares(b[2..]).value, at + 2, None) else None
  }

  function SchemesOffered(b: bytes, at: nat): Slice { Slice(at + 2, if |b| >= 2 then |b| - 2 else 0) }

  /** The first identity, the first binder, and where the binders start. */
  function PskOffered(b: bytes, at: nat): Psk {
    if |b| < 4 || |b| < Number(b, 0) + 5 then Psk(Slice(0, 0), Slice(0, 0), 0) else
    var n := Number(b, 0);
    Psk(Slice(at + 4, Number(b, 2)), Slice(at + n + 5, b[n + 4]), at + n + 2)
  }

  function Taken(k: Known, e: Ext, at: nat): Known {
    if e.etype == 43 then k.(tls13 := VersionOffered(e.body))
    else if e.etype == 10 then k.(haveGroups := true, groupOffered := GroupOffered(e.body))
    else if e.etype == 13 then k.(sigAlgs := Some(SchemesOffered(e.body, at)))
    else if e.etype == 45 then k.(pskDhe := PskDheOffered(e.body))
    else if e.etype == 51 then k.(keyShare := ShareOffered(e.body, at))
    else if e.etype == 41 then k.(psk := Some(PskOffered(e.body, at)))
    else k
  }

  lemma PskBodyExactly(b: bytes, at: nat)
    ensures PskBody(b, at) == if IsPskOffer(b) then Some(PskOffered(b, at)) else None
  {
    hide PskBody, EncOffers, EncBinders, ProperOffers, ProperBinders;
    if PskBody(b, at).Some? {
      var os, bs := PskIs(b, at);
      assert IsPskOffer(b);
    }
    if IsPskOffer(b) {
      var os: seq<Offer>, bs: seq<bytes> :|
        && ProperOffers(os) && ProperBinders(bs) && |os| == |bs| > 0 && b == EncPsk(os, bs)
        && |EncOffers(os)| < 0x1_0000 && |EncBinders(bs)| < 0x1_0000;
      PskRead(os, bs, at);
      OfferOctets(os, bs);
    }
  }

  // Two vectors one behind the other.
  lemma TwoVectors(o: bytes, r: bytes)
    requires 2 <= |o| < 0x1_0000 && r != [] && |r| < 0x1_0000
    ensures var b := U16(|o|) + o + (U16(|r|) + r);
      |b| >= |o| + 5 && Number(b, 0) == |o| && Number(b, 2) == Number(o, 0) && b[|o| + 4] == r[0]
  {
    hide U16;
    var b := U16(|o|) + o + (U16(|r|) + r);
    assert b[0..2] == U16(|o|);
    Num16Of(b, 0, |o|);
    assert b[2] == o[0] && b[3] == o[1];
  }

  lemma OfferOctets(os: seq<Offer>, bs: seq<bytes>)
    requires ProperOffers(os) && ProperBinders(bs) && |os| == |bs| > 0
    requires |EncOffers(os)| < 0x1_0000 && |EncBinders(bs)| < 0x1_0000
    ensures var b, n := EncPsk(os, bs), |EncOffers(os)|;
      && |b| >= n + 5 && n >= 2 && Number(b, 0) == n && Number(b, 2) == |os[0].identity| && b[n + 4] as int == |bs[0]|
  {
    hide U16, ProperOffers, ProperBinders;
    FirstProper(os, bs);
    var o, r := EncOffers(os), EncBinders(bs);
    assert o == U16(|os[0].identity|) + os[0].identity + os[0].age + EncOffers(os[1..]);
    assert r == U8(|bs[0]|) + bs[0] + EncBinders(bs[1..]);
    assert o[0..2] == U16(|os[0].identity|);
    Num16Of(o, 0, |os[0].identity|);
    TwoVectors(o, r);
  }

  lemma FirstProper(os: seq<Offer>, bs: seq<bytes>)
    requires ProperOffers(os) && ProperBinders(bs) && |os| == |bs| > 0
    ensures 0 < |os[0].identity| < 0x1_0000 && |os[0].age| == 4 && |bs[0]| < 256
  {}

  lemma ListBodies(b: bytes)
    ensures VersionsBody(b) == if Shaped(Ext(43, b)) then Some(VersionOffered(b)) else None
    ensures GroupsBody(b) == if Shaped(Ext(10, b)) then Some(GroupOffered(b)) else None
    ensures KexModesBody(b) == if Shaped(Ext(45, b)) then Some(PskDheOffered(b)) else None
  {
    hide Words, Lists;
    if |b| >= 1 {
      WordsList(b[1..], 3, 4);
      HalvesDoubled(b[0]);
    }
    if |b| >= 2 {
      WordsList(b[2..], 0, 29);
      HalvesDoubled(Number(b, 0));
    }
  }

  lemma HalvesDoubled(n: nat)
    ensures n / 2 * 2 == n - n % 2
  {}

  lemma ShareBodyExactly(b: bytes, at: nat)
    ensures KeyShareBody(b, at) == if Shaped(Ext(51, b)) then Some(ShareOffered(b, at)) else None
  {
    hide KeyShareEntries, ReadShares, EndsInLast, LastShare;
    if |b| >= 2 && 2 + Num16(b, 0) <= |b| {
      SharesExactly(b[2..], Num16(b, 0), at + 2, None);
    }
  }

  /** The body of one extension is accepted exactly if it is of the form of its type. */
  lemma BodyExactly(k: Known, e: Ext, at: nat)
    ensures LearnBody(k, e.etype, e.body, at) == if Shaped(e) then Some(Taken(k, e, at)) else None
  {
    hide KeyShareBody, GroupsBody, VersionsBody, KexModesBody, PskBody, IsPskOffer, PskOffered, ShareOffered, Lists,
         ReadShares, EndsInLast;
    var b := e.body;
    assert e == Ext(e.etype, b);
    ListBodies(b);
    ShareBodyExactly(b, at);
    PskBodyExactly(b, at);
  }

  // ----- the list --------------------------------------------------------------------------

  ghost predicate AllShaped(es: seq<Ext>) {
    forall i :: 0 <= i < |es| ==> Shaped(es[i])
  }

  /** pre_shared_key is not followed by anything. */
  predicate PskLast(es: seq<Ext>) { |es| > 1 ==> es[0].etype != 41 && PskLast(es[1..]) }

  predicate NoneSeen(es: seq<Ext>, seen: seq<nat>) {
    forall t :: t in seen ==> Find(es, t, 0).None?
  }

  /** The list may come behind what has been learnt: well-formed bodies, no type twice, and at most 40. */
  ghost predicate Listed(es: seq<Ext>, k: Known) {
    && AllShaped(es) && TypesOnce(es) && PskLast(es) && NoneSeen(es, k.seen)
    && (es != [] ==> |k.seen| + |es| <= 40 && k.psk.None?)
  }

  /** What the list says, on top of `k`. */
  function Says(es: seq<Ext>, at: nat, k: Known): Known {
    var v, g, m, s := Find(es, 43, at), Find(es, 10, at), Find(es, 45, at), Find(es, 13, at);
    var x, p := Find(es, 51, at), Find(es, 41, at);
    Known(k.seen + Types(es),
          if v.Some? then VersionOffered(v.value.0) else k.tls13,
          if m.Some? then PskDheOffered(m.value.0) else k.pskDhe,
          g.Some? || k.haveGroups,
          if g.Some? then GroupOffered(g.value.0) else k.groupOffered,
          if x.Some? then ShareOffered(x.value.0, x.value.1) else k.keyShare,
          if s.Some? then Some(SchemesOffered(s.value.0, s.value.1)) else k.sigAlgs,
          if p.Some? then Some(PskOffered(p.value.0, p.value.1)) else k.psk)
  }

  /** One extension more. */
  function Entered(k: Known, e: Ext, at: nat): Known { Taken(k, e, at + 4).(seen := k.seen + [e.etype]) }

  lemma NothingListed(at: nat, k: Known)
    ensures Listed([], k) && Says([], at, k) == k
  {
    assert Types([]) == [];
  }

  lemma OneListed(e: Ext, rest: seq<Ext>, at: nat, k: Known)
    ensures Listed([e] + rest, k)
      <==> Shaped(e) && k.psk.None? && e.etype !in k.seen && |k.seen| < 40 && Listed(rest, Entered(k, e, at))
  {
    hide Shaped, VersionOffered, GroupOffered, PskDheOffered, ShareOffered, SchemesOffered, PskOffered;
    var es := [e] + rest;
    assert es[1..] == rest;
    assert AllShaped(es) <==> Shaped(e) && AllShaped(rest) by {
      assert es[0] == e && forall i :: 0 <= i < |rest| ==> es[i + 1] == rest[i];
    }
    SeenOneMore(e, rest, k.seen);
  }

  lemma FindFirst(e: Ext, rest: seq<Ext>, t: nat, at: nat)
    ensures Find([e] + rest, t, at)
         == if e.etype == t then Some((e.body, at + 4)) else Find(rest, t, at + 4 + |e.body|)
  {
    assert ([e] + rest)[1..] == rest;
  }

  lemma SeenOneMore(e: Ext, rest: seq<Ext>, seen: seq<nat>)
    ensures NoneSeen([e] + rest, seen) && TypesOnce([e] + rest)
      <==> e.etype !in seen && NoneSeen(rest, seen + [e.etype]) && TypesOnce(rest)
  {
    hide Find;
    var es := [e] + rest;
    assert es[1..] == rest;
    forall t: nat
      ensures Find(es, t, 0).None? <==> e.etype != t && Find(rest, t, 0).None?
    {
      FindFirst(e, rest, t, 0);
      FindAnywhere(rest, t, 4 + |e.body|, 0);
    }
    assert TypesOnce(es) <==> Find(rest, e.etype, 0).None? && TypesOnce(rest);
    assert forall t :: t in seen + [e.etype] <==> t in seen || t == e.etype;
  }

  // What was found behind `e`, and `e` itself.
  lemma OneFound(e: Ext, rest: seq<Ext>, t: nat, at: nat)
    requires Find(rest, e.etype, 0).None?
    ensures var behind := Find(rest, t, at + 4 + |e.body|);
      Find([e] + rest, t, at) == if e.etype == t then Some((e.body, at + 4)) else behind
    ensures e.etype == t ==> Find(rest, t, at + 4 + |e.body|).None?
  {
    hide Find;
    FindAnywhere(rest, e.etype, 0, at + 4 + |e.body|);
    FindFirst(e, rest, t, at);
  }

  // What one extension adds, field by field.
  lemma EnteredFields(k: Known, e: Ext, at: nat)
    ensures var n := Entered(k, e, at);
      && n.seen == k.seen + [e.etype]
      && n.tls13 == (if e.etype == 43 then VersionOffered(e.body) else k.tls13)
      && n.pskDhe == (if e.etype == 45 then PskDheOffered(e.body) else k.pskDhe)
      && n.haveGroups == (e.etype == 10 || k.haveGroups)
      && n.groupOffered == (if e.etype == 10 then GroupOffered(e.body) else k.groupOffered)
      && n.keyShare == (if e.etype == 51 then ShareOffered(e.body, at + 4) else k.keyShare)
      && n.sigAlgs == (if e.etype == 13 then Some(SchemesOffered(e.body, at + 4)) else k.sigAlgs)
      && n.psk == (if e.etype == 41 then Some(PskOffered(e.body, at + 4)) else k.psk)
  {
    hide VersionOffered, GroupOffered, PskDheOffered, ShareOffered, SchemesOffered, PskOffered;
  }

  lemma OneSaid(e: Ext, rest: seq<Ext>, at: nat, k: Known)
    requires Find(rest, e.etype, 0).None?
    ensures Says([e] + rest, at, k) == Says(rest, at + 4 + |e.body|, Entered(k, e, at))
  {
    hide VersionOffered, GroupOffered, PskDheOffered, ShareOffered, SchemesOffered, PskOffered, Find, Types, Entered;
    EnteredFields(k, e, at);
    OneFound(e, rest, 43, at);
    OneFound(e, rest, 45, at);
    OneFound(e, rest, 10, at);
    OneFound(e, rest, 51, at);
    OneFound(e, rest, 13, at);
    OneFound(e, rest, 41, at);
    TypesFirst(e, rest, k.seen);
  }

  lemma TypesFirst(e: Ext, rest: seq<Ext>, seen: seq<nat>)
    ensures seen + Types([e] + rest) == seen + [e.etype] + Types(rest)
  {
    assert Types([e] + rest) == [e.etype] + Types(rest);
  }

  /** What a list of extensions teaches the server, or that it is malformed. */
  lemma {:induction false} ListExactly(es: seq<Ext>, at: nat, k: Known)
    ensures LearnAll(es, at, k) == if Listed(es, k) then Some(Says(es, at, k)) else None
    decreases |es|
  {
    hide LearnBody, Shaped, Taken, Says, Listed, PskBody, BodyOk;
    if es == [] {
      NothingListed(at, k);
    } else {
      var e, rest := es[0], es[1..];
      assert [e] + rest == es;
      BodyExactly(k, e, at + 4);
      OneListed(e, rest, at, k);
      LearnIs(k, e, at);
      if Learn(k, e.etype, e.body, at + 4).Some? {
        ListExactly(rest, at + 4 + |e.body|, Entered(k, e, at));
        if Listed(es, k) {
          ListedIsDistinct(es, k);
          OneSaid(e, rest, at, k);
        }
      }
    }
  }

  lemma ListedIsDistinct(es: seq<Ext>, k: Known)
    requires es != [] && Listed(es, k)
    ensures Find(es[1..], es[0].etype, 0).None?
  {}

  lemma LearnIs(k: Known, e: Ext, at: nat)
    ensures Learn(k, e.etype, e.body, at + 4)
         == if k.psk.None? && e.etype !in k.seen && |k.seen| < 40 && Shaped(e) then Some(Entered(k, e, at)) else None
  {
    hide LearnBody, Shaped, Taken;
    BodyExactly(k, e, at + 4);
  }

  // ----- the message -----------------------------------------------------------------------

  /**
   * What the server demands: the suite, TLS 1.3 and x25519 on offer; a share of 32 octets if there is one;
   * and with a PSK a binder of 32 octets and psk_dhe_ke.
   */
  ghost predicate Demanded(h: Hello) {
    var at := h.ExtAt();
    var v, g, m := Find(h.exts, 43, at), Find(h.exts, 10, at), Find(h.exts, 45, at);
    var x, p := Find(h.exts, 51, at), Find(h.exts, 41, at);
    && Lists(h.suites, 0x13, 0x01)
    && v.Some? && VersionOffered(v.value.0)
    && g.Some? && GroupOffered(g.value.0)
    && (x.Some? && ShareOffered(x.value.0, x.value.1).Some? ==> ShareOffered(x.value.0, x.value.1).value.len == 32)
    && (p.Some? ==> PskOffered(p.value.0, p.value.1).binder.len == 32 && m.Some? && PskDheOffered(m.value.0))
  }

  /** What it returns: the session id, the last x25519 share, the schemes, the first identity and binder. */
  function Returned(h: Hello): Parsed {
    var at := h.ExtAt();
    var x, s, p := Find(h.exts, 51, at), Find(h.exts, 13, at), Find(h.exts, 41, at);
    Parsed(Slice(39, |h.sid|), if x.Some? then ShareOffered(x.value.0, x.value.1) else None,
           if s.Some? then Some(SchemesOffered(s.value.0, s.value.1)) else None,
           if p.Some? then Some(PskOffered(p.value.0, p.value.1)) else None)
  }

  /** A malformed list is a decoding error, and a well-formed one that lacks something demanded is refused. */
  lemma VerdictExactly(h: Hello)
    ensures Verdict(h)
         == if !Listed(h.exts, NOTHING) then Reject(DecodeErr)
            else if !Demanded(h) then Reject(IllegalParam) else Accept(Returned(h))
  {
    hide LearnAll, Listed, Words, VersionOffered, GroupOffered, PskDheOffered, ShareOffered, PskOffered, SchemesOffered,
         Lists;
    ListExactly(h.exts, h.ExtAt(), NOTHING);
    WordsList(h.suites, 0x13, 0x01);
  }

  /**
   * The server accepts a message, and takes `p` from it, if and only if it is the encoding of a ClientHello
   * whose extensions are well-formed, none twice, at most 40 and pre_shared_key last, and that offers what
   * is demanded.
   */
  lemma ServerAcceptsExactly(m: bytes, p: Parsed)
    ensures ParseHello(m) == Accept(p)
      <==> exists h: Hello ::
             h.WellFormed() && h.Encode() == m && Listed(h.exts, NOTHING) && Demanded(h) && p == Returned(h)
  {
    hide ParseHello, Verdict, Listed, Demanded, Returned, Hello.Encode, Hello.WellFormed;
    ParserAcceptsExactly(m, p);
    forall h: Hello
      ensures Verdict(h) == Accept(p) <==> Listed(h.exts, NOTHING) && Demanded(h) && p == Returned(h)
    {
      VerdictExactly(h);
    }
  }

  // ----- what the slices hold --------------------------------------------------------------

  // An extension's body as a slice of the message.
  lemma BodyInMessage(h: Hello, t: nat)
    requires h.WellFormed() && Find(h.exts, t, h.ExtAt()).Some?
    ensures var (b, off) := Find(h.exts, t, h.ExtAt()).value;
      off + |b| <= |h.Encode()| && h.Encode()[off..off + |b|] == b
  {
    hide HelloBytes, EncExts, Find;
    var m, at := h.Encode(), h.ExtAt();
    PreludeOfBytes(h.random, h.sid, h.suites, EncExts(h.exts));
    FoundInBlock(h.exts, t, at);
    var (b, off) := Find(h.exts, t, at).value;
    SubSlice(m, at, |m|, off - at, off - at + |b|);
    assert m[at..|m|] == m[at..];
  }

  /** The key of the last entry of x25519. */
  function LastKey(es: seq<Entry>, before: Option<bytes>): Option<bytes>
    decreases |es|
  {
    if es == [] then before else LastKey(es[1..], if es[0].group == 29 then Some(es[0].key) else before)
  }

  ghost predicate Holds(m: bytes, s: Option<Slice>, key: Option<bytes>) {
    s.Some? == key.Some? && (s.Some? ==> s.value.In(m) && s.value.Of(m) == key.value)
  }

  // The first entry of a list in the message, and the others.
  lemma EntryInMessage(m: bytes, b: bytes, at: nat, n: nat)
    requires at + |b| <= |m| && m[at..at + |b|] == b && 4 + n <= |b|
    ensures Holds(m, Some(Slice(at + 4, n)), Some(b[4..4 + n]))
    ensures m[at + 4 + n..at + |b|] == b[4 + n..]
  {
    SubSlice(m, at, at + |b|, 4 + n, |b|);
    SubSlice(m, at, at + |b|, 4, 4 + n);
    assert b[4 + n..|b|] == b[4 + n..];
  }

  lemma ReadFirst(b: bytes)
    requires b != [] && ReadShares(b).Some?
    ensures |b| >= 4 && 4 + Num16(b, 2) <= |b| && ReadShares(b[4 + Num16(b, 2)..]).Some?
    ensures var n := Num16(b, 2);
      ReadShares(b).value == [Entry(Num16(b, 0), b[4..4 + n])] + ReadShares(b[4 + n..]).value
  {
    hide Num16;
  }

  lemma {:induction false} ShareHolds(m: bytes, b: bytes, at: nat, s: Option<Slice>, key: Option<bytes>)
    requires at + |b| <= |m| && m[at..at + |b|] == b && ReadShares(b).Some? && Holds(m, s, key)
    ensures Holds(m, LastShare(ReadShares(b).value, at, s), LastKey(ReadShares(b).value, key))
    decreases |b|
  {
    hide Num16, Holds, ReadShares;
    if b == [] {
      NothingRead();
    } else {
      ReadFirst(b);
      var n := Num16(b, 2);
      EntryInMessage(m, b, at, n);
      var own := Num16(b, 0) == 29;
      ShareHolds(m, b[4 + n..], at + 4 + n, if own then Some(Slice(at + 4, n)) else s,
                 if own then Some(b[4..4 + n]) else key);
      var rest := ReadShares(b[4 + n..]).value;
      assert ReadShares(b).value[1..] == rest;
    }
  }

  lemma NothingRead()
    ensures ReadShares([]) == Some([])
  {}

  /** The share that is returned is the key of the last x25519 entry, and the schemes are the list of the extension. */
  lemma ReturnedHolds(h: Hello)
    requires h.WellFormed() && Listed(h.exts, NOTHING)
    ensures var m, x, s := h.Encode(), Find(h.exts, 51, h.ExtAt()), Find(h.exts, 13, h.ExtAt());
      && (x.Some? ==>
            && |x.value.0| >= 2 && ReadShares(x.value.0[2..]).Some?
            && Holds(m, Returned(h).keyShare, LastKey(ReadShares(x.value.0[2..]).value, None)))
      && (s.Some? ==> |s.value.0| >= 2 && Holds(m, Returned(h).sigAlgs, Some(s.value.0[2..])))
  {
    hide ReadShares, Find, Hello.Encode, Hello.WellFormed, TypesOnce, PskLast, NoneSeen;
    var m, at := h.Encode(), h.ExtAt();
    if Find(h.exts, 51, at).Some? {
      BodyInMessage(h, 51);
      FoundShaped(h.exts, 51, at);
      var (b, off) := Find(h.exts, 51, at).value;
      SubSlice(m, off, off + |b|, 2, |b|);
      assert b[2..|b|] == b[2..];
      ShareHolds(m, b[2..], off + 2, None, None);
    }
    if Find(h.exts, 13, at).Some? {
      BodyInMessage(h, 13);
      FoundShaped(h.exts, 13, at);
      var (b, off) := Find(h.exts, 13, at).value;
      SubSlice(m, off, off + |b|, 2, |b|);
      assert b[2..|b|] == b[2..];
    }
  }

  lemma {:induction false} FoundShaped(es: seq<Ext>, t: nat, at: nat)
    requires AllShaped(es) && Find(es, t, at).Some?
    ensures Shaped(Ext(t, Find(es, t, at).value.0))
    decreases |es|
  {
    hide Shaped;
    if es[0].etype == t {
      assert es[0] == Ext(t, es[0].body);
    } else {
      FoundShaped(es[1..], t, at + 4 + |es[0].body|);
    }
  }
}
