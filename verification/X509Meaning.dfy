/**
 * What a certificate's extensions say, as a list and not one after the other: which lists are accepted,
 * and what each field of the result then is (RFC 5280 sections 4.2 and 4.2.1).
 */
module X509Meaning {
  import opened Bytes
  import opened X509Spec
  import opened X509Grammar

  // ----- key usage -------------------------------------------------------------------------

  /** Bit `i` of a BIT STRING, counted from the most significant bit of its first octet. */
  predicate NamedBit(bits: bytes, i: nat) {
    i / 8 < |bits| && bits[i / 8] as int / Pow2(7 - i % 8) % 2 == 1
  }

  /** At most seven unused bits, which are zero, and not all of the first sixteen bits are. */
  predicate UsageFits(unused: byte, bits: bytes) {
    && unused <= 7 && (bits != [] ==> bits[|bits| - 1] as int % Pow2(unused) == 0)
    && ((|bits| >= 1 && bits[0] != 0) || (|bits| >= 2 && bits[1] != 0))
  }

  /** The first two octets, the first one low. */
  function UsageNumber(bits: bytes): nat {
    (if |bits| >= 1 then bits[0] as int else 0) + if |bits| >= 2 then 256 * (bits[1] as int) else 0
  }

  lemma UsageIs(unused: byte, bits: bytes)
    ensures UsageOf(unused, bits) == if UsageFits(unused, bits) then Ok(UsageNumber(bits)) else Fail(X509Decode)
  {
    hide Pow2;
  }

  lemma LowOctet(a: nat, b: nat)
    requires a < 256
    ensures (a + 256 * b) % 256 == a && (a + 256 * b) % 8 == a % 8
  {
    DivModUnique(a + 256 * b, 256, b, a);
    DivModUnique(a + 256 * b, 8, 32 * b + a / 8, a % 8);
  }

  lemma OctetBits(a: byte)
    ensures (a as int >= 128 <==> a as int / Pow2(7) % 2 == 1) && (a as int % 8 >= 4 <==> a as int / Pow2(2) % 2 == 1)
  {
    assert Pow2(2) == 4 && Pow2(7) == 128 by { assert Pow2(4) == 16; }
    DivModUnique(a, 4, 2 * (a / 8) + a % 8 / 4, a % 4);
  }

  /** The two bits that the chain walk asks for are digitalSignature (0) and keyCertSign (5). */
  lemma UsageBits(bits: bytes)
    ensures UsageNumber(bits) % 256 >= 128 <==> NamedBit(bits, 0)
    ensures UsageNumber(bits) % 8 >= 4 <==> NamedBit(bits, 5)
  {
    hide Pow2;
    if |bits| >= 1 {
      LowOctet(bits[0], if |bits| >= 2 then bits[1] else 0);
      OctetBits(bits[0]);
    }
  }

  // ----- lists -----------------------------------------------------------------------------

  datatype Kind = Constraints | Usage | Purposes | Names | Unknown

  function KindOf(e: Extension): Kind {
    match e.value
    case BasicConstraints(_, _) => Constraints
    case KeyUsage(_, _) => Usage
    case ExtKeyUsage(_) => Kind.Purposes
    case AltNames(_) => Names
    case Other(_, _) => Unknown
  }

  function Find(es: seq<Extension>, k: Kind): Option<Extension> {
    if es == [] then None else if KindOf(es[0]) == k then Some(es[0]) else Find(es[1..], k)
  }

  /** None of the four recognised kinds stands twice. */
  predicate Once(es: seq<Extension>) {
    es != [] ==> (KindOf(es[0]) == Unknown || Find(es[1..], KindOf(es[0])).None?) && Once(es[1..])
  }

  /** A host name: 1 to 255 octets, none of them zero. */
  predicate IsHost(n: bytes) { 1 <= |n| <= 255 && forall i :: 0 <= i < |n| ==> n[i] != 0 }

  /** The dNSNames of the list. */
  function Hosts(ns: seq<GeneralName>): seq<bytes> {
    if ns == [] then [] else (if ns[0].tag == 0x82 then [ns[0].content] else []) + Hosts(ns[1..])
  }

  /** An unknown extension must not be critical; the lists are not empty, and each dNSName is a host name. */
  ghost predicate Fits(e: Extension) {
    match e.value
    case BasicConstraints(_, _) => true
    case KeyUsage(unused, bits) => UsageFits(unused, bits)
    case ExtKeyUsage(os) => os != []
    case AltNames(ns) => ns != [] && forall i :: 0 <= i < |ns| && ns[i].tag == 0x82 ==> IsHost(ns[i].content)
    case Other(_, _) => !e.critical
  }

  ghost predicate AllFit(es: seq<Extension>) {
    forall i :: 0 <= i < |es| ==> Fits(es[i])
  }

  predicate New(es: seq<Extension>, s: Summary) {
    && (s.bc.Present? ==> Find(es, Constraints).None?) && (s.ku.Present? ==> Find(es, Usage).None?)
    && (s.eku.Present? ==> Find(es, Kind.Purposes).None?) && (s.sanMark.Present? ==> Find(es, Names).None?)
  }

  ghost predicate Sound(es: seq<Extension>, s: Summary) { AllFit(es) && Once(es) && New(es, s) }

  /** What each recognised extension says, on top of `s`. */
  function Says(es: seq<Extension>, s: Summary): Summary {
    var b, u, p, n := Find(es, Constraints), Find(es, Usage), Find(es, Kind.Purposes), Find(es, Names);
    Summary(MarkIn(b, s.bc), if b.Some? && b.value.value.BasicConstraints? then b.value.value.ca else s.ca,
            MarkIn(u, s.ku), if u.Some? && u.value.value.KeyUsage? then UsageNumber(u.value.value.bits) else s.keyUsage,
            MarkIn(p, s.eku), PurposeIn(p, [0x2B, 6, 1, 5, 5, 7, 3, 1], s.serverAuth),
            PurposeIn(p, [0x55, 0x1D, 0x25, 0], s.anyUse), MarkIn(n, s.sanMark),
            if n.Some? && n.value.value.AltNames? then FirstSixteen(Hosts(n.value.value.names)) else s.san)
  }

  function MarkIn(e: Option<Extension>, before: Mark): Mark {
    if e.Some? then Present(e.value.critical) else before
  }

  function PurposeIn(e: Option<Extension>, oid: bytes, before: bool): bool {
    if e.Some? && e.value.value.ExtKeyUsage? then oid in e.value.value.purposes else before
  }

  function FirstSixteen(names: seq<bytes>): seq<bytes> {
    if |names| <= 16 then names else names[..16]
  }

  lemma {:induction false} HostsIs(ns: seq<GeneralName>)
    ensures DnsNames(ns) == Hosts(ns)
  {
    if ns != [] {
      HostsIs(ns[1..]);
    }
  }

  lemma HostLikeIs(n: bytes)
    ensures HostLike(n) <==> IsHost(n)
  {}

  lemma AllHostLikeIs(ns: seq<GeneralName>)
    ensures AllHostLike(ns) <==> forall i :: 0 <= i < |ns| && ns[i].tag == 0x82 ==> IsHost(ns[i].content)
  {
    hide IsHost, HostLike;
    forall i | 0 <= i < |ns|
      ensures HostLike(ns[i].content) <==> IsHost(ns[i].content)
    {
      HostLikeIs(ns[i].content);
    }
  }

  lemma FindFirst(e: Extension, rest: seq<Extension>, k: Kind)
    ensures Find([e] + rest, k) == if KindOf(e) == k then Some(e) else Find(rest, k)
    ensures Find([e], k) == if KindOf(e) == k then Some(e) else None
  {
    assert ([e] + rest)[1..] == rest && [e][1..] == [];
  }

  // What one extension adds.
  lemma OneLearnt(e: Extension, s: Summary)
    ensures Learn(e, s).Ok? <==> Fits(e) && New([e], s)
    ensures Learn(e, s).Ok? ==> Learn(e, s).value == Says([e], s)
  {
    hide UsageOf, UsageFits, UsageNumber, AllHostLike, DnsNames, Hosts, IsHost, Find;
    FindFirst(e, [], Constraints);
    FindFirst(e, [], Usage);
    FindFirst(e, [], Kind.Purposes);
    FindFirst(e, [], Names);
    match e.value
    case KeyUsage(unused, bits) => UsageIs(unused, bits);
    case AltNames(ns) =>
      AllHostLikeIs(ns);
      HostsIs(ns);
    case _ =>
  }

  lemma OneMore(e: Extension, rest: seq<Extension>, s: Summary)
    requires Fits(e) && New([e], s)
    ensures Sound([e] + rest, s) <==> Sound(rest, Says([e], s))
    ensures Sound([e] + rest, s) ==> Says([e] + rest, s) == Says(rest, Says([e], s))
  {
    hide Fits, Find, UsageNumber, Hosts, FirstSixteen;
    var es := [e] + rest;
    assert es[1..] == rest;
    FindFirst(e, rest, Constraints);
    FindFirst(e, rest, Usage);
    FindFirst(e, rest, Kind.Purposes);
    FindFirst(e, rest, Names);
    assert AllFit(es) <==> Fits(e) && AllFit(rest) by {
      assert es[0] == e && forall i :: 0 <= i < |rest| ==> es[i + 1] == rest[i];
    }
  }

  lemma OneTooMany(e: Extension, rest: seq<Extension>, s: Summary)
    requires Sound([e] + rest, s)
    ensures Fits(e) && New([e], s)
  {
    hide Fits, Find;
    assert ([e] + rest)[0] == e;
    FindFirst(e, rest, Constraints);
    FindFirst(e, rest, Usage);
    FindFirst(e, rest, Kind.Purposes);
    FindFirst(e, rest, Names);
  }

  /** The list is accepted exactly if each extension fits and no recognised kind stands twice. */
  lemma {:induction false} ListMeans(es: seq<Extension>, s: Summary)
    ensures Fold(es, s).Ok? <==> Sound(es, s)
    ensures Sound(es, s) ==> Fold(es, s) == Ok(Says(es, s))
    decreases |es|
  {
    hide Learn, Fits, Sound, Says, New;
    if es == [] {
      NothingSaid(s);
    } else {
      var e, rest := es[0], es[1..];
      assert [e] + rest == es;
      OneLearnt(e, s);
      if Learn(e, s).Ok? {
        OneMore(e, rest, s);
        ListMeans(rest, Says([e], s));
      } else if Sound(es, s) {
        OneTooMany(e, rest, s);
      }
    }
  }

  lemma NothingSaid(s: Summary)
    ensures Sound([], s) && Says([], s) == s
  {}

  /** For a whole certificate. */
  lemma ExtensionsMean(es: seq<Extension>)
    ensures Fold(es, EMPTY).Ok? <==> AllFit(es) && Once(es)
    ensures AllFit(es) && Once(es) ==> Fold(es, EMPTY) == Ok(Says(es, EMPTY))
  {
    hide AllFit, Once, Says, Fold, Find;
    ListMeans(es, EMPTY);
  }
}
