/** ServerHello: parser, builders and round trips (`wn_serverhello.c`). */
module ServerHello {
  import opened Bytes
  import opened Msg

  const HS_SERVER_HELLO: byte := 2
  const LEGACY_VERSION: nat := 0x0303
  const EXT_VERSION: nat := 43
  const EXT_PSK: nat := 41
  const EXT_KEY_SHARE: nat := 51

  // RFC 8446 section 4.1.3: the random of a HelloRetryRequest.
  const HRR_RANDOM: bytes := [
    0xCF, 0x21, 0xAD, 0x74, 0xE5, 0x9A, 0x61, 0x11, 0xBE, 0x1D, 0x8C, 0x02, 0x1E, 0x65, 0xB8, 0x91,
    0xC2, 0xA2, 0x11, 0x16, 0x7A, 0xBB, 0x8C, 0x5E, 0x07, 0x9E, 0x09, 0xE2, 0xC8, 0xA8, 0x33, 0x9C]

  // ----- specification ---------------------------------------------------------------------

  datatype Exts = Exts(group: nat, keyShare: Option<Slice>, version: Option<nat>, psk: Option<nat>)

  const NO_EXTS: Exts := Exts(0, None, None, None)

  /** One extension; a second of its type, another type or an inexact body is an error. */
  function ShLearn(x: Exts, et: nat, b: bytes, at: nat): Option<Exts> {
    if et == EXT_KEY_SHARE then
      if x.keyShare.Some? || |b| < 4 || 4 + Num16(b, 2) != |b| then None
      else Some(x.(group := Num16(b, 0), keyShare := Some(Slice(at + 4, |b| - 4))))
    else if et == EXT_VERSION then
      if x.version.Some? || |b| != 2 then None else Some(x.(version := Some(Num16(b, 0))))
    else if et == EXT_PSK then
      if x.psk.Some? || |b| != 2 then None else Some(x.(psk := Some(Num16(b, 0))))
    else None
  }

  function ShExtensions(b: bytes, at: nat, x: Exts): Option<Exts>
    decreases |b|
  {
    if b == [] then Some(x)
    else if |b| < 4 || |b| < 4 + Num16(b, 2) then None
    else
      var n := Num16(b, 2);
      var x1 := ShLearn(x, Num16(b, 0), b[4..4 + n], at + 4);
      if x1.None? then None else ShExtensions(b[4 + n..], at + 4 + n, x1.value)
  }

  /** A decoded ServerHello: either the retry sentinel, or the negotiated parameters. */
  datatype Sh = Retry | Sh(sid: Slice, cipher: nat, exts: Exts)

  function ParseSh(msg: bytes): Option<Sh> {
    if |msg| < 38 || msg[0] != HS_SERVER_HELLO then None
    else if msg[6..38] == HRR_RANDOM then Some(Retry)
    else if |msg| < 44 || |msg| < 44 + msg[38] as int then None
    else
      var p := 39 + msg[38] as int;
      if Num24(msg, 1) != |msg| - 4 || Num16(msg, 4) != LEGACY_VERSION || msg[p + 2] != 0
         || p + 5 + Num16(msg, p + 3) != |msg| then None else
      var x := ShExtensions(msg[p + 5..], p + 5, NO_EXTS);
      if x.None? then None else Some(Sh(Slice(39, msg[38]), Num16(msg, p), x.value))
  }

  // ----- the parser ------------------------------------------------------------------------

  /** The extension fields of the out-structure; `pskSelected` is None where the C code has -1. */
  class Fields {
    var group: nat
    var keyShare: Option<Slice>
    var version: Option<nat>
    var pskSelected: Option<nat>

    ghost function State(): Exts
      reads this
    {
      Exts(group, keyShare, version, pskSelected)
    }

    constructor ()
      ensures State() == NO_EXTS
    {
      group, keyShare, version, pskSelected := 0, None, None, None;
    }
  }

  method ReadShBody(r: Reader, f: Fields, et: nat, el: nat)
    requires r.Valid() && !r.err && r.pos + el <= |r.data|
    modifies r, f
    ensures r.Valid() && r.pos >= old(r.pos)
    ensures var x := ShLearn(old(f.State()), et, r.data[old(r.pos)..old(r.pos) + el], old(r.pos));
      (!r.err <==> x.Some?) && (x.Some? ==> f.State() == x.value && r.pos == old(r.pos) + el)
  {
    var eEnd := r.pos + el;
    if et == EXT_KEY_SHARE {
      if f.keyShare.Some? {
        r.err := true;
      }
      f.group := r.GetU16();
      var klen := r.GetU16();
      var p := r.GetBytes(klen);
      f.keyShare := if p.Some? then Some(Slice(p.value, klen)) else None;
    } else if et == EXT_VERSION {
      if f.version.Some? {
        r.err := true;
      }
      var v := r.GetU16();
      f.version := Some(v);
    } else if et == EXT_PSK {
      if f.pskSelected.Some? {
        r.err := true;
      }
      var v := r.GetU16();
      f.pskSelected := Some(v);
    } else {
      r.err := true;
    }
    if r.pos != eEnd {
      r.err := true;
    }
  }

  lemma ShExtensionsStep(data: bytes, p: nat, x: Exts)
    requires p < |data|
    ensures var goal := ShExtensions(data[p..], p, x);
      if |data| < p + 4 || |data| < p + 4 + Num16(data, p + 2) then goal.None?
      else
        var n := Num16(data, p + 2);
        var x1 := ShLearn(x, Num16(data, p), data[p + 4..p + 4 + n], p + 4);
        goal == if x1.None? then None else ShExtensions(data[p + 4 + n..], p + 4 + n, x1.value)
  {
    hide ShLearn;
    var b := data[p..];
    assert b == data[p..|data|];
    if |b| >= 4 && |b| >= 4 + Num16(b, 2) {
      var n := Num16(b, 2);
      SubSlice(data, p, |data|, 4, 4 + n);
      SubSlice(data, p, |data|, 4 + n, |b|);
      assert data[p + 4 + n..] == data[p + 4 + n..|data|];
    }
  }

  method ReadShExtension(r: Reader, f: Fields, extEnd: nat)
    requires r.Valid() && !r.err && r.pos < extEnd <= |r.data|
    modifies r, f
    ensures r.Valid() && r.pos >= old(r.pos) && (!r.err ==> r.pos > old(r.pos))
    ensures extEnd == |r.data| ==>
      var goal := ShExtensions(r.data[old(r.pos)..], old(r.pos), old(f.State()));
      if r.err then goal.None? else goal == ShExtensions(r.data[r.pos..], r.pos, f.State())
  {
    hide ShLearn, ShExtensions;
    ghost var p0, x := r.pos, f.State();
    var et := r.GetU16();
    var el := r.GetU16();
    if r.pos + el > extEnd {
      r.err := true;
    } else if !r.err {
      ReadShBody(r, f, et, el);
    }
    ShExtensionsStep(r.data, p0, x);
  }

  method ReadShExtensions(r: Reader, f: Fields, extEnd: nat)
    requires r.Valid() && extEnd <= |r.data|
    modifies r, f
    ensures r.Valid() && (old(r.err) ==> r.err)
    ensures !old(r.err) && extEnd == |r.data| ==>
      var goal := ShExtensions(r.data[old(r.pos)..], old(r.pos), old(f.State()));
      (!r.err <==> goal.Some?) && (goal.Some? ==> f.State() == goal.value)
  {
    ghost var goal := ShExtensions(r.data[r.pos..], r.pos, f.State());
    while r.pos < extEnd && !r.err
      invariant r.Valid() && (old(r.err) ==> r.err)
      invariant !old(r.err) && extEnd == |r.data| ==>
        if r.err then goal.None? else goal == ShExtensions(r.data[r.pos..], r.pos, f.State())
      decreases |r.data| - r.pos, !r.err
    {
      ReadShExtension(r, f, extEnd);
    }
  }

  /** Decode a ServerHello; a HelloRetryRequest is recognised before anything else is checked. */
  method Parse(msg: bytes) returns (ret: Status, out: Sh)
    requires |msg| <= MAX_BUFFER
    ensures ret == Success || ret == InvalidArg
    ensures ParseSh(msg) == if ret == Success then Some(out) else None
  {
    hide ShExtensions;
    ret, out := Success, Retry;
    var r := new Reader(msg);
    var f := new Fields();
    var mType := r.GetU8();
    var hsLen := r.GetU24();
    var lver := r.GetU16();
    var random := r.GetBytes(32);
    var isHelloRetry := false;
    if !r.err && mType == HS_SERVER_HELLO {
      isHelloRetry := msg[6..38] == HRR_RANDOM;
    }
    if !isHelloRetry {
      var sid, cipher;
      ret, sid, cipher := ReadParameters(r, f, mType, hsLen, lver);
      out := Sh(sid, cipher, Exts(f.group, f.keyShare, f.version, f.pskSelected));
    }
  }

  /** Everything after the random of a ServerHello proper. */
  method ReadParameters(r: Reader, f: Fields, mType: nat, hsLen: nat, lver: nat)
    returns (ret: Status, sid: Slice, cipher: nat)
    requires r.Valid() && (!r.err ==> r.pos == 38) && f.State() == NO_EXTS
    modifies r, f
    ensures ret == Success || ret == InvalidArg
    ensures ret == Success <==>
      && !old(r.err) && ParametersOk(r.data) && mType == HS_SERVER_HELLO && hsLen == |r.data| - 4
          && lver == LEGACY_VERSION
    ensures ret == Success ==>
      && sid == Slice(39, r.data[38]) && cipher == Num16(r.data, 39 + r.data[38] as int)
      && ShExtensions(r.data[44 + r.data[38] as int..], 44 + r.data[38] as int, NO_EXTS) == Some(f.State())
  {
    hide ShExtensions;
    var sidLen := r.GetU8();
    var s := r.GetBytes(sidLen);
    sid := Slice(if s.Some? then s.value else 0, sidLen);
    cipher := r.GetU16();
    var comp := r.GetU8();
    var extLen := r.GetU16();
    var extEnd := r.pos + extLen;
    if extEnd > |r.data| {
      extEnd := |r.data|;
      r.err := true;
    }
    ReadShExtensions(r, f, extEnd);
    ret := Success;
    if r.err || mType != HS_SERVER_HELLO || hsLen != |r.data| - 4 || lver != LEGACY_VERSION
       || comp != 0 || extEnd != |r.data| {
      ret := InvalidArg;
    }
  }

  predicate ParametersOk(m: bytes) {
    && |m| >= 44 && |m| >= 44 + m[38] as int && m[41 + m[38] as int] == 0
    && 44 + m[38] as int + Num16(m, 42 + m[38] as int) == |m|
    && ShExtensions(m[44 + m[38] as int..], 44 + m[38] as int, NO_EXTS).Some?
  }
}
