/** The server's ClientHello parser: one pass with a sticky cursor (`wn_ClientHello_Parse`). */
module ClientHello {
  import opened Bytes
  import opened Msg
  import opened ClientHelloSpec

  /** The parser's local flags and the out-structure it fills. */
  class Progress {
    const seenExt: array<nat>     // duplicate-detection window
    var nSeen: word8
    var seenPsk: bool
    var haveTls13: bool
    var havePskDhe: bool
    var haveGroups: bool
    var groupOffered: bool
    var keyShare: Option<Slice>
    var sigAlgs: Option<Slice>
    var psk: Option<Psk>

    ghost predicate Valid()
      reads this
    {
      seenExt.Length == MAX_EXTS && nSeen as int <= MAX_EXTS && seenPsk == psk.Some?
    }

    ghost function State(): Known
      reads this, seenExt
      requires Valid()
    {
      Known(seenExt[..nSeen], haveTls13, havePskDhe, haveGroups, groupOffered, keyShare, sigAlgs, psk)
    }

    constructor ()
      ensures Valid() && State() == NOTHING && fresh(seenExt)
    {
      seenExt := new nat[MAX_EXTS](_ => 0);
      nSeen, seenPsk, haveTls13, havePskDhe, haveGroups, groupOffered := 0, false, false, false, false, false;
      keyShare, sigAlgs, psk := None, None, None;
    }

    method IsDuplicate(et: nat) returns (dup: bool)
      requires Valid()
      ensures dup == (et in seenExt[..nSeen])
    {
      dup := false;
      var j: word8 := 0;
      while j < nSeen
        invariant 0 <= j <= nSeen
        invariant dup == (et in seenExt[..j])
      {
        if seenExt[j] == et {
          dup := true;
        }
        assert seenExt[..j + 1] == seenExt[..j] + [seenExt[j]];
        j := j + 1;
      }
    }
  }

  /**
   * What a body parser reports through the cursor: it ended exactly at `eEnd` without an error
   * exactly when the body is well formed.
   */
  ghost predicate EndsWell(r: Reader, eEnd: nat, ok: bool)
    reads r
  {
    r.Valid() && ((!r.err && r.pos == eEnd) <==> ok)
  }

  method KeyShareExt(r: Reader, eEnd: nat) returns (share: Option<Slice>)
    requires r.Valid() && !r.err && r.pos <= eEnd <= |r.data|
    modifies r
    ensures var v := KeyShareBody(r.data[old(r.pos)..eEnd], old(r.pos));
      EndsWell(r, eEnd, v.Some?) && (v.Some? ==> share == v.value)
  {
    share := None;
    ghost var at := r.pos;
    ghost var body := r.data[at..eEnd];
    ghost var goal := KeyShareBody(body, at);
    var ksVec := r.GetU16();
    var ksEnd := r.pos + ksVec;
    if ksEnd > eEnd {
      r.err := true;
    }
    assert !r.err ==> body[2..] == r.data[r.pos..eEnd];
    while r.pos < ksEnd && !r.err
      invariant r.Valid()
      invariant r.err || ksEnd <= eEnd
      invariant r.err || r.pos > eEnd ==> goal.None?
      invariant !r.err && r.pos <= eEnd ==> goal == KeyShareEntries(r.data[r.pos..eEnd], ksEnd - r.pos, r.pos, share)
      decreases |r.data| - r.pos, !r.err
    {
      share := KeyShareEntry(r, eEnd, ksEnd, share);
    }
  }

  /** One client_shares entry: it may be read beyond `eEnd`, which then is the error. */
  method KeyShareEntry(r: Reader, eEnd: nat, ksEnd: nat, cur: Option<Slice>) returns (share: Option<Slice>)
    requires r.Valid() && !r.err && r.pos < ksEnd <= eEnd <= |r.data|
    modifies r
    ensures r.Valid() && r.pos >= old(r.pos) && (!r.err ==> r.pos > old(r.pos))
    ensures var goal := KeyShareEntries(r.data[old(r.pos)..eEnd], ksEnd - old(r.pos), old(r.pos), cur);
      if r.err || r.pos > eEnd then goal.None?
      else goal == KeyShareEntries(r.data[r.pos..eEnd], ksEnd - r.pos, r.pos, share)
  {
    hide KeyShareEntries;
    share := cur;
    ghost var p0 := r.pos;
    var g := r.GetU16();
    var klen := r.GetU16();
    var p := r.GetBytes(klen);
    if g == GROUP && p.Some? {
      share := Some(Slice(p.value, klen));
    }
    KeyShareEntryStep(r.data, p0, eEnd, ksEnd - p0, cur);
  }

  lemma KeyShareEntryStep(data: bytes, p: nat, eEnd: nat, limit: int, cur: Option<Slice>)
    requires p <= eEnd <= |data| && limit > 0
    ensures var goal := KeyShareEntries(data[p..eEnd], limit, p, cur);
      if eEnd < p + 4 || eEnd < p + 4 + Num16(data, p + 2) then goal.None?
      else var n := Num16(data, p + 2);
        goal == KeyShareEntries(data[p + 4 + n..eEnd], limit - 4 - n, p + 4 + n,
                                if Num16(data, p) == GROUP then Some(Slice(p + 4, n)) else cur)
  {}

  method SigAlgsExt(r: Reader, eEnd: nat) returns (algs: Option<Slice>)
    requires r.Valid() && !r.err && r.pos <= eEnd <= |r.data|
    modifies r
    ensures var v := SigAlgsBody(r.data[old(r.pos)..eEnd], old(r.pos));
      EndsWell(r, eEnd, v.Some?) && (v.Some? ==> algs == v)
  {
    var idsLen := r.GetU16();
    var p := r.GetBytes(idsLen);
    algs := if p.Some? then Some(Slice(p.value, idsLen)) else None;
  }

  lemma WordsAppend(b: bytes, x: byte, y: byte)
    requires |b| % 2 == 0
    ensures Words(b + [x, y]) == Words(b) + [256 * (x as int) + y]
  {}

  lemma MoreWords(data: bytes, from: nat, p: nat)
    requires from <= p && p + 2 <= |data| && (p - from) % 2 == 0
    ensures Words(data[from..p + 2]) == Words(data[from..p]) + [Num16(data, p)]
  {
    hide Words;
    WordsAppend(data[from..p], data[p], data[p + 1]);
    assert data[from..p + 2] == data[from..p] + [data[p], data[p + 1]];
  }

  // The extension body, in terms of the whole message.
  lemma GroupsBodyIn(data: bytes, at: nat, eEnd: nat)
    requires at <= eEnd <= |data|
    ensures GroupsBody(data[at..eEnd])
         == if eEnd < at + 2 || eEnd != at + 2 + Num16(data, at) / 2 * 2 then None
            else Some(GROUP in Words(data[at + 2..eEnd]))
  {
    hide Words, Num16;
    if at + 2 <= eEnd {
      Num16Slice(data, at, eEnd, 0);
      assert data[at..eEnd][2..] == data[at + 2..eEnd];
    }
  }

  lemma RoundedDown(n: nat, k: nat)
    requires 2 * k <= n
    ensures if n < 2 * k + 2 then n / 2 * 2 == 2 * k else n / 2 * 2 >= 2 * k + 2
  {}

  method GroupsExt(r: Reader, eEnd: nat) returns (offered: bool)
    requires r.Valid() && !r.err && r.pos <= eEnd <= |r.data|
    modifies r
    ensures var v := GroupsBody(r.data[old(r.pos)..eEnd]);
      EndsWell(r, eEnd, v.Some?) && (v.Some? ==> offered == v.value)
  {
    hide Words, GroupsBody, Num16;
    offered := false;
    ghost var at, k := r.pos, 0;
    GroupsBodyIn(r.data, at, eEnd);
    var glen := r.GetU16();
    var end := r.pos + glen;
    assert !r.err ==> r.data[at + 2..r.pos] == [];
    NoWords();
    while !r.err && r.pos + 2 <= end
      invariant r.Valid() && 2 * k <= glen
      invariant !r.err ==> at + 2 <= |r.data| && end == at + 2 + glen && r.pos == at + 2 + 2 * k
      invariant !r.err ==> offered == (GROUP in Words(r.data[at + 2..r.pos]))
      invariant r.err ==> at + 2 > |r.data| || (2 * k + 2 <= glen && at + 2 + 2 * k + 2 > |r.data|)
      decreases end - r.pos, !r.err
    {
      ghost var p := r.pos;
      var w := r.GetU16();
      if !r.err {
        MoreWords(r.data, at + 2, p);
        k := k + 1;
      }
      if w == GROUP {
        offered := true;
      }
    }
    RoundedDown(glen, k);
  }

  lemma NoWords()
    ensures Words([]) == []
  {}

  lemma VersionsBodyIn(data: bytes, at: nat, eEnd: nat)
    requires at <= eEnd <= |data|
    ensures VersionsBody(data[at..eEnd])
         == if eEnd < at + 1 || eEnd != at + 1 + (data[at] as int) / 2 * 2 then None
            else Some(TLS13 in Words(data[at + 1..eEnd]))
  {
    hide Words;
    if at + 1 <= eEnd {
      assert data[at..eEnd][1..] == data[at + 1..eEnd];
    }
  }

  method VersionsExt(r: Reader, eEnd: nat) returns (tls13: bool)
    requires r.Valid() && !r.err && r.pos <= eEnd <= |r.data|
    modifies r
    ensures var v := VersionsBody(r.data[old(r.pos)..eEnd]);
      EndsWell(r, eEnd, v.Some?) && (v.Some? ==> tls13 == v.value)
  {
    hide Words, VersionsBody, Num16;
    tls13 := false;
    ghost var at, k := r.pos, 0;
    VersionsBodyIn(r.data, at, eEnd);
    var n := r.GetU8();
    var nver := n as word8;
    var j: word8 := 0;
    assert !r.err ==> r.data[at + 1..r.pos] == [];
    NoWords();
    while j as int + 1 < nver as int
      invariant r.Valid() && j as int == 2 * k && 2 * k <= n
      invariant !r.err ==> r.pos == at + 1 + 2 * k
      invariant !r.err ==> tls13 == (TLS13 in Words(r.data[at + 1..r.pos]))
      invariant r.err ==> at + 1 + 2 * k > |r.data| || at + 1 > |r.data|
    {
      ghost var p := r.pos;
      var sv := r.GetU16();
      if !r.err {
        MoreWords(r.data, at + 1, p);
      }
      if sv == TLS13 {
        tls13 := true;
      }
      j := j + 2;
      k := k + 1;
    }
    RoundedDown(n, k);
  }

  method KexModesExt(r: Reader, eEnd: nat) returns (dhe: bool)
    requires r.Valid() && !r.err && r.pos <= eEnd <= |r.data|
    modifies r
    ensures var v := KexModesBody(r.data[old(r.pos)..eEnd]);
      EndsWell(r, eEnd, v.Some?) && (v.Some? ==> dhe == v.value)
  {
    dhe := false;
    ghost var at := r.pos;
    var n := r.GetU8();
    var pmLen := n as word8;
    var j: word8 := 0;
    while j < pmLen
      invariant r.Valid() && j <= pmLen
      invariant !r.err ==> r.pos == at + 1 + j as int
      invariant !r.err ==> dhe == (1 in r.data[at + 1..r.pos])
      invariant r.err ==> at + 1 + n > |r.data|
    {
      ghost var p0 := r.pos;
      var m := r.GetU8();
      if !r.err {
        assert r.data[at + 1..r.pos] == r.data[at + 1..p0] + [r.data[p0]];
      }
      if m == 1 {
        dhe := true;
      }
      j := j + 1;
    }
    assert !r.err && r.pos <= eEnd ==> r.data[at..eEnd][1..] == r.data[at + 1..eEnd];
  }

  /** The list `goal` is `done` followed by what is still to be read. */
  ghost predicate Continues(goal: Option<seq<bytes>>, done: seq<bytes>, rest: Option<seq<bytes>>) {
    goal.Some? == rest.Some? && (goal.Some? ==> goal.value == done + rest.value)
  }

  // Moving the first element of the rest to the end of what is done.
  lemma ContinuesMore(goal: Option<seq<bytes>>, done: seq<bytes>, x: bytes, rest: Option<seq<bytes>>)
    requires Continues(goal, done, if rest.None? then None else Some([x] + rest.value))
    ensures Continues(goal, done + [x], rest)
  {}

  lemma ContinuesStart(goal: Option<seq<bytes>>)
    ensures Continues(goal, [], goal)
  {}

  lemma IdentitiesEnd(goal: Option<seq<bytes>>, done: seq<bytes>, rest: bytes)
    requires rest == [] && Continues(goal, done, Identities(rest))
    ensures goal == Some(done)
  {
    assert done + [] == done;
  }

  lemma BindersEnd(goal: Option<seq<bytes>>, done: seq<bytes>, rest: bytes)
    requires rest == [] && Continues(goal, done, Binders(rest))
    ensures goal == Some(done)
  {
    assert done + [] == done;
  }

  lemma ContinuesNone(goal: Option<seq<bytes>>, done: seq<bytes>, rest: Option<seq<bytes>>)
    requires rest.None? && Continues(goal, done, rest)
    ensures goal.None?
  {}

  lemma IdentityStep(data: bytes, p: nat, end: nat, done: seq<bytes>, goal: Option<seq<bytes>>)
    requires p < end <= |data|
    requires Continues(goal, done, Identities(data[p..end]))
    ensures
      if end < p + 2 || Num16(data, p) == 0 || end < p + 6 + Num16(data, p) then goal.None?
      else var n := Num16(data, p);
        Continues(goal, done + [data[p + 2..p + 2 + n]], Identities(data[p + 6 + n..end]))
  {
    hide Num16, Continues, Identities;
    var b := data[p..end];
    IdentitiesUnfold(b);
    if |b| >= 2 {
      Num16Slice(data, p, end, 0);
    }
    if |b| >= 2 && Num16(b, 0) != 0 && |b| >= 6 + Num16(b, 0) {
      var n := Num16(b, 0);
      SubSlice(data, p, end, 6 + n, |b|);
      SubSlice(data, p, end, 2, 2 + n);
      assert b[6 + n..] == b[6 + n..|b|];
      ContinuesMore(goal, done, b[2..2 + n], Identities(b[6 + n..]));
    } else {
      ContinuesNone(goal, done, Identities(b));
    }
  }

  lemma IdentitiesUnfold(b: bytes)
    requires b != []
    ensures Identities(b) ==
      if |b| < 2 || Num16(b, 0) == 0 || |b| < 6 + Num16(b, 0) then None
      else
        var rest := Identities(b[6 + Num16(b, 0)..]);
        if rest.None? then None else Some([b[2..2 + Num16(b, 0)]] + rest.value)
  {
    hide Num16;
  }

  /** The identities vector, up to `idsEnd`: their number and the first of them. */
  method ReadIdentities(r: Reader, idsEnd: nat) returns (nId: word16, identity: Option<Slice>)
    requires r.Valid() && !r.err && r.pos <= idsEnd <= |r.data| && idsEnd - r.pos < 0x1_0000
    modifies r
    ensures r.Valid()
    ensures var v := Identities(r.data[old(r.pos)..idsEnd]);
      && ((!r.err && r.pos == idsEnd) <==> v.Some?)
      && (v.Some? ==> nId as int == |v.value|)
      && (v.Some? && nId > 0 ==> identity == Some(Slice(old(r.pos) + 2, |v.value[0]|)))
  {
    hide Identities, Continues;
    nId, identity := 0, None;
    ghost var at, goal := r.pos, Identities(r.data[r.pos..idsEnd]);
    ghost var done: seq<bytes> := [];
    ContinuesStart(goal);
    while r.pos < idsEnd && !r.err
      invariant r.Valid() && (!r.err ==> nId as int == |done|)
      invariant r.err || r.pos > idsEnd ==> goal.None?
      invariant !r.err ==> 7 * (nId as int) <= r.pos - at && (nId == 0 ==> r.pos == at)
      invariant !r.err && r.pos <= idsEnd ==> Continues(goal, done, Identities(r.data[r.pos..idsEnd]))
      invariant !r.err && nId > 0 ==> identity == Some(Slice(at + 2, |done[0]|))
      decreases |r.data| - r.pos, !r.err
    {
      IdentityStep(r.data, r.pos, idsEnd, done, goal);
      ghost var p0 := r.pos;
      var idLen, p := ReadIdentity(r);
      if nId == 0 {
        identity := if p.Some? then Some(Slice(p.value, idLen)) else None;
      }
      if !r.err {
        done := done + [r.data[p0 + 2..p0 + 2 + idLen]];
      }
      nId := nId + 1;
    }
    if !r.err && r.pos == idsEnd {
      IdentitiesEnd(goal, done, r.data[r.pos..idsEnd]);
    }
  }

  method ReadIdentity(r: Reader) returns (idLen: nat, p: Option<nat>)
    requires r.Valid() && !r.err && r.pos < |r.data|
    modifies r
    ensures r.Valid() && r.pos >= old(r.pos)
    ensures var at := old(r.pos);
      if at + 2 > |r.data| || Num16(r.data, at) == 0 || at + 6 + Num16(r.data, at) > |r.data| then r.err
      else !r.err && idLen == Num16(r.data, at) && p == Some(at + 2) && r.pos == at + 6 + idLen
  {
    idLen := r.GetU16();
    p := r.GetBytes(idLen);
    var _ := r.GetBytes(4);
    if idLen == 0 {
      r.err := true;
    }
  }

  lemma BinderStep(data: bytes, p: nat, end: nat, done: seq<bytes>, goal: Option<seq<bytes>>)
    requires p < end <= |data|
    requires Continues(goal, done, Binders(data[p..end]))
    ensures var n := data[p] as int;
      if end < p + 1 + n then goal.None?
      else Continues(goal, done + [data[p + 1..p + 1 + n]], Binders(data[p + 1 + n..end]))
  {
    hide Continues, Binders;
    var b := data[p..end];
    var n := b[0] as int;
    BindersUnfold(b);
    if |b| >= 1 + n {
      SubSlice(data, p, end, 1 + n, |b|);
      SubSlice(data, p, end, 1, 1 + n);
      assert b[1 + n..] == b[1 + n..|b|];
      ContinuesMore(goal, done, b[1..1 + n], Binders(b[1 + n..]));
    } else {
      ContinuesNone(goal, done, Binders(b));
    }
  }

  lemma BindersUnfold(b: bytes)
    requires b != []
    ensures var n := b[0] as int;
      Binders(b) ==
      if |b| < 1 + n then None
      else
        var rest := Binders(b[1 + n..]);
        if rest.None? then None else Some([b[1..1 + n]] + rest.value)
  {}

  method ReadBinders(r: Reader, bndEnd: nat) returns (nBnd: word16, binder: Option<Slice>)
    requires r.Valid() && !r.err && r.pos <= bndEnd <= |r.data| && bndEnd - r.pos < 0x1_0000
    modifies r
    ensures r.Valid()
    ensures var v := Binders(r.data[old(r.pos)..bndEnd]);
      && ((!r.err && r.pos == bndEnd) <==> v.Some?)
      && (v.Some? ==> nBnd as int == |v.value|)
      && (v.Some? && nBnd > 0 ==> binder == Some(Slice(old(r.pos) + 1, |v.value[0]|)))
  {
    hide Binders, Continues;
    nBnd, binder := 0, None;
    ghost var at, goal := r.pos, Binders(r.data[r.pos..bndEnd]);
    ghost var done: seq<bytes> := [];
    ContinuesStart(goal);
    while r.pos < bndEnd && !r.err
      invariant r.Valid() && (!r.err ==> nBnd as int == |done|)
      invariant r.err || r.pos > bndEnd ==> goal.None?
      invariant !r.err ==> nBnd as int <= r.pos - at && (nBnd == 0 ==> r.pos == at)
      invariant !r.err && r.pos <= bndEnd ==> Continues(goal, done, Binders(r.data[r.pos..bndEnd]))
      invariant !r.err && nBnd > 0 ==> binder == Some(Slice(at + 1, |done[0]|))
      decreases |r.data| - r.pos, !r.err
    {
      BinderStep(r.data, r.pos, bndEnd, done, goal);
      ghost var p0 := r.pos;
      var blen, p := ReadBinder(r);
      if nBnd == 0 {
        binder := if p.Some? then Some(Slice(p.value, blen)) else None;
      }
      if !r.err {
        done := done + [r.data[p0 + 1..p0 + 1 + blen]];
      }
      nBnd := nBnd + 1;
    }
    if !r.err && r.pos == bndEnd {
      BindersEnd(goal, done, r.data[r.pos..bndEnd]);
    }
  }

  method ReadBinder(r: Reader) returns (blen: nat, p: Option<nat>)
    requires r.Valid() && !r.err && r.pos < |r.data|
    modifies r
    ensures r.Valid() && r.pos >= old(r.pos)
    ensures var at := old(r.pos);
      if at + 1 + r.data[at] as int > |r.data| then r.err
      else !r.err && blen == r.data[at] && p == Some(at + 1) && r.pos == at + 1 + blen
  {
    blen := r.GetU8();
    p := r.GetBytes(blen);
  }

  method PskExt(r: Reader, eEnd: nat) returns (psk: Psk)
    requires r.Valid() && !r.err && r.pos <= eEnd <= |r.data|
    modifies r
    ensures var v := PskBody(r.data[old(r.pos)..eEnd], old(r.pos));
      EndsWell(r, eEnd, v.Some?) && (v.Some? ==> psk == v.value)
  {
    hide Identities, Binders, Num16;
    ghost var at := r.pos;
    ghost var body := r.data[at..eEnd];
    if at + 2 <= eEnd {
      Num16Slice(r.data, at, eEnd, 0);
    }
    var idsLen := r.GetU16();
    var idsEnd := r.pos + idsLen;
    if idsEnd > eEnd {
      r.err := true;
    }
    var nId, identity := 0, None;
    if !r.err {
      SubSlice(r.data, at, eEnd, 2, 2 + idsLen);
      nId, identity := ReadIdentities(r, idsEnd);
    }
    if r.pos != idsEnd {
      r.err := true;
    }
    var truncLen := r.pos;
    if !r.err && r.pos + 2 <= eEnd {
      Num16Slice(r.data, at, eEnd, idsLen + 2);
    }
    var bndLen := r.GetU16();
    var bndEnd := r.pos + bndLen;
    if bndEnd != eEnd {
      r.err := true;
    }
    var nBnd, binder := 0, None;
    if !r.err {
      SubSlice(r.data, at, eEnd, idsLen + 4, |body|);
      nBnd, binder := ReadBinders(r, bndEnd);
    }
    if r.pos != bndEnd || nId == 0 || nId != nBnd {
      r.err := true;
    }
    psk := Psk(if identity.Some? then identity.value else Slice(0, 0),
               if binder.Some? then binder.value else Slice(0, 0), truncLen);
  }

  /**
   * One extension: `et` has been read, its body of `el` octets is next. The cursor ends at the
   * end of the body, and what was learnt is recorded, exactly when the body is acceptable.
   */
  method ReadExtension(r: Reader, g: Progress, et: nat, el: nat) returns (ret: Status)
    requires r.Valid() && !r.err && g.Valid() && r.pos + el <= |r.data|
    requires !g.seenPsk && et !in g.State().seen && g.nSeen as int < MAX_EXTS
    modifies r, g, g.seenExt
    ensures r.Valid() && g.Valid() && (ret == Success || ret == DecodeErr)
    ensures var k := Learn(old(g.State()), et, r.data[old(r.pos)..old(r.pos) + el], old(r.pos));
      (ret == Success <==> k.Some?) && (k.Some? ==> g.State() == k.value && !r.err && r.pos == old(r.pos) + el)
  {
    hide LearnBody;
    ret := Success;
    var eEnd := r.pos + el;
    ReadBody(r, g, et, el);
    if r.err || r.pos != eEnd {
      ret := DecodeErr;
    }
    if ret == Success {
      g.seenExt[g.nSeen] := et;
      g.nSeen := g.nSeen + 1;
      assert g.seenExt[..g.nSeen] == old(g.seenExt[..g.nSeen]) + [et];
    }
  }

  method ReadBody(r: Reader, g: Progress, et: nat, el: nat)
    requires r.Valid() && !r.err && g.Valid() && r.pos + el <= |r.data| && !g.seenPsk
    modifies r, g
    ensures g.Valid() && g.nSeen == old(g.nSeen)
    ensures var k := LearnBody(old(g.State()), et, r.data[old(r.pos)..old(r.pos) + el], old(r.pos));
      EndsWell(r, old(r.pos) + el, k.Some?) && (k.Some? ==> g.State() == k.value)
  {
    hide KeyShareBody, SigAlgsBody, GroupsBody, VersionsBody, KexModesBody, PskBody;
    var eEnd := r.pos + el;
    if et == EXT_KEY_SHARE {
      g.keyShare := KeyShareExt(r, eEnd);
    } else if et == EXT_SIG_ALGS {
      g.sigAlgs := SigAlgsExt(r, eEnd);
    } else if et == EXT_GROUPS {
      g.groupOffered := GroupsExt(r, eEnd);
      g.haveGroups := true;
    } else if et == EXT_VERSIONS {
      g.haveTls13 := VersionsExt(r, eEnd);
    } else if et == EXT_KEX_MODES {
      g.havePskDhe := KexModesExt(r, eEnd);
    } else if et == EXT_PSK {
      g.seenPsk := true;
      var psk := PskExt(r, eEnd);
      g.psk := Some(psk);
    } else {
      var _ := r.GetBytes(el);
    }
  }

  /**
   * The fixed part of the message. A short or inconsistent message is an error; otherwise the
   * cursor stands at the first extension.
   */
  method ReadPrelude(r: Reader) returns (ret: Status, sid: Slice, cipher: bool)
    requires r.Valid() && !r.err && r.pos == 0
    modifies r
    ensures r.Valid()
    ensures if r.data == [] || r.data[0] != HS_CLIENT_HELLO then ret == UnexpectedMsg
      else var p := PreludeOf(r.data);
        if p.None? then ret == DecodeErr
        else ret == Success && !r.err && r.pos == p.value.extAt && sid == p.value.sid && cipher == p.value.cipher
  {
    var csLen;
    cipher := false;
    ret, sid, csLen := ReadHead(r);
    if ret == Success {
      cipher := ReadSuites(r, csLen);
      var compLen := r.GetU8();
      var comp := r.GetU8();
      if compLen != 1 || comp != 0 {
        ret := DecodeErr;
      }
    }
    if ret == Success {
      var vecLen := r.GetU16();
      if r.err || r.pos + vecLen != |r.data| {
        ret := DecodeErr;
      }
    }
  }

  /** The message up to the length of the cipher-suite list. */
  predicate HeadOk(msg: bytes) {
    && |msg| >= 39 && 4 + Num24(msg, 1) == |msg| && Num16(msg, 4) == LEGACY_VERSION && msg[38] <= 32
    && |msg| >= 41 + (msg[38] as int) && Num16(msg, 39 + (msg[38] as int)) % 2 == 0
  }

  method ReadHead(r: Reader) returns (ret: Status, sid: Slice, csLen: word16)
    requires r.Valid() && !r.err && r.pos == 0
    modifies r
    ensures r.Valid() && csLen % 2 == 0
    ensures if r.data == [] || r.data[0] != HS_CLIENT_HELLO then ret == UnexpectedMsg
      else if HeadOk(r.data) then
        && ret == Success && !r.err && sid == Slice(39, r.data[38])
        && r.pos == 41 + r.data[38] as int && csLen as int == Num16(r.data, 39 + r.data[38] as int)
      else ret == DecodeErr || (ret == Success && r.err)
  {
    ret, sid, csLen := Success, Slice(0, 0), 0;
    var mType := r.GetU8();
    if mType != HS_CLIENT_HELLO {
      ret := UnexpectedMsg;
    }
    var hsLen := r.GetU24();
    if ret == Success && r.pos + hsLen != |r.data| {
      ret := DecodeErr;
    }
    if ret == Success {
      var ver := r.GetU16();
      if ver != LEGACY_VERSION {
        ret := DecodeErr;
      }
      var _ := r.GetBytes(32);
      var sidLen := r.GetU8();
      if sidLen > 32 {
        ret := DecodeErr;
      }
      var p := r.GetBytes(sidLen);
      sid := Slice(if p.Some? then p.value else 0, sidLen);
      var n := r.GetU16();
      if ret == Success && n % 2 != 0 {
        ret := DecodeErr;
      } else if ret == Success {
        csLen := n as word16;
      }
    }
  }

  /** The cipher-suite list; its 16-bit counter cannot wrap because the length is even. */
  method ReadSuites(r: Reader, csLen: word16) returns (cipher: bool)
    requires r.Valid() && csLen % 2 == 0
    modifies r
    ensures r.Valid() && (old(r.err) ==> r.err)
    ensures !old(r.err) ==>
      if old(r.pos) + csLen as int > |r.data| then r.err
      else !r.err && r.pos == old(r.pos) + csLen as int && cipher == (CIPHER in Words(r.data[old(r.pos)..r.pos]))
  {
    cipher := false;
    ghost var at := r.pos;
    var i: word16 := 0;
    while i < csLen
      invariant r.Valid() && i % 2 == 0 && i <= csLen
      invariant old(r.err) ==> r.err
      invariant !r.err ==> r.pos == at + i as int && cipher == (CIPHER in Words(r.data[at..r.pos]))
      invariant !old(r.err) && r.err ==> at + csLen as int > |r.data|
    {
      ghost var p0 := r.pos;
      var cs := r.GetU16();
      if !r.err {
        WordsAppend(r.data[at..p0], r.data[p0], r.data[p0 + 1]);
        assert r.data[at..r.pos] == r.data[at..p0] + [r.data[p0], r.data[p0 + 1]];
      }
      if cs == CIPHER {
        cipher := true;
      }
      i := i + 2;
    }
  }

  /** The extension block, which reaches to the end of the message. */
  method ReadExtensions(r: Reader, g: Progress) returns (ret: Status)
    requires r.Valid() && !r.err && g.Valid()
    modifies r, g, g.seenExt
    ensures r.Valid() && g.Valid() && (ret == Success || ret == DecodeErr)
    ensures var k := Extensions(r.data[old(r.pos)..], old(r.pos), old(g.State()));
      (ret == Success <==> k.Some?) && (k.Some? ==> g.State() == k.value)
  {
    hide Learn;
    ret := Success;
    var extEnd := |r.data|;
    ghost var goal := Extensions(r.data[r.pos..], r.pos, g.State());
    while ret == Success && r.pos < extEnd && !r.err
      invariant r.Valid() && g.Valid() && (ret == Success || ret == DecodeErr)
      invariant ret == Success ==> !r.err && goal == Extensions(r.data[r.pos..], r.pos, g.State())
      invariant ret != Success ==> goal.None?
      decreases ret == Success, extEnd - r.pos
    {
      ret := ReadOneExtension(r, g);
    }
  }

  method ReadOneExtension(r: Reader, g: Progress) returns (ret: Status)
    requires r.Valid() && !r.err && g.Valid() && r.pos < |r.data|
    modifies r, g, g.seenExt
    ensures r.Valid() && g.Valid() && (ret == Success || ret == DecodeErr)
    ensures var goal := Extensions(r.data[old(r.pos)..], old(r.pos), old(g.State()));
      if ret == Success
      then !r.err && r.pos > old(r.pos) && goal == Extensions(r.data[r.pos..], r.pos, g.State())
      else goal.None?
  {
    hide Extensions, LearnBody;
    ret := Success;
    ghost var p0 := r.pos;
    ghost var k := g.State();
    var et := r.GetU16();
    var el := r.GetU16();
    var eEnd := r.pos + el;
    var dup := g.IsDuplicate(et);
    if r.err || eEnd > |r.data| || g.seenPsk || dup || g.nSeen as int >= MAX_EXTS {
      ret := DecodeErr;
    } else {
      ret := ReadExtension(r, g, et, el);
    }
    ExtensionsStep(r.data, p0, k);
  }

  lemma ExtensionsStep(data: bytes, p: nat, k: Known)
    requires p < |data|
    ensures var goal := Extensions(data[p..], p, k);
      if |data| < p + 4 || |data| < p + 4 + Num16(data, p + 2) then goal.None?
      else
        var n := Num16(data, p + 2);
        var k1 := Learn(k, Num16(data, p), data[p + 4..p + 4 + n], p + 4);
        goal == if k1.None? then None else Extensions(data[p + 4 + n..], p + 4 + n, k1.value)
  {
    hide Learn;
    var b := data[p..];
    assert b == data[p..|data|];
    if |b| >= 4 && |b| >= 4 + Num16(b, 2) {
      var n := Num16(b, 2);
      SubSlice(data, p, |data|, 4, 4 + n);
      SubSlice(data, p, |data|, 4 + n, |b|);
      assert data[p + 4 + n..] == data[p + 4 + n..|data|];
    }
  }

  /** Decode a ClientHello: the outcome and every returned slice are those of `ParseHello`. */
  method Parse(msg: bytes) returns (ret: Status, out: Parsed)
    requires |msg| <= MAX_BUFFER
    ensures if ret == Success then ParseHello(msg) == Accept(out) else ParseHello(msg) == Reject(ret)
  {
    hide PreludeOf, Extensions;
    var r := new Reader(msg);
    var sid, cipher;
    ret, sid, cipher := ReadPrelude(r);
    var g := new Progress();
    if ret == Success {
      ret := ReadExtensions(r, g);
    }
    if ret == Success && (!cipher || !g.haveTls13 || !g.haveGroups || !g.groupOffered
        || (g.keyShare.Some? && g.keyShare.value.len != PUB_SZ)
        || (g.psk.Some? && (g.psk.value.binder.len != 32 || !g.havePskDhe))) {
      ret := IllegalParam;
    }
    out := Parsed(sid, g.keyShare, g.sigAlgs, g.psk);
  }
}
