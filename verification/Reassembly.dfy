/** Reassembly does not depend on how a message was split (RFC 8446 section 5.1). */
module Reassembly {
  import opened Bytes
  import opened Record
  import opened Handshake

  /** A record as the peer may send it: a fragment of the message, or a ChangeCipherSpec. */
  datatype Frag = Frag(ctype: byte, version: bytes, body: bytes) {
    function Wire(): bytes { [ctype] + version + U16(|body|) + body }

    predicate Fits(tmpCap: nat) {
      && |version| == 2 && 0 < |body| <= MAX_PLAINTEXT + 256 && HEADER_SZ + |body| <= tmpCap
      && (ctype == REC_HANDSHAKE || (ctype == REC_CCS && body == [1]))
    }

    function Payload(): bytes { if ctype == REC_HANDSHAKE then body else [] }
  }

  function Wire(fs: seq<Frag>): bytes {
    if fs == [] then [] else fs[0].Wire() + Wire(fs[1..])
  }

  function Payload(fs: seq<Frag>): bytes {
    if fs == [] then [] else fs[0].Payload() + Payload(fs[1..])
  }

  // `fs` ends with a fragment of the message: what follows it is not read.
  ghost predicate Usable(fs: seq<Frag>, tmpCap: nat) {
    && fs != [] && fs[|fs| - 1].ctype == REC_HANDSHAKE
    && forall i :: 0 <= i < |fs| ==> fs[i].Fits(tmpCap)
  }

  predicate WholeMessage(msg: bytes, accCap: nat) {
    4 <= |msg| <= accCap && |msg| == 4 + Num24(msg, 1)
  }

  /** `fs` is some split of `msg` into records that fit, with ChangeCipherSpec records in between. */
  ghost predicate Splits(fs: seq<Frag>, msg: bytes, accCap: nat, tmpCap: nat) {
    Usable(fs, tmpCap) && Payload(fs) == msg && WholeMessage(msg, accCap)
  }

  // ----- every split is reassembled --------------------------------------------------------

  lemma PieceOfFrag(f: Frag, rest: bytes, acc: bytes, accCap: nat, tmpCap: nat)
    requires f.Fits(tmpCap)
    ensures Piece(f.Wire() + rest, acc, accCap, tmpCap)
         == if f.ctype == REC_CCS then More(acc, rest) else Collect(acc + f.body, rest, accCap)
  {
    hide Collect, Num16, U16;
    var rec := f.Wire();
    assert rec[3..5] == U16(|f.body|);
    Num16Of(rec, 3, |f.body|);
    assert rec[HEADER_SZ..] == f.body;
    RecordInReads(rec, rest, tmpCap);
  }

  lemma CollectPrefix(acc: bytes, more: bytes, rest: bytes, accCap: nat)
    requires WholeMessage(acc + more, accCap)
    ensures Collect(acc, rest, accCap) == if more == [] then Halt(Gathered(Success, acc, rest)) else More(acc, rest)
  {}

  lemma {:induction false} PayloadNonEmpty(fs: seq<Frag>, tmpCap: nat)
    requires Usable(fs, tmpCap)
    ensures Payload(fs) != []
    decreases |fs|
  {
    if |fs| > 1 {
      assert fs[1..][|fs| - 2] == fs[|fs| - 1];
      PayloadNonEmpty(fs[1..], tmpCap);
    }
  }

  // The first fragment and the others.
  lemma FirstOf(fs: seq<Frag>, acc: bytes, rest: bytes)
    requires fs != []
    ensures Wire(fs) + rest == fs[0].Wire() + (Wire(fs[1..]) + rest)
    ensures acc + Payload(fs) == acc + fs[0].Payload() + Payload(fs[1..])
  {
    hide Frag.Wire, Frag.Payload;
    Join(fs[0].Wire(), Wire(fs[1..]), rest);
    Join(acc, fs[0].Payload(), Payload(fs[1..]));
  }

  lemma TailUsable(fs: seq<Frag>, tmpCap: nat)
    requires Usable(fs, tmpCap)
    ensures fs != [] && fs[0].Fits(tmpCap) && (fs[1..] == [] ==> fs[0].ctype == REC_HANDSHAKE)
    ensures fs[1..] != [] ==> Usable(fs[1..], tmpCap)
  {
    hide Frag.Fits;
  }

  lemma Nothing(acc: bytes, rest: bytes)
    ensures acc + Payload([]) == acc && Wire([]) + rest == rest
  {}

  /** One fragment: the message is complete exactly if it was the last one. */
  lemma OneFragment(f: Frag, more: bytes, acc: bytes, after: bytes, accCap: nat, tmpCap: nat)
    requires f.Fits(tmpCap) && WholeMessage(acc + f.Payload() + after, accCap)
    requires after == [] ==> f.ctype == REC_HANDSHAKE
    ensures var acc1 := acc + f.Payload();
      Piece(f.Wire() + more, acc, accCap, tmpCap)
        == if after == [] then Halt(Gathered(Success, acc1, more)) else More(acc1, more)
  {
    hide Piece, Collect, WholeMessage, Frag.Wire;
    PieceOfFrag(f, more, acc, accCap, tmpCap);
    if f.ctype == REC_HANDSHAKE {
      CollectPrefix(acc + f.Payload(), after, more, accCap);
    } else {
      assert acc + f.Payload() == acc;
    }
  }

  lemma {:induction false} GatherOfWire(fs: seq<Frag>, acc: bytes, rest: bytes, accCap: nat, tmpCap: nat)
    requires Usable(fs, tmpCap) && WholeMessage(acc + Payload(fs), accCap)
    ensures Gather(Wire(fs) + rest, acc, accCap, tmpCap) == Gathered(Success, acc + Payload(fs), rest)
    decreases |fs|
  {
    hide Piece, WholeMessage, Usable, Wire, Payload, Frag.Fits, Frag.Wire, Frag.Payload;
    TailUsable(fs, tmpCap);
    var f, tail := fs[0], fs[1..];
    FirstOf(fs, acc, rest);
    OneFragmentOf(f, tail, acc, rest, accCap, tmpCap);
    if tail == [] {
      Nothing(acc + f.Payload(), rest);
    } else {
      GatherOfWire(tail, acc + f.Payload(), rest, accCap, tmpCap);
    }
  }

  lemma OneFragmentOf(f: Frag, tail: seq<Frag>, acc: bytes, rest: bytes, accCap: nat, tmpCap: nat)
    requires f.Fits(tmpCap) && WholeMessage(acc + f.Payload() + Payload(tail), accCap)
    requires if tail == [] then f.ctype == REC_HANDSHAKE else Usable(tail, tmpCap)
    ensures var acc1, more := acc + f.Payload(), Wire(tail) + rest;
      Piece(f.Wire() + more, acc, accCap, tmpCap)
        == if tail == [] then Halt(Gathered(Success, acc1, more)) else More(acc1, more)
  {
    hide Piece, WholeMessage, Wire, Frag.Fits, Frag.Wire, Frag.Payload;
    if tail != [] {
      PayloadNonEmpty(tail, tmpCap);
    }
    OneFragment(f, Wire(tail) + rest, acc, Payload(tail), accCap, tmpCap);
  }

  // ----- every success came from a split ---------------------------------------------------

  lemma PieceIsFrag(inp: bytes, acc: bytes, accCap: nat, tmpCap: nat) returns (f: Frag, rest: bytes)
    requires var st := Piece(inp, acc, accCap, tmpCap); st.More? || st.g.status == Success
    ensures f.Fits(tmpCap) && inp == f.Wire() + rest
  {
    hide Collect, U16, Num16;
    var r := RecordIn(inp, tmpCap);
    RecordFramed(inp, tmpCap);
    f, rest := Frag(r.ctype, r.rec[1..3], r.rec[HEADER_SZ..]), r.rest;
    U16Of(r.rec, 3);
    assert r.rec == [r.rec[0]] + r.rec[1..3] + r.rec[3..5] + r.rec[5..];
  }

  lemma RecordFramed(inp: bytes, cap: nat)
    requires RecordIn(inp, cap).status == Success
    ensures var r := RecordIn(inp, cap);
      && Num16(r.rec, 3) == |r.rec| - HEADER_SZ && 0 < |r.rec| - HEADER_SZ <= MAX_PLAINTEXT + 256
      && (r.ctype == REC_CCS ==> r.rec[HEADER_SZ..] == [1])
  {}

  lemma Prepend(f: Frag, tail: seq<Frag>, tmpCap: nat)
    requires f.Fits(tmpCap)
    requires if tail == [] then f.ctype == REC_HANDSHAKE else Usable(tail, tmpCap)
    ensures Usable([f] + tail, tmpCap)
    ensures Wire([f] + tail) == f.Wire() + Wire(tail) && Payload([f] + tail) == f.Payload() + Payload(tail)
  {}

  lemma {:induction false} FragsOfGather(inp: bytes, acc: bytes, accCap: nat, tmpCap: nat) returns (fs: seq<Frag>)
    requires Gather(inp, acc, accCap, tmpCap).status == Success
    ensures var g := Gather(inp, acc, accCap, tmpCap);
      && fs != [] && Usable(fs, tmpCap) && acc + Payload(fs) == g.msg && WholeMessage(g.msg, accCap)
      && inp == Wire(fs) + g.rest
    decreases |inp|
  {
    hide Piece, Collect, Wire, Payload, Usable;
    var f, rest := PieceIsFrag(inp, acc, accCap, tmpCap);
    PieceOfFrag(f, rest, acc, accCap, tmpCap);
    CollectVerdict(acc + f.body, rest, accCap);
    var acc1 := acc + f.Payload();
    var g := Gather(inp, acc, accCap, tmpCap);
    var tail := [];
    if Piece(inp, acc, accCap, tmpCap).Halt? {
      assert Payload([]) == [] && Wire([]) == [] by { Empty(); }
    } else {
      assert f.ctype == REC_CCS ==> acc1 == acc;
      tail := FragsOfGather(rest, acc1, accCap, tmpCap);
    }
    Prepend(f, tail, tmpCap);
    fs := [f] + tail;
    assert acc + (f.Payload() + Payload(tail)) == acc1 + Payload(tail);
    assert f.Wire() + (Wire(tail) + g.rest) == f.Wire() + Wire(tail) + g.rest;
  }

  lemma Empty()
    ensures Payload([]) == [] && Wire([]) == []
  {}

  lemma CollectVerdict(acc: bytes, rest: bytes, accCap: nat)
    ensures var st := Collect(acc, rest, accCap);
      if st.More? then st == More(acc, rest)
      else st.g.status == Success ==> st.g == Gathered(Success, acc, rest) && WholeMessage(acc, accCap)
  {}

  // ----- what reassembly takes from the input ----------------------------------------------

  lemma {:induction false} GatherShrinks(inp: bytes, acc: bytes, accCap: nat, tmpCap: nat)
    ensures |Gather(inp, acc, accCap, tmpCap).rest| <= |inp|
    decreases |inp|
  {
    hide RecordIn, Num24;
    match Piece(inp, acc, accCap, tmpCap)
    case Halt(_) =>
    case More(acc1, rest) => GatherShrinks(rest, acc1, accCap, tmpCap);
  }

  /** One piece: five octets of header for at most 16640 of the message. */
  lemma PieceCosts(inp: bytes, acc: bytes, accCap: nat, tmpCap: nat)
    requires var st := Piece(inp, acc, accCap, tmpCap); st.More? || st.g.status == Success
    ensures var st := Piece(inp, acc, accCap, tmpCap);
      var acc1, rest := if st.More? then st.acc else st.g.msg, if st.More? then st.rest else st.g.rest;
      && |acc| <= |acc1| && acc1[..|acc|] == acc
      && |acc1| - |acc| <= MAX_PLAINTEXT + 256 && |rest| + HEADER_SZ + (|acc1| - |acc|) <= |inp|
      && (st.Halt? ==> WholeMessage(acc1, accCap))
  {
    hide Collect;
    var r := RecordIn(inp, tmpCap);
    if r.ctype != REC_CCS {
      CollectVerdict(acc + r.rec[HEADER_SZ..], r.rest, accCap);
    }
  }

  /** The headers that a message costs, and its length once the front with the length is there. */
  lemma {:induction false} GatherCosts(inp: bytes, acc: bytes, accCap: nat, tmpCap: nat)
    requires Gather(inp, acc, accCap, tmpCap).status == Success
    ensures var g := Gather(inp, acc, accCap, tmpCap);
      && WholeMessage(g.msg, accCap) && |acc| <= |g.msg| && g.msg[..|acc|] == acc
      && (MAX_PLAINTEXT + 256) * (|inp| - |g.rest| - (|g.msg| - |acc|)) >= HEADER_SZ * (|g.msg| - |acc|)
    decreases |inp|
  {
    hide Piece, WholeMessage;
    PieceCosts(inp, acc, accCap, tmpCap);
    match Piece(inp, acc, accCap, tmpCap)
    case Halt(_) =>
    case More(acc1, rest) => GatherCosts(rest, acc1, accCap, tmpCap);
  }

  /**
   * Reassembly returns `msg` and leaves `rest` exactly when the input is `rest` behind some split
   * of `msg`; every split of a message gives the same result.
   */
  lemma ReassemblyIsExact(inp: bytes, msg: bytes, rest: bytes, accCap: nat, tmpCap: nat)
    ensures Gather(inp, [], accCap, tmpCap) == Gathered(Success, msg, rest)
      <==> exists fs: seq<Frag> :: Splits(fs, msg, accCap, tmpCap) && inp == Wire(fs) + rest
  {
    hide Gather;
    if Gather(inp, [], accCap, tmpCap) == Gathered(Success, msg, rest) {
      var fs := FragsOfGather(inp, [], accCap, tmpCap);
      assert [] + Payload(fs) == Payload(fs);
      assert Splits(fs, msg, accCap, tmpCap);
    }
    if fs: seq<Frag> :| Splits(fs, msg, accCap, tmpCap) && inp == Wire(fs) + rest {
      assert [] + Payload(fs) == Payload(fs);
      GatherOfWire(fs, [], rest, accCap, tmpCap);
    }
  }

  /** In particular a message sent as one record, and then anything, is received. */
  lemma GatherOfOne(msg: bytes, rest: bytes, accCap: nat, tmpCap: nat)
    requires WholeMessage(msg, accCap) && |msg| <= MAX_PLAINTEXT + 256 && HEADER_SZ + |msg| <= tmpCap
    ensures Gather(PlainRecord(REC_HANDSHAKE, msg) + rest, [], accCap, tmpCap) == Gathered(Success, msg, rest)
  {
    hide U16;
    var f := Frag(REC_HANDSHAKE, [3, 3], msg);
    assert f.Wire() == PlainRecord(REC_HANDSHAKE, msg);
    assert Wire([f]) == f.Wire() + Wire([]) == f.Wire();
    assert Payload([f]) == f.Payload() + Payload([]) == msg;
    assert [] + Payload([f]) == msg;
    GatherOfWire([f], [], rest, accCap, tmpCap);
  }
}
