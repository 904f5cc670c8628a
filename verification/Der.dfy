/** DER lengths and headers (`wn_Asn_*` in `wn_x509.c`). */
module Der {
  import opened Bytes

  const SEQ: byte := 0x30
  const SET_OF: byte := 0x31
  const INTEGER: byte := 0x02
  const BOOLEAN: byte := 0x01
  const BIT_STRING: byte := 0x03
  const OCTET_STRING: byte := 0x04
  const NULL: byte := 0x05
  const OBJECT_ID: byte := 0x06

  const LEN_LIMIT: nat := 0x100_0000

  // ----- X.690: shortest-form definite lengths ---------------------------------------------

  /** Lengths from 2^24 on are written with four octets; the parser does not accept them. */
  function EncLen(n: nat): (r: bytes)
    ensures 1 <= |r| <= 5
  {
    if n < 0x80 then [n]
    else if n < 0x100 then [0x81, n]
    else if n < 0x1_0000 then [0x82, n / 0x100, n % 0x100]
    else if n < LEN_LIMIT then [0x83, n / 0x1_0000, n / 0x100 % 0x100, n % 0x100]
    else [0x84] + Be(n, 4)
  }

  function Tlv(tag: byte, content: bytes): (r: bytes)
    ensures |r| >= 2 + |content| && r[0] == tag
  {
    [tag] + EncLen(|content|) + content
  }

  // ----- what the code reads ---------------------------------------------------------------

  datatype Length = Length(value: nat, next: nat)

  /** The length octets at `idx`; `next` is the offset behind them. */
  function LengthAt(der: bytes, idx: nat, end: nat): Option<Length>
    requires idx <= end <= |der|
  {
    if idx == end then None
    else if der[idx] < 0x80 then Some(Length(der[idx], idx + 1))
    else
      var k := der[idx] - 0x80;
      if k == 0 || k > 3 || idx + 1 + k > end || der[idx + 1] == 0 then None else
      var n := FromBe(der[idx + 1..idx + 1 + k]);
      if n < 0x80 then None else Some(Length(n, idx + 1 + k))
  }

  /** The content of a header: where it starts and how long it is. */
  datatype Header = Header(start: nat, len: nat) {
    function End(): nat { start + len }
  }

  function HeaderAt(der: bytes, idx: nat, end: nat, tag: byte): (h: Option<Header>)
    requires idx <= end <= |der|
    ensures h.Some? ==> idx + 2 <= h.value.start && h.value.End() <= end
  {
    if idx == end || der[idx] != tag then None else
    var l := LengthAt(der, idx + 1, end);
    if l.None? || l.value.next + l.value.value > end then None else Some(Header(l.value.next, l.value.value))
  }

  // ----- the code --------------------------------------------------------------------------

  method GetLength(der: bytes, idx: nat, maxIdx: nat, check: bool) returns (ret: Status, next: nat, len: nat)
    requires idx <= maxIdx <= |der| <= MAX_BUFFER
    ensures ret == Success || ret == X509Decode
    ensures var l := LengthAt(der, idx, maxIdx);
      && (ret == Success <==> l.Some? && (check ==> l.value.next + l.value.value <= maxIdx))
      && (ret == Success ==> l == Some(Length(len, next)))
  {
    hide FromBe;
    ret, next, len := Success, idx, 0;
    var i := idx;
    if i + 1 > maxIdx {
      return X509Decode, idx, 0;
    }
    var b := der[i];
    i := i + 1;
    if b >= 0x80 {
      var octets := b % 0x80;
      if octets == 0 || octets > 3 || i + octets > maxIdx || der[i] == 0 {
        ret := X509Decode;
      } else {
        len := GetLongForm(der, i, octets);
        i := i + octets;
        if len < 0x80 {
          ret := X509Decode;
        }
      }
    } else {
      len := b;
    }
    if ret == Success && check && i + len > maxIdx {
      ret := X509Decode;
    }
    next := i;
  }

  method GetLongForm(der: bytes, from: nat, octets: nat) returns (len: nat)
    requires from + octets <= |der|
    ensures len == FromBe(der[from..from + octets])
  {
    hide FromBe;
    var i, left := from, octets;
    len := 0;
    FromBeNone();
    assert der[from..from] == [];
    while left > 0
      invariant 0 <= left <= octets && i == from + octets - left
      invariant len == FromBe(der[from..i])
      decreases left
    {
      assert der[from..i + 1] == der[from..i] + [der[i]];
      FromBeSnoc(der[from..i], der[i]);
      len := len * 0x100 + der[i];
      i := i + 1;
      left := left - 1;
    }
  }

  lemma FromBeNone()
    ensures FromBe([]) == 0
  {}

  lemma FromBeSnoc(b: bytes, x: byte)
    ensures FromBe(b + [x]) == 256 * FromBe(b) + x
  {}

  method GetHeader(der: bytes, tag: byte, idx: nat, maxIdx: nat) returns (ret: Status, start: nat, len: nat)
    requires idx <= maxIdx <= |der| <= MAX_BUFFER
    ensures ret == Success || ret == X509Decode
    ensures HeaderAt(der, idx, maxIdx, tag) == if ret == Success then Some(Header(start, len)) else None
  {
    hide LengthAt;
    ret, start, len := Success, idx, 0;
    if idx + 1 > maxIdx {
      ret := X509Decode;
    }
    if ret == Success && der[idx] != tag {
      ret := X509Decode;
    }
    if ret == Success {
      ret, start, len := GetLength(der, idx + 1, maxIdx, true);
    }
  }

  /** The header of a value that fills its parent exactly. */
  function ExactAt(der: bytes, idx: nat, end: nat, tag: byte): (h: Option<Header>)
    requires idx <= end <= |der|
    ensures h.Some? ==> idx + 2 <= h.value.start && h.value.End() == end
  {
    var h := HeaderAt(der, idx, end, tag);
    if h.Some? && h.value.End() == end then h else None
  }

  method GetHeaderExact(der: bytes, tag: byte, idx: nat, maxIdx: nat) returns (ret: Status, start: nat, len: nat)
    requires idx <= maxIdx <= |der| <= MAX_BUFFER
    ensures ret == Success || ret == X509Decode
    ensures ExactAt(der, idx, maxIdx, tag) == if ret == Success then Some(Header(start, len)) else None
  {
    hide HeaderAt;
    ret, start, len := GetHeader(der, tag, idx, maxIdx);
    if ret == Success && start + len != maxIdx {
      ret := X509Decode;
    }
  }

  /** A BIT STRING without unused bits: its content behind the unused-bits octet. */
  function BitStringAt(der: bytes, idx: nat, end: nat): (h: Option<Header>)
    requires idx <= end <= |der|
    ensures h.Some? ==> idx + 3 <= h.value.start && h.value.End() <= end
  {
    var h := HeaderAt(der, idx, end, BIT_STRING);
    if h.None? || h.value.len < 1 || der[h.value.start] != 0 then None
    else Some(Header(h.value.start + 1, h.value.len - 1))
  }

  method GetBitString(der: bytes, idx: nat, end: nat) returns (ret: Status, next: nat, out: Slice)
    requires idx <= end <= |der| <= MAX_BUFFER
    ensures ret == Success || ret == X509Decode
    ensures BitStringAt(der, idx, end) == if ret == Success then Some(Header(out.off, out.len)) else None
    ensures ret == Success ==> next == out.off + out.len && next <= end
  {
    hide HeaderAt;
    out := Slice(0, 0);
    var len;
    ret, next, len := GetHeader(der, BIT_STRING, idx, end);
    if ret == Success && (len < 1 || der[next] != 0) {
      ret := X509Decode;
    }
    if ret == Success {
      next := next + 1;
      len := len - 1;
      out := Slice(next, len);
      next := next + len;
    }
  }

  // ----- canonicity ------------------------------------------------------------------------

  lemma FromBeSmall(b: bytes)
    ensures |b| == 1 ==> FromBe(b) == b[0]
    ensures |b| == 2 ==> FromBe(b) == 0x100 * (b[0] as int) + b[1]
    ensures |b| == 3 ==> FromBe(b) == 0x1_0000 * (b[0] as int) + 0x100 * (b[1] as int) + b[2]
  {}

  lemma LongFormValue(n: nat)
    requires 0x80 <= n < LEN_LIMIT
    ensures var e := EncLen(n);
      2 <= |e| <= 4 && e[0] == 0x7f + |e| && e[1] != 0 && FromBe(e[1..]) == n
  {
    hide FromBe, Be;
    var e := EncLen(n);
    FromBeSmall(e[1..]);
    if n >= 0x1_0000 {
      var a, rest := n / 0x1_0000, n % 0x1_0000;
      DivModUnique(n, 0x100, 0x100 * a + rest / 0x100, rest % 0x100);
      DivModUnique(n / 0x100, 0x100, a, rest / 0x100);
    }
  }

  /** The reader inverts the encoder. */
  lemma LengthReadsBack(der: bytes, idx: nat, end: nat, n: nat)
    requires n < LEN_LIMIT && idx + |EncLen(n)| <= end <= |der| && der[idx..idx + |EncLen(n)|] == EncLen(n)
    ensures LengthAt(der, idx, end) == Some(Length(n, idx + |EncLen(n)|))
  {
    hide FromBe;
    var e := EncLen(n);
    assert der[idx] == e[0];
    if n >= 0x80 {
      hide EncLen;
      LongFormValue(n);
      assert der[idx + 1] == e[1];
      SubSlice(der, idx, idx + |e|, 1, |e|);
    }
  }

  /** Only shortest-form definite lengths below 2^24 are accepted (X.690 section 10.1). */
  lemma LengthIsShortest(der: bytes, idx: nat, end: nat)
    requires idx <= end <= |der| && LengthAt(der, idx, end).Some?
    ensures var l := LengthAt(der, idx, end).value;
      && l.value < LEN_LIMIT && l.next == idx + |EncLen(l.value)| && l.next <= end
      && der[idx..l.next] == EncLen(l.value)
  {
    hide FromBe;
    if der[idx] >= 0x80 {
      var k := der[idx] - 0x80;
      LongFormIs(der[idx + 1..idx + 1 + k]);
      assert der[idx..idx + 1 + k] == [der[idx]] + der[idx + 1..idx + 1 + k];
    } else {
      assert der[idx..idx + 1] == [der[idx]];
    }
  }

  lemma TwoLengthOctets(a: byte, b: byte)
    requires a != 0
    ensures EncLen(0x100 * (a as int) + b) == [0x82, a, b]
  {
    hide Be;
    DivModUnique(0x100 * (a as int) + b, 0x100, a, b);
  }

  lemma ThreeLengthOctets(a: byte, b: byte, c: byte)
    requires a != 0
    ensures EncLen(0x1_0000 * (a as int) + 0x100 * (b as int) + c) == [0x83, a, b, c]
  {
    hide Be;
    Octets24(a, b, c);
  }

  lemma OneLengthOctet(a: byte)
    requires a >= 0x80
    ensures EncLen(a) == [0x81, a]
  {
  }

  lemma LongFormIs(b: bytes)
    requires 1 <= |b| <= 3 && b[0] != 0 && FromBe(b) >= 0x80
    ensures FromBe(b) < LEN_LIMIT && EncLen(FromBe(b)) == [0x80 + |b|] + b
  {
    hide FromBe, Be, EncLen;
    FromBeSmall(b);
    if |b| == 1 {
      OneLengthOctet(b[0]);
      assert b == [b[0]];
    } else if |b| == 2 {
      TwoLengthOctets(b[0], b[1]);
      assert b == [b[0], b[1]];
    } else {
      ThreeLengthOctets(b[0], b[1], b[2]);
      assert b == [b[0], b[1], b[2]];
    }
  }

  /** The reader accepts exactly the encodings, and nothing depends on what follows. */
  lemma LengthExactly(der: bytes, idx: nat, end: nat, n: nat, next: nat)
    requires idx <= end <= |der|
    ensures LengthAt(der, idx, end) == Some(Length(n, next))
      <==> n < LEN_LIMIT && idx <= next <= end && der[idx..next] == EncLen(n)
  {
    hide LengthAt, EncLen;
    if LengthAt(der, idx, end).Some? {
      LengthIsShortest(der, idx, end);
    }
    if n < LEN_LIMIT && idx <= next <= end && der[idx..next] == EncLen(n) {
      LengthReadsBack(der, idx, end, n);
    }
  }

  /** A header is read exactly from a tag-length-value of that tag. */
  lemma HeaderExactly(der: bytes, idx: nat, end: nat, tag: byte, h: Header)
    requires idx <= end <= |der|
    ensures HeaderAt(der, idx, end, tag) == Some(h)
      <==> h.End() <= end && h.len < LEN_LIMIT && idx <= h.start && der[idx..h.End()] == Tlv(tag, der[h.start..h.End()])
  {
    hide LengthAt, EncLen;
    if HeaderAt(der, idx, end, tag) == Some(h) {
      LengthExactly(der, idx + 1, end, h.len, h.start);
      assert der[idx..h.End()] == [tag] + der[idx + 1..h.start] + der[h.start..h.End()];
    }
    if h.End() <= end && h.len < LEN_LIMIT && idx <= h.start && der[idx..h.End()] == Tlv(tag, der[h.start..h.End()]) {
      var t := der[idx..h.End()];
      assert |t| == 1 + |EncLen(h.len)| + h.len;
      assert t[0] == tag && t[1..1 + |EncLen(h.len)|] == EncLen(h.len);
      SubSlice(der, idx, h.End(), 1, 1 + |EncLen(h.len)|);
      LengthExactly(der, idx + 1, end, h.len, h.start);
    }
  }

  /** Reading a tag-length-value that stands in front of `rest`. */
  lemma ReadTlv(der: bytes, idx: nat, end: nat, tag: byte, content: bytes, rest: bytes)
    requires idx <= end <= |der| < LEN_LIMIT && der[idx..end] == Tlv(tag, content) + rest
    ensures var start := idx + 1 + |EncLen(|content|)|;
      && HeaderAt(der, idx, end, tag) == Some(Header(start, |content|))
      && der[start..start + |content|] == content && der[start + |content|..end] == rest
      && start + |content| == idx + |Tlv(tag, content)| && der[idx..start + |content|] == Tlv(tag, content)
  {
    hide EncLen, HeaderAt;
    var start := idx + 1 + |EncLen(|content|)|;
    var b := der[idx..end];
    SubSlice(der, idx, end, start - idx, start - idx + |content|);
    SubSlice(der, idx, end, start - idx + |content|, end - idx);
    SubSlice(der, idx, end, 0, start - idx + |content|);
    assert b[start - idx..start - idx + |content|] == content;
    assert b[start - idx + |content|..] == rest;
    assert b[..start - idx + |content|] == Tlv(tag, content);
    HeaderExactly(der, idx, end, tag, Header(start, |content|));
  }
}
