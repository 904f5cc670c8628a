/** Nested length-prefixed vectors: what a LenStart/LenEnd script writes, and reading it back. */
module Vectors {
  import opened Bytes
  import opened Msg

  datatype Tree = Leaf(bs: bytes) | Vec(w: nat, kids: Forest)
  datatype Forest = Nil | Cons(head: Tree, tail: Forest)

  /** The specification encoding: every vector is its big-endian length, then its content. */
  function Enc(t: Tree): bytes {
    match t
    case Leaf(bs) => bs
    case Vec(w, kids) => Be(|EncAll(kids)|, w) + EncAll(kids)
  }

  function EncAll(f: Forest): bytes {
    match f
    case Nil => []
    case Cons(t, rest) => Enc(t) + EncAll(rest)
  }

  /** Prefixes are one to three octets wide; leaves are octet strings a buffer can hold. */
  ghost predicate Scriptable(t: Tree) {
    match t
    case Leaf(bs) => |bs| <= MAX_BUFFER
    case Vec(w, kids) => 1 <= w <= 3 && ScriptableAll(kids)
  }

  ghost predicate ScriptableAll(f: Forest) {
    f.Cons? ==> Scriptable(f.head) && ScriptableAll(f.tail)
  }

  /** Every content length can be represented in its prefix. */
  ghost predicate Fits(t: Tree) {
    t.Vec? ==> |EncAll(t.kids)| < Pow256(t.w) && FitsAll(t.kids)
  }

  ghost predicate FitsAll(f: Forest) {
    f.Cons? ==> Fits(f.head) && FitsAll(f.tail)
  }

  /** The writer script of a tree appends its encoding; the error latches iff it does not fit. */
  method WriteTree(w: Writer, t: Tree)
    requires w.Valid() && Scriptable(t)
    modifies w, w.buf
    ensures w.Wrote(Enc(t))
    decreases t
  {
    match t
    case Leaf(bs) => w.PutBytes(bs);
    case Vec(width, kids) => WriteVec(w, width, kids);
  }

  method WriteVec(w: Writer, width: nat, kids: Forest)
    requires w.Valid() && Scriptable(Vec(width, kids))
    modifies w, w.buf
    ensures w.Wrote(Enc(Vec(width, kids)))
    decreases kids, 1
  {
    hide Be, Patched, EncAll;
    ghost var pre, body := w.Contents(), EncAll(kids);
    var off := w.LenStart(width);
    WriteForest(w, kids);
    w.LenEnd(off, width);
    if !w.err {
      PatchedPrefix(pre, Zeros(width), body);
    }
  }

  method WriteForest(w: Writer, f: Forest)
    requires w.Valid() && ScriptableAll(f)
    modifies w, w.buf
    ensures w.Wrote(EncAll(f))
    decreases f, 0
  {
    match f
    case Nil =>
    case Cons(t, rest) =>
      WriteTree(w, t);
      WriteForest(w, rest);
      assert old(w.Contents()) + Enc(t) + EncAll(rest) == old(w.Contents()) + (Enc(t) + EncAll(rest));
  }

  // What a reader must know beforehand: leaf lengths and prefix widths.
  datatype Shape = LeafShape(n: nat) | VecShape(w: nat, kids: Shapes)
  datatype Shapes = NoShape | ConsShape(head: Shape, tail: Shapes)

  function ShapeOf(t: Tree): Shape {
    match t
    case Leaf(bs) => LeafShape(|bs|)
    case Vec(w, kids) => VecShape(w, ShapesOf(kids))
  }

  function ShapesOf(f: Forest): Shapes {
    match f
    case Nil => NoShape
    case Cons(t, rest) => ConsShape(ShapeOf(t), ShapesOf(rest))
  }

  /** Read a tree of the given shape from the front; each vector must be consumed exactly. */
  function ReadTree(s: Shape, b: bytes): (r: Option<(Tree, bytes)>)
    decreases s
  {
    match s
    case LeafShape(n) => if n <= |b| then Some((Leaf(b[..n]), b[n..])) else None
    case VecShape(w, kids) =>
      if |b| < w then None else
      var n := FromBe(b[..w]);
      if |b| < w + n then None else
      var inner := ReadForest(kids, b[w..w + n]);
      if inner.Some? && inner.value.1 == [] then Some((Vec(w, inner.value.0), b[w + n..])) else None
  }

  function ReadForest(s: Shapes, b: bytes): (r: Option<(Forest, bytes)>)
    decreases s
  {
    match s
    case NoShape => Some((Nil, b))
    case ConsShape(h, t) =>
      var first := ReadTree(h, b);
      if first.None? then None else
      var rest := ReadForest(t, first.value.1);
      if rest.None? then None else Some((Cons(first.value.0, rest.value.0), rest.value.1))
  }

  /** Reading an encoding back recovers the tree, and what follows it is left over. */
  lemma {:induction false} ReadBack(t: Tree, rest: bytes)
    requires Fits(t)
    ensures ReadTree(ShapeOf(t), Enc(t) + rest) == Some((t, rest))
    decreases t
  {
    match t
    case Leaf(bs) =>
      assert (bs + rest)[..|bs|] == bs && (bs + rest)[|bs|..] == rest;
    case Vec(w, kids) =>
      var body := EncAll(kids);
      var b := Be(|body|, w) + body + rest;
      assert Enc(t) + rest == b;
      FromBeOfBe(|body|, w);
      SmallMod(|body|, Pow256(w));
      assert b[..w] == Be(|body|, w);
      assert b[w..w + |body|] == body && b[w + |body|..] == rest;
      ReadBackAll(kids, []);
      assert body + [] == body;
  }

  lemma SmallMod(n: nat, m: nat)
    requires n < m
    ensures n % m == n
  {}

  lemma {:induction false} ReadBackAll(f: Forest, rest: bytes)
    requires FitsAll(f)
    ensures ReadForest(ShapesOf(f), EncAll(f) + rest) == Some((f, rest))
    decreases f
  {
    match f
    case Nil => assert [] + rest == rest;
    case Cons(t, more) =>
      assert EncAll(f) + rest == Enc(t) + (EncAll(more) + rest);
      ReadBack(t, EncAll(more) + rest);
      ReadBackAll(more, rest);
  }

  lemma {:induction false} FromBeBound(b: bytes)
    ensures FromBe(b) < Pow256(|b|)
    decreases |b|
  {
    if b != [] {
      FromBeBound(b[..|b| - 1]);
    }
  }

  lemma {:induction false} BeOfFromBe(b: bytes)
    ensures Be(FromBe(b), |b|) == b
    decreases |b|
  {
    if b != [] {
      var front, last := b[..|b| - 1], b[|b| - 1];
      BeOfFromBe(front);
      DivModUnique(256 * FromBe(front) + last, 256, FromBe(front), last);
    }
  }

  /** Whatever is read stood there encoded, and every content in it fits its prefix. */
  lemma {:induction false} ReadIsFit(s: Shape, b: bytes)
    requires ReadTree(s, b).Some?
    ensures var r := ReadTree(s, b).value; Fits(r.0) && b == Enc(r.0) + r.1
    decreases s
  {
    match s
    case LeafShape(n) => assert b == b[..n] + b[n..];
    case VecShape(w, kids) =>
      var n := FromBe(b[..w]);
      var body := b[w..w + n];
      ReadIsFitAll(kids, body);
      var f := ReadForest(kids, body).value.0;
      assert EncAll(f) + [] == EncAll(f);
      FromBeBound(b[..w]);
      BeOfFromBe(b[..w]);
      assert b == b[..w] + body + b[w + n..];
  }

  lemma {:induction false} ReadIsFitAll(s: Shapes, b: bytes)
    requires ReadForest(s, b).Some?
    ensures var r := ReadForest(s, b).value; FitsAll(r.0) && b == EncAll(r.0) + r.1
    decreases s
  {
    match s
    case NoShape => assert [] + b == b;
    case ConsShape(h, t) =>
      ReadIsFit(h, b);
      var first := ReadTree(h, b).value;
      ReadIsFitAll(t, first.1);
      var rest := ReadForest(t, first.1).value;
      assert Enc(first.0) + (EncAll(rest.0) + rest.1) == Enc(first.0) + EncAll(rest.0) + rest.1;
  }

  /**
   * The condition is exact: a tree is read back from what the script writes if and only if the
   * content of every vector in it, however deeply nested, fits its prefix.
   */
  lemma ReadBackExactly(t: Tree, rest: bytes)
    ensures ReadTree(ShapeOf(t), Enc(t) + rest) == Some((t, rest)) <==> Fits(t)
  {
    if ReadTree(ShapeOf(t), Enc(t) + rest) == Some((t, rest)) {
      ReadIsFit(ShapeOf(t), Enc(t) + rest);
    }
    if Fits(t) {
      ReadBack(t, rest);
    }
  }
}
