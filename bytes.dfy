/** Bytes, spans and the byte constants the directive syntax is made of. */
module Bytes {

  /** One byte of the document buffer (`char` in the C code). */
  newtype byte = x: int | 0 <= x < 256

  const SPACE: byte := 32  // ' '
  const BANG: byte := 33   // '!'
  const QUOTE: byte := 34  // '"'
  const HASH: byte := 35   // '#'
  const DASH: byte := 45   // '-'
  const LT: byte := 60     // '<'
  const EQ: byte := 61     // '='
  const GT: byte := 62     // '>'

  /** `isspace` in the C locale: ' ', '\t', '\n', '\v', '\f', '\r'. */
  predicate IsSpace(b: byte) {
    b == SPACE || 9 <= b <= 13
  }

  datatype Option<T> = None | Some(value: T)

  function Min(a: nat, b: nat): nat {
    if a <= b then a else b
  }

  /** A borrowed (offset, length) view into the document buffer. */
  datatype Span = Span(start: nat, len: nat) {
    function End(): nat {
      start + len
    }
  }

  predicate Within(doc: seq<byte>, s: Span) {
    s.start + s.len <= |doc|
  }

  function Slice(doc: seq<byte>, s: Span): seq<byte>
    requires Within(doc, s)
  {
    doc[s.start..s.start + s.len]
  }

  /** The bytes `x` occur in `doc` at offset `p`. */
  predicate At(doc: seq<byte>, p: nat, x: seq<byte>) {
    p + |x| <= |doc| && doc[p..p + |x|] == x
  }

  lemma AtIndex(doc: seq<byte>, p: nat, x: seq<byte>, k: nat)
    requires At(doc, p, x) && k < |x|
    ensures doc[p + k] == x[k]
  {
    assert doc[p..p + |x|][k] == doc[p + k];
  }

  lemma AtConcat(doc: seq<byte>, p: nat, a: seq<byte>, b: seq<byte>)
    requires At(doc, p, a + b)
    ensures At(doc, p, a) && At(doc, p + |a|, b)
  {
    assert doc[p..p + |a|] == doc[p..p + |a + b|][..|a|];
    assert doc[p + |a|..p + |a| + |b|] == doc[p..p + |a + b|][|a|..];
  }
}
