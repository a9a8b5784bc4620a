/** Bytes as the source's `char` holds them, and the case folding that
    `toupper`/`tolower` perform on them, restricted to ASCII letters. */
module Bytes {

  /** One byte of a pattern or of a searched buffer. */
  type Byte = c: char | c as int < 256

  /** A `std::string` or `string_view` of bytes. */
  type Text = seq<Byte>

  /** `toupper` on an ASCII byte; every other byte is returned unchanged. */
  function Upper(c: Byte): Byte
  {
    if 'a' <= c <= 'z' then (c as int - 32) as char else c
  }

  /** `tolower` on an ASCII byte; every other byte is returned unchanged. */
  function Lower(c: Byte): Byte
  {
    if 'A' <= c <= 'Z' then (c as int + 32) as char else c
  }

  /** The byte the automaton cannot tell apart from `c`: its lower case when
      matching is caseless, `c` itself otherwise. */
  function Fold(caseless: bool, c: Byte): Byte
  {
    if caseless then Lower(c) else c
  }

  /** A text folded byte by byte. */
  function FoldSeq(caseless: bool, s: Text): (r: Text)
    ensures |r| == |s|
    ensures forall i :: 0 <= i < |s| ==> r[i] == Fold(caseless, s[i])
  {
    seq(|s|, i requires 0 <= i < |s| => Fold(caseless, s[i]))
  }

  /** The pair `last[0], last[1]` that insert builds for one pattern byte:
      `toupper` and `tolower` of it when caseless, the byte twice otherwise.
      The pair is exactly the set of bytes that fold like `u`. */
  function CasePair(caseless: bool, u: Byte): (pair: (Byte, Byte))
    ensures Fold(caseless, pair.0) == Fold(caseless, u) && Fold(caseless, pair.1) == Fold(caseless, u)
    ensures forall c: Byte {:trigger Fold(caseless, c)} ::
      Fold(caseless, c) == Fold(caseless, u) <==> c == pair.0 || c == pair.1
    ensures !caseless ==> pair.0 == pair.1 == u
  {
    if caseless then (Upper(u), Lower(u)) else (u, u)
  }

  /** The first byte(s) insert appends to `s_firsts` for a pattern starting with `u`. */
  function FirstBytes(caseless: bool, u: Byte): (r: Text)
    ensures forall c: Byte {:trigger Fold(caseless, c)} ::
      Fold(caseless, c) == Fold(caseless, u) <==> c in r
  {
    if caseless then [Upper(u), Lower(u)] else [u]
  }

  lemma FoldSeqSlice(caseless: bool, s: Text, i: int, j: int)
    requires 0 <= i <= j < |s|
    ensures FoldSeq(caseless, s[i..j + 1]) == FoldSeq(caseless, s[i..j]) + [Fold(caseless, s[j])]
  {
  }
}
