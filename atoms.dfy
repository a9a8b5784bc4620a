/** The 32-bit cell of a state plane (class Atom): a union of one unsigned
    word and a bit-field pair, a signed 24-bit terminal `str` in the low
    bits and an unsigned 8-bit transition target `tgt` in the high byte.

    A cell is modelled by its two bit-fields; `Pack` and `Unpack` give the
    union's other view, the whole word, and are proved inverse to each
    other, so the two descriptions of a cell carry the same information. */
module Atoms {

  const TgtUnit: int := 0x100_0000   // 2^24, the weight of the tgt byte
  const StrHalf: int := 0x80_0000    // 2^23, the sign bit of the str field

  /** `integral_t`, the whole cell as an unsigned 32-bit word. */
  type Word = w: int | 0 <= w < 0x1_0000_0000

  /** The range of the signed 24-bit `str` field. */
  predicate IsI24(x: int)
  {
    -0x80_0000 <= x < 0x80_0000
  }

  /** The bit-field view of the union. */
  datatype Fields = Fields(tgt: int, str: int)

  /** A cell: an 8-bit unsigned `tgt` and a 24-bit signed `str`. */
  type Atom = a: Fields | 0 <= a.tgt < 256 && IsI24(a.str) witness Fields(0, 0)

  /** The default member initialiser `.integral = 0`. */
  function NewAtom(): (a: Atom)
    ensures Tgt(a) == 0 && Str(a) == 0
  {
    Fields(0, 0)
  }

  /** The `tgt` accessor. */
  function Tgt(a: Atom): (t: int)
    ensures 0 <= t < 256
  {
    a.tgt
  }

  /** The `str` accessor. */
  function Str(a: Atom): (s: int)
    ensures IsI24(s)
  {
    a.str
  }

  /** What a 24-bit signed bit-field keeps of an integer assigned to it:
      the low 24 bits, read back sign-extended. */
  function Truncate24(s: int): (r: int)
    ensures IsI24(r)
    ensures (r - s) % 0x100_0000 == 0
    ensures IsI24(s) ==> r == s
  {
    var low := s % 0x100_0000;
    if low < 0x80_0000 then low else low - 0x100_0000
  }

  /** The `tgt` setter: replaces the high byte and keeps `str`. */
  function SetTgt(a: Atom, t: int): (r: Atom)
    requires 0 <= t < 256
    ensures Tgt(r) == t && Str(r) == Str(a)
  {
    a.(tgt := t)
  }

  /** The `str` setter: the bit-field assignment truncates its argument to
      24 bits; `tgt` is kept. */
  function SetStr(a: Atom, s: int): (r: Atom)
    ensures Tgt(r) == Tgt(a)
    ensures (Str(r) - s) % 0x100_0000 == 0
    ensures IsI24(s) ==> Str(r) == s
  {
    a.(str := Truncate24(s))
  }

  /** The union read as `integral()`: `tgt` in the high byte, the 24 bits
      of `str` (two's complement) below it. */
  function Pack(a: Atom): (w: Word)
    ensures w / 0x100_0000 == Tgt(a)
  {
    a.tgt * 0x100_0000 + a.str % 0x100_0000
  }

  /** The union written as a whole word and read back as bit-fields. */
  function Unpack(w: Word): (a: Atom)
    ensures Tgt(a) == w / 0x100_0000
  {
    Fields(w / 0x100_0000, Truncate24(w % 0x100_0000))
  }

  /** A fresh cell is the all-zero word. */
  lemma NewAtomIsZero()
    ensures Pack(NewAtom()) == 0 && Unpack(0) == NewAtom()
  {
  }

  /** Reading the word back gives the same fields. */
  lemma UnpackPack(a: Atom)
    ensures Unpack(Pack(a)) == a
  {
    var w := Pack(a);
    assert w % 0x100_0000 == a.str % 0x100_0000;
    assert Truncate24(w % 0x100_0000) == a.str;
  }

  /** Two cells with the same word have the same fields, and every word is
      the word of some cell: the two views of the union are one. */
  lemma PackUnpack(w: Word)
    ensures Pack(Unpack(w)) == w
  {
    var a := Unpack(w);
    assert a.str % 0x100_0000 == w % 0x100_0000;
  }
}
