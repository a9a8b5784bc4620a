/** `Lettvin::tokenize`: split a string on a one-byte separator, or strip
    a pair of outer delimiters and split what they enclose on the middle
    byte, appending the pieces to a vector of strings. gg_utility.h and
    utility.h hold the same live code; this module models both. */
module Tokenizer {
  import opened Bytes
  import opened Options

  /** `std::string::npos` for a 64-bit `size_type`. */
  const Npos: int := 0xFFFF_FFFF_FFFF_FFFF

  /** The separator `tokenize` uses when none is given. */
  const DefaultSeparator: Text := " "

  /** What one call does: append `tokens` and return `ret`, or stop
      (`synopsis` ends the program, or the source is read out of range). */
  datatype Split = Appends(tokens: seq<Text>, ret: int) | Ends(why: Status)

  /** `find_first_of(sep, b)`: the first position at or after `b` holding
      `sep`, or `|s|` for npos. */
  function Find(s: Text, sep: Byte, b: int): (e: int)
    requires 0 <= b <= |s|
    ensures b <= e <= |s|
    ensures e < |s| ==> s[e] == sep
    ensures forall i :: b <= i < e ==> s[i] != sep
    decreases |s| - b
  {
    if b == |s| || s[b] == sep then b else Find(s, sep, b + 1)
  }

  /** The pieces of `s` from `b` on between occurrences of `sep`, empty
      pieces included: what the loop of tokenize appends. */
  function Pieces(s: Text, sep: Byte, b: int): (r: seq<Text>)
    requires 0 <= b <= |s|
    ensures |r| >= 1
    decreases |s| - b
  {
    var e := Find(s, sep, b);
    if e == |s| then [s[b..]] else [s[b..e]] + Pieces(s, sep, e + 1)
  }

  /** `a_source.substr(1, N - 2)`: the source without its first and last
      byte; a one-byte source leaves nothing, since the count `N - 2`
      wraps to a huge value and `substr` clips it. */
  function Enclosed(s: Text): Text
    requires |s| >= 1
  {
    if |s| == 1 then [] else s[1..|s| - 1]
  }

  /** The switch on the separator's length, then the split.
      A three-byte separator `oSc` demands that the source start with `o`
      and end with `c`; on an empty source `a_source[0]` is the
      terminating NUL, and when that matches `o` the read of
      `a_source[N - 1]` is out of range. */
  function Tokens(source: Text, separator: Text): (r: Split)
    ensures r.Ends? ==> |separator| == 3 && r.why != Ok
    ensures r.Appends? ==> |r.tokens| >= 1
  {
    if |separator| == 1 then Appends(Pieces(source, separator[0], 0), Npos)
    else if |separator| == 3 then
      if source == [] then
        if separator[0] == 0 as char then Ends(Undefined) else Ends(Fatal)
      else if separator[0] == source[0] && separator[2] == source[|source| - 1] then
        Appends(Pieces(Enclosed(source), separator[1], 0), Npos)
      else Ends(Fatal)
    else Appends(["FOO"], 0)
  }

  /** `tokenize (target, a_source, separator)`: `target` is passed by
      reference and only ever appended to; `after` is its new value. */
  method Tokenize(target: seq<Text>, source: Text, separator: Text := DefaultSeparator)
    returns (status: Status, after: seq<Text>, ret: int)
    ensures var t := Tokens(source, separator);
      && (t.Appends? ==> status == Ok && after == target + t.tokens && ret == t.ret)
      && (t.Ends? ==> status == t.why)
  {
    var text: Text;
    var sep: Byte;
    if |separator| == 1 {
      text, sep := source, separator[0];
    } else if |separator| == 3 {
      if source == [] {
        status := if separator[0] == 0 as char then Undefined else Fatal;
        return status, target, 0;
      }
      if separator[0] == source[0] && separator[2] == source[|source| - 1] {
        text, sep := Enclosed(source), separator[1];
      } else {
        return Fatal, target, 0;  // synopsis: bad delimiters
      }
    } else {
      return Ok, target + ["FOO"], 0;
    }
    after := AppendPieces(target, text, sep);
    status, ret := Ok, Npos;
  }

  /** The loop of tokenize: push each piece before a separator, then the
      rest of the text. */
  method AppendPieces(target: seq<Text>, text: Text, sep: Byte) returns (after: seq<Text>)
    ensures after == target + Pieces(text, sep, 0)
  {
    after := target;
    var b := 0;
    var e := Find(text, sep, 0);
    while e != |text|
      invariant 0 <= b <= e <= |text| && e == Find(text, sep, b)
      invariant after + Pieces(text, sep, b) == target + Pieces(text, sep, 0)
      decreases |text| - b
    {
      PiecesNext(text, sep, b);
      Regroup(after, text[b..e], Pieces(text, sep, e + 1));
      after := after + [text[b..e]];
      b := e + 1;
      e := Find(text, sep, b);
    }
    PiecesNext(text, sep, b);
    after := after + [text[b..]];
  }

  /** One round of the split: the piece up to the next separator, then
      the pieces after it; or the rest of the text when none is left. */
  lemma PiecesNext(s: Text, sep: Byte, b: int)
    requires 0 <= b <= |s|
    ensures var e := Find(s, sep, b);
      Pieces(s, sep, b) == if e == |s| then [s[b..]] else [s[b..e]] + Pieces(s, sep, e + 1)
  {
  }

  lemma Regroup(done: seq<Text>, x: Text, rest: seq<Text>)
    ensures done + ([x] + rest) == (done + [x]) + rest
  {
  }

  //----------------------------------------------------------------------------
  // What the pieces are

  /** The pieces glued back together with the separator between them. */
  function Join(xs: seq<Text>, sep: Byte): Text
  {
    if xs == [] then [] else if |xs| == 1 then xs[0] else xs[0] + [sep] + Join(xs[1..], sep)
  }

  /** Joining the pieces with the separator gives back the source. */
  lemma {:induction false} JoinPieces(s: Text, sep: Byte, b: int)
    requires 0 <= b <= |s|
    ensures Join(Pieces(s, sep, b), sep) == s[b..]
    decreases |s| - b
  {
    var e := Find(s, sep, b);
    if e < |s| {
      JoinPieces(s, sep, e + 1);
      calc {
        Join(Pieces(s, sep, b), sep);
        s[b..e] + [sep] + Join(Pieces(s, sep, e + 1), sep);
        s[b..e] + [s[e]] + s[e + 1..];
        { assert s[b..] == s[b..e] + [s[e]] + s[e + 1..]; }
        s[b..];
      }
    }
  }

  /** No piece holds the separator. */
  lemma {:induction false} PiecesFree(s: Text, sep: Byte, b: int)
    requires 0 <= b <= |s|
    ensures forall t :: t in Pieces(s, sep, b) ==> sep !in t
    decreases |s| - b
  {
    var e := Find(s, sep, b);
    assert sep !in s[b..e];
    if e < |s| {
      PiecesFree(s, sep, e + 1);
    }
  }

  /** There is one piece more than there are separators. */
  lemma {:induction false} PiecesCount(s: Text, sep: Byte, b: int)
    requires 0 <= b <= |s|
    ensures |Pieces(s, sep, b)| == multiset(s[b..])[sep] + 1
    decreases |s| - b
  {
    var e := Find(s, sep, b);
    NoneCounted(s[b..e], sep);
    if e < |s| {
      PiecesCount(s, sep, e + 1);
      CountAround(s, sep, b, e);
    } else {
      assert s[b..] == s[b..e];
    }
  }

  lemma CountAround(s: Text, sep: Byte, b: int, e: int)
    requires 0 <= b <= e < |s| && s[e] == sep
    ensures multiset(s[b..])[sep] == multiset(s[b..e])[sep] + 1 + multiset(s[e + 1..])[sep]
  {
    assert s[b..] == s[b..e] + [s[e]] + s[e + 1..];
  }

  lemma NoneCounted(t: Text, sep: Byte)
    requires forall i :: 0 <= i < |t| ==> t[i] != sep
    ensures multiset(t)[sep] == 0
  {
    assert sep !in t;
  }

  /** The first separator at or after `b` is the one `find_first_of` finds. */
  lemma {:induction false} FindExact(s: Text, sep: Byte, b: int, e: int)
    requires 0 <= b <= e <= |s|
    requires forall i :: b <= i < e ==> s[i] != sep
    requires e == |s| || s[e] == sep
    ensures Find(s, sep, b) == e
    decreases e - b
  {
    if b < e {
      FindExact(s, sep, b + 1, e);
    }
  }

  /** A separator-free start of `s[b..]` followed by the separator or by
      the end of `s` is exactly what `find_first_of` skips. */
  lemma FirstPiece(s: Text, sep: Byte, b: int, x: Text, rest: Text)
    requires 0 <= b <= |s| && s[b..] == x + rest && sep !in x
    requires rest == [] || rest[0] == sep
    ensures Find(s, sep, b) == b + |x|
  {
    forall i | b <= i < b + |x| ensures s[i] != sep {
      assert s[i] == s[b..][i - b] == x[i - b];
    }
    if rest != [] {
      assert s[b + |x|] == s[b..][|x|] == rest[0];
    }
    FindExact(s, sep, b, b + |x|);
  }

  /** The pieces are the only way to cut the source into separator-free
      strings that the separator joins back together. */
  lemma {:induction false} PiecesUnique(s: Text, sep: Byte, b: int, xs: seq<Text>)
    requires 0 <= b <= |s| && xs != []
    requires forall t :: t in xs ==> sep !in t
    requires Join(xs, sep) == s[b..]
    ensures xs == Pieces(s, sep, b)
    decreases |xs|
  {
    assert sep !in xs[0];
    if |xs| == 1 {
      FirstPiece(s, sep, b, xs[0], []);
      assert xs == [s[b..]];
    } else {
      var tail := Join(xs[1..], sep);
      assert s[b..] == xs[0] + ([sep] + tail);
      FirstPiece(s, sep, b, xs[0], [sep] + tail);
      var e := b + |xs[0]|;
      assert s[b..e] == xs[0];
      assert s[e + 1..] == tail;
      forall t | t in xs[1..] ensures sep !in t {
        assert t in xs;
      }
      PiecesUnique(s, sep, e + 1, xs[1..]);
      assert xs == [xs[0]] + xs[1..];
    }
  }

  /** With a one-byte separator the call appends one more piece than there
      are separators in the source, none of which holds the separator,
      and which joined with it give back the source; it returns npos. */
  lemma OneByteSeparator(source: Text, c: Byte)
    ensures var t := Tokens(source, [c]);
      && t.Appends? && t.ret == Npos
      && |t.tokens| == multiset(source)[c] + 1
      && Join(t.tokens, c) == source
      && (forall x :: x in t.tokens ==> c !in x)
  {
    JoinPieces(source, c, 0);
    PiecesCount(source, c, 0);
    PiecesFree(source, c, 0);
    assert source[0..] == source;
  }

  /** With a three-byte separator `oSc` the call appends exactly when the
      source starts with `o` and ends with `c`, and then what it appends
      joined with `S` is the source without those two bytes. */
  lemma DelimitedSeparator(source: Text, separator: Text)
    requires |separator| == 3
    ensures var t := Tokens(source, separator);
      && (t.Appends? <==> source != [] && source[0] == separator[0] && source[|source| - 1] == separator[2])
      && (t.Appends? ==> t.ret == Npos && Join(t.tokens, separator[1]) == Enclosed(source))
      && (t.Ends? ==> (t.why == Undefined <==> source == [] && separator[0] == 0 as char))
  {
    if source != [] && source[0] == separator[0] && source[|source| - 1] == separator[2] {
      var s := Enclosed(source);
      JoinPieces(s, separator[1], 0);
      assert s[0..] == s;
    }
  }

  /** Any other separator length appends the single string "FOO" and
      returns 0, before the error report that follows it. */
  lemma OtherSeparator(source: Text, separator: Text)
    requires |separator| != 1 && |separator| != 3
    ensures Tokens(source, separator) == Appends(["FOO"], 0)
  {
  }

  /** The three strings the tokenizer test expects. */
  const Expected: seq<Text> := ["a", "bb", "ccc"]

  /** No expected string holds a separator byte of the test. */
  lemma ExpectedFree(c: Byte)
    requires c in ", :"
    ensures forall t :: t in Expected ==> c !in t
  {
  }

  /** A source wrapped in the outer bytes of the separator splits into any
      separator-free strings that the middle byte joins into what is
      inside. */
  lemma DelimitedSplit(source: Text, separator: Text, xs: seq<Text>)
    requires |separator| == 3 && |source| >= 2
    requires source[0] == separator[0] && source[|source| - 1] == separator[2]
    requires xs != [] && Join(xs, separator[1]) == source[1..|source| - 1]
    requires forall t :: t in xs ==> separator[1] !in t
    ensures Tokens(source, separator) == Appends(xs, Npos)
  {
    var inner := source[1..|source| - 1];
    assert inner[0..] == inner;
    PiecesUnique(inner, separator[1], 0, xs);
  }

  /** The tokenizer test: "[a,bb,ccc]" split with "[,]" gives "a", "bb",
      "ccc". */
  lemma BracketExample()
    ensures Tokens("[a,bb,ccc]", "[,]") == Appends(Expected, Npos)
  {
    assert Join(Expected, ',') == "a,bb,ccc";
    assert "[a,bb,ccc]"[1..9] == "a,bb,ccc";
    ExpectedFree(',');
    DelimitedSplit("[a,bb,ccc]", "[,]", Expected);
  }

  /** The tokenizer test: "a bb ccc" split with " " gives "a", "bb", "ccc". */
  lemma SpaceExample()
    ensures Tokens("a bb ccc", " ") == Appends(Expected, Npos)
  {
    assert Join(Expected, ' ') == "a bb ccc";
    ExpectedFree(' ');
    PiecesUnique("a bb ccc", ' ', 0, Expected);
  }

  /** The tokenizer test: "{a:bb:ccc}" split with "{:}" gives "a", "bb",
      "ccc". */
  lemma BraceExample()
    ensures Tokens("{a:bb:ccc}", "{:}") == Appends(Expected, Npos)
  {
    assert Join(Expected, ':') == "a:bb:ccc" == "{a:bb:ccc}"[1..9];
    ExpectedFree(':');
    DelimitedSplit("{a:bb:ccc}", "{:}", Expected);
  }
}
