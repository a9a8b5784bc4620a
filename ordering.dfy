/** The two orderings the program sorts by: `char` values for the
    first-byte list (`sort` plus `unique` in `operator()`), and
    `std::string` comparison for the set of variant alternatives
    (`set<string>` in compile). */
module Ordering {
  import opened Bytes

  //----------------------------------------------------------------------------
  // bytes, as `char` compares them

  /** The value of a byte as a signed `char`. */
  function Signed(c: Byte): int
  {
    if c as int < 128 then c as int else c as int - 256
  }

  predicate IncreasingBytes(s: Text)
  {
    forall i, j :: 0 <= i < j < |s| ==> Signed(s[i]) < Signed(s[j])
  }

  /** A byte put in its place in an increasing list, unless already there. */
  function PlaceByte(s: Text, c: Byte): (r: Text)
    requires IncreasingBytes(s)
    ensures IncreasingBytes(r)
    ensures forall x :: x in r <==> x in s || x == c
  {
    if s == [] then [c]
    else if c == s[0] then s
    else if Signed(c) < Signed(s[0]) then [c] + s
    else
      var rest := PlaceByte(s[1..], c);
      assert s == [s[0]] + s[1..];
      assert forall y :: y in rest ==> Signed(s[0]) < Signed(y) by {
        forall y | y in rest ensures Signed(s[0]) < Signed(y) {
          if y != c {
            var k :| 0 <= k < |s[1..]| && s[1..][k] == y;
            assert s[k + 1] == y;
          }
        }
      }
      [s[0]] + rest
  }

  /** `sort` then `unique` then `erase`: the bytes of `s` once each, in
      increasing order. */
  function SortedBytes(s: Text): (r: Text)
    ensures IncreasingBytes(r)
    ensures forall x :: x in r <==> x in s
  {
    if s == [] then [] else PlaceByte(SortedBytes(s[..|s| - 1]), s[|s| - 1])
  }

  /** Different bytes have different signed values, so the order is strict
      and total. */
  lemma SignedInjective(a: Byte, b: Byte)
    ensures Signed(a) == Signed(b) ==> a == b
  {
  }

  //----------------------------------------------------------------------------
  // texts, as `std::string` compares them

  /** `a < b` for strings: a proper prefix comes first, otherwise the first
      differing byte decides (`char_traits<char>` compares bytes as
      unsigned). */
  predicate Before(a: Text, b: Text)
  {
    if b == [] then false
    else if a == [] then true
    else if a[0] != b[0] then a[0] < b[0]
    else Before(a[1..], b[1..])
  }

  lemma {:induction false} BeforeTotal(a: Text, b: Text)
    ensures a == b || Before(a, b) || Before(b, a)
    ensures !(Before(a, b) && Before(b, a))
  {
    if a != [] && b != [] && a[0] == b[0] {
      BeforeTotal(a[1..], b[1..]);
      if a[1..] == b[1..] {
        assert a == [a[0]] + a[1..] && b == [b[0]] + b[1..];
      }
    }
  }

  lemma {:induction false} BeforeTransitive(a: Text, b: Text, c: Text)
    requires Before(a, b) && Before(b, c)
    ensures Before(a, c)
  {
    if a != [] && a[0] == b[0] && b[0] == c[0] {
      BeforeTransitive(a[1..], b[1..], c[1..]);
    }
  }

  predicate Ascending(s: seq<Text>)
  {
    forall i, j :: 0 <= i < j < |s| ==> Before(s[i], s[j])
  }

  /** A string put in its place in an ascending list, unless already
      there: `set<string>::insert`. */
  function Place(s: seq<Text>, x: Text): (r: seq<Text>)
    requires Ascending(s)
    ensures Ascending(r)
    ensures forall y :: y in r <==> y in s || y == x
  {
    if s == [] then [x]
    else if x == s[0] then s
    else if Before(x, s[0]) then
      PlaceFirst(s, x);
      [x] + s
    else
      BeforeTotal(x, s[0]);
      var rest := Place(s[1..], x);
      assert s == [s[0]] + s[1..];
      assert forall y :: y in rest ==> Before(s[0], y) by {
        forall y | y in rest ensures Before(s[0], y) {
          if y != x {
            var k :| 0 <= k < |s[1..]| && s[1..][k] == y;
            assert s[k + 1] == y;
          }
        }
      }
      [s[0]] + rest
  }

  lemma PlaceFirst(s: seq<Text>, x: Text)
    requires Ascending(s) && s != [] && Before(x, s[0])
    ensures Ascending([x] + s)
  {
    forall j | 0 < j < |s| ensures Before(x, s[j]) {
      BeforeTransitive(x, s[0], s[j]);
    }
  }

  /** The strings of `s` once each, in ascending order: what iterating a
      `set<string>` filled from `s` yields. */
  function Distinct(s: seq<Text>): (r: seq<Text>)
    ensures Ascending(r)
    ensures forall y :: y in r <==> y in s
  {
    if s == [] then [] else Place(Distinct(s[..|s| - 1]), s[|s| - 1])
  }

  /** Ascending lists hold no string twice. */
  lemma AscendingDistinct(s: seq<Text>)
    requires Ascending(s)
    ensures forall i, j :: 0 <= i < j < |s| ==> s[i] != s[j]
  {
    forall i, j | 0 <= i < j < |s| ensures s[i] != s[j] {
      BeforeTotal(s[i], s[j]);
    }
  }
}
