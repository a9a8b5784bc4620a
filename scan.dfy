/** The search of one buffer (`Table::follow`) as functions of the tables:
    skip to the next byte that can start a pattern, walk the planes from
    the root while transitions exist, and tally the terminals met. */
module Scan {
  import opened Bytes
  import opened Atoms
  import opened StateMachine

  datatype Verdict = Reported | Rejected | NotReported

  /** The `accepted` and `rejected` sets and the `done` flag of follow. */
  datatype Tally = Tally(accepted: set<int>, rejected: set<int>, done: bool)

  /** A search either returns at once (a negative terminal) or goes on. */
  datatype Progress = Abort | Go(tally: Tally)

  /** `accepted` starts as `{0}`, matching the placeholder entry of the
      accept list, so a full accept list has `|accepted| == acceptSize`. */
  const Start: Tally := Tally({0}, {}, false)

  /** The identifiers a terminal cell stands for: its own `str` (direct),
      or the members of `s_set[str]` in ascending order (indirect). */
  function Items(a: Automaton, scheme: Scheme, str: int): seq<int>
  {
    if scheme == Direct then [str] else if 0 <= str < |a.sets| then a.sets[str] else []
  }

  /** Tallying one non-negative identifier: a positive one is accepted,
      zero is rejected, and `done` is set when no reject pattern exists and
      the accept list is complete. */
  function Tick(t: Tally, x: int, noreject: bool, acceptSize: int): Tally
  {
    var t1 := if x > 0 then t.(accepted := t.accepted + {x}) else t.(rejected := t.rejected + {x});
    t1.(done := noreject && |t1.accepted| == acceptSize)
  }

  /** Tallying the identifiers of one terminal: a negative one ends the
      search, the others are tallied in turn until `done`. */
  function Feed(items: seq<int>, t: Tally, noreject: bool, acceptSize: int): (r: Progress)
    ensures r.Abort? ==> exists i :: 0 <= i < |items| && items[i] < 0
    ensures r.Go? ==> t.accepted <= r.tally.accepted && t.rejected <= r.tally.rejected
    decreases |items|
  {
    if items == [] then Go(t)
    else if items[0] < 0 then Abort
    else
      var t2 := Tick(t, items[0], noreject, acceptSize);
      if t2.done then Go(t2) else Feed(items[1..], t2, noreject, acceptSize)
  }

  /** `find_first_of(s_firsts)` from offset `k`: the first position at or
      after `k` holding one of the first bytes, or `|buf|` for npos. */
  function FirstOf(buf: Text, k: int, firsts: Text): (b: int)
    requires 0 <= k <= |buf|
    ensures k <= b <= |buf|
    decreases |buf| - k
  {
    if k == |buf| || buf[k] in firsts then k else FirstOf(buf, k + 1, firsts)
  }

  /** `find_first_of` finds the first byte from `k` on that is in `firsts`,
      or the end of the buffer when there is none. */
  lemma {:induction false} FirstOfFinds(buf: Text, k: int, firsts: Text)
    requires 0 <= k <= |buf|
    ensures var b := FirstOf(buf, k, firsts);
      && (b < |buf| ==> buf[b] in firsts)
      && (forall i :: k <= i < b ==> buf[i] !in firsts)
    decreases |buf| - k
  {
    if k < |buf| && buf[k] !in firsts {
      FirstOfFinds(buf, k + 1, firsts);
    }
  }

  /** The report condition: nothing rejected and the whole accept list met. */
  function Decide(t: Tally, acceptSize: int): Verdict
  {
    if t.rejected == {} && |t.accepted| == acceptSize then Reported else NotReported
  }

  //----------------------------------------------------------------------------
  // The two loops of follow

  /** Cell `c` of plane `q`, or an empty cell outside the planes (which a
      well-formed table never reaches). */
  function Cell(a: Automaton, q: int, c: int): Atom
  {
    if 0 <= q < |a.cells| && 0 <= c < |a.cells[q]| then a.cells[q][c] else NewAtom()
  }

  /** The identifiers the terminal of cell (q, c) stands for: none when it
      has no terminal. */
  function Terminal(a: Automaton, scheme: Scheme, q: int, c: int): seq<int>
  {
    var str := Str(Cell(a, q, c));
    if str == 0 then [] else Items(a, scheme, str)
  }

  /** The inner loop of follow from byte `j` in plane `tgt`, round by
      round: tally the terminal of the cell, then stop on a negative
      identifier, on `done`, or when the cell has no transition. */
  function Inner(a: Automaton, scheme: Scheme, buf: Text, j: int, tgt: int, t: Tally,
                 noreject: bool, acceptSize: int): (r: Progress)
    requires 0 <= j <= |buf|
    ensures r.Go? ==> t.accepted <= r.tally.accepted && t.rejected <= r.tally.rejected
    decreases |buf| - j
  {
    if j == |buf| then Go(t)
    else
      var next := Tgt(Cell(a, tgt, buf[j] as int));
      match Feed(Terminal(a, scheme, tgt, buf[j] as int), t, noreject, acceptSize)
      case Abort => Abort
      case Go(u) => if u.done || next == 0 then Go(u) else Inner(a, scheme, buf, j + 1, next, u, noreject, acceptSize)
  }

  /** The outer loop of follow from offset `k`, anchor by anchor: the
      inner loop from each byte that can start a pattern, resuming one
      byte past the anchor. */
  function Outer(a: Automaton, scheme: Scheme, buf: Text, k: int, t: Tally,
                 noreject: bool, acceptSize: int): Progress
    requires 0 <= k <= |buf|
    decreases |buf| - k
  {
    var b := FirstOf(buf, k, a.firsts);
    if b == |buf| then Go(t)
    else
      match Inner(a, scheme, buf, b, Root, t, noreject, acceptSize)
      case Abort => Abort
      case Go(u) => if u.done then Go(u) else Outer(a, scheme, buf, b + 1, u, noreject, acceptSize)
  }

  /** The outer loop only adds to the tally. */
  lemma {:induction false} OuterGrows(a: Automaton, scheme: Scheme, buf: Text, k: int, t: Tally,
                                      noreject: bool, acceptSize: int)
    requires 0 <= k <= |buf|
    ensures var r := Outer(a, scheme, buf, k, t, noreject, acceptSize);
      r.Go? ==> t.accepted <= r.tally.accepted && t.rejected <= r.tally.rejected
    decreases |buf| - k
  {
    var b := FirstOf(buf, k, a.firsts);
    if b < |buf| {
      var p := Inner(a, scheme, buf, b, Root, t, noreject, acceptSize);
      if p.Go? && !p.tally.done {
        OuterGrows(a, scheme, buf, b + 1, p.tally, noreject, acceptSize);
      }
    }
  }

  function Conclude(p: Progress, acceptSize: int): Verdict
  {
    match p
    case Abort => Rejected
    case Go(t) => Decide(t, acceptSize)
  }

  /** `Table::follow` on a whole buffer: the verdict of both loops from
      `accepted == {0}`. `Rejected` stands for the immediate return on a
      reject pattern. */
  function Follow(a: Automaton, scheme: Scheme, buf: Text, noreject: bool, acceptSize: int): (r: Verdict)
    ensures r == Reported ==> acceptSize >= 1
  {
    OuterGrows(a, scheme, buf, 0, Start, noreject, acceptSize);
    Conclude(Outer(a, scheme, buf, 0, Start, noreject, acceptSize), acceptSize)
  }

  //----------------------------------------------------------------------------
  // The identifiers met

  function Elems(s: seq<int>): set<int>
  {
    set x | x in s
  }

  /** The identifiers of the terminals the inner loop passes from byte `j`
      in plane `tgt` when nothing stops it early. */
  function WalkMet(a: Automaton, scheme: Scheme, buf: Text, j: int, tgt: int): set<int>
    requires 0 <= j <= |buf|
    decreases |buf| - j
  {
    if j == |buf| then {}
    else
      var next := Tgt(Cell(a, tgt, buf[j] as int));
      Elems(Terminal(a, scheme, tgt, buf[j] as int)) + (if next == 0 then {} else WalkMet(a, scheme, buf, j + 1, next))
  }

  /** The identifiers met at every anchor from `k` on. */
  function StreamMet(a: Automaton, scheme: Scheme, buf: Text, k: int): set<int>
    requires 0 <= k <= |buf|
    decreases |buf| - k
  {
    var b := FirstOf(buf, k, a.firsts);
    if b == |buf| then {} else WalkMet(a, scheme, buf, b, Root) + StreamMet(a, scheme, buf, b + 1)
  }

  function Pos(m: set<int>): set<int>
  {
    set x | x in m && x > 0
  }

  function Zeros(m: set<int>): set<int>
  {
    set x | x in m && x == 0
  }

  predicate HasNegative(m: set<int>)
  {
    exists x :: x in m && x < 0
  }

  /** The tally that results from meeting every identifier of `m`. */
  function Absorb(t: Tally, m: set<int>): Tally
  {
    Tally(t.accepted + Pos(m), t.rejected + Zeros(m), t.done)
  }

  lemma AbsorbUnion(t: Tally, m1: set<int>, m2: set<int>)
    ensures Absorb(Absorb(t, m1), m2) == Absorb(t, m1 + m2)
    ensures HasNegative(m1 + m2) <==> HasNegative(m1) || HasNegative(m2)
  {
    assert Pos(m1 + m2) == Pos(m1) + Pos(m2);
    assert Zeros(m1 + m2) == Zeros(m1) + Zeros(m2);
    if HasNegative(m1 + m2) {
      var x :| x in m1 + m2 && x < 0;
      assert x in m1 || x in m2;
    }
  }

  lemma ElemsCons(s: seq<int>)
    requires s != []
    ensures Elems(s) == {s[0]} + Elems(s[1..])
  {
    assert forall y :: y in s <==> y == s[0] || y in s[1..];
  }

  //----------------------------------------------------------------------------
  // Without the early exit (some reject pattern exists)

  /** Tallying a terminal returns exactly when it holds a negative
      identifier, and otherwise accepts every positive one and rejects
      every zero. */
  lemma {:induction false} FeedWithoutEarlyExit(s: seq<int>, t: Tally, acceptSize: int)
    requires !t.done
    ensures Feed(s, t, false, acceptSize) == if HasNegative(Elems(s)) then Abort else Go(Absorb(t, Elems(s)))
    decreases |s|
  {
    if s == [] {
      assert Pos({}) == {} && Zeros({}) == {};
    } else {
      var x, rest := s[0], s[1..];
      ElemsCons(s);
      AbsorbUnion(t, {x}, Elems(rest));
      if x >= 0 {
        var t2 := Tick(t, x, false, acceptSize);
        assert t2 == Absorb(t, {x});
        FeedWithoutEarlyExit(rest, t2, acceptSize);
      } else {
        assert HasNegative({x});
      }
    }
  }

  /** The inner loop, without the early exit, returns exactly when the walk
      meets a negative identifier, and otherwise absorbs all it meets. */
  lemma {:induction false} InnerWithoutEarlyExit(a: Automaton, scheme: Scheme, buf: Text, j: int, tgt: int,
                                                 t: Tally, acceptSize: int)
    requires 0 <= j <= |buf| && !t.done
    ensures var m := WalkMet(a, scheme, buf, j, tgt);
      Inner(a, scheme, buf, j, tgt, t, false, acceptSize) == if HasNegative(m) then Abort else Go(Absorb(t, m))
    decreases |buf| - j
  {
    if j == |buf| {
      assert Absorb(t, {}) == t;
    } else {
      var c := buf[j] as int;
      var next := Tgt(Cell(a, tgt, c));
      var here := Elems(Terminal(a, scheme, tgt, c));
      var rest: set<int> := if next == 0 then {} else WalkMet(a, scheme, buf, j + 1, next);
      FeedWithoutEarlyExit(Terminal(a, scheme, tgt, c), t, acceptSize);
      AbsorbUnion(t, here, rest);
      if next == 0 {
        assert Absorb(Absorb(t, here), {}) == Absorb(t, here);
        assert !HasNegative({});
      } else if !HasNegative(here) {
        InnerWithoutEarlyExit(a, scheme, buf, j + 1, next, Absorb(t, here), acceptSize);
      }
    }
  }

  /** The outer loop, without the early exit, returns exactly when some
      walk meets a negative identifier, and otherwise absorbs all they meet. */
  lemma {:induction false} OuterWithoutEarlyExit(a: Automaton, scheme: Scheme, buf: Text, k: int,
                                                 t: Tally, acceptSize: int)
    requires 0 <= k <= |buf| && !t.done
    ensures var m := StreamMet(a, scheme, buf, k);
      Outer(a, scheme, buf, k, t, false, acceptSize) == if HasNegative(m) then Abort else Go(Absorb(t, m))
    decreases |buf| - k
  {
    var b := FirstOf(buf, k, a.firsts);
    if b == |buf| {
      assert Absorb(t, {}) == t;
    } else {
      var here := WalkMet(a, scheme, buf, b, Root);
      var rest := StreamMet(a, scheme, buf, b + 1);
      assert StreamMet(a, scheme, buf, k) == here + rest;
      InnerWithoutEarlyExit(a, scheme, buf, b, Root, t, acceptSize);
      AbsorbUnion(t, here, rest);
      if !HasNegative(here) {
        var t1 := Absorb(t, here);
        assert Outer(a, scheme, buf, k, t, false, acceptSize) == Outer(a, scheme, buf, b + 1, t1, false, acceptSize);
        OuterWithoutEarlyExit(a, scheme, buf, b + 1, t1, acceptSize);
      }
    }
  }

  /** With reject patterns present, follow rejects exactly the buffers
      where some reject identifier is met, and otherwise reports exactly
      when nothing was rejected and the accept list is complete. */
  lemma FollowWithoutEarlyExit(a: Automaton, scheme: Scheme, buf: Text, acceptSize: int)
    ensures var m := StreamMet(a, scheme, buf, 0);
      Follow(a, scheme, buf, false, acceptSize)
      == if HasNegative(m) then Rejected
         else if Zeros(m) == {} && |{0} + Pos(m)| == acceptSize then Reported
         else NotReported
  {
    OuterWithoutEarlyExit(a, scheme, buf, 0, Start, acceptSize);
  }

  //----------------------------------------------------------------------------
  // With the early exit (no reject pattern)

  /** Every identifier a terminal cell stands for lies in [lo, hi). */
  ghost predicate TerminalsWithin(a: Automaton, scheme: Scheme, lo: int, hi: int)
  {
    forall q, c :: Str(Cell(a, q, c)) != 0 ==>
      forall x :: x in Items(a, scheme, Str(Cell(a, q, c))) ==> lo <= x < hi
  }

  /** The early-exit tally, when every identifier is an accept identifier
      below `acceptSize`: it never returns, rejects nothing, accepts only
      what it meets, and stops early only with the accept list complete;
      otherwise it has accepted everything met. */
  ghost predicate EarlyResult(p: Progress, t: Tally, m: set<int>, acceptSize: int)
  {
    && p.Go?
    && p.tally.rejected == t.rejected
    && p.tally.accepted <= t.accepted + m
    && (p.tally.done ==> |p.tally.accepted| == acceptSize)
    && (!p.tally.done ==> p.tally.accepted == t.accepted + m)
  }

  lemma {:induction false} FeedWithEarlyExit(s: seq<int>, t: Tally, acceptSize: int)
    requires !t.done && forall x :: x in s ==> 1 <= x
    ensures EarlyResult(Feed(s, t, true, acceptSize), t, Elems(s), acceptSize)
    decreases |s|
  {
    if s != [] {
      ElemsCons(s);
      assert forall x :: x in s[1..] ==> x in s;
      var t2 := Tick(t, s[0], true, acceptSize);
      if !t2.done {
        FeedWithEarlyExit(s[1..], t2, acceptSize);
      }
    }
  }

  /** The identifiers of the terminals the inner loop passes from byte `j`
      in plane `tgt`, in the order it passes them, when nothing stops it. */
  ghost function WalkItems(a: Automaton, scheme: Scheme, buf: Text, j: int, tgt: int): seq<int>
    requires 0 <= j <= |buf|
    decreases |buf| - j
  {
    if j == |buf| then []
    else
      var next := Tgt(Cell(a, tgt, buf[j] as int));
      Terminal(a, scheme, tgt, buf[j] as int) + (if next == 0 then [] else WalkItems(a, scheme, buf, j + 1, next))
  }

  /** The identifiers met at every anchor from `k` on, in order. */
  ghost function StreamItems(a: Automaton, scheme: Scheme, buf: Text, k: int): seq<int>
    requires 0 <= k <= |buf|
    decreases |buf| - k
  {
    var b := FirstOf(buf, k, a.firsts);
    if b == |buf| then [] else WalkItems(a, scheme, buf, b, Root) + StreamItems(a, scheme, buf, b + 1)
  }

  /** Tallying goes on with `s` after a tally that neither returned nor
      finished. */
  function Then(p: Progress, s: seq<int>, noreject: bool, acceptSize: int): Progress
  {
    match p
    case Abort => Abort
    case Go(u) => if u.done then Go(u) else Feed(s, u, noreject, acceptSize)
  }

  lemma {:induction false} FeedAppend(s1: seq<int>, s2: seq<int>, t: Tally, noreject: bool, acceptSize: int)
    requires !t.done
    ensures Feed(s1 + s2, t, noreject, acceptSize) == Then(Feed(s1, t, noreject, acceptSize), s2, noreject, acceptSize)
    decreases |s1|
  {
    if s1 == [] {
      assert s1 + s2 == s2;
    } else {
      assert (s1 + s2)[0] == s1[0] && (s1 + s2)[1..] == s1[1..] + s2;
      if s1[0] >= 0 {
        var t2 := Tick(t, s1[0], noreject, acceptSize);
        if !t2.done {
          FeedAppend(s1[1..], s2, t2, noreject, acceptSize);
        }
      }
    }
  }

  /** The inner loop tallies the identifiers of its walk one after the
      other, stopping where the tally stops. */
  lemma {:induction false} InnerIsFeed(a: Automaton, scheme: Scheme, buf: Text, j: int, tgt: int,
                                       t: Tally, noreject: bool, acceptSize: int)
    requires 0 <= j <= |buf| && !t.done
    ensures Inner(a, scheme, buf, j, tgt, t, noreject, acceptSize) == Feed(WalkItems(a, scheme, buf, j, tgt), t, noreject, acceptSize)
    decreases |buf| - j
  {
    if j < |buf| {
      var c := buf[j] as int;
      var next := Tgt(Cell(a, tgt, c));
      var items := Terminal(a, scheme, tgt, c);
      var rest := if next == 0 then [] else WalkItems(a, scheme, buf, j + 1, next);
      FeedAppend(items, rest, t, noreject, acceptSize);
      var p := Feed(items, t, noreject, acceptSize);
      if p.Go? && !p.tally.done && next != 0 {
        InnerIsFeed(a, scheme, buf, j + 1, next, p.tally, noreject, acceptSize);
      }
    }
  }

  /** The outer loop at an anchor: the inner loop from it, then, unless
      that stopped everything, the outer loop from the next byte. */
  lemma OuterAtAnchor(a: Automaton, scheme: Scheme, buf: Text, k: int, b: int, t: Tally, noreject: bool, acceptSize: int)
    requires 0 <= k <= |buf| && b == FirstOf(buf, k, a.firsts) < |buf|
    ensures var p := Inner(a, scheme, buf, b, Root, t, noreject, acceptSize);
      && (p.Abort? ==> Outer(a, scheme, buf, k, t, noreject, acceptSize) == Abort)
      && (p.Go? && p.tally.done ==> Outer(a, scheme, buf, k, t, noreject, acceptSize) == p)
      && (p.Go? && !p.tally.done ==> Outer(a, scheme, buf, k, t, noreject, acceptSize) == Outer(a, scheme, buf, b + 1, p.tally, noreject, acceptSize))
  {
  }

  /** The outer loop tallies the identifiers met at its anchors one after
      the other, stopping where the tally stops. */
  lemma OuterIsFeed(a: Automaton, scheme: Scheme, buf: Text, k: int,
                    t: Tally, noreject: bool, acceptSize: int)
    requires 0 <= k <= |buf| && !t.done
    ensures Outer(a, scheme, buf, k, t, noreject, acceptSize) == Feed(StreamItems(a, scheme, buf, k), t, noreject, acceptSize)
  {
    ResumeIsThen(a, scheme, buf, k, Go(t), noreject, acceptSize);
  }

  /** Resuming the outer loop from `k` after a tally `p` agrees with
      going on tallying the items met from `k` on. */
  lemma {:induction false} ResumeIsThen(a: Automaton, scheme: Scheme, buf: Text, k: int, p: Progress,
                                        noreject: bool, acceptSize: int)
    requires 0 <= k <= |buf|
    ensures Resume(a, scheme, buf, k, p, noreject, acceptSize) == Then(p, StreamItems(a, scheme, buf, k), noreject, acceptSize)
    decreases |buf| - k
  {
    if p.Go? && !p.tally.done {
      var u := p.tally;
      var b := FirstOf(buf, k, a.firsts);
      if b < |buf| {
        var q := Feed(WalkItems(a, scheme, buf, b, Root), u, noreject, acceptSize);
        calc {
          Resume(a, scheme, buf, k, p, noreject, acceptSize);
        ==
          Outer(a, scheme, buf, k, u, noreject, acceptSize);
        == { OuterFeed(a, scheme, buf, k, u, noreject, acceptSize); }
          Resume(a, scheme, buf, b + 1, q, noreject, acceptSize);
        == { ResumeIsThen(a, scheme, buf, b + 1, q, noreject, acceptSize); }
          Then(q, StreamItems(a, scheme, buf, b + 1), noreject, acceptSize);
        == { StreamFeed(a, scheme, buf, k, u, noreject, acceptSize); }
          Feed(StreamItems(a, scheme, buf, k), u, noreject, acceptSize);
        ==
          Then(p, StreamItems(a, scheme, buf, k), noreject, acceptSize);
        }
      } else {
        StreamAt(a, scheme, buf, k);
      }
    }
  }

  /** The outer loop from `k` once an anchor's tally `p` is known: it
      stops with `p` when that returned or finished. */
  function Resume(a: Automaton, scheme: Scheme, buf: Text, k: int, p: Progress,
                  noreject: bool, acceptSize: int): Progress
    requires 0 <= k <= |buf|
  {
    match p
    case Abort => Abort
    case Go(u) => if u.done then p else Outer(a, scheme, buf, k, u, noreject, acceptSize)
  }

  /** The outer loop at its first anchor `b`, the inner loop read as a
      tally of the items met there. */
  lemma OuterFeed(a: Automaton, scheme: Scheme, buf: Text, k: int, t: Tally, noreject: bool, acceptSize: int)
    requires 0 <= k <= |buf| && !t.done && FirstOf(buf, k, a.firsts) < |buf|
    ensures var b := FirstOf(buf, k, a.firsts);
      Outer(a, scheme, buf, k, t, noreject, acceptSize)
        == Resume(a, scheme, buf, b + 1, Feed(WalkItems(a, scheme, buf, b, Root), t, noreject, acceptSize), noreject, acceptSize)
  {
    var b := FirstOf(buf, k, a.firsts);
    InnerIsFeed(a, scheme, buf, b, Root, t, noreject, acceptSize);
    OuterAtAnchor(a, scheme, buf, k, b, t, noreject, acceptSize);
  }

  /** The items from `k` tallied: those of the first anchor, then the rest. */
  lemma StreamFeed(a: Automaton, scheme: Scheme, buf: Text, k: int, t: Tally, noreject: bool, acceptSize: int)
    requires 0 <= k <= |buf| && !t.done && FirstOf(buf, k, a.firsts) < |buf|
    ensures var b := FirstOf(buf, k, a.firsts);
      Feed(StreamItems(a, scheme, buf, k), t, noreject, acceptSize)
        == Then(Feed(WalkItems(a, scheme, buf, b, Root), t, noreject, acceptSize), StreamItems(a, scheme, buf, b + 1), noreject, acceptSize)
  {
    var b := FirstOf(buf, k, a.firsts);
    StreamAt(a, scheme, buf, k);
    FeedSplit(StreamItems(a, scheme, buf, k), WalkItems(a, scheme, buf, b, Root), StreamItems(a, scheme, buf, b + 1),
              t, noreject, acceptSize);
  }

  /** `FeedAppend` for a sequence known to be the concatenation. */
  lemma FeedSplit(s: seq<int>, s1: seq<int>, s2: seq<int>, t: Tally, noreject: bool, acceptSize: int)
    requires s == s1 + s2 && !t.done
    ensures Feed(s, t, noreject, acceptSize) == Then(Feed(s1, t, noreject, acceptSize), s2, noreject, acceptSize)
  {
    FeedAppend(s1, s2, t, noreject, acceptSize);
  }

  /** `StreamItems` at offset `k`: nothing once no anchor is left, else the
      items of the first anchor and then those after it. */
  lemma StreamAt(a: Automaton, scheme: Scheme, buf: Text, k: int)
    requires 0 <= k <= |buf|
    ensures var b := FirstOf(buf, k, a.firsts);
      && (b == |buf| ==> StreamItems(a, scheme, buf, k) == [])
      && (b < |buf| ==> StreamItems(a, scheme, buf, k) == WalkItems(a, scheme, buf, b, Root) + StreamItems(a, scheme, buf, b + 1))
  {
  }

  lemma ElemsAppend(s1: seq<int>, s2: seq<int>)
    ensures Elems(s1 + s2) == Elems(s1) + Elems(s2)
  {
    assert forall x :: x in s1 + s2 <==> x in s1 || x in s2;
  }

  lemma {:induction false} WalkItemsMet(a: Automaton, scheme: Scheme, buf: Text, j: int, tgt: int)
    requires 0 <= j <= |buf|
    ensures Elems(WalkItems(a, scheme, buf, j, tgt)) == WalkMet(a, scheme, buf, j, tgt)
    decreases |buf| - j
  {
    if j < |buf| {
      var c := buf[j] as int;
      var next := Tgt(Cell(a, tgt, c));
      var rest := if next == 0 then [] else WalkItems(a, scheme, buf, j + 1, next);
      ElemsAppend(Terminal(a, scheme, tgt, c), rest);
      if next != 0 {
        WalkItemsMet(a, scheme, buf, j + 1, next);
      } else {
        assert Elems([]) == {};
      }
    } else {
      assert Elems([]) == {};
    }
  }

  /** The identifiers met from `k` on: those met at the first anchor, then
      those met from the byte after it. */
  lemma StreamMetAtAnchor(a: Automaton, scheme: Scheme, buf: Text, k: int, b: int)
    requires 0 <= k <= |buf| && b == FirstOf(buf, k, a.firsts) < |buf|
    ensures StreamMet(a, scheme, buf, k) == WalkMet(a, scheme, buf, b, Root) + StreamMet(a, scheme, buf, b + 1)
  {
  }

  lemma {:induction false} StreamItemsMet(a: Automaton, scheme: Scheme, buf: Text, k: int)
    requires 0 <= k <= |buf|
    ensures Elems(StreamItems(a, scheme, buf, k)) == StreamMet(a, scheme, buf, k)
    decreases |buf| - k
  {
    var b := FirstOf(buf, k, a.firsts);
    if b < |buf| {
      StreamItemsMet(a, scheme, buf, b + 1);
      StreamItemsMetAt(a, scheme, buf, k, b);
    } else {
      assert StreamItems(a, scheme, buf, k) == [] && StreamMet(a, scheme, buf, k) == {};
      assert Elems([]) == {};
    }
  }

  lemma StreamItemsMetAt(a: Automaton, scheme: Scheme, buf: Text, k: int, b: int)
    requires 0 <= k <= |buf| && b == FirstOf(buf, k, a.firsts) < |buf|
    requires Elems(StreamItems(a, scheme, buf, b + 1)) == StreamMet(a, scheme, buf, b + 1)
    ensures Elems(StreamItems(a, scheme, buf, k)) == StreamMet(a, scheme, buf, k)
  {
    var here := WalkItems(a, scheme, buf, b, Root);
    var rest := StreamItems(a, scheme, buf, b + 1);
    assert StreamItems(a, scheme, buf, k) == here + rest;
    StreamMetAtAnchor(a, scheme, buf, k, b);
    ElemsAppend(here, rest);
    WalkItemsMet(a, scheme, buf, b, Root);
  }

  //----------------------------------------------------------------------------
  // What the verdict amounts to

  /** The identifiers 0 .. n - 1. */
  function Below(n: nat): (r: set<int>)
    ensures |r| == n
    ensures forall x :: x in r <==> 0 <= x < n
  {
    if n == 0 then {} else Below(n - 1) + {n - 1}
  }

  lemma SubsetSize(a: set<int>, b: set<int>)
    requires a <= b
    ensures |a| <= |b| && (|a| == |b| ==> a == b)
  {
    assert b == a + (b - a);
    if |a| == |b| {
      assert |b - a| == 0;
    }
  }

  lemma {:induction false} WalkMetWithin(a: Automaton, scheme: Scheme, buf: Text, j: int, tgt: int, lo: int, hi: int)
    requires 0 <= j <= |buf| && TerminalsWithin(a, scheme, lo, hi)
    ensures forall x :: x in WalkMet(a, scheme, buf, j, tgt) ==> lo <= x < hi
    decreases |buf| - j
  {
    if j < |buf| {
      var w := Cell(a, tgt, buf[j] as int);
      if Tgt(w) != 0 {
        WalkMetWithin(a, scheme, buf, j + 1, Tgt(w), lo, hi);
      }
    }
  }

  lemma {:induction false} StreamMetWithin(a: Automaton, scheme: Scheme, buf: Text, k: int, lo: int, hi: int)
    requires 0 <= k <= |buf| && TerminalsWithin(a, scheme, lo, hi)
    ensures forall x :: x in StreamMet(a, scheme, buf, k) ==> lo <= x < hi
    decreases |buf| - k
  {
    var b := FirstOf(buf, k, a.firsts);
    if b < |buf| {
      WalkMetWithin(a, scheme, buf, b, Root, lo, hi);
      StreamMetWithin(a, scheme, buf, b + 1, lo, hi);
    }
  }

  /** The early exit (`done` once the accept list is complete when there
      is no reject pattern) never changes the verdict: when every terminal
      stands for accept identifiers 1 .. acceptSize - 1 only, stopping early
      reports exactly the buffers a full search reports. */
  lemma EarlyExitKeepsVerdict(a: Automaton, scheme: Scheme, buf: Text, acceptSize: int)
    requires acceptSize >= 1 && TerminalsWithin(a, scheme, 1, acceptSize)
    ensures Follow(a, scheme, buf, true, acceptSize) == Follow(a, scheme, buf, false, acceptSize)
  {
    var m := StreamMet(a, scheme, buf, 0);
    StreamMetWithin(a, scheme, buf, 0, 1, acceptSize);
    assert !HasNegative(m);
    assert Zeros(m) == {};
    assert Pos(m) == m;
    OuterWithoutEarlyExit(a, scheme, buf, 0, Start, acceptSize);
    var s := StreamItems(a, scheme, buf, 0);
    StreamItemsMet(a, scheme, buf, 0);
    OuterIsFeed(a, scheme, buf, 0, Start, true, acceptSize);
    assert forall x :: x in s ==> x in Elems(s);
    FeedWithEarlyExit(s, Start, acceptSize);
    var all := Start.accepted + m;
    var u := Feed(s, Start, true, acceptSize).tally;
    if u.done {
      SubsetSize(u.accepted, all);
      SubsetSize(all, Below(acceptSize));
      assert |all| == acceptSize;
    }
  }

  /** An empty buffer is reported exactly when the accept list holds only
      its placeholder, i.e. when no accept pattern was given. */
  lemma EmptyBufferVerdict(a: Automaton, scheme: Scheme, noreject: bool, acceptSize: int)
    ensures Follow(a, scheme, [], noreject, acceptSize) == if acceptSize == 1 then Reported else NotReported
  {
  }
}
