/** `Lettvin::Table`: the planes of the state machine, together with the
    program-wide first-byte list (`s_firsts`) and terminal sets (`s_set`)
    that its insert and follow read and write. */
module Tables {
  import opened Bytes
  import opened Atoms
  import opened StateMachine
  import Scan
  import Ordering

  class Table {
    /** `m_table`: plane q is `planes[q]`, one cell per byte value. Both
        the table and each plane are `std::vector`s, so they are sequences
        that the methods reassign. */
    var planes: Cells
    /** `s_firsts`: every byte a pattern can start with. */
    var firsts: Text
    /** `s_set`: the terminal sets of the indirect scheme. */
    var sets: seq<seq<int>>
    /** Which terminal scheme the build uses. */
    const scheme: Scheme

    ghost function Model(): Automaton
      reads this
    {
      Automaton(planes, firsts, sets)
    }

    ghost predicate Valid()
      reads this
    {
      WellFormed(Model(), scheme)
    }

    /** The constructor: the unused plane 0 and the root plane 1, all
        cells zero; no first bytes; `s_set == {{0}}`. */
    constructor (scheme: Scheme)
      ensures Valid() && Model() == Fresh() && this.scheme == scheme
    {
      this.scheme := scheme;
      planes := [ZeroPlane(), ZeroPlane()];
      firsts := [];
      sets := [[0]];
    }

    /** `size()`: the number of planes. */
    method Size() returns (n: int)
      ensures n == |planes|
    {
      n := |planes|;
    }

    /** `operator++`: one more plane of zero cells. The plane numbers are
        uint8_t, so at most 256 planes are ever addressable. */
    method Grow()
      requires Valid() && |planes| < MaxPlanes
      modifies this
      ensures Valid() && planes == Grown(old(planes)) && firsts == old(firsts) && sets == old(sets)
    {
      GrownKeepsTrie(planes);
      planes := Grown(planes);
    }

    /** `Atom::tgt(t)` on cell (q, c). */
    method SetTarget(q: int, c: Byte, t: int)
      requires Valid() && 0 <= q < t < |planes|
      modifies this
      ensures Valid() && planes == Link(old(planes), q, c as int, t)
      ensures firsts == old(firsts) && sets == old(sets)
    {
      LinkKeepsTrie(planes, q, c as int, t);
      planes := Link(planes, q, c as int, t);
    }

    /** `Atom::str(term)` on cell (q, c). */
    method SetTerminal(q: int, c: Byte, term: int)
      requires Valid() && 0 <= q < |planes|
      requires scheme == Indirect ==> 0 <= term < |sets|
      modifies this
      ensures Valid() && planes == Mark(old(planes), q, c as int, term)
      ensures firsts == old(firsts) && sets == old(sets)
    {
      MarkKeepsTrie(planes, q, c as int, term);
      if scheme == Indirect {
        MarkKeepsTerminalsNameSets(planes, q, c as int, term, |sets|);
      }
      planes := Mark(planes, q, c as int, term);
    }

    /** One byte of insert: follow or create the transition for `c0` out of
        plane `from`, make `c1` share it, and return the plane reached.
        Fails, changing nothing, when a plane is needed and 256 exist. */
    method Step(from: int, c0: Byte, c1: Byte) returns (ok: bool, to: int)
      requires Valid() && 0 <= from < |planes|
      modifies this
      ensures Valid() && firsts == old(firsts) && sets == old(sets)
      ensures var r := StateMachine.Step(old(planes), from, c0, c1);
        && ok == r.Some?
        && (ok ==> planes == r.value.cells && to == r.value.from)
        && (!ok ==> planes == old(planes))
    {
      var element := planes[from][c0 as int];
      to := Tgt(element);
      if to == 0 {
        if |planes| == MaxPlanes {
          return false, 0;
        }
        to := |planes|;
        Grow();
      }
      SetTarget(from, c0, to);
      if c0 != c1 {
        SetTarget(from, c1, to);
      }
      ok := true;
    }

    /** The loop of the public insert over the pattern's bytes: one `Step`
        per byte, `from` the plane reached, `next` the plane the last byte
        stepped out of. */
    method WalkPattern(p: Text, caseless: bool) returns (ok: bool, from: int, next: int)
      requires Valid()
      modifies this
      ensures Valid() && firsts == old(firsts) && sets == old(sets)
      ensures var r := Walk(old(planes), Root, Root, p, caseless);
        ok == r.Some? && (ok ==> r.value == Walked(planes, from, next))
      ensures ok ==> 0 <= next < |planes| && 0 <= from < |planes|
    {
      from, next := Root, Root;
      ghost var goal := Walk(planes, Root, Root, p, caseless);
      var i := 0;
      while i < |p|
        invariant Valid() && firsts == old(firsts) && sets == old(sets)
        invariant 0 <= i <= |p| && 0 <= next < |planes| && 0 <= from < |planes|
        invariant Walk(planes, from, next, p[i..], caseless) == goal
      {
        var stepped;
        stepped, from, next := WalkByte(p[i..], from, next, caseless);
        if !stepped {
          return false, from, next;
        }
        assert p[i..][1..] == p[i + 1..];
        i := i + 1;
      }
      assert p[i..] == [];
      ok := true;
    }

    /** One round of that loop: step on the first byte of `rest` out of
        plane `from`, which then becomes `next`. */
    method WalkByte(rest: Text, from: int, next: int, caseless: bool) returns (ok: bool, from': int, next': int)
      requires Valid() && rest != [] && 0 <= next < |planes| && 0 <= from < |planes|
      modifies this
      ensures Valid() && firsts == old(firsts) && sets == old(sets)
      ensures var r := Walk(old(planes), from, next, rest, caseless);
        if ok then 0 <= next' < |planes| && 0 <= from' < |planes| && r == Walk(planes, from', next', rest[1..], caseless)
        else r.None?
    {
      var pair := CasePair(caseless, rest[0]);
      ghost var before := planes;
      var to;
      ok, to := Step(from, pair.0, pair.1);
      if !ok {
        WalkStuck(before, from, next, rest, caseless);
        return false, from, next;
      }
      WalkByStep(before, from, next, rest, caseless, planes, to);
      from', next' := to, from;
    }

    /** `s_firsts` extended by the given bytes. */
    method AddFirsts(bytes: Text)
      requires Valid()
      modifies this
      ensures Valid() && planes == old(planes) && firsts == old(firsts) + bytes && sets == old(sets)
    {
      firsts := firsts + bytes;
    }

    /** `s_set[setindex].insert(id)`. */
    method AddToSet(setindex: int, id: int)
      requires Valid() && 0 <= setindex < |sets|
      modifies this
      ensures Valid() && planes == old(planes) && firsts == old(firsts)
      ensures sets == old(sets)[setindex := SetInsert(old(sets)[setindex], id)]
    {
      sets := sets[setindex := SetInsert(sets[setindex], id)];
    }

    /** The end of insert: the identifier joins `s_set[setindex]`
        (indirect), and the cell of the last byte in plane `next`, and when
        caseless the cell of its other case too, get the terminal. */
    method StampLast(next: int, u: Byte, id: int, setindex: int, caseless: bool)
      requires Valid() && 0 <= next < |planes|
      requires scheme == Indirect ==> 0 <= setindex < |sets|
      modifies this
      ensures Valid()
      ensures Model() == Automaton(
        Stamp(old(planes), next, CasePair(caseless, u), caseless, if scheme == Direct then id else setindex),
        old(firsts),
        if scheme == Direct then old(sets) else old(sets)[setindex := SetInsert(old(sets)[setindex], id)])
    {
      var term := if scheme == Direct then id else setindex;
      if scheme == Indirect {
        AddToSet(setindex, id);
      }
      var last := CasePair(caseless, u);
      SetTerminal(next, last.0, term);
      if caseless {
        SetTerminal(next, last.1, term);
      }
    }

    /** The public insert: record the pattern's first byte(s), walk its
        bytes from the root, then stamp the cell(s) of the last byte with
        the identifier (direct) or with `setindex` after adding the
        identifier to `s_set[setindex]` (indirect). The tables afterwards
        are exactly those `StateMachine.Insert` describes; `ok` is false,
        and the tables are left well formed but otherwise unspecified,
        exactly when `StateMachine.Insert` gives no result. */
    method Insert(p: Text, id: int, setindex: int, caseless: bool) returns (ok: bool)
      requires Valid()
      requires scheme == Indirect ==> 0 <= setindex < |sets|
      modifies this
      ensures Valid()
      ensures var r := StateMachine.Insert(old(Model()), p, id, setindex, caseless, scheme);
        ok == r.Some? && (ok ==> Model() == r.value)
    {
      if p == [] {
        return false;
      }
      ghost var before := Model();
      InsertByWalk(before, p, id, setindex, caseless, scheme);
      AddFirsts(FirstBytes(caseless, p[0]));
      var from, next;
      ok, from, next := WalkPattern(p, caseless);
      if ok {
        StampLast(next, p[|p| - 1], id, setindex, caseless);
      }
    }

    /** The preparation of `s_firsts` before any search: `sort`, then
        `unique` and `erase` of the duplicates it leaves at the end. Only
        the result is modelled: the list rebuilt by placing each byte in
        turn. */
    method SortFirsts()
      requires Valid()
      modifies this
      ensures Valid() && planes == old(planes) && sets == old(sets)
      ensures firsts == Ordering.SortedBytes(old(firsts))
    {
      var sorted: Text := [];
      var i := 0;
      while i < |firsts|
        invariant 0 <= i <= |firsts| && sorted == Ordering.SortedBytes(firsts[..i])
      {
        assert firsts[..i + 1][..i] == firsts[..i];
        sorted := Ordering.PlaceByte(sorted, firsts[i]);
        i := i + 1;
      }
      assert firsts[..i] == firsts;
      firsts := sorted;
    }
  
    /** `follow`: search one buffer and write its path on a line of its own
        when every accept pattern and no reject pattern occurs in it. The
        outer loop skips to each byte that can start a pattern and runs the
        inner loop from there; a negative terminal ends the search at once.
        Returns the verdict and what is written to standard output. */
    method Follow(buf: Text, noreject: bool, acceptSize: int, path: string)
      returns (verdict: Scan.Verdict, output: string)
      requires Valid()
      ensures verdict == Scan.Follow(Model(), scheme, buf, noreject, acceptSize)
      ensures output == if verdict == Scan.Reported then path + "\n" else ""
    {
      var a := Automaton(planes, firsts, sets);
      var aborted, tally := Search(a, scheme, buf, noreject, acceptSize);
      if aborted {
        return Scan.Rejected, "";  // immediate rejection
      }
      verdict := if tally.rejected == {} && |tally.accepted| == acceptSize then Scan.Reported else Scan.NotReported;
      output := if verdict == Scan.Reported then path + "\n" else "";
    }
  }

  /** The two loops of follow: skip to each byte that can start a pattern
      and walk the planes from there, tallying the terminals met, until the
      tally is done or the buffer ends; `aborted` when a negative terminal
      (a reject pattern, with reject patterns present) is met. */
  method Search(a: Automaton, scheme: Scheme, buf: Text, noreject: bool, acceptSize: int)
    returns (aborted: bool, tally: Scan.Tally)
    requires Navigable(a, scheme)
    ensures var r := Scan.Outer(a, scheme, buf, 0, Scan.Start, noreject, acceptSize);
      aborted == r.Abort? && (!aborted ==> tally == r.tally)
  {
    ghost var whole := Scan.Outer(a, scheme, buf, 0, Scan.Start, noreject, acceptSize);
    tally := Scan.Start;
    ghost var k := 0;
    var begin := Scan.FirstOf(buf, 0, a.firsts);
    while begin < |buf|
      invariant 0 <= k <= |buf| && begin == Scan.FirstOf(buf, k, a.firsts)
      invariant !tally.done && whole == Scan.Outer(a, scheme, buf, k, tally, noreject, acceptSize)
      decreases |buf| - k
    {
      aborted, tally := Anchor(a, scheme, buf, begin, tally, noreject, acceptSize);
      if aborted || tally.done {
        return;  // immediate rejection, or every accept pattern met
      }
      k := begin + 1;
      begin := Scan.FirstOf(buf, begin + 1, a.firsts);
    }
    aborted := false;
  }

  /** The terminal of one cell tallied: the identifier itself (direct),
      or each member of `s_set[str]` in ascending order until `done`
      (indirect); a negative identifier aborts the search. */
  method TallyTerminal(a: Automaton, scheme: Scheme, str: int, t: Scan.Tally, noreject: bool, acceptSize: int)
    returns (aborted: bool, u: Scan.Tally)
    requires !t.done && (scheme == Indirect ==> 0 <= str < |a.sets|)
    ensures var r := Scan.Feed(Scan.Items(a, scheme, str), t, noreject, acceptSize);
      aborted == r.Abort? && (!aborted ==> u == r.tally)
  {
    u := t;
    if scheme == Indirect {
      var items := a.sets[str];
      var m := 0;
      while m < |items|
        invariant 0 <= m <= |items| && !u.done
        invariant Scan.Feed(items, t, noreject, acceptSize) == Scan.Feed(items[m..], u, noreject, acceptSize)
        decreases |items| - m
      {
        var item := items[m];
        if item < 0 {
          return true, u;  // immediate rejection
        }
        if item > 0 {
          u := u.(accepted := u.accepted + {item});
        } else {
          u := u.(rejected := u.rejected + {item});
        }
        u := u.(done := noreject && |u.accepted| == acceptSize);
        assert items[m..][1..] == items[m + 1..];
        if u.done {
          return false, u;
        }
        m := m + 1;
      }
      assert items[m..] == [];
      aborted := false;
    } else {
      if str < 0 {
        return true, u;  // immediate rejection
      }
      if str > 0 {
        u := u.(accepted := u.accepted + {str});
      } else {
        u := u.(rejected := u.rejected + {str});
      }
      u := u.(done := noreject && |u.accepted| == acceptSize);
      aborted := false;
      assert Scan.Items(a, scheme, str) == [str] && [str][1..] == [];
    }
  }

  /** One round of the inner loop at byte `j` in plane `tgt`: tally the
      terminal of the cell, and say whether the search aborts, whether the
      inner loop stops, and which plane it moves to. */
  method Round(a: Automaton, scheme: Scheme, buf: Text, j: int, tgt: int, u: Scan.Tally, noreject: bool, acceptSize: int)
    returns (aborted: bool, stop: bool, next: int, v: Scan.Tally)
    requires Navigable(a, scheme) && 0 <= j < |buf| && 0 <= tgt < |a.cells| && !u.done
    ensures !aborted && !stop ==> 0 <= next < |a.cells| && !v.done
    ensures Scan.Inner(a, scheme, buf, j, tgt, u, noreject, acceptSize)
      == if aborted then Scan.Abort
         else if stop then Scan.Go(v)
         else Scan.Inner(a, scheme, buf, j + 1, next, v, noreject, acceptSize)
  {
    var element := a.cells[tgt][buf[j] as int];
    assert element == Scan.Cell(a, tgt, buf[j] as int);
    ghost var fed := Scan.Feed(Scan.Terminal(a, scheme, tgt, buf[j] as int), u, noreject, acceptSize);
    next := Tgt(element);
    var str := Str(element);
    v := u;
    aborted := false;
    if str != 0 {
      aborted, v := TallyTerminal(a, scheme, str, u, noreject, acceptSize);
    }
    stop := !aborted && (v.done || next == 0);
  }

  /** The inner loop of follow from one anchor: walk the planes from the
      root, one byte at a time, tallying each terminal met, until done,
      until a cell has no transition, or until the buffer ends. */
  method Anchor(a: Automaton, scheme: Scheme, buf: Text, anchor: int, t: Scan.Tally, noreject: bool, acceptSize: int)
    returns (aborted: bool, u: Scan.Tally)
    requires Navigable(a, scheme) && 0 <= anchor < |buf| && !t.done
    ensures var r := Scan.Inner(a, scheme, buf, anchor, Root, t, noreject, acceptSize);
      aborted == r.Abort? && (!aborted ==> u == r.tally)
  {
    ghost var whole := Scan.Inner(a, scheme, buf, anchor, Root, t, noreject, acceptSize);
    u := t;
    var tgt := Root;
    var j := anchor;
    while j < |buf|
      invariant anchor <= j <= |buf| && 0 <= tgt < |a.cells| && !u.done
      invariant whole == Scan.Inner(a, scheme, buf, j, tgt, u, noreject, acceptSize)
      decreases |buf| - j
    {
      var stop;
      aborted, stop, tgt, u := Round(a, scheme, buf, j, tgt, u, noreject, acceptSize);
      if aborted || stop {
        return;
      }
      j := j + 1;
    }
    aborted := false;
  }
}
