/** The state tables as values: the planes of cells, the list of first bytes
    (`s_firsts`) and the terminal sets (`s_set`), and what inserting one
    pattern does to them. */
module StateMachine {
  import opened Bytes
  import opened Atoms
  import opened Options

  const PlaneSize: int := 256   // s_size: one cell per byte value
  const MaxPlanes: int := 256   // a plane number is a uint8_t
  const Root: int := 1          // s_root: the plane every match starts in

  type Plane = seq<Atom>
  type Cells = seq<Plane>

  /** Where a terminal keeps its pattern identifier: in the cell itself
      (direct), or in the set `s_set[str]` the cell names (indirect). */
  datatype Scheme = Direct | Indirect

  datatype Automaton = Automaton(cells: Cells, firsts: Text, sets: seq<seq<int>>)

  /** A plane as `State` constructs it: 256 zero cells. */
  function ZeroPlane(): (p: Plane)
    ensures |p| == PlaneSize
    ensures forall c :: 0 <= c < PlaneSize ==> Tgt(p[c]) == 0 && Str(p[c]) == 0
  {
    seq(PlaneSize, _ => NewAtom())
  }

  /** The tables before any insert: the unused plane 0 and the root plane,
      no first bytes, and the single set `{0}`. */
  function Fresh(): Automaton
  {
    Automaton([ZeroPlane(), ZeroPlane()], [], [[0]])
  }

  ghost predicate Shaped(cells: Cells)
  {
    forall q :: 0 <= q < |cells| ==> |cells[q]| == PlaneSize
  }

  /** The shape the planes keep: plane 0 and the root at least, at most as
      many planes as a uint8_t can number, and every transition names an
      existing plane numbered higher than the plane holding it, so the
      transitions never form a cycle. */
  ghost predicate Trie(cells: Cells)
  {
    && 2 <= |cells| <= MaxPlanes
    && Shaped(cells)
    && (forall q, c :: 0 <= q < |cells| && 0 <= c < PlaneSize ==> Tgt(cells[q][c]) < |cells|)
    && (forall q, c :: 0 <= q < |cells| && 0 <= c < PlaneSize ==>
          Tgt(cells[q][c]) == 0 || q < Tgt(cells[q][c]))
  }

  /** A `std::set<int>` held as its ascending enumeration. */
  predicate Increasing(g: seq<int>)
  {
    forall i, j :: 0 <= i < j < |g| ==> g[i] < g[j]
  }

  /** What the search needs of the tables: the planes form a trie and,
      in the indirect scheme, every terminal names a set. */
  ghost predicate Navigable(a: Automaton, scheme: Scheme)
  {
    && Trie(a.cells)
    && (scheme == Indirect ==> TerminalsNameSets(a.cells, |a.sets|))
  }

  /** The shape every insert keeps: navigable planes and ascending sets. */
  ghost predicate WellFormed(a: Automaton, scheme: Scheme)
  {
    Navigable(a, scheme) && SetsWellFormed(a.sets)
  }

  /** `s_set` is never empty and its indices fit in a `str` field. */
  ghost predicate SetsWellFormed(sets: seq<seq<int>>)
  {
    && 1 <= |sets| <= StrHalf
    && (forall g :: 0 <= g < |sets| ==> Increasing(sets[g]))
  }

  /** Every terminal is the index of a set. */
  ghost predicate TerminalsNameSets(cells: Cells, n: int)
    requires Shaped(cells)
  {
    forall q, c :: 0 <= q < |cells| && 0 <= c < PlaneSize ==> 0 <= Str(cells[q][c]) < n
  }

  /** `std::set<int>::insert` on the ascending enumeration. */
  function SetInsert(g: seq<int>, x: int): (r: seq<int>)
    requires Increasing(g)
    ensures Increasing(r)
    ensures forall y :: y in r <==> y in g || y == x
  {
    if g == [] then [x]
    else if x < g[0] then [x] + g
    else if x == g[0] then g
    else
      var rest := SetInsert(g[1..], x);
      assert forall j :: 0 <= j < |rest| ==> g[0] < rest[j] by {
        forall j | 0 <= j < |rest| ensures g[0] < rest[j] {
          assert rest[j] in rest;
        }
      }
      [g[0]] + rest
  }

  /** Cell `c` of plane `q`, or an empty cell outside the planes (which a
      well-formed table never reaches). */
  function At(cells: Cells, q: int, c: int): Atom
  {
    if 0 <= q < |cells| && 0 <= c < |cells[q]| then cells[q][c] else NewAtom()
  }

  /** Cell (q, c) made to go to plane `t`; its terminal and every other
      cell stay. */
  function Link(cells: Cells, q: int, c: int, t: int): (r: Cells)
    requires 0 <= t < 256
    ensures |r| == |cells|
  {
    if 0 <= q < |cells| && 0 <= c < |cells[q]| then
      var row: Plane := cells[q][c := SetTgt(cells[q][c], t)];
      cells[q := row]
    else cells
  }

  lemma LinkSets(cells: Cells, q: int, c: int, t: int)
    requires Shaped(cells) && 0 <= q < |cells| && 0 <= c < PlaneSize && 0 <= t < 256
    ensures var r := Link(cells, q, c, t);
      && Shaped(r)
      && Tgt(r[q][c]) == t && Str(r[q][c]) == Str(cells[q][c])
      && (forall q', c' :: 0 <= q' < |r| && 0 <= c' < PlaneSize && (q' != q || c' != c) ==> r[q'][c'] == cells[q'][c'])
  {
  }

  /** A transition to a later plane keeps the planes a trie. */
  lemma LinkKeepsTrie(cells: Cells, q: int, c: int, t: int)
    requires Trie(cells) && 0 <= q < t < |cells| && 0 <= c < PlaneSize
    ensures Trie(Link(cells, q, c, t))
  {
    LinkSets(cells, q, c, t);
  }

  /** Cell (q, c) given the terminal `term`; its transition and every other
      cell stay. */
  function Mark(cells: Cells, q: int, c: int, term: int): (r: Cells)
    ensures |r| == |cells|
  {
    if 0 <= q < |cells| && 0 <= c < |cells[q]| then
      var row: Plane := cells[q][c := SetStr(cells[q][c], term)];
      cells[q := row]
    else cells
  }

  lemma MarkSets(cells: Cells, q: int, c: int, term: int)
    requires Shaped(cells) && 0 <= q < |cells| && 0 <= c < PlaneSize
    ensures var r := Mark(cells, q, c, term);
      && Shaped(r)
      && Tgt(r[q][c]) == Tgt(cells[q][c]) && Str(r[q][c]) == Truncate24(term)
      && (forall q', c' :: 0 <= q' < |r| && 0 <= c' < PlaneSize && (q' != q || c' != c) ==> r[q'][c'] == cells[q'][c'])
  {
  }

  /** A terminal leaves the transitions, so the trie, as they are. */
  lemma MarkKeepsTrie(cells: Cells, q: int, c: int, term: int)
    requires Trie(cells) && 0 <= q < |cells| && 0 <= c < PlaneSize
    ensures Trie(Mark(cells, q, c, term))
  {
    MarkSets(cells, q, c, term);
  }

  /** The planes after `operator++`: one more, all zero. */
  function Grown(cells: Cells): (r: Cells)
    ensures |r| == |cells| + 1 && r[..|cells|] == cells && r[|cells|] == ZeroPlane()
  {
    cells + [ZeroPlane()]
  }

  lemma GrownKeepsTrie(cells: Cells)
    requires Trie(cells) && |cells| < MaxPlanes
    ensures Trie(Grown(cells))
  {
    var r := Grown(cells);
    assert forall q :: 0 <= q < |cells| ==> r[q] == cells[q];
  }

  datatype Stepped = Stepped(cells: Cells, from: int)

  /** One byte of insert (the byte branch of the private `Table::insert`):
      follow the cell for `c0` out of plane `from`, or append a new plane
      when it has no target, and make the cells for `c0` and `c1` both go
      there. `None` when a plane is needed and 256 exist already: the new
      plane's number does not fit in the uint8_t that holds it. */
  function Step(cells: Cells, from: int, c0: Byte, c1: Byte): (r: Option<Stepped>)
    ensures r.None? <==> Tgt(At(cells, from, c0 as int)) == 0 && |cells| >= MaxPlanes
    ensures r.Some? ==> |r.value.cells| == |cells| + (if Tgt(At(cells, from, c0 as int)) == 0 then 1 else 0)
  {
    var to := Tgt(At(cells, from, c0 as int));
    if to == 0 && |cells| >= MaxPlanes then None
    else
      var grown := if to != 0 then cells else Grown(cells);
      var next := if to != 0 then to else |cells|;
      var a := Link(grown, from, c0 as int, next);
      var b := if c0 != c1 then Link(a, from, c1 as int, next) else a;
      Some(Stepped(b, next))
  }

  /** What a step does: it reuses the existing transition, or appends one
      zero plane and goes there; afterwards both `c0` and `c1` lead to the
      plane reached; no terminal changes and no other cell of the old
      planes changes. */
  lemma StepLinks(cells: Cells, from: int, c0: Byte, c1: Byte)
    requires Shaped(cells) && 0 <= from < |cells|
    requires Step(cells, from, c0, c1).Some?
    ensures var r := Step(cells, from, c0, c1).value;
      && Shaped(r.cells)
      && (Tgt(cells[from][c0 as int]) != 0 ==>
            r.from == Tgt(cells[from][c0 as int]) && |r.cells| == |cells|)
      && (Tgt(cells[from][c0 as int]) == 0 ==>
            r.from == |cells| && |r.cells| == |cells| + 1 && r.cells[|cells|] == ZeroPlane())
      && Tgt(r.cells[from][c0 as int]) == r.from && Tgt(r.cells[from][c1 as int]) == r.from
      && (forall q, c :: 0 <= q < |cells| && 0 <= c < PlaneSize ==> Str(r.cells[q][c]) == Str(cells[q][c]))
      && (forall q, c :: 0 <= q < |cells| && 0 <= c < PlaneSize && !(q == from && (c == c0 as int || c == c1 as int)) ==>
            r.cells[q][c] == cells[q][c])
  {
    var to := Tgt(cells[from][c0 as int]);
    var grown := if to != 0 then cells else Grown(cells);
    var next := if to != 0 then to else |cells|;
    assert Shaped(grown);
    LinkSets(grown, from, c0 as int, next);
    var a := Link(grown, from, c0 as int, next);
    if c0 != c1 {
      LinkSets(a, from, c1 as int, next);
    }
  }

  /** A step keeps the planes a trie and reaches a plane numbered higher
      than the one it left. */
  lemma StepKeepsTrie(cells: Cells, from: int, c0: Byte, c1: Byte)
    requires Trie(cells) && 0 <= from < |cells|
    requires Step(cells, from, c0, c1).Some?
    ensures var r := Step(cells, from, c0, c1).value;
      Trie(r.cells) && from < r.from < |r.cells|
  {
    var to := Tgt(cells[from][c0 as int]);
    var grown := if to != 0 then cells else Grown(cells);
    var next := if to != 0 then to else |cells|;
    if to == 0 {
      GrownKeepsTrie(cells);
    }
    LinkKeepsTrie(grown, from, c0 as int, next);
    if c0 != c1 {
      LinkKeepsTrie(Link(grown, from, c0 as int, next), from, c1 as int, next);
    }
  }

  datatype Walked = Walked(cells: Cells, from: int, next: int)

  /** The loop of the public `Table::insert` over the pattern's bytes: one
      `Step` per byte, each from the plane the previous one reached, with
      `next` left at the plane the last byte stepped out of. */
  function Walk(cells: Cells, from: int, next: int, p: Text, caseless: bool): Option<Walked>
    decreases |p|
  {
    if p == [] then Some(Walked(cells, from, next))
    else
      var pair := CasePair(caseless, p[0]);
      match Step(cells, from, pair.0, pair.1)
      case None => None
      case Some(st) => Walk(st.cells, st.from, from, p[1..], caseless)
  }

  /** A walk keeps the planes a trie and ends inside them. */
  lemma {:induction false} WalkKeepsTrie(cells: Cells, from: int, next: int, p: Text, caseless: bool)
    requires Trie(cells) && 0 <= next < |cells| && 0 <= from < |cells|
    ensures var r := Walk(cells, from, next, p, caseless);
      r.Some? ==> Trie(r.value.cells) && 0 <= r.value.next < |r.value.cells| && 0 <= r.value.from < |r.value.cells|
    decreases |p|
  {
    if p != [] {
      var pair := CasePair(caseless, p[0]);
      var st := Step(cells, from, pair.0, pair.1);
      if st.Some? {
        StepKeepsTrie(cells, from, pair.0, pair.1);
        WalkKeepsTrie(st.value.cells, st.value.from, from, p[1..], caseless);
      }
    }
  }

  /** One step of a walk: the rest of the walk goes on from the plane the
      first byte reached. */
  lemma WalkByStep(cells: Cells, from: int, next: int, p: Text, caseless: bool, after: Cells, to: int)
    requires p != []
    requires Step(cells, from, CasePair(caseless, p[0]).0, CasePair(caseless, p[0]).1) == Some(Stepped(after, to))
    ensures Walk(cells, from, next, p, caseless) == Walk(after, to, from, p[1..], caseless)
  {
  }

  /** A walk whose first step finds no room fails. */
  lemma WalkStuck(cells: Cells, from: int, next: int, p: Text, caseless: bool)
    requires p != []
    requires Step(cells, from, CasePair(caseless, p[0]).0, CasePair(caseless, p[0]).1).None?
    ensures Walk(cells, from, next, p, caseless).None?
  {
  }

  /** The terminals of `before` are those of `after`, whose further planes
      have none. */
  ghost predicate TerminalsKept(before: Cells, after: Cells)
    requires Shaped(before) && Shaped(after) && |before| <= |after|
  {
    forall q, c :: 0 <= q < |after| && 0 <= c < PlaneSize ==>
      Str(after[q][c]) == (if q < |before| then Str(before[q][c]) else 0)
  }

  lemma TerminalsKeptTransitive(a: Cells, b: Cells, c: Cells)
    requires Shaped(a) && Shaped(b) && Shaped(c) && |a| <= |b| <= |c|
    requires TerminalsKept(a, b) && TerminalsKept(b, c)
    ensures TerminalsKept(a, c)
  {
  }

  lemma StepKeepsTerminals(cells: Cells, from: int, c0: Byte, c1: Byte)
    requires Trie(cells) && 0 <= from < |cells| && Step(cells, from, c0, c1).Some?
    ensures |cells| <= |Step(cells, from, c0, c1).value.cells|
    ensures TerminalsKept(cells, Step(cells, from, c0, c1).value.cells)
  {
    StepLinks(cells, from, c0, c1);
  }

  /** A walk sets transitions only: the terminals of the old planes stay,
      and the planes it appends have none. */
  lemma {:induction false} WalkKeepsTerminals(cells: Cells, from: int, next: int, p: Text, caseless: bool)
    requires Trie(cells) && 0 <= next < |cells| && 0 <= from < |cells|
    requires Walk(cells, from, next, p, caseless).Some?
    ensures Trie(Walk(cells, from, next, p, caseless).value.cells)
    ensures |cells| <= |Walk(cells, from, next, p, caseless).value.cells|
    ensures TerminalsKept(cells, Walk(cells, from, next, p, caseless).value.cells)
    decreases |p|
  {
    if p != [] {
      var pair := CasePair(caseless, p[0]);
      var st := Step(cells, from, pair.0, pair.1).value;
      StepKeepsTerminals(cells, from, pair.0, pair.1);
      StepKeepsTrie(cells, from, pair.0, pair.1);
      WalkKeepsTerminals(st.cells, st.from, from, p[1..], caseless);
      TerminalsKeptTransitive(cells, st.cells, Walk(cells, from, next, p, caseless).value.cells);
    }
  }

  /** The `str` stamp that ends insert: the cell for the last byte in plane
      `next`, and when caseless also the cell for its other case, get the
      terminal. */
  function Stamp(cells: Cells, next: int, pair: (Byte, Byte), caseless: bool, term: int): (r: Cells)
    ensures |r| == |cells|
    ensures forall q :: 0 <= q < |r| && q != next ==> r[q] == cells[q]
  {
    var a := Mark(cells, next, pair.0 as int, term);
    if caseless then Mark(a, next, pair.1 as int, term) else a
  }

  /** The public `Table::insert(pattern, id, setindex)`: record the first
      byte(s), walk the pattern, and stamp the last cell with the pattern's
      identifier (direct) or with `setindex` after adding the identifier to
      `s_set[setindex]` (indirect). `None` for an empty pattern (its first
      byte is read regardless) and when the walk runs out of planes. */
  function Insert(a: Automaton, p: Text, id: int, setindex: int, caseless: bool, scheme: Scheme): (r: Option<Automaton>)
    requires WellFormed(a, scheme)
    requires scheme == Indirect ==> 0 <= setindex < |a.sets|
    ensures r.Some? ==> p != [] && a.firsts <= r.value.firsts
  {
    if p == [] then None
    else
      match Walk(a.cells, Root, Root, p, caseless)
      case None => None
      case Some(w) =>
        var term := if scheme == Direct then id else setindex;
        var sets := if scheme == Direct then a.sets else a.sets[setindex := SetInsert(a.sets[setindex], id)];
        var cells := Stamp(w.cells, w.next, CasePair(caseless, p[|p| - 1]), caseless, term);
        Some(Automaton(cells, a.firsts + FirstBytes(caseless, p[0]), sets))
  }

  /** An insert adds at most one plane per byte of the pattern, and fails
      only on an empty pattern or when those planes would not fit. */
  lemma InsertGrowth(a: Automaton, p: Text, id: int, setindex: int, caseless: bool, scheme: Scheme)
    requires WellFormed(a, scheme)
    requires scheme == Indirect ==> 0 <= setindex < |a.sets|
    ensures var r := Insert(a, p, id, setindex, caseless, scheme);
      && (r.None? ==> p == [] || |a.cells| + |p| > MaxPlanes)
      && (r.Some? ==> |a.cells| <= |r.value.cells| <= |a.cells| + |p|)
  {
    WalkFits(a.cells, Root, Root, p, caseless);
  }

  lemma StampKeepsTrie(cells: Cells, next: int, pair: (Byte, Byte), caseless: bool, term: int)
    requires Trie(cells) && 0 <= next < |cells|
    ensures var r := Stamp(cells, next, pair, caseless, term);
      && Trie(r) && |r| == |cells|
      && (forall q, c :: 0 <= q < |r| && 0 <= c < PlaneSize ==>
            Str(r[q][c]) == Str(cells[q][c]) || Str(r[q][c]) == Truncate24(term))
  {
    MarkSets(cells, next, pair.0 as int, term);
    MarkKeepsTrie(cells, next, pair.0 as int, term);
    if caseless {
      MarkSets(Mark(cells, next, pair.0 as int, term), next, pair.1 as int, term);
      MarkKeepsTrie(Mark(cells, next, pair.0 as int, term), next, pair.1 as int, term);
    }
  }

  /** Insert keeps the tables well formed, whatever the pattern, identifier
      and case mode. */
  lemma InsertKeepsWellFormed(a: Automaton, p: Text, id: int, setindex: int, caseless: bool, scheme: Scheme)
    requires WellFormed(a, scheme)
    requires scheme == Indirect ==> 0 <= setindex < |a.sets|
    ensures Insert(a, p, id, setindex, caseless, scheme).Some? ==>
      WellFormed(Insert(a, p, id, setindex, caseless, scheme).value, scheme)
  {
    var r := Insert(a, p, id, setindex, caseless, scheme);
    if r.Some? {
      var w := Walk(a.cells, Root, Root, p, caseless).value;
      WalkKeepsTrie(a.cells, Root, Root, p, caseless);
      var term := if scheme == Direct then id else setindex;
      StampKeepsTrie(w.cells, w.next, CasePair(caseless, p[|p| - 1]), caseless, term);
      assert SetsWellFormed(r.value.sets);
      if scheme == Indirect {
        WalkKeepsTerminals(a.cells, Root, Root, p, caseless);
        TerminalsAfterStamp(a.cells, w.cells, r.value.cells, setindex, |r.value.sets|);
      }
    }
  }

  lemma TerminalsAfterStamp(before: Cells, walked: Cells, after: Cells, term: int, n: int)
    requires Trie(before) && Trie(walked) && Trie(after) && |walked| == |after| && |before| <= |walked|
    requires 0 <= term < n && IsI24(term) && TerminalsNameSets(before, n)
    requires TerminalsKept(before, walked)
    requires forall q, c :: 0 <= q < |after| && 0 <= c < PlaneSize ==>
      Str(after[q][c]) == Str(walked[q][c]) || Str(after[q][c]) == Truncate24(term)
    ensures TerminalsNameSets(after, n)
  {
    forall q, c | 0 <= q < |after| && 0 <= c < PlaneSize ensures 0 <= Str(after[q][c]) < n {
      if q < |before| {
        assert 0 <= Str(before[q][c]) < n;
      }
    }
  }

  /** A walk of n bytes appends at most n planes, and cannot fail while
      they fit. */
  lemma {:induction false} WalkFits(cells: Cells, from: int, next: int, p: Text, caseless: bool)
    requires Trie(cells) && 0 <= next < |cells| && 0 <= from < |cells|
    ensures |cells| + |p| <= MaxPlanes ==> Walk(cells, from, next, p, caseless).Some?
    ensures Walk(cells, from, next, p, caseless).Some? ==>
      |cells| <= |Walk(cells, from, next, p, caseless).value.cells| <= |cells| + |p|
    decreases |p|
  {
    if p != [] {
      var pair := CasePair(caseless, p[0]);
      var st := Step(cells, from, pair.0, pair.1);
      if st.Some? {
        StepKeepsTrie(cells, from, pair.0, pair.1);
        StepLinks(cells, from, pair.0, pair.1);
        WalkFits(st.value.cells, st.value.from, from, p[1..], caseless);
      }
    }
  }

  lemma MarkKeepsTerminalsNameSets(cells: Cells, q: int, c: int, term: int, n: int)
    requires Trie(cells) && 0 <= q < |cells| && 0 <= c < PlaneSize
    requires TerminalsNameSets(cells, n) && 0 <= term < n && IsI24(term)
    ensures TerminalsNameSets(Mark(cells, q, c, term), n)
  {
    var r := Mark(cells, q, c, term);
    MarkSets(cells, q, c, term);
    forall q', c' | 0 <= q' < |r| && 0 <= c' < PlaneSize ensures 0 <= Str(r[q'][c']) < n {
      if q' != q || c' != c {
        assert r[q'][c'] == cells[q'][c'];
      }
    }
  }

  /** Insert spelled out by the outcome of its walk. */
  lemma InsertByWalk(a: Automaton, p: Text, id: int, setindex: int, caseless: bool, scheme: Scheme)
    requires WellFormed(a, scheme) && p != []
    requires scheme == Indirect ==> 0 <= setindex < |a.sets|
    ensures var r := Insert(a, p, id, setindex, caseless, scheme);
      var w := Walk(a.cells, Root, Root, p, caseless);
      && (r.Some? <==> w.Some?)
      && (w.Some? ==>
            r.value == Automaton(
              Stamp(w.value.cells, w.value.next, CasePair(caseless, p[|p| - 1]), caseless,
                    if scheme == Direct then id else setindex),
              a.firsts + FirstBytes(caseless, p[0]),
              if scheme == Direct then a.sets else a.sets[setindex := SetInsert(a.sets[setindex], id)]))
  {
  }
}
