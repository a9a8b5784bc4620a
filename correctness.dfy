/** Why follow answers the question it is meant to: after the patterns are
    inserted (direct scheme, one case mode), every plane the root reaches
    stands for one folded prefix of a pattern, so walking the planes from
    an anchor meets exactly the patterns that occur there. */
module Correctness {
  import opened Bytes
  import opened Atoms
  import opened Options
  import opened StateMachine
  import opened Scan

  /** The plane each folded prefix of an inserted pattern leads to. */
  type Labels = map<Text, int>

  /** The identifier the cell of each folded pattern's last byte holds. */
  type Dict = map<Text, int>

  /** Plane `q` stands for the folded prefix `k`: the cell of byte `c`
      leads to the plane of `k` extended by `c` folded, when that prefix
      has one, and holds the identifier of that extension, when it is a
      pattern. */
  ghost predicate PlaneMeans(cells: Cells, q: int, k: Text, L: Labels, D: Dict, caseless: bool)
  {
    forall c: Byte {:trigger CellOf(cells, q, c)} ::
      && Tgt(CellOf(cells, q, c)) == (if k + [Fold(caseless, c)] in L then L[k + [Fold(caseless, c)]] else 0)
      && Str(CellOf(cells, q, c)) == (if k + [Fold(caseless, c)] in D then D[k + [Fold(caseless, c)]] else 0)
  }

  /** The cell of byte `c` in plane `q`. */
  function CellOf(cells: Cells, q: int, c: Byte): Atom
  {
    At(cells, q, c as int)
  }

  /** The labelling the inserts keep: the empty prefix labels the root,
      every label is a plane of its own, the labelled prefixes are closed
      under taking prefixes, every pattern is a labelled prefix with a
      non-zero identifier, and each labelled plane means its prefix. */
  ghost predicate Labelled(cells: Cells, L: Labels, D: Dict, caseless: bool)
  {
    && [] in L && L[[]] == Root
    && (forall k {:trigger L[k]} :: k in L ==> 1 <= L[k] < |cells|)
    && (forall k1, k2 {:trigger L[k1], L[k2]} :: k1 in L && k2 in L && L[k1] == L[k2] ==> k1 == k2)
    && (forall k, n :: k in L && 0 <= n <= |k| ==> k[..n] in L)
    && (forall k :: k in D ==> k in L && k != [] && D[k] != 0)
    && (forall k {:trigger L[k]} :: k in L ==> PlaneMeans(cells, L[k], k, L, D, caseless))
  }

  lemma FreshLabelled(caseless: bool)
    ensures Labelled(Fresh().cells, map[[] := Root], map[], caseless)
  {
    var L: Labels := map[[] := Root];
    forall k, n | k in L && 0 <= n <= |k| ensures k[..n] in L {
      assert k == [];
    }
    forall c: Byte ensures Tgt(CellOf(Fresh().cells, Root, c)) == 0 && Str(CellOf(Fresh().cells, Root, c)) == 0 {
    }
  }

  /** A plane whose cells keep their transitions and terminals, and whose
      extensions keep their labels, keeps its meaning. */
  lemma PlaneMeansFrame(c1: Cells, c2: Cells, q: int, k: Text, L1: Labels, L2: Labels, D: Dict, caseless: bool)
    requires PlaneMeans(c1, q, k, L1, D, caseless)
    requires forall c :: 0 <= c < PlaneSize ==>
      Tgt(At(c2, q, c)) == Tgt(At(c1, q, c)) && Str(At(c2, q, c)) == Str(At(c1, q, c))
    requires forall x: Byte :: (k + [x] in L2 <==> k + [x] in L1) && (k + [x] in L1 ==> L2[k + [x]] == L1[k + [x]])
    ensures PlaneMeans(c2, q, k, L2, D, caseless)
  {
    forall c: Byte ensures Tgt(CellOf(c2, q, c)) == Tgt(CellOf(c1, q, c)) && Str(CellOf(c2, q, c)) == Str(CellOf(c1, q, c)) {
      assert 0 <= c as int < PlaneSize;
    }
  }

  /** A step along an existing transition changes no transition and no
      terminal. */
  lemma StepReuses(cells: Cells, from: int, u: Byte, caseless: bool, L: Labels, D: Dict, done: Text)
    requires Trie(cells) && Labelled(cells, L, D, caseless) && done in L && from == L[done]
    requires done + [Fold(caseless, u)] in L
    ensures var st := Step(cells, from, CasePair(caseless, u).0, CasePair(caseless, u).1);
      && st.Some? && Labelled(st.value.cells, L, D, caseless)
      && st.value.from == L[done + [Fold(caseless, u)]]
  {
    var pair := CasePair(caseless, u);
    var key := done + [Fold(caseless, u)];
    assert PlaneMeans(cells, from, done, L, D, caseless);
    assert CellOf(cells, from, pair.0) == cells[from][pair.0 as int];
    assert CellOf(cells, from, pair.1) == cells[from][pair.1 as int];
    assert Tgt(cells[from][pair.0 as int]) == L[key] != 0;
    StepLinks(cells, from, pair.0, pair.1);
    var st := Step(cells, from, pair.0, pair.1).value;
    forall k | k in L ensures PlaneMeans(st.cells, L[k], k, L, D, caseless) {
      assert PlaneMeans(cells, L[k], k, L, D, caseless);
      forall c | 0 <= c < PlaneSize ensures Tgt(At(st.cells, L[k], c)) == Tgt(At(cells, L[k], c))
                                        && Str(At(st.cells, L[k], c)) == Str(At(cells, L[k], c))
      {
        if !(L[k] == from && (c == pair.0 as int || c == pair.1 as int)) {
          assert st.cells[L[k]][c] == cells[L[k]][c];
        }
      }
      PlaneMeansFrame(cells, st.cells, L[k], k, L, L, D, caseless);
    }
  }

  /** A labelled prefix with no labelled one-byte extension has no labelled
      extension at all. */
  lemma NoExtension(L: Labels, key: Text, x: Byte)
    requires forall k, n :: k in L && 0 <= n <= |k| ==> k[..n] in L
    requires key !in L
    ensures key + [x] !in L
  {
    assert (key + [x])[..|key|] == key;
  }

  /** A step with no transition to follow appends a plane that the new
      prefix labels; nothing else changes meaning. */
  lemma StepAllocates(cells: Cells, from: int, u: Byte, caseless: bool, L: Labels, D: Dict, done: Text)
    requires Trie(cells) && Labelled(cells, L, D, caseless) && done in L && from == L[done]
    requires done + [Fold(caseless, u)] !in L
    requires Step(cells, from, CasePair(caseless, u).0, CasePair(caseless, u).1).Some?
    ensures var st := Step(cells, from, CasePair(caseless, u).0, CasePair(caseless, u).1).value;
      var key := done + [Fold(caseless, u)];
      && Labelled(st.cells, L[key := |cells|], D, caseless)
      && st.from == |cells|
  {
    var pair := CasePair(caseless, u);
    var key := done + [Fold(caseless, u)];
    var n := |cells|;
    var L' := L[key := n];
    assert PlaneMeans(cells, from, done, L, D, caseless);
    assert CellOf(cells, from, pair.0) == cells[from][pair.0 as int];
    assert Tgt(cells[from][pair.0 as int]) == 0;
    StepLinks(cells, from, pair.0, pair.1);
    var st := Step(cells, from, pair.0, pair.1).value;
    assert st.from == n && |st.cells| == n + 1 && st.cells[n] == ZeroPlane();
    AllocPrefixClosed(L, done, key, n);
    forall k | k in L' ensures PlaneMeans(st.cells, L'[k], k, L', D, caseless) {
      assert k in L || k == key;
      if k == key {
        NewPlaneMeans(st.cells, n, key, L, L', D, caseless);
      } else if k == done {
        StepFromPlane(cells, st.cells, from, u, caseless, L, L', D, done);
      } else {
        assert PlaneMeans(cells, L[k], k, L, D, caseless);
        assert L[k] != from;
        StepOtherPlane(cells, st.cells, L[k], k, key, done, L, L', D, caseless);
      }
    }
    LabelledIntro(st.cells, L', D, caseless);
  }

  /** The conjuncts of `Labelled`, one by one. */
  lemma LabelledIntro(cells: Cells, L: Labels, D: Dict, caseless: bool)
    requires [] in L && L[[]] == Root
    requires forall k :: k in L ==> 1 <= L[k] < |cells|
    requires forall k1, k2 :: k1 in L && k2 in L && L[k1] == L[k2] ==> k1 == k2
    requires forall k, n :: k in L && 0 <= n <= |k| ==> k[..n] in L
    requires forall k :: k in D ==> k in L && k != [] && D[k] != 0
    requires forall k :: k in L ==> PlaneMeans(cells, L[k], k, L, D, caseless)
    ensures Labelled(cells, L, D, caseless)
  {
  }

  /** Labelling one more prefix, whose own prefixes are labelled, keeps
      the labelled prefixes closed under taking prefixes. */
  lemma AllocPrefixClosed(L: Labels, done: Text, key: Text, n: int)
    requires forall k, m :: k in L && 0 <= m <= |k| ==> k[..m] in L
    requires done in L && |key| == |done| + 1 && key[..|done|] == done
    ensures forall k, m :: k in L[key := n] && 0 <= m <= |k| ==> k[..m] in L[key := n]
  {
    var L' := L[key := n];
    forall k, m | k in L' && 0 <= m <= |k| ensures k[..m] in L' {
      if k == key {
        if m < |key| {
          assert key[..m] == done[..m] && done[..m] in L;
        } else {
          assert key[..m] == key;
        }
      } else {
        assert k in L && k[..m] in L;
      }
    }
  }

  /** The new plane, all zero, means the new prefix, which has no
      labelled extension and so no pattern extending it. */
  lemma NewPlaneMeans(cells: Cells, n: int, key: Text, L: Labels, L': Labels, D: Dict, caseless: bool)
    requires 0 <= n < |cells| && cells[n] == ZeroPlane()
    requires forall k, m :: k in L && 0 <= m <= |k| ==> k[..m] in L
    requires key !in L && L' == L[key := n] && forall k :: k in D ==> k in L
    ensures PlaneMeans(cells, n, key, L', D, caseless)
  {
    forall c: Byte ensures key + [Fold(caseless, c)] !in L' && key + [Fold(caseless, c)] !in D {
      NoExtension(L, key, Fold(caseless, c));
    }
  }

  /** A plane a step does not touch, labelled by a prefix other than the
      one stepped from, keeps its meaning. */
  lemma StepOtherPlane(cells: Cells, after: Cells, q: int, k: Text, key: Text, done: Text,
                       L: Labels, L': Labels, D: Dict, caseless: bool)
    requires 0 <= q < |cells| <= |after| && after[q] == cells[q]
    requires PlaneMeans(cells, q, k, L, D, caseless)
    requires k != done && |key| == |done| + 1 && key[..|done|] == done && L' == L[key := |cells|]
    ensures PlaneMeans(after, q, k, L', D, caseless)
  {
    forall x: Byte ensures k + [x] != key {
      assert (k + [x])[..|k|] == k;
    }
    PlaneMeansFrame(cells, after, q, k, L, L', D, caseless);
  }

  /** The plane a step leaves: the cells of the stepped byte class lead to
      the new plane, the others keep their meaning. */
  lemma StepFromPlane(cells: Cells, after: Cells, from: int, u: Byte, caseless: bool,
                      L: Labels, L': Labels, D: Dict, done: Text)
    requires Shaped(cells) && Shaped(after) && 0 <= from < |cells| <= |after|
    requires PlaneMeans(cells, from, done, L, D, caseless)
    requires done + [Fold(caseless, u)] !in L && L' == L[done + [Fold(caseless, u)] := |cells|]
    requires forall k :: k in D ==> k in L
    requires forall c :: 0 <= c < PlaneSize ==> Str(after[from][c]) == Str(cells[from][c])
    requires forall c :: 0 <= c < PlaneSize && c != CasePair(caseless, u).0 as int && c != CasePair(caseless, u).1 as int ==>
      after[from][c] == cells[from][c]
    requires Tgt(after[from][CasePair(caseless, u).0 as int]) == |cells|
    requires Tgt(after[from][CasePair(caseless, u).1 as int]) == |cells|
    ensures PlaneMeans(after, from, done, L', D, caseless)
  {
    var pair := CasePair(caseless, u);
    forall c: Byte
      ensures Tgt(CellOf(after, from, c)) == (if done + [Fold(caseless, c)] in L' then L'[done + [Fold(caseless, c)]] else 0)
      ensures Str(CellOf(after, from, c)) == (if done + [Fold(caseless, c)] in D then D[done + [Fold(caseless, c)]] else 0)
    {
      assert CellOf(cells, from, c) == cells[from][c as int];
      if Fold(caseless, c) == Fold(caseless, u) {
        assert c == pair.0 || c == pair.1;
      } else {
        assert (done + [Fold(caseless, c)])[|done|] != (done + [Fold(caseless, u)])[|done|];
      }
    }
  }

  /** A step of insert, either way. */
  lemma StepLabels(cells: Cells, from: int, u: Byte, caseless: bool, L: Labels, D: Dict, done: Text) returns (L': Labels)
    requires Trie(cells) && Labelled(cells, L, D, caseless) && done in L && from == L[done]
    requires Step(cells, from, CasePair(caseless, u).0, CasePair(caseless, u).1).Some?
    ensures var st := Step(cells, from, CasePair(caseless, u).0, CasePair(caseless, u).1).value;
      && Labelled(st.cells, L', D, caseless)
      && done + [Fold(caseless, u)] in L' && st.from == L'[done + [Fold(caseless, u)]]
      && (forall k :: k in L ==> k in L' && L'[k] == L[k])
  {
    var key := done + [Fold(caseless, u)];
    if key in L {
      StepReuses(cells, from, u, caseless, L, D, done);
      L' := L;
    } else {
      StepAllocates(cells, from, u, caseless, L, D, done);
      L' := L[key := |cells|];
    }
  }

  lemma FoldSeqCons(caseless: bool, p: Text)
    requires p != []
    ensures FoldSeq(caseless, p) == [Fold(caseless, p[0])] + FoldSeq(caseless, p[1..])
  {
  }

  /** The folded prefixes a walk step passes from, seen from the next
      step. */
  lemma KeysAfterStep(caseless: bool, done: Text, p: Text)
    requires p != []
    ensures var done1 := done + [Fold(caseless, p[0])];
      && done + FoldSeq(caseless, p) == done1 + FoldSeq(caseless, p[1..])
      && (|p| > 1 ==> done + FoldSeq(caseless, p[..|p| - 1]) == done1 + FoldSeq(caseless, p[1..][..|p| - 2]))
      && (|p| == 1 ==> done + FoldSeq(caseless, p[..|p| - 1]) == done)
  {
    var done1 := done + [Fold(caseless, p[0])];
    FoldSeqCons(caseless, p);
    Regroup(done, Fold(caseless, p[0]), FoldSeq(caseless, p[1..]));
    if |p| > 1 {
      var init := p[..|p| - 1];
      FoldSeqCons(caseless, init);
      assert init[0] == p[0];
      assert init[1..] == p[1..][..|p| - 2];
      Regroup(done, Fold(caseless, p[0]), FoldSeq(caseless, init[1..]));
    } else {
      assert p[..|p| - 1] == [];
    }
  }

  lemma Regroup(done: Text, x: Byte, rest: Text)
    ensures done + ([x] + rest) == (done + [x]) + rest
  {
  }

  /** The walk of insert from the plane of the folded prefix `done`
      labels every longer prefix of the pattern, ends in the plane of the
      whole folded pattern, and leaves `next` at the plane of the pattern
      without its last byte. */
  lemma {:induction false} WalkLabels(cells: Cells, from: int, next: int, p: Text, caseless: bool,
                                      L: Labels, D: Dict, done: Text, w: Walked) returns (L': Labels)
    requires Trie(cells) && Labelled(cells, L, D, caseless) && done in L && from == L[done]
    requires 0 <= next < |cells|
    requires Walk(cells, from, next, p, caseless) == Some(w)
    ensures Labelled(w.cells, L', D, caseless)
    ensures forall k :: k in L ==> k in L' && L'[k] == L[k]
    ensures done + FoldSeq(caseless, p) in L' && w.from == L'[done + FoldSeq(caseless, p)]
    ensures p == [] ==> w.next == next
    ensures p != [] ==> done + FoldSeq(caseless, p[..|p| - 1]) in L' && w.next == L'[done + FoldSeq(caseless, p[..|p| - 1])]
    decreases |p|
  {
    if p == [] {
      L' := L;
      assert done + FoldSeq(caseless, p) == done;
    } else {
      var pair := CasePair(caseless, p[0]);
      var st := Step(cells, from, pair.0, pair.1).value;
      StepKeepsTrie(cells, from, pair.0, pair.1);
      var L1 := StepLabels(cells, from, p[0], caseless, L, D, done);
      var done1 := done + [Fold(caseless, p[0])];
      WalkByStep(cells, from, next, p, caseless, st.cells, st.from);
      L' := WalkLabels(st.cells, st.from, from, p[1..], caseless, L1, D, done1, w);
      KeysAfterStep(caseless, done, p);
      WalkNextLabel(caseless, done, p, L', from, w.next);
    }
  }

  /** The plane the walk of insert leaves in `next` is the plane of the
      folded pattern without its last byte, told from the walk of the
      rest of the pattern after its first step. */
  lemma WalkNextLabel(caseless: bool, done: Text, p: Text, L': Labels, from: int, next: int)
    requires p != [] && done in L' && from == L'[done]
    requires var done1 := done + [Fold(caseless, p[0])];
      && (|p| == 1 ==> next == from)
      && (|p| > 1 ==> done1 + FoldSeq(caseless, p[1..][..|p[1..]| - 1]) in L'
                      && next == L'[done1 + FoldSeq(caseless, p[1..][..|p[1..]| - 1])])
    ensures done + FoldSeq(caseless, p[..|p| - 1]) in L' && next == L'[done + FoldSeq(caseless, p[..|p| - 1])]
  {
    KeysAfterStep(caseless, done, p);
    if |p| > 1 {
      assert p[1..][..|p[1..]| - 1] == p[1..][..|p| - 2];
    }
  }

  /** A plane whose cells stay, and whose extensions keep their labels
      and identifiers, keeps its meaning. */
  lemma PlaneMeansKept(c1: Cells, c2: Cells, q: int, k: Text, L: Labels, D1: Dict, D2: Dict, caseless: bool)
    requires PlaneMeans(c1, q, k, L, D1, caseless)
    requires 0 <= q < |c1| && q < |c2| && c2[q] == c1[q]
    requires forall x: Byte :: (k + [x] in D2 <==> k + [x] in D1) && (k + [x] in D1 ==> D2[k + [x]] == D1[k + [x]])
    ensures PlaneMeans(c2, q, k, L, D2, caseless)
  {
    forall c: Byte ensures CellOf(c2, q, c) == CellOf(c1, q, c) {
    }
  }

  /** What the stamp that ends insert does to the cells. */
  lemma StampSets(cells: Cells, next: int, u: Byte, caseless: bool, term: int)
    requires Shaped(cells) && 0 <= next < |cells|
    ensures var pair := CasePair(caseless, u);
      var r := Stamp(cells, next, pair, caseless, term);
      && |r| == |cells| && Shaped(r)
      && (forall q :: 0 <= q < |cells| && q != next ==> r[q] == cells[q])
      && (forall c :: 0 <= c < PlaneSize && c != pair.0 as int && c != pair.1 as int ==> r[next][c] == cells[next][c])
      && Tgt(r[next][pair.0 as int]) == Tgt(cells[next][pair.0 as int]) && Str(r[next][pair.0 as int]) == Truncate24(term)
      && Tgt(r[next][pair.1 as int]) == Tgt(cells[next][pair.1 as int]) && Str(r[next][pair.1 as int]) == Truncate24(term)
  {
    var pair := CasePair(caseless, u);
    MarkSets(cells, next, pair.0 as int, term);
    if caseless {
      MarkSets(Mark(cells, next, pair.0 as int, term), next, pair.1 as int, term);
    }
  }

  /** The plane of the pattern without its last byte, after the stamp:
      the cells of the last byte's class now hold the identifier. */
  lemma StampedPlane(cells: Cells, after: Cells, next: int, u: Byte, caseless: bool, id: int,
                     L: Labels, D: Dict, k: Text)
    requires Shaped(cells) && Shaped(after) && 0 <= next < |cells| == |after|
    requires PlaneMeans(cells, next, k, L, D, caseless) && IsI24(id)
    requires forall c :: 0 <= c < PlaneSize && c != CasePair(caseless, u).0 as int && c != CasePair(caseless, u).1 as int ==>
      after[next][c] == cells[next][c]
    requires Tgt(after[next][CasePair(caseless, u).0 as int]) == Tgt(cells[next][CasePair(caseless, u).0 as int])
    requires Tgt(after[next][CasePair(caseless, u).1 as int]) == Tgt(cells[next][CasePair(caseless, u).1 as int])
    requires Str(after[next][CasePair(caseless, u).0 as int]) == id && Str(after[next][CasePair(caseless, u).1 as int]) == id
    ensures PlaneMeans(after, next, k, L, D[k + [Fold(caseless, u)] := id], caseless)
  {
    var pair := CasePair(caseless, u);
    forall c: Byte
      ensures Tgt(CellOf(after, next, c)) == (if k + [Fold(caseless, c)] in L then L[k + [Fold(caseless, c)]] else 0)
      ensures Str(CellOf(after, next, c)) == (if k + [Fold(caseless, c)] in D[k + [Fold(caseless, u)] := id]
                                                 then D[k + [Fold(caseless, u)] := id][k + [Fold(caseless, c)]] else 0)
    {
      assert CellOf(cells, next, c) == cells[next][c as int];
      if Fold(caseless, c) == Fold(caseless, u) {
        assert c == pair.0 || c == pair.1;
      } else {
        assert (k + [Fold(caseless, c)])[|k|] != (k + [Fold(caseless, u)])[|k|];
      }
    }
  }

  /** The stamp gives the pattern's folded key the identifier, and keeps
      the labelling. */
  lemma StampLabels(cells: Cells, next: int, u: Byte, caseless: bool, id: int, L: Labels, D: Dict, k: Text)
    requires Trie(cells) && Labelled(cells, L, D, caseless)
    requires k in L && next == L[k] && k + [Fold(caseless, u)] in L
    requires id != 0 && IsI24(id)
    ensures Labelled(Stamp(cells, next, CasePair(caseless, u), caseless, id), L, D[k + [Fold(caseless, u)] := id], caseless)
  {
    var key := k + [Fold(caseless, u)];
    var D' := D[key := id];
    var r := Stamp(cells, next, CasePair(caseless, u), caseless, id);
    StampSets(cells, next, u, caseless, id);
    forall k2 | k2 in L ensures PlaneMeans(r, L[k2], k2, L, D', caseless) {
      assert PlaneMeans(cells, L[k2], k2, L, D, caseless);
      if k2 == k {
        StampedPlane(cells, r, next, u, caseless, id, L, D, k);
      } else {
        assert L[k2] != next;
        forall x: Byte ensures k2 + [x] != key {
          assert (k2 + [x])[..|k2|] == k2 && key[..|k|] == k;
        }
        PlaneMeansKept(cells, r, L[k2], k2, L, D, D', caseless);
      }
    }
    LabelledIntro(r, L, D', caseless);
  }

  //----------------------------------------------------------------------------
  // Insert and the sequence of inserts

  /** Every byte a pattern can start with is in the first-byte list. */
  ghost predicate FirstsCover(firsts: Text, D: Dict, caseless: bool)
  {
    forall k, c: Byte :: k in D && k != [] && k[0] == Fold(caseless, c) ==> c in firsts
  }

  /** Every terminal is zero or one of the identifiers `ids`. */
  ghost predicate TerminalsIn(cells: Cells, ids: set<int>)
  {
    forall q, c :: 0 <= q < |cells| && 0 <= c < PlaneSize ==> Str(At(cells, q, c)) == 0 || Str(At(cells, q, c)) in ids
  }

  lemma FoldSeqSnoc(caseless: bool, p: Text)
    requires p != []
    ensures FoldSeq(caseless, p) == FoldSeq(caseless, p[..|p| - 1]) + [Fold(caseless, p[|p| - 1])]
  {
  }

  /** One insert (direct scheme) labels the pattern's folded key with its
      identifier, overwriting the identifier of an earlier pattern with the
      same key, and records its first byte(s). */
  lemma InsertLabels(a: Automaton, p: Text, id: int, caseless: bool, L: Labels, D: Dict) returns (L': Labels)
    requires WellFormed(a, Direct) && Labelled(a.cells, L, D, caseless) && FirstsCover(a.firsts, D, caseless)
    requires id != 0 && IsI24(id)
    requires Insert(a, p, id, 0, caseless, Direct).Some?
    ensures var r := Insert(a, p, id, 0, caseless, Direct).value;
      && Labelled(r.cells, L', D[FoldSeq(caseless, p) := id], caseless)
      && FirstsCover(r.firsts, D[FoldSeq(caseless, p) := id], caseless)
  {
    InsertByWalk(a, p, id, 0, caseless, Direct);
    var w := Walk(a.cells, Root, Root, p, caseless).value;
    WalkKeepsTrie(a.cells, Root, Root, p, caseless);
    L' := WalkLabels(a.cells, Root, Root, p, caseless, L, D, [], Walk(a.cells, Root, Root, p, caseless).value);
    var k := FoldSeq(caseless, p[..|p| - 1]);
    FoldSeqSnoc(caseless, p);
    assert [] + FoldSeq(caseless, p) == k + [Fold(caseless, p[|p| - 1])];
    assert [] + k == k;
    StampLabels(w.cells, w.next, p[|p| - 1], caseless, id, L', D, k);
    var r := Insert(a, p, id, 0, caseless, Direct).value;
    var D' := D[FoldSeq(caseless, p) := id];
    forall k2, c: Byte | k2 in D' && k2 != [] && k2[0] == Fold(caseless, c) ensures c in r.firsts {
      if k2 == FoldSeq(caseless, p) {
        assert c in FirstBytes(caseless, p[0]);
      }
    }
  }

  /** One insert leaves every terminal zero or an identifier inserted. */
  lemma InsertTerminals(a: Automaton, p: Text, id: int, caseless: bool, ids: set<int>)
    requires WellFormed(a, Direct) && TerminalsIn(a.cells, ids) && IsI24(id)
    requires Insert(a, p, id, 0, caseless, Direct).Some?
    ensures TerminalsIn(Insert(a, p, id, 0, caseless, Direct).value.cells, ids + {id})
  {
    InsertByWalk(a, p, id, 0, caseless, Direct);
    var w := Walk(a.cells, Root, Root, p, caseless).value;
    WalkKeepsTerminals(a.cells, Root, Root, p, caseless);
    WalkKeepsTrie(a.cells, Root, Root, p, caseless);
    StampKeepsTrie(w.cells, w.next, CasePair(caseless, p[|p| - 1]), caseless, id);
    var r := Insert(a, p, id, 0, caseless, Direct).value;
    forall q, c | 0 <= q < |r.cells| && 0 <= c < PlaneSize
      ensures Str(At(r.cells, q, c)) == 0 || Str(At(r.cells, q, c)) in ids + {id}
    {
      if q < |a.cells| {
        assert Str(At(a.cells, q, c)) == Str(a.cells[q][c]);
      }
    }
  }

  datatype Entry = Entry(pattern: Text, id: int)

  /** The three invariants of the inserts, kept by one more. */
  lemma InsertKeeps(a: Automaton, e: Entry, caseless: bool, L: Labels, D: Dict, ids: set<int>) returns (L': Labels)
    requires WellFormed(a, Direct) && Labelled(a.cells, L, D, caseless) && FirstsCover(a.firsts, D, caseless)
    requires TerminalsIn(a.cells, ids)
    requires e.id != 0 && IsI24(e.id)
    requires Insert(a, e.pattern, e.id, 0, caseless, Direct).Some?
    ensures var r := Insert(a, e.pattern, e.id, 0, caseless, Direct).value;
      && Labelled(r.cells, L', D[FoldSeq(caseless, e.pattern) := e.id], caseless)
      && FirstsCover(r.firsts, D[FoldSeq(caseless, e.pattern) := e.id], caseless)
      && TerminalsIn(r.cells, ids + {e.id})
  {
    L' := InsertLabels(a, e.pattern, e.id, caseless, L, D);
    InsertTerminals(a, e.pattern, e.id, caseless, ids);
  }

  /** The tables after inserting the entries in turn, from fresh tables,
      in the direct scheme and one case mode; `None` once an insert fails. */
  function Build(entries: seq<Entry>, caseless: bool): (r: Option<Automaton>)
    ensures r.Some? ==> WellFormed(r.value, Direct)
    decreases |entries|
  {
    if entries == [] then Some(Fresh())
    else
      match Build(entries[..|entries| - 1], caseless)
      case None => None
      case Some(a) =>
        var e := entries[|entries| - 1];
        InsertKeepsWellFormed(a, e.pattern, e.id, 0, caseless, Direct);
        Insert(a, e.pattern, e.id, 0, caseless, Direct)
  }

  /** The identifier each folded pattern ends up with: the last one given
      for that key, since a later insert overwrites the cell. */
  function Final(entries: seq<Entry>, caseless: bool): (r: Dict)
    ensures forall i :: 0 <= i < |entries| ==> FoldSeq(caseless, entries[i].pattern) in r
    ensures forall k :: k in r ==> r[k] in Ids(entries)
    decreases |entries|
  {
    if entries == [] then map[]
    else
      var e := entries[|entries| - 1];
      Final(entries[..|entries| - 1], caseless)[FoldSeq(caseless, e.pattern) := e.id]
  }

  /** The identifiers of the entries. */
  function Ids(entries: seq<Entry>): set<int>
    decreases |entries|
  {
    if entries == [] then {} else Ids(entries[..|entries| - 1]) + {entries[|entries| - 1].id}
  }

  ghost predicate IdsFit(entries: seq<Entry>)
  {
    forall e :: e in entries ==> e.id != 0 && IsI24(e.id)
  }

  /** The invariant the inserts build up. */
  lemma {:induction false} BuildLabels(entries: seq<Entry>, caseless: bool) returns (L: Labels)
    requires IdsFit(entries) && Build(entries, caseless).Some?
    ensures var a := Build(entries, caseless).value;
      && Labelled(a.cells, L, Final(entries, caseless), caseless)
      && FirstsCover(a.firsts, Final(entries, caseless), caseless)
      && TerminalsIn(a.cells, Ids(entries))
    decreases |entries|
  {
    if entries == [] {
      FreshLabelled(caseless);
      L := map[[] := Root];
    } else {
      var init := entries[..|entries| - 1];
      var e := entries[|entries| - 1];
      assert forall x :: x in init ==> x in entries;
      var L0 := BuildLabels(init, caseless);
      var a := Build(init, caseless).value;
      assert Build(entries, caseless) == Insert(a, e.pattern, e.id, 0, caseless, Direct);
      assert Final(entries, caseless) == Final(init, caseless)[FoldSeq(caseless, e.pattern) := e.id];
      assert Ids(entries) == Ids(init) + {e.id};
      L := InsertKeeps(a, e, caseless, L0, Final(init, caseless), Ids(init));
    }
  }

  //----------------------------------------------------------------------------
  // What follow meets

  /** The identifiers of the patterns that start at byte `b` of the buffer
      and end after byte `j`. */
  ghost function EndingAfter(D: Dict, caseless: bool, buf: Text, b: int, j: int): set<int>
    requires 0 <= b <= j <= |buf|
    decreases |buf| - j
  {
    if j == |buf| then {}
    else
      var k := FoldSeq(caseless, buf[b..j + 1]);
      (if k in D then {D[k]} else {}) + EndingAfter(D, caseless, buf, b, j + 1)
  }

  /** The identifiers of the patterns that start at byte `k` or later. */
  ghost function StartingFrom(D: Dict, caseless: bool, buf: Text, k: int): set<int>
    requires 0 <= k <= |buf|
    decreases |buf| - k
  {
    if k == |buf| then {} else EndingAfter(D, caseless, buf, k, k) + StartingFrom(D, caseless, buf, k + 1)
  }

  /** No pattern ends after `j` when none of the spans that could be one
      is a pattern. */
  lemma {:induction false} EndingAfterNone(D: Dict, caseless: bool, buf: Text, b: int, j: int)
    requires 0 <= b <= j <= |buf|
    requires forall e :: j < e <= |buf| ==> FoldSeq(caseless, buf[b..e]) !in D
    ensures EndingAfter(D, caseless, buf, b, j) == {}
    decreases |buf| - j
  {
    if j < |buf| {
      EndingAfterNone(D, caseless, buf, b, j + 1);
    }
  }

  /** Once the walk leaves the labelled prefixes no pattern can follow. */
  lemma NothingBeyond(L: Labels, D: Dict, caseless: bool, buf: Text, b: int, j: int)
    requires 0 <= b <= j <= |buf|
    requires forall k, n :: k in L && 0 <= n <= |k| ==> k[..n] in L
    requires forall k :: k in D ==> k in L
    requires FoldSeq(caseless, buf[b..j]) !in L
    ensures EndingAfter(D, caseless, buf, b, j) == {}
  {
    forall e | j < e <= |buf| ensures FoldSeq(caseless, buf[b..e]) !in D {
      assert FoldSeq(caseless, buf[b..e])[..j - b] == FoldSeq(caseless, buf[b..j]);
    }
    EndingAfterNone(D, caseless, buf, b, j);
  }

  /** No pattern starts at a byte outside the first-byte list. */
  lemma NoStart(D: Dict, caseless: bool, buf: Text, firsts: Text, i: int)
    requires 0 <= i < |buf| && buf[i] !in firsts && FirstsCover(firsts, D, caseless)
    ensures EndingAfter(D, caseless, buf, i, i) == {}
  {
    forall e | i < e <= |buf| ensures FoldSeq(caseless, buf[i..e]) !in D {
      assert FoldSeq(caseless, buf[i..e])[0] == Fold(caseless, buf[i]);
    }
    EndingAfterNone(D, caseless, buf, i, i);
  }

  /** The cell of byte `c` in the plane of a key leads to the plane of the
      key extended by `c` folded, and holds that extension's identifier. */
  lemma PlaneStep(a: Automaton, L: Labels, D: Dict, caseless: bool, k: Text, c: Byte)
    requires Labelled(a.cells, L, D, caseless) && k in L
    ensures var k1 := k + [Fold(caseless, c)];
      && Tgt(Cell(a, L[k], c as int)) == (if k1 in L then L[k1] else 0)
      && Elems(Terminal(a, Direct, L[k], c as int)) == (if k1 in D then {D[k1]} else {})
  {
    assert PlaneMeans(a.cells, L[k], k, L, D, caseless);
    assert Cell(a, L[k], c as int) == CellOf(a.cells, L[k], c);
  }

  /** The inner loop from an anchor meets exactly the patterns starting
      there. */
  lemma {:induction false} WalkMetFinds(a: Automaton, buf: Text, b: int, j: int, L: Labels, D: Dict, caseless: bool)
    requires Labelled(a.cells, L, D, caseless) && 0 <= b <= j <= |buf|
    requires FoldSeq(caseless, buf[b..j]) in L
    ensures WalkMet(a, Direct, buf, j, L[FoldSeq(caseless, buf[b..j])]) == EndingAfter(D, caseless, buf, b, j)
    decreases |buf| - j
  {
    if j < |buf| {
      var k := FoldSeq(caseless, buf[b..j]);
      var c := buf[j];
      var k1 := FoldSeq(caseless, buf[b..j + 1]);
      FoldSeqSlice(caseless, buf, b, j);
      assert k1 == k + [Fold(caseless, c)];
      PlaneStep(a, L, D, caseless, k, c);
      if k1 in L {
        WalkMetFinds(a, buf, b, j + 1, L, D, caseless);
      } else {
        NothingBeyond(L, D, caseless, buf, b, j + 1);
      }
    }
  }

  /** Skipping bytes outside the first-byte list skips no pattern. */
  lemma {:induction false} SkipNoStarts(D: Dict, caseless: bool, buf: Text, firsts: Text, k: int, b: int)
    requires 0 <= k <= b <= |buf| && FirstsCover(firsts, D, caseless)
    requires forall i :: k <= i < b ==> buf[i] !in firsts
    ensures StartingFrom(D, caseless, buf, k) == StartingFrom(D, caseless, buf, b)
    decreases b - k
  {
    if k < b {
      NoStart(D, caseless, buf, firsts, k);
      SkipNoStarts(D, caseless, buf, firsts, k + 1, b);
    }
  }

  /** Both loops of follow, run to the end, meet exactly the patterns that
      start at byte `k` or later. */
  lemma {:induction false} StreamMetFinds(a: Automaton, buf: Text, k: int, L: Labels, D: Dict, caseless: bool)
    requires Labelled(a.cells, L, D, caseless) && FirstsCover(a.firsts, D, caseless) && 0 <= k <= |buf|
    ensures StreamMet(a, Direct, buf, k) == StartingFrom(D, caseless, buf, k)
    decreases |buf| - k
  {
    var b := FirstOf(buf, k, a.firsts);
    FirstOfFinds(buf, k, a.firsts);
    SkipNoStarts(D, caseless, buf, a.firsts, k, b);
    if b < |buf| {
      assert FoldSeq(caseless, buf[b..b]) == [];
      WalkMetFinds(a, buf, b, b, L, D, caseless);
      StreamMetFinds(a, buf, b + 1, L, D, caseless);
    }
  }

  //----------------------------------------------------------------------------
  // The verdict

  /** The folded `key` occurs somewhere in the buffer, up to case when
      matching is caseless. */
  ghost predicate Occurs(caseless: bool, buf: Text, key: Text)
  {
    exists b, e :: 0 <= b <= e <= |buf| && FoldSeq(caseless, buf[b..e]) == key
  }

  /** The identifiers of the patterns that occur in the buffer. */
  ghost function Met(D: Dict, caseless: bool, buf: Text): set<int>
  {
    set key | key in D && Occurs(caseless, buf, key) :: D[key]
  }

  /** The verdict the search is meant to give: rejected when some reject
      pattern occurs; otherwise reported when, for every accept identifier
      1 .. acceptSize - 1, some pattern with that identifier occurs. */
  ghost function Expected(D: Dict, caseless: bool, buf: Text, acceptSize: int): (r: Verdict)
    ensures r == Rejected <==> exists key :: key in D && D[key] < 0 && Occurs(caseless, buf, key)
    ensures acceptSize <= 1 ==> (r == Reported <==> r != Rejected)
  {
    if exists key :: key in D && D[key] < 0 && Occurs(caseless, buf, key) then Rejected
    else if forall x :: 1 <= x < acceptSize ==> x in Met(D, caseless, buf) then Reported
    else NotReported
  }

  lemma {:induction false} EndingAfterFinds(D: Dict, caseless: bool, buf: Text, b: int, j: int, e: int)
    requires 0 <= b <= j < e <= |buf| && FoldSeq(caseless, buf[b..e]) in D
    ensures D[FoldSeq(caseless, buf[b..e])] in EndingAfter(D, caseless, buf, b, j)
    decreases e - j
  {
    if j + 1 < e {
      EndingAfterFinds(D, caseless, buf, b, j + 1, e);
    }
  }

  lemma {:induction false} EndingAfterOnly(D: Dict, caseless: bool, buf: Text, b: int, j: int, x: int) returns (e: int)
    requires 0 <= b <= j <= |buf| && x in EndingAfter(D, caseless, buf, b, j)
    ensures j < e <= |buf| && FoldSeq(caseless, buf[b..e]) in D && D[FoldSeq(caseless, buf[b..e])] == x
    decreases |buf| - j
  {
    var k := FoldSeq(caseless, buf[b..j + 1]);
    if k in D && D[k] == x {
      e := j + 1;
    } else {
      e := EndingAfterOnly(D, caseless, buf, b, j + 1, x);
    }
  }

  lemma {:induction false} StartingFromFinds(D: Dict, caseless: bool, buf: Text, k: int, b: int, e: int)
    requires 0 <= k <= b < e <= |buf| && FoldSeq(caseless, buf[b..e]) in D
    ensures D[FoldSeq(caseless, buf[b..e])] in StartingFrom(D, caseless, buf, k)
    decreases b - k
  {
    if k < b {
      StartingFromFinds(D, caseless, buf, k + 1, b, e);
    } else {
      EndingAfterFinds(D, caseless, buf, b, b, e);
    }
  }

  lemma {:induction false} StartingFromOnly(D: Dict, caseless: bool, buf: Text, k: int, x: int) returns (b: int, e: int)
    requires 0 <= k <= |buf| && x in StartingFrom(D, caseless, buf, k)
    ensures k <= b < e <= |buf| && FoldSeq(caseless, buf[b..e]) in D && D[FoldSeq(caseless, buf[b..e])] == x
    decreases |buf| - k
  {
    if x in EndingAfter(D, caseless, buf, k, k) {
      b := k;
      e := EndingAfterOnly(D, caseless, buf, k, k, x);
    } else {
      b, e := StartingFromOnly(D, caseless, buf, k + 1, x);
    }
  }

  /** The patterns met from the start of the buffer are the patterns that
      occur in it. */
  lemma StartingFromIsMet(D: Dict, caseless: bool, buf: Text)
    requires forall k :: k in D ==> k != []
    ensures StartingFrom(D, caseless, buf, 0) == Met(D, caseless, buf)
  {
    forall x | x in StartingFrom(D, caseless, buf, 0) ensures x in Met(D, caseless, buf) {
      var b, e := StartingFromOnly(D, caseless, buf, 0, x);
      var key := FoldSeq(caseless, buf[b..e]);
      assert Occurs(caseless, buf, key);
    }
    forall x | x in Met(D, caseless, buf) ensures x in StartingFrom(D, caseless, buf, 0) {
      var key :| key in D && Occurs(caseless, buf, key) && D[key] == x;
      var b, e :| 0 <= b <= e <= |buf| && FoldSeq(caseless, buf[b..e]) == key;
      StartingFromFinds(D, caseless, buf, 0, b, e);
    }
  }

  lemma {:induction false} FinalWithin(entries: seq<Entry>, caseless: bool, lo: int, hi: int)
    requires forall e :: e in entries ==> lo <= e.id < hi
    ensures forall key :: key in Final(entries, caseless) ==> lo <= Final(entries, caseless)[key] < hi
    decreases |entries|
  {
    if entries != [] {
      var init := entries[..|entries| - 1];
      assert forall e :: e in init ==> e in entries;
      FinalWithin(init, caseless, lo, hi);
    }
  }

  lemma {:induction false} IdsWithin(entries: seq<Entry>, lo: int, hi: int)
    requires forall e :: e in entries ==> lo <= e.id < hi
    ensures forall x :: x in Ids(entries) ==> lo <= x < hi
    decreases |entries|
  {
    if entries != [] {
      var init := entries[..|entries| - 1];
      assert forall e :: e in init ==> e in entries;
      IdsWithin(init, lo, hi);
    }
  }

  /** With every terminal an accept identifier, the early exit may be
      taken. */
  lemma WithinFromIn(a: Automaton, ids: set<int>, lo: int, hi: int)
    requires Shaped(a.cells) && TerminalsIn(a.cells, ids) && forall x :: x in ids ==> lo <= x < hi
    ensures TerminalsWithin(a, Direct, lo, hi)
  {
    forall q, c | Str(Cell(a, q, c)) != 0 ensures lo <= Str(Cell(a, q, c)) < hi {
      if 0 <= q < |a.cells| && 0 <= c < |a.cells[q]| {
        assert Cell(a, q, c) == At(a.cells, q, c);
        assert Str(At(a.cells, q, c)) in ids;
      }
    }
  }

  /** The report condition read on the identifiers met: with none of them
      zero and every one below `acceptSize`, `|{0} + accepted| ==
      acceptSize` says that every accept identifier was met. */
  lemma ReportCondition(m: set<int>, acceptSize: int)
    requires acceptSize >= 1 && forall x :: x in m ==> x != 0 && x < acceptSize
    ensures Zeros(m) == {}
    ensures |{0} + Pos(m)| == acceptSize <==> forall x :: 1 <= x < acceptSize ==> x in m
  {
    var all := Below(acceptSize);
    var got := {0} + Pos(m);
    assert got <= all;
    SubsetSize(got, all);
    if forall x :: 1 <= x < acceptSize ==> x in m {
      assert all <= got;
      SubsetSize(all, got);
    }
    if |got| == acceptSize {
      assert got == all;
      forall x | 1 <= x < acceptSize ensures x in m {
        assert x in all;
      }
    }
  }

  /** The verdict of follow read on the identifiers its loops meet, when
      none is zero and all are below `acceptSize`. */
  lemma VerdictOnMet(a: Automaton, buf: Text, noreject: bool, acceptSize: int)
    requires acceptSize >= 1
    requires forall x :: x in StreamMet(a, Direct, buf, 0) ==> x != 0 && x < acceptSize
    requires noreject ==> TerminalsWithin(a, Direct, 1, acceptSize)
    ensures var m := StreamMet(a, Direct, buf, 0);
      Follow(a, Direct, buf, noreject, acceptSize)
      == if HasNegative(m) then Rejected
         else if forall x :: 1 <= x < acceptSize ==> x in m then Reported
         else NotReported
  {
    ReportCondition(StreamMet(a, Direct, buf, 0), acceptSize);
    FollowWithoutEarlyExit(a, Direct, buf, acceptSize);
    if noreject {
      EarlyExitKeepsVerdict(a, Direct, buf, acceptSize);
    }
  }

  /** The expected verdict read on the identifiers of the patterns that
      occur: rejection is a negative one among them. */
  lemma ExpectedOnMet(D: Dict, caseless: bool, buf: Text, acceptSize: int)
    ensures var m := Met(D, caseless, buf);
      Expected(D, caseless, buf, acceptSize)
      == if HasNegative(m) then Rejected
         else if forall x :: 1 <= x < acceptSize ==> x in m then Reported
         else NotReported
  {
    if HasNegative(Met(D, caseless, buf)) {
      var x :| x in Met(D, caseless, buf) && x < 0;
      var key :| key in D && Occurs(caseless, buf, key) && D[key] == x;
    }
    if exists key :: key in D && D[key] < 0 && Occurs(caseless, buf, key) {
      var key :| key in D && D[key] < 0 && Occurs(caseless, buf, key);
      assert D[key] in Met(D, caseless, buf);
    }
  }

  /** The headline property. After inserting the entries (direct scheme,
      one case mode, every identifier a non-zero 24-bit value below
      `acceptSize`, and only positive ones when there is no reject
      pattern), follow rejects a buffer exactly when a reject pattern
      occurs in it, and otherwise reports it exactly when every accept
      identifier has a pattern that occurs. `Final` holds the identifier
      each folded pattern ends up with: a later pattern with the same
      folded bytes takes the cell over from an earlier one. The first-byte
      list may be any list holding the bytes the inserts recorded, such as
      the sorted and deduplicated one the search runs with. */
  lemma FollowDecides(entries: seq<Entry>, caseless: bool, firsts: Text, buf: Text, noreject: bool, acceptSize: int)
    requires IdsFit(entries) && Build(entries, caseless).Some?
    requires forall c :: c in Build(entries, caseless).value.firsts ==> c in firsts
    requires acceptSize >= 1 && forall e :: e in entries ==> e.id < acceptSize
    requires noreject ==> forall e :: e in entries ==> e.id > 0
    ensures Follow(Build(entries, caseless).value.(firsts := firsts), Direct, buf, noreject, acceptSize)
         == Expected(Final(entries, caseless), caseless, buf, acceptSize)
  {
    var built := Build(entries, caseless).value;
    var a := built.(firsts := firsts);
    var D := Final(entries, caseless);
    var L := BuildLabels(entries, caseless);
    assert FirstsCover(a.firsts, D, caseless);
    StreamMetFinds(a, buf, 0, L, D, caseless);
    StartingFromIsMet(D, caseless, buf);
    var m := StreamMet(a, Direct, buf, 0);
    assert m == Met(D, caseless, buf);
    FinalWithin(entries, caseless, -StrHalf, acceptSize);
    assert forall x :: x in m ==> x != 0 && x < acceptSize;
    if noreject {
      IdsWithin(entries, 1, acceptSize);
      WithinFromIn(a, Ids(entries), 1, acceptSize);
    }
    VerdictOnMet(a, buf, noreject, acceptSize);
    ExpectedOnMet(D, caseless, buf, acceptSize);
  }
}
