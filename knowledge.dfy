/** The agent's logical sentences: a set of board cells together with the
    number of mines among them. */
module Knowledge {

  import opened Minesweeper

  /** A sentence `cells = count`. Equality of two sentences is equality of
      both components, as the source's `__eq__` defines it. */
  datatype Sentence = Sentence(cells: set<Cell>, count: int)
  {
    /** The sentence is true of the mine set `truth`. */
    ghost predicate HoldsFor(truth: set<Cell>) {
      |cells * truth| == count
    }

    /** known_mines(): all cells when there are as many mines as cells (and
        at least one), and no cell otherwise. */
    function KnownMines(): (r: set<Cell>)
      ensures r <= cells
      ensures r != {} ==> r == cells
      ensures r == {} <==> cells == {} || |cells| != count
    {
      if |cells| == count && count != 0 then cells else {}
    }

    /** known_safes(): all cells when the count is zero, and no cell
        otherwise. */
    function KnownSafes(): (r: set<Cell>)
      ensures r <= cells
      ensures r != {} ==> r == cells
      ensures r == {} <==> cells == {} || count != 0
    {
      if count == 0 then cells else {}
    }

    /** mark_mine(cell): a mine leaves the sentence and takes one off the
        count, when it was one of the sentence's cells. */
    function MarkMine(cell: Cell): (r: Sentence)
      ensures cell !in r.cells && r.cells <= cells
      ensures cell in cells ==> r.cells + {cell} == cells && r.count == count - 1
      ensures cell !in cells ==> r == this
    {
      if cell in cells then Sentence(cells - {cell}, count - 1) else this
    }

    /** mark_safe(cell): a safe cell leaves the sentence; the count stays. */
    function MarkSafe(cell: Cell): (r: Sentence)
      ensures cell !in r.cells && r.cells <= cells && r.count == count
      ensures cell in cells ==> r.cells + {cell} == cells
      ensures cell !in cells ==> r == this
    {
      if cell in cells then Sentence(cells - {cell}, count) else this
    }

    /** The sentence after mark_mine of every cell of `cs`, in any order. */
    function MarkMines(cs: set<Cell>): (r: Sentence)
      ensures r.cells !! cs && r.cells <= cells
    {
      Sentence(cells - cs, count - |cells * cs|)
    }

    /** The sentence after mark_safe of every cell of `cs`, in any order. */
    function MarkSafes(cs: set<Cell>): (r: Sentence)
      ensures r.cells !! cs && r.cells <= cells && r.count == count
    {
      Sentence(cells - cs, count)
    }
  }

  /** The sentence with no cells and count zero, which the agent discards. */
  const EmptySentence := Sentence({}, 0)

  /** A sentence claiming mines among no cells: the contradiction on which
      the agent raises ValueError. */
  predicate EmptyPositive(s: Sentence) {
    s.cells == {} && s.count > 0
  }

  /** A sentence from which neither known_mines nor known_safes derives
      anything. */
  predicate Undecided(s: Sentence) {
    s.count != 0 && |s.cells| != s.count
  }

  /** The subset inference: from `s1` and `s2` with `s1.cells` inside
      `s2.cells`, the cells of `s2` outside `s1` hold the difference of their
      counts. */
  function Residual(s1: Sentence, s2: Sentence): (r: Sentence)
    ensures r.cells <= s2.cells && r.cells !! s1.cells
  {
    Sentence(s2.cells - s1.cells, s2.count - s1.count)
  }

  lemma SubsetCardOf(a: set<Cell>, b: set<Cell>)
    requires a <= b
    ensures |b - a| == |b| - |a|
  {
    assert b == a + (b - a);
  }

  /** Some subset of `s` with `k` elements. */
  ghost function Choose(s: set<Cell>, k: nat): (r: set<Cell>)
    requires k <= |s|
    ensures r <= s && |r| == k
    decreases k
  {
    if k == 0 then {} else
      var x :| x in s;
      {x} + Choose(s - {x}, k - 1)
  }

  /** Whatever known_mines returns is a mine in every mine set the sentence
      is true of. */
  lemma KnownMinesSound(s: Sentence, truth: set<Cell>)
    requires s.HoldsFor(truth)
    ensures s.KnownMines() <= truth
  {
    if s.KnownMines() != {} {
      SubsetSameCard(s.cells * truth, s.cells);
    }
  }

  /** Whatever known_safes returns is safe in every mine set the sentence is
      true of. */
  lemma KnownSafesSound(s: Sentence, truth: set<Cell>)
    requires s.HoldsFor(truth)
    ensures s.KnownSafes() !! truth
  {
    if s.KnownSafes() != {} {
      forall c | c in s.cells ensures c !in truth {
        assert c in truth ==> c in s.cells * truth;
      }
    }
  }

  /** known_mines misses no forced mine: a cell of a satisfiable sentence
      that it does not return is safe in some mine set the sentence is true
      of. */
  lemma KnownMinesComplete(s: Sentence, c: Cell)
    requires 0 <= s.count <= |s.cells|
    requires c in s.cells && c !in s.KnownMines()
    ensures exists t :: t <= s.cells && s.HoldsFor(t) && c !in t
  {
    SubsetCardOf({c}, s.cells);
    var t := Choose(s.cells - {c}, s.count);
    assert s.cells * t == t;
    assert s.HoldsFor(t);
  }

  /** known_safes misses no forced safe cell: a cell of a satisfiable
      sentence that it does not return is a mine in some mine set the
      sentence is true of. */
  lemma KnownSafesComplete(s: Sentence, c: Cell)
    requires 0 <= s.count <= |s.cells|
    requires c in s.cells && c !in s.KnownSafes()
    ensures exists t :: t <= s.cells && s.HoldsFor(t) && c in t
  {
    SubsetCardOf({c}, s.cells);
    var t := {c} + Choose(s.cells - {c}, s.count - 1);
    assert s.cells * t == t;
    assert s.HoldsFor(t);
  }

  /** Removing a true mine keeps a sentence true, and a sentence whose
      version without the mine is true was true. */
  lemma MarkMineKeepsTruth(s: Sentence, c: Cell, truth: set<Cell>)
    requires c in truth
    ensures s.MarkMine(c).HoldsFor(truth) <==> s.HoldsFor(truth)
  {
    if c in s.cells {
      assert s.cells * truth == (s.MarkMine(c).cells * truth) + {c};
    }
  }

  /** Removing a truly safe cell keeps a sentence true, and a sentence
      whose version without the cell is true was true. */
  lemma MarkSafeKeepsTruth(s: Sentence, c: Cell, truth: set<Cell>)
    requires c !in truth
    ensures s.MarkSafe(c).HoldsFor(truth) <==> s.HoldsFor(truth)
  {
    assert s.cells * truth == s.MarkSafe(c).cells * truth;
  }

  /** Removing a set of true mines keeps a sentence true, and loses
      nothing. */
  lemma MarkMinesKeepsTruth(s: Sentence, cs: set<Cell>, truth: set<Cell>)
    requires cs <= truth
    ensures s.MarkMines(cs).HoldsFor(truth) <==> s.HoldsFor(truth)
  {
    assert s.cells * truth == (s.MarkMines(cs).cells * truth) + (s.cells * cs);
    assert (s.MarkMines(cs).cells * truth) !! (s.cells * cs);
  }

  /** Removing a set of truly safe cells keeps a sentence true, and loses
      nothing. */
  lemma MarkSafesKeepsTruth(s: Sentence, cs: set<Cell>, truth: set<Cell>)
    requires cs !! truth
    ensures s.MarkSafes(cs).HoldsFor(truth) <==> s.HoldsFor(truth)
  {
    assert s.cells * truth == s.MarkSafes(cs).cells * truth;
  }

  /** Marking one more mine after the mines of `done` is marking the mines of
      `done + {c}`. */
  lemma MarkMinesStep(s: Sentence, done: set<Cell>, c: Cell)
    ensures s.MarkMines(done).MarkMine(c) == s.MarkMines(done + {c})
  {
    if c !in done {
      if c in s.cells {
        assert s.cells * (done + {c}) == (s.cells * done) + {c};
      } else {
        assert s.cells * (done + {c}) == s.cells * done;
      }
    } else {
      assert done + {c} == done;
    }
  }

  /** Marking one more safe cell after those of `done` is marking the cells
      of `done + {c}`. */
  lemma MarkSafesStep(s: Sentence, done: set<Cell>, c: Cell)
    ensures s.MarkSafes(done).MarkSafe(c) == s.MarkSafes(done + {c})
  {
    assert (s.cells - done) - {c} == s.cells - (done + {c});
  }

  /** The subset inference is sound: its conclusion is true wherever both
      premises are. */
  lemma ResidualKeepsTruth(s1: Sentence, s2: Sentence, truth: set<Cell>)
    requires s1.cells <= s2.cells
    requires s1.HoldsFor(truth) && s2.HoldsFor(truth)
    ensures Residual(s1, s2).HoldsFor(truth)
  {
    SubsetCardOf(s1.cells * truth, s2.cells * truth);
    assert Residual(s1, s2).cells * truth == (s2.cells * truth) - (s1.cells * truth);
  }

  /** The sentence that makes the agent raise is true of no mine set. */
  lemma EmptyPositiveNeverHolds(s: Sentence, truth: set<Cell>)
    requires EmptyPositive(s)
    ensures !s.HoldsFor(truth)
  {
    assert s.cells * truth == {};
  }

  /** A sentence other than the empty one is undecided exactly when neither
      known_mines nor known_safes returns a cell. */
  lemma UndecidedIffNoFacts(s: Sentence)
    requires s != EmptySentence
    ensures Undecided(s) <==> s.KnownMines() == {} && s.KnownSafes() == {}
  {
  }
}
