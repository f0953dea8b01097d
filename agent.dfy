/** The Minesweeper player: what it has clicked, the cells it knows to be
    safe or mined, and its knowledge base of sentences, with the inference
    loop that runs after every revealed cell. */
module Agent {

  import opened Wrappers
  import opened Minesweeper
  import opened Knowledge

  /** How add_knowledge ends: its loop settles, it raises ValueError on a
      contradictory sentence, or it stops when the step budget `fuel` runs
      out (the source has no such budget; see README). */
  datatype Status = Settled | Inconsistent | OutOfFuel

  /** Every sentence of `k` is true of the mine set `truth`. */
  ghost predicate AllHold(k: seq<Sentence>, truth: set<Cell>) {
    forall s | s in k :: s.HoldsFor(truth)
  }

  /** The board's report `count` for the clicked cell `cell` is the number of
      mines of `truth` around it, `cell` is no mine, and every mine is on the
      board. */
  ghost predicate Truthful(cell: Cell, count: int, height: int, width: int, truth: set<Cell>) {
    && cell !in truth
    && (forall c | c in truth :: InBounds(c, height, width))
    && count == |Neighbours(cell, height, width) * truth|
  }

  /** The union of known_safes over the sentences of `k`. */
  function AllKnownSafes(k: seq<Sentence>): set<Cell> {
    if k == [] then {} else AllKnownSafes(k[..|k| - 1]) + k[|k| - 1].KnownSafes()
  }

  /** The union of known_mines over the sentences of `k`. */
  function AllKnownMines(k: seq<Sentence>): set<Cell> {
    if k == [] then {} else AllKnownMines(k[..|k| - 1]) + k[|k| - 1].KnownMines()
  }

  /** The union of known_safes holds exactly the cells some sentence
      determines to be safe. */
  lemma {:induction false} AllKnownSafesMembers(k: seq<Sentence>)
    ensures forall c :: c in AllKnownSafes(k) <==> exists i :: 0 <= i < |k| && c in k[i].KnownSafes()
  {
    if k != [] {
      var front := k[..|k| - 1];
      AllKnownSafesMembers(front);
      assert forall i | 0 <= i < |front| :: front[i] == k[i];
    }
  }

  /** The union of known_mines holds exactly the cells some sentence
      determines to be mines. */
  lemma {:induction false} AllKnownMinesMembers(k: seq<Sentence>)
    ensures forall c :: c in AllKnownMines(k) <==> exists i :: 0 <= i < |k| && c in k[i].KnownMines()
  {
    if k != [] {
      var front := k[..|k| - 1];
      AllKnownMinesMembers(front);
      assert forall i | 0 <= i < |front| :: front[i] == k[i];
    }
  }

  /** When the unions are empty, no sentence determines anything. */
  lemma NothingKnown(k: seq<Sentence>)
    requires AllKnownSafes(k) == {} && AllKnownMines(k) == {}
    ensures forall s | s in k :: s.KnownSafes() == {} && s.KnownMines() == {}
  {
    AllKnownSafesMembers(k);
    AllKnownMinesMembers(k);
    forall s | s in k ensures s.KnownSafes() == {} && s.KnownMines() == {} {
      var i :| 0 <= i < |k| && k[i] == s;
      assert forall c | c in s.KnownSafes() :: c in AllKnownSafes(k);
      assert forall c | c in s.KnownMines() :: c in AllKnownMines(k);
    }
  }

  /** The unions over a prefix one sentence longer. */
  lemma AllKnownStep(k: seq<Sentence>, i: nat)
    requires i < |k|
    ensures AllKnownSafes(k[..i + 1]) == AllKnownSafes(k[..i]) + k[i].KnownSafes()
    ensures AllKnownMines(k[..i + 1]) == AllKnownMines(k[..i]) + k[i].KnownMines()
  {
    assert k[..i + 1][..i] == k[..i];
  }

  /** The knowledge base without its empty sentences `set() = 0`, in order. */
  function DropEmpty(k: seq<Sentence>): (r: seq<Sentence>)
    ensures forall s :: s in r <==> s in k && s != EmptySentence
    ensures |r| <= |k|
  {
    if k == [] then []
    else if k[0] == EmptySentence then DropEmpty(k[1..])
    else [k[0]] + DropEmpty(k[1..])
  }

  /** One pair of the subset inference needs nothing more: equal cell sets
      are skipped, and otherwise `s1` is not the contradiction and, when its
      cells lie inside those of `s2`, their residual is already known. */
  predicate PairOk(k: seq<Sentence>, s1: Sentence, s2: Sentence) {
    s1.cells != s2.cells ==>
      !EmptyPositive(s1) && (s1.cells <= s2.cells ==> Residual(s1, s2) in k)
  }

  /** The subset inference adds nothing to `k`. */
  predicate PairClosed(k: seq<Sentence>) {
    forall s1, s2 {:trigger PairOk(k, s1, s2)} | s1 in k && s2 in k :: PairOk(k, s1, s2)
  }

  /** Sentence `n` of `k` is the residual of sentence `a` and an earlier
      sentence whose cells strictly contain those of `a`, and it appears
      nowhere before position `n`: what row `a` of the pair loop appends. */
  predicate RowAppended(k: seq<Sentence>, a: nat, n: nat) {
    && a < n < |k|
    && k[n] !in k[..n]
    && exists b | 0 <= b < n :: k[a].cells < k[b].cells && k[n] == Residual(k[a], k[b])
  }

  /** Sentence `n` of `k` is one the pair loop appends: new, and the
      residual of two sentences before it. */
  predicate Inferred(k: seq<Sentence>, n: nat) {
    exists a | 0 <= a < n :: RowAppended(k, a, n)
  }

  /** Every sentence of `k` from position `from` on was appended by the pair
      loop. */
  predicate InferredFrom(k: seq<Sentence>, from: nat) {
    forall n | from <= n < |k| :: Inferred(k, n)
  }

  /** What a row appended stays so when more sentences follow. */
  lemma RowAppendedGrows(k: seq<Sentence>, k': seq<Sentence>, a: nat, n: nat)
    requires k <= k' && RowAppended(k, a, n)
    ensures RowAppended(k', a, n)
  {
    assert k'[..n] == k[..n];
    var b :| 0 <= b < n && k[a].cells < k[b].cells && k[n] == Residual(k[a], k[b]);
    assert k'[a] == k[a] && k'[b] == k[b] && k'[n] == k[n];
  }

  /** Appending a new residual of sentences `i` and `j` extends what row `i`
      has appended since position `from`. */
  lemma RowAppendResidual(k: seq<Sentence>, i: nat, j: nat, from: nat)
    requires i < |k| && j < |k| && k[i].cells < k[j].cells && Residual(k[i], k[j]) !in k
    requires i < from <= |k|
    requires forall n | from <= n < |k| :: RowAppended(k, i, n)
    ensures forall n | from <= n < |k| + 1 :: RowAppended(k + [Residual(k[i], k[j])], i, n)
  {
    var k' := k + [Residual(k[i], k[j])];
    forall n | from <= n < |k| + 1
      ensures RowAppended(k', i, n)
    {
      if n < |k| {
        RowAppendedGrows(k, k', i, n);
      } else {
        assert k'[..n] == k;
        assert k'[i] == k[i] && k'[j] == k[j];
      }
    }
  }

  /** A row's appends, following sentences the pair loop appended, are
      sentences the pair loop appended. */
  lemma RowExtendsInferred(k0: seq<Sentence>, k: seq<Sentence>, i: nat, from: nat)
    requires k0 <= k && from <= |k0| && i < |k0| && InferredFrom(k0, from)
    requires forall n | |k0| <= n < |k| :: RowAppended(k, i, n)
    ensures InferredFrom(k, from)
  {
    forall n | from <= n < |k|
      ensures Inferred(k, n)
    {
      if n < |k0| {
        assert Inferred(k0, n);
        var a :| 0 <= a < n && RowAppended(k0, a, n);
        RowAppendedGrows(k0, k, a, n);
      } else {
        assert RowAppended(k, i, n);
      }
    }
  }

  /** What one pair needs stays there when more sentences follow. */
  lemma PairOkGrows(k: seq<Sentence>, k': seq<Sentence>, s1: Sentence, s2: Sentence)
    requires k <= k' && PairOk(k, s1, s2)
    ensures PairOk(k', s1, s2)
  {
    if s1.cells != s2.cells && s1.cells <= s2.cells {
      var n :| 0 <= n < |k| && k[n] == Residual(s1, s2);
      assert k'[n] == k[n];
    }
  }

  /** Row `i` of the pair loop is done with the sentences before `j`, and
      sentence `j` needs the residual of row `i`'s sentence: appending it
      leaves row `i` done with every sentence up to `j`. */
  lemma RowClosedAppend(k: seq<Sentence>, i: nat, j: nat)
    requires i < |k| && j < |k| && !EmptyPositive(k[i])
    requires forall b {:trigger PairOk(k, k[i], k[b])} | 0 <= b < j :: PairOk(k, k[i], k[b])
    ensures var k' := k + [Residual(k[i], k[j])];
      forall b {:trigger PairOk(k', k'[i], k'[b])} | 0 <= b <= j :: PairOk(k', k'[i], k'[b])
  {
    var k' := k + [Residual(k[i], k[j])];
    forall b | 0 <= b <= j
      ensures PairOk(k', k'[i], k'[b])
    {
      assert k'[i] == k[i] && k'[b] == k[b];
      if b < j {
        PairOkGrows(k, k', k[i], k[b]);
      } else {
        assert k'[|k|] == Residual(k[i], k[j]);
      }
    }
  }

  /** A row done against every sentence whose own sentence is the
      contradiction `set() = n` with n > 0 meets only sentences without
      cells: any other would have been a pair raising ValueError. */
  lemma RowClosedEmptyPositive(k: seq<Sentence>, i: nat)
    requires i < |k| && EmptyPositive(k[i])
    requires forall b {:trigger PairOk(k, k[i], k[b])} | 0 <= b < |k| :: PairOk(k, k[i], k[b])
    ensures AllCellsEmpty(k)
  {
    forall b | 0 <= b < |k|
      ensures k[b].cells == {}
    {
      assert PairOk(k, k[i], k[b]);
    }
  }

  /** One append of row `i` of the pair loop, against sentence `j`: the
      row's appends stay new residuals of row `i`, the row is done with
      every sentence up to `j`, and the mine sets the knowledge is true of
      stay the same. */
  lemma RowAppendStep(k: seq<Sentence>, i: nat, j: nat, from: nat, truth: set<Cell>)
    requires i < from <= |k| && j < |k| && !EmptyPositive(k[i])
    requires k[i].cells < k[j].cells && Residual(k[i], k[j]) !in k
    requires forall n | from <= n < |k| :: RowAppended(k, i, n)
    requires forall b {:trigger PairOk(k, k[i], k[b])} | 0 <= b < j :: PairOk(k, k[i], k[b])
    ensures var k' := k + [Residual(k[i], k[j])];
      && (forall n | from <= n < |k'| :: RowAppended(k', i, n))
      && (forall b {:trigger PairOk(k', k'[i], k'[b])} | 0 <= b <= j :: PairOk(k', k'[i], k'[b]))
      && (AllHold(k', truth) <==> AllHold(k, truth))
  {
    ResidualKeepsAllHold(k, k[i], k[j], truth);
    RowAppendResidual(k, i, j, from);
    RowClosedAppend(k, i, j);
  }

  /** The first `rows` rows of the pair loop are done: each has nothing
      left to do against the sentences before position `from`, nor against
      any sentence up to its own position. These are the sentences a row
      of the pair loop visits, since the loop also visits what it appends. */
  predicate RowsClosed(k: seq<Sentence>, rows: nat, from: nat) {
    forall a, b {:trigger PairOk(k, k[a], k[b])} |
      0 <= a < rows && a < |k| && 0 <= b < |k| && (b < from || b <= a) :: PairOk(k, k[a], k[b])
  }

  /** A row done against every sentence extends the rows done before it,
      also when that row appended sentences. */
  lemma RowsClosedExtend(k0: seq<Sentence>, k: seq<Sentence>, i: nat, from: nat)
    requires k0 <= k && i < |k0| && from <= |k0| && RowsClosed(k0, i, from)
    requires forall b {:trigger PairOk(k, k[i], k[b])} | 0 <= b < |k| :: PairOk(k, k[i], k[b])
    ensures RowsClosed(k, i + 1, from)
  {
    forall a, b | 0 <= a < i + 1 && a < |k| && 0 <= b < |k| && (b < from || b <= a)
      ensures PairOk(k, k[a], k[b])
    {
      if a < i {
        assert k[a] == k0[a] && k[b] == k0[b];
        assert PairOk(k0, k0[a], k0[b]);
        PairOkGrows(k0, k, k0[a], k0[b]);
      }
    }
  }

  /** When every row is done against every sentence, the subset inference
      adds nothing. */
  lemma RowsClosedPairClosed(k: seq<Sentence>)
    requires RowsClosed(k, |k|, |k|)
    ensures PairClosed(k)
  {
    forall s1, s2 | s1 in k && s2 in k
      ensures PairOk(k, s1, s2)
    {
      var a :| 0 <= a < |k| && k[a] == s1;
      var b :| 0 <= b < |k| && k[b] == s2;
      assert PairOk(k, k[a], k[b]);
    }
  }

  /** Among the sentences of `k` with the cells of sentence `w`, one with
      the largest count. */
  lemma {:induction false} TopCount(k: seq<Sentence>, w: nat) returns (j: nat)
    requires w < |k|
    ensures j < |k| && k[j].cells == k[w].cells
    ensures forall i | 0 <= i < |k| && k[i].cells == k[w].cells :: k[i].count <= k[j].count
    decreases |k|
  {
    var last := |k| - 1;
    var front := k[..last];
    assert forall i | 0 <= i < last :: front[i] == k[i];
    if w < last {
      var j' := TopCount(front, w);
      j := if k[last].cells == k[w].cells && k[last].count > k[j'].count then last else j';
    } else if i :| 0 <= i < last && k[i].cells == k[w].cells {
      var j' := TopCount(front, i);
      j := if k[last].count > k[j'].count then last else j';
    } else {
      j := last;
    }
  }

  /** Knowledge holding the sentence `set() = -1` beside a sentence with
      cells is never closed under the subset inference: the residual of the
      two has the larger sentence's cells and one more mine, so there is
      always a larger count to add. The pair loop then appends forever. */
  lemma NegativeEmptyNeverCloses(k: seq<Sentence>, s: Sentence)
    requires Sentence({}, -1) in k && s in k && s.cells != {}
    ensures !PairClosed(k)
  {
    var w :| 0 <= w < |k| && k[w] == s;
    var j := TopCount(k, w);
    var top, neg := k[j], Sentence({}, -1);
    assert Residual(neg, top) == Sentence(s.cells, top.count + 1);
    assert Sentence(s.cells, top.count + 1) !in k;
    assert !PairOk(k, neg, top);
  }

  /** `c` is an in-bounds neighbour of `cell` neither known safe nor known
      mined. */
  predicate Undetermined(cell: Cell, c: Cell, height: int, width: int, safes: set<Cell>, mines: set<Cell>) {
    WithinOne(cell, c) && c != cell && InBounds(c, height, width) && c !in safes && c !in mines
  }

  /** `c` is a known mine next to `cell` that is not also known safe. */
  predicate MinedNear(cell: Cell, c: Cell, safes: set<Cell>, mines: set<Cell>) {
    WithinOne(cell, c) && c != cell && c !in safes && c in mines
  }

  /** The in-bounds neighbours of `cell` that are neither known safe nor known
      mined: the cells of the sentence add_knowledge builds. */
  function UndeterminedAround(cell: Cell, height: int, width: int, safes: set<Cell>, mines: set<Cell>): (r: set<Cell>)
    ensures forall c :: c in r <==> Undetermined(cell, c, height, width, safes, mines)
  {
    set c | c in Block(cell) && Undetermined(cell, c, height, width, safes, mines)
  }

  /** The known mines next to `cell` that are not also known safe; these are
      taken off the reported count. The scan checks no bounds for them. */
  function MinedAround(cell: Cell, safes: set<Cell>, mines: set<Cell>): (r: set<Cell>)
    ensures forall c :: c in r <==> MinedNear(cell, c, safes, mines)
  {
    set c | c in Block(cell) && MinedNear(cell, c, safes, mines)
  }

  /** The sentence add_knowledge builds for the report `count` on `cell`,
      given the cells already known safe and mined. */
  function ReportSentence(cell: Cell, count: int, height: int, width: int,
                          safes: set<Cell>, mines: set<Cell>): Sentence
  {
    Sentence(UndeterminedAround(cell, height, width, safes, mines), count - |MinedAround(cell, safes, mines)|)
  }

  /** The sentence built from a truthful report is true. */
  lemma NeighbourSentenceHolds(cell: Cell, count: int, height: int, width: int,
                               safes: set<Cell>, mines: set<Cell>, truth: set<Cell>)
    requires mines <= truth && safes !! truth
    requires Truthful(cell, count, height, width, truth)
    ensures ReportSentence(cell, count, height, width, safes, mines).HoldsFor(truth)
  {
    var n := Neighbours(cell, height, width);
    var u := UndeterminedAround(cell, height, width, safes, mines);
    assert MinedAround(cell, safes, mines) == n * mines;
    assert n * truth == (u * truth) + (n * mines);
    assert (u * truth) !! (n * mines);
  }

  /** What known_safes and known_mines derive from true sentences is true. */
  lemma KnownFactsSound(k: seq<Sentence>, truth: set<Cell>)
    requires AllHold(k, truth)
    ensures AllKnownSafes(k) !! truth && AllKnownMines(k) <= truth
  {
    AllKnownSafesMembers(k);
    AllKnownMinesMembers(k);
    forall c | c in AllKnownSafes(k) ensures c !in truth {
      var i :| 0 <= i < |k| && c in k[i].KnownSafes();
      KnownSafesSound(k[i], truth);
    }
    forall c | c in AllKnownMines(k) ensures c in truth {
      var i :| 0 <= i < |k| && c in k[i].KnownMines();
      KnownMinesSound(k[i], truth);
    }
  }

  /** Every sentence of `k` after marking the safe cells `cs`. */
  function MarkSafesAll(k: seq<Sentence>, cs: set<Cell>): (r: seq<Sentence>)
    ensures |r| == |k|
  {
    if k == [] then [] else [k[0].MarkSafes(cs)] + MarkSafesAll(k[1..], cs)
  }

  /** Every sentence of `k` after marking the mines `cs`. */
  function MarkMinesAll(k: seq<Sentence>, cs: set<Cell>): (r: seq<Sentence>)
    ensures |r| == |k|
  {
    if k == [] then [] else [k[0].MarkMines(cs)] + MarkMinesAll(k[1..], cs)
  }

  /** MarkSafesAll marks each sentence in place. */
  lemma {:induction false} MarkSafesAllAt(k: seq<Sentence>, cs: set<Cell>, i: nat)
    requires i < |k|
    ensures MarkSafesAll(k, cs)[i] == k[i].MarkSafes(cs)
  {
    if i > 0 {
      MarkSafesAllAt(k[1..], cs, i - 1);
    }
  }

  /** MarkMinesAll marks each sentence in place. */
  lemma {:induction false} MarkMinesAllAt(k: seq<Sentence>, cs: set<Cell>, i: nat)
    requires i < |k|
    ensures MarkMinesAll(k, cs)[i] == k[i].MarkMines(cs)
  {
    if i > 0 {
      MarkMinesAllAt(k[1..], cs, i - 1);
    }
  }

  /** Marking no safe cell changes nothing. */
  lemma MarkSafesAllNothing(k: seq<Sentence>)
    ensures MarkSafesAll(k, {}) == k
  {
    forall i | 0 <= i < |k| ensures MarkSafesAll(k, {})[i] == k[i] {
      MarkSafesAllAt(k, {}, i);
      assert k[i].cells - {} == k[i].cells;
    }
  }

  /** Marking no mine changes nothing. */
  lemma MarkMinesAllNothing(k: seq<Sentence>)
    ensures MarkMinesAll(k, {}) == k
  {
    forall i | 0 <= i < |k| ensures MarkMinesAll(k, {})[i] == k[i] {
      MarkMinesAllAt(k, {}, i);
      assert k[i].cells - {} == k[i].cells && k[i].cells * {} == {};
    }
  }

  /** mark_safe of one more cell in every sentence extends MarkSafesAll. */
  lemma MarkSafesAllStep(k: seq<Sentence>, done: set<Cell>, c: Cell, after: seq<Sentence>)
    requires |after| == |k|
    requires forall i | 0 <= i < |after| :: after[i] == MarkSafesAll(k, done)[i].MarkSafe(c)
    ensures after == MarkSafesAll(k, done + {c})
  {
    forall i | 0 <= i < |k| ensures after[i] == MarkSafesAll(k, done + {c})[i] {
      MarkSafesAllAt(k, done, i);
      MarkSafesAllAt(k, done + {c}, i);
      MarkSafesStep(k[i], done, c);
    }
  }

  /** mark_mine of one more cell in every sentence extends MarkMinesAll. */
  lemma MarkMinesAllStep(k: seq<Sentence>, done: set<Cell>, c: Cell, after: seq<Sentence>)
    requires |after| == |k|
    requires forall i | 0 <= i < |after| :: after[i] == MarkMinesAll(k, done)[i].MarkMine(c)
    ensures after == MarkMinesAll(k, done + {c})
  {
    forall i | 0 <= i < |k| ensures after[i] == MarkMinesAll(k, done + {c})[i] {
      MarkMinesAllAt(k, done, i);
      MarkMinesAllAt(k, done + {c}, i);
      MarkMinesStep(k[i], done, c);
    }
  }

  /** Moving `c` from `todo` to `done` keeps the two a partition of their
      union, and shrinks `todo`. */
  lemma TodoStep(cs: set<Cell>, done: set<Cell>, todo: set<Cell>, c: Cell, base: set<Cell>)
    requires done !! todo && done + todo == cs && c in todo
    ensures (done + {c}) !! (todo - {c}) && (done + {c}) + (todo - {c}) == cs
    ensures |todo - {c}| < |todo|
    ensures (base + done) + {c} == base + (done + {c})
  {
  }

  /** No sentence of `k` mentions a cell of `safes` or `mines`. */
  predicate SeparatedFrom(k: seq<Sentence>, safes: set<Cell>, mines: set<Cell>) {
    forall s | s in k :: s.cells !! safes && s.cells !! mines
  }

  /** After marking the safe cells `cs` no sentence mentions them. */
  lemma MarkSafesAllSeparates(k: seq<Sentence>, cs: set<Cell>, safes: set<Cell>, mines: set<Cell>)
    requires SeparatedFrom(k, safes, mines)
    ensures SeparatedFrom(MarkSafesAll(k, cs), safes + cs, mines)
  {
    forall s | s in MarkSafesAll(k, cs) ensures s.cells !! (safes + cs) && s.cells !! mines {
      var i :| 0 <= i < |k| && MarkSafesAll(k, cs)[i] == s;
      MarkSafesAllAt(k, cs, i);
      assert k[i] in k;
    }
  }

  /** After marking the mines `cs` no sentence mentions them. */
  lemma MarkMinesAllSeparates(k: seq<Sentence>, cs: set<Cell>, safes: set<Cell>, mines: set<Cell>)
    requires SeparatedFrom(k, safes, mines)
    ensures SeparatedFrom(MarkMinesAll(k, cs), safes, mines + cs)
  {
    forall s | s in MarkMinesAll(k, cs) ensures s.cells !! safes && s.cells !! (mines + cs) {
      var i :| 0 <= i < |k| && MarkMinesAll(k, cs)[i] == s;
      MarkMinesAllAt(k, cs, i);
      assert k[i] in k;
    }
  }

  /** Marking truly safe cells in every sentence keeps the base true, and
      loses nothing of it. */
  lemma MarkSafesKeepAllHold(k: seq<Sentence>, cs: set<Cell>, truth: set<Cell>)
    requires cs !! truth
    ensures AllHold(MarkSafesAll(k, cs), truth) <==> AllHold(k, truth)
  {
    var r := MarkSafesAll(k, cs);
    forall i | 0 <= i < |k| ensures r[i].HoldsFor(truth) <==> k[i].HoldsFor(truth) {
      MarkSafesAllAt(k, cs, i);
      MarkSafesKeepsTruth(k[i], cs, truth);
    }
    if AllHold(r, truth) {
      forall s | s in k ensures s.HoldsFor(truth) {
        var i :| 0 <= i < |k| && k[i] == s;
        assert r[i] in r;
      }
    }
  }

  /** Marking true mines in every sentence keeps the base true, and loses
      nothing of it. */
  lemma MarkMinesKeepAllHold(k: seq<Sentence>, cs: set<Cell>, truth: set<Cell>)
    requires cs <= truth
    ensures AllHold(MarkMinesAll(k, cs), truth) <==> AllHold(k, truth)
  {
    var r := MarkMinesAll(k, cs);
    forall i | 0 <= i < |k| ensures r[i].HoldsFor(truth) <==> k[i].HoldsFor(truth) {
      MarkMinesAllAt(k, cs, i);
      MarkMinesKeepsTruth(k[i], cs, truth);
    }
    if AllHold(r, truth) {
      forall s | s in k ensures s.HoldsFor(truth) {
        var i :| 0 <= i < |k| && k[i] == s;
        assert r[i] in r;
      }
    }
  }

  /** Marking one truly safe cell in every sentence keeps the base true, and
      loses nothing of it. */
  lemma MarkSafeKeepAllHold(before: seq<Sentence>, after: seq<Sentence>, c: Cell, truth: set<Cell>)
    requires |after| == |before|
    requires forall i | 0 <= i < |after| :: after[i] == before[i].MarkSafe(c)
    requires c !in truth
    ensures AllHold(after, truth) <==> AllHold(before, truth)
  {
    forall i | 0 <= i < |after| ensures after[i].HoldsFor(truth) <==> before[i].HoldsFor(truth) {
      MarkSafeKeepsTruth(before[i], c, truth);
    }
    if AllHold(after, truth) {
      forall s | s in before ensures s.HoldsFor(truth) {
        var i :| 0 <= i < |before| && before[i] == s;
        assert after[i] in after;
      }
    }
  }

  /** The knowledge base after marking everything it determines: the safe
      cells known_safes finds, then the mines known_mines finds. */
  function MarkKnown(k: seq<Sentence>): seq<Sentence> {
    MarkMinesAll(MarkSafesAll(k, AllKnownSafes(k)), AllKnownMines(k))
  }

  /** When nothing is known, marking changes no sentence, so none of them
      determines anything either. */
  lemma NothingKnownMarked(k: seq<Sentence>)
    requires AllKnownSafes(k) == {} && AllKnownMines(k) == {}
    ensures MarkKnown(k) == k
    ensures forall s | s in MarkKnown(k) :: s.KnownSafes() == {} && s.KnownMines() == {}
  {
    NothingKnown(k);
    MarkSafesAllNothing(k);
    MarkMinesAllNothing(k);
  }

  /** Recording and marking what the base `k` determines neither adds a
      falsehood nor loses a fact: the agent's safe cells, mines and base
      are true of `truth` afterwards exactly when they were before. */
  lemma MarkKnownKeepsAllHold(k: seq<Sentence>, safes: set<Cell>, mines: set<Cell>, truth: set<Cell>)
    ensures (&& mines + AllKnownMines(k) <= truth
             && (safes + AllKnownSafes(k)) !! truth
             && AllHold(MarkKnown(k), truth))
        <==> (mines <= truth && safes !! truth && AllHold(k, truth))
  {
    if AllHold(k, truth) {
      KnownFactsSound(k, truth);
    }
    if AllKnownSafes(k) !! truth && AllKnownMines(k) <= truth {
      MarkSafesKeepAllHold(k, AllKnownSafes(k), truth);
      MarkMinesKeepAllHold(MarkSafesAll(k, AllKnownSafes(k)), AllKnownMines(k), truth);
    }
  }

  /** The empty sentence is true of every mine set, so dropping it loses
      nothing. */
  lemma DropEmptyKeepsAllHold(k: seq<Sentence>, truth: set<Cell>)
    ensures AllHold(DropEmpty(k), truth) <==> AllHold(k, truth)
  {
    assert EmptySentence.cells * truth == {};
    assert EmptySentence.HoldsFor(truth);
  }

  /** A base with one more sentence is true exactly when the base and the
      sentence are. */
  lemma AppendKeepsAllHold(k: seq<Sentence>, s: Sentence, truth: set<Cell>)
    ensures AllHold(k + [s], truth) <==> AllHold(k, truth) && s.HoldsFor(truth)
  {
    assert s in k + [s];
    assert forall x | x in k :: x in k + [s];
    assert forall x | x in k + [s] :: x in k || x == s;
  }

  /** A residual of two sentences of the base joins it without changing
      which mine sets the base is true of. */
  lemma ResidualKeepsAllHold(k: seq<Sentence>, s1: Sentence, s2: Sentence, truth: set<Cell>)
    requires s1 in k && s2 in k && s1.cells <= s2.cells
    ensures AllHold(k + [Residual(s1, s2)], truth) <==> AllHold(k, truth)
  {
    AppendKeepsAllHold(k, Residual(s1, s2), truth);
    if AllHold(k, truth) {
      ResidualKeepsTruth(s1, s2, truth);
    }
  }

  /** When no sentence of `k` determines a cell, every sentence left after
      dropping the empty ones is undecided. */
  lemma NoFactsUndecided(k: seq<Sentence>)
    requires forall s | s in k :: s.KnownSafes() == {} && s.KnownMines() == {}
    ensures forall s | s in DropEmpty(k) :: Undecided(s)
  {
    forall s | s in DropEmpty(k) ensures Undecided(s) {
      UndecidedIffNoFacts(s);
    }
  }

  /** Every sentence of `k` has no cells. */
  predicate AllCellsEmpty(k: seq<Sentence>) {
    forall b | 0 <= b < |k| :: k[b].cells == {}
  }

  /** The contradiction `set() = n` with n > 0 occurs in `k` only when no
      sentence of `k` has cells, so the subset inference never meets it
      beside a sentence with other cells, the pair on which it raises
      ValueError. */
  predicate NoContradictionPair(k: seq<Sentence>) {
    forall a | 0 <= a < |k| :: EmptyPositive(k[a]) ==> AllCellsEmpty(k)
  }

  /** NoContradictionPair says exactly that no pair of sentences with
      different cells has the contradiction first. */
  lemma NoContradictionPairMeans(k: seq<Sentence>)
    ensures NoContradictionPair(k) <==>
      forall s1, s2 | s1 in k && s2 in k && s1.cells != s2.cells :: !EmptyPositive(s1)
  {
    if NoContradictionPair(k) {
      forall s1, s2 | s1 in k && s2 in k && s1.cells != s2.cells ensures !EmptyPositive(s1) {
        var a :| 0 <= a < |k| && k[a] == s1;
        var b :| 0 <= b < |k| && k[b] == s2;
      }
    } else {
      var a :| 0 <= a < |k| && EmptyPositive(k[a]) && !AllCellsEmpty(k);
      var b :| 0 <= b < |k| && k[b].cells != {};
      assert k[a] in k && k[b] in k && k[a].cells != k[b].cells;
    }
  }

  /** The knowledge after the click on `cell` with the report `count`: every
      sentence marked safe at `cell`, followed by the report's sentence. */
  function Observed(k: seq<Sentence>, cell: Cell, count: int, height: int, width: int,
                    safes: set<Cell>, mines: set<Cell>): seq<Sentence>
  {
    seq(|k|, i requires 0 <= i < |k| => k[i].MarkSafe(cell))
      + [ReportSentence(cell, count, height, width, safes + {cell}, mines)]
  }

  /** Knowledge marked safe at `cell` sentence by sentence and extended by
      `s` is Observed, when `s` is the report's sentence. */
  lemma ObservedIs(k: seq<Sentence>, k': seq<Sentence>, cell: Cell, count: int, height: int, width: int,
                   safes: set<Cell>, mines: set<Cell>)
    requires |k'| == |k| + 1
    requires forall i | 0 <= i < |k| :: k'[i] == k[i].MarkSafe(cell)
    requires k'[|k|] == ReportSentence(cell, count, height, width, safes + {cell}, mines)
    ensures k' == Observed(k, cell, count, height, width, safes, mines)
  {
  }

  /** What the agent knows at one moment: its sentences, safe cells and
      mines. */
  datatype Snapshot = Snapshot(knowledge: seq<Sentence>, safes: set<Cell>, mines: set<Cell>)

  /** `after` follows `before` by one pass of add_knowledge's loop: the
      cells `before`'s sentences determine are recorded, its sentences are
      marked with them and filtered, and only what the pair loop appends
      follows them. */
  predicate PassStep(before: Snapshot, after: Snapshot) {
    var kept := DropEmpty(MarkKnown(before.knowledge));
    && after.safes == before.safes + AllKnownSafes(before.knowledge)
    && after.mines == before.mines + AllKnownMines(before.knowledge)
    && kept <= after.knowledge
    && InferredFrom(after.knowledge, |kept|)
  }

  /** The pass from `before` to `after` sets knowledge_changed. */
  predicate PassChanged(before: Snapshot, after: Snapshot) {
    || AllKnownSafes(before.knowledge) != {}
    || AllKnownMines(before.knowledge) != {}
    || after.knowledge != DropEmpty(MarkKnown(before.knowledge))
  }

  /** The pair loop of the pass from `before` to `after` ran to its end:
      every row is done against the sentences the loop started from and
      against every sentence up to its own. */
  predicate PassClosed(before: Snapshot, after: Snapshot) {
    RowsClosed(after.knowledge, |after.knowledge|, |DropEmpty(MarkKnown(before.knowledge))|)
  }

  /** The fuel the pass from `before` to `after` spends: one for the pass
      and one for each sentence it appends. */
  function PassCost(before: Snapshot, after: Snapshot): int {
    1 + |after.knowledge| - |DropEmpty(MarkKnown(before.knowledge))|
  }

  /** `trace` is a run of add_knowledge's loop: each snapshot follows the
      one before it by a pass, and every pass but the last changed
      something and ran its pair loop to the end. */
  predicate Run(trace: seq<Snapshot>) {
    && (forall i | 0 <= i < |trace| - 1 :: PassStep(trace[i], trace[i + 1]))
    && (forall i | 0 <= i < |trace| - 2 :: PassChanged(trace[i], trace[i + 1]) && PassClosed(trace[i], trace[i + 1]))
  }

  /** The fuel the passes of `trace` spend together. */
  function Spent(trace: seq<Snapshot>): int {
    if |trace| <= 1 then 0
    else Spent(trace[..|trace| - 1]) + PassCost(trace[|trace| - 2], trace[|trace| - 1])
  }

  /** A run extended by one more pass is a run, spending that pass's fuel
      on top. */
  lemma RunStep(trace: seq<Snapshot>, next: Snapshot)
    requires Run(trace) && trace != []
    requires PassStep(trace[|trace| - 1], next)
    requires |trace| >= 2 ==> PassChanged(trace[|trace| - 2], trace[|trace| - 1]) && PassClosed(trace[|trace| - 2], trace[|trace| - 1])
    ensures Run(trace + [next])
    ensures Spent(trace + [next]) == Spent(trace) + PassCost(trace[|trace| - 1], next)
  {
    StepsExtend(trace, next);
    ChangesExtend(trace, next);
    SpentExtend(trace, next);
  }

  /** One more pass spends its own fuel on top of the run's. */
  lemma SpentExtend(trace: seq<Snapshot>, next: Snapshot)
    requires trace != []
    ensures Spent(trace + [next]) == Spent(trace) + PassCost(trace[|trace| - 1], next)
  {
    var t := trace + [next];
    assert t[..|t| - 1] == trace;
  }

  /** The passes of a run followed by one more pass. */
  lemma StepsExtend(trace: seq<Snapshot>, next: Snapshot)
    requires trace != [] && forall i | 0 <= i < |trace| - 1 :: PassStep(trace[i], trace[i + 1])
    requires PassStep(trace[|trace| - 1], next)
    ensures forall i | 0 <= i < |trace| :: PassStep((trace + [next])[i], (trace + [next])[i + 1])
  {
    var t := trace + [next];
    forall i | 0 <= i < |t| - 1
      ensures PassStep(t[i], t[i + 1])
    {
      if i < |trace| - 1 {
        assert t[i] == trace[i] && t[i + 1] == trace[i + 1];
        assert PassStep(trace[i], trace[i + 1]);
      } else {
        assert t[i] == trace[|trace| - 1] && t[i + 1] == next;
      }
    }
  }

  /** The changing, completed passes of a run whose last pass changed
      something and completed stay so when one more pass follows. */
  lemma ChangesExtend(trace: seq<Snapshot>, next: Snapshot)
    requires trace != []
    requires forall i | 0 <= i < |trace| - 2 :: PassChanged(trace[i], trace[i + 1]) && PassClosed(trace[i], trace[i + 1])
    requires |trace| >= 2 ==> PassChanged(trace[|trace| - 2], trace[|trace| - 1]) && PassClosed(trace[|trace| - 2], trace[|trace| - 1])
    ensures forall i | 0 <= i < |trace| - 1 ::
      PassChanged((trace + [next])[i], (trace + [next])[i + 1]) && PassClosed((trace + [next])[i], (trace + [next])[i + 1])
  {
    var t := trace + [next];
    forall i | 0 <= i < |trace| - 1
      ensures PassChanged(t[i], t[i + 1]) && PassClosed(t[i], t[i + 1])
    {
      assert t[i] == trace[i] && t[i + 1] == trace[i + 1];
      if i < |trace| - 2 {
        assert PassChanged(trace[i], trace[i + 1]) && PassClosed(trace[i], trace[i + 1]);
      }
    }
  }

  /** The report of a valid board for a cell without a mine is truthful. */
  lemma BoardReportIsTruthful(g: Game, cell: Cell)
    requires g.Valid() && cell !in g.mines
    ensures Truthful(cell, |g.MinesAround(cell)|, g.height, g.width, g.mines)
  {
    g.MinesAroundAreMines(cell);
  }

  class MinesweeperAI {
    const height: nat
    const width: nat
    /** The cells clicked so far. */
    var movesMade: set<Cell>
    /** The cells known to hold a mine. */
    var mines: set<Cell>
    /** The cells known to be safe. */
    var safes: set<Cell>
    /** The sentences known to be true. */
    var knowledge: seq<Sentence>

    /** The sentences speak only of cells not yet known to be safe or
        mined. */
    ghost predicate Separated()
      reads this
    {
      SeparatedFrom(knowledge, safes, mines)
    }

    /** Every move was onto a safe cell, and the sentences are separated. */
    ghost predicate Valid()
      reads this
    {
      movesMade <= safes && Separated()
    }

    /** What the agent knows is true of the mine set `truth`. */
    ghost predicate Sound(truth: set<Cell>)
      reads this
    {
      mines <= truth && safes !! truth && AllHold(knowledge, truth)
    }

    /** The agent's knowledge as a value. */
    function State(): Snapshot
      reads this
    {
      Snapshot(knowledge, safes, mines)
    }

    constructor (height: nat := 8, width: nat := 8)
      ensures this.height == height && this.width == width
      ensures movesMade == {} && mines == {} && safes == {} && knowledge == []
      ensures Valid()
      ensures forall truth :: Sound(truth)
    {
      this.height := height;
      this.width := width;
      movesMade := {};
      mines := {};
      safes := {};
      knowledge := [];
    }

    /** mark_mine(cell): records the mine and marks it in every sentence. */
    method MarkMine(cell: Cell)
      modifies this`mines, this`knowledge
      ensures old(Separated()) ==> Separated()
      ensures mines == old(mines) + {cell}
      ensures |knowledge| == |old(knowledge)|
      ensures forall i | 0 <= i < |knowledge| :: knowledge[i] == old(knowledge)[i].MarkMine(cell)
    {
      mines := mines + {cell};
      var i := 0;
      while i < |knowledge|
        invariant 0 <= i <= |knowledge| == |old(knowledge)|
        invariant mines == old(mines) + {cell}
        invariant forall k | 0 <= k < i :: knowledge[k] == old(knowledge)[k].MarkMine(cell)
        invariant forall k | i <= k < |knowledge| :: knowledge[k] == old(knowledge)[k]
      {
        knowledge := knowledge[i := knowledge[i].MarkMine(cell)];
        i := i + 1;
      }
      if old(Separated()) {
        forall s | s in knowledge ensures s.cells !! safes && s.cells !! mines {
          var k :| 0 <= k < |knowledge| && knowledge[k] == s;
          assert old(knowledge)[k] in old(knowledge);
        }
      }
    }

    /** mark_safe(cell): records the safe cell and marks it in every
        sentence. */
    method MarkSafe(cell: Cell)
      modifies this`safes, this`knowledge
      ensures old(Separated()) ==> Separated()
      ensures safes == old(safes) + {cell}
      ensures |knowledge| == |old(knowledge)|
      ensures forall i | 0 <= i < |knowledge| :: knowledge[i] == old(knowledge)[i].MarkSafe(cell)
    {
      safes := safes + {cell};
      var i := 0;
      while i < |knowledge|
        invariant 0 <= i <= |knowledge| == |old(knowledge)|
        invariant safes == old(safes) + {cell}
        invariant forall k | 0 <= k < i :: knowledge[k] == old(knowledge)[k].MarkSafe(cell)
        invariant forall k | i <= k < |knowledge| :: knowledge[k] == old(knowledge)[k]
      {
        knowledge := knowledge[i := knowledge[i].MarkSafe(cell)];
        i := i + 1;
      }
      if old(Separated()) {
        forall s | s in knowledge ensures s.cells !! safes && s.cells !! mines {
          var k :| 0 <= k < |knowledge| && knowledge[k] == s;
          assert old(knowledge)[k] in old(knowledge);
        }
      }
    }

    /** The loop over `safes` in add_knowledge: mark_safe of each cell of
        `cs`. */
    method MarkSafes(cs: set<Cell>)
      requires Separated()
      modifies this`safes, this`knowledge
      ensures Separated()
      ensures safes == old(safes) + cs
      ensures knowledge == MarkSafesAll(old(knowledge), cs)
    {
      var todo := cs;
      ghost var done: set<Cell> := {};
      MarkSafesAllNothing(knowledge);
      while todo != {}
        invariant done !! todo && done + todo == cs
        invariant safes == old(safes) + done
        invariant knowledge == MarkSafesAll(old(knowledge), done)
        decreases |todo|
      {
        var c :| c in todo;
        TodoStep(cs, done, todo, c, old(safes));
        MarkSafe(c);
        MarkSafesAllStep(old(knowledge), done, c, knowledge);
        done := done + {c};
        todo := todo - {c};
      }
      MarkSafesAllSeparates(old(knowledge), cs, old(safes), old(mines));
    }

    /** The loop over `mines` in add_knowledge: mark_mine of each cell of
        `cs`. */
    method MarkMines(cs: set<Cell>)
      requires Separated()
      modifies this`mines, this`knowledge
      ensures Separated()
      ensures mines == old(mines) + cs
      ensures knowledge == MarkMinesAll(old(knowledge), cs)
    {
      var todo := cs;
      ghost var done: set<Cell> := {};
      MarkMinesAllNothing(knowledge);
      while todo != {}
        invariant done !! todo && done + todo == cs
        invariant mines == old(mines) + done
        invariant knowledge == MarkMinesAll(old(knowledge), done)
        decreases |todo|
      {
        var c :| c in todo;
        TodoStep(cs, done, todo, c, old(mines));
        MarkMine(c);
        MarkMinesAllStep(old(knowledge), done, c, knowledge);
        done := done + {c};
        todo := todo - {c};
      }
      MarkMinesAllSeparates(old(knowledge), cs, old(safes), old(mines));
    }

    /** The scan of the 3x3 block around `cell` in add_knowledge: the
        sentence for the report `count`. */
    method NeighbourSentence(cell: Cell, count: int) returns (s: Sentence)
      ensures s == ReportSentence(cell, count, height, width, safes, mines)
    {
      var cells: set<Cell> := {};
      var n := count;
      ghost var mined: set<Cell> := {};
      var i := cell.0 - 1;
      while i < cell.0 + 2
        invariant cell.0 - 1 <= i <= cell.0 + 2
        invariant n == count - |mined|
        invariant forall c :: c in cells <==>
          Undetermined(cell, c, height, width, safes, mines) && ScannedBefore(c, i, cell.1 - 1)
        invariant forall c :: c in mined <==> MinedNear(cell, c, safes, mines) && ScannedBefore(c, i, cell.1 - 1)
      {
        var j := cell.1 - 1;
        while j < cell.1 + 2
          invariant cell.1 - 1 <= j <= cell.1 + 2
          invariant n == count - |mined|
          invariant forall c :: c in cells <==> Undetermined(cell, c, height, width, safes, mines) && ScannedBefore(c, i, j)
          invariant forall c :: c in mined <==> MinedNear(cell, c, safes, mines) && ScannedBefore(c, i, j)
        {
          if (i, j) == cell {
          } else if (i, j) in safes {
          } else if (i, j) in mines {
            n := n - 1;
            mined := mined + {(i, j)};
          } else if 0 <= i < height && 0 <= j < width {
            cells := cells + {(i, j)};
          }
          j := j + 1;
        }
        i := i + 1;
      }
      assert cells == UndeterminedAround(cell, height, width, safes, mines);
      assert mined == MinedAround(cell, safes, mines);
      s := Sentence(cells, n);
    }

    /** The union of known_safes and of known_mines over the knowledge
        base. */
    method KnownFacts() returns (foundSafes: set<Cell>, foundMines: set<Cell>)
      ensures foundSafes == AllKnownSafes(knowledge)
      ensures foundMines == AllKnownMines(knowledge)
    {
      foundSafes, foundMines := {}, {};
      var i := 0;
      while i < |knowledge|
        invariant 0 <= i <= |knowledge|
        invariant foundSafes == AllKnownSafes(knowledge[..i])
        invariant foundMines == AllKnownMines(knowledge[..i])
      {
        AllKnownStep(knowledge, i);
        foundSafes := foundSafes + knowledge[i].KnownSafes();
        foundMines := foundMines + knowledge[i].KnownMines();
        i := i + 1;
      }
      assert knowledge[..i] == knowledge;
    }

    /** One row of the subset inference: sentence `i` against every
        sentence, including those the row appends. Each append spends one
        unit of `fuel`; `grew` says whether anything was appended. */
    method InferRow(i: nat, fuel: nat, ghost truth: set<Cell>) returns (status: Status, grew: bool, fuelLeft: nat)
      requires Separated() && i < |knowledge|
      requires forall a | 0 <= a < i :: EmptyPositive(knowledge[a]) ==> AllCellsEmpty(knowledge)
      modifies this`knowledge
      ensures Separated()
      ensures old(knowledge) <= knowledge
      ensures fuel - fuelLeft == |knowledge| - |old(knowledge)|
      ensures status == OutOfFuel ==> fuelLeft == 0
      ensures grew <==> knowledge != old(knowledge)
      ensures forall n | |old(knowledge)| <= n < |knowledge| :: RowAppended(knowledge, i, n)
      ensures status == Settled ==>
        forall b {:trigger PairOk(knowledge, knowledge[i], knowledge[b])} | 0 <= b < |knowledge| :: PairOk(knowledge, knowledge[i], knowledge[b])
      ensures status == Settled ==> forall a | 0 <= a <= i :: EmptyPositive(knowledge[a]) ==> AllCellsEmpty(knowledge)
      ensures status == Inconsistent ==> EmptyPositive(knowledge[i]) && !AllCellsEmpty(knowledge)
      ensures AllHold(knowledge, truth) <==> old(AllHold(knowledge, truth))
      ensures old(AllHold(knowledge, truth)) ==> status != Inconsistent
    {
      fuelLeft, grew := fuel, false;
      var j := 0;
      while j < |knowledge|
        invariant 0 <= j <= |knowledge| && i < |knowledge|
        invariant old(knowledge) <= knowledge
        invariant fuel - fuelLeft == |knowledge| - |old(knowledge)|
        invariant grew <==> knowledge != old(knowledge)
        invariant forall n | |old(knowledge)| <= n < |knowledge| :: RowAppended(knowledge, i, n)
        invariant Separated()
        invariant forall b {:trigger PairOk(knowledge, knowledge[i], knowledge[b])} | 0 <= b < j :: PairOk(knowledge, knowledge[i], knowledge[b])
        invariant forall a | 0 <= a < i :: EmptyPositive(knowledge[a]) ==> AllCellsEmpty(knowledge)
        invariant AllHold(knowledge, truth) <==> old(AllHold(knowledge, truth))
        decreases fuelLeft, |knowledge| - j
      {
        var s1, s2 := knowledge[i], knowledge[j];
        if s1.cells != s2.cells {
          if EmptyPositive(s1) {
            EmptyPositiveNeverHolds(s1, truth);
            assert knowledge[j].cells != {};
            return Inconsistent, grew, fuelLeft;
          }
          if s1.cells <= s2.cells {
            var r := Residual(s1, s2);
            if r !in knowledge {
              if fuelLeft == 0 {
                return OutOfFuel, grew, 0;
              }
              RowAppendStep(knowledge, i, j, |old(knowledge)|, truth);
              fuelLeft := fuelLeft - 1;
              knowledge := knowledge + [r];
              grew := true;
            }
          }
        }
        j := j + 1;
      }
      status := Settled;
      if EmptyPositive(knowledge[i]) {
        RowClosedEmptyPositive(knowledge, i);
      }
    }

    /** One pass of the subset inference over all pairs of sentences, which
        also visits the sentences it appends. Each append spends one unit of
        `fuel`. */
    method InferSubsets(fuel: nat, ghost truth: set<Cell>) returns (status: Status, appended: bool, fuelLeft: nat)
      requires Separated()
      modifies this`knowledge
      ensures Separated()
      ensures old(knowledge) <= knowledge
      ensures fuel - fuelLeft == |knowledge| - |old(knowledge)|
      ensures status == OutOfFuel ==> fuelLeft == 0
      ensures appended <==> knowledge != old(knowledge)
      ensures InferredFrom(knowledge, |old(knowledge)|)
      ensures status == Settled ==> NoContradictionPair(knowledge)
      ensures status == Settled ==> RowsClosed(knowledge, |knowledge|, |old(knowledge)|)
      ensures status == Settled && !appended ==> PairClosed(knowledge)
      ensures status == Inconsistent ==> !NoContradictionPair(knowledge)
      ensures AllHold(knowledge, truth) <==> old(AllHold(knowledge, truth))
      ensures old(AllHold(knowledge, truth)) ==> status != Inconsistent
    {
      fuelLeft, appended := fuel, false;
      var i := 0;
      while i < |knowledge|
        invariant 0 <= i <= |knowledge|
        invariant old(knowledge) <= knowledge
        invariant fuel - fuelLeft == |knowledge| - |old(knowledge)|
        invariant appended <==> knowledge != old(knowledge)
        invariant InferredFrom(knowledge, |old(knowledge)|)
        invariant Separated()
        invariant RowsClosed(knowledge, i, |old(knowledge)|)
        invariant forall a | 0 <= a < i :: EmptyPositive(knowledge[a]) ==> AllCellsEmpty(knowledge)
        invariant AllHold(knowledge, truth) <==> old(AllHold(knowledge, truth))
        decreases fuelLeft, |knowledge| - i
      {
        ghost var before := knowledge;
        var st, grew, left := InferRow(i, fuelLeft, truth);
        RowExtendsInferred(before, knowledge, i, |old(knowledge)|);
        appended := appended || grew;
        if st != Settled {
          return st, appended, left;
        }
        RowsClosedExtend(before, knowledge, i, |old(knowledge)|);
        fuelLeft := left;
        i := i + 1;
      }
      status := Settled;
      if !appended {
        RowsClosedPairClosed(knowledge);
      }
    }

    /** The marking loops of a pass: mark_safe of every cell of `cs`, then
        mark_mine of every cell of `ms`. */
    method MarkFound(cs: set<Cell>, ms: set<Cell>)
      requires Separated()
      modifies this`safes, this`mines, this`knowledge
      ensures Separated()
      ensures safes == old(safes) + cs && mines == old(mines) + ms
      ensures knowledge == MarkMinesAll(MarkSafesAll(old(knowledge), cs), ms)
    {
      MarkSafes(cs);
      MarkMines(ms);
    }

    /** The marking half of a pass of add_knowledge's loop: collect what the
        sentences determine and mark it, safe cells first. `changed` says
        whether anything was found. */
    method MarkKnownFacts(ghost truth: set<Cell>) returns (changed: bool)
      requires Valid()
      modifies this`safes, this`mines, this`knowledge
      ensures Valid()
      ensures safes == old(safes) + AllKnownSafes(old(knowledge))
      ensures mines == old(mines) + AllKnownMines(old(knowledge))
      ensures knowledge == MarkKnown(old(knowledge))
      ensures changed <==> AllKnownSafes(old(knowledge)) != {} || AllKnownMines(old(knowledge)) != {}
      ensures !changed ==> forall s | s in knowledge :: s.KnownSafes() == {} && s.KnownMines() == {}
      ensures Sound(truth) <==> old(Sound(truth))
    {
      ghost var k0, safes0, mines0 := knowledge, safes, mines;
      var newSafes, newMines := KnownFacts();
      changed := newSafes != {} || newMines != {};
      MarkFound(newSafes, newMines);
      MarkKnownKeepsAllHold(k0, safes0, mines0, truth);
      if !changed {
        NothingKnownMarked(k0);
      }
    }

    /** The first half of a pass of add_knowledge's loop: mark everything
        the sentences determine, then drop the empty sentences. `changed`
        says whether anything was determined. */
    method Tidy(ghost truth: set<Cell>) returns (changed: bool)
      requires Valid()
      modifies this`safes, this`mines, this`knowledge
      ensures Valid()
      ensures safes == old(safes) + AllKnownSafes(old(knowledge))
      ensures mines == old(mines) + AllKnownMines(old(knowledge))
      ensures knowledge == DropEmpty(MarkKnown(old(knowledge)))
      ensures changed <==> AllKnownSafes(old(knowledge)) != {} || AllKnownMines(old(knowledge)) != {}
      ensures !changed ==> forall s | s in knowledge :: Undecided(s)
      ensures Sound(truth) <==> old(Sound(truth))
    {
      changed := MarkKnownFacts(truth);
      ghost var marked := knowledge;
      DropEmptyKeepsAllHold(knowledge, truth);
      knowledge := DropEmpty(knowledge);
      if !changed {
        NoFactsUndecided(marked);
      }
    }

    /** One pass of the `while knowledge_changed` loop of add_knowledge:
        mark every cell the sentences determine, drop the empty sentences,
        and run the subset inference with `fuel` appends to spend. `changed`
        is the loop's knowledge_changed flag. */
    method Pass(fuel: nat, ghost truth: set<Cell>) returns (status: Status, changed: bool, fuelLeft: nat)
      requires Valid()
      modifies this`safes, this`mines, this`knowledge
      ensures Valid()
      ensures safes == old(safes) + AllKnownSafes(old(knowledge))
      ensures mines == old(mines) + AllKnownMines(old(knowledge))
      ensures DropEmpty(MarkKnown(old(knowledge))) <= knowledge
      ensures InferredFrom(knowledge, |DropEmpty(MarkKnown(old(knowledge)))|)
      ensures fuel - fuelLeft == |knowledge| - |DropEmpty(MarkKnown(old(knowledge)))|
      ensures status == OutOfFuel ==> fuelLeft == 0
      ensures changed <==> AllKnownSafes(old(knowledge)) != {} || AllKnownMines(old(knowledge)) != {}
                           || knowledge != DropEmpty(MarkKnown(old(knowledge)))
      ensures status == Settled ==> NoContradictionPair(knowledge)
      ensures status == Settled ==> RowsClosed(knowledge, |knowledge|, |DropEmpty(MarkKnown(old(knowledge)))|)
      ensures status == Settled && !changed ==> (forall s | s in knowledge :: Undecided(s)) && PairClosed(knowledge)
      ensures status == Inconsistent ==> !NoContradictionPair(knowledge)
      ensures Sound(truth) <==> old(Sound(truth))
      ensures old(Sound(truth)) ==> status != Inconsistent
      ensures PassStep(old(State()), State())
      ensures changed <==> PassChanged(old(State()), State())
      ensures status == Settled ==> PassClosed(old(State()), State())
      ensures fuel + 1 - fuelLeft == PassCost(old(State()), State())
    {
      changed := Tidy(truth);
      ghost var safesTidied, minesTidied := safes, mines;
      var appended;
      status, appended, fuelLeft := InferSubsets(fuel, truth);
      assert safes == safesTidied && mines == minesTidied;
      if appended {
        changed := true;
      }
    }

    /** Step 2 of add_knowledge: mark the clicked cell safe unless it is
        already known safe, in which case no sentence mentions it. */
    method MarkClicked(cell: Cell, ghost truth: set<Cell>)
      requires Separated()
      modifies this`safes, this`knowledge
      ensures Separated()
      ensures safes == old(safes) + {cell}
      ensures |knowledge| == |old(knowledge)|
      ensures forall i | 0 <= i < |knowledge| :: knowledge[i] == old(knowledge)[i].MarkSafe(cell)
      ensures Sound(truth) <==> old(Sound(truth)) && cell !in truth
    {
      if cell !in safes {
        ghost var before := knowledge;
        MarkSafe(cell);
        if cell !in truth {
          MarkSafeKeepAllHold(before, knowledge, cell, truth);
        }
      } else {
        forall i | 0 <= i < |knowledge| ensures knowledge[i] == knowledge[i].MarkSafe(cell) {
          assert knowledge[i] in knowledge;
          assert knowledge[i].cells - {cell} == knowledge[i].cells;
        }
      }
    }

    /** The first half of add_knowledge: record the click on `cell`, mark
        it safe and append the sentence for the board's report `count`. */
    method Observe(cell: Cell, count: int, ghost truth: set<Cell>)
      requires Valid()
      modifies this`movesMade, this`safes, this`knowledge
      ensures Valid()
      ensures movesMade == old(movesMade) + {cell}
      ensures safes == old(safes) + {cell}
      ensures |knowledge| == |old(knowledge)| + 1
      ensures forall i | 0 <= i < |old(knowledge)| :: knowledge[i] == old(knowledge)[i].MarkSafe(cell)
      ensures knowledge[|old(knowledge)|] == ReportSentence(cell, count, height, width, old(safes) + {cell}, mines)
      ensures knowledge == Observed(old(knowledge), cell, count, height, width, old(safes), mines)
      ensures Sound(truth) <==>
                old(Sound(truth)) && cell !in truth &&
                ReportSentence(cell, count, height, width, old(safes) + {cell}, mines).HoldsFor(truth)
      ensures old(Sound(truth)) && Truthful(cell, count, height, width, truth) ==> Sound(truth)
    {
      ghost var sound := Sound(truth) && Truthful(cell, count, height, width, truth);
      ghost var k0, safes0 := knowledge, safes;
      movesMade := movesMade + {cell};
      MarkClicked(cell, truth);
      var s := NeighbourSentence(cell, count);
      if sound {
        NeighbourSentenceHolds(cell, count, height, width, safes, mines, truth);
      }
      AppendKeepsAllHold(knowledge, s, truth);
      knowledge := knowledge + [s];
      ObservedIs(k0, knowledge, cell, count, height, width, safes0, mines);
    }

    /** The `while knowledge_changed` loop of add_knowledge: passes until
        one changes nothing. `fuel` bounds the passes and the appended
        sentences: each pass spends one unit and one per sentence it
        appends. `trace` records the agent's knowledge before the loop and
        after every pass. */
    method Settle(fuel: nat, ghost truth: set<Cell>) returns (status: Status, fuelLeft: nat, ghost trace: seq<Snapshot>)
      requires Valid()
      modifies this`safes, this`mines, this`knowledge
      ensures Valid()
      ensures old(safes) <= safes && old(mines) <= mines
      ensures trace != [] && trace[0] == old(State()) && trace[|trace| - 1] == State()
      ensures Run(trace)
      ensures fuel - fuelLeft == Spent(trace)
      ensures status == OutOfFuel ==> fuelLeft == 0
      ensures status == Settled ==> (forall s | s in knowledge :: Undecided(s)) && PairClosed(knowledge)
      ensures status == Inconsistent ==> !NoContradictionPair(knowledge)
      ensures Sound(truth) <==> old(Sound(truth))
      ensures old(Sound(truth)) ==> status != Inconsistent
    {
      trace := [State()];
      var changed := true;
      fuelLeft := fuel;
      while changed
        invariant Valid()
        invariant trace != [] && trace[0] == old(State()) && trace[|trace| - 1] == State()
        invariant Run(trace)
        invariant fuel - fuelLeft == Spent(trace)
        invariant changed && |trace| >= 2 ==>
          PassChanged(trace[|trace| - 2], trace[|trace| - 1]) && PassClosed(trace[|trace| - 2], trace[|trace| - 1])
        invariant old(safes) <= safes && old(mines) <= mines
        invariant Sound(truth) <==> old(Sound(truth))
        invariant !changed ==> (forall s | s in knowledge :: Undecided(s)) && PairClosed(knowledge)
        decreases fuelLeft, changed
      {
        if fuelLeft == 0 {
          return OutOfFuel, 0, trace;
        }
        var st;
        st, changed, fuelLeft := Pass(fuelLeft - 1, truth);
        RunStep(trace, State());
        trace := trace + [State()];
        if st != Settled {
          return st, fuelLeft, trace;
        }
      }
      status := Settled;
    }

    /** add_knowledge(cell, count): records the click on the safe cell `cell`,
        adds the sentence for the board's report `count`, and then runs
        passes while anything changes, within the budget `fuel`. `trace`
        records the agent's knowledge after the click and after every pass.
        `truth` stands for any mine set, used only to state soundness:
        afterwards the agent's knowledge is true of `truth` exactly when its
        knowledge before, the click and the report were. */
    method AddKnowledge(cell: Cell, count: int, fuel: nat, ghost truth: set<Cell>)
      returns (status: Status, fuelLeft: nat, ghost trace: seq<Snapshot>)
      requires Valid()
      modifies this
      ensures Valid()
      ensures movesMade == old(movesMade) + {cell}
      ensures old(safes) + {cell} <= safes && old(mines) <= mines
      ensures trace != []
      ensures trace[0] == Snapshot(Observed(old(knowledge), cell, count, height, width, old(safes), old(mines)),
                                   old(safes) + {cell}, old(mines))
      ensures trace[|trace| - 1] == State()
      ensures Run(trace)
      ensures fuel - fuelLeft == Spent(trace)
      ensures status == OutOfFuel ==> fuelLeft == 0
      ensures status == Settled ==> (forall s | s in knowledge :: Undecided(s)) && PairClosed(knowledge)
      ensures status == Inconsistent ==> !NoContradictionPair(knowledge)
      ensures Sound(truth) <==>
                old(Sound(truth)) && cell !in truth &&
                ReportSentence(cell, count, height, width, old(safes) + {cell}, old(mines)).HoldsFor(truth)
      ensures old(Sound(truth)) && Truthful(cell, count, height, width, truth) ==>
                Sound(truth) && status != Inconsistent
    {
      Observe(cell, count, truth);
      status, fuelLeft, trace := Settle(fuel, truth);
    }

    /** make_safe_move(): some known safe cell not yet clicked, if there is
        one. Which one the source picks is random; here it is any. */
    method MakeSafeMove() returns (move: Option<Cell>)
      ensures move.None? <==> safes <= movesMade
      ensures move.Some? ==> move.value in safes && move.value !in movesMade
    {
      var safeMoves := safes - movesMade;
      if safeMoves != {} {
        var c :| c in safeMoves;
        move := Some(c);
      } else {
        assert forall c | c in safes :: c in movesMade by {
          forall c | c in safes ensures c in movesMade {
            assert c !in safeMoves;
          }
        }
        move := None;
      }
    }

    /** make_random_move(): the first board cell in row-major order that is
        neither clicked nor a known mine, if there is one. */
    method MakeRandomMove() returns (move: Option<Cell>)
      ensures move.Some? ==> InBounds(move.value, height, width)
      ensures move.Some? ==> move.value !in movesMade && move.value !in mines
      ensures move.Some? ==> forall c | InBounds(c, height, width) && ScannedBefore(c, move.value.0, move.value.1) ::
                               c in movesMade || c in mines
      ensures move.None? <==> forall c | InBounds(c, height, width) :: c in movesMade || c in mines
    {
      var i := 0;
      while i < height
        invariant 0 <= i <= height
        invariant forall c | InBounds(c, height, width) && ScannedBefore(c, i, 0) :: c in movesMade || c in mines
      {
        var j := 0;
        while j < width
          invariant 0 <= j <= width
          invariant forall c | InBounds(c, height, width) && ScannedBefore(c, i, j) :: c in movesMade || c in mines
        {
          if (i, j) !in movesMade && (i, j) !in mines {
            return Some((i, j));
          }
          j := j + 1;
        }
        i := i + 1;
      }
      return None;
    }
  }
}
