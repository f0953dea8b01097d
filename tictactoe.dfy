/** Tic-Tac-Toe: the rules of the game over a 3x3 board and the minimax search
    that picks an optimal move for the player whose turn it is. */
module TicTacToe {

  import opened Wrappers

  /** The content of a cell: one of the two players' marks, or empty. */
  datatype Mark = X | O | Empty

  /** A position (row, column); also the source's action tuple. */
  type Pos = (int, int)

  /** A board: three rows of three cells. */
  type Board = b: seq<seq<Mark>> | |b| == 3 && forall r | 0 <= r < |b| :: |b[r]| == 3
    witness [[Empty, Empty, Empty], [Empty, Empty, Empty], [Empty, Empty, Empty]]

  /** Failure-or-board outcome of applying an action; InvalidAction is the source's ValueError. */
  datatype Outcome = Ok(board: Board) | InvalidAction

  predicate InRange(p: Pos) {
    0 <= p.0 < 3 && 0 <= p.1 < 3
  }

  /** The cell at `p`, or Empty for a position outside the board. */
  function At(b: Board, p: Pos): Mark {
    if InRange(p) then b[p.0][p.1] else Empty
  }

  /** The empty board. */
  function InitialState(): (b: Board)
    ensures forall r, c | 0 <= r < 3 && 0 <= c < 3 :: b[r][c] == Empty
  {
    [[Empty, Empty, Empty], [Empty, Empty, Empty], [Empty, Empty, Empty]]
  }

  // ---------------------------------------------------------------------------
  // Counting marks and empty cells

  /** Number of non-empty cells of a row. */
  function FilledInRow(row: seq<Mark>): nat {
    if row == [] then 0
    else FilledInRow(row[..|row| - 1]) + (if row[|row| - 1] != Empty then 1 else 0)
  }

  /** Number of non-empty cells of a sequence of rows. */
  function FilledInRows(rows: seq<seq<Mark>>): nat {
    if rows == [] then 0
    else FilledInRows(rows[..|rows| - 1]) + FilledInRow(rows[|rows| - 1])
  }

  /** Number of marks on the board. */
  function FilledCount(b: Board): nat {
    FilledInRows(b)
  }

  /** The set of positions holding no mark. */
  function EmptyCells(b: Board): (s: set<Pos>)
    ensures forall p :: p in s <==> InRange(p) && b[p.0][p.1] == Empty
  {
    set r, c | 0 <= r < 3 && 0 <= c < 3 && b[r][c] == Empty :: (r, c)
  }

  /** The player to move: X when an even number of cells is filled, O otherwise. */
  function NextMark(b: Board): Mark {
    if FilledCount(b) % 2 == 0 then X else O
  }

  /** The board after the player to move marks the empty position `a`: only
      `a` changes, and `a` is no longer empty. */
  function Place(b: Board, a: Pos): (r: Board)
    requires a in EmptyCells(b)
    ensures r[a.0][a.1] == NextMark(b)
    ensures forall p | InRange(p) && p != a :: r[p.0][p.1] == b[p.0][p.1]
    ensures EmptyCells(r) == EmptyCells(b) - {a}
    ensures |EmptyCells(r)| == |EmptyCells(b)| - 1
  {
    var r: Board := b[a.0 := b[a.0][a.1 := NextMark(b)]];
    assert EmptyCells(r) == EmptyCells(b) - {a};
    r
  }

  lemma {:induction false} FilledInRowUpdate(row: seq<Mark>, j: int, m: Mark)
    requires 0 <= j < |row| && row[j] == Empty && m != Empty
    ensures FilledInRow(row[j := m]) == FilledInRow(row) + 1
  {
    var n := |row|;
    var row' := row[j := m];
    if j == n - 1 {
      assert row'[..n - 1] == row[..n - 1];
    } else {
      assert row'[..n - 1] == row[..n - 1][j := m];
      FilledInRowUpdate(row[..n - 1], j, m);
    }
  }

  lemma {:induction false} FilledInRowsUpdate(rows: seq<seq<Mark>>, i: int, j: int, m: Mark)
    requires 0 <= i < |rows| && 0 <= j < |rows[i]| && rows[i][j] == Empty && m != Empty
    ensures FilledInRows(rows[i := rows[i][j := m]]) == FilledInRows(rows) + 1
  {
    var n := |rows|;
    var rows' := rows[i := rows[i][j := m]];
    if i == n - 1 {
      assert rows'[..n - 1] == rows[..n - 1];
      FilledInRowUpdate(rows[i], j, m);
    } else {
      assert rows'[..n - 1] == rows[..n - 1][i := rows[i][j := m]];
      FilledInRowsUpdate(rows[..n - 1], i, j, m);
    }
  }

  /** A move adds exactly one mark to the board. */
  lemma PlaceAddsOneMark(b: Board, a: Pos)
    requires a in EmptyCells(b)
    ensures FilledCount(Place(b, a)) == FilledCount(b) + 1
    ensures NextMark(Place(b, a)) != NextMark(b)
  {
    FilledInRowsUpdate(b, a.0, a.1, NextMark(b));
  }

  // ---------------------------------------------------------------------------
  // Rule functions of the source (player, actions, result, terminal)

  /** player(board): counts the marks row by row. */
  method Player(b: Board) returns (p: Mark)
    ensures p == NextMark(b)
    ensures p == X <==> FilledCount(b) % 2 == 0
    ensures p == O <==> FilledCount(b) % 2 == 1
  {
    var counter := 0;
    var i := 0;
    while i < |b|
      invariant 0 <= i <= |b|
      invariant counter == FilledInRows(b[..i])
    {
      var j := 0;
      while j < |b[i]|
        invariant 0 <= j <= |b[i]|
        invariant counter == FilledInRows(b[..i]) + FilledInRow(b[i][..j])
      {
        assert b[i][..j + 1][..j] == b[i][..j];
        if b[i][j] != Empty {
          counter := counter + 1;
        }
        j := j + 1;
      }
      assert b[..i + 1][..i] == b[..i];
      assert b[i][..j] == b[i];
      i := i + 1;
    }
    assert b[..i] == b;
    if counter % 2 == 0 {
      p := X;
    } else {
      p := O;
    }
  }

  /** actions(board): collects the empty positions row by row. */
  method Actions(b: Board) returns (acts: set<Pos>)
    ensures acts == EmptyCells(b)
  {
    acts := {};
    var i := 0;
    while i < |b|
      invariant 0 <= i <= |b|
      invariant forall p :: p in acts <==> InRange(p) && p.0 < i && b[p.0][p.1] == Empty
    {
      var j := 0;
      while j < |b[i]|
        invariant 0 <= j <= |b[i]|
        invariant forall p :: p in acts <==>
          InRange(p) && (p.0 < i || (p.0 == i && p.1 < j)) && b[p.0][p.1] == Empty
      {
        if b[i][j] == Empty {
          acts := acts + {(i, j)};
        }
        j := j + 1;
      }
      i := i + 1;
    }
  }

  /** result(board, action): rejects an action that is not an empty position,
      otherwise returns a copy of the board with the mover's mark at it. */
  method Result(b: Board, a: Pos) returns (r: Outcome)
    ensures a !in EmptyCells(b) <==> r == InvalidAction
    ensures a in EmptyCells(b) ==> r == Ok(Place(b, a))
  {
    var valid := Actions(b);
    if a !in valid {
      return InvalidAction;
    }
    var next := Player(b);
    var copy := b;
    copy := copy[a.0 := copy[a.0][a.1 := next]];
    return Ok(copy);
  }

  // ---------------------------------------------------------------------------
  // Winner, terminal, utility

  /** The eight lines in the order the source checks them: row i and then
      column i for i = 0, 1, 2, then the main diagonal and the anti-diagonal. */
  const Lines: seq<seq<Pos>> := [
    [(0, 0), (0, 1), (0, 2)], [(0, 0), (1, 0), (2, 0)],
    [(1, 0), (1, 1), (1, 2)], [(0, 1), (1, 1), (2, 1)],
    [(2, 0), (2, 1), (2, 2)], [(0, 2), (1, 2), (2, 2)],
    [(0, 0), (1, 1), (2, 2)], [(0, 2), (1, 1), (2, 0)]
  ]

  /** Mark `m` fills every cell of `line`. */
  predicate Owns(b: Board, m: Mark, line: seq<Pos>)
    requires |line| == 3
  {
    At(b, line[0]) == m && At(b, line[1]) == m && At(b, line[2]) == m
  }

  /** The first complete line among Lines[k..], in the source's order. */
  function WinnerFrom(b: Board, k: nat): (w: Option<Mark>)
    requires k <= |Lines|
    decreases |Lines| - k
    ensures w.Some? ==> w.value != Empty && exists n | k <= n < |Lines| :: Owns(b, w.value, Lines[n])
    ensures w.None? ==> forall m, n | m != Empty && k <= n < |Lines| :: !Owns(b, m, Lines[n])
  {
    if k == |Lines| then None
    else
      var line := Lines[k];
      var m := At(b, line[0]);
      if m != Empty && Owns(b, m, line) then Some(m) else WinnerFrom(b, k + 1)
  }

  /** winner(board): the mark that fills a complete row, column or diagonal, if any. */
  function Winner(b: Board): (w: Option<Mark>)
    ensures w.Some? ==> w.value != Empty && exists n | 0 <= n < |Lines| :: Owns(b, w.value, Lines[n])
    ensures w.None? ==> forall m, n | m != Empty && 0 <= n < |Lines| :: !Owns(b, m, Lines[n])
  {
    WinnerFrom(b, 0)
  }

  /** The game is over: someone has won or no empty cell remains. */
  predicate GameOver(b: Board) {
    Winner(b).Some? || EmptyCells(b) == {}
  }

  /** terminal(board): checks for a winner, then scans for an empty cell. */
  method Terminal(b: Board) returns (t: bool)
    ensures t <==> Winner(b).Some? || EmptyCells(b) == {}
  {
    if Winner(b).Some? {
      return true;
    }
    var i := 0;
    while i < |b|
      invariant 0 <= i <= |b|
      invariant forall p | p in EmptyCells(b) :: p.0 >= i
    {
      var j := 0;
      while j < |b[i]|
        invariant 0 <= j <= |b[i]|
        invariant forall p | p in EmptyCells(b) :: p.0 > i || (p.0 == i && p.1 >= j)
      {
        if b[i][j] == Empty {
          assert (i, j) in EmptyCells(b);
          return false;
        }
        j := j + 1;
      }
      i := i + 1;
    }
    return true;
  }

  /** utility(board): 1 if X has won, -1 if O has won, 0 otherwise. */
  function Utility(b: Board): (u: int)
    ensures -1 <= u <= 1
    ensures u == 1 <==> Winner(b) == Some(X)
    ensures u == -1 <==> Winner(b) == Some(O)
    ensures u == 0 <==> Winner(b).None?
  {
    match Winner(b)
    case Some(X) => 1
    case Some(O) => -1
    case _ => 0
  }

  // ---------------------------------------------------------------------------
  // Minimax values (specification)

  /** A fixed element of a non-empty set of positions. */
  ghost function Pick(s: set<Pos>): (a: Pos)
    requires s != {}
    ensures a in s
  {
    var a :| a in s; a
  }

  /** The largest value in `m` over the keys `s`; -2 (the source's starting
      value) when `s` is empty. */
  ghost function MaxOf(m: map<Pos, int>, s: set<Pos>): (v: int)
    requires s <= m.Keys
    decreases |s|
    ensures s == {} ==> v == -2
  {
    if s == {} then -2
    else
      var a := Pick(s);
      var rest := MaxOf(m, s - {a});
      if m[a] > rest then m[a] else rest
  }

  /** The smallest value in `m` over the keys `s`; 2 (the source's starting
      value) when `s` is empty. */
  ghost function MinOf(m: map<Pos, int>, s: set<Pos>): (v: int)
    requires s <= m.Keys
    decreases |s|
    ensures s == {} ==> v == 2
  {
    if s == {} then 2
    else
      var a := Pick(s);
      var rest := MinOf(m, s - {a});
      if m[a] < rest then m[a] else rest
  }

  /** MaxOf is the maximum: no key of `s` maps above it, and some key of a
      non-empty `s` maps to it. */
  lemma {:induction false} MaxOfIsMax(m: map<Pos, int>, s: set<Pos>)
    requires s <= m.Keys
    requires forall a | a in s :: -1 <= m[a] <= 1
    decreases |s|
    ensures forall a | a in s :: m[a] <= MaxOf(m, s)
    ensures s != {} ==> exists a | a in s :: m[a] == MaxOf(m, s)
  {
    if s != {} {
      var a := Pick(s);
      MaxOfIsMax(m, s - {a});
      forall x | x in s ensures m[x] <= MaxOf(m, s) {
        if x != a {
          assert x in s - {a};
        }
      }
      if s - {a} != {} {
        var w :| w in s - {a} && m[w] == MaxOf(m, s - {a});
        assert w in s;
      } else {
        assert m[a] == MaxOf(m, s);
      }
    }
  }

  /** MinOf is the minimum: no key of `s` maps below it, and some key of a
      non-empty `s` maps to it. */
  lemma {:induction false} MinOfIsMin(m: map<Pos, int>, s: set<Pos>)
    requires s <= m.Keys
    requires forall a | a in s :: -1 <= m[a] <= 1
    decreases |s|
    ensures forall a | a in s :: MinOf(m, s) <= m[a]
    ensures s != {} ==> exists a | a in s :: m[a] == MinOf(m, s)
  {
    if s != {} {
      var a := Pick(s);
      MinOfIsMin(m, s - {a});
      forall x | x in s ensures MinOf(m, s) <= m[x] {
        if x != a {
          assert x in s - {a};
        }
      }
      if s - {a} != {} {
        var w :| w in s - {a} && m[w] == MinOf(m, s - {a});
        assert w in s;
      } else {
        assert m[a] == MinOf(m, s);
      }
    }
  }


  /** The value of `b` when X (the maximiser) is to choose. */
  ghost function MaxValueOf(b: Board): (v: int)
    decreases |EmptyCells(b)|, 1
    ensures -1 <= v <= 1
  {
    if GameOver(b) then Utility(b)
    else
      MaxOfIsMax(MinValues(b), EmptyCells(b));
      MaxOf(MinValues(b), EmptyCells(b))
  }

  /** The value of `b` when O (the minimiser) is to choose. */
  ghost function MinValueOf(b: Board): (v: int)
    decreases |EmptyCells(b)|, 1
    ensures -1 <= v <= 1
  {
    if GameOver(b) then Utility(b)
    else
      MinOfIsMin(MaxValues(b), EmptyCells(b));
      MinOf(MaxValues(b), EmptyCells(b))
  }

  /** The value for O of every successor of `b`, by action. */
  ghost function MinValues(b: Board): (m: map<Pos, int>)
    decreases |EmptyCells(b)|, 0
    ensures forall a :: a in m <==> a in EmptyCells(b)
    ensures forall a | a in EmptyCells(b) :: m[a] == MinValueOf(Place(b, a))
    ensures forall a | a in m :: -1 <= m[a] <= 1
  {
    map a | a in EmptyCells(b) :: MinValueOf(Place(b, a))
  }

  /** The value for X of every successor of `b`, by action. */
  ghost function MaxValues(b: Board): (m: map<Pos, int>)
    decreases |EmptyCells(b)|, 0
    ensures forall a :: a in m <==> a in EmptyCells(b)
    ensures forall a | a in EmptyCells(b) :: m[a] == MaxValueOf(Place(b, a))
    ensures forall a | a in m :: -1 <= m[a] <= 1
  {
    map a | a in EmptyCells(b) :: MaxValueOf(Place(b, a))
  }

  // ---------------------------------------------------------------------------
  // Minimax search (the source's recursive loops)

  /** max_value(board): on a finished game the utility and no action; otherwise
      the best opponent value over all actions and an action attaining it. */
  method MaxValue(b: Board) returns (v: int, best: Option<Pos>)
    decreases |EmptyCells(b)|
    ensures v == MaxValueOf(b)
    ensures GameOver(b) ==> v == Utility(b) && best == None
    ensures !GameOver(b) ==> best.Some? && best.value in EmptyCells(b) && v == MinValueOf(Place(b, best.value))
    ensures !GameOver(b) ==> forall a {:trigger MinValueOf(Place(b, a))} | a in EmptyCells(b) :: MinValueOf(Place(b, a)) <= v
  {
    var over := Terminal(b);
    if over {
      return Utility(b), None;
    }
    v, best := -2, None;
    var acts := Actions(b);
    var todo := acts;
    while todo != {}
      invariant todo <= acts
      invariant forall a {:trigger MinValueOf(Place(b, a))} | a in acts && a !in todo :: MinValueOf(Place(b, a)) <= v
      invariant best.None? ==> v == -2 && acts <= todo
      invariant best.Some? ==> best.value in acts && best.value !in todo && MinValueOf(Place(b, best.value)) == v
      decreases |todo|
    {
      var a :| a in todo;
      var next := Result(b, a);
      var r, _ := MinValue(next.board);
      if r > v {
        v, best := r, Some(a);
      }
      todo := todo - {a};
    }
    MaxOfIsMax(MinValues(b), acts);
  }

  /** min_value(board): on a finished game the utility and no action; otherwise
      the worst opponent value over all actions and an action attaining it. */
  method MinValue(b: Board) returns (v: int, best: Option<Pos>)
    decreases |EmptyCells(b)|
    ensures v == MinValueOf(b)
    ensures GameOver(b) ==> v == Utility(b) && best == None
    ensures !GameOver(b) ==> best.Some? && best.value in EmptyCells(b) && v == MaxValueOf(Place(b, best.value))
    ensures !GameOver(b) ==> forall a {:trigger MaxValueOf(Place(b, a))} | a in EmptyCells(b) :: v <= MaxValueOf(Place(b, a))
  {
    var over := Terminal(b);
    if over {
      return Utility(b), None;
    }
    v, best := 2, None;
    var acts := Actions(b);
    var todo := acts;
    while todo != {}
      invariant todo <= acts
      invariant forall a {:trigger MaxValueOf(Place(b, a))} | a in acts && a !in todo :: v <= MaxValueOf(Place(b, a))
      invariant best.None? ==> v == 2 && acts <= todo
      invariant best.Some? ==> best.value in acts && best.value !in todo && MaxValueOf(Place(b, best.value)) == v
      decreases |todo|
    {
      var a :| a in todo;
      var next := Result(b, a);
      var r, _ := MaxValue(next.board);
      if r < v {
        v, best := r, Some(a);
      }
      todo := todo - {a};
    }
    MinOfIsMin(MaxValues(b), acts);
  }

  /** minimax(board): an optimal action for the player to move, none on a
      finished game. X maximises the value of the successor, O minimises it. */
  method Minimax(b: Board) returns (act: Option<Pos>)
    ensures GameOver(b) <==> act == None
    ensures act.Some? ==> act.value in EmptyCells(b)
    ensures act.Some? && NextMark(b) == X ==>
      MinValueOf(Place(b, act.value)) == MaxValueOf(b) &&
      forall a {:trigger MinValueOf(Place(b, a))} | a in EmptyCells(b) :: MinValueOf(Place(b, a)) <= MinValueOf(Place(b, act.value))
    ensures act.Some? && NextMark(b) == O ==>
      MaxValueOf(Place(b, act.value)) == MinValueOf(b) &&
      forall a {:trigger MaxValueOf(Place(b, a))} | a in EmptyCells(b) :: MaxValueOf(Place(b, act.value)) <= MaxValueOf(Place(b, a))
  {
    var play := Player(b);
    if play == X {
      var _, bestAct := MaxValue(b);
      act := bestAct;
    } else {
      var _, bestAct := MinValue(b);
      act := bestAct;
    }
  }
}
