# Minesweeper agent and Tic-Tac-Toe minimax, modelled in Dafny

This project models two pieces of game logic and proves properties of them.

**Minesweeper** (`minesweeper/minesweeper.py`)

- The modules are:
  - `Minesweeper` (minesweeper_board.dfy): the board;
  - `Knowledge` (knowledge.dfy): sentences;
  - `Agent` (agent.dfy): the knowledge-base player.
- The board is a value `Game`, paired with the source's `Minesweeper` class. It has a height, a width, a `board` of booleans, the set `mines` and the set `minesFound`.
- `nearby_mines` is modelled as the method `NearbyMines`, with the source's 3x3 scan loop. It is proved to count exactly the on-board neighbouring mines, at most eight. `is_mine` follows Python's list indexing, where a negative index counts from the end and an index out of range raises `IndexError`. `won` is set equality.
- A `Sentence` is a value: a set of cells and a count. Its equality is the source's `__eq__`.
  - `known_mines`, `known_safes`, `mark_mine` and `mark_safe` are member functions.
  - About cells and counts, they prove that `known_mines`/`known_safes` are sound and complete:
    - whatever they return is a mine (resp. safe) in every mine set the sentence is true of;
    - for a satisfiable sentence, a cell `known_mines` leaves out is safe in some mine set the sentence is true of, a cell `known_safes` leaves out is a mine in some such set, and a cell both leave out is undetermined by the sentence;
    - marking a true mine or a truly safe cell keeps a sentence true.
- The player is the class `MinesweeperAI`. Its fields are the source's `moves_made`, `mines`, `safes` and `knowledge`, the last being a sequence of sentences. Its methods change those fields in place.
- `add_knowledge` becomes `AddKnowledge`. Its passes of the `while knowledge_changed` loop go through methods that each model one stretch of the source's body:
  - `NeighbourSentence`: the 3x3 scan that builds the new sentence;
  - `KnownFacts`: the union of known safes and mines;
  - `MarkSafes` and `MarkMines`: the marking loops, and `MarkFound` for both in turn;
  - `MarkClicked` and `Observe`: steps 1 to 3, the click, the safe mark and the new sentence;
  - `MarkKnownFacts`: collecting and marking what the sentences determine;
  - `Tidy`: that, followed by the filter `DropEmpty` that drops `Sentence(set(), 0)`;
  - `InferRow` and `InferSubsets`: the pair loop, which also visits sentences appended during the same pass;
  - `Pass`: one whole pass;
  - `Settle`: the `while knowledge_changed` loop itself.
- The main theorem is in the contract of `AddKnowledge`, about a ghost parameter `truth` that stands for any mine set.
  - The agent's state afterwards (known safes, known mines and sentences) is true of `truth` exactly when the state before was, the clicked cell is no mine and the sentence built from the report is true. The inference adds nothing false and loses nothing.
  - If `truth` is the real mine set, the state was true of it and the board reported truthfully, the `ValueError` branch is never taken.
  - When the loop settles, every sentence is undecided (neither `known_mines` nor `known_safes` yields anything) and the subset inference has nothing left to add.
- The marking steps state their new state exactly: `MarkKnownFacts` returns the old sets plus the unions and the old sentences marked with them, and `Tidy` drops the empty ones.
- The pair loop's result is stated from both sides, not as one list:
  - from above: `Pass` keeps the tidied sentences as a prefix of the new knowledge, followed only by sentences the pair loop may append, each new and the residual of two sentences before it whose cells are one strictly inside the other;
  - from below: when the pair loop runs to its end, every row has nothing left to add or raise against the sentences the loop started from and against every sentence up to its own position, including the sentences appended during the pass (`RowsClosed`).
- `AddKnowledge` and `Settle` return a ghost trace of the agent's knowledge after the click and after every pass.
  - Consecutive snapshots are related by `PassStep`, the upper bound above.
  - Every pass but the last changed something and ran its pair loop to its end (`PassClosed`, the lower bound above). The last pass may have stopped at ValueError or on the budget.
  - The fuel spent is exactly one per pass plus one per appended sentence.

**Tic-Tac-Toe** (`tictactoe/tictactoe.py`)

- The module `TicTacToe` (tictactoe.dfy) gives the board as three rows of three `X | O | Empty` cells.
- `player`, `actions`, `terminal`, `result`, `min_value`, `max_value` and `minimax` are methods with the source's loops. `winner`, `utility` and `initial_state` are functions.
- The value of the game is specified by ghost functions `MaxValueOf`/`MinValueOf`. They take the maximum, resp. minimum, of the opponent's value over the empty cells.
- The search methods are proved to compute exactly those values, to return an action that attains them, and to agree with `utility` on finished boards.

## Model

| member | source | states |
|---|---|---|
| Minesweeper.PyIndex | minesweeper/minesweeper.py:52-54 | a Python index into a list of length n is accepted exactly when -n <= i < n, and names position i or i + n |
| Minesweeper.Game.IsMine | minesweeper/minesweeper.py:52-54 | is_mine fails exactly on indices outside Python's range; on the board it is the board entry, and on a valid board it is membership in the mine set |
| Minesweeper.Game.MinesAround | minesweeper/minesweeper.py:56-79 | definition: the cells nearby_mines counts, within one row and column, not the cell itself, on the board, holding a mine; NearbyMines is proved against it |
| Minesweeper.Game.MinesAroundAreMines | minesweeper/minesweeper.py:16-32 | on a board whose grid and mine set agree, the counted cells are exactly the on-board neighbours in the mine set |
| Minesweeper.Game.NearbyMines | minesweeper/minesweeper.py:56-79 | the scan counts exactly the mined on-board neighbours of the cell, and the count is at most 8 |
| Minesweeper.Game.Won | minesweeper/minesweeper.py:81-85 | definition: won, the flagged cells are exactly the mines; WonIffAllMinesFlagged characterises it |
| Minesweeper.Game.WonIffAllMinesFlagged | minesweeper/minesweeper.py:81-85 | won holds iff the flagged cells are mines and as many as the mines |
| Knowledge.Sentence.KnownMines | minesweeper/minesweeper.py:105-111 | the whole cell set or nothing; nothing exactly when there are no cells or the count differs from the number of cells |
| Knowledge.Sentence.KnownSafes | minesweeper/minesweeper.py:113-119 | the whole cell set or nothing; nothing exactly when there are no cells or the count is non-zero |
| Knowledge.Sentence.MarkMine | minesweeper/minesweeper.py:121-128 | a member cell is removed and the count drops by one; a non-member leaves the sentence unchanged |
| Knowledge.Sentence.MarkSafe | minesweeper/minesweeper.py:130-136 | the cell is removed if present and the count never changes |
| Knowledge.Sentence.MarkMines | minesweeper/minesweeper.py:306-309 | after marking the mines of a set the sentence mentions none of them and only cells it had |
| Knowledge.Sentence.MarkSafes | minesweeper/minesweeper.py:302-305 | after marking the safe cells of a set the sentence mentions none of them, keeps its count, and only has cells it had |
| Knowledge.Residual | minesweeper/minesweeper.py:329-333 | the inferred sentence's cells lie in the larger sentence and outside the smaller one |
| Knowledge.KnownMinesSound | minesweeper/minesweeper.py:105-111 | known_mines of a true sentence returns only real mines |
| Knowledge.KnownSafesSound | minesweeper/minesweeper.py:113-119 | known_safes of a true sentence returns only safe cells |
| Knowledge.KnownMinesComplete | minesweeper/minesweeper.py:105-111 | for a satisfiable sentence, a cell known_mines does not return is safe in some mine set the sentence is true of |
| Knowledge.KnownSafesComplete | minesweeper/minesweeper.py:113-119 | for a satisfiable sentence, a cell known_safes does not return is a mine in some mine set the sentence is true of |
| Knowledge.MarkMineKeepsTruth | minesweeper/minesweeper.py:121-128 | marking a real mine keeps a sentence true, and a sentence whose marked form is true was true |
| Knowledge.MarkSafeKeepsTruth | minesweeper/minesweeper.py:130-136 | marking a safe cell keeps a sentence true, and a sentence whose marked form is true was true |
| Knowledge.MarkMinesKeepsTruth | minesweeper/minesweeper.py:306-309 | marking a set of real mines neither makes a sentence true nor false |
| Knowledge.MarkSafesKeepsTruth | minesweeper/minesweeper.py:302-305 | marking a set of safe cells neither makes a sentence true nor false |
| Knowledge.MarkMinesStep | minesweeper/minesweeper.py:306-309 | marking one more mine after a set of them is marking the enlarged set, in any order |
| Knowledge.MarkSafesStep | minesweeper/minesweeper.py:302-305 | marking one more safe cell after a set of them is marking the enlarged set, in any order |
| Knowledge.ResidualKeepsTruth | minesweeper/minesweeper.py:329-333 | the subset inference is sound: its conclusion is true wherever both premises are |
| Knowledge.EmptyPositiveNeverHolds | minesweeper/minesweeper.py:324-326 | the sentence on which the agent raises ValueError is true of no mine set |
| Knowledge.UndecidedIffNoFacts | minesweeper/minesweeper.py:105-119 | a non-empty sentence yields neither safes nor mines exactly when its count is neither 0 nor its number of cells |
| Agent.AllKnownSafes | minesweeper/minesweeper.py:293-299 | definition: the union of known_safes over the sentences; KnownFacts is proved to compute it and AllKnownSafesMembers characterises it |
| Agent.AllKnownMines | minesweeper/minesweeper.py:293-299 | definition: the union of known_mines over the sentences; KnownFacts is proved to compute it and AllKnownMinesMembers characterises it |
| Agent.AllKnownSafesMembers | minesweeper/minesweeper.py:293-299 | the union of known_safes holds exactly the cells some sentence determines to be safe |
| Agent.AllKnownMinesMembers | minesweeper/minesweeper.py:293-299 | the union of known_mines holds exactly the cells some sentence determines to be mines |
| Agent.NothingKnown | minesweeper/minesweeper.py:301-309 | when both unions are empty no sentence determines anything, so the pass marks nothing |
| Agent.KnownFactsSound | minesweeper/minesweeper.py:293-299 | the unions collected from true sentences contain only safe cells and only mines respectively |
| Agent.DropEmpty | minesweeper/minesweeper.py:311-314 | the filter keeps exactly the sentences other than Sentence(set(), 0) and never grows the list |
| Agent.UndeterminedAround | minesweeper/minesweeper.py:264-287 | definition: the new sentence's cells, the on-board neighbours of the cell, other than it, neither known safe nor known mined; NeighbourSentence is proved against it |
| Agent.MinedAround | minesweeper/minesweeper.py:278-281 | definition: the mines taken off the count, the known mines next to the cell that are not known safe, with no bounds check; NeighbourSentence is proved against it |
| Agent.ReportSentence | minesweeper/minesweeper.py:264-287 | definition: the sentence appended at line 287, the UndeterminedAround cells with the report minus the MinedAround cells as count; NeighbourSentence is proved to build it |
| Agent.NeighbourSentenceHolds | minesweeper/minesweeper.py:264-287 | the sentence built from a truthful report, with true safes and mines, is true |
| Agent.BoardReportIsTruthful | minesweeper/minesweeper.py:56-79 | nearby_mines of a valid board for a mine-free cell is a truthful report |
| Agent.MarkSafesAll | minesweeper/minesweeper.py:302-305 | definition: the knowledge with every sentence marked safe with each cell of a set; MarkSafes, MarkFound and MarkSafesAllAt are proved against it |
| Agent.MarkMinesAll | minesweeper/minesweeper.py:306-309 | definition: the knowledge with every sentence marked with each mine of a set; MarkMines, MarkFound and MarkMinesAllAt are proved against it |
| Agent.MarkSafesAllAt | minesweeper/minesweeper.py:302-305 | marking a set of safe cells across the knowledge updates each sentence in its place |
| Agent.MarkMinesAllAt | minesweeper/minesweeper.py:306-309 | marking a set of mines across the knowledge updates each sentence in its place |
| Agent.MarkSafesAllStep | minesweeper/minesweeper.py:304-305 | the knowledge after one more mark_safe, sentence by sentence, is the knowledge marked with the enlarged set |
| Agent.MarkMinesAllStep | minesweeper/minesweeper.py:308-309 | the knowledge after one more mark_mine, sentence by sentence, is the knowledge marked with the enlarged set |
| Agent.MarkSafesAllSeparates | minesweeper/minesweeper.py:302-305 | after marking safe cells no sentence mentions a known safe cell or a known mine |
| Agent.MarkMinesAllSeparates | minesweeper/minesweeper.py:306-309 | after marking mines no sentence mentions a known safe cell or a known mine |
| Agent.MarkSafesKeepAllHold | minesweeper/minesweeper.py:302-305 | marking truly safe cells across the knowledge keeps all of it true and loses nothing: the marked knowledge is true of a mine set exactly when the old one is |
| Agent.MarkMinesKeepAllHold | minesweeper/minesweeper.py:306-309 | marking real mines across the knowledge keeps all of it true and loses nothing: the marked knowledge is true of a mine set exactly when the old one is |
| Agent.MarkSafeKeepAllHold | minesweeper/minesweeper.py:169-176 | mark_safe of a safe cell across the knowledge keeps all of it true and loses nothing |
| Agent.ResidualKeepsAllHold | minesweeper/minesweeper.py:329-339 | appending the residual of two sentences of the knowledge leaves the mine sets it is true of unchanged |
| Agent.MarkKnown | minesweeper/minesweeper.py:293-309 | definition: every sentence marked safe with the union of known_safes, then mined with the union of known_mines; MarkKnownFacts is proved to produce it |
| Agent.NothingKnownMarked | minesweeper/minesweeper.py:301-309 | when both unions are empty, marking leaves the knowledge as it is and no sentence determines anything |
| Agent.MarkKnownKeepsAllHold | minesweeper/minesweeper.py:293-309 | recording and marking everything the knowledge determines leaves the mine sets that safes, mines and knowledge together are true of unchanged |
| Agent.DropEmptyKeepsAllHold | minesweeper/minesweeper.py:311-314 | dropping Sentence(set(), 0) leaves the mine sets the knowledge is true of unchanged |
| Agent.AppendKeepsAllHold | minesweeper/minesweeper.py:287 | the knowledge with one more sentence is true of a mine set exactly when the knowledge and the sentence are |
| Agent.NoFactsUndecided | minesweeper/minesweeper.py:290-314 | when no sentence determines a cell, every sentence the filter keeps is undecided |
| Agent.RowAppendResidual | minesweeper/minesweeper.py:328-339 | appending the residual of sentence i and a sentence whose cells strictly contain its own, when that residual is not yet known, keeps every sentence row i appended new and a residual of row i |
| Agent.RowExtendsInferred | minesweeper/minesweeper.py:316-339 | after one more row, every sentence appended in the pass is still new and the residual of two sentences before it |
| Agent.PairOkGrows | minesweeper/minesweeper.py:328-339 | a pair whose residual is already known stays settled when the list grows |
| Agent.RowClosedAppend | minesweeper/minesweeper.py:317-339 | when row i is settled against the sentences before j, appending the residual of sentence i and sentence j settles it against sentence j as well, also on the longer list |
| Agent.RowAppendStep | minesweeper/minesweeper.py:328-339 | one append of row i: the row's appends stay new residuals of row i, row i is settled against every sentence up to the one it paired with, and the knowledge is true of the same mine sets |
| Agent.RowClosedEmptyPositive | minesweeper/minesweeper.py:320-326 | a row settled against every sentence whose own sentence is `set() = n > 0` sits among sentences that all have no cells |
| Agent.RowsClosed | minesweeper/minesweeper.py:316-339 | definition: the rows the pair loop has finished, each settled against the sentences present when the loop began and those up to its own position; InferSubsets and Pass are proved against it |
| Agent.RowsClosedExtend | minesweeper/minesweeper.py:316-339 | a row settled against every sentence, appended ones included, extends the finished rows before it, whose sentences it only appended to |
| Agent.RowsClosedPairClosed | minesweeper/minesweeper.py:316-339 | when every row is settled against every sentence, the subset inference has nothing to add |
| Agent.TopCount | minesweeper/minesweeper.py:316-339 | among the sentences with a given cell set there is one with the largest count |
| Agent.NegativeEmptyNeverCloses | minesweeper/minesweeper.py:316-339 | knowledge holding `set() = -1` beside a sentence with cells is never closed under the subset inference, so the pair loop never runs out of new sentences |
| Agent.NoContradictionPairMeans | minesweeper/minesweeper.py:321-326 | the settled form of the ValueError check holds exactly when no sentence `set() = n > 0` meets a sentence with other cells |
| Agent.Observed | minesweeper/minesweeper.py:207-287 | definition: the knowledge after steps 1 to 3, every sentence mark_safe-d at the clicked cell and the report's sentence appended; Observe is proved to produce it |
| Agent.PassStep | minesweeper/minesweeper.py:290-339 | definition: what one pass of the loop does to the safes, mines and knowledge: the sets grow by the unions, the tidied sentences stay as a prefix and every sentence after them is one the pair loop appends; Pass is proved to take such a step |
| Agent.PassClosed | minesweeper/minesweeper.py:316-339 | definition: the pass's pair loop ran to its end, every row settled against the tidied sentences and against every sentence up to its own; Pass is proved to end so whenever it settles, and Settle records it for every pass but the last |
| Agent.PassChanged | minesweeper/minesweeper.py:289-339 | definition: the pass sets knowledge_changed, because a union is non-empty or the pair loop appended a sentence; Pass returns exactly it as `changed` |
| Agent.PassCost | minesweeper/minesweeper.py:289-339 | definition: the fuel a pass spends, one for the pass and one per appended sentence; Pass is proved to spend it |
| Agent.Run | minesweeper/minesweeper.py:289-339 | definition: a trace of the loop, each snapshot following the one before by PassStep, every pass but the last changing something and ending closed; Settle and AddKnowledge return one, and RunStep extends one |
| Agent.Spent | minesweeper/minesweeper.py:289-339 | definition: the fuel a trace spends, the PassCost of its passes added up; Settle and AddKnowledge are proved to spend exactly it |
| Agent.RunStep | minesweeper/minesweeper.py:290-339 | a run whose last pass changed something and ended closed, extended by one more pass, is a run, and the fuel it spends grows by exactly that pass's cost |
| Agent.MinesweeperAI.constructor | minesweeper/minesweeper.py:144-158 | the player starts with the given dimensions, no moves, no known cells and no knowledge, which is sound for every mine set |
| Agent.MinesweeperAI.MarkMine | minesweeper/minesweeper.py:160-167 | the cell joins the known mines, every sentence gets mark_mine in its place, and sentences stay clear of known cells |
| Agent.MinesweeperAI.MarkSafe | minesweeper/minesweeper.py:169-176 | the cell joins the known safes, every sentence gets mark_safe in its place, and sentences stay clear of known cells |
| Agent.MinesweeperAI.MarkSafes | minesweeper/minesweeper.py:302-305 | the safe cells found join the known safes and every sentence is marked with all of them |
| Agent.MinesweeperAI.MarkMines | minesweeper/minesweeper.py:306-309 | the mines found join the known mines and every sentence is marked with all of them |
| Agent.MinesweeperAI.MarkClicked | minesweeper/minesweeper.py:210-212 | the clicked cell joins the known safes, every sentence is mark_safe-d in its place, and the state is true of a mine set exactly when the old one is and the cell is no mine |
| Agent.MinesweeperAI.Observe | minesweeper/minesweeper.py:207-288 | the click is recorded, the cell is safe, every old sentence is marked in place and the report sentence is appended, which is Observed of the old knowledge; the state is true of a mine set exactly when the old state, the cell being safe and the report sentence are |
| Agent.MinesweeperAI.NeighbourSentence | minesweeper/minesweeper.py:264-287 | the scanned sentence is ReportSentence of the cell: exactly the undetermined on-board neighbours, with the reported count minus the known mines around |
| Agent.MinesweeperAI.KnownFacts | minesweeper/minesweeper.py:293-299 | the collected sets are the unions of known_safes and known_mines over all sentences |
| Agent.MinesweeperAI.MarkFound | minesweeper/minesweeper.py:301-309 | the found safe cells and mines join the known ones, and every sentence is marked safe with the first set and then mined with the second |
| Agent.MinesweeperAI.InferRow | minesweeper/minesweeper.py:317-339 | one row of the pair loop: only appends, one unit of fuel per sentence, each appended sentence new and the residual of sentence i and an earlier sentence whose cells strictly contain those of sentence i; a settled row leaves sentence i settled against every sentence, appended ones included, and a contradiction at row i only among sentences without cells; ValueError at row i means sentence i is the contradiction and some sentence has cells; truth of the knowledge unchanged, and from true knowledge it never raises |
| Agent.MinesweeperAI.InferSubsets | minesweeper/minesweeper.py:316-339 | the pair loop only appends, each appended sentence new and the residual of two sentences before it with the first's cells strictly inside the second's, one unit of fuel per appended sentence, and reports OutOfFuel only with the budget spent; a settled loop met no contradiction beside a sentence with other cells and leaves every row settled against the sentences it started from and those up to its own (RowsClosed), and when it appends nothing the knowledge is closed under the inference; ValueError exactly matches the source's pair: a contradiction beside a sentence with other cells; the knowledge is true of a mine set afterwards exactly when it was before, and from true knowledge it never raises |
| Agent.MinesweeperAI.MarkKnownFacts | minesweeper/minesweeper.py:293-309 | the new safes and mines are the old ones plus the unions of known_safes and known_mines, the new knowledge is the old one marked with both, changed says exactly whether either union is non-empty, and the state is true of a mine set exactly when it was before |
| Agent.MinesweeperAI.Tidy | minesweeper/minesweeper.py:293-314 | the same new safes and mines, the new knowledge is the marked old one without Sentence(set(), 0), finding nothing leaves only undecided sentences, and the state is true of a mine set exactly when it was before |
| Agent.MinesweeperAI.Pass | minesweeper/minesweeper.py:290-339 | the new safes and mines are the old ones plus what the knowledge determined; the marked and filtered old knowledge is a prefix of the new one, followed only by new residuals of earlier sentences, one per unit of fuel spent; the pass is a PassStep costing one more unit; changed is exactly the loop's knowledge_changed; OutOfFuel only with the budget spent; a settled pass met no contradiction beside a sentence with other cells and ends PassClosed; a pass that changes nothing leaves only undecided sentences closed under the inference; ValueError only when a contradiction sits beside a sentence with other cells; the state is true of a mine set exactly when it was before, and a pass from sound knowledge never raises |
| Agent.MinesweeperAI.Settle | minesweeper/minesweeper.py:290-339 | the trace runs from the state before the loop to the state after it, pass by pass, every pass but the last changing something and ending PassClosed; the fuel spent is one per pass plus one per appended sentence, so OutOfFuel comes only with the budget spent; a settled loop leaves only undecided sentences with nothing to infer; ValueError only when a contradiction sits beside a sentence with other cells; the state is true of a mine set exactly when it was before, and from sound knowledge ValueError is never raised |
| Agent.MinesweeperAI.AddKnowledge | minesweeper/minesweeper.py:192-339 | the cell becomes a move and a safe cell, no set shrinks; the trace starts at Observed of the old knowledge and follows the loop pass by pass as Run states, spending one unit per pass and per appended sentence, so OutOfFuel comes only with the budget spent; a settled loop leaves only undecided sentences with nothing to infer; ValueError only when a contradiction sits beside a sentence with other cells; afterwards the state is true of a mine set exactly when the old state, the cell being safe and the report sentence all are, so nothing is lost and nothing false is added; from sound knowledge and a truthful report ValueError is never raised |
| Agent.MinesweeperAI.MakeSafeMove | minesweeper/minesweeper.py:399-404 | a known safe cell not yet played, or none exactly when every known safe cell has been played; nothing changes |
| Agent.MinesweeperAI.MakeRandomMove | minesweeper/minesweeper.py:413-427 | the first on-board cell in row-major order that is neither played nor a known mine, or none exactly when no such cell exists |
| TicTacToe.InitialState | tictactoe/tictactoe.py:13-19 | every cell of the starting board is empty |
| TicTacToe.EmptyCells | tictactoe/tictactoe.py:37-46 | definition: the positions of the board holding no mark; Actions is proved against it |
| TicTacToe.Place | tictactoe/tictactoe.py:58-63 | the move puts the mover's mark at the action, leaves every other cell as it was, and removes exactly the action from the empty cells |
| TicTacToe.PlaceAddsOneMark | tictactoe/tictactoe.py:58-63 | a move adds exactly one mark, so the turn passes to the other player |
| TicTacToe.Player | tictactoe/tictactoe.py:22-34 | X exactly when the number of marks is even, O exactly when it is odd |
| TicTacToe.Actions | tictactoe/tictactoe.py:37-46 | exactly the empty positions |
| TicTacToe.Result | tictactoe/tictactoe.py:49-63 | ValueError exactly when the action is not an empty position, otherwise the board with the mover's mark there |
| TicTacToe.WinnerFrom | tictactoe/tictactoe.py:70-84 | a reported mark owns one of the remaining lines, and no report means no mark owns any of them |
| TicTacToe.Winner | tictactoe/tictactoe.py:66-84 | the winner fills a complete row, column or diagonal, and there is none exactly when no mark fills a line |
| TicTacToe.Terminal | tictactoe/tictactoe.py:87-99 | true exactly when there is a winner or no empty cell remains |
| TicTacToe.Utility | tictactoe/tictactoe.py:102-111 | 1 exactly when X has won, -1 exactly when O has won, 0 exactly when nobody has |
| TicTacToe.MaxOfIsMax | tictactoe/tictactoe.py:145-152 | the running maximum started at -2 is an upper bound of all values and is attained by one of them |
| TicTacToe.MinOfIsMin | tictactoe/tictactoe.py:132-139 | the running minimum started at 2 is a lower bound of all values and is attained by one of them |
| TicTacToe.MaxValueOf | tictactoe/tictactoe.py:141-152 | the game value with X to choose lies in [-1, 1] |
| TicTacToe.MinValueOf | tictactoe/tictactoe.py:128-139 | the game value with O to choose lies in [-1, 1] |
| TicTacToe.MinValues | tictactoe/tictactoe.py:147-148 | for each action, the value of the resulting board for the minimiser, in [-1, 1] |
| TicTacToe.MaxValues | tictactoe/tictactoe.py:134-135 | for each action, the value of the resulting board for the maximiser, in [-1, 1] |
| TicTacToe.MaxValue | tictactoe/tictactoe.py:141-152 | the game value for X; on a finished board the utility and no action, otherwise an empty cell whose successor attains the maximum over all successors |
| TicTacToe.MinValue | tictactoe/tictactoe.py:128-139 | the game value for O; on a finished board the utility and no action, otherwise an empty cell whose successor attains the minimum over all successors |
| TicTacToe.Minimax | tictactoe/tictactoe.py:114-125 | no action exactly on a finished board; otherwise an empty cell that is optimal for the player to move |

## Left out

- Sentence objects are values here. The source updates them in place through mark_mine and mark_safe. But no sentence object is ever shared: each is created fresh, and the sets known_mines/known_safes return are only read into new unions. So updating in place and replacing the value are indistinguishable.
- Agent.MinesweeperAI.AddKnowledge: the source's `while knowledge_changed` loop has no evident bound. Here a `fuel` budget bounds the passes and the appended sentences: each pass spends one unit and one per sentence it appends, as the returned trace records. The extra status `OutOfFuel` is returned only once the budget is spent, and the remaining budget is returned with it. That status has no counterpart in the source.
- The source's pair loop never finishes on some contradictory knowledge. After a report below the number of known mines around the cell, the knowledge can hold `set() = -1`; lines 324-326 raise ValueError only for a positive count. Beside `{x, y} = 1` that sentence yields `{x, y} = 2`, then `{x, y} = 3`, and so on, each one new, so the inner loop over the growing list never ends. NegativeEmptyNeverCloses states that such knowledge is never closed under the inference; here the fuel turns the endless appends into OutOfFuel.
- Agent.MinesweeperAI.InferSubsets: each appended sentence is stated to be new and the residual of two earlier sentences, one strictly inside the other. A settled loop is stated to leave every row settled against the sentences the loop started from and those up to its own position. Which new sentences come out exactly, and in which order, is fixed only to that extent.
- Agent.PassStep: relates two snapshots from above only. The lower bound is PassClosed, which Run requires of every pass but the last. A last pass that stopped at ValueError or on the budget is related by PassStep alone.
- The `ValueError` raised by the pair loop becomes the status `Inconsistent`. The agent's state is left as it was when the loop stopped, as in the source.
- Mine placement in `Minesweeper.__init__` is random. The board and the mine set are inputs of `Game` instead.
- `random.choice` in make_safe_move picks some element; MakeSafeMove picks an arbitrary one.
- The second loop of make_random_move (lines 419-426) is not modelled. It runs only when the first loop found no cell, so it collects nothing and returns None. MakeRandomMove returns None at that point directly.
- Printing is not modelled: `Minesweeper.print`, `Sentence.__str__` and the diagnostic prints in add_knowledge.
- The commented-out code in add_knowledge and make_safe_move is not modelled.
- `getNeighbors` is not modelled. Nothing calls it.
- Board and agent sizes are natural numbers (`Minesweeper.Game` and the `Agent.MinesweeperAI.constructor`). The source accepts any integer, and a negative height or width only makes its `range()` loops empty: an agent of negative size behaves as one of size 0, and a board of negative size can only be built with no mines.
- Minesweeper.Game.NearbyMines and Minesweeper.Game.IsMine require the board to have `height` rows of `width` cells. `Minesweeper.__init__` always builds it so.
- Tie-breaking in min_value and max_value is not modelled. Which optimal action is returned depends on Python's set iteration order. The methods visit the actions in an arbitrary order and are proved only to return an action that attains the optimum.
- The tic-tac-toe board is exactly three rows of three cells, a type of its own. The source's loops use `len(board)`, but winner indexes cells 0 to 2 directly.
- The Tic-Tac-Toe game values are ghost specification functions. They state what the search computes and are not themselves executed.
- knights/puzzle.py is not part of this model. Its logic lives in a module `logic` that is not available.
