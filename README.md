# MCTS Connect Four, modelled in Dafny

This project models the core of a Connect Four player that chooses its moves
by Monte Carlo tree search. It has two parts.

- **The rules** (`board.dfy`, module `Board`). A board has 6 rows and 7
  columns of `'R'`, `'Y'` and the empty marker `'_'`, and row 0 is the top.
  - `makeMove` drops a piece into a column, writing the board array in place.
  - `getBoardCopy` copies a board.
  - `getNextMoves` makes one successor board per playable column, each on a
    fresh copy.
  - `hasWon` scans for four in a row, `hasMovesLeft` looks for an empty
    cell, and `getNextPlayer` alternates the colours.
- **The search tree** (`tree.dfy`, `scores.dfy`, `mctree.dfy`).
  - Each `GameState` node is a `Node` value in an arena `nodes: seq<Node>`
    held by the class `MCTree`. Parent and child links are indices, the root
    is node 0, and a child always sits at a larger index than its parent.
  - GameState's methods are `MCTree` methods that take the node's index.
    They change the arena in place: addToTotal, addVisit, roll, setParent,
    addChild and expand.
  - findHighestUCBILeaf descends by UCB score. It takes the first maximum at
    a node whose player is not the user, and the first minimum otherwise.
    An unvisited node scores +inf or -inf (`Score` in `scores.dfy`).
  - iterate selects a node, rolls it, and backs the score up to the root.
  - makeChoice runs the iterations and returns the board of the root child
    with the best average, together with that average.

Specification functions and what is proved about them:

- `Drop` and `NextGrids` give the successor boards. On a settled board (no
  empty cell under a filled one), each successor changes exactly the lowest
  empty cell of one playable column.
- `HasWon` holds exactly when some line of four fits on the board and holds
  the player (`FourInARow`).
- `NewState` and `ApplyTerminalRule` give the ±50 terminal scoring.
- `Credit` adds to every ancestor exactly once, along the walk `Ancestry`.
- `Stop` and `Descent` give the selection, and `Backup` gives one
  iteration's bookkeeping.
- `Rooted` is the tree invariant:
  - every node is consistently linked and attached below the root;
  - boards are 6x7;
  - the player alternates from parent to child;
  - terminal nodes other than the root are never expanded and hold no
    visits.

The constructor, `Expand`, `FindHighestUCBILeaf`, `RollAndBackUp`,
`Iterate`, `RunIterations` and `MakeChoice` keep `Rooted`. The single-step
helpers `AddState`, `SetParent`, `AddToTotal`, `AddVisit` and
`Backpropagate` keep only the consistency of the links (`Linked`).
`AddChild` and `Roll` promise neither. Between `Roll` and the end of the
backup, a terminal node other than the root holds -1 visits, which
`Rooted` does not allow.

The global `userPlayer` is the tree's constant `user`. The random playout
and the exploration term of the UCB score are inputs of the model (see below).

## Model

| member | source | states |
|---|---|---|
| Board.GetNextPlayer | main.py:325-329 | 'R' is followed by 'Y' and anything else by 'R', so the result is always 'R' or 'Y' and differs from an 'R'/'Y' input (an involution on the two colours) |
| Board.Landing | main.py:273-278 | the scan from a row walks down over empty cells below it, stops above a filled cell, and never passes the bottom row |
| Board.LandingRow | main.py:271-278 | makeMove's target row: every cell from row 1 down to it is empty, and the next one down is filled or off the board |
| Board.MakeMove | main.py:270-282 | the board array afterwards holds exactly `Drop` of its old contents: one cell, in the column given, written with the symbol |
| Board.DropFillsLowestEmpty | main.py:270-282 | on a settled board with room in the column, the piece lands in the lowest empty cell, no other cell changes, and the board stays settled |
| Board.GetBoardCopy | main.py:252-258 | a fresh array whose cells equal the given board |
| Board.PlayableBelow | main.py:288-289 | the columns with an empty top cell, every one of them, in strictly increasing order |
| Board.MoveOnCopy | main.py:290-292 | a fresh board holding the input with one move made on it |
| Board.GetNextMoves | main.py:285-294 | one fresh, distinct board per playable column in column order, each equal to the input with that move, so the input is untouched |
| Board.NextGridsAreSingleMoves | main.py:285-294 | the k-th successor of a settled board is the move in the k-th playable column: `player` in its lowest empty cell, every other cell unchanged, still settled |
| Board.HasWon | main.py:298-322 | hasWon is true exactly when some horizontal, vertical or diagonal line of four on the board holds the player (`FourInARow`); no win is false, not None |
| Board.ScansIffFourInARow | main.py:298-322 | hasWon's four scan ranges, taken together, find a start cell exactly when some line of four fits on the board and holds the player |
| Board.MoveNeverWinsForOpponent | main.py:297-322 | a move by p never creates a line of four for another player q, so a win for q after the move was already there |
| Board.EmptyFrom | main.py:261-266 | the row-major scan from a cell finds an empty cell iff one exists at or after that cell |
| Board.HasMovesLeft | main.py:261-266 | true iff the board has an empty cell |
| Board.MovesLeftIffPlayable | main.py:261-294 | on a settled board, moves are left iff getNextMoves produces at least one board |
| Scores.BelowIsStrictTotalOrder | main.py:158-171 | the comparison of scores, with -inf and +inf at the ends, is a strict total order |
| Scores.FirstBest | main.py:155-171 | an index no score beats, and which beats every score before it: the first maximum or the first minimum |
| Scores.FirstBestUnique | main.py:155-171 | those two properties pick out a single index |
| Scores.ArgBest | main.py:155-171 | the scan that keeps the current best and moves only on a strictly better score returns the first best index |
| Tree.ApplyTerminalRule | main.py:39-46 | a board won by the user gives total -50, 0 visits and a leaf; a board won only by the opponent gives +50, 0 visits and a leaf; otherwise the node is unchanged; board, player and links are never touched |
| Tree.NewState | main.py:29-46 | a new node has no parent, no children and no visits; total -50 iff the user has won, +50 iff only the opponent has, 0 iff the node is not a leaf |
| Tree.TerminalRuleIdempotent | main.py:53-60 | setParent's second terminal check changes nothing the constructor's check already decided, whatever the parent and player |
| Tree.Ancestry | main.py:78-93 | the walk from a node up the parent links strictly decreases, follows each parent link and ends at the parentless node |
| Tree.AncestryReachesRoot | main.py:78-93 | in a rooted tree that walk always ends at the root |
| Tree.Credit | main.py:71-93 | every node on the walk gains the increment exactly once, every other node is unchanged, links stay the same |
| Tree.CreditCompose | main.py:206-207 | addToTotal(v) followed by addVisit() is a single walk adding v and one visit |
| Tree.Ucb | main.py:108-111 | an unvisited node scores +inf iff its player is the user and -inf otherwise; a visited node scores a finite value |
| Tree.Average | main.py:216-219 | total / visits (the average times the visit count is the total) when visits are non-zero, and the raw total when the division by zero fails |
| Tree.ChildScores | main.py:131-137 | one score per child, in child order |
| Tree.Stop | main.py:139-173 | the descent ends at an unvisited non-root node or at a childless node, and that node lies below the start node (the start is on its walk to the root) |
| Tree.UnvisitedChildChosen | main.py:154-173 | with alternating players, if some child is unvisited the selection picks the first unvisited child, when maximizing and when minimizing |
| Mcts.Child | main.py:180-181 | the node expand makes has the given board, the parent, the next player and no children, and a terminal one has no visits |
| Mcts.AdoptedIsChild | main.py:180-181 | constructing GameState(board) and then linking it by setParent gives exactly that child |
| Mcts.AdoptKeepsLinked | main.py:49-63 | linking a parentless node under a parent with smaller children keeps every parent and child link consistent |
| Mcts.ExpandStep | main.py:179-181 | each pass of expand's loop keeps the tree rooted and appends the next successor as the next child |
| Mcts.DescentFromChild | main.py:154-173 | a descent from the child picked at a node is a descent from that node |
| Mcts.DescentKeepsChildren | main.py:139-173 | the selection adds no children to a node that already had some, and removes no node |
| Mcts.Rolled | main.py:65-69 | roll sets a terminal node's visit count to -1 and changes nothing else |
| Mcts.Backup | main.py:201-207 | one iteration's bookkeeping leaves every link as it was |
| Mcts.BackupEffect | main.py:201-207 | each node from the selected one up to the root gains the score and one visit exactly once; a selected terminal node gains its own total (which doubles) and ends with 0 visits; every other node is unchanged |
| Mcts.BackupKeepsRooted | main.py:201-207 | an iteration's bookkeeping keeps the tree rooted |
| Mcts.RootAverages | main.py:213-219 | one finite average per root child, in order |
| Mcts.MCTree.constructor | main.py:192-196 | the tree is rooted at the start node and holds exactly its expansion |
| Mcts.MCTree.AddState | main.py:29-46 | appends the new node `NewState` and keeps the links consistent |
| Mcts.MCTree.AddChild | main.py:62-63 | appends the child index to the parent's children, nothing else changes |
| Mcts.MCTree.SetParent | main.py:49-60 | the node gets the parent and the player after the parent's, is added to the parent's children, is re-scored by the terminal rule, and the links stay consistent |
| Mcts.MCTree.Roll | main.py:65-69 | a terminal node returns its total and has its visits set to -1; any other node returns -50, 0 or 50 and nothing changes |
| Mcts.MCTree.AddToTotal | main.py:71-82 | the arena afterwards is `Credit` with the value added to the totals |
| Mcts.MCTree.AddVisit | main.py:84-93 | the arena afterwards is `Credit` with one added to the visit counts |
| Mcts.MCTree.GetChildrenUCBIs | main.py:131-137 | returns exactly `ChildScores` |
| Mcts.MCTree.Expand | main.py:176-181 | keeps the tree rooted; the node gains one child per successor board, in column order, each made as `Child`, and no other node changes |
| Mcts.MCTree.FindHighestUCBILeaf | main.py:139-173 | keeps the tree rooted and returns what `Descent` prescribes from the node |
| Mcts.MCTree.Iterate | main.py:201-207 | keeps the tree rooted; the result is a descent from the root followed by `Backup` of the rolled score; existing children are kept |
| Mcts.MCTree.RollAndBackUp | main.py:204-207 | roll's score (the node's own total if terminal, else -50, 0 or 50) and the arena after `Backup` |
| Mcts.MCTree.Backpropagate | main.py:206-207 | the two walks together add the value and one visit to each ancestor once |
| Mcts.IterationStepOf | main.py:201-207 | what one call of iterate promises (a descent from the root, an admissible rolled score, and `Backup`) is one `IterationStep` |
| Mcts.StepsExtended | main.py:210-211 | a trace of iterations followed by one more iteration is again a trace of iterations |
| Mcts.MCTree.RunIterations | main.py:210-211 | iterate runs exactly `iterations` times: the ghost trace has iterations + 1 arenas, starts at the old arena, ends at the new one, and each consecutive pair is one `IterationStep`; the tree stays rooted and the root keeps its children |
| Mcts.MCTree.MakeChoice | main.py:209-230 | the arena afterwards is reached from the old one by exactly `iterations` steps of iterate (the ghost trace); the root's children are kept; returns the board and average of the first root child with the maximal average, which is at least every child's average |

## Left out

- simulate (main.py:333-365) is a random playout and is not modelled. `Roll` picks its result nondeterministically from -50, 0 and 50, the only values the playout returns.
- The finite branch of calculateUCBI (main.py:114-128) is not modelled. Its floating point square root and logarithm become the parameter `explore`, which maps (parent visits, visits) to the bonus; the sign flip for the non-user player is kept.
- The `10**200` fallback of calculateUCBI and its `visits == np.Infinity` check (main.py:97-98, main.py:127-128) are not modelled. Visit counts are integers here, so that check is never true.
- Floating point averages in makeChoice and calculateUCBI are exact `real` divisions, and integer totals and visit counts are unbounded.
- Mcts.MCTree.MakeChoice requires the root to have children. The `except` branch at main.py:232-234 would itself fail on an empty child list, so it is not modelled as a fallback.
- Mcts.MCTree.constructor requires a start node with no parent and no children, as the game loop builds it (main.py:405).
- Mcts.MCTree.Expand requires the node to be the root or not terminal. The search only expands such nodes, because a terminal node other than the root always has no visits and is returned first.
- Mcts.MCTree.AddState gives a node created by expand its parent's player where the source passes `None`. setParent overwrites the player straight away, and the player is not read in between.
- Node boards are values. Every node except the root gets its own copy of its board. The root's board is the caller's board itself, with no copy (main.py:405). After makeChoice, the game loop takes the chosen child's board (main.py:407) and later writes it in place through makeMove (main.py:392). No board is written while the tree is in use, so sharing and aliasing between nodes and the caller are not modelled. Boards are arrays only where they are built: in makeMove, getBoardCopy and getNextMoves.
- Board.GetBoardCopy takes the board as a value and returns a fresh array.
- Mcts.MCTree.Iterate returns the selected node, the tree after selection and the rolled score as ghost results, so that its contract can name them; the source returns nothing. For the same reason, Mcts.MCTree.RunIterations and Mcts.MCTree.MakeChoice return the ghost trace of arenas. makeChoice's first loop is the separate method `RunIterations`.
- The printing, keyboard input and game loop (main.py:238-249, main.py:368-441) are not modelled, and neither are the module-level globals `board` and `turn`.
