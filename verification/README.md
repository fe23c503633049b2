# Peg solitaire solver, modelled in Dafny

The program solves English peg solitaire on the 33-hole cross-shaped board.
Positions 0 .. 48 number a 7x7 grid row by row. The 16 positions outside the
cross ("corners") stay in the numbering. A board is a 64-bit word with bit `p`
set when position `p` holds a peg. A game counts as won when at most one peg is
left.

The model has five modules:

- `Bits64` (`bits64.dfy`) models `unsigned long long` as a natural number below
  2^64. Bitwise and, or and xor are defined bit by bit. `n - 1` wraps around
  explicitly. `PopCount` counts the set bits.
- `BoardEncoding` (`board.dfy`) defines `row`, `column` and `iscorner`, the
  `PEG` macro, `IsThisBoardSolved`, and the peg-counting loop of the search.
- `Moves` (`moves.dfy`) models `struct move` and `GeneratePossibleMoves`.
  - The `unsigned char` stores are modelled, including their wrap-around.
  - The 76-move catalogue is proved to be exactly the set of jumps on the
    cross, listed by ascending destination.
  - It also defines the legality test `(x & mask) == pattern` and the move
    itself, `x ^ mask`.
- `OpenHashing` (`open_hash.dfy`) models `class Open_Hash`, with 123787 buckets.
  Its meaning is the set of boards stored in it. `Search` and `Add` behave as
  set membership and set insertion.
- `Solver` (`solver.dfy`) models `OpenHashingSolve`.
  - It checks the memo first, then whether the board is solved.
  - It then scans the catalogue in order. The first move that leads to a
    solution wins.
  - That move is pushed after the recursive call, so the vector holds the play
    last move first.
  - A board with no winning move joins the memo, and `MinPegsonFailedBoard`
    drops to its peg count when that count is smaller.
  - The module also has the solving part of `UI`.

The process-wide `LegalMoves` and `MinPegsonFailedBoard` become explicit
parameters and results. So do the memo and the move vector, which the source
passes by reference. The search's correctness rests on one invariant: the memo
is closed under play, meaning every legal move from a board in the memo leads
to another board in the memo, and no board in it is solved.

The comment on `WinningMoves` (source.cc:234) says the vector runs from the
initial board towards the solution. The code builds the vector in reverse play
order, and the model follows the code. See "Findings".

## Model

| member | source | states |
|---|---|---|
| BoardEncoding.Peg | source.cc:33 | `PEG(n)` has exactly bit `n` set, for every position the shift of a signed 64-bit one can reach |
| BoardEncoding.RowColumn | source.cc:62-70 | `row` and `column` recompose the position as `7 * row + column`; the column lies in 0 .. 6 for a non-negative position and in -6 .. 0 for a negative one, as C++ truncating division gives |
| BoardEncoding.CornerCount | source.cc:73-75 | of the 49 grid positions, 16 are corners and 33 can hold a peg |
| BoardEncoding.IsSolvedIff | source.cc:57-59 | `!(n & (n - 1))` holds exactly when the board has at most one peg, so the empty board counts as solved too |
| BoardEncoding.PopCountIsPegCount | source.cc:27-30 | the number of set bits of a board is the number of occupied positions |
| BoardEncoding.CountPegs | source.cc:211-218 | the shift-and-add loop returns the number of occupied positions, which is at most one exactly when the board is solved |
| Moves.ToUChar | source.cc:37-40 | storing an `int` into an `unsigned char` field keeps its value modulo 256 |
| Moves.MakeMoveWellFormed | source.cc:98-99 | the mask built from `PEG` holds exactly start, jump and destination; the pattern holds exactly start and jump |
| Moves.JumpIndices | source.cc:90-135 | a jump's three positions are distinct, and start and jump lie 2 and 1 steps from the destination along its row or column |
| Moves.AcceptedIsJump | source.cc:90-135 | a candidate that passes its direction's test never needed the `unsigned char` wrap, and its positions form a jump on the cross |
| Moves.AcceptedIffArrives | source.cc:84-135 | on a playable destination, each direction's test accepts exactly when a jump can land there from that side of the cross; for destinations in rows 0 and 1 the start two rows above wraps in the `unsigned char` (to 244 .. 246 and 251 .. 253) and the corner test rejects it |
| Moves.CandidatesAtSize | source.cc:84-136 | the generator appends one move per jump landing on the destination, and none for a corner |
| Moves.CatalogSize | source.cc:52-53 | the generated catalogue holds 76 moves |
| Moves.CatalogSound | source.cc:78-138 | every generated move is a jump on the cross carrying its mask and pattern |
| Moves.CatalogComplete | source.cc:78-138 | every jump on the cross is in the generated catalogue |
| Moves.CatalogIsAllJumps | source.cc:78-138 | a move is in the catalogue exactly when it is a well-formed jump |
| Moves.WellFormedIsMakeMove | source.cc:37-49 | a well-formed move is determined by its start, jump and destination |
| Moves.CatalogOrdered | source.cc:82-137 | the catalogue lists its moves by ascending destination and, for one destination, in the order left, right, above, below; so no move appears twice |
| Moves.CandidatesAmongRanked | source.cc:84-136 | for one destination the accepted candidates are appended in the order the four tests are written, each in its own slot |
| Moves.LegalIff | source.cc:199 | `(x & mask) == pattern` holds exactly when start and jump hold pegs and the destination is empty |
| Moves.ApplyBits | source.cc:200 | `x ^ mask` after a legal move empties start and jump, fills the destination, and leaves every other bit alone |
| Moves.ApplyPegs | source.cc:200 | the same, stated on the set of occupied positions |
| Moves.ApplyPopCount | source.cc:199-200 | a legal move lowers the peg count by exactly one |
| Moves.ApplyUndo | source.cc:44-45 | xor-ing the same mask twice restores the board |
| Moves.ApplyOnGrid | source.cc:199-200 | a legal move never places a peg outside the cross |
| OpenHashing.Empty | source.cc:145-146 | a fresh table has 123787 empty buckets, a zero counter, and stores no board |
| OpenHashing.InBucket | source.cc:153-159 | in a valid table a board is stored exactly when it sits in bucket `key % 123787` |
| OpenHashing.Search | source.cc:150-164 | `Search` returns true exactly when the board is in the table |
| OpenHashing.Add | source.cc:167-181 | `Add` inserts the board into the stored set and keeps buckets duplicate-free and filed by `key % 123787`; the counter rises only for a new board; adding a stored board changes nothing |
| OpenHashing.Appended | source.cc:176-180 | appending a new board to its bucket keeps the table valid, adds exactly that board, and counts it |
| Solver.PlayPopCount | source.cc:199-200 | every play of catalogue moves removes one peg per move, which is why the recursion terminates |
| Solver.ClosedIsHopeless | source.cc:188-189 | no board in a memo closed under play can be solved, so answering false on a memo hit is sound |
| Solver.ClosedAdd | source.cc:208-209 | an unsolved board whose legal moves all lead into the closed memo may join it without breaking closure |
| Solver.OpenHashingSolve | source.cc:186-225 | returns true exactly when some play wins; on success the moves pushed by this call, reversed, form a winning play and the last one pushed is the first catalogue move that leads to a solvable board; on failure the vector is unchanged and the board is in the memo; the memo stays valid and closed, only gains boards reachable from the board, and the minimum never rises |
| Solver.TryMoves | source.cc:194-224 | the loop over the catalogue wins exactly when the board is solvable; otherwise it records the board as hopeless and returns the vector unchanged |
| Solver.TryAt | source.cc:195-205 | one loop turn: a move it reports as winning is the first winning move; after a losing turn the vector is as it was, and every move tried so far leads into the memo |
| Solver.TryMove | source.cc:199-204 | a legal move succeeds exactly when its board is solvable; on success it is pushed after the moves of the recursive call |
| Solver.SolvedByMove | source.cc:203 | pushing a move after a winning suffix puts that move at the front of the reversed play |
| Solver.FirstFound | source.cc:194-205 | since the moves tried before it all led into the closed memo, the first legal move that succeeds is the first winning one |
| Solver.Fail | source.cc:208-224 | after a loop with no winning move the board is unsolvable, and it joins the memo without breaking closure |
| Solver.RecordFailure | source.cc:208-221 | the failed board joins the memo, and the minimum becomes the smaller of itself and the board's peg count |
| Solver.SolveBoard | source.cc:229-261 | from an empty memo and a minimum of 49: success exactly when solvable, with the vector reversed being a winning play; on failure the reported minimum is at most the peg count of every board play can reach, and it is either 49 or the peg count of one of them |
| Solver.FewestPegs | source.cc:184-185 | after a failed search the minimum bounds every reachable board's peg count from below and, unless it is still 49, is attained |
| Solver.ListedOrderIsReversed | source.cc:234-254 | the board with pegs on 22, 23 and 25 can be won, and every vector whose reversal is a winning play from it, the kind of vector the search returns, is not itself a legal play when read front to back as `UI` prints it: its first move is already illegal on that board |
| Solver.NoBackwardsPlay | source.cc:252-254 | the same with any catalogue of jumps: a winning play from that board, listed last move first, is not a play, and its first entry is not legal on that board |
| Solver.ListGapBoard | source.cc:229-254 | `UI`'s search on that board succeeds, and the vector it prints is not a play from the board: its first entry is not legal there |
| Solver.SolveInPlayOrder | source.cc:234-235 | the corrected listing: on success the moves in play order win from the initial board; the failure results are as in `SolveBoard` |

## Left out

- `main` (source.cc:277-318) is left out because it is file and console I/O. It reads a file name, parses the position numbers with `strtok` and `stoi`, and `PEG`s them into a board. Boards are parameters here.
- `UI` (source.cc:229-274) timing and printing are left out: `clock`, the `double`/`float` arithmetic and `cout`. Only its solving part is modelled, as `Solver.SolveBoard`.
- The `#pragma warning` line is a compiler setting.
- Hash-table performance is not modelled: bucket distribution, vector growth, recursion depth. Only the stored set and the representation invariant are modelled.
- OpenHashing.Add: `OH_EntriesAdded` is a 32-bit `int`, but the model counts with an unbounded integer. The program never reads the counter: it is only zeroed (source.cc:146) and incremented (source.cc:180).
- Moves.GeneratePossibleMoves: returns a fresh sequence, while the source appends to the vector it is passed (source.cc:78, source.cc:100). The only call (source.cc:308) passes the empty global `LegalMoves`, where the two agree.
- BoardEncoding.Peg: requires a position below 63. `(long long) 1 << 63` and beyond is undefined or signed behaviour in C++. The generator, the only caller in the modelled core, passes 0 .. 48. `main` applies `PEG` to unchecked numbers read from the file (source.cc:303), and `main` is left out.
- The `char destination` loop variable of `GeneratePossibleMoves` is an `int`. It only takes the values 0 .. 48, which every `char` holds.
- `MinPegsonFailedBoard` is a `nat`. The source compares it, an `int` that only ever holds 0 .. 49, with an `unsigned int`. No conversion changes a value in that range.
- Solver.OpenHashingSolve: takes the catalogue as a parameter that must contain only well-formed jumps, in place of the global `LegalMoves`. It also requires the memo to be closed under play. Both hold for the only call the program makes, which `Solver.SolveBoard` sets up.
- Solver.OpenHashingSolve: on success, the contract names only the first move played. That move is the first catalogue move leading to a solvable board. The later moves are stated to complete a winning play, not to be the first winning choice on their own boards. The program promises only a sequence of moves that solves the game (source.cc:184), and that is what the contract states.

## Findings

| source | as written | input that shows it | evidently intended | confidence | as-written member | corrected member |
|---|---|---|---|---|---|---|
| source.cc:203, source.cc:234-235, source.cc:253-254 | the search pushes each winning move after the moves that follow it, so `WinningMoves` ends up in reverse play order; `UI` prints it front to back as "Move Number 0, 1, ..." | pegs on 22, 23 and 25: every winning play is 22 over 23 followed by a jump over or from 24, so the listing starts with a move that needs a peg on the empty position 24 | list the moves from the initial board towards the solution, as the comment on `WinningMoves` says | not executed | Solver.ListedOrderIsReversed | Solver.SolveInPlayOrder |
