/**
  `OpenHashingSolve`: depth-first search over the move catalogue, memoising the
  boards it has shown cannot be solved. The process-wide `LegalMoves` and
  `MinPegsonFailedBoard` of the program are passed in and returned explicitly,
  as is the memo and the vector the winning moves are pushed onto.
 */
module Solver {
  import opened Bits64
  import opened BoardEncoding
  import opened Moves
  import opened OpenHashing

  // ---------------------------------------------------------------------------
  // Plays.

  /** `ms` is a sequence of catalogue moves, each legal on the board the previous ones leave. */
  predicate IsPlay(catalog: seq<Move>, x: Board, ms: seq<Move>)
    decreases |ms|
  {
    ms == [] || (ms[0] in catalog && Legal(x, ms[0]) && IsPlay(catalog, Apply(x, ms[0]), ms[1..]))
  }

  /** The board left after playing `ms` from `x`. */
  function After(x: Board, ms: seq<Move>): Board
    decreases |ms|
  {
    if ms == [] then x else After(Apply(x, ms[0]), ms[1..])
  }

  /** `ms` wins the game from `x`: a play ending on a solved board. */
  predicate Wins(catalog: seq<Move>, x: Board, ms: seq<Move>)
  {
    IsPlay(catalog, x, ms) && IsSolved(After(x, ms))
  }

  /** Some play wins from `x`. */
  ghost predicate Solvable(catalog: seq<Move>, x: Board)
  {
    exists ms :: Wins(catalog, x, ms)
  }

  /** Some play leads from `x` to `y`. */
  ghost predicate Reachable(catalog: seq<Move>, x: Board, y: Board)
  {
    exists ms :: IsPlay(catalog, x, ms) && After(x, ms) == y
  }

  /** The last element first. */
  function Reverse(s: seq<Move>): (r: seq<Move>)
    ensures |r| == |s|
    ensures forall i | 0 <= i < |s| :: r[i] == s[|s| - 1 - i]
  {
    if s == [] then [] else Reverse(s[1..]) + [s[0]]
  }

  lemma ReverseAppend(s: seq<Move>, m: Move)
    ensures Reverse(s + [m]) == [m] + Reverse(s)
  {
    assert Reverse(s + [m])[0] == m;
  }

  /** Playing one more move in front of a play. */
  lemma PlayStep(catalog: seq<Move>, x: Board, m: Move, ms: seq<Move>)
    requires m in catalog && Legal(x, m)
    ensures IsPlay(catalog, x, [m] + ms) <==> IsPlay(catalog, Apply(x, m), ms)
    ensures After(x, [m] + ms) == After(Apply(x, m), ms)
  {
    assert ([m] + ms)[0] == m && ([m] + ms)[1..] == ms;
  }

  /** A winning play from a successor extends to one from the board itself. */
  lemma WinsStep(catalog: seq<Move>, x: Board, m: Move, ms: seq<Move>)
    requires m in catalog && Legal(x, m) && Wins(catalog, Apply(x, m), ms)
    ensures Wins(catalog, x, [m] + ms)
  {
    PlayStep(catalog, x, m, ms);
  }

  lemma ReachableStep(catalog: seq<Move>, x: Board, m: Move, y: Board)
    requires m in catalog && Legal(x, m) && Reachable(catalog, Apply(x, m), y)
    ensures Reachable(catalog, x, y)
  {
    var ms :| IsPlay(catalog, Apply(x, m), ms) && After(Apply(x, m), ms) == y;
    PlayStep(catalog, x, m, ms);
  }

  /** Every play of catalogue moves removes one peg per move. */
  lemma {:induction false} PlayPopCount(catalog: seq<Move>, x: Board, ms: seq<Move>)
    requires forall m <- catalog :: WellFormed(m)
    requires IsPlay(catalog, x, ms)
    ensures PopCount(After(x, ms)) + |ms| == PopCount(x)
    decreases |ms|
  {
    if ms != [] {
      ApplyPopCount(x, ms[0]);
      PlayPopCount(catalog, Apply(x, ms[0]), ms[1..]);
    }
  }

  /** Play never adds pegs, so a board is only reachable from boards with at least as many. */
  lemma ReachableFewer(catalog: seq<Move>, x: Board, y: Board)
    requires forall m <- catalog :: WellFormed(m)
    requires Reachable(catalog, x, y)
    ensures PopCount(y) <= PopCount(x)
  {
    var ms :| IsPlay(catalog, x, ms) && After(x, ms) == y;
    PlayPopCount(catalog, x, ms);
  }

  // ---------------------------------------------------------------------------
  // The memo invariant.

  /**
    The boards in the memo are unsolved, and every legal catalogue move from one
    of them leads to another: the memo is closed under play.
   */
  ghost predicate Closed(catalog: seq<Move>, memo: set<Board>)
  {
    && (forall b <- memo :: !IsSolved(b))
    && (forall b <- memo, m <- catalog :: Legal(b, m) ==> Apply(b, m) in memo)
  }

  /** A closed memo holds every board reachable from its members. */
  lemma {:induction false} ClosedReach(catalog: seq<Move>, memo: set<Board>, x: Board, ms: seq<Move>)
    requires Closed(catalog, memo) && x in memo && IsPlay(catalog, x, ms)
    ensures After(x, ms) in memo
    decreases |ms|
  {
    if ms != [] {
      ClosedReach(catalog, memo, Apply(x, ms[0]), ms[1..]);
    }
  }

  /** So no board in a closed memo can be solved. */
  lemma ClosedIsHopeless(catalog: seq<Move>, memo: set<Board>, x: Board)
    requires Closed(catalog, memo) && x in memo
    ensures !Solvable(catalog, x)
  {
    forall ms | IsPlay(catalog, x, ms)
      ensures !IsSolved(After(x, ms))
    {
      ClosedReach(catalog, memo, x, ms);
    }
  }

  /** Move `k` is the first catalogue move from `x` that is legal and leads to a solvable board. */
  ghost predicate FirstWinning(catalog: seq<Move>, x: Board, k: int)
  {
    && 0 <= k < |catalog|
    && Legal(x, catalog[k]) && Solvable(catalog, Apply(x, catalog[k]))
    && (forall i | 0 <= i < k :: Legal(x, catalog[i]) ==> !Solvable(catalog, Apply(x, catalog[i])))
  }

  /** The move pushed last is the first catalogue move from `x` that is legal and leads to a solvable board. */
  ghost predicate EndsWithFirstWinning(catalog: seq<Move>, x: Board, moves: seq<Move>)
  {
    |moves| > 0 && exists k :: FirstWinning(catalog, x, k) && moves[|moves| - 1] == catalog[k]
  }

  /**
    What a call on `x` did to the memo and the minimum: it only added boards,
    each reachable from `x`; the minimum never rose and is at most the peg count
    of every added board; and if it changed, it is the peg count of one of them.
   */
  ghost predicate Accounted(catalog: seq<Move>, x: Board, before: set<Board>, after: set<Board>,
                            minPegs: nat, newMin: nat)
  {
    && before <= after
    && newMin <= minPegs
    && (forall b <- after - before :: Reachable(catalog, x, b) && newMin <= PopCount(b))
    && (newMin == minPegs || exists b <- after - before :: newMin == PopCount(b))
  }

  // ---------------------------------------------------------------------------
  // The search.

  /**
    `OpenHashingSolve(x, successfulmoves, ImpossibleBoards)`, with the catalogue
    and `MinPegsonFailedBoard` made explicit. The memo is consulted first, then
    the board is tested for being solved, then the catalogue is tried in order
    and the first move that leads to a solution is pushed after the recursive
    call returns, so the vector receives the winning play last move first. A
    board with no such move is added to the memo, and the minimum is lowered to
    its peg count when that count is smaller.
   */
  method OpenHashingSolve(catalog: seq<Move>, x: Board, successfulMoves: seq<Move>,
                          impossible: OpenHash, minPegs: nat)
    returns (solved: bool, moves: seq<Move>, memo: OpenHash, newMin: nat)
    requires forall m <- catalog :: WellFormed(m)
    requires Valid(impossible) && Closed(catalog, Keys(impossible))
    ensures Valid(memo) && Closed(catalog, Keys(memo))
    ensures Accounted(catalog, x, Keys(impossible), Keys(memo), minPegs, newMin)
    ensures solved <==> Solvable(catalog, x)
    ensures solved ==> successfulMoves <= moves && Wins(catalog, x, Reverse(moves[|successfulMoves|..]))
    ensures !solved ==> moves == successfulMoves && x in Keys(memo)
    ensures x in Keys(impossible) ==> memo == impossible && newMin == minPegs
    ensures solved && !IsSolved(x) ==> |moves| > |successfulMoves| && EndsWithFirstWinning(catalog, x, moves)
    decreases PopCount(x), 2
  {
    var known := Search(impossible, x);
    if known {
      ClosedIsHopeless(catalog, Keys(impossible), x);
      return false, successfulMoves, impossible, minPegs;
    }
    if IsSolved(x) {
      assert Wins(catalog, x, []);
      assert successfulMoves[|successfulMoves|..] == [];
      return true, successfulMoves, impossible, minPegs;
    }
    solved, moves, memo, newMin := TryMoves(catalog, x, successfulMoves, impossible, minPegs);
  }

  /**
    The loop over the catalogue for a board that is neither in the memo nor
    solved: the first legal move whose board can be solved ends it; if there is
    none, the board joins the memo.
   */
  method TryMoves(catalog: seq<Move>, x: Board, successfulMoves: seq<Move>, impossible: OpenHash, minPegs: nat)
    returns (solved: bool, moves: seq<Move>, memo: OpenHash, newMin: nat)
    requires forall m <- catalog :: WellFormed(m)
    requires Valid(impossible) && Closed(catalog, Keys(impossible))
    requires x !in Keys(impossible) && !IsSolved(x)
    ensures Valid(memo) && Closed(catalog, Keys(memo))
    ensures Accounted(catalog, x, Keys(impossible), Keys(memo), minPegs, newMin)
    ensures solved <==> Solvable(catalog, x)
    ensures solved ==> successfulMoves <= moves && Wins(catalog, x, Reverse(moves[|successfulMoves|..]))
    ensures solved ==> |moves| > |successfulMoves| && EndsWithFirstWinning(catalog, x, moves)
    ensures !solved ==> moves == successfulMoves && x in Keys(memo)
    decreases PopCount(x), 1
  {
    memo, newMin, moves := impossible, minPegs, successfulMoves;
    var i := 0;
    while i < |catalog|
      invariant 0 <= i <= |catalog|
      invariant moves == successfulMoves
      invariant Valid(memo) && Closed(catalog, Keys(memo)) && x !in Keys(memo)
      invariant forall k | 0 <= k < i :: Legal(x, catalog[k]) ==> Apply(x, catalog[k]) in Keys(memo)
      invariant Accounted(catalog, x, Keys(impossible), Keys(memo), minPegs, newMin)
    {
      var found, after, memo', min' := TryAt(catalog, x, i, moves, impossible, memo, minPegs, newMin);
      if found {
        return true, after, memo', min';
      }
      moves, memo, newMin := after, memo', min';
      i := i + 1;
    }
    solved := false;
    memo, newMin := Fail(catalog, x, impossible, memo, minPegs, newMin);
  }

  /** One turn of the loop: catalogue move `i`, if it is legal on `x`. */
  method TryAt(catalog: seq<Move>, x: Board, i: int, successfulMoves: seq<Move>,
               impossible: OpenHash, memo: OpenHash, minPegs: nat, newMin: nat)
    returns (found: bool, moves: seq<Move>, memo': OpenHash, min': nat)
    requires forall m <- catalog :: WellFormed(m)
    requires 0 <= i < |catalog|
    requires Valid(memo) && Closed(catalog, Keys(memo)) && x !in Keys(memo)
    requires forall k | 0 <= k < i :: Legal(x, catalog[k]) ==> Apply(x, catalog[k]) in Keys(memo)
    requires Accounted(catalog, x, Keys(impossible), Keys(memo), minPegs, newMin)
    ensures Valid(memo') && Closed(catalog, Keys(memo')) && x !in Keys(memo')
    ensures Accounted(catalog, x, Keys(impossible), Keys(memo'), minPegs, min')
    ensures found ==> Solvable(catalog, x)
    ensures found ==> successfulMoves <= moves && Wins(catalog, x, Reverse(moves[|successfulMoves|..]))
    ensures found ==> |moves| > |successfulMoves| && EndsWithFirstWinning(catalog, x, moves)
    ensures !found ==> moves == successfulMoves
    ensures !found ==> forall k | 0 <= k <= i :: Legal(x, catalog[k]) ==> Apply(x, catalog[k]) in Keys(memo')
    decreases PopCount(x), 0, 1
  {
    var m := catalog[i];
    if !Legal(x, m) {
      Scanned(catalog, x, i, Keys(memo), Keys(memo));
      return false, successfulMoves, memo, newMin;
    }
    var after;
    found, after, memo', min' := TryMove(catalog, x, m, successfulMoves, memo, newMin);
    AccountedTrans(catalog, x, Keys(impossible), Keys(memo), Keys(memo'), minPegs, newMin, min');
    moves := after;
    if found {
      FirstFound(catalog, x, i, memo, moves);
    } else {
      Scanned(catalog, x, i, Keys(memo), Keys(memo'));
    }
  }

  /** Moves `0 .. i` have all been tried once move `i` has, and the memo only grew. */
  lemma Scanned(catalog: seq<Move>, x: Board, i: int, memo: set<Board>, memo': set<Board>)
    requires 0 <= i < |catalog| && memo <= memo'
    requires forall k | 0 <= k < i :: Legal(x, catalog[k]) ==> Apply(x, catalog[k]) in memo
    requires Legal(x, catalog[i]) ==> Apply(x, catalog[i]) in memo'
    ensures forall k | 0 <= k <= i :: Legal(x, catalog[k]) ==> Apply(x, catalog[k]) in memo'
  {
  }

  /** After the loop: every legal move led into the memo, so `x` joins it. */
  method Fail(catalog: seq<Move>, x: Board, impossible: OpenHash, memo: OpenHash, minPegs: nat, newMin: nat)
    returns (memo': OpenHash, min': nat)
    requires Valid(memo) && Closed(catalog, Keys(memo)) && x !in Keys(memo) && !IsSolved(x)
    requires forall k | 0 <= k < |catalog| :: Legal(x, catalog[k]) ==> Apply(x, catalog[k]) in Keys(memo)
    requires Accounted(catalog, x, Keys(impossible), Keys(memo), minPegs, newMin)
    ensures Valid(memo') && Closed(catalog, Keys(memo')) && x in Keys(memo')
    ensures Accounted(catalog, x, Keys(impossible), Keys(memo'), minPegs, min')
    ensures !Solvable(catalog, x)
  {
    memo', min' := RecordFailure(catalog, x, memo, newMin);
    StepFailure(catalog, x, Keys(impossible), Keys(memo), minPegs, newMin, min');
    ClosedIsHopeless(catalog, Keys(memo'), x);
  }

  /**
    What a failed board does last: it joins the memo, its pegs are counted, and
    the minimum drops to that count if the count is smaller.
   */
  method RecordFailure(catalog: seq<Move>, x: Board, memo: OpenHash, minPegs: nat)
    returns (memo': OpenHash, newMin: nat)
    requires Valid(memo) && Closed(catalog, Keys(memo)) && !IsSolved(x)
    requires forall k | 0 <= k < |catalog| :: Legal(x, catalog[k]) ==> Apply(x, catalog[k]) in Keys(memo)
    ensures Valid(memo') && Closed(catalog, Keys(memo')) && Keys(memo') == Keys(memo) + {x}
    ensures newMin <= minPegs && newMin <= PopCount(x)
    ensures newMin == minPegs || newMin == PopCount(x)
  {
    ClosedAdd(catalog, x, Keys(memo));
    memo' := Add(memo, x);
    var pegsOnBoard := CountPegs(x);
    PopCountIsPegCount(x);
    newMin := minPegs;
    if pegsOnBoard < newMin {
      newMin := pegsOnBoard;
    }
  }

  /**
    The body of the search loop for a legal move `m`: solve the board it leads
    to and, if that succeeds, push `m` after the moves pushed by the recursive
    call.
   */
  method TryMove(catalog: seq<Move>, x: Board, m: Move, successfulMoves: seq<Move>, memo: OpenHash, minPegs: nat)
    returns (found: bool, moves: seq<Move>, memo': OpenHash, newMin: nat)
    requires forall m <- catalog :: WellFormed(m)
    requires m in catalog && Legal(x, m)
    requires Valid(memo) && Closed(catalog, Keys(memo)) && x !in Keys(memo)
    ensures Valid(memo') && Closed(catalog, Keys(memo')) && x !in Keys(memo')
    ensures Accounted(catalog, x, Keys(memo), Keys(memo'), minPegs, newMin)
    ensures found <==> Solvable(catalog, Apply(x, m))
    ensures found ==> successfulMoves <= moves && |moves| > |successfulMoves| && moves[|moves| - 1] == m
    ensures found ==> Wins(catalog, x, Reverse(moves[|successfulMoves|..]))
    ensures !found ==> moves == successfulMoves && Apply(x, m) in Keys(memo')
    decreases PopCount(x), 0, 0
  {
    ApplyPopCount(x, m);
    var after;
    found, after, memo', newMin := OpenHashingSolve(catalog, Apply(x, m), successfulMoves, memo, minPegs);
    Step(catalog, x, m, Keys(memo), Keys(memo'), minPegs, newMin);
    if found {
      moves := after + [m];
      SolvedByMove(catalog, x, m, successfulMoves, after);
    } else {
      moves := after;
    }
  }

  /** What a call on a successor added is accounted to the board itself. */
  lemma Step(catalog: seq<Move>, x: Board, m: Move, memo: set<Board>, memo': set<Board>, minPegs: nat, newMin: nat)
    requires forall m <- catalog :: WellFormed(m)
    requires m in catalog && Legal(x, m) && x !in memo
    requires Accounted(catalog, Apply(x, m), memo, memo', minPegs, newMin)
    ensures x !in memo'
    ensures Accounted(catalog, x, memo, memo', minPegs, newMin)
  {
    forall b | b in memo' - memo
      ensures Reachable(catalog, x, b)
    {
      ReachableStep(catalog, x, m, b);
    }
    if x in memo' {
      ReachableFewer(catalog, Apply(x, m), x);
      ApplyPopCount(x, m);
    }
  }

  /** Two calls in a row, accounted together. */
  lemma AccountedTrans(catalog: seq<Move>, x: Board, memo: set<Board>, memo': set<Board>, memo'': set<Board>,
                       minPegs: nat, newMin: nat, min': nat)
    requires Accounted(catalog, x, memo, memo', minPegs, newMin)
    requires Accounted(catalog, x, memo', memo'', newMin, min')
    ensures Accounted(catalog, x, memo, memo'', minPegs, min')
  {
    if min' != newMin {
      var b :| b in memo'' - memo' && min' == PopCount(b);
      assert b in memo'' - memo;
    } else if newMin != minPegs {
      var b :| b in memo' - memo && newMin == PopCount(b);
      assert b in memo'' - memo;
    }
  }

  /** The bookkeeping of a failed board, added last. */
  lemma StepFailure(catalog: seq<Move>, x: Board, impossible: set<Board>, memo: set<Board>,
                    minPegs: nat, newMin: nat, min': nat)
    requires Accounted(catalog, x, impossible, memo, minPegs, newMin) && x !in memo
    requires min' <= newMin && min' <= PopCount(x) && (min' == newMin || min' == PopCount(x))
    ensures Accounted(catalog, x, impossible, memo + {x}, minPegs, min')
  {
    assert Reachable(catalog, x, x) by {
      assert IsPlay(catalog, x, []) && After(x, []) == x;
    }
    if min' != newMin {
      assert x in memo + {x} - impossible;
    } else if newMin != minPegs {
      var b :| b in memo - impossible && newMin == PopCount(b);
      assert b in memo + {x} - impossible;
    }
  }

  /** Pushing the move after a winning suffix extends the reversed play by one move at the front. */
  lemma SolvedByMove(catalog: seq<Move>, x: Board, m: Move, successfulMoves: seq<Move>, after: seq<Move>)
    requires m in catalog && Legal(x, m)
    requires successfulMoves <= after && Wins(catalog, Apply(x, m), Reverse(after[|successfulMoves|..]))
    ensures successfulMoves <= after + [m]
    ensures Wins(catalog, x, Reverse((after + [m])[|successfulMoves|..]))
    ensures Solvable(catalog, x)
  {
    var suffix := after[|successfulMoves|..];
    assert (after + [m])[|successfulMoves|..] == suffix + [m];
    ReverseAppend(suffix, m);
    WinsStep(catalog, x, m, Reverse(suffix));
  }

  /** Every move tried before `i` led into the closed memo, so none of them wins. */
  lemma FirstFound(catalog: seq<Move>, x: Board, i: int, memo: OpenHash, moves: seq<Move>)
    requires 0 <= i < |catalog| && Legal(x, catalog[i]) && Solvable(catalog, Apply(x, catalog[i]))
    requires Closed(catalog, Keys(memo))
    requires forall k | 0 <= k < i :: Legal(x, catalog[k]) ==> Apply(x, catalog[k]) in Keys(memo)
    requires |moves| > 0 && moves[|moves| - 1] == catalog[i]
    ensures FirstWinning(catalog, x, i)
    ensures EndsWithFirstWinning(catalog, x, moves)
  {
    forall k | 0 <= k < i && Legal(x, catalog[k])
      ensures !Solvable(catalog, Apply(x, catalog[k]))
    {
      ClosedIsHopeless(catalog, Keys(memo), Apply(x, catalog[k]));
    }
  }

  /** An unsolved board all of whose successors are in a closed memo can join it. */
  lemma ClosedAdd(catalog: seq<Move>, x: Board, memo: set<Board>)
    requires Closed(catalog, memo) && !IsSolved(x)
    requires forall k | 0 <= k < |catalog| :: Legal(x, catalog[k]) ==> Apply(x, catalog[k]) in memo
    ensures Closed(catalog, memo + {x})
  {
    forall b, m | b in memo + {x} && m in catalog && Legal(b, m)
      ensures Apply(b, m) in memo + {x}
    {
      if b == x {
        var k :| 0 <= k < |catalog| && catalog[k] == m;
      }
    }
  }

  // ---------------------------------------------------------------------------
  // The top-level call.

  /** `MinPegsonFailedBoard`'s starting value. */
  const InitialMinPegs: nat := 49

  /**
    The part of `UI` that solves: build the catalogue, start from an empty memo
    and a minimum of 49, and call the search with an empty vector. On success
    the vector holds a winning play last move first; on failure the minimum is
    the fewest pegs on any board that play can reach, or 49 if none has fewer.
   */
  method SolveBoard(x: Board) returns (solved: bool, winningMoves: seq<Move>, minPegs: nat)
    ensures solved <==> Solvable(GeneratePossibleMoves(), x)
    ensures solved ==> Wins(GeneratePossibleMoves(), x, Reverse(winningMoves))
    ensures !solved ==> winningMoves == [] && minPegs <= InitialMinPegs
    ensures !solved ==> forall ms | IsPlay(GeneratePossibleMoves(), x, ms) :: minPegs <= PopCount(After(x, ms))
    ensures !solved ==> minPegs == InitialMinPegs ||
                        exists ms :: IsPlay(GeneratePossibleMoves(), x, ms) && PopCount(After(x, ms)) == minPegs
  {
    var catalog := GeneratePossibleMoves();
    CatalogSound();
    var memo;
    solved, winningMoves, memo, minPegs := OpenHashingSolve(catalog, x, [], Empty(), InitialMinPegs);
    assert winningMoves[0..] == winningMoves;
    if !solved {
      FewestPegs(catalog, x, Keys(memo), minPegs);
    }
  }

  /**
    After a failed search from an empty memo, every board reachable from `x` is
    in the memo, so the minimum is at most its peg count; and a minimum below
    49 is the peg count of one of them.
   */
  lemma FewestPegs(catalog: seq<Move>, x: Board, memo: set<Board>, minPegs: nat)
    requires Closed(catalog, memo) && x in memo
    requires Accounted(catalog, x, {}, memo, InitialMinPegs, minPegs)
    ensures forall ms | IsPlay(catalog, x, ms) :: minPegs <= PopCount(After(x, ms))
    ensures minPegs == InitialMinPegs || exists ms :: IsPlay(catalog, x, ms) && PopCount(After(x, ms)) == minPegs
  {
    forall ms | IsPlay(catalog, x, ms)
      ensures minPegs <= PopCount(After(x, ms))
    {
      ClosedReach(catalog, memo, x, ms);
      MemoBound(catalog, x, memo, minPegs, After(x, ms));
    }
    if minPegs != InitialMinPegs {
      FewestReached(catalog, x, memo, minPegs);
    }
  }

  lemma MemoBound(catalog: seq<Move>, x: Board, memo: set<Board>, minPegs: nat, b: Board)
    requires Accounted(catalog, x, {}, memo, InitialMinPegs, minPegs) && b in memo
    ensures minPegs <= PopCount(b)
  {
    assert b in memo - {};
  }

  lemma FewestReached(catalog: seq<Move>, x: Board, memo: set<Board>, minPegs: nat)
    requires Accounted(catalog, x, {}, memo, InitialMinPegs, minPegs) && minPegs != InitialMinPegs
    ensures exists ms :: IsPlay(catalog, x, ms) && PopCount(After(x, ms)) == minPegs
  {
    var b :| b in memo - {} && minPegs == PopCount(b);
    assert Reachable(catalog, x, b);
    var ms :| IsPlay(catalog, x, ms) && After(x, ms) == b;
  }

  // ---------------------------------------------------------------------------
  // The order the winning moves are reported in.

  /** The board with pegs on 22, 23 and 25 only: three in a row with a gap at 24. */
  function GapBoard(): (b: Board)
    ensures forall i: nat :: Bit(b, i) <==> i == 22 || i == 23 || i == 25
  {
    OrWord(OrWord(Peg(22), Peg(23)), Peg(25))
  }

  /**
    `UI` prints the vector front to back as "Move Number 0, 1, ...", and its
    comment describes it as the moves from the initial board towards the
    solution, but the search pushes each move after the moves that follow it.
    `GapBoard` can be won, and every vector whose reversal wins from it, which
    by `SolveBoard` includes the vector the search returns, lists a first move
    that is not legal there.
   */
  lemma ListedOrderIsReversed()
    ensures Solvable(GeneratePossibleMoves(), GapBoard())
    ensures forall ws | Wins(GeneratePossibleMoves(), GapBoard(), Reverse(ws)) ::
              !IsPlay(GeneratePossibleMoves(), GapBoard(), ws)
    ensures forall ws | Wins(GeneratePossibleMoves(), GapBoard(), Reverse(ws)) ::
              ws != [] && !Legal(GapBoard(), ws[0])
  {
    JumpFacts();
    var first, second := MakeMove(22, 23, 24), MakeMove(25, 24, 23);
    MakeMoveWellFormed(22, 23, 24);
    MakeMoveWellFormed(25, 24, 23);
    CatalogComplete(22, 23, 24);
    CatalogComplete(25, 24, 23);
    GapBoardWins(GeneratePossibleMoves(), first, second);
    CatalogSound();
    NoBackwardsPlay(GeneratePossibleMoves());
  }

  /**
    With any catalogue of jumps, a vector whose reversal wins from `GapBoard` is
    not itself a play: already its first move is not legal there.
   */
  lemma NoBackwardsPlay(catalog: seq<Move>)
    requires forall m <- catalog :: WellFormed(m)
    ensures forall ws | Wins(catalog, GapBoard(), Reverse(ws)) :: !IsPlay(catalog, GapBoard(), ws)
    ensures forall ws | Wins(catalog, GapBoard(), Reverse(ws)) :: ws != [] && !Legal(GapBoard(), ws[0])
  {
    var x := GapBoard();
    assert PegsExactly(x, {22, 23, 25});
    forall ws | Wins(catalog, x, Reverse(ws))
      ensures !IsPlay(catalog, x, ws) && ws != [] && !Legal(x, ws[0])
    {
      GapWinsBackwards(catalog, x, ws);
    }
  }

  /**
    The search on `GapBoard`, as `UI` runs it: it succeeds, and the vector it
    prints is not a play, its first move being illegal on that board.
   */
  method ListGapBoard() returns (solved: bool, listed: seq<Move>)
    ensures solved && Wins(GeneratePossibleMoves(), GapBoard(), Reverse(listed))
    ensures !IsPlay(GeneratePossibleMoves(), GapBoard(), listed)
    ensures listed != [] && !Legal(GapBoard(), listed[0])
  {
    var minPegs;
    solved, listed, minPegs := SolveBoard(GapBoard());
    ListedOrderIsReversed();
  }

  /** The board has pegs on the positions in `p` and nowhere else. */
  ghost predicate PegsExactly(x: Board, p: set<int>)
  {
    forall i: nat :: Bit(x, i) <==> i in p
  }

  /** A legal catalogue move takes start and jump from the occupied positions and lands on a free one. */
  lemma MoveOn(x: Board, p: set<int>, m: Move)
    requires WellFormed(m) && Legal(x, m) && PegsExactly(x, p)
    ensures m.start as int in p && m.jump as int in p && m.destination as int !in p
    ensures m.start != m.jump
    ensures var s, j, d := m.start as int, m.jump as int, m.destination as int;
            || (j == d - 1 && s == d - 2) || (j == d + 1 && s == d + 2)
            || (j == d - 7 && s == d - 14) || (j == d + 7 && s == d + 14)
    ensures PegsExactly(Apply(x, m), p - {m.start as int, m.jump as int} + {m.destination as int})
  {
    JumpIndices(m.start as int, m.jump as int, m.destination as int);
    LegalIff(x, m);
    ApplyBits(x, m);
  }

  /** A board with two distinct pegs is not solved. */
  lemma TwoPegsUnsolved(x: Board, a: nat, b: nat)
    requires a < 64 && b < 64 && a != b && Bit(x, a) && Bit(x, b)
    ensures !IsSolved(x)
  {
    PopCountIsPegCount(x);
    IsSolvedIff(x);
    var s := Pegs(x);
    assert a in s && b in s;
    var t := s - {a};
    assert s == t + {a};
    assert t == (t - {b}) + {b};
  }

  /** With pegs on 22, 23 and 25 the only legal jumps are 22 over 23 and 23 over 22. */
  lemma GapOpenings(x: Board, m: Move)
    requires PegsExactly(x, {22, 23, 25}) && WellFormed(m) && Legal(x, m)
    ensures m.destination == 24 ==> PegsExactly(Apply(x, m), {24, 25})
    ensures m.destination != 24 ==> PegsExactly(Apply(x, m), {21, 25})
  {
    MoveOn(x, {22, 23, 25}, m);
    var s, j, d := m.start as int, m.jump as int, m.destination as int;
    if d == 24 {
      assert s == 22 && j == 23;
    } else {
      assert s == 23 && j == 22 && d == 21;
    }
  }

  /** No jump starts from pegs on 21 and 25, which are four apart. */
  lemma StuckAt21And25(catalog: seq<Move>, y: Board, ms: seq<Move>)
    requires forall m <- catalog :: WellFormed(m)
    requires PegsExactly(y, {21, 25}) && IsPlay(catalog, y, ms)
    ensures !IsSolved(After(y, ms))
  {
    TwoPegsUnsolved(y, 21, 25);
    if ms != [] {
      MoveOn(y, {21, 25}, ms[0]);
      assert false;
    }
  }

  /**
    From pegs on 22, 23 and 25 only, every winning play is 22 over 23 followed by
    a jump over or from 24, so the same moves in reverse start with a move that
    needs a peg on the empty position 24.
   */
  lemma GapWinsBackwards(catalog: seq<Move>, x: Board, ws: seq<Move>)
    requires forall m <- catalog :: WellFormed(m)
    requires PegsExactly(x, {22, 23, 25}) && Wins(catalog, x, Reverse(ws))
    ensures !IsPlay(catalog, x, ws)
    ensures ws != [] && !Legal(x, ws[0])
  {
    var ps := Reverse(ws);
    TwoPegsUnsolved(x, 22, 23);
    assert ps != [];
    var y := Apply(x, ps[0]);
    assert IsPlay(catalog, y, ps[1..]) && After(x, ps) == After(y, ps[1..]);
    GapOpenings(x, ps[0]);
    if ps[0].destination != 24 {
      StuckAt21And25(catalog, y, ps[1..]);
      assert false;
    }
    var m := GapFinish(catalog, y, ps[1..]);
    assert |ws| == 2 && ws[0] == ps[1] == m;
    LegalIff(x, m);
  }

  /** From pegs on 24 and 25 a winning play is one move, over or from 24. */
  lemma GapFinish(catalog: seq<Move>, y: Board, ms: seq<Move>) returns (m: Move)
    requires forall m <- catalog :: WellFormed(m)
    requires PegsExactly(y, {24, 25}) && IsPlay(catalog, y, ms) && IsSolved(After(y, ms))
    ensures ms == [m] && WellFormed(m) && (m.start == 24 || m.jump == 24)
  {
    TwoPegsUnsolved(y, 24, 25);
    m := ms[0];
    MoveOn(y, {24, 25}, m);
    var z := Apply(y, m);
    var d := m.destination as int;
    assert PegsExactly(z, {d});
    if |ms| > 1 {
      assert IsPlay(catalog, z, ms[1..]) && ms[1..][0] == ms[1];
      MoveOn(z, {d}, ms[1]);
      assert false;
    }
  }

  /** Playing 22 over 23 and then 25 over 24 wins from `GapBoard`, with any catalogue holding both moves. */
  lemma GapBoardWins(catalog: seq<Move>, first: Move, second: Move)
    requires WellFormed(first) && first.start == 22 && first.jump == 23 && first.destination == 24
    requires WellFormed(second) && second.start == 25 && second.jump == 24 && second.destination == 23
    requires first in catalog && second in catalog
    ensures Wins(catalog, GapBoard(), [first, second])
  {
    var y := GapFirstMove(GapBoard(), first);
    var z := GapSecondMove(y, second);
    assert [first, second][1..] == [second] && [second][1..] == [];
    assert IsPlay(catalog, z, []) && After(z, []) == z;
  }

  /** 22 over 23 is legal on `GapBoard` and leaves pegs on 24 and 25. */
  lemma GapFirstMove(x: Board, first: Move) returns (y: Board)
    requires forall i: nat :: Bit(x, i) <==> i == 22 || i == 23 || i == 25
    requires WellFormed(first) && first.start == 22 && first.jump == 23 && first.destination == 24
    ensures Legal(x, first) && y == Apply(x, first)
    ensures forall i: nat :: Bit(y, i) <==> i == 24 || i == 25
  {
    LegalIff(x, first);
    ApplyBits(x, first);
    y := Apply(x, first);
  }

  /** Then 25 over 24 is legal and leaves the single peg on 23, a solved board. */
  lemma GapSecondMove(y: Board, second: Move) returns (z: Board)
    requires forall i: nat :: Bit(y, i) <==> i == 24 || i == 25
    requires WellFormed(second) && second.start == 25 && second.jump == 24 && second.destination == 23
    ensures Legal(y, second) && z == Apply(y, second)
    ensures IsSolved(z)
  {
    LegalIff(y, second);
    ApplyBits(y, second);
    z := Apply(y, second);
    SinglePeg(z, 23);
  }

  lemma JumpFacts()
    ensures IsJump(22, 23, 24) && IsJump(25, 24, 23)
  {
    assert Row(22) == 3 && Row(23) == 3 && Row(24) == 3 && Row(25) == 3;
    assert Column(22) == 1 && Column(23) == 2 && Column(24) == 3 && Column(25) == 4;
  }

  /** A board whose only peg is on `p` is solved. */
  lemma SinglePeg(b: Board, p: nat)
    requires p < 64
    requires forall i: nat :: Bit(b, i) <==> i == p
    ensures IsSolved(b)
  {
    assert Pegs(b) == {p};
    PopCountIsPegCount(b);
    IsSolvedIff(b);
  }

  /**
    The evidently intended result: the winning moves in the order they are
    played, so that the listing starts on `x` and ends on a solved board.
   */
  method SolveInPlayOrder(x: Board) returns (solved: bool, moves: seq<Move>, minPegs: nat)
    ensures solved <==> Solvable(GeneratePossibleMoves(), x)
    ensures solved ==> Wins(GeneratePossibleMoves(), x, moves)
    ensures !solved ==> moves == [] && minPegs <= InitialMinPegs
    ensures !solved ==> forall ms | IsPlay(GeneratePossibleMoves(), x, ms) :: minPegs <= PopCount(After(x, ms))
    ensures !solved ==> minPegs == InitialMinPegs ||
                        exists ms :: IsPlay(GeneratePossibleMoves(), x, ms) && PopCount(After(x, ms)) == minPegs
  {
    var winningMoves;
    solved, winningMoves, minPegs := SolveBoard(x);
    moves := Reverse(winningMoves);
  }
}
