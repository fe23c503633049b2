/**
  The 7x7 peg-solitaire board: positions 0..48 are numbered row by row, and a
  board is a 64-bit word whose bit `p` is set when position `p` holds a peg.
  The sixteen corner positions outside the cross hold no peg in a real game,
  but stay in the numbering so that row and column are a division and a
  remainder by 7.
 */
module BoardEncoding {
  import opened Bits64

  /** The `board` typedef: an `unsigned long long` occupancy word. */
  type Board = Word

  /** Number of positions in the 7x7 grid. */
  const Cells: int := 49

  /** C++ `int` division, which truncates toward zero. */
  function Row(position: int): int
  {
    if position >= 0 then position / 7 else -((-position) / 7)
  }

  /** C++ `int` remainder, which takes the sign of the dividend. */
  function Column(position: int): int
  {
    if position >= 0 then position % 7 else -((-position) % 7)
  }

  /**
    Row and column recompose the position, and the column takes the sign of
    the position, as C++ `/` and `%` on `int` do.
   */
  lemma RowColumn(position: int)
    ensures position == 7 * Row(position) + Column(position)
    ensures position >= 0 ==> 0 <= Column(position) < 7
    ensures position < 0 ==> -7 < Column(position) <= 0
  {
  }

  /** A position outside the cross: both its row and its column lie outside 2..4. */
  predicate IsCorner(position: int)
  {
    CornerCell(Row(position), Column(position))
  }

  /** A cell outside the cross, given by row and column. */
  predicate CornerCell(r: int, c: int)
  {
    (r < 2 || r > 4) && (c < 2 || c > 4)
  }

  /** A position a peg can occupy. */
  predicate Playable(position: int)
  {
    0 <= position < Cells && !IsCorner(position)
  }

  /**
    `PEG(number)`: the word with only bit `number` set. The shift is done on a
    signed `long long`, so it is only meaningful below 63.
   */
  function Peg(number: int): (r: Board)
    requires 0 <= number < 63
    ensures forall i: nat :: Bit(r, i) <==> i == number
  {
    Pow2Monotone(number + 1, 64);
    Pow2Word();
    forall i: nat ensures Bit(Pow2(number), i) <==> i == number {
      BitPow2(number, i);
    }
    Pow2(number)
  }

  /** `IsThisBoardSolved`: `!(n & (n - 1))` on an unsigned 64-bit word. */
  predicate IsSolved(n: Board)
  {
    And(n, Decrement(n)) == 0
  }

  /** The positions holding a peg: the set view of a board. */
  ghost function Pegs(b: Board): set<int>
  {
    set i: nat | i < 64 && Bit(b, i)
  }

  /**
    Every set bit is a playable position: no corner and nothing above 48. The
    boards of a real game have this shape; reading a board from a file does not
    check it (source.cc:303).
   */
  predicate OnGrid(b: Board)
  {
    forall i: nat :: i < 64 && Bit(b, i) ==> Playable(i)
  }

  // ---------------------------------------------------------------------------
  // The cross-shaped layout.

  /** The number of corners among positions `0 .. n - 1`. */
  function CornersBelow(n: nat): nat
  {
    if n == 0 then 0 else CornersBelow(n - 1) + (if IsCorner(n - 1) then 1 else 0)
  }

  lemma {:induction false} CornersBelowIsCount(n: nat)
    ensures CornersBelow(n) == CountWhere(IsCorner, n)
  {
    if n > 0 {
      CornersBelowIsCount(n - 1);
    }
  }

  /** How many of the positions `0 .. n - 1` satisfy `P`. */
  function CountWhere(P: int -> bool, n: nat): nat
  {
    if n == 0 then 0 else CountWhere(P, n - 1) + (if P(n - 1) then 1 else 0)
  }

  /** The positions `0 .. n - 1` that satisfy `P`. */
  ghost function Where(P: int -> bool, n: nat): set<int>
  {
    set p | 0 <= p < n && P(p)
  }

  lemma {:induction false} WhereCard(P: int -> bool, n: nat)
    ensures |Where(P, n)| == CountWhere(P, n)
    decreases n, 1
  {
    if n > 0 {
      WhereCardStep(P, n);
    }
  }

  lemma {:induction false} WhereCardStep(P: int -> bool, n: nat)
    requires n > 0
    ensures |Where(P, n)| == CountWhere(P, n)
    decreases n, 0
  {
    WhereCard(P, n - 1);
    var previous, current := Where(P, n - 1), Where(P, n);
    if P(n - 1) {
      forall p ensures p in current <==> p in previous + {n - 1} { }
      assert current == previous + {n - 1};
      assert n - 1 !in previous;
    } else {
      forall p ensures p in current <==> p in previous { }
      assert current == previous;
    }
  }

  /** Below the end of the grid, a position is playable exactly when it is not a corner. */
  lemma {:induction false} PlayableCount(n: nat)
    requires n <= Cells
    ensures CountWhere(Playable, n) == n - CornersBelow(n)
    decreases n, 1
  {
    if n > 0 {
      PlayableCountStep(n);
    }
  }

  lemma {:induction false} PlayableCountStep(n: nat)
    requires 0 < n <= Cells
    ensures CountWhere(Playable, n) == n - CornersBelow(n)
    decreases n, 0
  {
    PlayableCount(n - 1);
  }

  /** 16 of the 49 positions are corners, and 33 are playable. */
  lemma CornerCount()
    ensures |set p | 0 <= p < Cells && IsCorner(p)| == 16
    ensures |set p | 0 <= p < Cells && Playable(p)| == 33
  {
    CornerCountFrom(0);
    assert Where(IsCorner, Cells) == set p | 0 <= p < Cells && IsCorner(p);
    assert Where(Playable, Cells) == set p | 0 <= p < Cells && Playable(p);
  }

  // The counts are taken from a position passed in as a variable, so that the
  // recursive counts are not evaluated on literal arguments.
  lemma CornerCountFrom(zero: nat)
    requires zero == 0
    ensures |Where(IsCorner, zero + Cells)| == 16 && |Where(Playable, zero + Cells)| == 33
  {
    CornersInGrid(zero);
    CornersBelowIsCount(zero + Cells);
    WhereCard(IsCorner, zero + Cells);
    WhereCard(Playable, zero + Cells);
    PlayableCount(zero + Cells);
  }

  /** Row by row: four corners in each of rows 0, 1, 5 and 6, none in rows 2 to 4. */
  lemma CornersInGrid(zero: nat)
    requires zero == 0
    ensures CornersBelow(zero + Cells) == 16
  {
    assert CornersBelow(7) == 4;
    assert CornersBelow(14) == 8;
    assert CornersBelow(21) == 8;
    assert CornersBelow(28) == 8;
    assert CornersBelow(35) == 8;
    assert CornersBelow(42) == 12;
    assert CornersBelow(49) == 16;
  }

  /** The playable positions form a cross: the middle three rows and the middle three columns. */
  lemma PlayableIsCross(p: int)
    requires 0 <= p < Cells
    ensures Playable(p) <==> 2 <= Row(p) <= 4 || 2 <= Column(p) <= 4
  {
  }

  // ---------------------------------------------------------------------------
  // Solved boards and peg counts.

  /** A board counts as solved exactly when at most one peg is left, so the empty board does too. */
  lemma IsSolvedIff(n: Board)
    ensures IsSolved(n) <==> PopCount(n) <= 1
  {
    ClearLowestBit(n);
  }

  /** The peg count of a board is the number of occupied positions. */
  lemma PopCountIsPegCount(b: Board)
    ensures PopCount(b) == |Pegs(b)|
  {
    Pow2Word();
    CountBelow(b, 64);
    assert Pegs(b) == SetBits(b, 64);
  }

  /** Positions below `k` whose bit is set. */
  ghost function SetBits(b: nat, k: nat): set<int>
  {
    set i: nat | i < k && Bit(b, i)
  }

  /** The number of set bits among positions `0 .. k - 1`, counted from the top. */
  function BitsBelow(b: nat, k: nat): nat
  {
    if k == 0 then 0 else BitsBelow(b, k - 1) + (if Bit(b, k - 1) then 1 else 0)
  }

  lemma {:induction false} SetBitsCard(b: nat, k: nat)
    ensures |SetBits(b, k)| == BitsBelow(b, k)
    decreases k, 1
  {
    if k > 0 {
      SetBitsCardStep(b, k);
    }
  }

  lemma {:induction false} SetBitsCardStep(b: nat, k: nat)
    requires k > 0
    ensures |SetBits(b, k)| == BitsBelow(b, k)
    decreases k, 0
  {
    SetBitsCard(b, k - 1);
    var previous, current := SetBits(b, k - 1), SetBits(b, k);
    if Bit(b, k - 1) {
      forall p ensures p in current <==> p in previous + {k - 1} { }
      assert current == previous + {k - 1};
      assert k - 1 !in previous;
    } else {
      forall p ensures p in current <==> p in previous { }
      assert current == previous;
    }
  }

  lemma {:induction false} BitsBelowShift(b: nat, k: nat)
    requires k > 0
    ensures BitsBelow(b, k) == b % 2 + BitsBelow(b / 2, k - 1)
  {
    if k > 1 {
      BitsBelowShift(b, k - 1);
    }
  }

  lemma {:induction false} CountBelow(b: nat, k: nat)
    requires b < Pow2(k)
    ensures PopCount(b) == |SetBits(b, k)|
  {
    SetBitsCard(b, k);
    PopCountBelow(b, k);
  }

  lemma {:induction false} PopCountBelow(b: nat, k: nat)
    requires b < Pow2(k)
    ensures PopCount(b) == BitsBelow(b, k)
  {
    if k > 0 {
      PopCountBelow(b / 2, k - 1);
      BitsBelowShift(b, k);
    }
  }

  /**
    The loop that counts pegs when a board has failed: add the low bit, shift
    right, until the word is zero.
   */
  method CountPegs(x: Board) returns (pegsOnBoard: nat)
    ensures pegsOnBoard == |Pegs(x)|
    ensures pegsOnBoard <= 1 <==> IsSolved(x)
  {
    pegsOnBoard := 0;
    var rest: nat := x;
    while rest != 0
      invariant pegsOnBoard + PopCount(rest) == PopCount(x)
      decreases rest
    {
      pegsOnBoard := pegsOnBoard + rest % 2;
      rest := rest / 2;
    }
    PopCountIsPegCount(x);
    IsSolvedIff(x);
  }
}
