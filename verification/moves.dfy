/**
  Moves and the move catalogue. A move lifts the peg on `start` over the peg on
  `jump` and drops it on the empty `destination`; its `mask` holds the three
  positions and its `pattern` the two that must be occupied beforehand. The
  catalogue is built once, destination by destination in ascending order, trying
  the four directions left, right, up and down; the positions are kept in
  `unsigned char` fields, so the candidate arithmetic wraps modulo 256.
 */
module Moves {
  import opened Bits64
  import opened BoardEncoding

  /** C++ `unsigned char`. */
  newtype UChar = x: int | 0 <= x < 256

  /** Storing an `int` into an `unsigned char` keeps it modulo 256. */
  function ToUChar(v: int): (r: UChar)
    ensures (r as int - v) % 256 == 0
  {
    (v % 256) as UChar
  }

  /** `struct move`. */
  datatype Move = Move(start: UChar, jump: UChar, destination: UChar, mask: Board, pattern: Board)

  /** Where the jumping peg comes from, seen from the destination. */
  datatype Direction = FromLeft | FromRight | FromAbove | FromBelow

  /** The index offset from the destination to the jumped-over position. */
  function Offset(direction: Direction): int
  {
    match direction
    case FromLeft => -1
    case FromRight => 1
    case FromAbove => -7
    case FromBelow => 7
  }

  /** The candidate's `start`, after the store into an `unsigned char`. */
  function CandidateStart(destination: int, direction: Direction): UChar
  {
    ToUChar(destination + 2 * Offset(direction))
  }

  function CandidateJump(destination: int, direction: Direction): UChar
  {
    ToUChar(destination + Offset(direction))
  }

  /**
    The test a candidate must pass to enter the catalogue, one per direction,
    as written: same row for horizontal jumps, `column(start) > -1` going up,
    `start < 49 && column(start) < 7` going down, and never a corner start.
   */
  predicate Accepted(destination: int, direction: Direction)
  {
    var start := CandidateStart(destination, direction) as int;
    match direction
    case FromLeft => Row(start) == Row(destination) && !IsCorner(start)
    case FromRight => Row(start) == Row(destination) && !IsCorner(start)
    case FromAbove => Column(start) > -1 && !IsCorner(start)
    case FromBelow => start < 49 && Column(start) < 7 && !IsCorner(start)
  }

  // ---------------------------------------------------------------------------
  // The shape of a jump, stated on grid coordinates.

  /**
    `start`, `jump` and `destination` are playable and lie on one row or one
    column, with `jump` adjacent to `destination` and `start` one further on.
   */
  predicate IsJump(start: int, jump: int, destination: int)
  {
    && Playable(start) && Playable(jump) && Playable(destination)
    && (|| (&& Row(start) == Row(destination) && Row(jump) == Row(destination)
            && (|| (Column(jump) == Column(destination) - 1 && Column(start) == Column(destination) - 2)
                || (Column(jump) == Column(destination) + 1 && Column(start) == Column(destination) + 2)))
        || (&& Column(start) == Column(destination) && Column(jump) == Column(destination)
            && (|| (Row(jump) == Row(destination) - 1 && Row(start) == Row(destination) - 2)
                || (Row(jump) == Row(destination) + 1 && Row(start) == Row(destination) + 2))))
  }

  /** A catalogue entry: a jump whose mask holds its three positions and whose pattern holds start and jump. */
  ghost predicate WellFormed(m: Move)
  {
    var s, j, d := m.start as int, m.jump as int, m.destination as int;
    && IsJump(s, j, d)
    && (forall i: nat :: Bit(m.mask, i) <==> i == s || i == j || i == d)
    && (forall i: nat :: Bit(m.pattern, i) <==> i == s || i == j)
  }

  /** The move from `start` over `jump` to `destination`, with its two masks. */
  function MakeMove(start: int, jump: int, destination: int): (m: Move)
    requires IsJump(start, jump, destination)
    ensures m.start as int == start && m.jump as int == jump && m.destination as int == destination
  {
    Move(start as UChar, jump as UChar, destination as UChar,
         OrWord(OrWord(Peg(destination), Peg(start)), Peg(jump)),
         OrWord(Peg(start), Peg(jump)))
  }

  /** The masks `MakeMove` builds are the ones a catalogue entry must carry. */
  lemma MakeMoveWellFormed(start: int, jump: int, destination: int)
    requires IsJump(start, jump, destination)
    ensures WellFormed(MakeMove(start, jump, destination))
  {
  }

  /** In index terms a jump moves by 1 along a row or by 7 along a column, and its three positions differ. */
  lemma JumpIndices(start: int, jump: int, destination: int)
    requires IsJump(start, jump, destination)
    ensures start != jump && jump != destination && start != destination
    ensures || (Row(start) == Row(destination) && jump == destination - 1 && start == destination - 2)
            || (Row(start) == Row(destination) && jump == destination + 1 && start == destination + 2)
            || (Column(start) == Column(destination) && jump == destination - 7 && start == destination - 14)
            || (Column(start) == Column(destination) && jump == destination + 7 && start == destination + 14)
  {
    assert start == 7 * Row(start) + Column(start);
    assert jump == 7 * Row(jump) + Column(jump);
    assert destination == 7 * Row(destination) + Column(destination);
  }

  // ---------------------------------------------------------------------------
  // Candidates and the generated catalogue.

  /** An accepted candidate never needed the wrap-around: its start and jump are the plain sums. */
  lemma AcceptedIsJump(destination: int, direction: Direction)
    requires Playable(destination) && Accepted(destination, direction)
    ensures CandidateStart(destination, direction) as int == destination + 2 * Offset(direction)
    ensures CandidateJump(destination, direction) as int == destination + Offset(direction)
    ensures IsJump(destination + 2 * Offset(direction), destination + Offset(direction), destination)
  {
    match direction
    case FromLeft => LeftIsJump(destination);
    case FromRight => RightIsJump(destination);
    case FromAbove => AboveIsJump(destination);
    case FromBelow => BelowIsJump(destination);
  }

  lemma LeftIsJump(destination: int)
    requires Playable(destination) && Accepted(destination, FromLeft)
    ensures CandidateStart(destination, FromLeft) as int == destination - 2
    ensures CandidateJump(destination, FromLeft) as int == destination - 1
    ensures IsJump(destination - 2, destination - 1, destination)
  {
    var r, c := destination / 7, destination % 7;
    AcceptedFromLeft(destination);
    CellPosition(r, c); CellPosition(r, c - 1); CellPosition(r, c - 2);
  }

  lemma RightIsJump(destination: int)
    requires Playable(destination) && Accepted(destination, FromRight)
    ensures CandidateStart(destination, FromRight) as int == destination + 2
    ensures CandidateJump(destination, FromRight) as int == destination + 1
    ensures IsJump(destination + 2, destination + 1, destination)
  {
    var r, c := destination / 7, destination % 7;
    AcceptedFromRight(destination);
    CellPosition(r, c); CellPosition(r, c + 1); CellPosition(r, c + 2);
  }

  lemma AboveIsJump(destination: int)
    requires Playable(destination) && Accepted(destination, FromAbove)
    ensures CandidateStart(destination, FromAbove) as int == destination - 14
    ensures CandidateJump(destination, FromAbove) as int == destination - 7
    ensures IsJump(destination - 14, destination - 7, destination)
  {
    var r, c := destination / 7, destination % 7;
    AcceptedFromAbove(destination);
    assert r >= 2 && !CornerCell(r - 2, c);
    assert destination - 14 == 7 * (r - 2) + c && destination - 7 == 7 * (r - 1) + c;
    CellPosition(r, c); CellPosition(r - 1, c); CellPosition(r - 2, c);
  }

  lemma BelowIsJump(destination: int)
    requires Playable(destination) && Accepted(destination, FromBelow)
    ensures CandidateStart(destination, FromBelow) as int == destination + 14
    ensures CandidateJump(destination, FromBelow) as int == destination + 7
    ensures IsJump(destination + 14, destination + 7, destination)
  {
    var r, c := destination / 7, destination % 7;
    AcceptedFromBelow(destination);
    CellPosition(r, c); CellPosition(r + 1, c); CellPosition(r + 2, c);
  }

  /** The catalogue entry for an accepted candidate. */
  function Candidate(destination: int, direction: Direction): (m: Move)
    requires Playable(destination) && Accepted(destination, direction)
    ensures m.destination as int == destination
  {
    AcceptedIsJump(destination, direction);
    MakeMove(CandidateStart(destination, direction) as int, CandidateJump(destination, direction) as int, destination)
  }

  lemma CandidateWellFormed(destination: int, direction: Direction)
    requires Playable(destination) && Accepted(destination, direction)
    ensures WellFormed(Candidate(destination, direction))
  {
    AcceptedIsJump(destination, direction);
    MakeMoveWellFormed(CandidateStart(destination, direction) as int, CandidateJump(destination, direction) as int, destination);
  }

  /** The order in which the generator tries the four directions. */
  const Directions: seq<Direction> := [FromLeft, FromRight, FromAbove, FromBelow]

  /** The accepted candidates among `directions`, in that order. */
  function CandidatesAmong(destination: int, directions: seq<Direction>): seq<Move>
    requires Playable(destination)
  {
    if directions == [] then []
    else
      var rest := CandidatesAmong(destination, directions[1..]);
      if Accepted(destination, directions[0]) then [Candidate(destination, directions[0])] + rest else rest
  }

  /** The moves the generator appends for one destination: none for a corner, else left, right, up, down. */
  function CandidatesAt(destination: int): seq<Move>
    requires 0 <= destination < Cells
  {
    if IsCorner(destination) then [] else CandidatesAmong(destination, Directions)
  }

  /** The moves for destinations `destination .. 48`. */
  function GenerateFrom(destination: nat): seq<Move>
    requires destination <= Cells
    decreases Cells - destination
  {
    if destination == Cells then [] else CandidatesAt(destination) + GenerateFrom(destination + 1)
  }

  /** `GeneratePossibleMoves`: the catalogue the search reads, `LegalMoves` in the source. */
  function GeneratePossibleMoves(): seq<Move>
  {
    GenerateFrom(0)
  }

  // ---------------------------------------------------------------------------
  // The candidate test, read on the grid.

  /**
    A jump can land on cell (r, c) from `direction`: the start, two cells away,
    is still on the grid and inside the cross.
   */
  predicate ArrivesFrom(r: int, c: int, direction: Direction)
  {
    match direction
    case FromLeft => c >= 2 && !CornerCell(r, c - 2)
    case FromRight => c <= 4 && !CornerCell(r, c + 2)
    case FromAbove => r >= 2 && !CornerCell(r - 2, c)
    case FromBelow => r <= 4 && !CornerCell(r + 2, c)
  }

  /**
    On a playable destination the generator's test accepts exactly the
    directions from which a jump can land there. In particular, for a
    destination in rows 0 and 1 the candidate starting two rows above wraps
    around in the `unsigned char` (destinations 2 .. 4 give starts 244 .. 246,
    destinations 9 .. 11 give 251 .. 253) and is turned away because that start
    lies in a corner.
   */
  lemma AcceptedIffArrives(destination: int, direction: Direction)
    requires Playable(destination)
    ensures Accepted(destination, direction) <==> ArrivesFrom(Row(destination), Column(destination), direction)
  {
    match direction
    case FromLeft => AcceptedFromLeft(destination);
    case FromRight => AcceptedFromRight(destination);
    case FromAbove => AcceptedFromAbove(destination);
    case FromBelow => AcceptedFromBelow(destination);
  }

  /** Cell (r, c) with 0 <= c < 7 is position `7 * r + c`. */
  lemma CellPosition(r: nat, c: int)
    requires 0 <= c < 7
    ensures Row(7 * r + c) == r && Column(7 * r + c) == c
  {
  }

  lemma AcceptedFromLeft(destination: int)
    requires Playable(destination)
    ensures Accepted(destination, FromLeft) <==> ArrivesFrom(Row(destination), Column(destination), FromLeft)
  {
    var r, c := destination / 7, destination % 7;
    CellPosition(r, c);
    var start := CandidateStart(destination, FromLeft) as int;
    assert start == destination - 2;
    if c >= 2 {
      CellPosition(r, c - 2);
    } else {
      assert start == 7 * (r - 1) + (c + 5);
      CellPosition(r - 1, c + 5);
    }
  }

  lemma AcceptedFromRight(destination: int)
    requires Playable(destination)
    ensures Accepted(destination, FromRight) <==> ArrivesFrom(Row(destination), Column(destination), FromRight)
  {
    var r, c := destination / 7, destination % 7;
    CellPosition(r, c);
    var start := CandidateStart(destination, FromRight) as int;
    assert start == destination + 2;
    if c <= 4 {
      CellPosition(r, c + 2);
    } else {
      assert start == 7 * (r + 1) + (c - 5);
      CellPosition(r + 1, c - 5);
    }
  }

  lemma AcceptedFromAbove(destination: int)
    requires Playable(destination)
    ensures Accepted(destination, FromAbove) <==> ArrivesFrom(Row(destination), Column(destination), FromAbove)
  {
    var r, c := destination / 7, destination % 7;
    CellPosition(r, c);
    var start := CandidateStart(destination, FromAbove) as int;
    if r >= 2 {
      assert start == 7 * (r - 2) + c;
      CellPosition(r - 2, c);
    } else {
      assert start == destination + 242;
      if c == 2 {
        assert start == 7 * (r + 34) + 6;
        CellPosition(r + 34, 6);
      } else {
        assert start == 7 * (r + 35) + (c - 3);
        CellPosition(r + 35, c - 3);
      }
    }
  }

  lemma AcceptedFromBelow(destination: int)
    requires Playable(destination)
    ensures Accepted(destination, FromBelow) <==> ArrivesFrom(Row(destination), Column(destination), FromBelow)
  {
    var r, c := destination / 7, destination % 7;
    CellPosition(r, c);
    var start := CandidateStart(destination, FromBelow) as int;
    assert start == 7 * (r + 2) + c;
    CellPosition(r + 2, c);
  }

  // ---------------------------------------------------------------------------
  // The size of the catalogue.

  function Indicator(b: bool): nat
  {
    if b then 1 else 0
  }

  /** How many of `directions` a jump can land on cell (r, c) from. */
  function ArrivalsAmong(r: int, c: int, directions: seq<Direction>): nat
  {
    if directions == [] then 0 else Indicator(ArrivesFrom(r, c, directions[0])) + ArrivalsAmong(r, c, directions[1..])
  }

  /** How many jumps land on cell (r, c). */
  function Arrivals(r: int, c: int): nat
  {
    if CornerCell(r, c) then 0
    else
      Indicator(ArrivesFrom(r, c, FromLeft)) + Indicator(ArrivesFrom(r, c, FromRight))
      + Indicator(ArrivesFrom(r, c, FromAbove)) + Indicator(ArrivesFrom(r, c, FromBelow))
  }

  lemma {:induction false} CandidatesAmongSize(destination: int, directions: seq<Direction>)
    requires Playable(destination)
    ensures |CandidatesAmong(destination, directions)| == ArrivalsAmong(Row(destination), Column(destination), directions)
  {
    if directions != [] {
      AcceptedIffArrives(destination, directions[0]);
      CandidatesAmongSize(destination, directions[1..]);
    }
  }

  lemma ArrivalsAmongAll(r: int, c: int)
    requires !CornerCell(r, c)
    ensures ArrivalsAmong(r, c, Directions) == Arrivals(r, c)
  {
    var ds := Directions;
    assert ArrivalsAmong(r, c, ds) == Indicator(ArrivesFrom(r, c, FromLeft)) + ArrivalsAmong(r, c, ds[1..]);
    assert ArrivalsAmong(r, c, ds[1..]) == Indicator(ArrivesFrom(r, c, FromRight)) + ArrivalsAmong(r, c, ds[2..]);
    assert ArrivalsAmong(r, c, ds[2..]) == Indicator(ArrivesFrom(r, c, FromAbove)) + ArrivalsAmong(r, c, ds[3..]);
    assert ArrivalsAmong(r, c, ds[3..]) == Indicator(ArrivesFrom(r, c, FromBelow)) + ArrivalsAmong(r, c, ds[4..]);
  }

  /** The generator appends one move for every jump that lands on `destination`. */
  lemma CandidatesAtSize(destination: int)
    requires 0 <= destination < Cells
    ensures |CandidatesAt(destination)| == Arrivals(Row(destination), Column(destination))
  {
    if !IsCorner(destination) {
      CandidatesAmongSize(destination, Directions);
      ArrivalsAmongAll(Row(destination), Column(destination));
    }
  }

  /** How many jumps land on position `p`. */
  function ArrivalsAt(p: int): nat
  {
    Arrivals(Row(p), Column(p))
  }

  /** `f(low) + ... + f(high - 1)`. */
  function Sum(f: int -> nat, low: int, high: int): nat
    decreases high - low
  {
    if low >= high then 0 else f(low) + Sum(f, low + 1, high)
  }

  lemma {:induction false} SumSplit(f: int -> nat, low: int, middle: int, high: int)
    requires low <= middle <= high
    ensures Sum(f, low, high) == Sum(f, low, middle) + Sum(f, middle, high)
    decreases middle - low, 1
  {
    if low < middle {
      SumSplitStep(f, low, middle, high);
    }
  }

  lemma {:induction false} SumSplitStep(f: int -> nat, low: int, middle: int, high: int)
    requires low < middle <= high
    ensures Sum(f, low, high) == Sum(f, low, middle) + Sum(f, middle, high)
    decreases middle - low, 0
  {
    SumSplit(f, low + 1, middle, high);
  }

  /** The generator appends one move per jump, destination by destination. */
  lemma {:induction false} GenerateFromSize(destination: nat)
    requires destination <= Cells
    ensures |GenerateFrom(destination)| == Sum(ArrivalsAt, destination, Cells)
    decreases Cells - destination, 1
  {
    if destination < Cells {
      SizeStepFrom(destination);
    }
  }

  lemma SizeStepFrom(destination: nat)
    requires destination < Cells
    ensures |GenerateFrom(destination)| == Sum(ArrivalsAt, destination, Cells)
    decreases Cells - destination, 0
  {
    GenerateFromSize(destination + 1);
    SizeStep(destination);
  }

  lemma SizeStep(destination: nat)
    requires destination < Cells && |GenerateFrom(destination + 1)| == Sum(ArrivalsAt, destination + 1, Cells)
    ensures |GenerateFrom(destination)| == Sum(ArrivalsAt, destination, Cells)
  {
    CandidatesAtSize(destination);
  }

  /** The number of jumps landing on row `r`: five on the arms, twenty next to the middle row, sixteen on it. */
  function RowTotal(r: nat): nat
  {
    if r < 2 || r > 4 then 5 else if r == 3 then 16 else 20
  }

  // One lemma per row evaluates that row cell by cell on literal positions; the
  // row is passed in as a variable so that callers do not unfold it again.

  lemma RowValue0(r: nat)
    requires r == 0
    ensures Sum(ArrivalsAt, 7 * r, 7 * r + 7) == 5
  {
    assert ArrivalsAt(0) == 0 && ArrivalsAt(1) == 0 && ArrivalsAt(2) == 2 && ArrivalsAt(3) == 1;
    assert ArrivalsAt(4) == 2 && ArrivalsAt(5) == 0 && ArrivalsAt(6) == 0;
    assert Sum(ArrivalsAt, 0, 7) == 5;
  }

  lemma RowValue1(r: nat)
    requires r == 1
    ensures Sum(ArrivalsAt, 7 * r, 7 * r + 7) == 5
  {
    assert ArrivalsAt(7) == 0 && ArrivalsAt(8) == 0 && ArrivalsAt(9) == 2 && ArrivalsAt(10) == 1;
    assert ArrivalsAt(11) == 2 && ArrivalsAt(12) == 0 && ArrivalsAt(13) == 0;
    assert Sum(ArrivalsAt, 7, 14) == 5;
  }

  lemma RowValue2(r: nat)
    requires r == 2
    ensures Sum(ArrivalsAt, 7 * r, 7 * r + 7) == 20
  {
    assert ArrivalsAt(14) == 2 && ArrivalsAt(15) == 2 && ArrivalsAt(16) == 4 && ArrivalsAt(17) == 4;
    assert ArrivalsAt(18) == 4 && ArrivalsAt(19) == 2 && ArrivalsAt(20) == 2;
    assert Sum(ArrivalsAt, 14, 21) == 20;
  }

  lemma RowValue3(r: nat)
    requires r == 3
    ensures Sum(ArrivalsAt, 7 * r, 7 * r + 7) == 16
  {
    assert ArrivalsAt(21) == 1 && ArrivalsAt(22) == 1 && ArrivalsAt(23) == 4 && ArrivalsAt(24) == 4;
    assert ArrivalsAt(25) == 4 && ArrivalsAt(26) == 1 && ArrivalsAt(27) == 1;
    assert Sum(ArrivalsAt, 21, 28) == 16;
  }

  lemma RowValue4(r: nat)
    requires r == 4
    ensures Sum(ArrivalsAt, 7 * r, 7 * r + 7) == 20
  {
    assert ArrivalsAt(28) == 2 && ArrivalsAt(29) == 2 && ArrivalsAt(30) == 4 && ArrivalsAt(31) == 4;
    assert ArrivalsAt(32) == 4 && ArrivalsAt(33) == 2 && ArrivalsAt(34) == 2;
    assert Sum(ArrivalsAt, 28, 35) == 20;
  }

  lemma RowValue5(r: nat)
    requires r == 5
    ensures Sum(ArrivalsAt, 7 * r, 7 * r + 7) == 5
  {
    assert ArrivalsAt(35) == 0 && ArrivalsAt(36) == 0 && ArrivalsAt(37) == 2 && ArrivalsAt(38) == 1;
    assert ArrivalsAt(39) == 2 && ArrivalsAt(40) == 0 && ArrivalsAt(41) == 0;
    assert Sum(ArrivalsAt, 35, 42) == 5;
  }

  lemma RowValue6(r: nat)
    requires r == 6
    ensures Sum(ArrivalsAt, 7 * r, 7 * r + 7) == 5
  {
    assert ArrivalsAt(42) == 0 && ArrivalsAt(43) == 0 && ArrivalsAt(44) == 2 && ArrivalsAt(45) == 1;
    assert ArrivalsAt(46) == 2 && ArrivalsAt(47) == 0 && ArrivalsAt(48) == 0;
    assert Sum(ArrivalsAt, 42, 49) == 5;
  }

  lemma RowValue(r: nat)
    requires r < 7
    ensures Sum(ArrivalsAt, 7 * r, 7 * r + 7) == RowTotal(r)
  {
    if r == 0 {
      RowValue0(r);
    } else if r == 1 {
      RowValue1(r);
    } else if r == 2 {
      RowValue2(r);
    } else if r == 3 {
      RowValue3(r);
    } else if r == 4 {
      RowValue4(r);
    } else if r == 5 {
      RowValue5(r);
    } else {
      RowValue6(r);
    }
  }

  /** The jumps landing on rows `r .. 6`. */
  function TotalFrom(r: nat): nat
    decreases 7 - r
  {
    if r >= 7 then 0 else RowTotal(r) + TotalFrom(r + 1)
  }

  lemma {:induction false} ArrivalsTotal(r: nat)
    requires r <= 7
    ensures Sum(ArrivalsAt, 7 * r, Cells) == TotalFrom(r)
    decreases 7 - r
  {
    if r < 7 {
      SumSplit(ArrivalsAt, 7 * r, 7 * r + 7, Cells);
      RowValue(r);
      ArrivalsTotal(r + 1);
    }
  }

  lemma CatalogSizeFrom(zero: nat)
    requires zero == 0
    ensures |GenerateFrom(zero)| == 76
  {
    GenerateFromSize(zero);
    ArrivalsInGrid(zero);
  }

  /** 76 jumps land on the grid in all. */
  lemma ArrivalsInGrid(zero: nat)
    requires zero == 0
    ensures Sum(ArrivalsAt, zero, Cells) == 76
  {
    ArrivalsTotal(zero);
    assert TotalFrom(0) == 76;
  }

  /** The catalogue holds 76 moves. */
  lemma CatalogSize()
    ensures |GeneratePossibleMoves()| == 76
  {
    CatalogSizeFrom(0);
  }

  // ---------------------------------------------------------------------------
  // What the catalogue contains.

  lemma {:induction false} CandidatesAmongSound(destination: int, directions: seq<Direction>)
    requires Playable(destination)
    ensures forall m <- CandidatesAmong(destination, directions) :: WellFormed(m) && m.destination as int == destination
  {
    if directions != [] {
      if Accepted(destination, directions[0]) {
        CandidateWellFormed(destination, directions[0]);
      }
      CandidatesAmongSound(destination, directions[1..]);
    }
  }

  lemma {:induction false} GenerateFromSound(destination: nat)
    requires destination <= Cells
    ensures forall m <- GenerateFrom(destination) :: WellFormed(m) && m.destination as int >= destination
    decreases Cells - destination
  {
    if destination < Cells {
      if !IsCorner(destination) {
        CandidatesAmongSound(destination, Directions);
      }
      GenerateFromSound(destination + 1);
    }
  }

  /** Every catalogue entry is a jump with its two masks. */
  lemma CatalogSound()
    ensures forall m <- GeneratePossibleMoves() :: WellFormed(m)
  {
    GenerateFromSound(0);
  }

  /** Where `direction` stands in the order the generator tries the directions. */
  function DirectionIndex(direction: Direction): (n: nat)
    ensures n < |Directions| && Directions[n] == direction
  {
    match direction
    case FromLeft => 0
    case FromRight => 1
    case FromAbove => 2
    case FromBelow => 3
  }

  /**
    The place the generator gives a move: four slots per destination, one per
    direction, in the order left, right, above, below. The direction is read
    off the offset from the destination to the jumped-over position.
   */
  function Rank(m: Move): int
  {
    var offset := m.jump as int - m.destination as int;
    4 * m.destination as int + (if offset == -1 then 0 else if offset == 1 then 1 else if offset == -7 then 2 else 3)
  }

  lemma CandidateRank(destination: int, direction: Direction)
    requires Playable(destination) && Accepted(destination, direction)
    ensures Rank(Candidate(destination, direction)) == 4 * destination + DirectionIndex(direction)
  {
    AcceptedIsJump(destination, direction);
  }

  /** The candidates from the directions after the first `n` come in strictly increasing rank. */
  lemma {:induction false} CandidatesAmongRanked(destination: int, n: nat)
    requires Playable(destination) && n <= |Directions|
    ensures var cs := CandidatesAmong(destination, Directions[n..]);
            && (forall m <- cs :: 4 * destination + n <= Rank(m) < 4 * destination + 4)
            && (forall i, k | 0 <= i < k < |cs| :: Rank(cs[i]) < Rank(cs[k]))
    decreases |Directions| - n
  {
    if n < |Directions| {
      var direction := Directions[n];
      assert Directions[n..][0] == direction && Directions[n..][1..] == Directions[n + 1..];
      CandidatesAmongRanked(destination, n + 1);
      if Accepted(destination, direction) {
        CandidateRank(destination, direction);
        assert DirectionIndex(direction) == n;
      }
    }
  }

  /**
    The moves for destinations `destination .. 48` come in strictly increasing
    rank, so by ascending destination and, for one destination, left, right,
    above, below.
   */
  lemma {:induction false} GenerateFromRanked(destination: nat)
    requires destination <= Cells
    ensures forall m <- GenerateFrom(destination) :: 4 * destination <= Rank(m)
    ensures forall i, k | 0 <= i < k < |GenerateFrom(destination)| ::
              Rank(GenerateFrom(destination)[i]) < Rank(GenerateFrom(destination)[k])
    decreases Cells - destination
  {
    if destination < Cells {
      var here, rest := CandidatesAt(destination), GenerateFrom(destination + 1);
      var all: seq<Move> := GenerateFrom(destination);
      assert all == here + rest;
      if !IsCorner(destination) {
        CandidatesAmongRanked(destination, 0);
        assert Directions[0..] == Directions;
      }
      GenerateFromRanked(destination + 1);
      forall i, k | 0 <= i < k < |all|
        ensures Rank(all[i]) < Rank(all[k])
      {
        if k < |here| {
        } else if i < |here| {
          assert here[i] in here && rest[k - |here|] in rest;
        }
      }
    }
  }

  /**
    The catalogue lists its moves by ascending destination and, for one
    destination, from the left, right, above and below; so no move is listed
    twice.
   */
  lemma CatalogOrdered()
    ensures forall i, k | 0 <= i < k < |GeneratePossibleMoves()| ::
              Rank(GeneratePossibleMoves()[i]) < Rank(GeneratePossibleMoves()[k])
    ensures forall i, k | 0 <= i < k < |GeneratePossibleMoves()| ::
              GeneratePossibleMoves()[i].destination <= GeneratePossibleMoves()[k].destination
    ensures forall i, k | 0 <= i < k < |GeneratePossibleMoves()| ::
              GeneratePossibleMoves()[i] != GeneratePossibleMoves()[k]
  {
    GenerateFromRanked(0);
  }

  /** Every jump comes from one of the four directions, and can land where it lands. */
  lemma JumpDirection(start: int, jump: int, destination: int) returns (direction: Direction)
    requires IsJump(start, jump, destination)
    ensures start == destination + 2 * Offset(direction) && jump == destination + Offset(direction)
    ensures ArrivesFrom(Row(destination), Column(destination), direction)
  {
    JumpIndices(start, jump, destination);
    if Row(start) == Row(destination) && jump == destination - 1 && start == destination - 2 {
      direction := FromLeft;
    } else if Row(start) == Row(destination) && jump == destination + 1 && start == destination + 2 {
      direction := FromRight;
    } else if jump == destination - 7 && start == destination - 14 {
      direction := FromAbove;
    } else {
      direction := FromBelow;
    }
  }

  lemma {:induction false} InCandidatesAmong(destination: int, directions: seq<Direction>, direction: Direction)
    requires Playable(destination) && direction in directions && Accepted(destination, direction)
    ensures Candidate(destination, direction) in CandidatesAmong(destination, directions)
  {
    if directions[0] != direction {
      InCandidatesAmong(destination, directions[1..], direction);
    }
  }

  lemma {:induction false} InGenerateFrom(from: nat, destination: nat)
    requires from <= destination < Cells
    ensures forall m <- CandidatesAt(destination) :: m in GenerateFrom(from)
    decreases destination - from
  {
    if from < destination {
      InGenerateFrom(from + 1, destination);
    }
  }

  lemma CandidateIsJump(start: int, jump: int, destination: int) returns (direction: Direction)
    requires IsJump(start, jump, destination)
    ensures Playable(destination) && direction in Directions && Accepted(destination, direction)
    ensures Candidate(destination, direction) == MakeMove(start, jump, destination)
  {
    direction := JumpDirection(start, jump, destination);
    AcceptedIffArrives(destination, direction);
    AcceptedIsJump(destination, direction);
  }

  lemma JumpInGenerateFrom(from: nat, start: int, jump: int, destination: int)
    requires IsJump(start, jump, destination) && from <= destination
    ensures MakeMove(start, jump, destination) in GenerateFrom(from)
  {
    var direction := CandidateIsJump(start, jump, destination);
    InCandidatesAmong(destination, Directions, direction);
    InGenerateFrom(from, destination);
  }

  /** Every jump on the board is in the catalogue. */
  lemma CatalogComplete(start: int, jump: int, destination: int)
    requires IsJump(start, jump, destination)
    ensures MakeMove(start, jump, destination) in GeneratePossibleMoves()
  {
    JumpInGenerateFrom(0, start, jump, destination);
  }

  /** A well-formed move is determined by its three positions. */
  lemma WellFormedIsMakeMove(m: Move)
    requires WellFormed(m)
    ensures m == MakeMove(m.start as int, m.jump as int, m.destination as int)
  {
    var n := MakeMove(m.start as int, m.jump as int, m.destination as int);
    MakeMoveWellFormed(m.start as int, m.jump as int, m.destination as int);
    BitsDetermine(m.mask, n.mask);
    BitsDetermine(m.pattern, n.pattern);
  }

  /** The catalogue holds exactly the well-formed moves. */
  lemma CatalogIsAllJumps(m: Move)
    ensures m in GeneratePossibleMoves() <==> WellFormed(m)
  {
    CatalogSound();
    if WellFormed(m) {
      WellFormedIsMakeMove(m);
      CatalogComplete(m.start as int, m.jump as int, m.destination as int);
    }
  }

  // ---------------------------------------------------------------------------
  // Playing a move.

  /** The legality test of the search: `(x & mask) == pattern`. */
  predicate Legal(x: Board, m: Move)
  {
    And(x, m.mask) == m.pattern
  }

  /** The board after the move: `x ^ mask`. */
  function Apply(x: Board, m: Move): Board
  {
    Pow2Word();
    OrXorBelow(x, m.mask, 64);
    Xor(x, m.mask)
  }

  /** The legality test and the move, bit by bit. */
  lemma MaskBits(x: Board, m: Move)
    ensures forall i: nat :: Bit(And(x, m.mask), i) <==> Bit(x, i) && Bit(m.mask, i)
    ensures forall i: nat :: Bit(Apply(x, m), i) <==> Bit(x, i) != Bit(m.mask, i)
  {
    forall i: nat
      ensures Bit(And(x, m.mask), i) <==> Bit(x, i) && Bit(m.mask, i)
      ensures Bit(Xor(x, m.mask), i) <==> Bit(x, i) != Bit(m.mask, i)
    {
      BitAnd(x, m.mask, i);
      BitXor(x, m.mask, i);
    }
  }

  /** A catalogue move is legal exactly when start and jump hold pegs and the destination is empty. */
  lemma LegalIff(x: Board, m: Move)
    requires WellFormed(m)
    ensures Legal(x, m) <==> Bit(x, m.start as int) && Bit(x, m.jump as int) && !Bit(x, m.destination as int)
  {
    var s, j, d := m.start as int, m.jump as int, m.destination as int;
    JumpIndices(s, j, d);
    MaskBits(x, m);
    var a := And(x, m.mask);
    if Legal(x, m) {
      assert Bit(a, s) && Bit(a, j) && !Bit(a, d);
    }
    if Bit(x, s) && Bit(x, j) && !Bit(x, d) {
      forall i: nat
        ensures Bit(a, i) == Bit(m.pattern, i)
      {
      }
      BitsDetermine(a, m.pattern);
    }
  }

  /** A legal move empties start and jump, fills the destination, and leaves every other position alone. */
  lemma ApplyBits(x: Board, m: Move)
    requires WellFormed(m) && Legal(x, m)
    ensures !Bit(Apply(x, m), m.start as int) && !Bit(Apply(x, m), m.jump as int)
    ensures Bit(Apply(x, m), m.destination as int)
    ensures forall i: nat :: i != m.start as int && i != m.jump as int && i != m.destination as int ==>
              (Bit(Apply(x, m), i) <==> Bit(x, i))
  {
    LegalIff(x, m);
    MaskBits(x, m);
  }

  /** The same statement on the set of occupied positions. */
  lemma ApplyPegs(x: Board, m: Move)
    requires WellFormed(m) && Legal(x, m)
    ensures Pegs(Apply(x, m)) == Pegs(x) - {m.start as int, m.jump as int} + {m.destination as int}
  {
    ApplyBits(x, m);
  }

  /** Every legal move removes exactly one peg. */
  lemma ApplyPopCount(x: Board, m: Move)
    requires WellFormed(m) && Legal(x, m)
    ensures PopCount(Apply(x, m)) == PopCount(x) - 1
  {
    var s, j, d := m.start as int, m.jump as int, m.destination as int;
    JumpIndices(s, j, d);
    LegalIff(x, m);
    ApplyPegs(x, m);
    PopCountIsPegCount(x);
    PopCountIsPegCount(Apply(x, m));
    var kept := Pegs(x) - {s, j};
    assert Pegs(x) == kept + {s, j};
    assert |Pegs(x)| == |kept| + 2;
    assert Pegs(Apply(x, m)) == kept + {d};
  }

  /** Applying the same mask twice restores the board: a move can be taken back. */
  lemma ApplyUndo(x: Board, m: Move)
    ensures Apply(Apply(x, m), m) == x
  {
    MaskBits(x, m);
    MaskBits(Apply(x, m), m);
    BitsDetermine(Apply(Apply(x, m), m), x);
  }

  /** A move never puts a peg outside the cross. */
  lemma ApplyOnGrid(x: Board, m: Move)
    requires WellFormed(m) && Legal(x, m) && OnGrid(x)
    ensures OnGrid(Apply(x, m))
  {
    ApplyBits(x, m);
  }
}
