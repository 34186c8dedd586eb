/** Positions of the Kalaha board and their classification as running, drawn or won.
    Each side owns seven cells: pits 0..5, where seeds are sown from, and the store at index 6. */
module Board {

  /** Which side is to move (the source keeps it in an `i8` that is always 0 or 1). */
  type Side = x: int | 0 <= x <= 1

  const Pits := 6
  const StoreIx := 6
  const Cells := 7

  /** Seeds per pit at the start of a game. */
  const InitialSeeds := 4

  /** Largest value an `i8` holds: cells and side totals are `i8` in the source. */
  const MaxI8 := 127

  /** `p[side][cell]`: seven cells per side; `t`: the side to move. */
  datatype Game = Game(p: seq<seq<int>>, t: Side)

  predicate Shaped(b: seq<seq<int>>)
  {
    |b| == 2 && |b[0]| == Cells && |b[1]| == Cells
  }

  /** Sum of all seven cells of one side (`iter().sum()` over a side). */
  function SideTotal(row: seq<int>): int
    requires |row| == Cells
  {
    row[0] + row[1] + row[2] + row[3] + row[4] + row[5] + row[6]
  }

  /** Seeds in the six pits of one side, its store excluded. */
  function PitTotal(row: seq<int>): int
    requires |row| == Cells
  {
    row[0] + row[1] + row[2] + row[3] + row[4] + row[5]
  }

  /** All seeds on a board. */
  function Total(b: seq<seq<int>>): int
    requires Shaped(b)
  {
    SideTotal(b[0]) + SideTotal(b[1])
  }

  /** Seeds that can still be sown: everything outside the two stores. */
  function SeedsInPits(b: seq<seq<int>>): int
    requires Shaped(b)
  {
    PitTotal(b[0]) + PitTotal(b[1])
  }

  /** The positions the engine works on: two sides of seven cells, no negative cell, and so few
      seeds in all that every cell and every side total fits in the source's `i8`. */
  predicate Valid(g: Game)
  {
    ValidBoard(g.p)
  }

  predicate ValidBoard(b: seq<seq<int>>)
  {
    Shaped(b) &&
    (forall j :: 0 <= j < Cells ==> b[0][j] >= 0 && b[1][j] >= 0) &&
    Total(b) <= MaxI8
  }

  /** Side `side` has a seed in at least one of its pits. */
  predicate HasPitSeeds(g: Game, side: Side)
    requires Shaped(g.p)
  {
    exists j :: 0 <= j < Pits && g.p[side][j] > 0
  }

  /** In a valid position no value the source computes in `i8` arithmetic can overflow. */
  lemma ValidFitsI8(g: Game)
    requires Valid(g)
    ensures forall i, j :: 0 <= i < 2 && 0 <= j < Cells ==> 0 <= g.p[i][j] <= MaxI8
    ensures 0 <= SideTotal(g.p[0]) <= MaxI8 && 0 <= SideTotal(g.p[1]) <= MaxI8
  {
  }

  /** One side at the start of a game: four seeds in each pit, an empty store. */
  function NewPlayer(): (row: seq<int>)
    ensures |row| == Cells && row[StoreIx] == 0
    ensures forall j :: 0 <= j < Pits ==> row[j] == InitialSeeds
  {
    [4, 4, 4, 4, 4, 4, 0]
  }

  /** The initial position: both sides fresh, side 0 to move; 48 seeds in all. */
  function NewGame(): (g: Game)
    ensures Valid(g) && g.t == 0
    ensures Total(g.p) == 2 * Pits * InitialSeeds
  {
    Game([NewPlayer(), NewPlayer()], 0)
  }

  /** Outcome of a position: still running, drawn, or won by `winner`. */
  datatype State = InProgress | Draw | Win(winner: Side)

  /** The game goes on while both sides have seeds in their pits; otherwise the side with the
      larger seven-cell total (pits not yet emptied count for their owner) wins, equal totals draw. */
  function StateOf(g: Game): (r: State)
    requires Shaped(g.p)
    ensures r != InProgress ==> PitTotal(g.p[0]) == 0 || PitTotal(g.p[1]) == 0
    ensures r == Draw ==> SideTotal(g.p[0]) == SideTotal(g.p[1])
    ensures r.Win? ==> SideTotal(g.p[r.winner]) > SideTotal(g.p[1 - r.winner])
  {
    var p0full := SideTotal(g.p[0]);
    var p1full := SideTotal(g.p[1]);
    var p0 := p0full - g.p[0][StoreIx];
    var p1 := p1full - g.p[1][StoreIx];
    if p0 != 0 && p1 != 0 then
      InProgress
    else if p0full < p1full then
      Win(1)
    else if p0full > p1full then
      Win(0)
    else
      Draw
  }

  /** On valid positions the test on pit sums is the rule "both sides still have a seed to sow". */
  lemma StateInProgressIff(g: Game)
    requires Valid(g)
    ensures StateOf(g) == InProgress <==> HasPitSeeds(g, 0) && HasPitSeeds(g, 1)
  {
    if PitTotal(g.p[0]) != 0 {
      assert g.p[0][0] > 0 || g.p[0][1] > 0 || g.p[0][2] > 0 || g.p[0][3] > 0 || g.p[0][4] > 0 || g.p[0][5] > 0;
    }
    if PitTotal(g.p[1]) != 0 {
      assert g.p[1][0] > 0 || g.p[1][1] > 0 || g.p[1][2] > 0 || g.p[1][3] > 0 || g.p[1][4] > 0 || g.p[1][5] > 0;
    }
  }

  /** A finished game is decided exactly by comparing the two seven-cell totals. */
  lemma StateFinishedIff(g: Game)
    requires Shaped(g.p) && StateOf(g) != InProgress
    ensures StateOf(g) == Win(0) <==> SideTotal(g.p[0]) > SideTotal(g.p[1])
    ensures StateOf(g) == Win(1) <==> SideTotal(g.p[0]) < SideTotal(g.p[1])
    ensures StateOf(g) == Draw <==> SideTotal(g.p[0]) == SideTotal(g.p[1])
  {
  }

  /** The initial position is a running game. */
  lemma NewGameInProgress()
    ensures StateOf(NewGame()) == InProgress
  {
  }
}
