/** The move engine: one sowing move from one of the mover's pits, with the extra-turn and
    capture rules.

    Sowing walks a cycle of 13 cells seen from the mover `m`: the mover's pits 0..5 (cycle
    indices 0..5), the mover's store (6), the opponent's pits 0..5 (7..12); the opponent's store
    is not on the cycle. Pit `s` is cycle index `s`, and the j-th seed taken from it (j from 1)
    lands on cycle index (s + j) mod 13. */
module Sowing {
  import opened Wrappers
  import opened Board

  const CycleLength := 13

  /** Owner of cycle cell `c` when `m` moves. */
  function CycleSide(m: Side, c: int): Side
  {
    if c <= StoreIx then m else 1 - m
  }

  /** Index within its side of cycle cell `c`. */
  function CyclePos(c: int): int
  {
    if c <= StoreIx then c else c - Cells
  }

  /** Every cell except the opponent's store is on the cycle. */
  predicate OnCycle(m: Side, side: Side, pos: int)
  {
    side == m || pos < Pits
  }

  function CycleIndex(m: Side, side: Side, pos: int): int
  {
    if side == m then pos else pos + Cells
  }

  /** Cycle cell that receives the `j`-th seed taken from pit `s`. */
  function SeedCell(s: int, j: int): int
  {
    (s + j) % CycleLength
  }

  /** Seeds that the first `k` seeds taken from pit `s` drop on cycle cell `c`. */
  function Drops(k: nat, s: int, c: int): nat
  {
    if k == 0 then 0 else Drops(k - 1, s, c) + (if SeedCell(s, k) == c then 1 else 0)
  }

  /** Cycle index of the cell that receives the last of `n` seeds taken from pit `s`. */
  function Landing(s: int, n: int): int
  {
    SeedCell(s, n)
  }

  /** The board once pit `s` of the mover has been emptied and the first `k` of its seeds
      sown, one per cell along the cycle. */
  function Sown(g: Game, s: nat, k: nat): (b: seq<seq<int>>)
    requires Shaped(g.p) && s < Pits
    ensures Shaped(b)
  {
    if k == 0 then g.p[g.t := g.p[g.t][s := 0]]
    else
      var b := Sown(g, s, k - 1);
      var c := SeedCell(s, k);
      var side, pos := CycleSide(g.t, c), CyclePos(c);
      b[side := b[side][pos := b[side][pos] + 1]]
  }

  /** Cell (`side`, `pos`) after `k` seeds from pit `s` are sown, counted directly: its old
      value (zero for the emptied pit) plus the seeds that reached it. */
  function SownCell(g: Game, s: nat, k: nat, side: Side, pos: nat): int
    requires Shaped(g.p) && s < Pits && pos < Cells
  {
    var base := if side == g.t && pos == s then 0 else g.p[side][pos];
    if OnCycle(g.t, side, pos) then base + Drops(k, s, CycleIndex(g.t, side, pos)) else base
  }

  /** Capture after the last seed landed in the mover's (empty) pit `pos`: the opposite pit
      `5 - pos` is emptied into the mover's store; the landing seed stays where it is. */
  function Capture(b: seq<seq<int>>, m: Side, pos: nat): (r: seq<seq<int>>)
    requires Shaped(b) && pos < Pits
    ensures Shaped(r) && Total(r) == Total(b)
    ensures r[1 - m][Pits - 1 - pos] == 0
    ensures r[m][StoreIx] == b[m][StoreIx] + b[1 - m][Pits - 1 - pos]
    ensures forall i, j :: 0 <= i < 2 && 0 <= j < Cells &&
              !(i == 1 - m && j == Pits - 1 - pos) && !(i == m && j == StoreIx)
              ==> r[i][j] == b[i][j]
  {
    var opp := Pits - 1 - pos;
    b[m := b[m][StoreIx := b[m][StoreIx] + b[1 - m][opp]]][1 - m := b[1 - m][opp := 0]]
  }

  /** The mover's capture condition: the last seed ended in one of the mover's own pits, which
      now holds exactly that one seed. */
  predicate Captures(g: Game, s: nat): (c: bool)
    requires Shaped(g.p) && s < Pits && g.p[g.t][s] >= 0
    ensures c ==> g.p[g.t][s] > 0 && CycleSide(g.t, Landing(s, g.p[g.t][s])) == g.t
                  && CyclePos(Landing(s, g.p[g.t][s])) < Pits
  {
    var n := g.p[g.t][s];
    var l := Landing(s, n);
    n > 0 && l < Pits && Sown(g, s, n)[g.t][l] == 1
  }

  /** The position after the mover sows pit `s`, or None when that pit is empty. */
  function Successor(g: Game, s: nat): (r: Option<Game>)
    requires Valid(g) && s < Pits
    ensures r.None? <==> g.p[g.t][s] == 0
  {
    var m := g.t;
    var n := g.p[m][s];
    if n == 0 then None
    else
      var b := Sown(g, s, n);
      var l := Landing(s, n);
      if l == StoreIx then Some(Game(b, m))
      else if Captures(g, s) then Some(Game(Capture(b, m, l), 1 - m))
      else Some(Game(b, 1 - m))
  }

  // ---------------------------------------------------------------------------------------
  // The sowing cycle

  /** The cycle is walked one cell at a time: the cell after 12 is 0. */
  lemma NextSeedCell(s: int, j: int)
    ensures SeedCell(s, j + 1) == if SeedCell(s, j) == CycleLength - 1 then 0 else SeedCell(s, j) + 1
  {
  }

  /** Sowing `k` seeds puts `k / 13` seeds in every cycle cell, plus one more in the first
      `k % 13` cells after the start pit. */
  lemma {:induction false} DropsClosedForm(k: nat, s: int, c: int)
    requires 0 <= c < CycleLength
    ensures Drops(k, s, c) == k / CycleLength + (if (c - s - 1) % CycleLength < k % CycleLength then 1 else 0)
  {
    if k > 0 {
      DropsClosedForm(k - 1, s, c);
      DivModStep(k);
      SeedCellIff(s, k, c);
    }
  }

  lemma DivModStep(k: nat)
    requires k > 0
    ensures if (k - 1) % CycleLength == CycleLength - 1
            then k / CycleLength == (k - 1) / CycleLength + 1 && k % CycleLength == 0
            else k / CycleLength == (k - 1) / CycleLength && k % CycleLength == (k - 1) % CycleLength + 1
  {
  }

  lemma SeedCellIff(s: int, k: int, c: int)
    requires 0 <= c < CycleLength
    ensures SeedCell(s, k) == c <==> (c - s - 1) % CycleLength == (k - 1) % CycleLength
  {
  }

  /** A cycle cell receives a seed exactly when some seed of the move is sown on it. */
  lemma {:induction false} DropsPositiveIff(k: nat, s: int, c: int)
    ensures Drops(k, s, c) > 0 <==> exists j :: 1 <= j <= k && SeedCell(s, j) == c
  {
    if k > 0 {
      DropsPositiveIff(k - 1, s, c);
      if SeedCell(s, k) == c {
        assert 1 <= k <= k && SeedCell(s, k) == c;
      } else if Drops(k, s, c) > 0 {
        var j :| 1 <= j <= k - 1 && SeedCell(s, j) == c;
        assert 1 <= j <= k;
      } else {
        forall j | 1 <= j <= k ensures SeedCell(s, j) != c {
          if j < k { assert 1 <= j <= k - 1; }
        }
      }
    }
  }

  // ---------------------------------------------------------------------------------------
  // Sowing seed by seed

  /** Seed-by-seed sowing agrees with counting the seeds each cell receives. */
  lemma {:induction false} SownAt(g: Game, s: nat, k: nat, i: Side, j: nat)
    requires Shaped(g.p) && s < Pits && j < Cells
    ensures Sown(g, s, k)[i][j] == SownCell(g, s, k, i, j)
  {
    if k > 0 {
      SownAt(g, s, k - 1, i, j);
      var c := SeedCell(s, k);
      assert OnCycle(g.t, i, j) ==> (CycleIndex(g.t, i, j) == c <==> i == CycleSide(g.t, c) && j == CyclePos(c));
      assert !OnCycle(g.t, i, j) ==> !(i == CycleSide(g.t, c) && j == CyclePos(c));
    }
  }

  /** Sowing moves seeds and never creates or destroys one: after `k` of the `n` seeds of pit
      `s` are sown, the board holds `n - k` fewer seeds than before the move. */
  lemma {:induction false} SownTotal(g: Game, s: nat, k: nat)
    requires Shaped(g.p) && s < Pits
    ensures Total(Sown(g, s, k)) == Total(g.p) - g.p[g.t][s] + k
  {
    if k > 0 {
      SownTotal(g, s, k - 1);
      var c := SeedCell(s, k);
      TotalBump(Sown(g, s, k - 1), CycleSide(g.t, c), CyclePos(c));
    }
  }

  /** One more seed in one cell is one more seed on the board. */
  lemma TotalBump(b: seq<seq<int>>, side: Side, pos: int)
    requires Shaped(b) && 0 <= pos < Cells
    ensures Total(b[side := b[side][pos := b[side][pos] + 1]]) == Total(b) + 1
  {
  }

  /** Sowing all the seeds of a pit keeps the total and leaves every cell non-negative. */
  lemma SownValid(g: Game, s: nat)
    requires Valid(g) && s < Pits
    ensures Total(Sown(g, s, g.p[g.t][s])) == Total(g.p)
    ensures ValidBoard(Sown(g, s, g.p[g.t][s]))
  {
    var n := g.p[g.t][s];
    SownTotal(g, s, n);
    var b := Sown(g, s, n);
    forall j | 0 <= j < Cells ensures b[0][j] >= 0 && b[1][j] >= 0 {
      SownAt(g, s, n, 0, j);
      SownAt(g, s, n, 1, j);
    }
  }

  /** A capture moves seeds from one cell to another: the total stays, no cell goes negative. */
  lemma CaptureValid(b: seq<seq<int>>, m: Side, l: nat)
    requires ValidBoard(b) && l < Pits
    ensures Total(Capture(b, m, l)) == Total(b)
    ensures ValidBoard(Capture(b, m, l))
  {
  }

  // ---------------------------------------------------------------------------------------
  // The move engine, as the source runs it

  /** Copies the position, empties pit `s` of the mover, sows its seeds one by one around the
      cycle, then applies the capture and extra-turn rules. Pit indices of 6 or more abort in
      the source, so `s < 6` is required; an empty pit gives None. */
  method Step(g: Game, s: nat) returns (r: Option<Game>)
    requires Valid(g) && s < Pits
    ensures r == Successor(g, s)
  {
    var t := g.t;
    var leftover := g.p[t][s];
    if leftover == 0 {
      return None;
    }
    var p, side, pos := SowSeeds(g, s);
    LastSeed(g, s, side, pos);
    if pos < StoreIx {
      if side == g.t && p[side][pos] == 1 {
        var opp := Pits - 1 - pos;
        p := p[side := p[side][StoreIx := p[side][StoreIx] + p[1 - side][opp]]];
        p := p[1 - side := p[1 - side][opp := 0]];
      }
      t := 1 - t;
    }
    r := Some(Game(p, t));
  }

  /** The sowing loop of the move: takes the `n` seeds out of pit `s` of the mover and drops
      them one per cell, walking the mover's pits, the mover's store, the opponent's pits and
      back; returns the board and the cell (`side`, `pos`) that got the last seed, which is
      cycle cell (s + n) mod 13. */
  method SowSeeds(g: Game, s: nat) returns (p: seq<seq<int>>, side: Side, pos: nat)
    requires Valid(g) && s < Pits && g.p[g.t][s] > 0
    ensures p == Sown(g, s, g.p[g.t][s])
    ensures side == CycleSide(g.t, Landing(s, g.p[g.t][s])) && pos == CyclePos(Landing(s, g.p[g.t][s]))
  {
    p := g.p;
    var leftover := p[g.t][s];
    ghost var n := leftover;
    side := g.t;
    pos := s + 1;
    p := p[side := p[side][s := 0]];

    ghost var c := s + 1;  // cycle cell of the next seed
    while true
      invariant 0 < leftover <= n
      invariant 0 <= c < CycleLength && c == SeedCell(s, n - leftover + 1)
      invariant side == CycleSide(g.t, c) && pos == CyclePos(c)
      invariant p == Sown(g, s, n - leftover)
      decreases leftover
    {
      p := p[side := p[side][pos := p[side][pos] + 1]];
      leftover := leftover - 1;
      assert p == Sown(g, s, n - leftover);
      if leftover == 0 {
        break;
      }
      NextSeedCell(s, n - leftover);
      c := if c == CycleLength - 1 then 0 else c + 1;
      if (pos == Pits - 1 && side != g.t) || pos == StoreIx {
        side := 1 - side;
        pos := 0;
      } else {
        pos := pos + 1;
      }
    }
  }

  /** Where the last seed lands decides the rest of the move: in the mover's store the mover
      keeps the turn; in a mover's pit now holding one seed the opposite pit is captured;
      anywhere else only the turn passes. */
  lemma LastSeed(g: Game, s: nat, side: Side, pos: int)
    requires Valid(g) && s < Pits && g.p[g.t][s] > 0
    requires var l := Landing(s, g.p[g.t][s]); side == CycleSide(g.t, l) && pos == CyclePos(l)
    ensures var b := Sown(g, s, g.p[g.t][s]);
            0 <= pos < Cells &&
            Successor(g, s) ==
              if pos == StoreIx then Some(Game(b, g.t))
              else if side == g.t && b[side][pos] == 1 then Some(Game(Capture(b, g.t, pos), 1 - g.t))
              else Some(Game(b, 1 - g.t))
  {
  }

  // ---------------------------------------------------------------------------------------
  // What a move promises

  /** A move keeps the number of seeds on the board and leaves no cell negative, so the
      result is again a valid position. */
  lemma StepConserves(g: Game, s: nat)
    requires Valid(g) && s < Pits && Successor(g, s).Some?
    ensures Total(Successor(g, s).value.p) == Total(g.p)
    ensures forall i, j :: 0 <= i < 2 && 0 <= j < Cells ==> Successor(g, s).value.p[i][j] >= 0
    ensures Valid(Successor(g, s).value)
  {
    var n := g.p[g.t][s];
    SownValid(g, s);
    var l := Landing(s, n);
    if l != StoreIx && Captures(g, s) {
      CaptureValid(Sown(g, s, n), g.t, l);
    }
  }

  /** The opponent's store is never sown into nor captured from, and the mover's store only grows. */
  lemma StepStores(g: Game, s: nat)
    requires Valid(g) && s < Pits && Successor(g, s).Some?
    ensures Successor(g, s).value.p[1 - g.t][StoreIx] == g.p[1 - g.t][StoreIx]
    ensures Successor(g, s).value.p[g.t][StoreIx] >= g.p[g.t][StoreIx]
  {
    var n := g.p[g.t][s];
    SownValid(g, s);
    SownAt(g, s, n, 1 - g.t, StoreIx);
    SownAt(g, s, n, g.t, StoreIx);
  }

  /** Extra turn: the mover keeps the move exactly when the last seed lands in the mover's own
      store, which is cycle index (s + n) mod 13 = 6; otherwise the turn passes. */
  lemma StepExtraTurnIff(g: Game, s: nat)
    requires Valid(g) && s < Pits && Successor(g, s).Some?
    ensures Successor(g, s).value.t == g.t <==> Landing(s, g.p[g.t][s]) == StoreIx
    ensures Successor(g, s).value.t != g.t ==> Successor(g, s).value.t == 1 - g.t
  {
  }

  /** After a move without capture the board is exactly the sown board: cycle cell c holds its
      old count plus the seeds that reached it (pit `s` starts from zero), and the cells that no
      seed reached keep their old counts. */
  lemma {:induction false} StepWithoutCapture(g: Game, s: nat, i: Side, j: nat)
    requires Valid(g) && s < Pits && j < Cells && Successor(g, s).Some? && !Captures(g, s)
    requires !(i == g.t && j == s)
    requires !OnCycle(g.t, i, j) ||
             forall k :: 1 <= k <= g.p[g.t][s] ==> SeedCell(s, k) != CycleIndex(g.t, i, j)
    ensures Successor(g, s).value.p[i][j] == g.p[i][j]
  {
    var n := g.p[g.t][s];
    if OnCycle(g.t, i, j) {
      DropsPositiveIff(n, s, CycleIndex(g.t, i, j));
    }
    SownAt(g, s, n, i, j);
  }

  /** Capture: when the last seed lands in one of the mover's pits `l` that now holds just that
      seed, the opposite pit `5 - l` is emptied into the mover's store, the landing seed stays
      in pit `l`, the turn passes, and every other cell is as sowing left it. */
  lemma StepCapture(g: Game, s: nat)
    requires Valid(g) && s < Pits && Captures(g, s)
    ensures var n := g.p[g.t][s];
            var l := Landing(s, n);
            var b := Sown(g, s, n);
            var r := Successor(g, s).value;
            && l < Pits
            && r.t == 1 - g.t
            && r.p[1 - g.t][Pits - 1 - l] == 0
            && r.p[g.t][StoreIx] == b[g.t][StoreIx] + b[1 - g.t][Pits - 1 - l]
            && r.p[g.t][l] == 1
            && (forall i, j ::
                  0 <= i < 2 && 0 <= j < Cells &&
                  !(i == 1 - g.t && j == Pits - 1 - l) && !(i == g.t && j == StoreIx)
                  ==> r.p[i][j] == b[i][j])
  {
  }

  /** The capture condition in terms of the position before the move: the last seed lands in
      one of the mover's pits that was empty — either a pit the sowing did not lap (fewer than
      13 seeds), or, with exactly 13 seeds, the start pit itself after one full lap. */
  lemma CapturesIff(g: Game, s: nat)
    requires Valid(g) && s < Pits
    ensures var n := g.p[g.t][s];
            var l := Landing(s, n);
            Captures(g, s) <==>
              0 < n && l < Pits && ((n < CycleLength && g.p[g.t][l] == 0) || n == CycleLength)
  {
    var n := g.p[g.t][s];
    var l := Landing(s, n);
    if 0 < n && l < Pits {
      DropsClosedForm(n, s, l);
      SownAt(g, s, n, g.t, l);
      if n < CycleLength {
        assert l != s;
      }
    }
  }

  /** A move that keeps the turn drops its last seed in the mover's store, so the seeds left in
      the pits strictly decrease; this is why chains of extra turns end. */
  lemma ExtraTurnReducesPits(g: Game, s: nat)
    requires Valid(g) && s < Pits && Successor(g, s).Some? && Successor(g, s).value.t == g.t
    ensures SeedsInPits(Successor(g, s).value.p) < SeedsInPits(g.p)
  {
    var n := g.p[g.t][s];
    StepStores(g, s);
    SownValid(g, s);
    var b := Sown(g, s, n);
    SownAt(g, s, n, g.t, StoreIx);
    assert Drops(n, s, StoreIx) >= 1;
  }

  /** From the initial position, sowing pit 2 (four seeds) fills pits 3, 4, 5 and the store,
      and side 0 moves again. */
  lemma NewGameSowPit2()
    ensures Successor(NewGame(), 2) == Some(Game([[4, 4, 0, 5, 5, 5, 1], [4, 4, 4, 4, 4, 4, 0]], 0))
  {
    var g := NewGame();
    assert Landing(2, 4) == StoreIx;
    assert Sown(g, 2, 0)[0] == [4, 4, 0, 4, 4, 4, 0] && Sown(g, 2, 0)[1] == g.p[1];
    assert Sown(g, 2, 1)[0] == [4, 4, 0, 5, 4, 4, 0] && Sown(g, 2, 1)[1] == g.p[1];
    assert Sown(g, 2, 2)[0] == [4, 4, 0, 5, 5, 4, 0] && Sown(g, 2, 2)[1] == g.p[1];
    assert Sown(g, 2, 3)[0] == [4, 4, 0, 5, 5, 5, 0] && Sown(g, 2, 3)[1] == g.p[1];
    assert Sown(g, 2, 4)[0] == [4, 4, 0, 5, 5, 5, 1] && Sown(g, 2, 4)[1] == g.p[1];
    assert Sown(g, 2, 4) == [[4, 4, 0, 5, 5, 5, 1], [4, 4, 4, 4, 4, 4, 0]];
  }
}
