/** Expansion: every position reachable in one full turn of the side to move. A full turn is
    a chain of moves in which every move but the last gave the mover another turn in a game
    still in progress. */
module Expansion {
  import opened Wrappers
  import opened Board
  import opened Sowing

  /** `x` is reached from `g` in one full turn by sowing the pits `moves` in order: every move
      but the last landed in the mover's store of a game still in progress, and the last one
      passed the turn or ended the game. */
  ghost predicate FullTurn(g: Game, moves: seq<int>, x: Game)
    requires Valid(g)
    decreases |moves|
  {
    if |moves| == 0 || !(0 <= moves[0] < Pits) || Successor(g, moves[0]).None? then false
    else
      var g1 := Successor(g, moves[0]).value;
      StepConserves(g, moves[0]);
      if |moves| == 1 then x == g1 && (g1.t != g.t || StateOf(g1) != InProgress)
      else g1.t == g.t && StateOf(g1) == InProgress && FullTurn(g1, moves[1..], x)
  }

  /** A move that passes the turn or ends the game is a full turn by itself. */
  lemma FullTurnOne(g: Game, i: nat)
    requires Valid(g) && i < Pits && Successor(g, i).Some?
    requires var g1 := Successor(g, i).value; g1.t != g.t || StateOf(g1) != InProgress
    ensures FullTurn(g, [i], Successor(g, i).value)
  {
  }

  /** A move that grants another turn, followed by a full turn of the same side, is a full turn. */
  lemma FullTurnExtend(g: Game, i: nat, moves: seq<int>, x: Game)
    requires Valid(g) && i < Pits && Successor(g, i).Some?
    requires var g1 := Successor(g, i).value; g1.t == g.t && StateOf(g1) == InProgress
    requires Valid(Successor(g, i).value) && FullTurn(Successor(g, i).value, moves, x)
    ensures FullTurn(g, [i] + moves, x)
  {
    assert ([i] + moves)[1..] == moves;
  }

  /** Every move of a full turn but the last takes a seed out of the pits for good, and the last
      needs a seed to sow, so a full turn has at most as many moves as there are seeds in the
      pits. */
  lemma {:induction false} FullTurnBounded(g: Game, moves: seq<int>, x: Game)
    requires Valid(g) && FullTurn(g, moves, x)
    ensures |moves| <= SeedsInPits(g.p)
    decreases |moves|
  {
    var g1 := Successor(g, moves[0]).value;
    StepConserves(g, moves[0]);
    if |moves| == 1 {
      assert g.p[g.t][moves[0]] > 0;
      assert SeedsInPits(g.p) >= g.p[g.t][moves[0]] by {
        assert PitTotal(g.p[g.t]) >= g.p[g.t][moves[0]];
      }
    } else {
      FullTurnBounded(g1, moves[1..], x);
      ExtraTurnReducesPits(g, moves[0]);
    }
  }

  /** What one full turn preserves and achieves: the result is a valid position with the same
      number of seeds, and the turn has passed or the game is over. */
  lemma {:induction false} FullTurnConserves(g: Game, moves: seq<int>, x: Game)
    requires Valid(g) && FullTurn(g, moves, x)
    ensures Valid(x) && Total(x.p) == Total(g.p)
    ensures x.t != g.t || StateOf(x) != InProgress
    decreases |moves|
  {
    StepConserves(g, moves[0]);
    if |moves| > 1 {
      FullTurnConserves(Successor(g, moves[0]).value, moves[1..], x);
    }
  }

  /** The first move of a full turn decides its shape: a move that keeps the turn in a running
      game is followed by a full turn from there, any other move ends the turn. */
  lemma FullTurnFirst(g: Game, moves: seq<int>, x: Game)
    requires Valid(g) && FullTurn(g, moves, x)
    ensures 0 <= moves[0] < Pits && Successor(g, moves[0]).Some?
    ensures var g1 := Successor(g, moves[0]).value;
            if g1.t == g.t && StateOf(g1) == InProgress
            then |moves| > 1 && Valid(g1) && FullTurn(g1, moves[1..], x)
            else |moves| == 1 && x == g1
  {
    StepConserves(g, moves[0]);
  }

  /** `paths[k]` is a chain of pits that leads from `g` to `res[k]` in one full turn. */
  ghost predicate Witnessed(g: Game, res: seq<Game>, paths: seq<seq<int>>)
    requires Valid(g)
  {
    |paths| == |res| && forall k :: 0 <= k < |res| ==> FullTurn(g, paths[k], res[k])
  }

  /** Witnessed lists concatenate. */
  lemma WitnessedAppend(g: Game, res: seq<Game>, paths: seq<seq<int>>, more: seq<Game>, morePaths: seq<seq<int>>)
    requires Valid(g) && Witnessed(g, res, paths) && Witnessed(g, more, morePaths)
    ensures Witnessed(g, res + more, paths + morePaths)
  {
    forall k | 0 <= k < |res| + |more|
      ensures FullTurn(g, (paths + morePaths)[k], (res + more)[k])
    {
      if k < |res| {
        assert (paths + morePaths)[k] == paths[k] && (res + more)[k] == res[k];
      } else {
        assert (paths + morePaths)[k] == morePaths[k - |res|] && (res + more)[k] == more[k - |res|];
      }
    }
  }

  /** Every position reachable after one full turn of the side to move: for each pit 0..5 in
      order, the result of sowing it, or, when that move keeps the turn in a running game, the
      positions reachable from there. `paths[k]` is the chain of pits that leads to `res[k]`.
      Recursion ends because each extra turn removes seeds from the pits for good. */
  method Next(g: Game) returns (res: seq<Game>, ghost paths: seq<seq<int>>)
    requires Valid(g)
    ensures forall x :: x in res ==>
              Valid(x) && Total(x.p) == Total(g.p) && (x.t != g.t || StateOf(x) != InProgress)
    ensures Witnessed(g, res, paths)
    ensures forall moves, x :: FullTurn(g, moves, x) ==> x in res
    ensures res == [] <==> !HasPitSeeds(g, g.t)
    decreases SeedsInPits(g.p), 1
  {
    res, paths := [], [];
    for i := 0 to Pits
      invariant Witnessed(g, res, paths)
      invariant forall moves, x :: FullTurn(g, moves, x) && moves[0] < i ==> x in res
      invariant res == [] <==> forall j :: 0 <= j < i ==> g.p[g.t][j] == 0
    {
      ghost var before := res;
      res, paths := ExpandPit(g, i, res, paths);
      forall moves, x | FullTurn(g, moves, x) && moves[0] < i + 1 ensures x in res {
        if moves[0] < i {
          assert x in before;
        }
      }
    }
    forall x | x in res
      ensures Valid(x) && Total(x.p) == Total(g.p) && (x.t != g.t || StateOf(x) != InProgress)
    {
      var k :| 0 <= k < |res| && res[k] == x;
      FullTurnConserves(g, paths[k], x);
    }
  }

  /** The body of the loop over pits in `Next`: sows pit `i` and pushes onto `res` either the
      resulting position or, when the move keeps the turn in a running game, everything
      reachable from it. Nothing is pushed for an empty pit. */
  method ExpandPit(g: Game, i: int, res: seq<Game>, ghost paths: seq<seq<int>>)
    returns (res': seq<Game>, ghost paths': seq<seq<int>>)
    requires Valid(g) && 0 <= i < Pits && Witnessed(g, res, paths)
    ensures Witnessed(g, res', paths')
    ensures |res| <= |res'| && res'[..|res|] == res
    ensures forall moves, x :: FullTurn(g, moves, x) && moves[0] == i ==> x in res'
    ensures |res'| == |res| <==> g.p[g.t][i] == 0
    decreases SeedsInPits(g.p), 0
  {
    res', paths' := res, paths;
    var cand := Step(g, i);
    if cand.Some? {
      var c := cand.value;
      StepConserves(g, i);
      if c.t == g.t && StateOf(c) == InProgress {
        ExtraTurnReducesPits(g, i);
        StateInProgressIff(c);
        var sub;
        ghost var subPaths;
        sub, subPaths := Next(c);
        res' := PushAll(res', sub);
        ghost var extended := seq(|sub|, k requires 0 <= k < |sub| => [i] + subPaths[k]);
        forall k | 0 <= k < |sub| ensures FullTurn(g, extended[k], sub[k]) {
          FullTurnExtend(g, i, subPaths[k], sub[k]);
        }
        WitnessedAppend(g, res, paths, sub, extended);
        paths' := paths' + extended;
        forall moves, x | FullTurn(g, moves, x) && moves[0] == i ensures x in sub {
          FullTurnFirst(g, moves, x);
        }
      } else {
        FullTurnOne(g, i);
        WitnessedAppend(g, res, paths, [c], [[i]]);
        res' := res' + [c];
        paths' := paths' + [[i]];
        forall moves, x | FullTurn(g, moves, x) && moves[0] == i ensures x == c {
          FullTurnFirst(g, moves, x);
        }
      }
    } else {
      forall moves, x | FullTurn(g, moves, x) ensures moves[0] != i {
        FullTurnFirst(g, moves, x);
      }
    }
  }

  /** Appends `items` to `res` one element at a time. */
  method PushAll<T>(res: seq<T>, items: seq<T>) returns (r: seq<T>)
    ensures r == res + items
  {
    r := res;
    for j := 0 to |items|
      invariant r == res + items[..j]
    {
      assert items[..j + 1] == items[..j] + [items[j]];
      r := r + [items[j]];
    }
    assert items[..|items|] == items;
  }
}
