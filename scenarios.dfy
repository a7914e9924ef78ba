/** Concrete games on a 5 x 5 board, played through `GameStat.Move`. */
module GameScenarios {
  import opened Game

  /** A consistent 5 x 5 game whose history is exactly ms. */
  ghost predicate Played(g: GameStat, ms: seq<Marker>)
    reads g, g.chesses, g.occupation, g.score
  {
    g.Valid() && g.M == 5 && g.N == 5 && g.moves == ms
  }

  /** No move of ms was made at (m, n). */
  predicate FreeIn(ms: seq<Marker>, m: int, n: int)
  {
    forall k :: 0 <= k < |ms| ==> !(ms[k].m == m && ms[k].n == n)
  }

  /** An attempt the placement rule accepts, stated over the history:
      it extends the history by one marker of the player to move. */
  method Place(g: GameStat, m: int, n: int, ghost ms: seq<Marker>, ghost k: nat)
    requires Played(g, ms) && 0 <= m <= 5 && 0 <= n <= 5 && FreeIn(ms, m, n)
    requires |ms| == 0 || (k < |ms| && g.Inspected(ms[k].m, ms[k].n, m, n))
    modifies g, g.chesses, g.occupation
    ensures Played(g, ms + [Marker(|ms|, |ms| % 2, m, n)])
  {
    g.AcceptsByHistory(m, n);
    g.Move(m, n);
  }

  /** An attempt touching no earlier move, after the first one: the game
      is left as it was. */
  method Refuse(g: GameStat, m: int, n: int, ghost ms: seq<Marker>)
    requires Played(g, ms) && |ms| > 0
    requires forall k :: 0 <= k < |ms| ==> !g.Inspected(ms[k].m, ms[k].n, m, n)
    modifies g, g.chesses, g.occupation
    ensures Played(g, ms)
  {
    g.AcceptsByHistory(m, n);
    g.Move(m, n);
  }

  /** Cell (0, 0) cornered by moves 0 to 3 belongs to the player of move 3. */
  lemma FirstCellOwned(g: GameStat)
    requires Played(g, [Marker(0, 0, 0, 0), Marker(1, 1, 0, 1), Marker(2, 0, 1, 0), Marker(3, 1, 1, 1)])
    ensures g.occupation[0, 0] == 1
  {
    var cs := g.moves;
    assert CornerSlots(g.chesses, 0, 0) == [Some(cs[0]), Some(cs[1]), Some(cs[2]), Some(cs[3])];
    LatestIsNewest(cs, 3);
    assert CellOk(g.chesses, g.occupation, 0, 0);
  }

  /** Player 0 at (0, 0); an attempt at (3, 3), touching nothing, is
      refused; player 1 at (0, 1). */
  method Opening() returns (g: GameStat)
    ensures fresh(g) && fresh(g.chesses) && fresh(g.occupation)
    ensures Played(g, [Marker(0, 0, 0, 0), Marker(1, 1, 0, 1)])
  {
    g := new GameStat(5, 5);
    Place(g, 0, 0, [], 0);
    var a := Marker(0, 0, 0, 0);
    assert [] + [a] == [a];
    Refuse(g, 3, 3, [a]);
    Place(g, 0, 1, [a], 0);
  }

  /** Row 0 counts v once when cell (0, 0) holds v and no other cell of
      the row does. */
  lemma {:induction false} OnlyCornerInRow(occ: array2<int>, v: int, j: nat)
    requires 0 < occ.Length0 && j <= occ.Length1
    requires forall b :: 0 < b < occ.Length1 ==> occ[0, b] != v
    ensures CountInRow(occ, v, 0, j) == if j > 0 && occ[0, 0] == v then 1 else 0
  {
    if j > 0 {
      OnlyCornerInRow(occ, v, j - 1);
    }
  }

  /** A table in which only cell (0, 0) may hold v counts v once when it
      does and never otherwise. */
  lemma {:induction false} OnlyCornerCounted(occ: array2<int>, v: int, i: nat)
    requires 0 < i <= occ.Length0 && 0 < occ.Length1
    requires forall a, b :: 0 <= a < occ.Length0 && 0 <= b < occ.Length1 && (a != 0 || b != 0) ==>
               occ[a, b] != v
    ensures CountInRows(occ, v, i) == if occ[0, 0] == v then 1 else 0
  {
    if i == 1 {
      OnlyCornerInRow(occ, v, occ.Length1);
    } else {
      OnlyCornerCounted(occ, v, i - 1);
      NothingInRow(occ, v, i - 1, occ.Length1);
    }
  }

  /** With moves 0 to 3 on the corners of cell (0, 0), every other cell
      misses its corner (i + 1, j + 1), so the only claimed cell is (0, 0):
      player 1 scores 1 and player 0 scores 0. */
  lemma FirstCellScores(g: GameStat)
    requires Played(g, [Marker(0, 0, 0, 0), Marker(1, 1, 0, 1), Marker(2, 0, 1, 0), Marker(3, 1, 1, 1)])
    ensures g.score[0] == 0 && g.score[1] == 1
  {
    FirstCellOwned(g);
    forall a, b | 0 <= a < 5 && 0 <= b < 5 && (a != 0 || b != 0)
      ensures g.occupation[a, b] == -1
    {
      if g.chesses[a + 1, b + 1].Some? {
        var w := g.chesses[a + 1, b + 1].value;
        assert g.moves[w.count] == w;
      }
      assert CellOk(g.chesses, g.occupation, a, b);
    }
    OnlyCornerCounted(g.occupation, 0, 5);
    OnlyCornerCounted(g.occupation, 1, 5);
  }

  /** After the opening, player 0 at (1, 0) and player 1 at (1, 1)
      complete cell (0, 0); its latest corner is player 1's, so player 1
      scores 1 and player 0 scores 0. */
  method FirstCellScenario() returns (owner: int, placed: nat, turn: Player, score0: int, score1: int)
    ensures owner == 1 && placed == 4 && turn == 0
    ensures score0 == 0 && score1 == 1
  {
    var a, b, c, d := Marker(0, 0, 0, 0), Marker(1, 1, 0, 1), Marker(2, 0, 1, 0), Marker(3, 1, 1, 1);
    var g := Opening();
    Place(g, 1, 0, [a, b], 0);
    assert [a, b] + [c] == [a, b, c];
    Place(g, 1, 1, [a, b, c], 1);
    assert [a, b, c] + [d] == [a, b, c, d];
    FirstCellOwned(g);
    FirstCellScores(g);
    owner, placed, turn := g.occupation[0, 0], g.count, g.currentPlayer;
    score0, score1 := g.score[0], g.score[1];
  }

  /** The point below is looked at only above row M - 1: with one marker
      at (5, 0), an attempt at (4, 0) is refused and the turn stays with
      player 1. */
  method FarEdgeScenario() returns (placed: nat, turn: Player)
    ensures placed == 1 && turn == 1
  {
    var g := new GameStat(5, 5);
    Place(g, 5, 0, [], 0);
    Refuse(g, 4, 0, [Marker(0, 0, 5, 0)]);
    placed, turn := g.count, g.currentPlayer;
  }
}
