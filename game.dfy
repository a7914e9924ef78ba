/** The rules engine of the territory game: the `GameStat` class of src/game.js.

    Players take turns placing markers on the (M+1) x (N+1) lattice points
    around an M x N grid of cells. A cell is claimed, once and for good, by
    the player who placed the last of its four corner markers; a player's
    score is the number of cells it has claimed.
 */
module Game {

  datatype Option<T> = None | Some(value: T)

  /** A player index, 0 or 1 (the source flips it with `1 - p`). */
  type Player = p: int | 0 <= p <= 1

  /** A placed marker: its placement number (`count`), the player who placed
      it, and the lattice point it sits on. */
  datatype Marker = Marker(count: nat, player: Player, m: nat, n: nat)

  // The three `reduce` calls of the source, each a left fold over a
  // non-empty sequence (`reduce` without a seed throws on an empty array).

  /** `c.reduce((x, y) => x && y)`: empty (null) as soon as one slot is empty. */
  function FoldAnd(cs: seq<Option<Marker>>): (r: Option<Marker>)
    requires |cs| > 0
    ensures r.None? <==> exists k :: 0 <= k < |cs| && cs[k].None?
  {
    if |cs| == 1 then cs[0]
    else
      var acc := FoldAnd(cs[..|cs| - 1]);
      if acc.None? then acc else cs[|cs| - 1]
  }

  /** `c.reduce((x, y) => x || y)`: a marker as soon as one slot holds one. */
  function FoldOr(cs: seq<Option<Marker>>): (r: Option<Marker>)
    requires |cs| > 0
    ensures r.Some? <==> AnySome(cs)
  {
    if |cs| == 1 then cs[0]
    else
      var acc := FoldOr(cs[..|cs| - 1]);
      if acc.Some? then acc else cs[|cs| - 1]
  }

  /** `c.reduce((x, y) => x.count < y.count ? y : x)`: the most recently
      placed of the markers. */
  function Latest(cs: seq<Marker>): (r: Marker)
    requires |cs| > 0
    ensures r in cs
    ensures forall c :: c in cs ==> c.count <= r.count
  {
    if |cs| == 1 then cs[0]
    else
      var acc := Latest(cs[..|cs| - 1]);
      if acc.count < cs[|cs| - 1].count then cs[|cs| - 1] else acc
  }

  /** The latest of markers whose numbers are all below that of cs[k] is cs[k]. */
  lemma {:induction false} LatestIsNewest(cs: seq<Marker>, k: nat)
    requires k < |cs|
    requires forall q :: 0 <= q < |cs| && q != k ==> cs[q].count < cs[k].count
    ensures Latest(cs) == cs[k]
  {
    if k < |cs| - 1 {
      LatestIsNewest(cs[..|cs| - 1], k);
    }
  }

  /** Some slot of cs holds a marker. */
  predicate AnySome(cs: seq<Option<Marker>>)
  {
    exists k :: 0 <= k < |cs| && cs[k].Some?
  }

  /** `if (present) c.push(x)`: the slots pushed for one neighbour. */
  function Slot(present: bool, x: Option<Marker>): (r: seq<Option<Marker>>)
    ensures AnySome(r) <==> present && x.Some?
  {
    if present then (assert [x][0] == x; [x]) else []
  }

  /** A concatenation holds a marker exactly when one of its parts does. */
  lemma SomeInConcat(a: seq<Option<Marker>>, b: seq<Option<Marker>>)
    ensures AnySome(a + b) <==> AnySome(a) || AnySome(b)
  {
    if AnySome(a + b) {
      var k :| 0 <= k < |a + b| && (a + b)[k].Some?;
      if k < |a| { assert a[k].Some?; } else { assert b[k - |a|].Some?; }
    }
    if AnySome(a) {
      var k :| 0 <= k < |a| && a[k].Some?;
      assert (a + b)[k].Some?;
    }
    if AnySome(b) {
      var k :| 0 <= k < |b| && b[k].Some?;
      assert (a + b)[|a| + k].Some?;
    }
  }

  // Cells and their corners. Cell (i, j) is bounded by the lattice points
  // (i, j), (i, j+1), (i+1, j) and (i+1, j+1).

  /** Lattice point (m, n) is one of the four corners of cell (i, j). */
  predicate IsCornerOf(m: int, n: int, i: int, j: int)
  {
    (i == m || i == m - 1) && (j == n || j == n - 1)
  }

  /** The four corner slots of cell (i, j), in the order the source reads them. */
  function CornerSlots(ch: array2<Option<Marker>>, i: nat, j: nat): seq<Option<Marker>>
    reads ch
    requires i + 1 < ch.Length0 && j + 1 < ch.Length1
  {
    [ch[i, j], ch[i, j + 1], ch[i + 1, j], ch[i + 1, j + 1]]
  }

  /** All four corner slots hold a marker. */
  predicate Complete(cs: seq<Option<Marker>>)
    requires |cs| == 4
  {
    cs[0].Some? && cs[1].Some? && cs[2].Some? && cs[3].Some?
  }

  /** The player who placed the latest of four placed corners. */
  function Winner(cs: seq<Option<Marker>>): Player
    requires |cs| == 4 && Complete(cs)
  {
    Latest([cs[0].value, cs[1].value, cs[2].value, cs[3].value]).player
  }

  /** An occupation entry agrees with the corners of its cell: the winner
      once all four are placed, -1 (unclaimed) before. */
  predicate Resolved(cs: seq<Option<Marker>>, owner: int)
    requires |cs| == 4
  {
    if Complete(cs) then owner == Winner(cs) else owner == -1
  }

  /** A cell gains its owner with its last corner: when mv, newer than every
      marker already there, fills the empty corner k, the re-resolved entry
      is the player of mv once the cell is complete, and stays unclaimed
      otherwise. */
  lemma NewestCornerWins(before: seq<Option<Marker>>, was: int, k: nat, mv: Marker, now: int)
    requires |before| == 4 && k < 4 && before[k] == None && Resolved(before, was)
    requires forall q :: 0 <= q < 4 && q != k && before[q].Some? ==> before[q].value.count < mv.count
    requires now == if Complete(before[k := Some(mv)]) then Winner(before[k := Some(mv)]) else was
    ensures Resolved(before[k := Some(mv)], now)
    ensures was == -1 && (now != -1 ==> now == mv.player)
  {
    var after := before[k := Some(mv)];
    if Complete(after) {
      LatestIsNewest([after[0].value, after[1].value, after[2].value, after[3].value], k);
    }
  }

  /** All four corners of cell (i, j) hold a marker. */
  predicate Filled(ch: array2<Option<Marker>>, i: nat, j: nat)
    reads ch
    requires i + 1 < ch.Length0 && j + 1 < ch.Length1
  {
    Complete(CornerSlots(ch, i, j))
  }

  /** The owner of a fully cornered cell: the player of its latest corner. */
  function Owner(ch: array2<Option<Marker>>, i: nat, j: nat): Player
    reads ch
    requires i + 1 < ch.Length0 && j + 1 < ch.Length1 && Filled(ch, i, j)
  {
    Winner(CornerSlots(ch, i, j))
  }

  /** The occupation table (M x N) fits the lattice ((M+1) x (N+1)). */
  predicate Fits(ch: array2<Option<Marker>>, occ: array2<int>)
  {
    ch.Length0 == occ.Length0 + 1 && ch.Length1 == occ.Length1 + 1
  }

  /** Cell (i, j) is claimed exactly when it is filled, and then by its owner. */
  predicate CellOk(ch: array2<Option<Marker>>, occ: array2<int>, i: nat, j: nat)
    reads ch, occ
    requires Fits(ch, occ) && i < occ.Length0 && j < occ.Length1
  {
    Resolved(CornerSlots(ch, i, j), occ[i, j])
  }

  // Counting over the grid, row by row, as the score scan visits it.

  /** Cells (i, k) with k < j whose occupation entry is v. */
  function CountInRow(occ: array2<int>, v: int, i: nat, j: nat): nat
    reads occ
    requires i < occ.Length0 && j <= occ.Length1
  {
    if j == 0 then 0
    else CountInRow(occ, v, i, j - 1) + (if occ[i, j - 1] == v then 1 else 0)
  }

  /** Cells in rows below i whose occupation entry is v. */
  function CountInRows(occ: array2<int>, v: int, i: nat): nat
    reads occ
    requires i <= occ.Length0
  {
    if i == 0 then 0
    else CountInRows(occ, v, i - 1) + CountInRow(occ, v, i - 1, occ.Length1)
  }

  /** Filled cells (i, k) with k < j. */
  function FilledInRow(ch: array2<Option<Marker>>, i: nat, j: nat): nat
    reads ch
    requires i + 1 < ch.Length0 && j < ch.Length1
  {
    if j == 0 then 0
    else FilledInRow(ch, i, j - 1) + (if Filled(ch, i, j - 1) then 1 else 0)
  }

  /** Filled cells in rows below i. */
  function FilledInRows(ch: array2<Option<Marker>>, i: nat): nat
    reads ch
    requires i < ch.Length0 && 0 < ch.Length1
  {
    if i == 0 then 0
    else FilledInRows(ch, i - 1) + FilledInRow(ch, i - 1, ch.Length1 - 1)
  }

  /** A table in which no entry is v counts no v. */
  lemma {:induction false} NothingCounted(occ: array2<int>, v: int, i: nat)
    requires i <= occ.Length0
    requires forall a, b :: 0 <= a < occ.Length0 && 0 <= b < occ.Length1 ==> occ[a, b] != v
    ensures CountInRows(occ, v, i) == 0
  {
    if i > 0 {
      NothingCounted(occ, v, i - 1);
      NothingInRow(occ, v, i - 1, occ.Length1);
    }
  }

  lemma {:induction false} NothingInRow(occ: array2<int>, v: int, i: nat, j: nat)
    requires i < occ.Length0 && j <= occ.Length1
    requires forall b :: 0 <= b < occ.Length1 ==> occ[i, b] != v
    ensures CountInRow(occ, v, i, j) == 0
  {
    if j > 0 {
      NothingInRow(occ, v, i, j - 1);
    }
  }

  /** Where every cell is claimed exactly when filled, the cells of row i
      claimed by player 0 or 1 are the filled cells of that row. */
  lemma {:induction false} ClaimedInRow(ch: array2<Option<Marker>>, occ: array2<int>, i: nat, j: nat)
    requires Fits(ch, occ) && i < occ.Length0 && j <= occ.Length1
    requires forall a, b :: 0 <= a < occ.Length0 && 0 <= b < occ.Length1 ==> CellOk(ch, occ, a, b)
    ensures CountInRow(occ, 0, i, j) + CountInRow(occ, 1, i, j) == FilledInRow(ch, i, j)
  {
    if j > 0 {
      ClaimedInRow(ch, occ, i, j - 1);
      assert CellOk(ch, occ, i, j - 1);
    }
  }

  /** Where every cell is claimed exactly when filled, the cells claimed by
      player 0 or 1 are the filled cells. */
  lemma {:induction false} ClaimedInRows(ch: array2<Option<Marker>>, occ: array2<int>, i: nat)
    requires Fits(ch, occ) && i <= occ.Length0
    requires forall a, b :: 0 <= a < occ.Length0 && 0 <= b < occ.Length1 ==> CellOk(ch, occ, a, b)
    ensures CountInRows(occ, 0, i) + CountInRows(occ, 1, i) == FilledInRows(ch, i)
  {
    if i > 0 {
      ClaimedInRows(ch, occ, i - 1);
      ClaimedInRow(ch, occ, i - 1, occ.Length1);
    }
  }

  class GameStat {
    const M: nat
    const N: nat
    /** The move history; marker k was the k-th placement. */
    var moves: seq<Marker>
    /** Cells claimed by player 0 and by player 1. */
    var score: array<int>
    /** Owner of each cell, -1 while unclaimed. */
    const occupation: array2<int>
    /** The marker on each lattice point, if any. */
    const chesses: array2<Option<Marker>>
    /** Number of markers placed: the next placement number. */
    var count: nat
    var currentPlayer: Player

    /** Board dimensions. Boards with M <= 1 and N <= 1 are excluded: on
        them an attempt at (0, 0) after the first move leaves `isValidPos`
        no neighbour to inspect, and its fold of the empty list throws. The
        exclusion covers these boards as a whole, including 0 x 0, where
        that attempt never reaches the adjacency test. */
    ghost predicate Shape()
    {
      (M >= 2 || N >= 2) &&
      chesses.Length0 == M + 1 && chesses.Length1 == N + 1 &&
      occupation.Length0 == M && occupation.Length1 == N
    }

    /** History and lattice agree: marker k is numbered k, was placed by
        player k % 2 and sits at its own point; every marker on the lattice
        is in the history at its number. */
    ghost predicate HistoryOk()
      reads this`moves, this`count, chesses
      requires Shape()
    {
      count == |moves| &&
      (forall k :: 0 <= k < |moves| ==>
        moves[k].count == k && moves[k].player == k % 2 &&
        moves[k].m <= M && moves[k].n <= N &&
        chesses[moves[k].m, moves[k].n] == Some(moves[k])) &&
      (forall i, j :: 0 <= i <= M && 0 <= j <= N && chesses[i, j].Some? ==>
        chesses[i, j].value.m == i && chesses[i, j].value.n == j &&
        chesses[i, j].value.count < |moves| &&
        moves[chesses[i, j].value.count] == chesses[i, j].value)
    }

    /** Every cell is claimed exactly when its four corners are filled,
        and then by the player of its latest corner. */
    ghost predicate OccupationOk()
      reads chesses, occupation
      requires Shape()
    {
      forall i, j :: 0 <= i < M && 0 <= j < N ==> CellOk(chesses, occupation, i, j)
    }

    /** Each score is the number of cells its player has claimed. */
    ghost predicate ScoreOk()
      reads this`score, occupation, score
      requires Shape()
    {
      score.Length == 2 &&
      score[0] == CountInRows(occupation, 0, M) &&
      score[1] == CountInRows(occupation, 1, M)
    }

    /** The invariant of the engine between two steps of a placement. */
    ghost predicate Consistent()
      reads this`moves, this`count, this`score, chesses, occupation, score
    {
      Shape() && HistoryOk() && OccupationOk() && ScoreOk()
    }

    /** The invariant of the engine between two calls of `Move`: the turn
        alternates with every accepted placement. */
    ghost predicate Valid()
      reads this`moves, this`count, this`score, this`currentPlayer, chesses, occupation, score
    {
      Consistent() && currentPlayer == count % 2
    }

    constructor (M: nat, N: nat)
      requires M >= 2 || N >= 2
      ensures Valid()
      ensures this.M == M && this.N == N
      ensures moves == [] && count == 0 && currentPlayer == 0
      ensures score[0] == 0 && score[1] == 0
      ensures forall i, j :: 0 <= i <= M && 0 <= j <= N ==> chesses[i, j] == None
      ensures forall i, j :: 0 <= i < M && 0 <= j < N ==> occupation[i, j] == -1
      ensures fresh(score) && fresh(occupation) && fresh(chesses)
    {
      this.M := M;
      this.N := N;
      moves := [];
      score := new int[2](_ => 0);
      occupation := new int[M, N]((_, _) => -1);
      chesses := new Option<Marker>[M + 1, N + 1]((_, _) => None);
      count := 0;
      currentPlayer := 0;
      new;
      assert forall i, j :: 0 <= i <= M && 0 <= j <= N ==> chesses[i, j] == None;
      assert forall i, j :: 0 <= i < M && 0 <= j < N ==> occupation[i, j] == -1;
      NothingCounted(occupation, 0, M);
      NothingCounted(occupation, 1, M);
    }

    /** Lattice point (m, n) holds no marker: no move of the history was
        placed there. */
    function IsEmpty(m: nat, n: nat): (r: bool)
      reads this`moves, this`count, chesses
      requires Shape() && HistoryOk() && m <= M && n <= N
      ensures r <==> forall k :: 0 <= k < |moves| ==> !(moves[k].m == m && moves[k].n == n)
    {
      chesses[m, n] == None
    }

    /** Lattice point (i, j) is one of the neighbours `isValidPos` looks at
        for a placement at (m, n): the point above and the one to the left
        whenever they exist, the point below only when m < M - 1 and the
        one to the right only when n < N - 1. */
    predicate Inspected(i: int, j: int, m: int, n: int)
    {
      || (m > 0 && i == m - 1 && j == n)
      || (m < M - 1 && i == m + 1 && j == n)
      || (n > 0 && i == m && j == n - 1)
      || (n < N - 1 && i == m && j == n + 1)
    }

    /** The adjacency rule: the first placement is free; later ones need a
        marker on an inspected neighbour. */
    function IsValidPos(m: nat, n: nat): (r: bool)
      reads this`count, chesses
      requires Shape() && m <= M && n <= N
      ensures r <==> count == 0
                     || (Inspected(m - 1, n, m, n) && chesses[m - 1, n].Some?)
                     || (Inspected(m + 1, n, m, n) && chesses[m + 1, n].Some?)
                     || (Inspected(m, n - 1, m, n) && chesses[m, n - 1].Some?)
                     || (Inspected(m, n + 1, m, n) && chesses[m, n + 1].Some?)
    {
      if count == 0 then true
      else
        var up := Slot(m > 0, if m > 0 then chesses[m - 1, n] else None);
        var down := Slot(m < M - 1, if m < M - 1 then chesses[m + 1, n] else None);
        var left := Slot(n > 0, if n > 0 then chesses[m, n - 1] else None);
        var right := Slot(n < N - 1, if n < N - 1 then chesses[m, n + 1] else None);
        var c := up + down + left + right;
        SomeInConcat(up, down);
        SomeInConcat(up + down, left);
        SomeInConcat(up + down + left, right);
        FoldOr(c).Some?
    }

    /** `move(m, n)` accepts the attempt: in bounds, on an empty point, and
        next to a marker unless it is the first placement. */
    predicate Accepts(m: int, n: int)
      reads this`moves, this`count, chesses
      requires Shape() && HistoryOk()
    {
      0 <= m <= M && 0 <= n <= N && IsEmpty(m, n) && IsValidPos(m, n)
    }

    /** The adjacency rule read off the history: after the first move, a
        point is adjacent exactly when an earlier move sits on one of its
        inspected neighbours. */
    lemma AdjacentByHistory(m: nat, n: nat)
      requires Valid() && m <= M && n <= N && |moves| > 0
      ensures IsValidPos(m, n) <==> exists k :: 0 <= k < |moves| && Inspected(moves[k].m, moves[k].n, m, n)
    {
      if IsValidPos(m, n) {
        var i, j := m, n;
        if Inspected(m - 1, n, m, n) && chesses[m - 1, n].Some? {
          i := m - 1;
        } else if Inspected(m + 1, n, m, n) && chesses[m + 1, n].Some? {
          i := m + 1;
        } else if Inspected(m, n - 1, m, n) && chesses[m, n - 1].Some? {
          j := n - 1;
        } else {
          j := n + 1;
        }
        var w := chesses[i, j].value;
        assert moves[w.count] == w && Inspected(w.m, w.n, m, n);
      } else {
        forall k | 0 <= k < |moves|
          ensures !Inspected(moves[k].m, moves[k].n, m, n)
        {
          assert chesses[moves[k].m, moves[k].n].Some?;
        }
      }
    }

    /** The placement rule read off the history alone: an attempt is
        accepted exactly when it is in bounds, no earlier move was made
        there, and it is the first move or touches an earlier one. */
    lemma AcceptsByHistory(m: int, n: int)
      requires Valid()
      ensures Accepts(m, n) <==>
                0 <= m <= M && 0 <= n <= N &&
                (forall k :: 0 <= k < |moves| ==> !(moves[k].m == m && moves[k].n == n)) &&
                (|moves| == 0 || exists k :: 0 <= k < |moves| && Inspected(moves[k].m, moves[k].n, m, n))
    {
      if 0 <= m <= M && 0 <= n <= N && |moves| > 0 {
        AdjacentByHistory(m, n);
      }
    }

    /** The effect of one accepted placement by `player` at (m, n): one
        marker numbered by the old count is appended and put on its point,
        nothing else on the lattice changes, only cells cornered at (m, n)
        are re-resolved, a claimed cell keeps its owner, and a cell claimed
        now goes to `player`. */
    twostate predicate Placed(m: nat, n: nat, player: Player)
      reads this`moves, this`count, chesses, occupation
      requires Shape() && m <= M && n <= N
    {
      && moves == old(moves) + [Marker(old(count), player, m, n)]
      && count == old(count) + 1
      && chesses[m, n] == Some(Marker(old(count), player, m, n))
      && (forall i, j :: 0 <= i <= M && 0 <= j <= N && (i != m || j != n) ==>
            chesses[i, j] == old(chesses[i, j]))
      && (forall i, j :: 0 <= i < M && 0 <= j < N && !IsCornerOf(m, n, i, j) ==>
            occupation[i, j] == old(occupation[i, j]))
      && (forall i, j :: 0 <= i < M && 0 <= j < N && old(occupation[i, j]) != -1 ==>
            occupation[i, j] == old(occupation[i, j]))
      && (forall i, j :: 0 <= i < M && 0 <= j < N && old(occupation[i, j]) == -1 && occupation[i, j] != -1 ==>
            occupation[i, j] == player)
    }

    /** Re-resolves cell (m, n): nothing happens while a corner is empty;
        otherwise the cell goes to the player of its latest corner. */
    method CalcOccupation(m: nat, n: nat)
      requires Shape() && m < M && n < N
      modifies occupation
      ensures forall i, j :: 0 <= i < M && 0 <= j < N ==>
                occupation[i, j] == if i == m && j == n && Filled(chesses, i, j)
                                    then Owner(chesses, i, j) else old(occupation[i, j])
    {
      var c := CornerSlots(chesses, m, n);
      if FoldAnd(c) == None {
        return;
      }
      var winner := Latest([c[0].value, c[1].value, c[2].value, c[3].value]).player;
      occupation[m, n] := winner;
    }

    /** Rebuilds the scores by a full scan of the occupation table. */
    method CalcScore()
      requires Shape()
      requires forall i, j :: 0 <= i < M && 0 <= j < N ==> -1 <= occupation[i, j] <= 1
      modifies this`score
      ensures fresh(score) && score.Length == 2
      ensures score[0] == CountInRows(occupation, 0, M)
      ensures score[1] == CountInRows(occupation, 1, M)
    {
      var s := new int[2](_ => 0);
      var i := 0;
      while i < M
        invariant 0 <= i <= M
        invariant forall v :: 0 <= v < 2 ==> s[v] == CountInRows(occupation, v, i)
      {
        ghost var below := s[..];
        var j := 0;
        while j < N
          invariant 0 <= j <= N
          invariant forall v :: 0 <= v < 2 ==> s[v] == below[v] + CountInRow(occupation, v, i, j)
        {
          var p := occupation[i, j];
          if p != -1 {
            s[p] := s[p] + 1;
          }
          j := j + 1;
        }
        i := i + 1;
      }
      score := s;
    }

    /** Places a marker of `player` at (m, n) unless the point is taken or
        not adjacent, then re-resolves the cells cornered at (m, n) and
        rebuilds the scores. The turn is flipped by the caller. */
    method AddMove(m: nat, n: nat, player: Player)
      requires Valid() && m <= M && n <= N && player == currentPlayer
      modifies this`moves, this`count, this`score, chesses, occupation
      ensures Consistent()
      ensures old(IsEmpty(m, n) && IsValidPos(m, n)) ==> Placed(m, n, player)
      ensures !old(IsEmpty(m, n) && IsValidPos(m, n)) ==> unchanged(this, chesses, occupation)
    {
      if !IsEmpty(m, n) || !IsValidPos(m, n) {
        return;
      }
      var mv := Marker(count, player, m, n);
      count := count + 1;
      moves := moves + [mv];
      chesses[m, n] := Some(mv);
      MarkerAppended(mv);

      ResolveAround(m, n);
      OccupationResolved(mv);

      CalcScore();
    }

    /** The re-resolution block of AddMove: each cell on the grid that has
        (m, n) as a corner is re-resolved; no other cell changes. */
    method ResolveAround(m: nat, n: nat)
      requires Shape() && m <= M && n <= N
      modifies occupation
      ensures forall i, j :: 0 <= i < M && 0 <= j < N ==>
                occupation[i, j] == if IsCornerOf(m, n, i, j) && Filled(chesses, i, j)
                                    then Owner(chesses, i, j) else old(occupation[i, j])
    {
      if m > 0 && n != N {
        CalcOccupation(m - 1, n);
      }
      if n > 0 && m != M {
        CalcOccupation(m, n - 1);
      }
      if m != M && n != N {
        CalcOccupation(m, n);
      }
      if m > 0 && n > 0 {
        CalcOccupation(m - 1, n - 1);
      }
    }

    /** Appending marker mv to the history and putting it on its empty
        point keeps history and lattice in agreement. */
    twostate lemma MarkerAppended(mv: Marker)
      requires Shape() && mv.m <= M && mv.n <= N
      requires old(HistoryOk()) && old(chesses[mv.m, mv.n]) == None
      requires mv.count == old(count) && mv.player == old(count) % 2
      requires moves == old(moves) + [mv] && count == old(count) + 1
      requires chesses[mv.m, mv.n] == Some(mv)
      requires forall i, j :: 0 <= i <= M && 0 <= j <= N && (i != mv.m || j != mv.n) ==>
                 chesses[i, j] == old(chesses[i, j])
      ensures HistoryOk()
    {
    }

    /** After the re-resolutions of AddMove, every cell is again claimed
        exactly when filled, claimed cells kept their owner, and newly
        claimed cells went to the player of the new marker. */
    twostate lemma OccupationResolved(mv: Marker)
      requires Shape() && mv.m <= M && mv.n <= N
      requires old(OccupationOk())
      requires forall i, j :: 0 <= i <= M && 0 <= j <= N && old(chesses[i, j]).Some? ==>
                 old(chesses[i, j]).value.count < mv.count
      requires old(chesses[mv.m, mv.n]) == None && chesses[mv.m, mv.n] == Some(mv)
      requires forall i, j :: 0 <= i <= M && 0 <= j <= N && (i != mv.m || j != mv.n) ==>
                 chesses[i, j] == old(chesses[i, j])
      requires forall i, j :: 0 <= i < M && 0 <= j < N ==>
                 occupation[i, j] == if IsCornerOf(mv.m, mv.n, i, j) && Filled(chesses, i, j)
                                     then Owner(chesses, i, j) else old(occupation[i, j])
      ensures OccupationOk()
      ensures forall i, j :: 0 <= i < M && 0 <= j < N ==> -1 <= occupation[i, j] <= 1
      ensures forall i, j :: 0 <= i < M && 0 <= j < N && old(occupation[i, j]) != -1 ==>
                occupation[i, j] == old(occupation[i, j])
      ensures forall i, j :: 0 <= i < M && 0 <= j < N && old(occupation[i, j]) == -1 && occupation[i, j] != -1 ==>
                occupation[i, j] == mv.player
    {
      forall i, j | 0 <= i < M && 0 <= j < N
        ensures CellOk(chesses, occupation, i, j)
        ensures -1 <= occupation[i, j] <= 1
        ensures old(occupation[i, j]) != -1 ==> occupation[i, j] == old(occupation[i, j])
        ensures old(occupation[i, j]) == -1 && occupation[i, j] != -1 ==> occupation[i, j] == mv.player
      {
        assert old(CellOk(chesses, occupation, i, j));
        if IsCornerOf(mv.m, mv.n, i, j) {
          var k := (if mv.m == i then 0 else 2) + (if mv.n == j then 0 else 1);
          var before := old(CornerSlots(chesses, i, j));
          assert CornerSlots(chesses, i, j) == before[k := Some(mv)];
          forall q | 0 <= q < 4 && q != k && before[q].Some?
            ensures before[q].value.count < mv.count
          {
            assert before[q] == old(chesses[i + q / 2, j + q % 2]);
          }
          NewestCornerWins(before, old(occupation[i, j]), k, mv, occupation[i, j]);
        } else {
          assert CornerSlots(chesses, i, j) == old(CornerSlots(chesses, i, j));
        }
      }
    }

    /** The single public mutator: an attempt at (m, n) that is out of
        bounds, on a taken point or not adjacent changes nothing; an
        accepted one places a marker of the current player and passes the
        turn. */
    method Move(m: int, n: int)
      requires Valid()
      modifies this, chesses, occupation
      ensures Valid()
      ensures old(Accepts(m, n)) ==> Placed(m, n, old(currentPlayer)) && currentPlayer == 1 - old(currentPlayer)
      ensures !old(Accepts(m, n)) ==> unchanged(this, chesses, occupation)
    {
      if m < 0 || m > M || n < 0 || n > N {
        return;
      }
      if !IsEmpty(m, n) || !IsValidPos(m, n) {
        return;
      }
      AddMove(m, n, currentPlayer);
      currentPlayer := 1 - currentPlayer;
    }

    /** The two scores add up to the number of cells whose four corners are
        all filled. */
    lemma ScoresCoverFilledCells()
      requires Valid()
      ensures score[0] + score[1] == FilledInRows(chesses, M)
    {
      ClaimedInRows(chesses, occupation, M);
    }

    /** No two markers on the lattice share a placement number. */
    lemma NumbersUnique(i1: nat, j1: nat, i2: nat, j2: nat)
      requires Valid()
      requires i1 <= M && j1 <= N && i2 <= M && j2 <= N && (i1 != i2 || j1 != j2)
      requires chesses[i1, j1].Some? && chesses[i2, j2].Some?
      ensures chesses[i1, j1].value.count != chesses[i2, j2].value.count
    {
    }
  }
}
