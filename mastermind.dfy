/** The pygame variant: the board and feedback grids, the per-position
    scorer that drops black and white pegs into randomly chosen feedback
    slots, the completeness test and the turn rules of the main loop.
    A grid is an `array2` of tile colours; updating a tile is assigning its
    cell. */
module Mastermind {
  import opened Seqs
  import Chance

  /** Tile colours. `Tile` is the placeholder of an unset tile; `Black` and
      `White` are the feedback pegs. */
  datatype Colour = Tile | Black | White | Red | Yellow | Blue | Green | Orange | Purple

  /** Tiles per row. */
  const COLUMNS: int := 4

  /** The colours a solution is drawn from. */
  const GameColours: seq<Colour> := [Red, Yellow, Blue, Green, Orange, Purple]

  /** The colours the player cycles through while setting a tile. */
  const TileColours: seq<Colour> := [Tile, Red, Blue, Yellow, Green, Orange, Purple]

  lemma GameColoursDistinct()
    ensures Distinct(GameColours)
  {
  }

  /** The solution row as first drawn: every tile painted black. */
  const Hidden: seq<Colour> := [Black, Black, Black, Black]

  datatype Outcome = Ignored | Continue | PlayerWins | CpuWins

  /** The colours of row `i`, left to right. */
  function RowOf(a: array2<Colour>, i: int): (r: seq<Colour>)
    reads a
    requires 0 <= i < a.Length0
    ensures |r| == a.Length1 && forall j :: 0 <= j < a.Length1 ==> r[j] == a[i, j]
  {
    seq(a.Length1, j requires 0 <= j < a.Length1 reads a => a[i, j])
  }

  // ---------------------------------------------------------------------
  // Specification of the scorer

  /** The peg position `i` earns: black for an exact match, white when the
      solution colour is elsewhere in the guess, none otherwise. */
  function Mark(s: Colour, g: Colour, guess: seq<Colour>): seq<Colour>
  {
    if s == g then [Black] else if s in guess then [White] else []
  }

  /** A position earns at most one peg: black exactly on an exact match,
      white exactly when the colours differ and the solution colour is
      somewhere in the guess. */
  lemma MarkRule(s: Colour, g: Colour, guess: seq<Colour>)
    ensures |Mark(s, g, guess)| <= 1
    ensures Mark(s, g, guess) == [Black] <==> s == g
    ensures Mark(s, g, guess) == [White] <==> s != g && s in guess
  {
  }

  /** The pegs of the first `n` positions, in the order they are placed. */
  function Marks(sol: seq<Colour>, guess: seq<Colour>, n: nat): (m: seq<Colour>)
    requires n <= |sol| && n <= |guess|
    ensures |m| <= n
    ensures forall c :: c in m ==> c == Black || c == White
  {
    if n == 0 then [] else Marks(sol, guess, n - 1) + Mark(sol[n - 1], guess[n - 1], guess)
  }

  /** Positions below `n` where the guess has the solution's colour. */
  ghost function Exact(sol: seq<Colour>, guess: seq<Colour>, n: nat): set<int>
    requires n <= |sol| && n <= |guess|
  {
    set i | 0 <= i < n && sol[i] == guess[i]
  }

  /** Positions below `n` whose solution colour is not matched there but
      occurs somewhere in the guess. */
  ghost function Near(sol: seq<Colour>, guess: seq<Colour>, n: nat): set<int>
    requires n <= |sol| && n <= |guess|
  {
    set i | 0 <= i < n && sol[i] != guess[i] && sol[i] in guess
  }

  lemma NoneBelowZero(sol: seq<Colour>, guess: seq<Colour>)
    ensures |Exact(sol, guess, 0)| == 0 && |Near(sol, guess, 0)| == 0
  {
    assert Exact(sol, guess, 0) == {};
    assert Near(sol, guess, 0) == {};
  }

  /** Position `k` adds itself to the exact positions when it matches. */
  lemma ExactStep(sol: seq<Colour>, guess: seq<Colour>, k: nat)
    requires k < |sol| && k < |guess|
    ensures |Exact(sol, guess, k + 1)| == |Exact(sol, guess, k)| + (if sol[k] == guess[k] then 1 else 0)
  {
    assert k !in Exact(sol, guess, k);
    assert Exact(sol, guess, k + 1) == Exact(sol, guess, k) + (if sol[k] == guess[k] then {k} else {});
  }

  /** Position `k` adds itself to the near positions when it does not match
      but its solution colour occurs in the guess. */
  lemma NearStep(sol: seq<Colour>, guess: seq<Colour>, k: nat)
    requires k < |sol| && k < |guess|
    ensures |Near(sol, guess, k + 1)|
         == |Near(sol, guess, k)| + (if sol[k] != guess[k] && sol[k] in guess then 1 else 0)
  {
    assert k !in Near(sol, guess, k);
    assert Near(sol, guess, k + 1)
        == Near(sol, guess, k) + (if sol[k] != guess[k] && sol[k] in guess then {k} else {});
  }

  /** The pegs of position `k` extend the pegs of the positions before it. */
  lemma PegStep(sol: seq<Colour>, guess: seq<Colour>, k: nat)
    requires k < |sol| && k < |guess|
    ensures multiset(Marks(sol, guess, k + 1))[Black]
         == multiset(Marks(sol, guess, k))[Black] + (if sol[k] == guess[k] then 1 else 0)
    ensures multiset(Marks(sol, guess, k + 1))[White]
         == multiset(Marks(sol, guess, k))[White] + (if sol[k] != guess[k] && sol[k] in guess then 1 else 0)
  {
    var m := Marks(sol, guess, k);
    if sol[k] == guess[k] {
      assert Marks(sol, guess, k + 1) == m + [Black];
    } else if sol[k] in guess {
      assert Marks(sol, guess, k + 1) == m + [White];
    } else {
      assert Marks(sol, guess, k + 1) == m + [];
    }
  }

  /** One black peg per exact position. */
  lemma {:induction false} MarksBlack(sol: seq<Colour>, guess: seq<Colour>, n: nat)
    requires n <= |sol| && n <= |guess|
    ensures multiset(Marks(sol, guess, n))[Black] == |Exact(sol, guess, n)|
  {
    if n == 0 {
      NoneBelowZero(sol, guess);
    } else {
      var k := n - 1;
      MarksBlack(sol, guess, k);
      ExactStep(sol, guess, k);
      PegStep(sol, guess, k);
      var pegs, positions := multiset(Marks(sol, guess, k))[Black], |Exact(sol, guess, k)|;
      var d := if sol[k] == guess[k] then 1 else 0;
      assert multiset(Marks(sol, guess, k + 1))[Black] == pegs + d;
      assert |Exact(sol, guess, k + 1)| == positions + d;
    }
  }

  /** One white peg per near position. */
  lemma {:induction false} MarksWhite(sol: seq<Colour>, guess: seq<Colour>, n: nat)
    requires n <= |sol| && n <= |guess|
    ensures multiset(Marks(sol, guess, n))[White] == |Near(sol, guess, n)|
  {
    if n == 0 {
      NoneBelowZero(sol, guess);
    } else {
      var k := n - 1;
      MarksWhite(sol, guess, k);
      NearStep(sol, guess, k);
      PegStep(sol, guess, k);
      var pegs, positions := multiset(Marks(sol, guess, k))[White], |Near(sol, guess, k)|;
      var d := if sol[k] != guess[k] && sol[k] in guess then 1 else 0;
      assert multiset(Marks(sol, guess, k + 1))[White] == pegs + d;
      assert |Near(sol, guess, k + 1)| == positions + d;
    }
  }

  /** Black pegs count the exact positions, white pegs the near ones, and
      there are no other pegs. */
  lemma MarksCount(sol: seq<Colour>, guess: seq<Colour>, n: nat)
    requires n <= |sol| && n <= |guess|
    ensures multiset(Marks(sol, guess, n))[Black] == |Exact(sol, guess, n)|
    ensures multiset(Marks(sol, guess, n))[White] == |Near(sol, guess, n)|
    ensures |Marks(sol, guess, n)| == |Exact(sol, guess, n)| + |Near(sol, guess, n)|
  {
    MarksBlack(sol, guess, n);
    MarksWhite(sol, guess, n);
    TwoKinds(Marks(sol, guess, n));
  }

  /** A sequence of black and white pegs is as long as its two counts together. */
  lemma {:induction false} TwoKinds(m: seq<Colour>)
    requires forall c :: c in m ==> c == Black || c == White
    ensures |m| == multiset(m)[Black] + multiset(m)[White]
  {
    if m != [] {
      assert m == [m[0]] + m[1..];
      assert m[0] in m;
      assert forall c :: c in m[1..] ==> c in m;
      TwoKinds(m[1..]);
    }
  }

  /** At most `n` exact positions below `n`, and `n` of them exactly when
      the two rows agree on every position below `n`. */
  lemma {:induction false} ExactAll(sol: seq<Colour>, guess: seq<Colour>, n: nat)
    requires n <= |sol| && n <= |guess|
    ensures |Exact(sol, guess, n)| <= n
    ensures |Exact(sol, guess, n)| == n <==> sol[..n] == guess[..n]
  {
    if n == 0 {
      assert Exact(sol, guess, 0) == {};
    } else {
      var k := n - 1;
      ExactAll(sol, guess, k);
      assert k !in Exact(sol, guess, k);
      assert sol[..n] == sol[..k] + [sol[k]] && guess[..n] == guess[..k] + [guess[k]];
      if sol[k] == guess[k] {
        assert Exact(sol, guess, n) == Exact(sol, guess, k) + {k};
      } else {
        assert Exact(sol, guess, n) == Exact(sol, guess, k);
        assert sol[..n][k] != guess[..n][k];
      }
    }
  }

  /** The row after the `t`-th peg was put into slot `slots[t]`, for every `t`
      in order. A slot no peg went into keeps its colour; with distinct
      slots each peg stays where it was put. */
  function Placed(row0: seq<Colour>, slots: seq<int>, marks: seq<Colour>): (r: seq<Colour>)
    requires |slots| == |marks|
    requires forall t :: 0 <= t < |slots| ==> 0 <= slots[t] < |row0|
    ensures |r| == |row0|
    ensures forall x :: 0 <= x < |row0| && x !in slots ==> r[x] == row0[x]
    ensures Distinct(slots) ==> forall t :: 0 <= t < |slots| ==> r[slots[t]] == marks[t]
    decreases |slots|
  {
    if slots == [] then row0
    else
      var k := |slots| - 1;
      assert forall x :: x in slots[..k] ==> x in slots;
      Placed(row0, slots[..k], marks[..k])[slots[k] := marks[k]]
  }

  lemma PlacedSnoc(row0: seq<Colour>, slots: seq<int>, marks: seq<Colour>, s: int, m: Colour)
    requires |slots| == |marks| && 0 <= s < |row0|
    requires forall t :: 0 <= t < |slots| ==> 0 <= slots[t] < |row0|
    ensures Placed(row0, slots + [s], marks + [m]) == Placed(row0, slots, marks)[s := m]
  {
    var ss, mm := slots + [s], marks + [m];
    assert ss[..|slots|] == slots && ss[|slots|] == s;
    assert mm[..|marks|] == marks && mm[|marks|] == m;
    assert forall t :: 0 <= t < |ss| ==> 0 <= ss[t] < |row0|;
    assert Placed(row0, ss, mm) == Placed(row0, ss[..|slots|], mm[..|marks|])[s := m];
  }

  /** Placing pegs into distinct slots of a row replaces one placeholder per
      peg: the row's colours plus one `Tile` per peg are the old row's
      colours plus the pegs. */
  lemma {:induction false} PlacedCount(row0: seq<Colour>, slots: seq<int>, marks: seq<Colour>)
    requires |slots| == |marks| && Distinct(slots)
    requires forall t :: 0 <= t < |slots| ==> 0 <= slots[t] < |row0|
    requires forall x :: 0 <= x < |row0| ==> row0[x] == Tile
    ensures multiset(Placed(row0, slots, marks)) + multiset(seq(|marks|, _ => Tile))
         == multiset(row0) + multiset(marks)
  {
    if slots != [] {
      var k := |slots| - 1;
      var s, m := slots[k], marks[k];
      var ps, pm := slots[..k], marks[..k];
      assert Distinct(ps) && s !in ps by {
        assert forall t :: 0 <= t < k ==> ps[t] == slots[t];
      }
      PlacedCount(row0, ps, pm);
      var p := Placed(row0, ps, pm);
      assert Placed(row0, slots, marks) == p[s := m];
      assert p[s] == Tile;
      var tiles := seq(k, _ => Tile);
      TilesSnoc(k);
      PrefixSnoc(marks, k);
      WholeSlice(marks);
      UpdateCount(p, s, m);
      MultisetShuffle(multiset(p), multiset(p[s := m]), multiset(tiles), multiset(row0), multiset(pm), Tile, m);
    }
  }

  lemma TilesSnoc(k: nat)
    ensures seq(k + 1, _ => Tile) == seq(k, _ => Tile) + [Tile]
  {
  }

  /** Overwriting one entry trades its old value for the new one. */
  lemma UpdateCount<T>(p: seq<T>, s: int, m: T)
    requires 0 <= s < |p|
    ensures multiset(p[s := m]) + multiset{p[s]} == multiset(p) + multiset{m}
  {
  }

  lemma MultisetShuffle<T>(p: multiset<T>, q: multiset<T>, tiles: multiset<T>, row0: multiset<T>,
                           pm: multiset<T>, tile: T, m: T)
    requires p + tiles == row0 + pm
    requires q + multiset{tile} == p + multiset{m}
    ensures q + (tiles + multiset{tile}) == row0 + (pm + multiset{m})
  {
    calc {
      q + (tiles + multiset{tile});
      (q + multiset{tile}) + tiles;
      (p + multiset{m}) + tiles;
      (p + tiles) + multiset{m};
      (row0 + pm) + multiset{m};
      row0 + (pm + multiset{m});
    }
  }

  /** The pegs of a fresh row: as many black tiles as exact positions, as
      many white as near positions, and placeholders in the other slots. */
  lemma PlacedOnFresh(row0: seq<Colour>, slots: seq<int>, sol: seq<Colour>, guess: seq<Colour>)
    requires |sol| == |guess| == |row0| == 4
    requires forall x :: 0 <= x < 4 ==> row0[x] == Tile
    requires |slots| == |Marks(sol, guess, |sol|)| && Distinct(slots)
    requires forall t :: 0 <= t < |slots| ==> 0 <= slots[t] < 4
    ensures multiset(Placed(row0, slots, Marks(sol, guess, |sol|)))[Black] == |Exact(sol, guess, |sol|)|
    ensures multiset(Placed(row0, slots, Marks(sol, guess, |sol|)))[White] == |Near(sol, guess, |sol|)|
  {
    var marks := Marks(sol, guess, |sol|);
    var placed := Placed(row0, slots, marks);
    var tiles := seq(|marks|, _ => Tile);
    PlacedCount(row0, slots, marks);
    MarksCount(sol, guess, |sol|);
    OnlyTiles(row0);
    OnlyTiles(tiles);
    var lhs, rhs := multiset(placed) + multiset(tiles), multiset(row0) + multiset(marks);
    assert lhs[Black] == multiset(placed)[Black] && rhs[Black] == multiset(marks)[Black];
    assert lhs[White] == multiset(placed)[White] && rhs[White] == multiset(marks)[White];
  }

  /** A row of placeholders holds no peg. */
  lemma OnlyTiles(s: seq<Colour>)
    requires forall x :: 0 <= x < |s| ==> s[x] == Tile
    ensures multiset(s)[Black] == 0 && multiset(s)[White] == 0
  {
    assert Black !in s && White !in s;
  }

  /** A fresh row ends up all black exactly when the guess is the solution. */
  lemma WinOnFresh(row0: seq<Colour>, slots: seq<int>, sol: seq<Colour>, guess: seq<Colour>)
    requires |sol| == |guess| == |row0| == 4
    requires forall x :: 0 <= x < 4 ==> row0[x] == Tile
    requires |slots| == |Marks(sol, guess, |sol|)| && Distinct(slots)
    requires forall t :: 0 <= t < |slots| ==> 0 <= slots[t] < 4
    ensures Placed(row0, slots, Marks(sol, guess, |sol|)) == [Black, Black, Black, Black] <==> sol == guess
  {
    var r := Placed(row0, slots, Marks(sol, guess, |sol|));
    PlacedOnFresh(row0, slots, sol, guess);
    ExactAll(sol, guess, |sol|);
    assert sol[..|sol|] == sol && guess[..|sol|] == guess;
    var blacks := multiset(r)[Black];
    assert blacks == |Exact(sol, guess, |sol|)|;
    if r == [Black, Black, Black, Black] {
      assert blacks == 4;
    }
    if sol == guess {
      assert blacks == 4;
      AllOf(r, Black);
    }
  }

  /** A four-entry row with four black entries is all black. */
  lemma AllOf(r: seq<Colour>, c: Colour)
    requires |r| == 4 && multiset(r)[c] == 4
    ensures r == [c, c, c, c]
  {
    CountAll(r, c);
  }

  /** Solution R G R Y against guess R R R R: two black pegs and no white. */
  lemma RepeatedRedTwoBlacks()
    ensures Marks([Red, Green, Red, Yellow], [Red, Red, Red, Red], 4) == [Black, Black]
    ensures |Exact([Red, Green, Red, Yellow], [Red, Red, Red, Red], 4)| == 2
    ensures |Near([Red, Green, Red, Yellow], [Red, Red, Red, Red], 4)| == 0
  {
    var sol := [Red, Green, Red, Yellow];
    var guess := [Red, Red, Red, Red];
    assert Marks(sol, guess, 1) == [Black];
    assert Marks(sol, guess, 2) == [Black];
    assert Marks(sol, guess, 3) == [Black, Black];
    assert Marks(sol, guess, 4) == [Black, Black];
    MarksCount(sol, guess, 4);
  }

  /** Solution R G R Y against guess O R R O: a white peg for the first red,
      which the guess holds elsewhere, and a black peg for the second. */
  lemma OuterOrangesOneOfEach()
    ensures Marks([Red, Green, Red, Yellow], [Orange, Red, Red, Orange], 4) == [White, Black]
    ensures |Exact([Red, Green, Red, Yellow], [Orange, Red, Red, Orange], 4)| == 1
    ensures |Near([Red, Green, Red, Yellow], [Orange, Red, Red, Orange], 4)| == 1
  {
    var sol := [Red, Green, Red, Yellow];
    var guess := [Orange, Red, Red, Orange];
    assert Marks(sol, guess, 1) == [White];
    assert Marks(sol, guess, 2) == [White];
    assert Marks(sol, guess, 3) == [White, Black];
    assert Marks(sol, guess, 4) == [White, Black];
    MarksCount(sol, guess, 4);
  }

  // ---------------------------------------------------------------------
  // Grids

  /** The colour tile `j` of board row `i` starts with. */
  function StartColour(solution: seq<Colour>, i: int, j: int): Colour
    requires 0 <= j < |solution|
  {
    if i == 0 then solution[j] else Tile
  }

  /** The inner loop of `game_board`: the tiles of row `i`. */
  method FillRow(board: array2<Colour>, i: int, solution: seq<Colour>)
    requires 0 <= i < board.Length0 && board.Length1 == |solution|
    modifies board
    ensures forall j :: 0 <= j < board.Length1 ==> board[i, j] == StartColour(solution, i, j)
    ensures forall i', j :: 0 <= i' < board.Length0 && i' != i && 0 <= j < board.Length1 ==>
      board[i', j] == old(board[i', j])
  {
    for j := 0 to board.Length1
      invariant forall j' :: 0 <= j' < j ==> board[i, j'] == StartColour(solution, i, j')
      invariant forall i', j' :: 0 <= i' < board.Length0 && i' != i && 0 <= j' < board.Length1 ==>
        board[i', j'] == old(board[i', j'])
    {
      if i == 0 {
        board[i, j] := solution[j];
      } else {
        board[i, j] := Tile;
      }
    }
  }

  /** The outer loop of `game_board`: every row in turn. */
  method FillBoard(board: array2<Colour>, solution: seq<Colour>)
    requires board.Length1 == |solution|
    modifies board
    ensures forall i, j :: 0 <= i < board.Length0 && 0 <= j < board.Length1 ==>
      board[i, j] == StartColour(solution, i, j)
  {
    for i := 0 to board.Length0
      invariant forall i', j :: 0 <= i' < i && 0 <= j < board.Length1 ==>
        board[i', j] == StartColour(solution, i', j)
    {
      FillRow(board, i, solution);
    }
  }

  /** The main board: row 0 holds four different palette colours drawn at
      random (the hidden solution), every other row is placeholders. */
  method GameBoard(rows: nat) returns (board: array2<Colour>)
    ensures fresh(board)
    ensures board.Length0 == rows && board.Length1 == COLUMNS
    ensures rows > 0 ==> Distinct(RowOf(board, 0)) && forall j :: 0 <= j < COLUMNS ==> board[0, j] in GameColours
    ensures forall i, j :: 1 <= i < rows && 0 <= j < COLUMNS ==> board[i, j] == Tile
  {
    var solution := Chance.Sample(GameColours, COLUMNS);
    GameColoursDistinct();
    Chance.SampleOfDistinct(solution, GameColours);
    board := new Colour[rows, COLUMNS];
    FillBoard(board, solution);
    if rows > 0 {
      assert RowOf(board, 0) == solution;
    }
  }

  /** The feedback grid: one row of placeholder pegs for every board row
      but the solution row. */
  method FbBoard(rows: nat) returns (feedback: array2<Colour>)
    ensures fresh(feedback)
    ensures feedback.Length0 == (if rows == 0 then 0 else rows - 1) && feedback.Length1 == COLUMNS
    ensures forall i, j :: 0 <= i < feedback.Length0 && 0 <= j < COLUMNS ==> feedback[i, j] == Tile
  {
    var n := if rows == 0 then 0 else rows - 1;
    feedback := new Colour[n, COLUMNS];
    // feedback row i belongs to board row i + 1
    for i := 0 to n
      invariant forall i', j :: 0 <= i' < i && 0 <= j < COLUMNS ==> feedback[i', j] == Tile
    {
      for j := 0 to COLUMNS
        invariant forall i', j' :: 0 <= i' < i && 0 <= j' < COLUMNS ==> feedback[i', j'] == Tile
        invariant forall j' :: 0 <= j' < j ==> feedback[i, j'] == Tile
      {
        feedback[i, j] := Tile;
      }
    }
  }

  /** A row is complete when none of its tiles is a placeholder. */
  function CheckComplete(board: array2<Colour>, row: int): (complete: bool)
    reads board
    requires 0 <= row < board.Length0
    ensures complete <==> forall j :: 0 <= j < board.Length1 ==> board[row, j] != Tile
  {
    NoPlaceholderFrom(board, row, 0)
  }

  /** The scan of `check_complete` from column `j` on. */
  function NoPlaceholderFrom(board: array2<Colour>, row: int, j: int): (r: bool)
    reads board
    requires 0 <= row < board.Length0 && 0 <= j <= board.Length1
    ensures r <==> forall k :: j <= k < board.Length1 ==> board[row, k] != Tile
    decreases board.Length1 - j
  {
    if j == board.Length1 then true
    else if board[row, j] == Tile then false
    else NoPlaceholderFrom(board, row, j + 1)
  }

  /** Draws a free slot of feedback row `r` and puts `peg` into it. */
  method PlacePeg(feedback: array2<Colour>, r: int, choices: seq<int>, peg: Colour) returns (choice: int)
    requires 0 <= r < feedback.Length0 && |choices| > 0
    requires forall x :: x in choices ==> 0 <= x < feedback.Length1
    modifies feedback
    ensures choice in choices
    ensures RowOf(feedback, r) == old(RowOf(feedback, r))[choice := peg]
    ensures forall i, j :: 0 <= i < feedback.Length0 && i != r && 0 <= j < feedback.Length1 ==>
      feedback[i, j] == old(feedback[i, j])
  {
    choice := Chance.Choice(choices);
    feedback[r, choice] := peg;
  }

  /** The state of the scoring loop after `i` positions: `cur` is the
      feedback row, which started as `row0`; the pegs so far went into the
      distinct slots `slots`, and `choices` lists the slots still free. */
  ghost predicate Progress(cur: seq<Colour>, row0: seq<Colour>, sol: seq<Colour>, guess: seq<Colour>,
                           i: nat, choices: seq<int>, slots: seq<int>)
    requires i <= |sol| <= |guess|
  {
    && |row0| == COLUMNS
    && |slots| == |Marks(sol, guess, i)| && |choices| + |slots| == COLUMNS
    && Distinct(slots) && Distinct(choices)
    && (forall t :: 0 <= t < |slots| ==> 0 <= slots[t] < COLUMNS)
    && (forall x :: x in choices ==> 0 <= x < COLUMNS && x !in slots)
    && cur == Placed(row0, slots, Marks(sol, guess, i))
  }

  /** A position that earns `peg`, put into the free slot `choice`. */
  lemma ProgressPeg(cur: seq<Colour>, row0: seq<Colour>, sol: seq<Colour>, guess: seq<Colour>,
                    i: nat, choices: seq<int>, slots: seq<int>, choice: int, peg: Colour)
    requires i < |sol| <= |guess|
    requires Progress(cur, row0, sol, guess, i, choices, slots)
    requires Mark(sol[i], guess[i], guess) == [peg] && choice in choices
    ensures Progress(cur[choice := peg], row0, sol, guess, i + 1, Remove(choices, choice), slots + [choice])
  {
    var marks := Marks(sol, guess, i);
    assert Marks(sol, guess, i + 1) == marks + [peg];
    PlacedSnoc(row0, slots, marks, choice, peg);
    RemoveDistinct(choices, choice);
    DistinctSnoc(slots, choice);
  }

  /** A position that earns no peg. */
  lemma ProgressSkip(cur: seq<Colour>, row0: seq<Colour>, sol: seq<Colour>, guess: seq<Colour>,
                     i: nat, choices: seq<int>, slots: seq<int>)
    requires i < |sol| <= |guess|
    requires Progress(cur, row0, sol, guess, i, choices, slots)
    requires Mark(sol[i], guess[i], guess) == []
    ensures Progress(cur, row0, sol, guess, i + 1, choices, slots)
  {
    assert Marks(sol, guess, i + 1) == Marks(sol, guess, i) + [];
  }

  /** While a position is still to score, a slot is free: each position
      used at most one. */
  lemma FreeSlot(cur: seq<Colour>, row0: seq<Colour>, sol: seq<Colour>, guess: seq<Colour>,
                 i: nat, choices: seq<int>, slots: seq<int>)
    requires i < |sol| <= |guess| && |sol| <= COLUMNS
    requires Progress(cur, row0, sol, guess, i, choices, slots)
    ensures |choices| > 0
  {
  }

  /** The scoring loop of `assign_feedback`: position by position, the peg
      the position earns goes into a free slot of feedback row `r`. */
  method ScoreRow(feedback: array2<Colour>, r: int, sol: seq<Colour>, guess: seq<Colour>)
    returns (ghost slots: seq<int>)
    requires 0 <= r < feedback.Length0 && feedback.Length1 == COLUMNS
    requires |sol| == |guess| == COLUMNS
    modifies feedback
    ensures Distinct(slots) && forall t :: 0 <= t < |slots| ==> 0 <= slots[t] < COLUMNS
    ensures |slots| == |Marks(sol, guess, |sol|)|
    ensures RowOf(feedback, r) == Placed(old(RowOf(feedback, r)), slots, Marks(sol, guess, |sol|))
    ensures forall i, j :: 0 <= i < feedback.Length0 && i != r && 0 <= j < COLUMNS ==>
      feedback[i, j] == old(feedback[i, j])
  {
    ghost var row0 := RowOf(feedback, r);
    var choices := [0, 1, 2, 3];
    slots := [];
    for i := 0 to |sol|
      invariant Progress(RowOf(feedback, r), row0, sol, guess, i, choices, slots)
      invariant forall i', j :: 0 <= i' < feedback.Length0 && i' != r && 0 <= j < COLUMNS ==>
        feedback[i', j] == old(feedback[i', j])
    {
      var peg;
      if sol[i] == guess[i] {
        peg := Black;
      } else if sol[i] in guess {
        peg := White;
      } else {
        ProgressSkip(RowOf(feedback, r), row0, sol, guess, i, choices, slots);
        continue;
      }
      FreeSlot(RowOf(feedback, r), row0, sol, guess, i, choices, slots);
      ghost var before := RowOf(feedback, r);
      var choice := PlacePeg(feedback, r, choices, peg);
      ProgressPeg(before, row0, sol, guess, i, choices, slots, choice, peg);
      choices := Remove(choices, choice);
      slots := slots + [choice];
    }
  }

  /** Scores board row `row` against the solution in row 0 into feedback row
      `row - 1`. For each position in turn, a black peg (exact match) or a
      white peg (colour elsewhere in the guess) goes into a slot drawn from
      the slots still free; `slots` records the draws. Returns whether the
      feedback row is then all black. */
  method AssignFeedback(board: array2<Colour>, feedback: array2<Colour>, row: int)
    returns (win: bool, ghost slots: seq<int>)
    requires board != feedback
    requires board.Length1 == COLUMNS && feedback.Length1 == COLUMNS
    requires 1 <= row < board.Length0 && row - 1 < feedback.Length0
    modifies feedback
    ensures Distinct(slots) && forall t :: 0 <= t < |slots| ==> 0 <= slots[t] < COLUMNS
    ensures var sol, guess := old(RowOf(board, 0)), old(RowOf(board, row));
      && |slots| == |Marks(sol, guess, |sol|)|
      && RowOf(feedback, row - 1) == Placed(old(RowOf(feedback, row - 1)), slots, Marks(sol, guess, |sol|))
    ensures forall i, j :: 0 <= i < feedback.Length0 && i != row - 1 && 0 <= j < COLUMNS ==>
      feedback[i, j] == old(feedback[i, j])
    ensures win <==> RowOf(feedback, row - 1) == [Black, Black, Black, Black]
    ensures old(RowOf(feedback, row - 1)) == [Tile, Tile, Tile, Tile] ==>
      var sol, guess := old(RowOf(board, 0)), old(RowOf(board, row));
      && multiset(RowOf(feedback, row - 1))[Black] == |Exact(sol, guess, |sol|)|
      && multiset(RowOf(feedback, row - 1))[White] == |Near(sol, guess, |sol|)|
      && (win <==> guess == sol)
  {
    var sol := RowOf(board, 0);
    var guess := RowOf(board, row);
    ghost var row0 := RowOf(feedback, row - 1);
    slots := ScoreRow(feedback, row - 1, sol, guess);
    win := RowOf(feedback, row - 1) == [Black, Black, Black, Black];
    if row0 == [Tile, Tile, Tile, Tile] {
      Scored(row0, slots, sol, guess);
    }
  }

  // ---------------------------------------------------------------------
  // Turns

  /** The turn bookkeeping of the main loop. Rows are played from the last
      board row up to row 1; `turnCounter` names the row being played and
      feedback row `turnCounter - 1` belongs to it. `shown` is what the
      solution tiles display: each is painted black when the board is made,
      while its colour is the solution's. */
  class Session {
    const rows: int
    const board: array2<Colour>
    const fb: array2<Colour>
    var turnCounter: int
    var gameOver: bool
    var shown: seq<Colour>

    /** The counter stays in 1 .. rows - 1, the solution row keeps four
        different palette colours and is on display exactly when the game is
        over, and while the game runs the feedback rows of the unplayed rows
        are untouched placeholders. */
    ghost predicate Valid()
      reads this, board, fb
    {
      && rows >= 2
      && board.Length0 == rows && board.Length1 == COLUMNS
      && fb.Length0 == rows - 1 && fb.Length1 == COLUMNS
      && board != fb
      && 1 <= turnCounter <= rows - 1
      && Distinct(RowOf(board, 0))
      && (forall j :: 0 <= j < COLUMNS ==> board[0, j] in GameColours)
      && shown == (if gameOver then RowOf(board, 0) else Hidden)
      && (!gameOver ==> forall i, j :: 0 <= i < turnCounter && 0 <= j < COLUMNS ==> fb[i, j] == Tile)
    }

    /** A new game: a fresh board and feedback grid, the counter on the last
        row, the solution covered. */
    constructor (rows: int)
      requires rows >= 2
      ensures Valid() && fresh(board) && fresh(fb)
      ensures this.rows == rows && turnCounter == rows - 1 && !gameOver && shown == Hidden
      ensures forall i, j :: 1 <= i < rows && 0 <= j < COLUMNS ==> board[i, j] == Tile
    {
      var b := GameBoard(rows);
      var f := FbBoard(rows);
      this.rows := rows;
      board, fb := b, f;
      turnCounter := rows - 1;
      gameOver := false;
      shown := Hidden;
    }

    /** Sets tile `col` of the row being played to one of the colours the
        player cycles through; nothing else changes. */
    method SetTile(col: int, c: Colour)
      requires Valid() && !gameOver
      requires 0 <= col < COLUMNS && c in TileColours
      modifies board
      ensures Valid()
      ensures board[turnCounter, col] == c
      ensures forall i, j :: 0 <= i < rows && 0 <= j < COLUMNS && (i, j) != (turnCounter, col) ==>
        board[i, j] == old(board[i, j])
    {
      board[turnCounter, col] := c;
      assert RowOf(board, 0) == old(RowOf(board, 0));
    }

    /** Repaints every solution tile with its own colour, uncovering it. */
    method RevealSolution()
      requires board.Length0 >= 1 && board.Length1 == COLUMNS && |shown| == COLUMNS
      modifies this`shown
      ensures shown == RowOf(board, 0)
    {
      for i := 0 to COLUMNS
        invariant |shown| == COLUMNS
        invariant forall j :: 0 <= j < i ==> shown[j] == board[0, j]
      {
        shown := shown[i := board[0, i]];
      }
    }

    /** Enter pressed. A finished game, or a row that still holds a
        placeholder, ignores it. Otherwise the row is scored: a win ends the
        game with the counter where it is; a miss moves the counter up one
        row, and when no row is left the computer wins and the counter goes
        back to 1. The solution is uncovered when the game ends. */
    method Submit() returns (outcome: Outcome)
      requires Valid()
      modifies this, fb
      ensures Valid()
      ensures old(gameOver) || !old(CheckComplete(board, turnCounter)) ==>
        && outcome == Ignored && turnCounter == old(turnCounter) && gameOver == old(gameOver)
        && forall i, j :: 0 <= i < rows - 1 && 0 <= j < COLUMNS ==> fb[i, j] == old(fb[i, j])
      ensures !old(gameOver) && old(CheckComplete(board, turnCounter)) ==>
        var t := old(turnCounter);
        var sol, guess := old(RowOf(board, 0)), old(RowOf(board, t));
        && outcome != Ignored
        && multiset(RowOf(fb, t - 1))[Black] == |Exact(sol, guess, |sol|)|
        && multiset(RowOf(fb, t - 1))[White] == |Near(sol, guess, |sol|)|
        && (forall i, j :: 0 <= i < rows - 1 && i != t - 1 && 0 <= j < COLUMNS ==> fb[i, j] == old(fb[i, j]))
        && (outcome == PlayerWins <==> guess == sol)
        && (outcome == CpuWins <==> guess != sol && t == 1)
        && (outcome == PlayerWins ==> gameOver && turnCounter == t)
        && (outcome == Continue ==> !gameOver && turnCounter == t - 1)
        && (outcome == CpuWins ==> gameOver && turnCounter == 1)
    {
      outcome := Ignored;
      if gameOver {
        return;
      }
      if turnCounter >= 1 && CheckComplete(board, turnCounter) {
        outcome := Play();
      }
      if turnCounter < 1 {
        RevealSolution();
        gameOver := true;
        turnCounter := turnCounter + 1;
        outcome := CpuWins;
      }
    }

    /** The scoring branch of `Submit`, up to the computer-win test. */
    method Play() returns (outcome: Outcome)
      requires Valid() && !gameOver && CheckComplete(board, turnCounter)
      modifies this`gameOver, this`turnCounter, this`shown, fb
      ensures var t := old(turnCounter);
        var sol, guess := old(RowOf(board, 0)), old(RowOf(board, t));
        && multiset(RowOf(fb, t - 1))[Black] == |Exact(sol, guess, |sol|)|
        && multiset(RowOf(fb, t - 1))[White] == |Near(sol, guess, |sol|)|
        && (forall i, j :: 0 <= i < rows - 1 && i != t - 1 && 0 <= j < COLUMNS ==> fb[i, j] == old(fb[i, j]))
        && (outcome == PlayerWins <==> guess == sol)
        && (outcome == PlayerWins ==> gameOver && turnCounter == t && shown == RowOf(board, 0))
        && (outcome != PlayerWins ==> outcome == Continue && !gameOver && turnCounter == t - 1 && shown == Hidden)
    {
      var t := turnCounter;
      FreshRow(fb, t - 1);
      var win := ScoreTurn();
      if win {
        gameOver := true;
        RevealSolution();
        outcome := PlayerWins;
      } else {
        turnCounter := t - 1;
        outcome := Continue;
      }
    }

    /** Scores the row being played into its feedback row. */
    method ScoreTurn() returns (win: bool)
      requires board != fb && board.Length1 == COLUMNS && fb.Length1 == COLUMNS
      requires 1 <= turnCounter < board.Length0 && turnCounter - 1 < fb.Length0
      requires RowOf(fb, turnCounter - 1) == [Tile, Tile, Tile, Tile]
      modifies fb
      ensures var t := turnCounter;
        var sol, guess := old(RowOf(board, 0)), old(RowOf(board, t));
        && multiset(RowOf(fb, t - 1))[Black] == |Exact(sol, guess, |sol|)|
        && multiset(RowOf(fb, t - 1))[White] == |Near(sol, guess, |sol|)|
        && (forall i, j :: 0 <= i < fb.Length0 && i != t - 1 && 0 <= j < COLUMNS ==> fb[i, j] == old(fb[i, j]))
        && (win <==> guess == sol)
    {
      ghost var slots;
      win, slots := AssignFeedback(board, fb, turnCounter);
    }
  }

  /** A feedback row of placeholders. */
  lemma FreshRow(fb: array2<Colour>, r: int)
    requires 0 <= r < fb.Length0 && fb.Length1 == COLUMNS
    requires forall j :: 0 <= j < COLUMNS ==> fb[r, j] == Tile
    ensures RowOf(fb, r) == [Tile, Tile, Tile, Tile]
  {
  }

  /** What scoring a complete row into a fresh feedback row yields: the
      peg counts, and an all-black row exactly for a correct guess. */
  lemma Scored(row0: seq<Colour>, slots: seq<int>, sol: seq<Colour>, guess: seq<Colour>)
    requires |sol| == |guess| == COLUMNS && row0 == [Tile, Tile, Tile, Tile]
    requires |slots| == |Marks(sol, guess, |sol|)| && Distinct(slots)
    requires forall t :: 0 <= t < |slots| ==> 0 <= slots[t] < COLUMNS
    ensures multiset(Placed(row0, slots, Marks(sol, guess, |sol|)))[Black] == |Exact(sol, guess, |sol|)|
    ensures multiset(Placed(row0, slots, Marks(sol, guess, |sol|)))[White] == |Near(sol, guess, |sol|)|
    ensures Placed(row0, slots, Marks(sol, guess, |sol|)) == [Black, Black, Black, Black] <==> sol == guess
  {
    PlacedOnFresh(row0, slots, sol, guess);
    WinOnFresh(row0, slots, sol, guess);
  }
}
