/** The terminal game's `Game` class: an eight-slot board filled from the
    last slot towards the first, the hidden solution, the scorer and the
    flags that end the game. */
module TerminalGame {
  import opened Seqs
  import opened Scoring
  import Chance

  /** One board slot: a guess and the pegs it scored. */
  datatype Row = Row(guess: seq<Color>, result: seq<Peg>)

  /** A slot nobody has played: four empty strings and no pegs. */
  const EmptyRow: Row := Row(["", "", "", ""], [])

  /** R = red, B = blue, Y = yellow, G = green, W = white, O = orange. */
  const Palette: seq<Color> := ["R", "B", "Y", "G", "W", "O"]

  /** A slot filled by `guess_row`: four colours and at most four black or white pegs. */
  ghost predicate Played(r: Row)
  {
    |r.guess| == 4 && |r.result| <= 4 && forall p :: p in r.result ==> p == Black || p == White
  }

  /** Slots up to `counter` are unplayed and the slots above it are played. */
  ghost predicate Filled(board: seq<Row>, counter: int)
    requires |board| == 8
  {
    && (forall i :: 0 <= i < 8 && i <= counter ==> board[i] == EmptyRow)
    && (forall i :: 0 <= i < 8 && counter < i ==> Played(board[i]))
  }

  /** Writing a played row into the slot the counter names and lowering the
      counter keeps the board filled from the last slot down. */
  lemma PlaceRow(board: seq<Row>, counter: int, row: Row)
    requires |board| == 8 && 0 <= counter < 8
    requires Filled(board, counter) && Played(row)
    ensures Filled(board[counter := row], counter - 1)
  {
    var b := board[counter := row];
    forall i | 0 <= i < 8 && counter - 1 < i ensures Played(b[i]) {
      if i != counter { assert b[i] == board[i]; }
    }
  }

  lemma PaletteDistinct()
    ensures Distinct(Palette) && |Palette| == 6
  {
  }

  /** The two-player entry rule: a typed colour is taken when it is in the
      palette and, without duplicates, not yet in the solution. Taking picks
      one by one keeps the solution inside the palette, and distinct when
      duplicates are off. */
  function Pick(solution: seq<Color>, toAdd: Color, colors: seq<Color>, duplicates: bool): (r: seq<Color>)
    ensures r == solution || r == solution + [toAdd]
    ensures r == solution + [toAdd] <==> toAdd in colors && (duplicates || toAdd !in solution)
    ensures (forall c :: c in solution ==> c in colors) ==> forall c :: c in r ==> c in colors
    ensures !duplicates && Distinct(solution) ==> Distinct(r)
  {
    if toAdd in colors && (duplicates || toAdd !in solution) then solution + [toAdd] else solution
  }

  /** `tracker = {x: [] for x in row}`, with the dictionary's key order. */
  method NewTracker(guess: seq<Color>) returns (keys: seq<Color>, tracker: map<Color, seq<Peg>>)
    ensures keys == Dedup(guess)
    ensures forall c :: c in tracker <==> c in guess
    ensures forall c :: c in tracker ==> tracker[c] == []
  {
    keys, tracker := [], map[];
    for k := 0 to |guess|
      invariant keys == Dedup(guess[..k])
      invariant forall c :: c in tracker <==> c in guess[..k]
      invariant forall c :: c in tracker ==> tracker[c] == []
    {
      assert guess[..k + 1] == guess[..k] + [guess[k]];
      DedupAppend(guess[..k], guess[k]);
      if guess[k] !in tracker {
        keys := keys + [guess[k]];
      }
      tracker := tracker[guess[k] := []];
    }
    assert guess[..|guess|] == guess;
  }

  /** The scoring loop: an exact match at position `i` sets the entry of
      `solution[i]` to one black peg; otherwise, when that colour is guessed
      somewhere, a white peg is appended to its entry. */
  method FillTracker(solution: seq<Color>, guess: seq<Color>, tracker0: map<Color, seq<Peg>>)
    returns (tracker: map<Color, seq<Peg>>)
    requires |solution| <= |guess|
    requires forall c :: c in tracker0 <==> c in guess
    requires forall c :: c in tracker0 ==> tracker0[c] == []
    ensures forall c :: c in tracker <==> c in guess
    ensures forall c :: c in tracker ==> tracker[c] == Entry(solution, guess, c, |solution|)
  {
    tracker := tracker0;
    for i := 0 to |solution|
      invariant forall c :: c in tracker <==> c in guess
      invariant forall c :: c in tracker ==> tracker[c] == Entry(solution, guess, c, i)
    {
      var sol := solution[i];
      if sol == guess[i] {
        tracker := tracker[sol := [Black]];
      } else if sol in guess {
        tracker := tracker[sol := tracker[sol] + [White]];
      }
    }
  }

  /** The peg that goes out: the peg itself with duplicates, its first
      character otherwise; for a one-character peg the two agree. */
  function Emit(j: Peg, duplicates: bool): (peg: Peg)
    requires j == Black || j == White
    ensures peg == j
  {
    if duplicates then j else [j[0]]
  }

  /** Appending the entry of the next key extends the collected pegs. */
  lemma TakeNext(solution: seq<Color>, guess: seq<Color>, keys: seq<Color>, n: nat, entry: seq<Peg>)
    requires |solution| <= |guess| && n < |keys|
    requires entry == Entry(solution, guess, keys[n], |solution|)
    ensures Collect(solution, guess, keys[..n], |solution|) + entry
         == Collect(solution, guess, keys[..n + 1], |solution|)
  {
    PrefixSnoc(keys, n);
    CollectAppend(solution, guess, keys[..n], keys[n], |solution|);
  }

  /** The two ways `create_solution` draws: four `random.choice` calls with
      duplicates, one `random.sample` of four without. */
  method Draw(colors: seq<Color>, duplicates: bool) returns (s: seq<Color>)
    requires colors == Palette
    ensures |s| == 4 && forall c :: c in s ==> c in colors
    ensures !duplicates ==> Distinct(s)
  {
    if duplicates {
      s := [];
      for k := 0 to 4
        invariant |s| == k && forall c :: c in s ==> c in colors
      {
        var c := Chance.Choice(colors);
        s := s + [c];
      }
    } else {
      s := Chance.Sample(colors, 4);
      PaletteDistinct();
      Chance.SampleOfDistinct(s, colors);
    }
  }

  class Game {
    var board: seq<Row>
    const colors: seq<Color>
    var solution: seq<Color>
    var guessCounter: int
    const players: int
    const duplicates: bool
    var colorsSeen: seq<Color>
    var colorsInSol: seq<Peg>
    var gameOver: bool
    var playerWin: bool
    var compP2Win: bool

    /** The palette is fixed, the solution has at most four colours, and
        the board bookkeeping holds. */
    ghost predicate Valid()
      reads this`board, this`solution, this`guessCounter, this`gameOver, this`playerWin, this`compP2Win
    {
      colors == Palette && |solution| <= 4 && Bookkeeping()
    }

    /** The counter names the next slot to write (or -1 once all eight are
        used, which ends the game); slots at or below it are unplayed, slots
        above it played; a win flag is only ever set together with `gameOver`. */
    ghost predicate Bookkeeping()
      reads this`board, this`guessCounter, this`gameOver, this`playerWin, this`compP2Win
    {
      && |board| == 8
      && -1 <= guessCounter <= 7
      && (guessCounter < 0 ==> gameOver)
      && (playerWin ==> gameOver)
      && (compP2Win ==> gameOver)
      && (gameOver ==> playerWin || compP2Win)
      && Filled(board, guessCounter)
    }

    constructor (players: int, duplicates: bool)
      ensures Valid()
      ensures board == seq(8, _ => EmptyRow) && solution == [] && guessCounter == 7
      ensures this.players == players && this.duplicates == duplicates
      ensures colorsSeen == [] && colorsInSol == []
      ensures !gameOver && !playerWin && !compP2Win
    {
      board := seq(8, _ => EmptyRow);
      colors := Palette;
      solution := [];
      guessCounter := 7;
      this.players := players;
      this.duplicates := duplicates;
      colorsSeen := [];
      colorsInSol := [];
      gameOver := false;
      playerWin := false;
      compP2Win := false;
    }

    function GetBoard(): seq<Row>
      reads this
    {
      board
    }

    function GetSolution(): seq<Color>
      reads this
    {
      solution
    }

    /** Four colours from the palette, drawn with replacement when duplicates
        are allowed and without replacement otherwise. */
    method CreateSolution()
      requires Valid()
      modifies this`solution
      ensures Valid()
      ensures |solution| == 4 && forall c :: c in solution ==> c in colors
      ensures !duplicates ==> Distinct(solution)
    {
      var s := Draw(colors, duplicates);
      solution := s;
    }

    /** Emits the pegs of one tracker entry, each recorded in `colorsInSol`. */
    method EmitEntry(entry: seq<Peg>) returns (out: seq<Peg>)
      requires forall p :: p in entry ==> p == Black || p == White
      modifies this`colorsInSol
      ensures out == entry
      ensures colorsInSol == old(colorsInSol) + entry
    {
      out := [];
      for m := 0 to |entry|
        invariant out == entry[..m]
        invariant colorsInSol == old(colorsInSol) + out
      {
        assert entry[m] in entry;
        var peg := Emit(entry[m], duplicates);
        out := out + [peg];
        colorsInSol := colorsInSol + [peg];
      }
    }

    /** Scores `guess`: builds the tracker dictionary, fills it position by
        position, lists its entries in key order (recording the keys in
        `colorsSeen` and the pegs in `colorsInSol`) and shuffles the list. */
    method Feedback(guess: seq<Color>) returns (result: seq<Peg>)
      requires |solution| <= |guess|
      modifies this`colorsSeen, this`colorsInSol
      ensures multiset(result) == multiset(Pegs(solution, guess))
      ensures colorsSeen == old(colorsSeen) + Dedup(guess)
      ensures colorsInSol == old(colorsInSol) + Pegs(solution, guess)
    {
      var keys, tracker := NewTracker(guess);
      tracker := FillTracker(solution, guess, tracker);
      var pegs: seq<Peg> := [];
      for n := 0 to |keys|
        invariant pegs == Collect(solution, guess, keys[..n], |solution|)
        invariant colorsSeen == old(colorsSeen) + keys[..n]
        invariant colorsInSol == old(colorsInSol) + pegs
      {
        var c := keys[n];
        colorsSeen := colorsSeen + [c];
        SnocPrefix(old(colorsSeen), keys, n);
        assert c in guess;
        var entry := EmitEntry(tracker[c]);
        Assoc(old(colorsInSol), pegs, entry);
        TakeNext(solution, guess, keys, n, entry);
        pegs := pegs + entry;
      }
      WholeSlice(keys);
      result := Chance.Shuffle(pegs);
    }

    /** One move. After the game is over it is refused and nothing changes.
        Otherwise the guess and its pegs go into the slot the counter names,
        the counter drops by one, the player wins exactly when the guess is
        the solution and the solution has four different colours, and the
        computer wins when the counter falls below zero: on the eighth move
        both can win at once. */
    method GuessRow(color1: Color, color2: Color, color3: Color, color4: Color) returns (ok: bool)
      requires Valid()
      modifies this
      ensures Valid()
      ensures solution == old(solution)
      ensures old(gameOver) ==> !ok && unchanged(this)
      ensures !old(gameOver) ==> ok && Moved([color1, color2, color3, color4], old(board), old(guessCounter), old(colorsSeen), old(colorsInSol))
    {
      if gameOver {
        return false;
      }
      Move([color1, color2, color3, color4]);
      ok := true;
    }

    /** The state after `guess` was played on a board with the given earlier
        state: the guess and a permutation of its pegs sit in the slot the
        counter named, the counter is one lower, the win flags follow the
        rules above and the scorer's records grew by the keys and the pegs. */
    ghost predicate Moved(guess: seq<Color>, board0: seq<Row>, counter0: int,
                          seen0: seq<Color>, inSol0: seq<Peg>)
      reads this
      requires |solution| <= |guess|
    {
      && 0 <= counter0 < |board0| == |board|
      && board == board0[counter0 := Row(guess, board[counter0].result)]
      && multiset(board[counter0].result) == multiset(Pegs(solution, guess))
      && guessCounter == counter0 - 1
      && (playerWin <==> guess == solution && Distinct(solution))
      && (compP2Win <==> guessCounter < 0)
      && gameOver == (playerWin || compP2Win)
      && colorsSeen == seen0 + Dedup(guess)
      && colorsInSol == inSol0 + Pegs(solution, guess)
    }

    /** The body of a move that is not refused. */
    method Move(guess: seq<Color>)
      requires Valid() && !gameOver && |guess| == 4
      modifies this
      ensures Valid()
      ensures solution == old(solution)
      ensures Moved(guess, old(board), old(guessCounter), old(colorsSeen), old(colorsInSol))
    {
      var result := Feedback(guess);
      Record(guess, result);
    }

    /** Writes the scored guess into the board and settles the flags. */
    method Record(guess: seq<Color>, result: seq<Peg>)
      requires Valid() && !gameOver && |guess| == 4
      requires multiset(result) == multiset(Pegs(solution, guess))
      modifies this`board, this`guessCounter, this`gameOver, this`playerWin, this`compP2Win
      ensures Valid()
      ensures var slot := old(guessCounter);
        && 0 <= slot < 8
        && board == old(board)[slot := Row(guess, result)]
        && guessCounter == slot - 1
        && (playerWin <==> guess == solution && Distinct(solution))
        && (compP2Win <==> guessCounter < 0)
        && gameOver == (playerWin || compP2Win)
    {
      var row := Row(guess, result);
      PlayedRow(row, Pegs(solution, guess));
      PlaceRow(board, guessCounter, row);
      board := board[guessCounter := row];
      guessCounter := guessCounter - 1;
      VerificationIff(solution, guess, result);
      if Verification(solution, guess, result) {
        gameOver := true;
        playerWin := true;
      }
      if guessCounter < 0 {
        gameOver := true;
        compP2Win := true;
      }
    }
  }

  /** A row whose pegs are a permutation of the scorer's output is a played row. */
  lemma PlayedRow(r: Row, pegs: seq<Peg>)
    requires |r.guess| == 4
    requires multiset(r.result) == multiset(pegs)
    requires |pegs| <= 4 && forall p :: p in pegs ==> p == Black || p == White
    ensures Played(r)
  {
    assert |r.result| == |multiset(r.result)| == |multiset(pegs)| == |pegs|;
    forall p | p in r.result ensures p == Black || p == White {
      assert p in multiset(r.result);
      assert multiset(pegs)[p] > 0;
      assert p in pegs;
    }
  }

  lemma YobrDistinct()
    ensures Distinct(["Y", "O", "B", "R"])
  {
  }

  /** Seven misses and then the solution: the eighth move sets both win flags. */
  method EighthGuessWins() returns (playerWin: bool, compWin: bool)
    ensures playerWin && compWin
  {
    var g := new Game(1, false);
    g.solution := ["Y", "O", "B", "R"];
    var k := 0;
    while k < 7
      invariant 0 <= k <= 7
      invariant g.Valid() && g.solution == ["Y", "O", "B", "R"]
      invariant g.guessCounter == 7 - k && !g.gameOver
    {
      var ok := g.GuessRow("Y", "Y", "Y", "Y");
      k := k + 1;
    }
    YobrDistinct();
    var ok := g.GuessRow("Y", "O", "B", "R");
    playerWin, compWin := g.playerWin, g.compP2Win;
  }

  /** The demonstration run of the one-player game: a drawn solution is
      replaced by Y O B R and eight moves follow. The fourth move is the
      solution and wins, the four after it are refused, and the game ends
      with the counter at 3 and only the player's flag set. */
  method Demo(duplicates: bool) returns (oks: seq<bool>, counter: int, playerWin: bool, compWin: bool)
    ensures oks == [true, true, true, true, false, false, false, false]
    ensures counter == 3 && playerWin && !compWin
  {
    var g := new Game(1, duplicates);
    g.CreateSolution();
    g.solution := ["Y", "O", "B", "R"];
    YobrDistinct();
    var a := g.GuessRow("Y", "Y", "Y", "Y");
    var b := g.GuessRow("Y", "W", "O", "O");
    var c := g.GuessRow("Y", "W", "O", "O");
    var d := g.GuessRow("Y", "O", "B", "R");
    var e := g.GuessRow("Y", "W", "O", "O");
    var f := g.GuessRow("Y", "W", "O", "O");
    var h := g.GuessRow("Y", "W", "O", "O");
    var k := g.GuessRow("Y", "O", "O", "O");
    oks := [a, b, c, d, e, f, h, k];
    counter, playerWin, compWin := g.guessCounter, g.playerWin, g.compP2Win;
  }

  /** Eight misses: the computer wins on the eighth move and a ninth move is refused. */
  method EightMisses() returns (playerWin: bool, compWin: bool, ninth: bool)
    ensures !playerWin && compWin && !ninth
  {
    var g := new Game(1, true);
    g.solution := ["Y", "O", "B", "R"];
    var k := 0;
    while k < 8
      invariant 0 <= k <= 8
      invariant g.Valid() && g.solution == ["Y", "O", "B", "R"]
      invariant g.guessCounter == 7 - k && !g.playerWin
      invariant g.gameOver <==> k == 8
    {
      var ok := g.GuessRow("O", "O", "O", "O");
      k := k + 1;
    }
    playerWin, compWin := g.playerWin, g.compP2Win;
    ninth := g.GuessRow("Y", "O", "B", "R");
  }
}
