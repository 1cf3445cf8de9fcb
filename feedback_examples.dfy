/** The expected results of the terminal game's test suite, worked out for the
    scorer as written (before shuffling; any shuffle has the same multiset). */
module FeedbackExamples {
  import opened Scoring

  lemma Snoc1<T>(a: T) ensures [] + [a] == [a] {}
  lemma Snoc2<T>(a: T, b: T) ensures [a] + [b] == [a, b] {}
  lemma Snoc3<T>(a: T, b: T, c: T) ensures [a, b] + [c] == [a, b, c] {}
  lemma Snoc4<T>(a: T, b: T, c: T, d: T) ensures [a, b, c] + [d] == [a, b, c, d] {}

  /** The keys of a guess of four different colours are the guess itself. */
  lemma DedupFourDistinct(a: Color, b: Color, c: Color, d: Color)
    requires a != b && a != c && a != d && b != c && b != d && c != d
    ensures Dedup([a, b, c, d]) == [a, b, c, d]
  {
    DedupAppend([], a);
    Snoc1(a);
    DedupAppend([a], b);
    Snoc2(a, b);
    DedupAppend([a, b], c);
    Snoc3(a, b, c);
    DedupAppend([a, b, c], d);
    Snoc4(a, b, c, d);
  }

  lemma CollectOne(sol: seq<Color>, guess: seq<Color>, a: Color)
    requires |sol| <= |guess|
    ensures Collect(sol, guess, [a], |sol|) == Entry(sol, guess, a, |sol|)
  {
    CollectAppend(sol, guess, [], a, |sol|);
    Snoc1(a);
  }

  lemma CollectTwo(sol: seq<Color>, guess: seq<Color>, a: Color, b: Color)
    requires |sol| <= |guess|
    ensures Collect(sol, guess, [a, b], |sol|) == Entry(sol, guess, a, |sol|) + Entry(sol, guess, b, |sol|)
  {
    CollectOne(sol, guess, a);
    CollectAppend(sol, guess, [a], b, |sol|);
    Snoc2(a, b);
  }

  /** The result for four distinct keys is their four entries in order. */
  lemma CollectFour(sol: seq<Color>, guess: seq<Color>, a: Color, b: Color, c: Color, d: Color)
    requires |sol| <= |guess|
    ensures Collect(sol, guess, [a, b, c, d], |sol|)
         == Entry(sol, guess, a, |sol|) + Entry(sol, guess, b, |sol|)
          + Entry(sol, guess, c, |sol|) + Entry(sol, guess, d, |sol|)
  {
    var n := |sol|;
    CollectTwo(sol, guess, a, b);
    CollectAppend(sol, guess, [a, b], c, n);
    Snoc3(a, b, c);
    CollectAppend(sol, guess, [a, b, c], d, n);
    Snoc4(a, b, c, d);
  }

  /** A guess made of one colour has that colour as its only key. */
  lemma DedupSame(x: Color)
    ensures Dedup([x, x, x, x]) == [x]
  {
    DedupAppend([], x);
    Snoc1(x);
    DedupAppend([x], x);
    Snoc2(x, x);
    DedupAppend([x, x], x);
    Snoc3(x, x, x);
    DedupAppend([x, x, x], x);
    Snoc4(x, x, x, x);
  }

  /** A guess x y y x has the keys x y. */
  lemma DedupOuter(x: Color, y: Color)
    requires x != y
    ensures Dedup([x, y, y, x]) == [x, y]
  {
    DedupAppend([], x);
    Snoc1(x);
    DedupAppend([x], y);
    Snoc2(x, y);
    DedupAppend([x, y], y);
    Snoc3(x, y, y);
    DedupAppend([x, y, y], x);
    Snoc4(x, y, y, x);
  }

  /** A guess x y y y has the keys x y. */
  lemma DedupTail(x: Color, y: Color)
    requires x != y
    ensures Dedup([x, y, y, y]) == [x, y]
  {
    DedupAppend([], x);
    Snoc1(x);
    DedupAppend([x], y);
    Snoc2(x, y);
    DedupAppend([x, y], y);
    Snoc3(x, y, y);
    DedupAppend([x, y, y], y);
    Snoc4(x, y, y, y);
  }

  /** Solution Y R G B, guess B G R Y: four white pegs. */
  lemma AllWhite()
    ensures Pegs(["Y", "R", "G", "B"], ["B", "G", "R", "Y"]) == [White, White, White, White]
  {
    var sol: seq<Color> := ["Y", "R", "G", "B"];
    var g: seq<Color> := ["B", "G", "R", "Y"];
    DedupFourDistinct("B", "G", "R", "Y");
    CollectFour(sol, g, "B", "G", "R", "Y");
    assert Entry(sol, g, "B", 4) == [White];
    assert Entry(sol, g, "G", 4) == [White];
    assert Entry(sol, g, "R", 4) == [White];
    assert Entry(sol, g, "Y", 4) == [White];
  }

  /** Solution Y R G B, guess Y Y Y Y: one black peg. */
  lemma OneBlack()
    ensures Pegs(["Y", "R", "G", "B"], ["Y", "Y", "Y", "Y"]) == [Black]
  {
    var sol: seq<Color> := ["Y", "R", "G", "B"];
    var g: seq<Color> := ["Y", "Y", "Y", "Y"];
    DedupSame("Y");
    CollectOne(sol, g, "Y");
    assert Entry(sol, g, "Y", 4) == [Black];
  }

  /** Solution Y R G B, guess O O O O: no peg. */
  lemma NoPeg()
    ensures Pegs(["Y", "R", "G", "B"], ["O", "O", "O", "O"]) == []
  {
    var sol: seq<Color> := ["Y", "R", "G", "B"];
    var g: seq<Color> := ["O", "O", "O", "O"];
    DedupSame("O");
    CollectOne(sol, g, "O");
    assert Entry(sol, g, "O", 4) == [];
  }

  /** Solution Y R G B, guess Y R G B: four black pegs. */
  lemma AllBlack()
    ensures Pegs(["Y", "R", "G", "B"], ["Y", "R", "G", "B"]) == [Black, Black, Black, Black]
  {
    var sol: seq<Color> := ["Y", "R", "G", "B"];
    DedupFourDistinct("Y", "R", "G", "B");
    CollectFour(sol, sol, "Y", "R", "G", "B");
    assert Entry(sol, sol, "Y", 4) == [Black];
    assert Entry(sol, sol, "R", 4) == [Black];
    assert Entry(sol, sol, "G", 4) == [Black];
    assert Entry(sol, sol, "B", 4) == [Black];
  }

  /** Solution Y R G B, guess R Y Y Y: two white pegs. */
  lemma TwoWhite()
    ensures Pegs(["Y", "R", "G", "B"], ["R", "Y", "Y", "Y"]) == [White, White]
  {
    var sol: seq<Color> := ["Y", "R", "G", "B"];
    var g: seq<Color> := ["R", "Y", "Y", "Y"];
    DedupTail("R", "Y");
    CollectTwo(sol, g, "R", "Y");
    assert Entry(sol, g, "R", 4) == [White];
    assert Entry(sol, g, "Y", 4) == [White];
  }

  /** Solution R G R Y, guess R R R R: the second exact red match overwrites
      the first, so a single black peg (counting exact positions gives two). */
  lemma RepeatedRed()
    ensures Entry(["R", "G", "R", "Y"], ["R", "R", "R", "R"], "R", 1) == [Black]
    ensures Entry(["R", "G", "R", "Y"], ["R", "R", "R", "R"], "R", 3) == [Black]
    ensures Pegs(["R", "G", "R", "Y"], ["R", "R", "R", "R"]) == [Black]
  {
    var sol: seq<Color> := ["R", "G", "R", "Y"];
    var g: seq<Color> := ["R", "R", "R", "R"];
    DedupSame("R");
    CollectOne(sol, g, "R");
    assert Entry(sol, g, "R", 4) == [Black];
  }

  /** Solution R G R Y, guess O R R O: one black peg. */
  lemma OneBlackOfRepeated()
    ensures Pegs(["R", "G", "R", "Y"], ["O", "R", "R", "O"]) == [Black]
  {
    var sol: seq<Color> := ["R", "G", "R", "Y"];
    var g: seq<Color> := ["O", "R", "R", "O"];
    DedupOuter("O", "R");
    CollectTwo(sol, g, "O", "R");
    assert Entry(sol, g, "O", 4) == [];
    assert Entry(sol, g, "R", 4) == [Black];
  }
}
