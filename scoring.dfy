/** The scorer of the terminal game, `Game.feedback`, as specification
    functions. The scorer keeps a dictionary `tracker` from each colour of the
    guess to a list of pegs; position `i` of the solution touches only the
    entry of the colour `sol[i]`: an exact match REPLACES that entry by a single
    black peg, any other occurrence of a guessed colour appends a white peg.
    The result lists the entries in the dictionary's key order. */
module Scoring {
  import opened Seqs

  /** Colours and pegs are Python one-character strings. */
  type Color = string
  type Peg = string

  const Black: Peg := "B"
  const White: Peg := "W"

  /** The colours of `s` in order of first occurrence: the key order of the
      dictionary `{x: [] for x in row}`. */
  function Dedup(s: seq<Color>): (d: seq<Color>)
    ensures Distinct(d)
    ensures forall c :: c in d <==> c in s
  {
    if s == [] then []
    else
      var d := Dedup(s[..|s| - 1]);
      assert forall c :: c in s <==> c in s[..|s| - 1] || c == s[|s| - 1] by {
        assert s == s[..|s| - 1] + [s[|s| - 1]];
      }
      if s[|s| - 1] in d then d else d + [s[|s| - 1]]
  }

  /** `tracker[c]` after the first `n` positions of the solution. */
  function Entry(sol: seq<Color>, guess: seq<Color>, c: Color, n: nat): (e: seq<Peg>)
    requires n <= |sol| <= |guess|
    ensures forall p :: p in e ==> p == Black || p == White
  {
    if n == 0 then []
    else
      var prev := Entry(sol, guess, c, n - 1);
      if sol[n - 1] != c then prev
      else if guess[n - 1] == c then [Black]
      else if c in guess then prev + [White]
      else prev
  }

  /** The entries of `keys`, in order, after `n` positions. */
  function Collect(sol: seq<Color>, guess: seq<Color>, keys: seq<Color>, n: nat): (r: seq<Peg>)
    requires n <= |sol| <= |guess|
    ensures forall p :: p in r ==> p == Black || p == White
  {
    if keys == [] then []
    else Collect(sol, guess, keys[..|keys| - 1], n) + Entry(sol, guess, keys[|keys| - 1], n)
  }

  /** One more guess colour adds a dictionary key only when it is new. */
  lemma DedupAppend(s: seq<Color>, x: Color)
    ensures Dedup(s + [x]) == if x in s then Dedup(s) else Dedup(s) + [x]
  {
    assert (s + [x])[..|s|] == s;
  }

  /** One more key appends its entry. */
  lemma CollectAppend(sol: seq<Color>, guess: seq<Color>, keys: seq<Color>, k: Color, n: nat)
    requires n <= |sol| <= |guess|
    ensures Collect(sol, guess, keys + [k], n) == Collect(sol, guess, keys, n) + Entry(sol, guess, k, n)
  {
    assert (keys + [k])[..|keys|] == keys;
  }

  /** The pegs `Game.feedback` emits, before `random.shuffle`: every peg is
      black or white, and there are never more pegs than solution positions. */
  function Pegs(sol: seq<Color>, guess: seq<Color>): (r: seq<Peg>)
    requires |sol| <= |guess|
    ensures forall p :: p in r ==> p == Black || p == White
    ensures |r| <= |sol|
  {
    CollectBound(sol, guess, Dedup(guess), |sol|);
    Collect(sol, guess, Dedup(guess), |sol|)
  }

  // ---------------------------------------------------------------------
  // Closed form of one tracker entry

  /** The last exact match of colour `c` among the first `n` positions, or -1. */
  function LastExact(sol: seq<Color>, guess: seq<Color>, c: Color, n: nat): (r: int)
    requires n <= |sol| <= |guess|
    ensures -1 <= r < n
    ensures r >= 0 ==> sol[r] == c && guess[r] == c
    ensures forall j :: r < j < n ==> !(sol[j] == c && guess[j] == c)
  {
    if n == 0 then -1
    else if sol[n - 1] == c && guess[n - 1] == c then n - 1
    else LastExact(sol, guess, c, n - 1)
  }

  /** Number of positions in `[lo, n)` holding `c` in the solution but not in the guess. */
  function NonExact(sol: seq<Color>, guess: seq<Color>, c: Color, lo: nat, n: nat): nat
    requires n <= |sol| <= |guess|
  {
    if n <= lo then 0
    else NonExact(sol, guess, c, lo, n - 1) + (if sol[n - 1] == c && guess[n - 1] != c then 1 else 0)
  }

  function Whites(k: nat): (w: seq<Peg>)
    ensures |w| == k && forall p :: p in w ==> p == White
  {
    seq(k, _ => White)
  }

  /** An entry is one black peg when the colour has an exact match, followed by
      one white peg per non-exact solution position of that colour after its
      last exact match, and the white pegs come only when the colour is guessed. */
  lemma {:induction false} EntryShape(sol: seq<Color>, guess: seq<Color>, c: Color, n: nat)
    requires n <= |sol| <= |guess|
    ensures var last := LastExact(sol, guess, c, n);
      Entry(sol, guess, c, n) ==
        (if last >= 0 then [Black] else [])
        + (if c in guess then Whites(NonExact(sol, guess, c, last + 1, n)) else [])
  {
    if n > 0 {
      EntryShape(sol, guess, c, n - 1);
      var last := LastExact(sol, guess, c, n - 1);
      var k := NonExact(sol, guess, c, last + 1, n - 1);
      if sol[n - 1] == c && guess[n - 1] != c && c in guess {
        assert Whites(k + 1) == Whites(k) + [White];
      }
    }
  }

  // ---------------------------------------------------------------------
  // At most one peg per solution position

  /** Position `n - 1` of the solution adds at most one peg to the entry of
      its own colour and leaves every other entry as it was. */
  lemma EntryStep(sol: seq<Color>, guess: seq<Color>, c: Color, n: nat)
    requires 0 < n <= |sol| <= |guess|
    ensures sol[n - 1] != c ==> Entry(sol, guess, c, n) == Entry(sol, guess, c, n - 1)
    ensures |Entry(sol, guess, c, n)| <= |Entry(sol, guess, c, n - 1)| + 1
  {
  }

  lemma {:induction false} CollectStep(sol: seq<Color>, guess: seq<Color>, keys: seq<Color>, n: nat)
    requires 0 < n <= |sol| <= |guess|
    requires Distinct(keys)
    ensures |Collect(sol, guess, keys, n)|
         <= |Collect(sol, guess, keys, n - 1)| + (if sol[n - 1] in keys then 1 else 0)
  {
    if keys != [] {
      var init, last := keys[..|keys| - 1], keys[|keys| - 1];
      assert keys == init + [last];
      CollectStep(sol, guess, init, n);
      EntryStep(sol, guess, last, n);
    }
  }

  /** Each solution position adds at most one peg in all. */
  lemma {:induction false} CollectBound(sol: seq<Color>, guess: seq<Color>, keys: seq<Color>, n: nat)
    requires n <= |sol| <= |guess|
    requires Distinct(keys)
    ensures |Collect(sol, guess, keys, n)| <= n
  {
    if n == 0 {
      CollectEmpty(sol, guess, keys);
    } else {
      CollectBound(sol, guess, keys, n - 1);
      CollectStep(sol, guess, keys, n);
    }
  }

  lemma {:induction false} CollectEmpty(sol: seq<Color>, guess: seq<Color>, keys: seq<Color>)
    requires |sol| <= |guess|
    ensures Collect(sol, guess, keys, 0) == []
  {
    if keys != [] {
      CollectEmpty(sol, guess, keys[..|keys| - 1]);
    }
  }

  // ---------------------------------------------------------------------
  // Black pegs

  /** The colours that occur at some exact-match position. */
  function ExactColors(sol: seq<Color>, guess: seq<Color>): (e: set<Color>)
    requires |sol| <= |guess|
    ensures forall c :: c in e ==> c in sol && c in guess
  {
    set i | 0 <= i < |sol| && sol[i] == guess[i] :: sol[i]
  }

  /** An entry holds one black peg exactly when its colour has an exact match. */
  lemma EntryBlack(sol: seq<Color>, guess: seq<Color>, c: Color)
    requires |sol| <= |guess|
    ensures multiset(Entry(sol, guess, c, |sol|))[Black] == if c in ExactColors(sol, guess) then 1 else 0
  {
    var n := |sol|;
    var last := LastExact(sol, guess, c, n);
    EntryShape(sol, guess, c, n);
    var w := if c in guess then Whites(NonExact(sol, guess, c, last + 1, n)) else [];
    assert Black !in w;
    assert multiset(w)[Black] == 0;
    if c in ExactColors(sol, guess) {
      var i :| 0 <= i < n && sol[i] == guess[i] && sol[i] == c;
      assert last >= 0;
    }
  }

  lemma {:induction false} CollectBlack(sol: seq<Color>, guess: seq<Color>, keys: seq<Color>)
    requires |sol| <= |guess|
    requires Distinct(keys)
    ensures multiset(Collect(sol, guess, keys, |sol|))[Black] == |ExactColors(sol, guess) * Elems(keys)|
  {
    var e := ExactColors(sol, guess);
    if keys == [] {
      CollectEmpty(sol, guess, keys);
      assert e * Elems(keys) == {};
    } else {
      var init, last := keys[..|keys| - 1], keys[|keys| - 1];
      assert keys == init + [last];
      assert Distinct(init);
      CollectBlack(sol, guess, init);
      EntryBlack(sol, guess, last);
      assert last !in Elems(init);
      assert Elems(keys) == Elems(init) + {last};
      if last in e {
        assert e * Elems(keys) == (e * Elems(init)) + {last};
      } else {
        assert e * Elems(keys) == e * Elems(init);
      }
    }
  }

  /** The number of black pegs is the number of distinct colours that occur
      at some exact-match position (not the number of exact positions). */
  lemma BlackCount(sol: seq<Color>, guess: seq<Color>)
    requires |sol| <= |guess|
    ensures multiset(Pegs(sol, guess))[Black] == |ExactColors(sol, guess)|
  {
    var keys := Dedup(guess);
    CollectBlack(sol, guess, keys);
    assert ExactColors(sol, guess) * Elems(keys) == ExactColors(sol, guess);
  }

  // ---------------------------------------------------------------------
  // The win test

  /** `Game.verification`: the guess is the solution and the (shuffled)
      feedback is four black pegs. */
  predicate Verification(sol: seq<Color>, guess: seq<Color>, result: seq<Peg>): (ok: bool)
    ensures ok <==> guess == sol && |result| == 4 && forall i :: 0 <= i < |result| ==> result[i] == Black
  {
    guess == sol && result == [Black, Black, Black, Black]
  }

  /** Dropping one position leaves at most `|s| - 1` distinct colours, and
      they include every colour that occurs at another position. */
  lemma DropOne(s: seq<Color>, k: nat)
    requires k < |s|
    ensures |Elems(s[..k] + s[k + 1..])| <= |s| - 1
    ensures forall i :: 0 <= i < |s| && i != k ==> s[i] in Elems(s[..k] + s[k + 1..])
  {
    ElemsCard(s[..k] + s[k + 1..]);
    forall i | 0 <= i < |s| && i != k
      ensures s[i] in Elems(s[..k] + s[k + 1..])
    {
      if i < k { assert (s[..k] + s[k + 1..])[i] == s[i]; }
      else { assert (s[..k] + s[k + 1..])[i - 1] == s[i]; }
    }
  }

  lemma SubsetCard<T>(a: set<T>, b: set<T>)
    requires a <= b
    ensures |a| <= |b|
  {
    assert b == a + (b - a);
  }

  /** Four black pegs need four exact positions with four different colours. */
  lemma FourBlacks(sol: seq<Color>, guess: seq<Color>)
    requires |sol| <= |guess| == 4
    requires |ExactColors(sol, guess)| == 4
    ensures guess == sol && Distinct(sol)
  {
    var e := ExactColors(sol, guess);
    SubsetCard(e, Elems(sol));
    ElemsCard(sol);
    if exists k :: 0 <= k < |sol| && sol[k] != guess[k] {
      var k :| 0 <= k < |sol| && sol[k] != guess[k];
      DropOne(sol, k);
      SubsetCard(e, Elems(sol[..k] + sol[k + 1..]));
      assert false;
    }
    assert guess == sol;
    assert e == Elems(sol);
  }

  /** Shuffled feedback of four black pegs already forces the guess to be the
      solution, and the solution to have four different colours: the row
      comparison in `verification` adds nothing to the peg test. */
  lemma AllBlackIsCorrect(sol: seq<Color>, guess: seq<Color>, result: seq<Peg>)
    requires |sol| <= |guess| == 4
    requires multiset(result) == multiset(Pegs(sol, guess))
    requires result == [Black, Black, Black, Black]
    ensures guess == sol && Distinct(sol)
  {
    BlackCount(sol, guess);
    assert multiset(result)[Black] == 4;
    FourBlacks(sol, guess);
  }

  /** Passing `verification` on the scorer's shuffled output means the guess
      is the solution and the solution has no repeated colour. */
  lemma VerificationOnlyIf(sol: seq<Color>, guess: seq<Color>, result: seq<Peg>)
    requires |sol| <= |guess| == 4
    requires multiset(result) == multiset(Pegs(sol, guess))
    requires Verification(sol, guess, result)
    ensures guess == sol && Distinct(sol)
  {
    AllBlackIsCorrect(sol, guess, result);
  }

  /** Guessing a solution of four distinct colours yields four black pegs,
      in whatever order they are shuffled. */
  lemma VerificationIf(sol: seq<Color>, result: seq<Peg>)
    requires |sol| == 4 && Distinct(sol)
    requires multiset(result) == multiset(Pegs(sol, sol))
    ensures result == [Black, Black, Black, Black]
  {
    var pegs := Pegs(sol, sol);
    BlackCount(sol, sol);
    ElemsCard(sol);
    assert ExactColors(sol, sol) == Elems(sol);
    assert |result| == 4 && multiset(result)[Black] == 4;
    assert |result| == |pegs|;
    CountAll(result, Black);
  }

  /** `Game.verification` succeeds on the scorer's (shuffled) output exactly
      when the guess is the solution and the solution's four colours are
      pairwise distinct: a solution with a repeated colour can never be won. */
  lemma VerificationIff(sol: seq<Color>, guess: seq<Color>, result: seq<Peg>)
    requires |sol| <= |guess| == 4
    requires multiset(result) == multiset(Pegs(sol, guess))
    ensures Verification(sol, guess, result) <==> guess == sol && Distinct(sol)
  {
    if Verification(sol, guess, result) {
      VerificationOnlyIf(sol, guess, result);
    }
    if guess == sol && Distinct(sol) {
      VerificationIf(sol, result);
    }
  }
}
