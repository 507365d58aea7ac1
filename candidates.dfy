/**
 * Stage one of build_theory: the candidate tiles of every cell of the
 * feedback grid, and the tile literals the stage adds to the encoding.
 *
 * The stage walks lists only (the solution word and the letters absent
 * from it), so the constraints it logs form one exact sequence, TileLog,
 * a function of the solution word and the grid.
 */
module TileStage {
  import opened Propositions

  const ALPHABET: string := "abcdefghijklmnopqrstuvwxyz"

  /** The letters of `letters`, in their order, that do not occur in `sol`. */
  function Absent(letters: string, sol: string): (r: string)
    ensures forall c :: c in r <==> c in letters && c !in sol
    ensures |r| <= |letters|
  {
    if letters == [] then []
    else (if letters[0] in sol then [] else [letters[0]]) + Absent(letters[1..], sol)
  }

  /** NOTSOL: the letters of the alphabet that the solution word does not use. */
  function NotSol(sol: string): (r: string)
    ensures forall c :: c in r <==> c in ALPHABET && c !in sol
    ensures |r| <= 26
  {
    Absent(ALPHABET, sol)
  }

  /** The feedback grid has four rows of five cells. */
  predicate GridShape(board: seq<seq<Colour>>)
  {
    |board| == 4 && forall r :: 0 <= r < 4 ==> |board[r]| == 5
  }

  /**
   * The colour rule: may a cell in column `col` whose colour is `colour`
   * hold `letter`?  Green admits only the solution's letter of the column;
   * Yellow admits the other letters of the solution; White admits only
   * letters of the alphabet that the solution does not use.
   */
  predicate Allowed(sol: string, colour: Colour, col: nat, letter: char)
    requires col < |sol|
  {
    match colour
    case Green => letter == sol[col]
    case Yellow => letter in sol && letter != sol[col]
    case White => letter in ALPHABET && letter !in sol
  }

  /** valid_tiles[r][col]: the tiles of cell (r, col) that satisfy the colour rule. */
  function Candidates(sol: string, board: seq<seq<Colour>>, r: nat, col: nat): set<Tile>
    requires GridShape(board) && |sol| >= 5 && r < 4 && col < 5
  {
    set l | l in sol + ALPHABET && Allowed(sol, board[r][col], col, l) :: Tile(r, col, board[r][col], l)
  }

  /** valid_tiles[r]: the five candidate sets of grid row r. */
  function CandidateRow(sol: string, board: seq<seq<Colour>>, r: nat): (cells: seq<set<Tile>>)
    requires GridShape(board) && |sol| >= 5 && r < 4
    ensures |cells| == 5
  {
    [Candidates(sol, board, r, 0), Candidates(sol, board, r, 1), Candidates(sol, board, r, 2),
     Candidates(sol, board, r, 3), Candidates(sol, board, r, 4)]
  }

  // ---------------------------------------------------------------------
  // The constraints stage one logs, in the order it logs them.
  // ---------------------------------------------------------------------

  /** What one letter of the pass over the solution word logs for cell (r, col). */
  function SolStep(sol: string, colour: Colour, r: nat, col: nat, letter: char): (step: seq<Constraint>)
    requires col < |sol|
  {
    (if colour == Green then [Pos(Tile(r, col, Green, sol[col]))] else [])
    + (if colour == Yellow then [Neg(Tile(r, col, Yellow, sol[col]))] else [])
    + (if colour == Yellow && letter != sol[col] then [Pos(Tile(r, col, Yellow, letter))] else [])
  }

  /** What the pass over `letters` (a prefix of the solution word) logs for cell (r, col). */
  function SolPass(sol: string, colour: Colour, r: nat, col: nat, letters: string): seq<Constraint>
    requires col < |sol|
    decreases |letters|
  {
    if letters == [] then []
    else SolPass(sol, colour, r, col, letters[..|letters| - 1]) + SolStep(sol, colour, r, col, letters[|letters| - 1])
  }

  /** What one letter of the pass over NOTSOL logs for cell (r, col). */
  function AbsentStep(colour: Colour, r: nat, col: nat, letter: char): (step: seq<Constraint>)
  {
    [Neg(Tile(r, col, Green, letter)), Neg(Tile(r, col, Yellow, letter))]
    + (if colour == White then [Pos(Tile(r, col, White, letter))] else [])
  }

  /** What the pass over `letters` (a prefix of NOTSOL) logs for cell (r, col). */
  function AbsentPass(colour: Colour, r: nat, col: nat, letters: string): seq<Constraint>
    decreases |letters|
  {
    if letters == [] then []
    else AbsentPass(colour, r, col, letters[..|letters| - 1]) + AbsentStep(colour, r, col, letters[|letters| - 1])
  }

  /** Everything logged for cell (r, col): the pass over SOL, then the pass over NOTSOL. */
  function CellLog(sol: string, board: seq<seq<Colour>>, r: nat, col: nat): seq<Constraint>
    requires GridShape(board) && |sol| >= 5 && r < 4 && col < 5
  {
    SolPass(sol, board[r][col], r, col, sol) + AbsentPass(board[r][col], r, col, NotSol(sol))
  }

  /**
   * The cells in the order stage one visits them: the product of grid rows
   * 3 down to 0 with columns 0 to 4.  Cell n of that order is
   * (CellRow(n), CellCol(n)), and cell (r, col) comes at CellIndex(r, col).
   */
  function CellRow(n: nat): nat
    requires n < 20
  {
    3 - n / 5
  }

  function CellCol(n: nat): nat
  {
    n % 5
  }

  function CellIndex(r: nat, col: nat): nat
    requires r < 4
  {
    (3 - r) * 5 + col
  }

  /** Everything stage one logs for its first n cells: its whole log when n == 20. */
  function TileLog(sol: string, board: seq<seq<Colour>>, n: nat): seq<Constraint>
    requires GridShape(board) && |sol| >= 5 && n <= 20
  {
    if n == 0 then [] else TileLog(sol, board, n - 1) + CellLog(sol, board, CellRow(n - 1), CellCol(n - 1))
  }

  /** The tiles a log asserts. */
  function Positives(log: seq<Constraint>): set<Tile>
  {
    set c | c in log && c.Pos? :: c.tile
  }

  /** The tiles a log denies. */
  function Negatives(log: seq<Constraint>): set<Tile>
  {
    set c | c in log && c.Neg? :: c.tile
  }

  /** The tiles stage one denies: Green or Yellow with an absent letter, and Yellow with the column's own letter. */
  predicate Denied(sol: string, board: seq<seq<Colour>>, t: Tile)
    requires GridShape(board) && |sol| >= 5
  {
    t.row < 4 && t.col < 5 && t.colour != White &&
    (t.letter in NotSol(sol) || (t.colour == Yellow && board[t.row][t.col] == Yellow && t.letter == sol[t.col]))
  }

  // ---------------------------------------------------------------------
  // Lemmas
  // ---------------------------------------------------------------------

  /** The candidates of a cell are exactly its tiles, in its colour, whose letter obeys the colour rule. */
  lemma CandidatesMembers(sol: string, board: seq<seq<Colour>>, r: nat, col: nat)
    requires GridShape(board) && |sol| >= 5 && r < 4 && col < 5
    ensures forall t :: t in Candidates(sol, board, r, col) <==>
      t.row == r && t.col == col && t.colour == board[r][col] && Allowed(sol, t.colour, col, t.letter)
  {
    forall t: Tile | t.row == r && t.col == col && t.colour == board[r][col] && Allowed(sol, t.colour, col, t.letter)
      ensures t in Candidates(sol, board, r, col)
    {
      assert t.letter in sol + ALPHABET;
    }
  }

  /** Row r of valid_tiles: cell c holds exactly the tiles of (r, c), in its colour, whose letter obeys the colour rule. */
  lemma CandidateRowMembers(sol: string, board: seq<seq<Colour>>, r: nat)
    requires GridShape(board) && |sol| >= 5 && r < 4
    ensures forall c, t :: 0 <= c < 5 ==>
      (t in CandidateRow(sol, board, r)[c] <==>
       t.row == r && t.col == c && t.colour == board[r][c] && Allowed(sol, t.colour, c, t.letter))
  {
    forall c | 0 <= c < 5
      ensures forall t :: t in CandidateRow(sol, board, r)[c] <==>
        t.row == r && t.col == c && t.colour == board[r][c] && Allowed(sol, t.colour, c, t.letter)
    {
      CandidatesMembers(sol, board, r, c);
    }
  }

  /** The colour rule never allows a solution letter as White, nor an absent letter as Green or Yellow. */
  lemma AllowedSplitsLetters(sol: string, colour: Colour, col: nat, letter: char)
    requires col < |sol| && Allowed(sol, colour, col, letter)
    ensures letter in sol <==> colour != White
  {
  }

  lemma SignedAppend(a: seq<Constraint>, b: seq<Constraint>)
    ensures Positives(a + b) == Positives(a) + Positives(b)
    ensures Negatives(a + b) == Negatives(a) + Negatives(b)
  {
    forall t | t in Positives(a + b) ensures t in Positives(a) + Positives(b) {
      var c :| c in a + b && c.Pos? && c.tile == t;
    }
    forall t | t in Negatives(a + b) ensures t in Negatives(a) + Negatives(b) {
      var c :| c in a + b && c.Neg? && c.tile == t;
    }
  }

  /** What the pass over a prefix of SOL asserts and denies for a cell of colour `colour`. */
  lemma {:induction false} SolPassMembers(sol: string, colour: Colour, r: nat, col: nat, letters: string)
    requires col < |sol|
    ensures forall t :: t in Positives(SolPass(sol, colour, r, col, letters)) <==>
      t.row == r && t.col == col && t.colour == colour &&
      ((colour == Green && |letters| > 0 && t.letter == sol[col]) ||
       (colour == Yellow && t.letter in letters && t.letter != sol[col]))
    ensures forall t :: t in Negatives(SolPass(sol, colour, r, col, letters)) <==>
      colour == Yellow && |letters| > 0 && t == Tile(r, col, Yellow, sol[col])
    decreases |letters|
  {
    if letters != [] {
      var init, last := letters[..|letters| - 1], letters[|letters| - 1];
      assert letters == init + [last];
      SolPassMembers(sol, colour, r, col, init);
      SignedAppend(SolPass(sol, colour, r, col, init), SolStep(sol, colour, r, col, last));
      var step := SolStep(sol, colour, r, col, last);
      forall t ensures t in Positives(step) <==>
        t.row == r && t.col == col && t.colour == colour &&
        ((colour == Green && t.letter == sol[col]) || (colour == Yellow && t.letter == last && t.letter != sol[col]))
      {
        if t in Positives(step) {
          var c :| c in step && c.Pos? && c.tile == t;
        }
      }
      forall t ensures t in Negatives(step) <==> colour == Yellow && t == Tile(r, col, Yellow, sol[col]) {
        if t in Negatives(step) {
          var c :| c in step && c.Neg? && c.tile == t;
        }
      }
    }
  }

  /** What the pass over a prefix of NOTSOL asserts and denies for a cell of colour `colour`. */
  lemma {:induction false} AbsentPassMembers(colour: Colour, r: nat, col: nat, letters: string)
    ensures forall t :: t in Positives(AbsentPass(colour, r, col, letters)) <==>
      colour == White && t.row == r && t.col == col && t.colour == White && t.letter in letters
    ensures forall t :: t in Negatives(AbsentPass(colour, r, col, letters)) <==>
      t.row == r && t.col == col && t.colour != White && t.letter in letters
    decreases |letters|
  {
    if letters != [] {
      var init, last := letters[..|letters| - 1], letters[|letters| - 1];
      assert letters == init + [last];
      AbsentPassMembers(colour, r, col, init);
      var step := AbsentStep(colour, r, col, last);
      SignedAppend(AbsentPass(colour, r, col, init), step);
      forall t ensures t in Positives(step) <==> colour == White && t == Tile(r, col, White, last) {
        if t in Positives(step) {
          var c :| c in step && c.Pos? && c.tile == t;
        }
      }
      forall t ensures t in Negatives(step) <==> t.row == r && t.col == col && t.colour != White && t.letter == last {
        if t in Negatives(step) {
          var c :| c in step && c.Neg? && c.tile == t;
        }
        if t.row == r && t.col == col && t.colour != White && t.letter == last {
          assert Neg(t) in step;
        }
      }
    }
  }

  /** The tiles a cell's log asserts are exactly its candidates. */
  lemma CellLogPositives(sol: string, board: seq<seq<Colour>>, r: nat, col: nat)
    requires GridShape(board) && |sol| >= 5 && r < 4 && col < 5
    ensures Positives(CellLog(sol, board, r, col)) == Candidates(sol, board, r, col)
  {
    var colour := board[r][col];
    SolPassMembers(sol, colour, r, col, sol);
    AbsentPassMembers(colour, r, col, NotSol(sol));
    SignedAppend(SolPass(sol, colour, r, col, sol), AbsentPass(colour, r, col, NotSol(sol)));
    CandidatesMembers(sol, board, r, col);
    assert sol[col] in sol;
  }

  /** The tiles a cell's log denies are exactly the Denied tiles of that cell. */
  lemma CellLogNegatives(sol: string, board: seq<seq<Colour>>, r: nat, col: nat)
    requires GridShape(board) && |sol| >= 5 && r < 4 && col < 5
    ensures forall t :: t in Negatives(CellLog(sol, board, r, col)) <==>
      t.row == r && t.col == col && Denied(sol, board, t)
  {
    var colour := board[r][col];
    SolPassMembers(sol, colour, r, col, sol);
    AbsentPassMembers(colour, r, col, NotSol(sol));
    SignedAppend(SolPass(sol, colour, r, col, sol), AbsentPass(colour, r, col, NotSol(sol)));
  }

  /** Visiting order: CellIndex and (CellRow, CellCol) are inverse to each other. */
  lemma CellOrder(r: nat, col: nat, n: nat)
    requires r < 4 && col < 5 && n < 20
    ensures CellIndex(r, col) < 20
    ensures CellIndex(r, col) == n <==> r == CellRow(n) && col == CellCol(n)
  {
  }

  /** The tiles the first n cells assert are their candidates; the ones they deny are the Denied ones. */
  lemma {:induction false} TileLogMembers(sol: string, board: seq<seq<Colour>>, n: nat)
    requires GridShape(board) && |sol| >= 5 && n <= 20
    ensures forall t :: t in Positives(TileLog(sol, board, n)) <==>
      t.row < 4 && t.col < 5 && CellIndex(t.row, t.col) < n && t in Candidates(sol, board, t.row, t.col)
    ensures forall t :: t in Negatives(TileLog(sol, board, n)) <==>
      Denied(sol, board, t) && CellIndex(t.row, t.col) < n
  {
    if n > 0 {
      var r, col := CellRow(n - 1), CellCol(n - 1);
      TileLogMembers(sol, board, n - 1);
      CellLogPositives(sol, board, r, col);
      CellLogNegatives(sol, board, r, col);
      SignedAppend(TileLog(sol, board, n - 1), CellLog(sol, board, r, col));
      forall t: Tile | t.row < 4 && t.col < 5 ensures CellIndex(t.row, t.col) < n <==>
        CellIndex(t.row, t.col) < n - 1 || (t.row == r && t.col == col)
      {
        CellOrder(t.row, t.col, n - 1);
      }
    }
  }

  /** What one letter of the pass over SOL logs, colour by colour. */
  lemma SolStepCases(sol: string, colour: Colour, r: nat, col: nat, letter: char)
    requires col < |sol|
    ensures colour == Green ==>
      SolStep(sol, colour, r, col, letter) == [Pos(Tile(r, col, Green, sol[col]))] &&
      Positives(SolStep(sol, colour, r, col, letter)) == {Tile(r, col, Green, sol[col])}
    ensures colour == Yellow && letter != sol[col] ==>
      SolStep(sol, colour, r, col, letter) == [Neg(Tile(r, col, Yellow, sol[col])), Pos(Tile(r, col, Yellow, letter))] &&
      Positives(SolStep(sol, colour, r, col, letter)) == {Tile(r, col, Yellow, letter)}
    ensures colour == Yellow && letter == sol[col] ==>
      SolStep(sol, colour, r, col, letter) == [Neg(Tile(r, col, Yellow, sol[col]))] &&
      Positives(SolStep(sol, colour, r, col, letter)) == {}
    ensures colour == White ==>
      SolStep(sol, colour, r, col, letter) == [] && Positives(SolStep(sol, colour, r, col, letter)) == {}
  {
    var step := SolStep(sol, colour, r, col, letter);
    if colour == Yellow && letter != sol[col] {
      assert step == [Neg(Tile(r, col, Yellow, sol[col])), Pos(Tile(r, col, Yellow, letter))];
      assert step[1] in step;
    } else if colour == Green {
      assert step[0] in step;
    }
  }

  /** What one letter of the pass over NOTSOL logs, colour by colour. */
  lemma AbsentStepCases(colour: Colour, r: nat, col: nat, letter: char)
    ensures colour == White ==>
      AbsentStep(colour, r, col, letter) ==
        [Neg(Tile(r, col, Green, letter)), Neg(Tile(r, col, Yellow, letter)), Pos(Tile(r, col, White, letter))] &&
      Positives(AbsentStep(colour, r, col, letter)) == {Tile(r, col, White, letter)}
    ensures colour != White ==>
      AbsentStep(colour, r, col, letter) == [Neg(Tile(r, col, Green, letter)), Neg(Tile(r, col, Yellow, letter))] &&
      Positives(AbsentStep(colour, r, col, letter)) == {}
  {
    var step := AbsentStep(colour, r, col, letter);
    if colour == White {
      assert step == [Neg(Tile(r, col, Green, letter)), Neg(Tile(r, col, Yellow, letter)), Pos(Tile(r, col, White, letter))];
      assert step[2] in step;
    } else {
      assert step == [Neg(Tile(r, col, Green, letter)), Neg(Tile(r, col, Yellow, letter))];
    }
  }

  lemma {:induction false} SolPassLiterals(sol: string, colour: Colour, r: nat, col: nat, letters: string)
    requires col < |sol|
    ensures forall c :: c in SolPass(sol, colour, r, col, letters) ==> c.Pos? || c.Neg?
    decreases |letters|
  {
    if letters != [] {
      SolPassLiterals(sol, colour, r, col, letters[..|letters| - 1]);
    }
  }

  lemma {:induction false} AbsentPassLiterals(colour: Colour, r: nat, col: nat, letters: string)
    ensures forall c :: c in AbsentPass(colour, r, col, letters) ==> c.Pos? || c.Neg?
    decreases |letters|
  {
    if letters != [] {
      AbsentPassLiterals(colour, r, col, letters[..|letters| - 1]);
    }
  }

  /** Stage one logs tile literals only. */
  lemma {:induction false} TileLogLiterals(sol: string, board: seq<seq<Colour>>, n: nat)
    requires GridShape(board) && |sol| >= 5 && n <= 20
    ensures forall c :: c in TileLog(sol, board, n) ==> c.Pos? || c.Neg?
  {
    if n > 0 {
      var r, col := CellRow(n - 1), CellCol(n - 1);
      TileLogLiterals(sol, board, n - 1);
      SolPassLiterals(sol, board[r][col], r, col, sol);
      AbsentPassLiterals(board[r][col], r, col, NotSol(sol));
    }
  }

  /** A tile is asserted by a log exactly when the log holds its positive literal. */
  lemma PositiveMember(log: seq<Constraint>, t: Tile)
    ensures Pos(t) in log <==> t in Positives(log)
  {
    if t in Positives(log) {
      var c :| c in log && c.Pos? && c.tile == t;
    }
  }

  /** A tile is denied by a log exactly when the log holds its negative literal. */
  lemma NegativeMember(log: seq<Constraint>, t: Tile)
    ensures Neg(t) in log <==> t in Negatives(log)
  {
    if t in Negatives(log) {
      var c :| c in log && c.Neg? && c.tile == t;
    }
  }

  /** No tile literal is logged with both signs. */
  lemma TileLiteralsConsistent(sol: string, board: seq<seq<Colour>>, t: Tile)
    requires GridShape(board) && |sol| >= 5
    ensures !(Pos(t) in TileLog(sol, board, 20) && Neg(t) in TileLog(sol, board, 20))
  {
    var log := TileLog(sol, board, 20);
    TileLogMembers(sol, board, 20);
    PositiveMember(log, t);
    NegativeMember(log, t);
    if t.row < 4 && t.col < 5 {
      assert sol[t.col] in sol;
    }
  }

  /** The tiles asserted positively are exactly the candidate tiles of their cells. */
  lemma AssertedTilesAreCandidates(sol: string, board: seq<seq<Colour>>, t: Tile)
    requires GridShape(board) && |sol| >= 5
    ensures Pos(t) in TileLog(sol, board, 20) <==>
      t.row < 4 && t.col < 5 && t in Candidates(sol, board, t.row, t.col)
  {
    TileLogMembers(sol, board, 20);
    PositiveMember(TileLog(sol, board, 20), t);
  }

  /** The tiles denied are exactly the Denied ones. */
  lemma DeniedTilesAreLogged(sol: string, board: seq<seq<Colour>>, t: Tile)
    requires GridShape(board) && |sol| >= 5
    ensures Neg(t) in TileLog(sol, board, 20) <==> Denied(sol, board, t)
  {
    TileLogMembers(sol, board, 20);
    NegativeMember(TileLog(sol, board, 20), t);
  }

  /** In every cell, a letter absent from the solution is denied both as Green and as Yellow. */
  lemma AbsentLettersDenied(sol: string, board: seq<seq<Colour>>, r: nat, col: nat, letter: char)
    requires GridShape(board) && |sol| >= 5 && r < 4 && col < 5 && letter in NotSol(sol)
    ensures Neg(Tile(r, col, Green, letter)) in TileLog(sol, board, 20)
    ensures Neg(Tile(r, col, Yellow, letter)) in TileLog(sol, board, 20)
  {
    DeniedTilesAreLogged(sol, board, Tile(r, col, Green, letter));
    DeniedTilesAreLogged(sol, board, Tile(r, col, Yellow, letter));
  }

  /** A Yellow cell is denied its own column's solution letter as a Yellow tile. */
  lemma YellowOwnLetterDenied(sol: string, board: seq<seq<Colour>>, r: nat, col: nat)
    requires GridShape(board) && |sol| >= 5 && r < 4 && col < 5 && board[r][col] == Yellow
    ensures Neg(Tile(r, col, Yellow, sol[col])) in TileLog(sol, board, 20)
  {
    DeniedTilesAreLogged(sol, board, Tile(r, col, Yellow, sol[col]));
  }

  /** A Green cell has exactly one candidate: the Green tile with its column's solution letter. */
  lemma GreenCell(sol: string, board: seq<seq<Colour>>, r: nat, col: nat)
    requires GridShape(board) && |sol| >= 5 && r < 4 && col < 5 && board[r][col] == Green
    ensures Candidates(sol, board, r, col) == {Tile(r, col, Green, sol[col])}
  {
  }

  /** A Yellow cell holds every other solution letter as a Yellow tile, and never its own column's. */
  lemma YellowCell(sol: string, board: seq<seq<Colour>>, r: nat, col: nat, letter: char)
    requires GridShape(board) && |sol| >= 5 && r < 4 && col < 5 && board[r][col] == Yellow
    ensures Tile(r, col, Yellow, letter) in Candidates(sol, board, r, col) <==> letter in sol && letter != sol[col]
    ensures Tile(r, col, Yellow, sol[col]) !in Candidates(sol, board, r, col)
  {
  }

  /** A White cell holds exactly the letters of NOTSOL, so no letter of the solution. */
  lemma WhiteCell(sol: string, board: seq<seq<Colour>>, r: nat, col: nat, letter: char)
    requires GridShape(board) && |sol| >= 5 && r < 4 && col < 5 && board[r][col] == White
    ensures Tile(r, col, White, letter) in Candidates(sol, board, r, col) <==> letter in NotSol(sol)
    ensures letter in sol ==> Tile(r, col, White, letter) !in Candidates(sol, board, r, col)
  {
  }
}
