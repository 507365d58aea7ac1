/**
 * Stages two and three of build_theory, as sets: the valid rows of a grid
 * row (the five-way product of its candidate sets, filtered by the word
 * list) and the valid boards (the four-way product of the valid rows).
 */
module Enumeration {
  import opened Propositions
  import opened TileStage

  /** Row x is numbered `row`, takes its tiles from d0 .. d4 and spells a listed word. */
  predicate Fits(x: Row, row: nat, d0: set<Tile>, d1: set<Tile>, d2: set<Tile>, d3: set<Tile>, d4: set<Tile>,
                 words: seq<string>)
  {
    x.number == row && x.t0 in d0 && x.t1 in d1 && x.t2 in d2 && x.t3 in d3 && x.t4 in d4 && Spell(x) in words
  }

  /** valid_rows[row]: the rows built from one candidate per cell that spell a listed word. */
  function ValidRows(row: nat, cells: seq<set<Tile>>, words: seq<string>): (s: set<Row>)
    requires |cells| == 5
    ensures forall x :: x in s <==> Fits(x, row, cells[0], cells[1], cells[2], cells[3], cells[4], words)
  {
    set t0, t1, t2, t3, t4 |
      t0 in cells[0] && t1 in cells[1] && t2 in cells[2] && t3 in cells[3] && t4 in cells[4] &&
      [t0.letter, t1.letter, t2.letter, t3.letter, t4.letter] in words
      :: Row(row, t0, t1, t2, t3, t4)
  }

  /**
   * Row x is numbered `row`, begins with the tiles `prefix`, takes each of
   * its other tiles from the candidate set of its column and spells a
   * listed word: one of the rows the enumeration still reaches once the
   * tiles of `prefix` are chosen.
   */
  predicate Extends(x: Row, row: nat, prefix: seq<Tile>, cells: seq<set<Tile>>, words: seq<string>)
    requires |cells| == 5
  {
    x.number == row && |prefix| <= 5 &&
    (forall i :: 0 <= i < |prefix| ==> Tiles(x)[i] == prefix[i]) &&
    (forall i :: |prefix| <= i < 5 ==> Tiles(x)[i] in cells[i]) &&
    Spell(x) in words
  }

  /** Board b takes its four rows from d0 .. d3. */
  predicate Picks(b: Board, d0: set<Row>, d1: set<Row>, d2: set<Row>, d3: set<Row>)
  {
    b.row1 in d0 && b.row2 in d1 && b.row3 in d2 && b.row4 in d3
  }

  /** valid_boards: one valid row per row index, in every combination. */
  function ValidBoards(rows: seq<set<Row>>): (s: set<Board>)
    requires |rows| == 4
    ensures forall b :: b in s <==> Picks(b, rows[0], rows[1], rows[2], rows[3])
  {
    set r1, r2, r3, r4 | r1 in rows[0] && r2 in rows[1] && r3 in rows[2] && r4 in rows[3]
      :: Board(r1, r2, r3, r4)
  }

  /**
   * Board b begins with the rows `prefix` and takes each of its other rows
   * from the valid rows of that row index: one of the boards the product
   * still reaches once the rows of `prefix` are chosen.
   */
  predicate Completes(b: Board, prefix: seq<Row>, rows: seq<set<Row>>)
    requires |rows| == 4
  {
    |prefix| <= 4 &&
    (forall i :: 0 <= i < |prefix| ==> Rows(b)[i] == prefix[i]) &&
    (forall i :: |prefix| <= i < 4 ==> Rows(b)[i] in rows[i])
  }

  /** The row of grid row r whose tiles carry the given colours and spell w. */
  function Lay(r: nat, colours: seq<Colour>, w: string): Row
    requires |colours| == 5 && |w| == 5
  {
    Row(r, Tile(r, 0, colours[0], w[0]), Tile(r, 1, colours[1], w[1]), Tile(r, 2, colours[2], w[2]),
        Tile(r, 3, colours[3], w[3]), Tile(r, 4, colours[4], w[4]))
  }

  /** Word w obeys the colour rule in each of its five positions. */
  predicate Obeys(sol: string, colours: seq<Colour>, w: string)
    requires |sol| >= 5 && |colours| == 5
  {
    |w| == 5 && forall i :: 0 <= i < 5 ==> Allowed(sol, colours[i], i, w[i])
  }

  // ---------------------------------------------------------------------
  // Lemmas
  // ---------------------------------------------------------------------

  /** With nothing chosen yet, the rows still reached are the valid rows. */
  lemma ExtendsNone(x: Row, row: nat, cells: seq<set<Tile>>, words: seq<string>)
    requires |cells| == 5
    ensures Extends(x, row, [], cells, words) <==> x in ValidRows(row, cells, words)
  {
    if x in ValidRows(row, cells, words) {
      forall i | 0 <= i < 5 ensures Tiles(x)[i] in cells[i] {
        // One empty case per index: the prover unfolds the sequence display only at a concrete position.
        if i == 0 {} else if i == 1 {} else if i == 2 {} else if i == 3 {} else {}
      }
    }
  }

  /** Choosing tile t for the next column keeps exactly the rows that have t there. */
  lemma ExtendsOne(x: Row, row: nat, prefix: seq<Tile>, t: Tile, cells: seq<set<Tile>>, words: seq<string>)
    requires |cells| == 5 && |prefix| < 5 && t in cells[|prefix|]
    ensures Extends(x, row, prefix + [t], cells, words) <==>
      Extends(x, row, prefix, cells, words) && Tiles(x)[|prefix|] == t
  {
    var k := |prefix|;
    if Extends(x, row, prefix, cells, words) && Tiles(x)[k] == t {
      forall i | 0 <= i < k + 1 ensures Tiles(x)[i] == (prefix + [t])[i] {
        if i < k {} else {}
      }
    }
    if Extends(x, row, prefix + [t], cells, words) {
      forall i | 0 <= i < k ensures Tiles(x)[i] == prefix[i] {
        assert (prefix + [t])[i] == prefix[i];
      }
      assert Tiles(x)[k] == (prefix + [t])[k];
    }
  }

  /** With all five tiles chosen, the row is reached exactly when it spells a listed word. */
  lemma ExtendsFull(x: Row, row: nat, prefix: seq<Tile>, cells: seq<set<Tile>>, words: seq<string>)
    requires |cells| == 5 && |prefix| == 5
    ensures Extends(x, row, prefix, cells, words) <==>
      x == Row(row, prefix[0], prefix[1], prefix[2], prefix[3], prefix[4]) &&
      [prefix[0].letter, prefix[1].letter, prefix[2].letter, prefix[3].letter, prefix[4].letter] in words
  {
    if Extends(x, row, prefix, cells, words) {
      assert Tiles(x)[0] == prefix[0] && Tiles(x)[1] == prefix[1] && Tiles(x)[2] == prefix[2];
      assert Tiles(x)[3] == prefix[3] && Tiles(x)[4] == prefix[4];
    }
    if x == Row(row, prefix[0], prefix[1], prefix[2], prefix[3], prefix[4]) {
      assert Tiles(x) == prefix;
    }
  }

  /** With nothing chosen yet, the boards still reached are the valid boards. */
  lemma CompletesNone(b: Board, rows: seq<set<Row>>)
    requires |rows| == 4
    ensures Completes(b, [], rows) <==> b in ValidBoards(rows)
  {
    if b in ValidBoards(rows) {
      forall i | 0 <= i < 4 ensures Rows(b)[i] in rows[i] {
        // One empty case per index: the prover unfolds the sequence display only at a concrete position.
        if i == 0 {} else if i == 1 {} else if i == 2 {} else {}
      }
    }
  }

  /** Choosing row x for the next index keeps exactly the boards that have x there. */
  lemma CompletesOne(b: Board, prefix: seq<Row>, x: Row, rows: seq<set<Row>>)
    requires |rows| == 4 && |prefix| < 4 && x in rows[|prefix|]
    ensures Completes(b, prefix + [x], rows) <==> Completes(b, prefix, rows) && Rows(b)[|prefix|] == x
  {
    var k := |prefix|;
    if Completes(b, prefix, rows) && Rows(b)[k] == x {
      forall i | 0 <= i < k + 1 ensures Rows(b)[i] == (prefix + [x])[i] {
        if i < k {} else {}
      }
    }
    if Completes(b, prefix + [x], rows) {
      forall i | 0 <= i < k ensures Rows(b)[i] == prefix[i] {
        assert (prefix + [x])[i] == prefix[i];
      }
      assert Rows(b)[k] == (prefix + [x])[k];
    }
  }

  /** With all four rows chosen, the only board reached is the one made of them. */
  lemma CompletesFull(b: Board, prefix: seq<Row>, rows: seq<set<Row>>)
    requires |rows| == 4 && |prefix| == 4
    ensures Completes(b, prefix, rows) <==> b == Board(prefix[0], prefix[1], prefix[2], prefix[3])
  {
    if Completes(b, prefix, rows) {
      assert Rows(b)[0] == prefix[0] && Rows(b)[1] == prefix[1];
      assert Rows(b)[2] == prefix[2] && Rows(b)[3] == prefix[3];
    }
    if b == Board(prefix[0], prefix[1], prefix[2], prefix[3]) {
      assert Rows(b) == prefix;
    }
  }

  /** There is no valid board exactly when some row index has no valid row. */
  lemma NoBoardsIffSomeRowEmpty(rows: seq<set<Row>>)
    requires |rows| == 4
    ensures ValidBoards(rows) == {} <==> (rows[0] == {} || rows[1] == {} || rows[2] == {} || rows[3] == {})
  {
    if rows[0] != {} && rows[1] != {} && rows[2] != {} && rows[3] != {} {
      var r1 :| r1 in rows[0];
      var r2 :| r2 in rows[1];
      var r3 :| r3 in rows[2];
      var r4 :| r4 in rows[3];
      assert Board(r1, r2, r3, r4) in ValidBoards(rows);
    }
  }

  /**
   * Soundness of the row enumerator: every valid row of grid row r is the
   * listed word it spells, laid out in the row's colours, and that word
   * obeys the colour rule in every column.
   */
  lemma RowsAreObeyingWords(sol: string, board: seq<seq<Colour>>, words: seq<string>, r: nat, x: Row)
    requires GridShape(board) && |sol| >= 5 && r < 4
    requires x in ValidRows(r, CandidateRow(sol, board, r), words)
    ensures Spell(x) in words && Obeys(sol, board[r], Spell(x))
    ensures x == Lay(r, board[r], Spell(x))
  {
    var w := Spell(x);
    assert x.t0 in Candidates(sol, board, r, 0);
    assert x.t1 in Candidates(sol, board, r, 1);
    assert x.t2 in Candidates(sol, board, r, 2);
    assert x.t3 in Candidates(sol, board, r, 3);
    assert x.t4 in Candidates(sol, board, r, 4);
    forall i | 0 <= i < 5 ensures Allowed(sol, board[r][i], i, w[i]) {
      // One empty case per index: the prover unfolds the sequence display only at a concrete position.
      if i == 0 {} else if i == 1 {} else if i == 2 {} else if i == 3 {} else {}
    }
  }

  /** Completeness of the row enumerator: every listed word obeying the colour rule yields a valid row. */
  lemma ObeyingWordsAreRows(sol: string, board: seq<seq<Colour>>, words: seq<string>, r: nat, w: string)
    requires GridShape(board) && |sol| >= 5 && r < 4
    requires w in words && Obeys(sol, board[r], w)
    ensures Lay(r, board[r], w) in ValidRows(r, CandidateRow(sol, board, r), words)
    ensures Spell(Lay(r, board[r], w)) == w
  {
    var x := Lay(r, board[r], w);
    assert Allowed(sol, board[r][0], 0, w[0]) && Allowed(sol, board[r][1], 1, w[1]) &&
           Allowed(sol, board[r][2], 2, w[2]) && Allowed(sol, board[r][3], 3, w[3]) &&
           Allowed(sol, board[r][4], 4, w[4]);
    assert Spell(x) == w;
  }

  /** A fully Green grid row resolves only to the solution word, and only if it is listed. */
  lemma GreenRowIsSolution(sol: string, board: seq<seq<Colour>>, words: seq<string>, r: nat, x: Row)
    requires GridShape(board) && |sol| >= 5 && r < 4
    requires forall i :: 0 <= i < 5 ==> board[r][i] == Green
    ensures x in ValidRows(r, CandidateRow(sol, board, r), words) <==>
      sol[..5] in words && x == Lay(r, board[r], sol[..5])
  {
    if x in ValidRows(r, CandidateRow(sol, board, r), words) {
      RowsAreObeyingWords(sol, board, words, r, x);
      var w := Spell(x);
      assert w == sol[..5] by {
        forall i | 0 <= i < 5 ensures w[i] == sol[i] {
          assert Allowed(sol, board[r][i], i, w[i]);
        }
      }
    }
    if sol[..5] in words {
      ObeyingWordsAreRows(sol, board, words, r, sol[..5]);
    }
  }

  /** A fully Yellow grid row resolves to the listed words made of solution letters, none in its own column. */
  lemma YellowRowIsShiftedLetters(sol: string, board: seq<seq<Colour>>, words: seq<string>, r: nat, w: string)
    requires GridShape(board) && |sol| >= 5 && r < 4
    requires forall i :: 0 <= i < 5 ==> board[r][i] == Yellow
    ensures (w in words && |w| == 5 && Lay(r, board[r], w) in ValidRows(r, CandidateRow(sol, board, r), words)) <==>
      (w in words && |w| == 5 && forall i :: 0 <= i < 5 ==> w[i] in sol && w[i] != sol[i])
  {
    if w in words && |w| == 5 && Lay(r, board[r], w) in ValidRows(r, CandidateRow(sol, board, r), words) {
      RowsAreObeyingWords(sol, board, words, r, Lay(r, board[r], w));
      assert Spell(Lay(r, board[r], w)) == w;
      forall i | 0 <= i < 5 ensures w[i] in sol && w[i] != sol[i] {
        assert Allowed(sol, board[r][i], i, w[i]);
      }
    }
    if w in words && |w| == 5 && forall i :: 0 <= i < 5 ==> w[i] in sol && w[i] != sol[i] {
      ObeyingWordsAreRows(sol, board, words, r, w);
    }
  }

  /** With an empty word list there is no valid row, hence no valid board. */
  lemma EmptyWordListNoBoards(rows: seq<set<Row>>, cells: seq<seq<set<Tile>>>)
    requires |rows| == 4 && |cells| == 4 && forall i :: 0 <= i < 4 ==> |cells[i]| == 5
    requires forall i :: 0 <= i < 4 ==> rows[i] == ValidRows(i, cells[i], [])
    ensures forall i :: 0 <= i < 4 ==> rows[i] == {}
    ensures ValidBoards(rows) == {}
  {
    NoBoardsIffSomeRowEmpty(rows);
  }
}
