/**
 * build_theory as the program runs it: the module-level accumulators
 * (valid_tiles, valid_rows, valid_boards and the encoding E) are the
 * fields of a Theory object, and each of the three stages is a method
 * whose loops fill them in place.
 */
module Unwordle {
  import opened Propositions
  import opened TileStage
  import opened Enumeration

  datatype Result<T> = Ok(value: T) | Err(message: string)

  /** The segment holds the implication of every row of `rows`, and nothing else. */
  ghost predicate RowRulesFor(seg: seq<Constraint>, rows: seq<set<Row>>)
  {
    forall c :: c in seg <==>
      c.RowRule? && c.tiles == Tiles(c.row) && c.row.number < |rows| && c.row in rows[c.row.number]
  }

  /** The segment holds the implication of every board of `boards`, and nothing else. */
  ghost predicate BoardRulesFor(seg: seq<Constraint>, boards: set<Board>)
  {
    forall c :: c in seg <==> c.BoardRule? && c.rows == Rows(c.board) && c.board in boards
  }

  /**
   * The encoding is the tile literals `tiles`, then the implications of the
   * rows of `rows`, then the implications of the boards of `boards`.
   */
  ghost predicate Layered(tiles: seq<Constraint>, log: seq<Constraint>, rows: seq<set<Row>>, boards: set<Board>)
  {
    tiles <= log &&
    exists m :: |tiles| <= m <= |log| && RowRulesFor(log[|tiles|..m], rows) && BoardRulesFor(log[m..], boards)
  }

  /** What a layered encoding holds, constraint by constraint. */
  lemma LayeredMembers(tiles: seq<Constraint>, log: seq<Constraint>, rows: seq<set<Row>>, boards: set<Board>, c: Constraint)
    requires Layered(tiles, log, rows, boards)
    ensures c in log <==>
      c in tiles ||
      (c.RowRule? && c.tiles == Tiles(c.row) && c.row.number < |rows| && c.row in rows[c.row.number]) ||
      (c.BoardRule? && c.rows == Rows(c.board) && c.board in boards)
  {
    var m :| |tiles| <= m <= |log| && RowRulesFor(log[|tiles|..m], rows) && BoardRulesFor(log[m..], boards);
    assert log == tiles + log[|tiles|..m] + log[m..];
  }

  lemma AppendAssoc(a: seq<Constraint>, b: seq<Constraint>, c: seq<Constraint>)
    ensures a + (b + c) == a + b + c
  {
  }

  /** The first n cells of the visiting order hold their candidates; the others are still empty. */
  ghost predicate FilledUpTo(g: seq<seq<set<Tile>>>, sol: string, board: seq<seq<Colour>>, n: nat)
    requires GridShape(board) && |sol| >= 5
  {
    |g| == 4 && (forall i :: 0 <= i < 4 ==> |g[i]| == 5) &&
    forall i, j :: 0 <= i < 4 && 0 <= j < 5 ==>
      g[i][j] == if CellIndex(i, j) < n then Candidates(sol, board, i, j) else {}
  }

  /** Filling cell n of the visiting order, which is still empty, extends the filled prefix by one. */
  lemma FillNext(g: seq<seq<set<Tile>>>, sol: string, board: seq<seq<Colour>>, n: nat)
    requires GridShape(board) && |sol| >= 5 && n < 20 && FilledUpTo(g, sol, board, n)
    ensures g[CellRow(n)][CellCol(n)] == {}
    ensures FilledUpTo(g[CellRow(n) := g[CellRow(n)][CellCol(n) := Candidates(sol, board, CellRow(n), CellCol(n))]],
                       sol, board, n + 1)
  {
    var r, col := CellRow(n), CellCol(n);
    CellOrder(r, col, n);
    var g' := g[r := g[r][col := Candidates(sol, board, r, col)]];
    forall i, j | 0 <= i < 4 && 0 <= j < 5
      ensures g'[i][j] == if CellIndex(i, j) < n + 1 then Candidates(sol, board, i, j) else {}
    {
      CellOrder(i, j, n);
    }
  }

  /** Once all twenty cells are filled, each grid row holds its candidate row. */
  lemma FilledGrid(g: seq<seq<set<Tile>>>, sol: string, board: seq<seq<Colour>>)
    requires GridShape(board) && |sol| >= 5 && FilledUpTo(g, sol, board, 20)
    ensures forall r :: 0 <= r < 4 ==> g[r] == CandidateRow(sol, board, r)
  {
    forall r | 0 <= r < 4 ensures g[r] == CandidateRow(sol, board, r) {
      forall j | 0 <= j < 5 ensures g[r][j] == CandidateRow(sol, board, r)[j] {
        CellOrder(r, j, 0);
      }
    }
  }

  /** The first n + 1 cells log what the first n log, then what cell n logs. */
  lemma TileLogNext(sol: string, board: seq<seq<Colour>>, n: nat, prefix: seq<Constraint>)
    requires GridShape(board) && |sol| >= 5 && n < 20
    ensures prefix + TileLog(sol, board, n) + CellLog(sol, board, CellRow(n), CellCol(n)) ==
      prefix + TileLog(sol, board, n + 1)
  {
    AppendAssoc(prefix, TileLog(sol, board, n), CellLog(sol, board, CellRow(n), CellCol(n)));
  }

  /** What a log gained since a is what it gained up to b, followed by what it gained after b. */
  lemma SliceSplit(a: seq<Constraint>, b: seq<Constraint>, c: seq<Constraint>)
    requires a <= b <= c
    ensures forall x :: x in c[|a|..] <==> x in b[|a|..] || x in c[|b|..]
  {
    assert c[|a|..] == b[|a|..] + c[|b|..];
  }

  /** Two successive unions into one cell of the grid add their union. */
  lemma AddToCell(g: seq<seq<set<Tile>>>, r: nat, col: nat, a: set<Tile>, b: set<Tile>)
    requires r < |g| && col < |g[r]|
    ensures var g1 := g[r := g[r][col := g[r][col] + a]];
      g1[r := g1[r][col := g1[r][col] + b]] == g[r := g[r][col := g[r][col] + (a + b)]]
  {
    var g1 := g[r := g[r][col := g[r][col] + a]];
    assert g1[r][col] + b == g[r][col] + (a + b);
    assert g1[r][col := g1[r][col] + b] == g[r][col := g[r][col] + (a + b)];
  }

  /** A union of nothing into one cell leaves the grid as it was. */
  lemma AddNothing(g: seq<seq<set<Tile>>>, r: nat, col: nat)
    requires r < |g| && col < |g[r]|
    ensures g[r := g[r][col := g[r][col] + Positives([])]] == g
  {
    assert Positives([]) == {};
    assert g[r][col] + Positives([]) == g[r][col];
    assert g[r][col := g[r][col] + Positives([])] == g[r];
  }

  /** A union of the empty set into one cell leaves the grid as it was. */
  lemma AddEmpty(g: seq<seq<set<Tile>>>, r: nat, col: nat, a: set<Tile>)
    requires r < |g| && col < |g[r]| && a == {}
    ensures g[r := g[r][col := g[r][col] + a]] == g
  {
    assert g[r][col] + a == g[r][col];
    assert g[r][col := g[r][col] + a] == g[r];
  }

  lemma Snoc2(p: seq<Constraint>, a: Constraint, b: Constraint)
    ensures p + [a] + [b] == p + [a, b]
  {
  }

  lemma Snoc3(p: seq<Constraint>, a: Constraint, b: Constraint, c: Constraint)
    ensures p + [a] + [b] + [c] == p + [a, b, c]
  {
  }

  /** Two unions into an empty cell of the grid fill it with the union of both. */
  lemma FillTwice(g: seq<seq<set<Tile>>>, r: nat, col: nat, a: set<Tile>, b: set<Tile>)
    requires r < |g| && col < |g[r]| && g[r][col] == {}
    ensures var g1 := g[r := g[r][col := g[r][col] + a]];
      g1[r := g1[r][col := g1[r][col] + b]] == g[r := g[r][col := a + b]]
  {
    var g1 := g[r := g[r][col := g[r][col] + a]];
    assert g1[r][col] + b == a + b;
    assert g1[r][col := g1[r][col] + b] == g[r][col := a + b];
  }

  /**
   * The module state of the program: the inputs SOL, BOARD and WORDS, the
   * derived NOTSOL, and the accumulators that build_theory fills in place.
   */
  class Theory {
    const sol: string
    const notSol: string
    const board: seq<seq<Colour>>
    const words: seq<string>

    var validTiles: seq<seq<set<Tile>>>
    var validRows: seq<set<Row>>
    var validBoards: set<Board>
    /** The encoding E: every constraint added to it, in order. */
    var log: seq<Constraint>

    /** The grid is 4 × 5, NOTSOL is derived from SOL and the accumulators have their fixed shapes. */
    ghost predicate Valid()
      reads this
    {
      GridShape(board) && notSol == NotSol(sol) &&
      |validTiles| == 4 && (forall r :: 0 <= r < 4 ==> |validTiles[r]| == 5) &&
      |validRows| == 4
    }

    /** The state build_theory leaves behind. */
    ghost predicate Built()
      reads this
    {
      Valid() && |sol| >= 5 &&
      (forall r :: 0 <= r < 4 ==> validTiles[r] == CandidateRow(sol, board, r)) &&
      (forall r :: 0 <= r < 4 ==> validRows[r] == ValidRows(r, validTiles[r], words)) &&
      validBoards == ValidBoards(validRows) &&
      Layered(TileLog(sol, board, 20), log, validRows, validBoards)
    }

    /** The module-level start state: NOTSOL computed, every accumulator empty. */
    constructor (sol: string, board: seq<seq<Colour>>, words: seq<string>)
      requires GridShape(board)
      ensures Valid() && this.sol == sol && this.board == board && this.words == words
      ensures forall r, c :: 0 <= r < 4 && 0 <= c < 5 ==> validTiles[r][c] == {}
      ensures validRows == [{}, {}, {}, {}] && validBoards == {} && log == []
    {
      this.sol := sol;
      this.notSol := NotSol(sol);
      this.board := board;
      this.words := words;
      var none: set<Tile> := {};
      validTiles := [[none, none, none, none, none], [none, none, none, none, none],
                     [none, none, none, none, none], [none, none, none, none, none]];
      validRows := [{}, {}, {}, {}];
      validBoards := {};
      log := [];
    }

    /**
     * Stage one: for every cell, taken in the order of the product of grid
     * rows 3 down to 0 with columns 0 to 4, a pass over the letters of SOL
     * and a pass over NOTSOL fill the cell's candidate set and log its tile
     * literals.
     */
    method BuildTiles()
      requires Valid() && |sol| >= 5
      requires forall r, c :: 0 <= r < 4 && 0 <= c < 5 ==> validTiles[r][c] == {}
      modifies this`validTiles, this`log
      ensures Valid()
      ensures forall r :: 0 <= r < 4 ==> validTiles[r] == CandidateRow(sol, board, r)
      ensures log == old(log) + TileLog(sol, board, 20)
    {
      for n := 0 to 20
        invariant Valid()
        invariant log == old(log) + TileLog(sol, board, n)
        invariant FilledUpTo(validTiles, sol, board, n)
      {
        var r, col := CellRow(n), CellCol(n);
        FillNext(validTiles, sol, board, n);
        TileLogNext(sol, board, n, old(log));
        BuildCell(r, col);
      }
      FilledGrid(validTiles, sol, board);
    }

    /** One cell of stage one: the pass over SOL, then the pass over NOTSOL. */
    method BuildCell(r: nat, col: nat)
      requires Valid() && |sol| >= 5 && r < 4 && col < 5 && validTiles[r][col] == {}
      modifies this`validTiles, this`log
      ensures Valid()
      ensures validTiles == old(validTiles)[r := old(validTiles)[r][col := Candidates(sol, board, r, col)]]
      ensures log == old(log) + CellLog(sol, board, r, col)
    {
      var colour := board[r][col];
      ghost var solLog, absentLog := SolPass(sol, colour, r, col, sol), AbsentPass(colour, r, col, notSol);
      PassSol(r, col);
      PassNotSol(r, col);
      assert CellLog(sol, board, r, col) == solLog + absentLog;
      AppendAssoc(old(log), solLog, absentLog);
      SignedAppend(solLog, absentLog);
      CellLogPositives(sol, board, r, col);
      assert Positives(solLog) + Positives(absentLog) == Candidates(sol, board, r, col);
      FillTwice(old(validTiles), r, col, Positives(solLog), Positives(absentLog));
    }

    /** The pass over the letters of SOL for cell (r, col). */
    method PassSol(r: nat, col: nat)
      requires Valid() && |sol| >= 5 && r < 4 && col < 5
      modifies this`validTiles, this`log
      ensures Valid()
      ensures validTiles == old(validTiles)[r := old(validTiles)[r][col :=
        old(validTiles)[r][col] + Positives(SolPass(sol, board[r][col], r, col, sol))]]
      ensures log == old(log) + SolPass(sol, board[r][col], r, col, sol)
    {
      ghost var grid := validTiles;
      ghost var seg: seq<Constraint> := [];
      var colour := board[r][col];
      AddNothing(grid, r, col);
      for k := 0 to |sol|
        invariant Valid() && log == old(log) + seg
        invariant seg == SolPass(sol, colour, r, col, sol[..k])
        invariant validTiles == grid[r := grid[r][col := grid[r][col] + Positives(seg)]]
      {
        ghost var step := SolStep(sol, colour, r, col, sol[k]);
        AddToCell(grid, r, col, Positives(seg), Positives(step));
        SignedAppend(seg, step);
        AppendAssoc(old(log), seg, step);
        SolLetter(r, col, sol[k]);
        seg := seg + step;
        assert sol[..k + 1][..k] == sol[..k];
      }
      assert sol[..|sol|] == sol;
    }

    /** One letter of the pass over SOL for cell (r, col). */
    method SolLetter(r: nat, col: nat, letter: char)
      requires Valid() && |sol| >= 5 && r < 4 && col < 5
      modifies this`validTiles, this`log
      ensures Valid()
      ensures validTiles == old(validTiles)[r := old(validTiles)[r][col :=
        old(validTiles)[r][col] + Positives(SolStep(sol, board[r][col], r, col, letter))]]
      ensures log == old(log) + SolStep(sol, board[r][col], r, col, letter)
    {
      var colour := board[r][col];
      SolStepCases(sol, colour, r, col, letter);
      if colour == Green {
        var t := Tile(r, col, Green, sol[col]);
        log := log + [Pos(t)];
        validTiles := validTiles[r := validTiles[r][col := validTiles[r][col] + {t}]];
      }
      if colour == Yellow {
        log := log + [Neg(Tile(r, col, Yellow, sol[col]))];
      }
      if colour == Yellow && letter != sol[col] {
        var t := Tile(r, col, Yellow, letter);
        log := log + [Pos(t)];
        validTiles := validTiles[r := validTiles[r][col := validTiles[r][col] + {t}]];
        Snoc2(old(log), Neg(Tile(r, col, Yellow, sol[col])), Pos(t));
      }
      if colour == White || (colour == Yellow && letter == sol[col]) {
        AddEmpty(old(validTiles), r, col, Positives(SolStep(sol, colour, r, col, letter)));
      }
    }

    /** The pass over the letters of NOTSOL for cell (r, col). */
    method PassNotSol(r: nat, col: nat)
      requires Valid() && r < 4 && col < 5
      modifies this`validTiles, this`log
      ensures Valid()
      ensures validTiles == old(validTiles)[r := old(validTiles)[r][col :=
        old(validTiles)[r][col] + Positives(AbsentPass(board[r][col], r, col, notSol))]]
      ensures log == old(log) + AbsentPass(board[r][col], r, col, notSol)
    {
      ghost var grid := validTiles;
      ghost var seg: seq<Constraint> := [];
      var colour := board[r][col];
      AddNothing(grid, r, col);
      for k := 0 to |notSol|
        invariant Valid() && log == old(log) + seg
        invariant seg == AbsentPass(colour, r, col, notSol[..k])
        invariant validTiles == grid[r := grid[r][col := grid[r][col] + Positives(seg)]]
      {
        ghost var step := AbsentStep(colour, r, col, notSol[k]);
        AddToCell(grid, r, col, Positives(seg), Positives(step));
        SignedAppend(seg, step);
        AppendAssoc(old(log), seg, step);
        AbsentLetter(r, col, notSol[k]);
        seg := seg + step;
        assert notSol[..k + 1][..k] == notSol[..k];
      }
      assert notSol[..|notSol|] == notSol;
    }

    /** One letter of the pass over NOTSOL for cell (r, col). */
    method AbsentLetter(r: nat, col: nat, letter: char)
      requires Valid() && r < 4 && col < 5
      modifies this`validTiles, this`log
      ensures Valid()
      ensures validTiles == old(validTiles)[r := old(validTiles)[r][col :=
        old(validTiles)[r][col] + Positives(AbsentStep(board[r][col], r, col, letter))]]
      ensures log == old(log) + AbsentStep(board[r][col], r, col, letter)
    {
      var colour := board[r][col];
      var green, yellow := Tile(r, col, Green, letter), Tile(r, col, Yellow, letter);
      AbsentStepCases(colour, r, col, letter);
      log := log + [Neg(green)];
      log := log + [Neg(yellow)];
      if colour == White {
        var t := Tile(r, col, White, letter);
        log := log + [Pos(t)];
        validTiles := validTiles[r := validTiles[r][col := validTiles[r][col] + {t}]];
        Snoc3(old(log), Neg(green), Neg(yellow), Pos(t));
      } else {
        Snoc2(old(log), Neg(green), Neg(yellow));
        AddEmpty(old(validTiles), r, col, Positives(AbsentStep(colour, r, col, letter)));
      }
    }

    /**
     * Stage two: for each grid row, every choice of one candidate tile per
     * column whose letters spell a listed word becomes a valid row, and its
     * implication is logged.
     */
    method BuildRows()
      requires Valid() && validRows == [{}, {}, {}, {}]
      modifies this`validRows, this`log
      ensures Valid()
      ensures forall r :: 0 <= r < 4 ==> validRows[r] == ValidRows(r, validTiles[r], words)
      ensures old(log) <= log && RowRulesFor(log[|old(log)|..], validRows)
    {
      for row := 0 to 4
        invariant Valid()
        invariant forall r :: 0 <= r < 4 ==> validRows[r] == if r < row then ValidRows(r, validTiles[r], words) else {}
        invariant old(log) <= log && RowRulesFor(log[|old(log)|..], validRows)
      {
        ghost var log1, rows1 := log, validRows;
        Combine(row, []);
        forall x ensures x in validRows[row] <==> x in ValidRows(row, validTiles[row], words) {
          ExtendsNone(x, row, validTiles[row], words);
        }
        SliceSplit(old(log), log1, log);
        assert RowRulesFor(log[|old(log)|..], validRows) by {
          forall c ensures c in log[|old(log)|..] <==>
            c.RowRule? && c.tiles == Tiles(c.row) && c.row.number < 4 && c.row in validRows[c.row.number]
          {
            if c.RowRule? {
              ExtendsNone(c.row, row, validTiles[row], words);
            }
          }
        }
      }
    }

    /**
     * The loops of stage two from column |prefix| on, once the tiles of
     * `prefix` are chosen for grid row `row`: one nested loop per column
     * still open, and the word test when all five are chosen.
     */
    method Combine(row: nat, prefix: seq<Tile>)
      requires Valid() && row < 4 && |prefix| <= 5
      modifies this`validRows, this`log
      ensures Valid()
      ensures forall i :: 0 <= i < 4 && i != row ==> validRows[i] == old(validRows)[i]
      ensures forall x :: x in validRows[row] <==>
        x in old(validRows)[row] || Extends(x, row, prefix, validTiles[row], words)
      ensures old(log) <= log
      ensures forall c :: c in log[|old(log)|..] <==>
        c.RowRule? && c.tiles == Tiles(c.row) && Extends(c.row, row, prefix, validTiles[row], words)
      decreases 5 - |prefix|
    {
      if |prefix| == 5 {
        var x := Row(row, prefix[0], prefix[1], prefix[2], prefix[3], prefix[4]);
        var potWord := [prefix[0].letter, prefix[1].letter, prefix[2].letter, prefix[3].letter, prefix[4].letter];
        forall y ensures Extends(y, row, prefix, validTiles[row], words) <==> y == x && potWord in words {
          ExtendsFull(y, row, prefix, validTiles[row], words);
        }
        if potWord in words {
          log := log + [RowRule(Tiles(x), x)];
          validRows := validRows[row := validRows[row] + {x}];
        }
        assert log[|old(log)|..] == if potWord in words then [RowRule(Tiles(x), x)] else [];
      } else {
        var k := |prefix|;
        var rest := validTiles[row][k];
        while rest != {}
          invariant Valid() && rest <= validTiles[row][k]
          invariant forall i :: 0 <= i < 4 && i != row ==> validRows[i] == old(validRows)[i]
          invariant forall x :: x in validRows[row] <==>
            x in old(validRows)[row] || (Extends(x, row, prefix, validTiles[row], words) && Tiles(x)[k] !in rest)
          invariant old(log) <= log
          invariant forall c :: c in log[|old(log)|..] <==>
            c.RowRule? && c.tiles == Tiles(c.row) &&
            Extends(c.row, row, prefix, validTiles[row], words) && Tiles(c.row)[k] !in rest
          decreases rest
        {
          var t :| t in rest;
          ghost var log1 := log;
          forall x ensures Extends(x, row, prefix + [t], validTiles[row], words) <==>
            Extends(x, row, prefix, validTiles[row], words) && Tiles(x)[k] == t
          {
            ExtendsOne(x, row, prefix, t, validTiles[row], words);
          }
          Combine(row, prefix + [t]);
          SliceSplit(old(log), log1, log);
          rest := rest - {t};
        }
      }
    }

    /**
     * Stage three: every combination of one valid row per row index becomes
     * a valid board, and its implication is logged.
     */
    method BuildBoards()
      requires Valid() && validBoards == {}
      modifies this`validBoards, this`log
      ensures Valid()
      ensures validBoards == ValidBoards(validRows)
      ensures old(log) <= log && BoardRulesFor(log[|old(log)|..], validBoards)
    {
      CombineBoards([]);
      forall b ensures b in validBoards <==> b in ValidBoards(validRows) {
        CompletesNone(b, validRows);
      }
      forall c ensures c in log[|old(log)|..] <==> c.BoardRule? && c.rows == Rows(c.board) && c.board in validBoards {
        if c.BoardRule? {
          CompletesNone(c.board, validRows);
        }
      }
    }

    /**
     * The product of the valid rows from index |prefix| on, once the rows of
     * `prefix` are chosen: one nested loop per index still open, and the
     * board itself when all four are chosen.
     */
    method CombineBoards(prefix: seq<Row>)
      requires Valid() && |prefix| <= 4
      modifies this`validBoards, this`log
      ensures Valid()
      ensures forall b :: b in validBoards <==> b in old(validBoards) || Completes(b, prefix, validRows)
      ensures old(log) <= log
      ensures forall c :: c in log[|old(log)|..] <==>
        c.BoardRule? && c.rows == Rows(c.board) && Completes(c.board, prefix, validRows)
      decreases 4 - |prefix|
    {
      if |prefix| == 4 {
        var b := Board(prefix[0], prefix[1], prefix[2], prefix[3]);
        forall y ensures Completes(y, prefix, validRows) <==> y == b {
          CompletesFull(y, prefix, validRows);
        }
        log := log + [BoardRule(Rows(b), b)];
        validBoards := validBoards + {b};
        assert log[|old(log)|..] == [BoardRule(Rows(b), b)];
      } else {
        var k := |prefix|;
        var rest := validRows[k];
        while rest != {}
          invariant rest <= validRows[k]
          invariant forall b :: b in validBoards <==>
            b in old(validBoards) || (Completes(b, prefix, validRows) && Rows(b)[k] !in rest)
          invariant old(log) <= log
          invariant forall c :: c in log[|old(log)|..] <==>
            c.BoardRule? && c.rows == Rows(c.board) && Completes(c.board, prefix, validRows) && Rows(c.board)[k] !in rest
          decreases rest
        {
          var x :| x in rest;
          ghost var log1 := log;
          forall b ensures Completes(b, prefix + [x], validRows) <==> Completes(b, prefix, validRows) && Rows(b)[k] == x {
            CompletesOne(b, prefix, x, validRows);
          }
          CombineBoards(prefix + [x]);
          SliceSplit(old(log), log1, log);
          rest := rest - {x};
        }
      }
    }

    /** build_theory: the three stages in order, returning the encoding. */
    method BuildTheory() returns (e: seq<Constraint>)
      requires Valid() && |sol| >= 5
      requires forall r, c :: 0 <= r < 4 && 0 <= c < 5 ==> validTiles[r][c] == {}
      requires validRows == [{}, {}, {}, {}] && validBoards == {} && log == []
      modifies this`validTiles, this`validRows, this`validBoards, this`log
      ensures Built() && e == log
    {
      BuildTiles();
      ghost var tiles := TileLog(sol, board, 20);
      assert log == tiles;
      BuildRows();
      ghost var log2 := log;
      BuildBoards();
      e := log;
      // Stage two's segment ends where stage three's begins.
      assert log[|tiles|..|log2|] == log2[|tiles|..];
      assert RowRulesFor(log[|tiles|..|log2|], validRows) && BoardRulesFor(log[|log2|..], validBoards);
    }
  }

  /**
   * The program's entry: a solution word longer than five letters is
   * refused before anything is built; otherwise the theory is built on
   * fresh accumulators.
   */
  method Launch(sol: string, board: seq<seq<Colour>>, words: seq<string>) returns (outcome: Result<Theory>)
    requires GridShape(board) && |sol| >= 5
    ensures outcome.Err? <==> |sol| > 5
    ensures outcome.Ok? ==>
      fresh(outcome.value) && outcome.value.Built() &&
      outcome.value.sol == sol && outcome.value.board == board && outcome.value.words == words
  {
    if |sol| > 5 {
      return Err("Final word is greater than 5.");
    }
    var theory := new Theory(sol, board, words);
    var e := theory.BuildTheory();
    return Ok(theory);
  }

  // ---------------------------------------------------------------------
  // What the encoding says once build_theory has run
  // ---------------------------------------------------------------------

  /** After stage one, the encoding holds only row and board implications. */
  lemma LaterStagesAddNoLiterals(t: Theory, c: Constraint)
    requires t.Built() && (c.Pos? || c.Neg?)
    ensures c in t.log <==> c in TileLog(t.sol, t.board, 20)
  {
    LayeredMembers(TileLog(t.sol, t.board, 20), t.log, t.validRows, t.validBoards, c);
  }

  /** No tile literal of the whole encoding is logged with both signs. */
  lemma EncodingLiteralsConsistent(t: Theory, tile: Tile)
    requires t.Built()
    ensures !(Pos(tile) in t.log && Neg(tile) in t.log)
  {
    LaterStagesAddNoLiterals(t, Pos(tile));
    LaterStagesAddNoLiterals(t, Neg(tile));
    TileLiteralsConsistent(t.sol, t.board, tile);
  }

  /** A tile is asserted by the encoding exactly when it is in valid_tiles of its cell. */
  lemma AssertedTilesAreValidTiles(t: Theory, tile: Tile)
    requires t.Built()
    ensures Pos(tile) in t.log <==> tile.row < 4 && tile.col < 5 && tile in t.validTiles[tile.row][tile.col]
  {
    LaterStagesAddNoLiterals(t, Pos(tile));
    AssertedTilesAreCandidates(t.sol, t.board, tile);
    if tile.row < 4 && tile.col < 5 {
      assert t.validTiles[tile.row][tile.col] == CandidateRow(t.sol, t.board, tile.row)[tile.col];
    }
  }

  /** Every tile of valid_tiles[r][col] sits in cell (r, col) and carries the colour of that cell. */
  lemma ValidTilesWellFormed(t: Theory, r: nat, col: nat, tile: Tile)
    requires t.Built() && r < 4 && col < 5 && tile in t.validTiles[r][col]
    ensures tile.row == r && tile.col == col && tile.colour == t.board[r][col]
    ensures Allowed(t.sol, tile.colour, col, tile.letter)
  {
    assert t.validTiles[r][col] == CandidateRow(t.sol, t.board, r)[col];
    CandidatesMembers(t.sol, t.board, r, col);
  }

  /** A row implication is in the encoding exactly when its row is a valid row. */
  lemma RowRulesAreValidRows(t: Theory, x: Row)
    requires t.Built()
    ensures RowRule(Tiles(x), x) in t.log <==> x.number < 4 && x in t.validRows[x.number]
  {
    LayeredMembers(TileLog(t.sol, t.board, 20), t.log, t.validRows, t.validBoards, RowRule(Tiles(x), x));
    TileLogLiterals(t.sol, t.board, 20);
  }

  /** A board implication is in the encoding exactly when its board is a valid board. */
  lemma BoardRulesAreValidBoards(t: Theory, b: Board)
    requires t.Built()
    ensures BoardRule(Rows(b), b) in t.log <==> b in t.validBoards
  {
    LayeredMembers(TileLog(t.sol, t.board, 20), t.log, t.validRows, t.validBoards, BoardRule(Rows(b), b));
    TileLogLiterals(t.sol, t.board, 20);
  }

  /** No board is built exactly when some grid row has no valid row. */
  lemma NoBoardsIffSomeRowHasNoWord(t: Theory)
    requires t.Built()
    ensures t.validBoards == {} <==> exists r :: 0 <= r < 4 && t.validRows[r] == {}
  {
    NoBoardsIffSomeRowEmpty(t.validRows);
    if t.validBoards == {} {
      // The first empty row index witnesses the existential.
      var r: nat := if t.validRows[0] == {} then 0 else if t.validRows[1] == {} then 1 else if t.validRows[2] == {} then 2 else 3;
      assert t.validRows[r] == {};
    }
  }

  /** Every row of every valid board is a listed word that obeys the colour hints of its grid row. */
  lemma ValidBoardsObeyHints(t: Theory, b: Board, i: nat)
    requires t.Built() && b in t.validBoards && i < 4
    ensures Rows(b)[i].number == i
    ensures Spell(Rows(b)[i]) in t.words && Obeys(t.sol, t.board[i], Spell(Rows(b)[i]))
    ensures Rows(b)[i] == Lay(i, t.board[i], Spell(Rows(b)[i]))
  {
    assert Rows(b)[i] in t.validRows[i] by {
      // One empty case per index: the prover unfolds the sequence display only at a concrete position.
      if i == 0 {} else if i == 1 {} else if i == 2 {} else {}
    }
    RowsAreObeyingWords(t.sol, t.board, t.words, i, Rows(b)[i]);
  }
}
