# Unwordle theory builder, modelled in Dafny

Unwordle runs Wordle backwards. It is given a solution word, a fixed 4×5
grid of colour hints (Green, Yellow, White) and a word list. It builds a
propositional theory that forces true the Board proposition of every board
of four listed words consistent with those hints. Every candidate tile is
asserted outright. No constraint negates a Row or a Board. A Row is the
conclusion of its row implication and a premise of board implications. A
Board is only ever a conclusion. This project models
`build_theory` in `run.py`, the part that generates the constraints and
enumerates the candidates. It proves what the three stages compute and
what they write to the encoding.

Each file holds one module, named after the part of the program it models
rather than after the file.

- `propositions.dfy` (module `Propositions`) defines the propositions
  `Tile`, `Row` and `Board` as datatypes with structural equality. It also
  defines `Constraint`, one entry of the encoding `E`: a positive or
  negative tile literal, a row implication `t0 & … & t4 >> Row` or a board
  implication `r1 & … & r4 >> Board`.
- `candidates.dfy` (module `TileStage`) contains the stage-one rules:
  - `NOTSOL`;
  - the colour rule `Allowed` and the candidate set `Candidates` of each
    cell;
  - the exact sequence of literals stage one logs: `SolPass` and
    `AbsentPass` per cell, `CellLog` per cell and `TileLog` overall, in the
    order the rows 3..0 × columns 0..4 product visits the cells;
  - lemmas about these.
- `enumeration.dfy` (module `Enumeration`) specifies stages two and three
  as set comprehensions. `ValidRows` is the five-way product of a row's
  candidate sets, filtered by the word list. `ValidBoards` is the four-way
  product of the valid rows. The module also proves soundness,
  completeness and emptiness lemmas about them.
- `theory.dfy` (module `Unwordle`) is the program itself:
  - `Theory` is a class whose fields are the module-level globals
    `valid_tiles`, `valid_rows`, `valid_boards` and the encoding `E`
    (`log`, in the order constraints are added);
  - each stage is a method whose loops update those fields in place;
  - the stage-one loops are over the letters of the solution word, then
    over `NOTSOL`;
  - stages two and three make their set-iteration loops with `:|` picks,
    so the proofs hold for every iteration order;
  - `BuildTheory` runs the three stages;
  - `Launch` is the length guard of the entry point;
  - the module ends with lemmas about the state `BuildTheory` leaves
    behind (`Theory.Built`).

The inputs `SOL`, `BOARD` and `WORDS` are constructor parameters, not the
random word and fixed grid of the program. `NOTSOL` is computed from `SOL`
exactly as the program computes it, at module initialisation.

Points where the model had to choose:

- **White cells.** A White cell admits exactly the alphabet letters absent
  from the solution word, as the code implements it (`run.py:113-122`).
  The commentary's notion of reusable White letters is not what the code
  does.
- **Short words.** The program guards only against words longer than five
  letters (`run.py:185-186`). `SOL[col]` needs at least five letters, so
  the stages and `Launch` require `|sol| >= 5`. The dictionary the program
  draws its solution from holds five-letter words.
- **Nested loops as recursion.** The five nested loops of stage two
  (`run.py:126-130`) and the four-way `product` of stage three
  (`run.py:143`) are modelled by one recursive method each, `Combine` and
  `CombineBoards`. The recursion holds one set-iteration loop per level,
  and level k chooses the tile of column k (or the row of index k).
- **Equality.** Tiles, rows and boards compare structurally. The program's
  `Hashable` compares hashes of their printed form (`run.py:37-42`).

## Model

| member | source | states |
|---|---|---|
| Propositions.Spell | run.py:134 | pot_word: the word a row spells, the letters of its five tiles left to right |
| Propositions.Tiles | run.py:136-138 | the premises let1 & … & let5 of the implication logged for a row, in column order |
| Propositions.Rows | run.py:148 | the premises row1 & … & row4 of the implication logged for a board, in row order |
| TileStage.Absent | run.py:24 | the kept letters are exactly those of the input that the solution word does not contain; never more letters than the input |
| TileStage.NotSol | run.py:24 | NOTSOL holds exactly the alphabet letters absent from SOL, at most 26 of them |
| TileStage.Allowed | run.py:102-122 | the colour rule of a cell: Green admits only the column's letter of SOL, Yellow the other letters of SOL, White exactly the NOTSOL letters |
| TileStage.AllowedSplitsLetters | run.py:102-122 | a letter the colour rule allows is a letter of SOL exactly when the colour is Green or Yellow |
| TileStage.Candidates | run.py:98-122 | valid_tiles[r][col] after stage one: the tiles of the cell whose letter passes its colour rule, characterised by CandidatesMembers |
| TileStage.SolStep | run.py:102-112 | the literals one letter of the SOL loop adds for a cell, in the order the code adds them |
| TileStage.SolPass | run.py:99-112 | the literals the SOL loop adds for a cell, letter after letter; characterised by SolPassMembers and SolPassLiterals |
| TileStage.AbsentStep | run.py:115-122 | the literals one letter of the NOTSOL loop adds for a cell, in the order the code adds them |
| TileStage.AbsentPass | run.py:113-122 | the literals the NOTSOL loop adds for a cell, letter after letter; characterised by AbsentPassMembers and AbsentPassLiterals |
| TileStage.CellLog | run.py:99-122 | everything one cell adds to the encoding: the SOL loop, then the NOTSOL loop |
| TileStage.TileLog | run.py:98-122 | stage one's literals for the first n cells of the rows 3..0 × columns 0..4 order; the whole of stage one at n = 20, characterised by TileLogMembers |
| TileStage.Denied | run.py:107-116 | the tiles stage one negates: Green or Yellow tiles of a NOTSOL letter, and the Yellow column letter of a Yellow cell |
| TileStage.CandidateRowMembers | run.py:98-122 | in row r of valid_tiles, cell c holds exactly the tiles of (r, c) in the colour BOARD[r][c] whose letter passes the colour rule of column c |
| TileStage.CandidatesMembers | run.py:98-122 | a cell's candidates are exactly the tiles of that cell, in its own colour, whose letter passes the colour rule of the cell |
| TileStage.SolPassMembers | run.py:99-112 | the SOL pass asserts the Green column letter (Green cell) or the other solution letters (Yellow cell), and denies only the Yellow column letter of a Yellow cell |
| TileStage.AbsentPassMembers | run.py:113-122 | the NOTSOL pass asserts White tiles of those letters only in a White cell, and denies exactly their Green and Yellow tiles |
| TileStage.SolPassLiterals | run.py:99-112 | the SOL pass logs only tile literals |
| TileStage.AbsentPassLiterals | run.py:113-122 | the NOTSOL pass logs only tile literals |
| TileStage.CellLogPositives | run.py:98-122 | the tiles asserted for a cell are exactly its valid_tiles set |
| TileStage.CellLogNegatives | run.py:98-122 | the tiles denied for a cell are exactly its Denied tiles: a Green or Yellow absent letter, or the Yellow column letter of a Yellow cell |
| TileStage.CellOrder | run.py:98 | the position of a cell in the rows 3..0 × columns 0..4 visiting order and the cell at a position are inverse to each other |
| TileStage.TileLogMembers | run.py:98-122 | after the first n cells, the asserted tiles are the candidates of those cells and the denied tiles are their Denied tiles |
| TileStage.TileLogLiterals | run.py:98-122 | stage one logs only tile literals |
| TileStage.TileLiteralsConsistent | run.py:98-122 | no tile literal of stage one is logged with both signs |
| TileStage.AssertedTilesAreCandidates | run.py:103-122 | a tile is asserted by stage one exactly when it is a candidate of its cell: Green, Yellow and White cases alike |
| TileStage.DeniedTilesAreLogged | run.py:107-116 | a tile is denied by stage one exactly when it is Denied: the Yellow column letter of a Yellow cell, or a Green or Yellow tile of a NOTSOL letter |
| TileStage.AbsentLettersDenied | run.py:113-116 | in every cell, each NOTSOL letter has its Green and its Yellow tile denied |
| TileStage.YellowOwnLetterDenied | run.py:107-108 | a Yellow cell has the Yellow tile of its column letter denied |
| TileStage.GreenCell | run.py:102-105 | a Green cell has a single candidate, the Green tile of SOL[col], however many letters SOL has |
| TileStage.YellowCell | run.py:107-112 | a Yellow cell holds the Yellow tile of a letter exactly when the letter is in SOL and differs from SOL[col]; never SOL[col] |
| TileStage.WhiteCell | run.py:113-122 | a White cell holds the White tile of a letter exactly when the letter is in NOTSOL; never a letter of SOL |
| Enumeration.ValidRows | run.py:125-140 | a row is valid exactly when it is numbered by its grid row, takes each tile from its column's candidates and spells a listed word |
| Enumeration.ValidBoards | run.py:143-151 | a board is valid exactly when each of its four rows is a valid row of its index |
| Enumeration.ExtendsNone | run.py:125-126 | with no tile chosen, the rows the loops reach are the valid rows |
| Enumeration.ExtendsOne | run.py:126-130 | choosing the tile of the next column keeps exactly the reachable rows with that tile there |
| Enumeration.ExtendsFull | run.py:134-135 | with five tiles chosen, the one row reached is theirs, if its word is listed |
| Enumeration.CompletesNone | run.py:143 | with no row chosen, the boards the product reaches are the valid boards |
| Enumeration.CompletesOne | run.py:143-145 | choosing the row of the next index keeps exactly the reachable boards with that row there |
| Enumeration.CompletesFull | run.py:145-151 | with four rows chosen, the one board reached is made of them |
| Enumeration.NoBoardsIffSomeRowEmpty | run.py:143-151 | the product of the valid rows is empty exactly when some row index has no valid row |
| Enumeration.RowsAreObeyingWords | run.py:125-140 | soundness: each valid row is a listed word laid out in its row's colours, and obeys the colour rule in every column |
| Enumeration.ObeyingWordsAreRows | run.py:125-140 | completeness: every listed word obeying the colour rule of a grid row is a valid row of it |
| Enumeration.GreenRowIsSolution | run.py:102-105 | an all-Green grid row resolves only to the solution word, and only when the word is listed |
| Enumeration.YellowRowIsShiftedLetters | run.py:107-112 | an all-Yellow grid row resolves to exactly the listed words made of solution letters, none in its own column |
| Enumeration.EmptyWordListNoBoards | run.py:135 | with an empty word list there is no valid row and no valid board |
| Unwordle.LayeredMembers | run.py:95-153 | the final encoding holds a constraint exactly when it is a stage-one literal, the implication of a valid row or the implication of a valid board |
| Unwordle.FillNext | run.py:98 | visiting the next cell of the product fills exactly that still-empty cell |
| Unwordle.FilledGrid | run.py:98 | once all twenty cells are visited, every row of valid_tiles is its candidate row |
| Unwordle.Theory.constructor | run.py:19-34 | the start state: NOTSOL computed, every accumulator and the encoding empty |
| Unwordle.Theory.Built | run.py:95-153 | the state build_theory leaves: valid_tiles holds the candidate rows, each valid_rows[r] is ValidRows of its row, valid_boards is ValidBoards, and E is stage one's log, then the row implications, then the board implications |
| Unwordle.Theory.BuildTiles | run.py:98-122 | stage one leaves valid_tiles equal to the candidate sets and appends exactly TileLog to the encoding |
| Unwordle.Theory.BuildCell | run.py:98-122 | one cell fills its empty candidate set with its candidates, changes no other cell and appends that cell's log |
| Unwordle.Theory.PassSol | run.py:99-112 | the SOL pass adds the tiles it asserts to its cell, changes no other cell and appends exactly its literals |
| Unwordle.Theory.SolLetter | run.py:102-112 | one SOL letter's body adds what SolStep asserts to its cell and appends SolStep |
| Unwordle.Theory.PassNotSol | run.py:113-122 | the NOTSOL pass adds the White tiles it asserts to its cell, changes no other cell and appends exactly its literals |
| Unwordle.Theory.AbsentLetter | run.py:115-122 | one NOTSOL letter's body adds what AbsentStep asserts to its cell and appends AbsentStep |
| Unwordle.Theory.BuildRows | run.py:125-140 | stage two leaves each valid_rows[row] equal to ValidRows of that row's candidates and appends exactly the implications of those rows |
| Unwordle.Theory.Combine | run.py:126-140 | the loops for the columns after those of prefix add exactly the valid rows beginning with prefix, touch no other row index and append exactly their implications |
| Unwordle.Theory.BuildBoards | run.py:143-151 | stage three leaves valid_boards equal to ValidBoards of the valid rows and appends exactly their implications |
| Unwordle.Theory.CombineBoards | run.py:143-151 | the product over the indices after those of prefix adds exactly the boards beginning with prefix and appends exactly their implications |
| Unwordle.Theory.BuildTheory | run.py:95-153 | build_theory reaches the built state and returns the encoding |
| Unwordle.Launch | run.py:182-187 | a solution word longer than five letters is refused; otherwise a fresh theory is built for the given inputs |
| Unwordle.LaterStagesAddNoLiterals | run.py:125-151 | after stage one the encoding gains no tile literal |
| Unwordle.EncodingLiteralsConsistent | run.py:95-153 | no tile literal of the whole encoding is logged with both signs |
| Unwordle.AssertedTilesAreValidTiles | run.py:103-122 | a tile is asserted by the encoding exactly when it belongs to valid_tiles of its cell |
| Unwordle.ValidTilesWellFormed | run.py:98-122 | every tile of valid_tiles[r][col] has row r, column col and the colour of BOARD[r][col], and passes the colour rule |
| Unwordle.RowRulesAreValidRows | run.py:135-140 | a row implication is in the encoding exactly when its row is in valid_rows |
| Unwordle.BoardRulesAreValidBoards | run.py:148-151 | a board implication is in the encoding exactly when its board is in valid_boards |
| Unwordle.NoBoardsIffSomeRowHasNoWord | run.py:143-151 | valid_boards is empty exactly when some valid_rows entry is empty |
| Unwordle.ValidBoardsObeyHints | run.py:125-151 | each row of every valid board is numbered by its index and is a listed word laid out in its grid row's colours, obeying the colour rule |

## Left out

- The SAT side is an external oracle and is not modelled. This covers
  `T.compile()`, `satisfiable()`, `solve()` and the kissat backend setting
  (`run.py:12-14`, `run.py:188-190`). The encoding is modelled as the
  sequence of constraints added to it, not as a formula with models.
- The `hasattr(item, "row1")` filter over the oracle's output
  (`run.py:193`) depends on the oracle's result type.
- Display code is terminal output plus a random pick, and is not
  modelled. This covers `display_board`, `display_solutions` and the
  colorama set-up (`run.py:5-6`, `run.py:155-180`).
- The random choice of the solution word (`run.py:22`) and the timing
  (`run.py:183`, `run.py:195-197`) are not modelled. The solution word is
  a parameter.
- words.py is not part of this model. The word list `WORDS` is a
  parameter: a sequence of strings, queried by membership.
- The `@proposition(E)` decorator, which registers propositions with the
  encoding library, is not modelled.
- The hash-based equality of `Hashable` (`run.py:37-42`) is replaced by
  structural equality. Hash collisions, which in the program could merge
  two different propositions, are therefore not modelled.
- maddies.py is an unused draft and is not part of this model.
- Unwordle.Theory.BuildRows and Unwordle.Theory.BuildBoards do not state
  the order of their implications. The source iterates Python sets, and
  their order is not specified, so the encoding is described by
  membership.
- Unwordle.Launch requires `|sol| >= 5` rather than reporting a short
  word. The source has no guard for words shorter than five letters.
- The fixed grid of `run.py:26-31` is a parameter of the model, not a
  constant.
