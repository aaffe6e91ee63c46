/** The board of the king-in-check detector: a grid of characters with one
    glyph per placed piece, the king it remembers, and the check test that
    gathers every non-king piece's threatened squares. */
module ChessBoard {

  import opened Wrappers
  import opened Seqs
  import opened ChessPieces

  /** The exceptions the board can raise. `IndexError` is numpy refusing a
      position outside the grid, `MissingKing` the ValueError for a grid
      without a 'K' tile, `RemoveError` the ValueError a bishop or queen
      raises while computing its moves. */
  datatype BoardError = IndexError | MissingKing | RemoveError

  /** The grid cell `tiles[row, column]` a piece is written to. */
  function Cell(p: Piece, rows: nat, cols: nat): (r: Option<(nat, nat)>)
    ensures r.Some? ==> r.value.0 < rows && r.value.1 < cols
    ensures r.Some? <==> -(rows as int) <= p.pos.row < rows && -(cols as int) <= p.pos.col < cols
  {
    match (PyIndex(p.pos.row, rows), PyIndex(p.pos.col, cols))
    case (Some(r), Some(c)) => Some((r, c))
    case _ => None
  }

  predicate AllInGrid(pieces: seq<Piece>, rows: nat, cols: nat) {
    forall k :: 0 <= k < |pieces| ==> Cell(pieces[k], rows, cols).Some?
  }

  /** The character at cell (i, j) after the pieces are written in order: the
      glyph of the last piece written there, '.' when none was. */
  function TileAt(pieces: seq<Piece>, rows: nat, cols: nat, i: int, j: int): char
    decreases |pieces|
  {
    if pieces == [] then '.'
    else if Cell(pieces[|pieces| - 1], rows, cols) == Some((i, j)) then Glyph(pieces[|pieces| - 1].kind)
    else TileAt(pieces[..|pieces| - 1], rows, cols, i, j)
  }

  /** Piece `k` is the last one written to cell (i, j). */
  predicate LastOn(pieces: seq<Piece>, rows: nat, cols: nat, k: int, i: int, j: int) {
    0 <= k < |pieces| && Cell(pieces[k], rows, cols) == Some((i, j)) &&
    forall m :: k < m < |pieces| ==> Cell(pieces[m], rows, cols) != Some((i, j))
  }

  /** `"K" in self.tiles`. */
  predicate KingTileRemains(pieces: seq<Piece>, rows: nat, cols: nat) {
    exists i, j :: 0 <= i < rows && 0 <= j < cols && TileAt(pieces, rows, cols, i, j) == 'K'
  }

  /** The piece `self.king` is left holding: the last king in the list. */
  function LastKing(pieces: seq<Piece>): (r: Option<Piece>)
    ensures r.None? <==> forall k :: 0 <= k < |pieces| ==> pieces[k].kind != King
    ensures r.Some? ==> exists k :: 0 <= k < |pieces| && pieces[k] == r.value && r.value.kind == King &&
                                  forall m :: k < m < |pieces| ==> pieces[m].kind != King
    decreases |pieces|
  {
    if pieces == [] then None
    else if pieces[|pieces| - 1].kind == King then Some(pieces[|pieces| - 1])
    else LastKing(pieces[..|pieces| - 1])
  }

  /** A cell shows '.' exactly when no piece was written to it. */
  lemma {:induction false} TileAtEmpty(pieces: seq<Piece>, rows: nat, cols: nat, i: int, j: int)
    ensures TileAt(pieces, rows, cols, i, j) == '.' <==>
      forall k :: 0 <= k < |pieces| ==> Cell(pieces[k], rows, cols) != Some((i, j))
    decreases |pieces|
  {
    if pieces != [] {
      var n := |pieces| - 1;
      TileAtEmpty(pieces[..n], rows, cols, i, j);
      assert forall k :: 0 <= k < n ==> pieces[..n][k] == pieces[k];
    }
  }

  /** A cell shows the glyph of the last piece written to it. */
  lemma {:induction false} TileAtLastOn(pieces: seq<Piece>, rows: nat, cols: nat, k: int, i: int, j: int)
    requires LastOn(pieces, rows, cols, k, i, j)
    ensures TileAt(pieces, rows, cols, i, j) == Glyph(pieces[k].kind)
    decreases |pieces|
  {
    var n := |pieces| - 1;
    if k < n {
      var init := pieces[..n];
      assert init[k] == pieces[k];
      assert LastOn(init, rows, cols, k, i, j) by {
        forall m | k < m < |init| ensures Cell(init[m], rows, cols) != Some((i, j)) {
          assert init[m] == pieces[m];
        }
      }
      TileAtLastOn(init, rows, cols, k, i, j);
    }
  }

  /** A cell that does not show '.' has a last piece written to it. */
  lemma {:induction false} TileAtHasLastOn(pieces: seq<Piece>, rows: nat, cols: nat, i: int, j: int)
    requires TileAt(pieces, rows, cols, i, j) != '.'
    ensures exists k :: LastOn(pieces, rows, cols, k, i, j)
    decreases |pieces|
  {
    var n := |pieces| - 1;
    if Cell(pieces[n], rows, cols) == Some((i, j)) {
      assert LastOn(pieces, rows, cols, n, i, j);
    } else {
      var init := pieces[..n];
      TileAtHasLastOn(init, rows, cols, i, j);
      var k :| LastOn(init, rows, cols, k, i, j);
      assert init[k] == pieces[k];
      assert LastOn(pieces, rows, cols, k, i, j) by {
        forall m | k < m < |pieces| ensures Cell(pieces[m], rows, cols) != Some((i, j)) {
          if m < n {
            assert init[m] == pieces[m];
          }
        }
      }
    }
  }

  /** The grid keeps a 'K' exactly when some king's cell is not written again by
      a later piece. */
  lemma KingTileRemainsIff(pieces: seq<Piece>, rows: nat, cols: nat)
    ensures KingTileRemains(pieces, rows, cols) <==>
      exists k :: 0 <= k < |pieces| && pieces[k].kind == King && Cell(pieces[k], rows, cols).Some? &&
        forall m :: k < m < |pieces| ==> Cell(pieces[m], rows, cols) != Cell(pieces[k], rows, cols)
  {
    if KingTileRemains(pieces, rows, cols) {
      var i, j :| 0 <= i < rows && 0 <= j < cols && TileAt(pieces, rows, cols, i, j) == 'K';
      TileAtHasLastOn(pieces, rows, cols, i, j);
      var k :| LastOn(pieces, rows, cols, k, i, j);
      TileAtLastOn(pieces, rows, cols, k, i, j);
      assert pieces[k].kind == King;
    }
    if exists k :: 0 <= k < |pieces| && pieces[k].kind == King && Cell(pieces[k], rows, cols).Some? &&
        forall m :: k < m < |pieces| ==> Cell(pieces[m], rows, cols) != Cell(pieces[k], rows, cols) {
      var k :| 0 <= k < |pieces| && pieces[k].kind == King && Cell(pieces[k], rows, cols).Some? &&
        forall m :: k < m < |pieces| ==> Cell(pieces[m], rows, cols) != Cell(pieces[k], rows, cols);
      var (i, j) := Cell(pieces[k], rows, cols).value;
      assert LastOn(pieces, rows, cols, k, i, j);
      TileAtLastOn(pieces, rows, cols, k, i, j);
    }
  }

  /** A 'K' tile can only come from a king, so the board then has one to test. */
  lemma KingTileHasKing(pieces: seq<Piece>, rows: nat, cols: nat)
    requires KingTileRemains(pieces, rows, cols)
    ensures LastKing(pieces).Some?
  {
    KingTileRemainsIff(pieces, rows, cols);
  }

  /** Writing one more piece changes only its own cell. */
  lemma TileAtSnoc(pieces: seq<Piece>, p: Piece, rows: nat, cols: nat, i: int, j: int)
    ensures TileAt(pieces + [p], rows, cols, i, j) ==
      if Cell(p, rows, cols) == Some((i, j)) then Glyph(p.kind) else TileAt(pieces, rows, cols, i, j)
  {
    assert (pieces + [p])[..|pieces|] == pieces;
  }

  /** A grid that shows the written pieces holds a 'K' exactly when a king's
      tile survived. */
  lemma KingTileShown(tiles: array2<char>, pieces: seq<Piece>, rows: nat, cols: nat)
    requires tiles.Length0 == rows && tiles.Length1 == cols
    requires forall i, j :: 0 <= i < rows && 0 <= j < cols ==> tiles[i, j] == TileAt(pieces, rows, cols, i, j)
    ensures KingTileRemains(pieces, rows, cols) <==>
      exists i, j :: 0 <= i < tiles.Length0 && 0 <= j < tiles.Length1 && tiles[i, j] == 'K'
  {
  }

  /** The squares the non-king pieces threaten, with repeats, as `is_check`
      gathers them when no piece raises. */
  ghost predicate Threatened(pieces: seq<Piece>, sq: Square) {
    exists k :: 0 <= k < |pieces| && pieces[k].kind != King && Attacks(pieces[k], sq)
  }

  ghost predicate SomeRemoveFails(pieces: seq<Piece>) {
    exists k :: 0 <= k < |pieces| && RemoveFails(pieces[k])
  }

  /** `Board`: the pieces, the grid of glyphs and the remembered king. */
  class Board {
    const pieces: seq<Piece>
    const rows: nat
    const cols: nat
    const tiles: array2<char>
    const king: Piece

    /** The grid is `rows` by `cols` and shows the pieces as written in order,
        all of which lie inside it; the king is the last one in the list, and
        its tile, or another king's, survived. */
    ghost predicate Valid()
      reads this, tiles
    {
      tiles.Length0 == rows && tiles.Length1 == cols &&
      AllInGrid(pieces, rows, cols) &&
      (forall i, j :: 0 <= i < rows && 0 <= j < cols ==> tiles[i, j] == TileAt(pieces, rows, cols, i, j)) &&
      LastKing(pieces) == Some(king) &&
      KingTileRemains(pieces, rows, cols)
    }

    constructor Make(pieces: seq<Piece>, rows: nat, cols: nat, tiles: array2<char>, king: Piece)
      ensures this.pieces == pieces && this.rows == rows && this.cols == cols
      ensures this.tiles == tiles && this.king == king
    {
      this.pieces := pieces;
      this.rows := rows;
      this.cols := cols;
      this.tiles := tiles;
      this.king := king;
    }

    /** `Board(pieces, size)`: write every piece's glyph into a grid of '.',
        remembering the last king, then insist that a 'K' survived. */
    static method New(pieces: seq<Piece>, rows: nat, cols: nat) returns (r: Result<Board, BoardError>)
      ensures r.Err? <==> !AllInGrid(pieces, rows, cols) || !KingTileRemains(pieces, rows, cols)
      ensures r.Err? ==> r.error == if AllInGrid(pieces, rows, cols) then MissingKing else IndexError
      ensures r.Ok? ==> fresh(r.value) && fresh(r.value.tiles) && r.value.Valid()
      ensures r.Ok? ==> r.value.pieces == pieces && r.value.rows == rows && r.value.cols == cols
    {
      var tiles := new char[rows, cols]((i, j) => '.');
      var king: Option<Piece> := None;
      for k := 0 to |pieces|
        invariant king == LastKing(pieces[..k])
        invariant AllInGrid(pieces[..k], rows, cols)
        invariant forall i, j :: 0 <= i < rows && 0 <= j < cols ==> tiles[i, j] == TileAt(pieces[..k], rows, cols, i, j)
      {
        var p := pieces[k];
        assert pieces[..k + 1] == pieces[..k] + [p];
        assert pieces[..k + 1][..k] == pieces[..k];
        if p.kind == King {
          king := Some(p);
        }
        var cell := Cell(p, rows, cols);
        if cell.None? {
          assert !AllInGrid(pieces, rows, cols) by {
            assert !Cell(pieces[k], rows, cols).Some?;
          }
          return Err(IndexError);
        }
        var (i, j) := cell.value;
        tiles[i, j] := Glyph(p.kind);
        forall a, b | 0 <= a < rows && 0 <= b < cols
          ensures tiles[a, b] == TileAt(pieces[..k + 1], rows, cols, a, b)
        {
          TileAtSnoc(pieces[..k], p, rows, cols, a, b);
        }
      }
      assert pieces[..|pieces|] == pieces;
      var found := HasKingTile(tiles);
      KingTileShown(tiles, pieces, rows, cols);
      if !found {
        return Err(MissingKing);
      }
      KingTileHasKing(pieces, rows, cols);
      var b := new Board.Make(pieces, rows, cols, tiles, king.value);
      r := Ok(b);
    }

    /** `is_check`: gather the moves of every piece that is not a king and
        ask whether the king's own position is among them. Every piece's moves
        are computed, the kings' included, so one bishop or queen that raises
        makes the whole test raise. */
    method IsCheck() returns (r: Result<bool, BoardError>)
      ensures r.Err? <==> SomeRemoveFails(pieces)
      ensures r.Err? ==> r.error == RemoveError
      ensures r.Ok? ==> (r.value <==> Threatened(pieces, king.pos))
    {
      var all: seq<Square> := [];
      for k := 0 to |pieces|
        invariant forall j :: 0 <= j < k ==> !RemoveFails(pieces[j])
        invariant forall sq :: sq in all <==> Threatened(pieces[..k], sq)
      {
        var piece := pieces[k];
        assert pieces[..k + 1] == pieces[..k] + [piece];
        var moves := AvailableMoves(piece);
        if moves.RemoveFailed? {
          return Err(RemoveError);
        }
        if Glyph(piece.kind) != 'K' {
          var squares := moves.squares;
          for m := 0 to |squares|
            invariant forall sq :: sq in all <==> Threatened(pieces[..k], sq) || sq in squares[..m]
          {
            assert squares[..m + 1] == squares[..m] + [squares[m]];
            all := all + [squares[m]];
          }
          assert squares[..|squares|] == squares;
        }
        forall sq ensures sq in all <==> Threatened(pieces[..k + 1], sq) {
          if Threatened(pieces[..k + 1], sq) {
            var j :| 0 <= j < k + 1 && pieces[..k + 1][j].kind != King && Attacks(pieces[..k + 1][j], sq);
            if j < k {
              assert pieces[..k][j] == pieces[j];
            }
          }
          if Threatened(pieces[..k], sq) {
            var j :| 0 <= j < k && pieces[..k][j].kind != King && Attacks(pieces[..k][j], sq);
            assert pieces[..k + 1][j] == pieces[j];
          }
        }
      }
      assert pieces[..|pieces|] == pieces;
      r := Ok(king.pos in all);
    }
  }

  /** `"K" in self.tiles`, scanning the grid. */
  method HasKingTile(tiles: array2<char>) returns (found: bool)
    ensures found <==> exists i, j :: 0 <= i < tiles.Length0 && 0 <= j < tiles.Length1 && tiles[i, j] == 'K'
  {
    for i := 0 to tiles.Length0
      invariant forall a, b :: 0 <= a < i && 0 <= b < tiles.Length1 ==> tiles[a, b] != 'K'
    {
      for j := 0 to tiles.Length1
        invariant forall b :: 0 <= b < j ==> tiles[i, b] != 'K'
      {
        if tiles[i, j] == 'K' {
          return true;
        }
      }
    }
    return false;
  }
}

/** The board from the Python program's own demonstration. */
module ChessExamples {

  import opened Wrappers
  import opened ChessPieces
  import opened ChessBoard

  function DemoPieces(): seq<Piece> {
    [Piece(King, Square(0, 3)), Piece(Pawn, Square(3, 6)), Piece(Rook, Square(4, 7)),
     Piece(Bishop, Square(2, 1)), Piece(Queen, Square(7, 5)), Piece(Knight, Square(5, 2))]
  }

  /** A list with every piece on the 8 by 8 board fits the grid, and no piece
      in it raises. */
  lemma OnBoardPieces(pieces: seq<Piece>)
    requires forall k :: 0 <= k < |pieces| ==> OnBoard(pieces[k].pos)
    ensures AllInGrid(pieces, 8, 8) && !SomeRemoveFails(pieces)
  {
  }

  /** A king first in a list of on-board pieces, with no other king and no
      other piece on its square, is the one the board remembers, and its tile
      survives. */
  lemma LoneKingFirst(pieces: seq<Piece>)
    requires |pieces| >= 1 && pieces[0].kind == King
    requires forall k :: 0 <= k < |pieces| ==> OnBoard(pieces[k].pos)
    requires forall m :: 0 < m < |pieces| ==> pieces[m].kind != King && pieces[m].pos != pieces[0].pos
    ensures LastKing(pieces) == Some(pieces[0])
    ensures KingTileRemains(pieces, 8, 8)
  {
    var i, j := pieces[0].pos.row, pieces[0].pos.col;
    assert LastOn(pieces, 8, 8, 0, i, j);
    TileAtLastOn(pieces, 8, 8, 0, i, j);
  }

  /** The demonstration's pieces: all on the board, the king first and alone
      on (0, 3), nothing else a king. */
  lemma DemoLayout(pieces: seq<Piece>)
    requires pieces == DemoPieces()
    ensures |pieces| >= 1 && pieces[0] == Piece(King, Square(0, 3))
    ensures forall k :: 0 <= k < |pieces| ==> OnBoard(pieces[k].pos)
    ensures forall m :: 0 < m < |pieces| ==> pieces[m].kind != King && pieces[m].pos != pieces[0].pos
  {
  }

  /** The bishop on (2, 1) attacks (0, 3). */
  lemma DemoThreat(pieces: seq<Piece>)
    requires pieces == DemoPieces()
    ensures Threatened(pieces, Square(0, 3))
  {
    assert pieces[3].kind != King && Attacks(pieces[3], Square(0, 3));
  }

  function WithoutBishop(): seq<Piece> {
    DemoPieces()[..3] + DemoPieces()[4..]
  }

  /** The same layout once the bishop is gone. */
  lemma WithoutBishopLayout(pieces: seq<Piece>)
    requires pieces == WithoutBishop()
    ensures |pieces| >= 1 && pieces[0] == Piece(King, Square(0, 3))
    ensures forall k :: 0 <= k < |pieces| ==> OnBoard(pieces[k].pos)
    ensures forall m :: 0 < m < |pieces| ==> pieces[m].kind != King && pieces[m].pos != pieces[0].pos
  {
  }

  /** Without the bishop nothing attacks (0, 3). */
  lemma WithoutBishopSafe(pieces: seq<Piece>)
    requires pieces == WithoutBishop()
    ensures !Threatened(pieces, Square(0, 3))
  {
  }

  /** The demonstration: the bishop on (2, 1) attacks the king on (0, 3). */
  method DemoInCheck() returns (r: Result<bool, BoardError>)
    ensures r == Ok(true)
  {
    var pieces := DemoPieces();
    DemoLayout(pieces);
    OnBoardPieces(pieces);
    LoneKingFirst(pieces);
    DemoThreat(pieces);
    var board := Board.New(pieces, 8, 8);
    r := board.value.IsCheck();
  }

  /** Without the bishop no piece reaches the king. */
  method DemoWithoutBishop() returns (r: Result<bool, BoardError>)
    ensures r == Ok(false)
  {
    var pieces := WithoutBishop();
    WithoutBishopLayout(pieces);
    OnBoardPieces(pieces);
    LoneKingFirst(pieces);
    WithoutBishopSafe(pieces);
    var board := Board.New(pieces, 8, 8);
    r := board.value.IsCheck();
  }

  /** A board holding only a king is never in check, wherever on the grid
      the king stands; off the grid the board cannot be built. */
  method LoneKing(pos: Square) returns (r: Result<bool, BoardError>)
    ensures r == if -8 <= pos.row < 8 && -8 <= pos.col < 8 then Ok(false) else Err(IndexError)
  {
    var pieces := [Piece(King, pos)];
    KingTileRemainsIff(pieces, 8, 8);
    var board := Board.New(pieces, 8, 8);
    if board.Err? {
      return Err(board.error);
    }
    r := board.value.IsCheck();
  }

  /** A rook written over the only king leaves no 'K' on the grid. */
  method DemoKingOverwritten() returns (r: Result<Board, BoardError>)
    ensures r == Err(MissingKing)
  {
    var pieces := [Piece(King, Square(0, 3)), Piece(Rook, Square(0, 3))];
    KingTileRemainsIff(pieces, 8, 8);
    r := Board.New(pieces, 8, 8);
  }
}
