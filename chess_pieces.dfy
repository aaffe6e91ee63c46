/** The pieces of the king-in-check detector and the squares each one
    threatens. Every `available_moves` of the Python program is a method that builds
    its list of candidate squares with appends and then removes entries while
    iterating over a copy of that list; each is proved against a declarative
    description of the squares it threatens. The geometry is fixed to 8x8 by
    the piece classes themselves, whatever size the board has. */
module ChessPieces {

  import opened Wrappers
  import opened Seqs

  /** A square as the Python program's (row, column) tuple. Any integers are allowed:
      only the board restricts where a piece may stand. */
  datatype Square = Square(row: int, col: int)

  datatype Kind = King | Pawn | Rook | Bishop | Queen | Knight

  datatype Piece = Piece(kind: Kind, pos: Square)

  /** The character `get_value` reports for each kind. */
  function Glyph(k: Kind): (g: char)
    ensures g != '.'
    ensures g == 'K' <==> k == King
  {
    match k
    case King => 'K'
    case Pawn => 'P'
    case Rook => 'R'
    case Bishop => 'B'
    case Queen => 'Q'
    case Knight => 'N'
  }

  /** `move[0] in range(8) and move[1] in range(8)`. */
  predicate OnBoard(sq: Square) {
    0 <= sq.row < 8 && 0 <= sq.col < 8
  }

  function Abs(x: int): nat {
    if x < 0 then -x else x
  }

  /** The filter the rook applies: every square except its own. */
  function OtherThan(pos: Square): Square -> bool {
    (sq: Square) => sq != pos
  }

  /** The filter the bishop and queen apply: on the board and not their own square. */
  function OnBoardOtherThan(pos: Square): Square -> bool {
    (sq: Square) => OnBoard(sq) && sq != pos
  }

  // ---------------------------------------------------------------------
  // The squares each kind threatens, stated declaratively.

  /** The two forward diagonals, one row up. */
  predicate PawnAttacks(pos: Square, sq: Square) {
    OnBoard(sq) && sq.row == pos.row - 1 && (sq.col == pos.col - 1 || sq.col == pos.col + 1)
  }

  /** The rook's row and column, restricted to indices 0..7 along the ray but
      not otherwise bounds-checked, minus its own square. */
  predicate RookAttacks(pos: Square, sq: Square) {
    sq != pos &&
    ((sq.row == pos.row && 0 <= sq.col < 8) || (sq.col == pos.col && 0 <= sq.row < 8))
  }

  /** Both diagonals through the bishop, on the board, minus its own square;
      pieces in between do not block. */
  predicate BishopAttacks(pos: Square, sq: Square) {
    OnBoard(sq) && sq != pos && Abs(sq.row - pos.row) == Abs(sq.col - pos.col)
  }

  /** Diagonals, row and column through the queen, on the board, minus its own square. */
  predicate QueenAttacks(pos: Square, sq: Square) {
    OnBoard(sq) && sq != pos &&
    (Abs(sq.row - pos.row) == Abs(sq.col - pos.col) || sq.row == pos.row || sq.col == pos.col)
  }

  /** The eight L-shaped jumps that land on the board. */
  predicate KnightAttacks(pos: Square, sq: Square) {
    OnBoard(sq) &&
    ((Abs(sq.row - pos.row) == 2 && Abs(sq.col - pos.col) == 1) ||
     (Abs(sq.row - pos.row) == 1 && Abs(sq.col - pos.col) == 2))
  }

  /** The squares piece `p` threatens; a king threatens nothing. */
  predicate Attacks(p: Piece, sq: Square) {
    match p.kind
    case King => false
    case Pawn => PawnAttacks(p.pos, sq)
    case Rook => RookAttacks(p.pos, sq)
    case Bishop => BishopAttacks(p.pos, sq)
    case Queen => QueenAttacks(p.pos, sq)
    case Knight => KnightAttacks(p.pos, sq)
  }

  /** Bishop and queen raise ValueError from `list.remove` exactly when their
      own square is off the board yet generated by their loops: every visit of
      a copy of that square asks for two removals, one for being off the board
      and one for being the piece's own square, and there are fewer copies
      than that. The bishop generates its own square twice when its row is in
      0..7, so its second visit fails on the off-board removal; the queen
      generates it three times when its row is in 0..7 and once when only its
      column is, and fails on an own-square removal. */
  predicate RemoveFails(p: Piece) {
    !OnBoard(p.pos) &&
    ((p.kind == Bishop && 0 <= p.pos.row < 8) ||
     (p.kind == Queen && (0 <= p.pos.row < 8 || 0 <= p.pos.col < 8)))
  }

  /** A queen threatens what a rook and a bishop on its square threaten
      together, cut to the board; on the board the cut changes nothing. */
  lemma QueenIsRookAndBishop(pos: Square, sq: Square)
    ensures QueenAttacks(pos, sq) <==> OnBoard(sq) && (RookAttacks(pos, sq) || BishopAttacks(pos, sq))
    ensures OnBoard(pos) ==> (QueenAttacks(pos, sq) <==> RookAttacks(pos, sq) || BishopAttacks(pos, sq))
  {
  }

  // ---------------------------------------------------------------------
  // The removal loops.

  /** One round of the removal loop, on a live list that holds the kept
      entries visited so far followed by the entries still to visit. */
  lemma RejectStep(keep: Square -> bool, done: seq<Square>, move: Square, rest: seq<Square>)
    ensures keep(move) ==> Filter(keep, done) + [move] + rest == Filter(keep, done + [move]) + rest
    ensures !keep(move) ==> RemoveFirst(Filter(keep, done) + [move] + rest, move) == Some(Filter(keep, done + [move]) + rest)
  {
    FilterSnoc(keep, done, move);
    if !keep(move) {
      FilterMembers(keep, done);
      RemoveFirstAt(Filter(keep, done), move, rest);
      assert Filter(keep, done + [move]) == Filter(keep, done) + [];
      assert Filter(keep, done) + [] == Filter(keep, done);
    }
  }

  /** Round `k` of the removal loop on the snapshot: the live list moves on
      from the first `k` entries filtered to the first `k + 1`. */
  lemma RejectRound(keep: Square -> bool, snapshot: seq<Square>, k: int, r: seq<Square>)
    requires 0 <= k < |snapshot| && r == Filter(keep, snapshot[..k]) + snapshot[k..]
    ensures keep(snapshot[k]) ==> r == Filter(keep, snapshot[..k + 1]) + snapshot[k + 1..]
    ensures !keep(snapshot[k]) ==> RemoveFirst(r, snapshot[k]) == Some(Filter(keep, snapshot[..k + 1]) + snapshot[k + 1..])
  {
    var move := snapshot[k];
    assert snapshot[k..] == [move] + snapshot[k + 1..];
    assert snapshot[..k + 1] == snapshot[..k] + [move];
    RejectStep(keep, snapshot[..k], move, snapshot[k + 1..]);
    assert r == Filter(keep, snapshot[..k]) + [move] + snapshot[k + 1..];
  }

  /** `for move in copy(moves): if not keep(move): moves.remove(move)`. */
  method RemoveRejected(moves: seq<Square>, keep: Square -> bool) returns (r: seq<Square>)
    ensures r == Filter(keep, moves)
  {
    var snapshot := moves;
    r := moves;
    for k := 0 to |snapshot|
      invariant r == Filter(keep, snapshot[..k]) + snapshot[k..]
    {
      var move := snapshot[k];
      RejectRound(keep, snapshot, k, r);
      if !keep(move) {
        var removed := RemoveFirst(r, move);
        r := removed.value;
      }
    }
    assert snapshot[..|snapshot|] == snapshot;
  }

  /** One round of the bishop's and queen's removal loop on the live list
      `current`: remove `move` if it is off the board, and then, separately,
      remove it again if it is the piece's own square. `None` is the
      ValueError of a removal that finds nothing. */
  function PruneStep(current: seq<Square>, move: Square, pos: Square): (r: Option<seq<Square>>)
    ensures r.None? ==> !OnBoard(move) || move == pos
    ensures OnBoard(move) && move != pos ==> r == Some(current)
  {
    var afterBounds := if !OnBoard(move) then RemoveFirst(current, move) else Some(current);
    match afterBounds
    case None => None
    case Some(list) => if move == pos then RemoveFirst(list, move) else Some(list)
  }

  /** The whole loop: rounds for the entries of `todo`, in order, starting
      from the live list `current`. */
  ghost function PruneRun(current: seq<Square>, todo: seq<Square>, pos: Square): Option<seq<Square>>
    decreases |todo|
  {
    if todo == [] then Some(current)
    else match PruneStep(current, todo[0], pos)
      case None => None
      case Some(next) => PruneRun(next, todo[1..], pos)
  }

  /** When the piece's own square is off the board and the live list holds fewer
      than two copies of it for every copy still to be visited, the loop raises. */
  lemma {:induction false} PruneRunDoomed(current: seq<Square>, todo: seq<Square>, pos: Square)
    requires !OnBoard(pos)
    requires multiset(current)[pos] < 2 * multiset(todo)[pos]
    ensures PruneRun(current, todo, pos) == None
    decreases |todo|
  {
    var x, rest := todo[0], todo[1..];
    assert todo == [x] + rest;
    if !OnBoard(x) {
      var removed := RemoveFirst(current, x);
      if removed.Some? {
        RemoveFirstCounts(current, x);
        var list := removed.value;
        if x == pos {
          var again := RemoveFirst(list, x);
          if again.Some? {
            RemoveFirstCounts(list, x);
            PruneRunDoomed(again.value, rest, pos);
          }
        } else {
          PruneRunDoomed(list, rest, pos);
        }
      }
    } else {
      PruneRunDoomed(current, rest, pos);
    }
  }

  /** A round for the piece's own square when that square is off the board:
      the loop raises, now or later. */
  lemma PruneSelfOffBoard(kept: seq<Square>, rest: seq<Square>, pos: Square)
    requires forall sq :: sq in kept ==> OnBoard(sq) && sq != pos
    requires !OnBoard(pos)
    ensures PruneRun(kept + [pos] + rest, [pos] + rest, pos) == None
  {
    var todo := [pos] + rest;
    assert todo[0] == pos && todo[1..] == rest;
    RemoveFirstAt(kept, pos, rest);
    var list := kept + rest;
    assert multiset(kept)[pos] == 0;
    assert multiset(list)[pos] == multiset(rest)[pos];
    var again := RemoveFirst(list, pos);
    if again.Some? {
      RemoveFirstCounts(list, pos);
      PruneRunDoomed(again.value, rest, pos);
    }
  }

  /** A round that removes its entry once and carries on. */
  lemma PruneDrop(kept: seq<Square>, x: Square, rest: seq<Square>, pos: Square)
    requires forall sq :: sq in kept ==> OnBoard(sq) && sq != pos
    requires !OnBoard(x) || x == pos
    requires !(x == pos && !OnBoard(pos))
    ensures PruneRun(kept + [x] + rest, [x] + rest, pos) == PruneRun(kept + rest, rest, pos)
    ensures Filter(OnBoardOtherThan(pos), [x] + rest) == Filter(OnBoardOtherThan(pos), rest)
  {
    var todo := [x] + rest;
    assert todo[0] == x && todo[1..] == rest;
    assert x !in kept;
    RemoveFirstAt(kept, x, rest);
    assert kept + todo == kept + [x] + rest;
    assert PruneStep(kept + todo, x, pos) == Some(kept + rest);
    FilterCons(OnBoardOtherThan(pos), x, rest);
  }

  /** A round that keeps its entry. */
  lemma PruneKeep(kept: seq<Square>, x: Square, rest: seq<Square>, pos: Square)
    requires OnBoard(x) && x != pos
    ensures PruneRun(kept + [x] + rest, [x] + rest, pos) == PruneRun((kept + [x]) + rest, rest, pos)
    ensures Filter(OnBoardOtherThan(pos), [x] + rest) == [x] + Filter(OnBoardOtherThan(pos), rest)
  {
    var todo := [x] + rest;
    assert todo[0] == x && todo[1..] == rest;
    FilterCons(OnBoardOtherThan(pos), x, rest);
  }

  /** The loop over the entries `todo`, reached with the kept prefix `kept`
      in front of them, keeps exactly the entries that are on the board and
      not the piece's square, unless the piece's square is off the board and
      still to come, in which case it raises. */
  lemma {:induction false} PruneRunResult(kept: seq<Square>, todo: seq<Square>, pos: Square)
    requires forall sq :: sq in kept ==> OnBoard(sq) && sq != pos
    ensures PruneRun(kept + todo, todo, pos) ==
      if !OnBoard(pos) && pos in todo then None else Some(kept + Filter(OnBoardOtherThan(pos), todo))
    decreases |todo|
  {
    var keep := OnBoardOtherThan(pos);
    if todo == [] {
      assert kept + todo == kept + Filter(keep, todo);
    } else {
      var x, rest := todo[0], todo[1..];
      assert todo == [x] + rest;
      assert kept + todo == kept + [x] + rest;
      if x == pos && !OnBoard(pos) {
        PruneSelfOffBoard(kept, rest, pos);
      } else if !OnBoard(x) || x == pos {
        PruneDrop(kept, x, rest, pos);
        assert (!OnBoard(pos) && pos in todo) <==> (!OnBoard(pos) && pos in rest);
        PruneRunResult(kept, rest, pos);
      } else {
        PruneKeep(kept, x, rest, pos);
        assert pos in todo <==> pos in rest;
        PruneRunResult(kept + [x], rest, pos);
        assert kept + [x] + Filter(keep, rest) == kept + ([x] + Filter(keep, rest));
      }
    }
  }

  /** `for move in copy(moves): if off the board: moves.remove(move); if it is
      the piece's own square: moves.remove(move)`. */
  method RemoveOffBoardAndSelf(moves: seq<Square>, pos: Square) returns (r: Option<seq<Square>>)
    ensures r.None? <==> !OnBoard(pos) && pos in moves
    ensures r.Some? ==> r.value == Filter(OnBoardOtherThan(pos), moves)
  {
    var snapshot := moves;
    var current := moves;
    PruneRunResult([], moves, pos);
    assert [] + moves == moves;
    for k := 0 to |snapshot|
      invariant PruneRun(current, snapshot[k..], pos) == PruneRun(moves, moves, pos)
    {
      var move := snapshot[k];
      assert snapshot[k..][0] == move && snapshot[k..][1..] == snapshot[k + 1..];
      if !OnBoard(move) {
        var removed := RemoveFirst(current, move);
        if removed.None? {
          return None;
        }
        current := removed.value;
      }
      if move == pos {
        var removed := RemoveFirst(current, move);
        if removed.None? {
          return None;
        }
        current := removed.value;
      }
    }
    r := Some(current);
  }

  // ---------------------------------------------------------------------
  // available_moves, kind by kind.

  method PawnMoves(pos: Square) returns (moves: seq<Square>)
    ensures forall sq :: sq in moves <==> PawnAttacks(pos, sq)
    ensures Distinct(moves)
  {
    var raw: seq<Square> := [];
    raw := raw + [Square(pos.row - 1, pos.col - 1)];
    raw := raw + [Square(pos.row - 1, pos.col + 1)];
    moves := RemoveRejected(raw, OnBoard);
    FilterMembers(OnBoard, raw);
    FilterDistinct(OnBoard, raw);
  }

  /** The candidates the rook's loop has appended after `i` rounds. */
  ghost predicate RookRays(pos: Square, i: int, sq: Square) {
    (sq.row == pos.row && 0 <= sq.col < i) || (sq.col == pos.col && 0 <= sq.row < i)
  }

  method RookMoves(pos: Square) returns (moves: seq<Square>)
    ensures forall sq :: sq in moves <==> RookAttacks(pos, sq)
    ensures Distinct(moves)
    ensures OnBoard(pos) ==> |moves| == 14 && forall sq :: sq in moves ==> OnBoard(sq)
  {
    var raw: seq<Square> := [];
    for i := 0 to 8
      invariant |raw| == 2 * i
      invariant forall sq :: sq in raw <==> RookRays(pos, i, sq)
      invariant DistinctExcept(raw, pos)
      invariant multiset(raw)[pos] ==
        (if 0 <= pos.col < i then 1 else 0) + (if 0 <= pos.row < i then 1 else 0)
    {
      DistinctExceptSnoc(raw, pos, Square(pos.row, i));
      raw := raw + [Square(pos.row, i)];
      DistinctExceptSnoc(raw, pos, Square(i, pos.col));
      raw := raw + [Square(i, pos.col)];
    }
    moves := RemoveRejected(raw, OtherThan(pos));
    FilterMembers(OtherThan(pos), raw);
    FilterDistinct(OtherThan(pos), raw);
    FilterDropsCount(OtherThan(pos), raw, pos);
  }

  /** The candidates the bishop's loop has appended after `i` rounds. */
  ghost predicate DiagonalRows(pos: Square, i: int, sq: Square) {
    0 <= sq.row < i && Abs(sq.col - pos.col) == Abs(sq.row - pos.row)
  }

  method BishopMoves(pos: Square) returns (r: Option<seq<Square>>)
    ensures r.None? <==> !OnBoard(pos) && 0 <= pos.row < 8
    ensures r.Some? ==> (forall sq :: sq in r.value <==> BishopAttacks(pos, sq)) && Distinct(r.value)
  {
    var raw: seq<Square> := [];
    for i := 0 to 8
      invariant forall sq :: sq in raw <==> DiagonalRows(pos, i, sq)
      invariant DistinctExcept(raw, pos)
    {
      var distance := Abs(i - pos.row);
      DistinctExceptSnoc(raw, pos, Square(i, pos.col + distance));
      raw := raw + [Square(i, pos.col + distance)];
      DistinctExceptSnoc(raw, pos, Square(i, pos.col - distance));
      raw := raw + [Square(i, pos.col - distance)];
    }
    assert pos in raw <==> 0 <= pos.row < 8;
    r := RemoveOffBoardAndSelf(raw, pos);
    FilterMembers(OnBoardOtherThan(pos), raw);
    FilterDistinct(OnBoardOtherThan(pos), raw);
  }

  /** The candidates the queen's loop has appended after `i` rounds. */
  ghost predicate QueenRays(pos: Square, i: int, sq: Square) {
    DiagonalRows(pos, i, sq) || RookRays(pos, i, sq)
  }

  /** One round of the queen's loop: both diagonal squares of row `i`, the
      square of column `i` in the queen's row, and the square of row `i` in
      its column. */
  lemma QueenRound(pos: Square, i: int, raw: seq<Square>)
    requires 0 <= i < 8
    requires forall sq :: sq in raw <==> QueenRays(pos, i, sq)
    requires DistinctExcept(raw, pos)
    ensures var d := Abs(i - pos.row);
      var next := raw + [Square(i, pos.col + d)] + [Square(i, pos.col - d)] + [Square(pos.row, i)] + [Square(i, pos.col)];
      (forall sq :: sq in next <==> QueenRays(pos, i + 1, sq)) && DistinctExcept(next, pos)
  {
    var d := Abs(i - pos.row);
    var s1 := raw + [Square(i, pos.col + d)];
    var s2 := s1 + [Square(i, pos.col - d)];
    var s3 := s2 + [Square(pos.row, i)];
    DistinctExceptSnoc(raw, pos, Square(i, pos.col + d));
    DistinctExceptSnoc(s1, pos, Square(i, pos.col - d));
    DistinctExceptSnoc(s2, pos, Square(pos.row, i));
    DistinctExceptSnoc(s3, pos, Square(i, pos.col));
  }

  method QueenMoves(pos: Square) returns (r: Option<seq<Square>>)
    ensures r.None? <==> !OnBoard(pos) && (0 <= pos.row < 8 || 0 <= pos.col < 8)
    ensures r.Some? ==> (forall sq :: sq in r.value <==> QueenAttacks(pos, sq)) && Distinct(r.value)
  {
    var raw: seq<Square> := [];
    for i := 0 to 8
      invariant forall sq :: sq in raw <==> QueenRays(pos, i, sq)
      invariant DistinctExcept(raw, pos)
    {
      ghost var before := raw;
      var distance := Abs(i - pos.row);
      raw := raw + [Square(i, pos.col + distance)];
      raw := raw + [Square(i, pos.col - distance)];
      raw := raw + [Square(pos.row, i)];
      raw := raw + [Square(i, pos.col)];
      QueenRound(pos, i, before);
    }
    assert pos in raw <==> 0 <= pos.row < 8 || 0 <= pos.col < 8;
    r := RemoveOffBoardAndSelf(raw, pos);
    FilterMembers(OnBoardOtherThan(pos), raw);
    FilterDistinct(OnBoardOtherThan(pos), raw);
  }

  /** The eight candidate squares of the knight, in the order it appends them. */
  function KnightJumps(pos: Square): seq<Square> {
    var row, col := pos.row, pos.col;
    [Square(row - 2, col + 1), Square(row - 2, col - 1), Square(row + 2, col + 1), Square(row + 2, col - 1),
     Square(row - 1, col + 2), Square(row - 1, col - 2), Square(row + 1, col + 2), Square(row + 1, col - 2)]
  }

  /** The candidates are the eight L-shaped jumps, each once. */
  lemma KnightJumpsSpec(pos: Square)
    ensures Distinct(KnightJumps(pos))
    ensures forall sq :: sq in KnightJumps(pos) <==>
      (Abs(sq.row - pos.row) == 2 && Abs(sq.col - pos.col) == 1) ||
      (Abs(sq.row - pos.row) == 1 && Abs(sq.col - pos.col) == 2)
  {
  }

  /** Cutting the candidates to the board leaves the knight's attacks, each once. */
  lemma KnightFiltered(pos: Square, raw: seq<Square>)
    requires Distinct(raw)
    requires forall sq :: sq in raw <==>
      (Abs(sq.row - pos.row) == 2 && Abs(sq.col - pos.col) == 1) ||
      (Abs(sq.row - pos.row) == 1 && Abs(sq.col - pos.col) == 2)
    ensures forall sq :: sq in Filter(OnBoard, raw) <==> KnightAttacks(pos, sq)
    ensures Distinct(Filter(OnBoard, raw))
  {
    FilterMembers(OnBoard, raw);
    FilterDistinct(OnBoard, raw);
  }

  method KnightMoves(pos: Square) returns (moves: seq<Square>)
    ensures forall sq :: sq in moves <==> KnightAttacks(pos, sq)
    ensures Distinct(moves)
  {
    var row, col := pos.row, pos.col;
    var raw: seq<Square> := [];
    raw := raw + [Square(row - 2, col + 1)];
    raw := raw + [Square(row - 2, col - 1)];
    raw := raw + [Square(row + 2, col + 1)];
    raw := raw + [Square(row + 2, col - 1)];
    raw := raw + [Square(row - 1, col + 2)];
    raw := raw + [Square(row - 1, col - 2)];
    raw := raw + [Square(row + 1, col + 2)];
    raw := raw + [Square(row + 1, col - 2)];
    assert raw == KnightJumps(pos);
    KnightJumpsSpec(pos);
    moves := RemoveRejected(raw, OnBoard);
    KnightFiltered(pos, raw);
  }

  /** What `piece.available_moves()` hands back: a list of squares, the king's
      `None`, or the ValueError a bishop or queen raises. */
  datatype MoveList = Squares(squares: seq<Square>) | NoMoves | RemoveFailed

  /** Dispatch on the piece's kind, as the Python program's subclasses do. */
  method AvailableMoves(p: Piece) returns (m: MoveList)
    ensures m.NoMoves? <==> p.kind == King
    ensures m.RemoveFailed? <==> RemoveFails(p)
    ensures m.Squares? ==> (forall sq :: sq in m.squares <==> Attacks(p, sq)) && Distinct(m.squares)
  {
    match p.kind {
      case King =>
        m := NoMoves;
      case Pawn =>
        var moves := PawnMoves(p.pos);
        m := Squares(moves);
      case Rook =>
        var moves := RookMoves(p.pos);
        m := Squares(moves);
      case Bishop =>
        var r := BishopMoves(p.pos);
        m := if r.Some? then Squares(r.value) else RemoveFailed;
      case Queen =>
        var r := QueenMoves(p.pos);
        m := if r.Some? then Squares(r.value) else RemoveFailed;
      case Knight =>
        var moves := KnightMoves(p.pos);
        m := Squares(moves);
    }
  }
}
