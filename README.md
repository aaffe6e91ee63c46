# Five puzzle solutions, modelled and verified in Dafny

A model of five independent puzzle solutions:

- **the king-in-check detector.** Six kinds of chess piece, the squares each threatens, and a board that checks whether its king is attacked.
- **the two non-repeated elements.** A counting strategy, an XOR strategy, and the context object that switches between them.
- **transitive closure by breadth-first search.**
- **merging two binary trees.**
- **the n-th number whose decimal digits sum to 10.**

Each solution is modelled in the form its code takes. Code that updates lists, grids and fields step by step becomes methods with loops and invariants. Mutable objects become classes. The tree merge, which is structural recursion, becomes a datatype with functions and lemmas. Every method is proved against a declarative specification, and lemmas then prove what the puzzles promise about that specification.

Files:

- `wrappers.dfy`: `Option` and `Result`.
- `seqs.dfy`: Python list behaviour shared by the models: negative indexing, `list.remove`, `list.count`, order-preserving filtering.
- `bits.dfy`: Python's `^` and `&` on unbounded integers.
- `chess_pieces.dfy`, `chess_board.dfy`: the check detector. The second file also holds its example boards.
- `repeated_elements.dfy`, `transitive_closure.dfy`, `merge_binary_trees.dfy`, `perfect_numbers.dfy`.

Modelling decisions that go beyond a direct transcription:

- **Piece positions can be any integers.** The piece classes hard-code an 8×8 geometry, while the board takes its own size.
  - numpy's negative-index wrap-around and its IndexError are modelled in `ChessBoard.Cell` and `Seqs.PyIndex`.
  - A queen at (-1, 3) therefore sits on row 7 of an 8×8 board. Its `available_moves` then raises ValueError: its own square is generated and removed twice, the first time as off the board. The model carries this case as `MoveList.RemoveFailed` and `BoardError.RemoveError`.
- **Python integers are unbounded, and so is the model.** `Bits.Xor` and `Bits.And` define `^` and `&` on all integers, negative ones included, so `x & -x` has its exact Python meaning. There is no fixed-width bit-vector.
- **Neighbour lists need not be valid vertices.** `bfs` reads `graph[actual_node]` with Python's indexing, including negative indices. A vertex outside the list raises IndexError, `GraphError.IndexError` in the model. Nothing requires the graph to be well formed. Instead, well-formedness is proved to rule the error out.
- **`nth_perfect_number`'s loop takes its bound as a parameter** (`PerfectNumbers.SearchBelow`). `NthPerfectNumber` runs it with `MAX_ITERATIONS` = 10000.

## Model

| member | source | states |
|---|---|---|
| ChessPieces.Glyph | hard/c_425_check.py:44-48 | a piece's glyph is never '.', and it is 'K' exactly for a king |
| ChessPieces.PawnMoves | hard/c_425_check.py:59-68 | the pawn's list holds exactly the on-board squares one row up and one column to either side, each once |
| ChessPieces.RookMoves | hard/c_425_check.py:76-87 | the rook's list holds exactly the squares of its row with column 0..7 and of its column with row 0..7, minus its own square, each once. There is no blocking and no bounds check of the other coordinate. From an on-board square these are exactly 14 on-board squares |
| ChessPieces.BishopMoves | hard/c_425_check.py:95-109 | ValueError exactly when the bishop's square is off the board but its row is in 0..7. Otherwise exactly the on-board squares on its two diagonals, minus its own square, each once, with no blocking |
| ChessPieces.QueenRound | hard/c_425_check.py:120-125 | one round of the queen's append loop extends the candidates to the rays of rows up to i; the queen's own square is the only value that may repeat, which it does up to four times |
| ChessPieces.QueenMoves | hard/c_425_check.py:117-133 | ValueError exactly when the queen's square is off the board but its row or column is in 0..7. Otherwise exactly the on-board squares sharing its row, column or a diagonal, minus its own square, each once |
| ChessPieces.QueenIsRookAndBishop | hard/c_425_check.py:117-133 | the queen threatens the union of what a rook and a bishop on its square threaten, cut to the board; on the board, exactly that union |
| ChessPieces.KnightJumpsSpec | hard/c_425_check.py:144-151 | the eight candidates are the squares two rows and one column away or one row and two columns away, each once |
| ChessPieces.KnightFiltered | hard/c_425_check.py:153-155 | cutting those candidates to the board leaves exactly the knight's on-board jumps, each once |
| ChessPieces.KnightMoves | hard/c_425_check.py:141-158 | the knight's list holds exactly the on-board L-shaped jumps, each once |
| ChessPieces.RejectStep | hard/c_425_check.py:64-66 | removing a rejected entry from the live list drops exactly the copy the loop is visiting |
| ChessPieces.RejectRound | hard/c_425_check.py:64-66 | each round turns "kept prefix + unvisited rest" into the same shape one entry further on |
| ChessPieces.RemoveRejected | hard/c_425_check.py:64-66 | removing, while iterating a copy, every entry that fails the test leaves exactly the entries that pass it, in their order |
| ChessPieces.PruneStep | hard/c_425_check.py:103-107 | one round of the two separate removals fails only for an off-board entry or the piece's own square; other entries leave the list as it is |
| ChessPieces.PruneRunDoomed | hard/c_425_check.py:103-107 | when the piece's square is off the board and the live list holds fewer than two copies of it per copy still to visit, a removal fails |
| ChessPieces.PruneSelfOffBoard | hard/c_425_check.py:103-107 | visiting the piece's own square while it is off the board makes the loop raise |
| ChessPieces.PruneDrop | hard/c_425_check.py:103-107 | an entry that is off the board or the piece's square is removed once, and the loop carries on with the rest |
| ChessPieces.PruneKeep | hard/c_425_check.py:103-107 | an on-board entry other than the piece's square stays in the list |
| ChessPieces.PruneRunResult | hard/c_425_check.py:103-107 | the whole loop raises exactly when the piece's square is off the board and among the entries still to visit. Otherwise it keeps exactly the on-board entries other than that square, in order |
| ChessPieces.RemoveOffBoardAndSelf | hard/c_425_check.py:103-109 | the bishop's and queen's removal loop: None exactly when the piece's square is off the board yet among the candidates, otherwise the filtered candidates |
| ChessPieces.AvailableMoves | hard/c_425_check.py:50-51 | a king has no move list. A ValueError happens exactly as `RemoveFails` says. Any other list holds exactly the squares the piece threatens, each once |
| ChessBoard.Cell | hard/c_425_check.py:168-169 | the grid cell numpy writes for a position is inside the grid, and exists exactly when both coordinates lie in [-size, size) |
| ChessBoard.LastKing | hard/c_425_check.py:165-167 | `self.king` is the last king in the list, and there is none exactly when no piece is a king |
| ChessBoard.TileAtEmpty | hard/c_425_check.py:164-169 | a tile stays '.' exactly when no piece was written to it |
| ChessBoard.TileAtLastOn | hard/c_425_check.py:165-169 | a tile shows the glyph of the last piece written to it; later pieces overwrite earlier ones |
| ChessBoard.TileAtHasLastOn | hard/c_425_check.py:165-169 | a tile that is not '.' has a last piece written to it |
| ChessBoard.TileAtSnoc | hard/c_425_check.py:169 | writing one more piece changes only its own cell |
| ChessBoard.KingTileRemainsIff | hard/c_425_check.py:165-171 | a 'K' tile remains exactly when some king's cell is not written again by a later piece |
| ChessBoard.KingTileHasKing | hard/c_425_check.py:165-171 | a surviving 'K' tile means the board has a king to remember |
| ChessBoard.KingTileShown | hard/c_425_check.py:170 | a grid showing the pieces contains 'K' exactly when a king's tile survived |
| ChessBoard.HasKingTile | hard/c_425_check.py:170 | the scan finds 'K' exactly when some cell of the grid holds it |
| ChessBoard.Board.Make | hard/c_425_check.py:162-163 | the board stores the pieces, the size, the grid and the king it is given |
| ChessBoard.Board.New | hard/c_425_check.py:162-171 | IndexError when a piece lies outside the grid. Otherwise ValueError exactly when no 'K' tile remains. Otherwise a fresh board whose grid is `TileAt` of the pieces and whose king is the last king |
| ChessBoard.Board.IsCheck | hard/c_425_check.py:178-193 | ValueError exactly when some piece's move computation raises. Otherwise True exactly when a piece that is not a king threatens the king's position |
| ChessExamples.OnBoardPieces | hard/c_425_check.py:164-169 | a list of on-board pieces fits the 8×8 grid, and none of them raises |
| ChessExamples.LoneKingFirst | hard/c_425_check.py:165-171 | a first king with no later king and no later piece on its square is remembered, and its tile survives |
| ChessExamples.DemoLayout | hard/c_425_check.py:197-202 | the example pieces are on the board, with the king alone on (0, 3) |
| ChessExamples.DemoThreat | hard/c_425_check.py:18 | the bishop on (2, 1) attacks (0, 3) |
| ChessExamples.WithoutBishopLayout | hard/c_425_check.py:197-202 | the same layout without the bishop |
| ChessExamples.WithoutBishopSafe | hard/c_425_check.py:197-202 | without the bishop no piece attacks (0, 3) |
| ChessExamples.DemoInCheck | hard/c_425_check.py:196-205 | the example board is built and is in check |
| ChessExamples.DemoWithoutBishop | hard/c_425_check.py:197-205 | the example board without the bishop is not in check |
| ChessExamples.LoneKing | hard/c_425_check.py:162-193 | a board holding only a king, on any square of the 8×8 grid including the negatively wrapped ones, is built and is not in check; off the grid, construction raises IndexError |
| ChessExamples.DemoKingOverwritten | hard/c_425_check.py:165-171 | a rook written over the only king leaves no 'K', and construction raises ValueError |
| Seqs.PyIndex | easy/c_423_transitive_closure.py:56 | Python indexing of a length-n list: defined exactly for -n <= i < n, giving i itself or, for a negative i, i + n |
| Seqs.RemoveFirst | hard/c_425_check.py:66 | `list.remove` fails exactly when the value is absent |
| Seqs.RemoveFirstCounts | hard/c_425_check.py:66 | a successful `list.remove` takes away exactly one copy of the value |
| Seqs.RemoveFirstAt | hard/c_425_check.py:66 | `list.remove` drops the first copy |
| Seqs.Count | c_424_repeated_elements.py:28-31 | the count is at most the array's length, and 0 exactly when the value is absent |
| Bits.Xor | c_424_repeated_elements.py:44-55 | Python's `^` on unbounded integers, bit by bit from the lowest bit with infinite sign bits. What it computes is stated by `XorSign`, `BitXor` and the algebra `XorZero` to `XorAssoc` |
| Bits.And | c_424_repeated_elements.py:47-52 | Python's `&` on unbounded integers, bit by bit from the lowest bit with infinite sign bits. What it computes is stated by `AndBounds`, `AndPow2` and `LowestSetBit` |
| Bits.XorSign | c_424_repeated_elements.py:44 | `a ^ b` is negative exactly when exactly one of a and b is |
| Bits.AndBounds | c_424_repeated_elements.py:47 | `a & b` is negative exactly when both are, and lies between 0 and any non-negative operand, so `x & -x` lies between 0 and x for x >= 0 |
| Bits.XorZero | c_424_repeated_elements.py:42-44 | 0 is neutral for `^` |
| Bits.XorSelf | c_424_repeated_elements.py:42-44 | `x ^ x` is 0 |
| Bits.XorComm | c_424_repeated_elements.py:42-44 | `^` is commutative |
| Bits.XorAssoc | c_424_repeated_elements.py:42-44 | `^` is associative |
| Bits.BitXor | c_424_repeated_elements.py:42-44 | bit k of `a ^ b` is set exactly when one of a and b has it |
| Bits.AndPow2 | c_424_repeated_elements.py:52 | `a & 2**k` is `2**k` or 0, as bit k of a is set or not |
| Bits.TrailingZeros | c_424_repeated_elements.py:47 | the position of the lowest set bit of a non-zero number |
| Bits.LowestSetBit | c_424_repeated_elements.py:47 | `x & -x` is 0 for 0, and 2 to the position of the lowest set bit otherwise |
| RepeatedElements.XorAllSnoc | c_424_repeated_elements.py:42-44 | one more round of `xor_result ^= num` XORs in the new element |
| RepeatedElements.XorAppend | c_424_repeated_elements.py:42-44 | the XOR of a concatenation is the XOR of the parts |
| RepeatedElements.XorRemove | c_424_repeated_elements.py:42-44 | an element's contribution is independent of its place |
| RepeatedElements.XorWithout | c_424_repeated_elements.py:42-44 | taking one copy of a value out of the array removes it from the XOR and from the counts |
| RepeatedElements.XorEvenZero | c_424_repeated_elements.py:41-44 | values that occur an even number of times cancel |
| RepeatedElements.XorOneOdd | c_424_repeated_elements.py:41-44 | with one singleton and everything else paired, the XOR is the singleton |
| RepeatedElements.XorOfTwoSingletons | c_424_repeated_elements.py:41-44 | for an array of the promised shape, the first loop yields the XOR of the two singletons |
| RepeatedElements.XorZeroIff | c_424_repeated_elements.py:46-47 | `a ^ b` is 0 exactly when a equals b, so two distinct singletons give a non-zero XOR |
| RepeatedElements.BitSplits | c_424_repeated_elements.py:46-55 | the lowest set bit of `a ^ b` is set in exactly one of two distinct numbers |
| RepeatedElements.GroupIsSingleton | c_424_repeated_elements.py:49-55 | a group holding one singleton and both copies of any paired value it holds XORs to that singleton |
| RepeatedElements.SplitSnoc | c_424_repeated_elements.py:51-55 | each element goes into the group its bit selects |
| RepeatedElements.GroupXorsFilter | c_424_repeated_elements.py:50-55 | the accumulators `num1` and `num2` are the XORs of the group with the bit and of the group without it |
| RepeatedElements.XorSplit | c_424_repeated_elements.py:49-55 | the XORs of the two groups combine to the XOR of the whole array |
| RepeatedElements.GroupsAreSingletons | c_424_repeated_elements.py:49-58 | for an array of the promised shape, the group whose numbers have the split bit XORs to the singleton that has it, and the other group to the other singleton |
| RepeatedElements.GroupsResult | c_424_repeated_elements.py:49-58 | the two group XORs combine to the whole XOR, and for an array of the promised shape they are the two singletons |
| RepeatedElements.SplitOutcome | c_424_repeated_elements.py:49-58 | the two accumulators the second loop leaves XOR to the whole array's XOR, and for an array of the promised shape they are the singleton with the split bit and the other one |
| RepeatedElements.NoMemberEmpty | c_424_repeated_elements.py:27 | a set with no member is empty, which ends the iteration over the set |
| RepeatedElements.RegularStrategy | c_424_repeated_elements.py:24-36 | the result has no repeats, and it holds exactly the values that occur once |
| RepeatedElements.LinearStrategy | c_424_repeated_elements.py:40-58 | always two numbers whose XOR is the XOR of the array. For an array of the promised shape, exactly the two singletons, the one with the split bit first |
| RepeatedElements.Context.constructor | c_424_repeated_elements.py:63-64 | the context holds the strategy it is given |
| RepeatedElements.Context.SetStrategy | c_424_repeated_elements.py:66-68 | the strategy is replaced and nothing else changes |
| RepeatedElements.Context.ExtractElements | c_424_repeated_elements.py:70-72 | the result is what the current strategy promises |
| RepeatedElements.DemoCounts | c_424_repeated_elements.py:76 | in the example array 2, 6 and 10 occur twice, 4 and 8 once, everything else never |
| RepeatedElements.DemoShape | c_424_repeated_elements.py:6-7 | the example array has the promised shape, with singletons 4 and 8 |
| RepeatedElements.DemoSplitBit | c_424_repeated_elements.py:47 | the lowest set bit of `4 ^ 8` is a bit of 4 |
| RepeatedElements.Demo | c_424_repeated_elements.py:76-92 | both strategies, run through the context, give {4, 8}; the linear one gives [4, 8] |
| TransitiveClosure.ReachableSelf | easy/c_423_transitive_closure.py:51-53 | every vertex reaches itself |
| TransitiveClosure.ReachableStep | easy/c_423_transitive_closure.py:56-60 | a neighbour of a reachable vertex is reachable |
| TransitiveClosure.ReachableTrans | easy/c_423_transitive_closure.py:1-4 | reachability is transitive |
| TransitiveClosure.PathInit | easy/c_423_transitive_closure.py:1-4 | a prefix of a path is a path |
| TransitiveClosure.PathStaysInside | easy/c_423_transitive_closure.py:56-60 | a path that starts in a set closed under edges ends in it |
| TransitiveClosure.ClosedBlocks | easy/c_423_transitive_closure.py:55-63 | nothing outside a closed set is reachable from inside it |
| TransitiveClosure.WellFormedPath | easy/c_423_transitive_closure.py:56 | in a graph whose lists name only valid vertices, a path from a valid vertex ends at a valid vertex |
| TransitiveClosure.WellFormedStaysValid | easy/c_423_transitive_closure.py:56 | in such a graph everything reachable from a valid vertex is valid |
| TransitiveClosure.DistinctBound | easy/c_423_transitive_closure.py:57-60 | a visited list without repeats is no longer than the set it is drawn from, which bounds the search |
| TransitiveClosure.EdgeOfList | easy/c_423_transitive_closure.py:56 | the neighbours of a valid vertex are exactly the elements of its list |
| TransitiveClosure.ExhaustedSearch | easy/c_423_transitive_closure.py:48-63 | a search whose queue ran empty without meeting the target proves the target unreachable |
| TransitiveClosure.Bfs | easy/c_423_transitive_closure.py:40-63 | a boolean result is True exactly when the target is reachable. An IndexError means some vertex other than the target, reachable from the start, is not a valid index. Well-formed graphs searched from a valid vertex never raise. Searching for the start vertex itself gives True |
| TransitiveClosure.Closure | easy/c_423_transitive_closure.py:24-38 | a fresh `len(graph)`-square matrix whose entry (i, j) is 1 when j is reachable from i and 0 otherwise. An IndexError means some vertex reachable from a valid vertex is not a valid index. Well-formed graphs never raise |
| TransitiveClosure.ClosureOrder | easy/c_423_transitive_closure.py:30-35 | the closure matrix has 1 on its diagonal and is transitive |
| TransitiveClosure.ExampleFromZero | easy/c_423_transitive_closure.py:73-74 | vertex 0 of the example reaches all four vertices |
| TransitiveClosure.ExampleFromOne | easy/c_423_transitive_closure.py:75 | vertex 1 reaches 1 and 2 but not 0 or 3 |
| TransitiveClosure.ExampleLoop | easy/c_423_transitive_closure.py:8-19 | vertices 2 and 3 reach only themselves |
| TransitiveClosure.ExampleWellFormed | easy/c_423_transitive_closure.py:67-70 | the example graph names only its own vertices |
| TransitiveClosure.ExampleRow | easy/c_423_transitive_closure.py:8-19 | each entry of the documented matrix is the reachability of its pair |
| TransitiveClosure.ExampleReach | easy/c_423_transitive_closure.py:8-19 | the documented matrix is the reachability matrix of the example graph |
| TransitiveClosure.Example | easy/c_423_transitive_closure.py:66-79 | the three searches give True, True and False, and the closure is the documented matrix |
| MergeBinaryTrees.Merge | easy/c_422_merge_binary_trees.py:37-50 | `merge`: the result is empty exactly when both inputs are, and its values add up to the sum of both inputs' values. `MergeAt` and `MergeUnique` below pin it down position by position |
| MergeBinaryTrees.MergeNil | easy/c_422_merge_binary_trees.py:40-44 | an empty tree on either side leaves the other tree as it is |
| MergeBinaryTrees.MergeAt | easy/c_422_merge_binary_trees.py:37-50 | at every position, the merged tree's value is the sum of the values present there in the inputs, and it has a node exactly when an input has |
| MergeBinaryTrees.MergeShape | easy/c_422_merge_binary_trees.py:5-7 | the merged tree has a node at a position exactly when one of the inputs has |
| MergeBinaryTrees.AtDetermines | easy/c_422_merge_binary_trees.py:10-15 | a tree is determined by its values at all positions |
| MergeBinaryTrees.MergeUnique | easy/c_422_merge_binary_trees.py:1-7 | any tree that sums the inputs position by position is the merge |
| MergeBinaryTrees.MergeComm | easy/c_422_merge_binary_trees.py:37-50 | merging is symmetric in its two trees |
| MergeBinaryTrees.MergeAssoc | easy/c_422_merge_binary_trees.py:37-50 | merging three trees does not depend on which pair is merged first |
| MergeBinaryTrees.Example | easy/c_422_merge_binary_trees.py:52-72 | the example trees merge into 9 over (13 over 4, 4) |
| PerfectNumbers.Digits | c_420_perfect_numbers.py:14-16 | `[int(i) for i in list(str(n))]`: at least one digit, and a leading 0 only for 0 itself. `DigitsRoundTrip` adds that the digits are single digits spelling the number back |
| PerfectNumbers.DigitsRoundTrip | c_420_perfect_numbers.py:14-16 | the digits `str` writes are single digits, and they spell the number back |
| PerfectNumbers.DigitSum | c_420_perfect_numbers.py:14-19 | `sum(digits)`: positive for every positive number; `DigitSumStep` gives its recursion on the last digit |
| PerfectNumbers.DigitSumStep | c_420_perfect_numbers.py:14-19 | the digit sum is the digit sum without the last digit plus that digit |
| PerfectNumbers.PerfectsBelowSpec | c_420_perfect_numbers.py:10-24 | the list the loop builds up to a bound holds exactly the numbers in [1, bound) with digit sum 10, in strictly increasing order |
| PerfectNumbers.PerfectsBelowPrefix | c_420_perfect_numbers.py:12-24 | raising the bound only appends |
| PerfectNumbers.NthPerfect | c_420_perfect_numbers.py:19-22 | a number with digit sum 10 sits in the list right after the ones below it |
| PerfectNumbers.PerfectsBelowGap | c_420_perfect_numbers.py:12-24 | a stretch without such numbers adds nothing |
| PerfectNumbers.SearchBelow | c_420_perfect_numbers.py:8-25 | the loop with its bound as a parameter. The n-th number with digit sum 10 below the bound exactly when there are at least n ≥ 1 of them, otherwise ValueError. The result lies in [1, bound), has digit sum 10, and has n-1 such numbers below it |
| PerfectNumbers.NthPerfectNumber | c_420_perfect_numbers.py:6-25 | the same with the bound `MAX_ITERATIONS` = 10000, so every n ≤ 0 raises ValueError |
| PerfectNumbers.TwoDigitSum | c_420_perfect_numbers.py:14-16 | a two-digit number's digit sum is its tens digit plus its units digit |
| PerfectNumbers.FirstTwo | c_420_perfect_numbers.py:4 | 19 and 28 have digit sum 10; none below 19 has, and only 19 below 28 has |
| PerfectNumbers.LowHundredsSum | c_420_perfect_numbers.py:14-16 | 100 to 109 have digit sum 1 plus their units digit |
| PerfectNumbers.TwoDigitNext | c_420_perfect_numbers.py:30 | between two consecutive two-digit numbers with digit sum 10 there is no other |
| PerfectNumbers.TwoDigitCount | c_420_perfect_numbers.py:30 | 9t + 10 is the t-th number with digit sum 10, for t from 1 to 9 |
| PerfectNumbers.NotPerfectAfterNinetyOne | c_420_perfect_numbers.py:30 | 92 to 108 do not have digit sum 10 |
| PerfectNumbers.NineBelow | c_420_perfect_numbers.py:30 | every bound from 92 to 109 has nine such numbers below it |
| PerfectNumbers.FirstTen | c_420_perfect_numbers.py:30 | 109 has digit sum 10 and nine such numbers below it |
| PerfectNumbers.Example | c_420_perfect_numbers.py:27-30 | `nth_perfect_number` gives 19 for 1, 28 for 2 and 109 for 10 |

## Left out

- Printing is left out because it is output only: `Board.print_board`, the `print(moves)` in `Knight.available_moves`, `print_tree`, and the prints of the demonstration blocks. The demonstrations' data and results appear as the example members.
- The abstract base classes `Piece` and `ExtractElementsStrategy` are not modelled. They are never instantiated, and their `NotImplementedError` cannot be reached. Piece kinds are a datatype, and strategies are a tag that `Context` dispatches on.
- `Piece.get_position`, `get_value` and `__repr__` are not modelled separately: positions and glyphs are fields of the piece datatype, and `__repr__` is output only.
- The order in which `RegularStrategy` visits the set is left unspecified, as Python leaves it: `RegularStrategy` picks an arbitrary member each round. Its contract states the result as a duplicate-free list with the right members, not its order.
- ChessPieces.PawnMoves, RookMoves, BishopMoves, QueenMoves, KnightMoves: their contracts state which squares are in the list and that none repeats, not the list's order. The order does not affect `is_check`.
- numpy's float matrix is not modelled: `np.zeros` gives float zeros, but the closure matrix here holds integers 0 and 1. The character grid is an `array2<char>`, and the size tuple is two natural numbers, so negative or non-two-dimensional sizes are not modelled.
- Aliasing of the piece list is not modelled. `Board.__init__` stores the caller's list itself, and `is_check` reads that list when it is called, while the grid and `self.king` were fixed at construction. A caller that changes the list after construction would make `is_check` see pieces the grid does not show. `Board.pieces` is an immutable sequence, so the model always sees the pieces the board was built from.
- Object identity in `merge` is not modelled. The result shares the unmerged subtrees of its inputs as objects, and a later mutation through either would show in both. Datatype values have no identity, so that aliasing is not captured. `merge` itself mutates nothing but the fresh node.
- Ill-typed inputs raising TypeError are not modelled: coordinates that are not integers, a non-integer `n`, or a graph whose entries are not lists of integers.
- TransitiveClosure.Bfs: the IndexError case is stated one way only. An error implies a reachable vertex that is not a valid index, and well-formed graphs never raise. The contract does not say exactly when the error happens, because that depends on the order of the search.
- TransitiveClosure.Closure: likewise, an error implies some reachable vertex that is not a valid index, and a well-formed graph gives a matrix.
