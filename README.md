# Blokus Duo game-state adapter, modelled in Dafny

This project models `BlokusDuoGS`, the adapter that exposes a Blokus Duo
board to an AlphaZero-style search engine. The model covers:

- the **move-index table**. This is the process-wide vector of all moves plus
  its inverse hash map, filled lazily on first use.
- the **legal-move mask** over move indices.
- the **terminal result**: nothing while the game goes on, otherwise a
  one-hot vector over (violet wins, orange wins, draw).
- the **canonical encoding**: a 2 x YSIZE x XSIZE 0/1 tensor. The pieces of
  the player to move always go in channel 0.
- the **symmetry augmentation** of training records. It builds the eight
  board orientations by alternately transposing and mirroring the tensor,
  and re-indexes each policy vector through `rotate_move`.

The board library itself (legality, scoring, the move enumeration, move
rotation, position keys) is not part of this model. It appears as the
`BoardLibrary.Library` value: board queries and static functions as
function-valued fields, over an abstract board type `B`, move type `M` and
key type `K`. The facts the adapter relies on are stated as predicates
(`Distinct`, `ValidMovesEnumerated`, `ValidMovesAgree`, `RotationPermutes`,
`PlayerMatchesTurn`).
The contracts assume them only where needed, and always explicitly.

Layout, one module per file:

| file | module | models |
|---|---|---|
| `board_library.dfy` | `BoardLibrary` | the interface of the board library and the assumptions about it |
| `move_index.dfy` | `MoveIndex` | `all_possible_moves` / `move_to_index` (class `MoveTable`), `compute_possible_moves`, `num_possible_moves` |
| `scatter.dfy` | `Scatter` | writing vector entries to computed indices; "distinct indices give a permutation" |
| `tensors.dfy` | `Tensors` | rank-3 tensors, Eigen's `shuffle({0,2,1})` and `reverse({false,false,true})`, the eight dihedral orientations |
| `blokusduo_gs.dfy` | `BlokusDuo` | the `BlokusDuoGS` class and its operations, the constants of the header |

Modelling choices:

- The globals `all_possible_moves` and `move_to_index` are the fields of one
  `MoveTable` object. Every game state holds a reference to that object.
  Every operation that calls `num_moves()` may fill the table, so it has the
  table in its `modifies` clause.
- `move_to_index[m]` goes through `unordered_map::operator[]`, which inserts
  0 for a missing key. It is modelled as a lookup that returns 0
  (`MoveIndex.Lookup`) and leaves the map unchanged. Every later lookup of
  that key reads 0 either way, so no observable value differs.
- `play_move` indexes `all_possible_moves` directly and does not trigger the
  lazy fill. Its precondition is therefore `move < |allMoves|` on the current
  vector, together with the legality `assert`.
- `Vector<float>(n)` in `symmetries` is not initialised. It is modelled by
  `new F[n]` over a type with a default value: entries nothing writes to hold
  an unspecified value.
- Float values (tensor entries of training records, policies, outcomes) are
  an opaque type `F`. They are only copied and moved. The 0.0/1.0 outputs of
  `canonicalized` and `scores` are the integers 0/1.
- Tensors are nested sequences with explicit dimensions. The shuffle/reverse
  chain is proved equal to eight independently defined orientations for any
  rectangular board. Those proofs do not need the board to be square.

## Model

| member | source | states |
|---|---|---|
| `MoveIndex.MoveTable.constructor` | src/blokusduo_gs.cc:13-14 | before first use the move vector and the index map are empty |
| `MoveIndex.MoveTable.ComputePossibleMoves` | src/blokusduo_gs.cc:16-21 | the vector becomes the library's enumeration; the map becomes the old map overridden by the index of every enumerated move |
| `MoveIndex.IndexMapLastOccurrence` | src/blokusduo_gs.cc:18-20 | the map's keys are exactly the enumerated moves; each maps to a position holding that move, namely its last occurrence |
| `MoveIndex.IndexMapInverts` | src/blokusduo_gs.cc:18-20 | with distinct moves, `move_to_index[all_possible_moves[i]] == i` for every i |
| `MoveIndex.LookupInRange` | src/blokusduo_gs.cc:56 | in a non-empty filled table every lookup, including the default 0 for a missing key, is a valid index; an enumerated move is found at an index that holds it |
| `MoveIndex.MoveTable.NumPossibleMoves` | src/blokusduo_gs.cc:26-29 | fills the table only when the vector is empty; afterwards the table is filled and every call returns the enumeration's size; a call on a filled table changes nothing |
| `MoveIndex.TargetsInjective` | src/blokusduo_gs.cc:118-119 | with distinct moves and a rotation that permutes them, two different policy entries are written to two different indices |
| `Scatter.ScatterStep` | src/blokusduo_gs.cc:119 | one more write `dst[target[i]] := src[i]` keeps every not-yet-overwritten entry in place |
| `Scatter.InjectiveScatter` | src/blokusduo_gs.cc:117-120 | through pairwise distinct target indices no write is overwritten, so every entry lands at its target |
| `Scatter.ScatterIsPermutation` | src/blokusduo_gs.cc:117-120 | scattering a vector through distinct indices into a vector of the same length yields a permutation (equal multisets) |
| `Tensors.Shuffle021` | src/blokusduo_gs.cc:102-104 | `shuffle({0,2,1})` swaps the last two dimensions: out(c,y,x) = in(c,x,y), shape (d0,d2,d1) |
| `Tensors.ReverseX` | src/blokusduo_gs.cc:103-105 | `reverse({false,false,true})` keeps the shape and reads the last axis backwards: out(c,y,x) = in(c,y,d2-1-x) |
| `Tensors.Shuffle021Involution` | src/blokusduo_gs.cc:102-104 | transposing twice gives the tensor back |
| `Tensors.ReverseXInvolution` | src/blokusduo_gs.cc:103-105 | mirroring the last axis twice gives the tensor back |
| `Tensors.Dihedral` | src/blokusduo_gs.cc:104-110 | orientation k is a valid tensor with the same channels; rows and columns trade places exactly for orientations 2, 3, 6, 7 |
| `Tensors.DihedralAt` | src/blokusduo_gs.cc:104-110 | each cell of orientation k is the base cell given by the orientation's index map (identity, mirror, quarter/half/three-quarter turn, transpose, vertical mirror, anti-transpose) |
| `Tensors.DihedralIdentity` | src/blokusduo_gs.cc:100 | orientation 0 is the base tensor itself |
| `Tensors.DihedralChain` | src/blokusduo_gs.cc:104-110 | the transpose/mirror chain of the source produces orientations 3, 2, 5, 4, 7, 6, 1 in that order, and mirroring orientation 1 gives back the base |
| `Tensors.QuarterTurnsCompose` | src/blokusduo_gs.cc:105-109 | records 2, 4, 6 are successive quarter turns: two quarter turns make orientation 4, three make 6, four the identity |
| `Tensors.DihedralRoundTrip` | src/blokusduo_gs.cc:99-110 | every orientation has an inverse orientation that restores the base encoding |
| `BlokusDuo.CanonicalShape` | src/blokusduo_gs.h:13 | the canonical shape has three dimensions: one channel per player, then YSIZE rows and XSIZE columns |
| `BlokusDuo.RotatedPolicyIsPermutation` | src/blokusduo_gs.cc:114-121 | when the moves are distinct and rotation by r permutes them, every policy entry sits at the index of its rotated move, and the re-indexed policy is a permutation of the base policy |
| `BlokusDuo.PolicyRoundTrip` | src/blokusduo_gs.cc:114-121 | if rotating by r2 undoes rotating by r on every move, re-indexing a policy for r and then for r2 gives the original policy |
| `BlokusDuo.MaskMarksExactly` | src/blokusduo_gs.cc:52-59 | with distinct moves, the mask is 1 at index i exactly when move i is among the listed valid moves |
| `BlokusDuo.BlokusDuoGS.CurrentPlayer` | src/blokusduo_gs.h:26-29 | the player to move is the board's player; when the board numbers players 0 (violet) and 1 (orange) by turn, it is a 0-indexed player below NUM_PLAYERS whose pieces go in channel 0 of the canonical encoding |
| `BlokusDuo.BlokusDuoGS.NumPlayers` | src/blokusduo_gs.h:40 | returns NUM_PLAYERS (2) |
| `BlokusDuo.BlokusDuoGS.NumSymmetries` | src/blokusduo_gs.h:60-62 | returns NUM_SYMMETRIES (8), which is also the length of the symmetries result |
| `BlokusDuo.BlokusDuoGS.NumMoves` | src/blokusduo_gs.cc:48-50 | fills the table if needed; returns the size of the enumeration; changes nothing once the table is filled |
| `BlokusDuo.BlokusDuoGS.MarkMoves` | src/blokusduo_gs.cc:53-58 | the mask has one 0/1 entry per move index; entry i is 1 exactly when move i is listed and i is its table index (an earlier duplicate stays 0); every listed move is marked at its table index |
| `BlokusDuo.BlokusDuoGS.ValidMoves` | src/blokusduo_gs.cc:52-59 | one 0/1 entry per move index; entry i is 1 exactly when move i is listed as valid and i is its table index; every valid move's index is set; with distinct moves entry i is 1 exactly when move i is legal |
| `BlokusDuo.BlokusDuoGS.PlayMove` | src/blokusduo_gs.cc:61-65 | requires an index inside the filled move vector whose move is legal, then applies exactly that move to the board |
| `BlokusDuo.BlokusDuoGS.Scores` | src/blokusduo_gs.cc:67-80 | none exactly when the game is not over; otherwise NUM_PLAYERS+1 entries, each 0 or 1: slot 0 is 1 iff violet scored more, slot 1 iff orange scored more, the draw slot iff the scores are equal |
| `BlokusDuo.ScoresOneHot` | src/blokusduo_gs.h:49-54 | a finished game has exactly one slot set to 1 |
| `BlokusDuo.BlokusDuoGS.Channel` | src/blokusduo_gs.cc:85 | the channel of player p is 0 exactly when p is the player to move |
| `BlokusDuo.BlokusDuoGS.FillChannel` | src/blokusduo_gs.cc:88-92 | writes the 0/1 occupancy of one player's tile bit into one channel and leaves the other channel unchanged |
| `BlokusDuo.BlokusDuoGS.Canonicalized` | src/blokusduo_gs.cc:82-95 | a 2 x YSIZE x XSIZE 0/1 tensor of the canonical shape; player p's tiles land in channel p on violet's turn and in channel 1-p otherwise; so channel 0 is the player to move and channel 1 the opponent |
| `BlokusDuo.BlokusDuoGS.RotatePolicy` | src/blokusduo_gs.cc:115-121 | a vector of num_moves entries in which each base entry not overwritten by a later one sits at `move_to_index[rotate_move(all_possible_moves[i], r)]` |
| `BlokusDuo.BlokusDuoGS.Symmetries` | src/blokusduo_gs.cc:97-124 | eight records; record 0 is the base; record r holds orientation r of the encoding, the base outcome, and the base policy re-indexed for r; when rotation by r permutes the (distinct) moves, that policy is a permutation of the base with entry i at its rotated move's index |
| `BlokusDuo.BlokusDuoGS.Equals` | src/blokusduo_gs.cc:35-42 | false against a state of another game; otherwise true exactly when the board keys are equal |
| `BlokusDuo.EqualsReflexive` | src/blokusduo_gs.cc:35-42 | a state equals a state of the same board |
| `BlokusDuo.BlokusDuoGS.MinimizeStorage` | src/blokusduo_gs.h:71-73 | leaves the state unchanged |

## Left out

- The board library (`blokusduo.h`) is not part of this model. Its legality
  rules, scoring, move enumeration, `rotate_move` and `key()` are abstract
  fields of `BoardLibrary.Library`.
- `copy`, `hash` and `dump` are left out. They are object cloning, hashing
  through absl, and string formatting, with no logic of the adapter's own.
- `current_turn` is left out. It only delegates to the board, like
  `current_player`.
- The search engine (`mcts.h`, `mcts.cc`) and `src/mcts_test.cc` are left
  out. The test exercises node and search code that is not part of this
  model, a Connect Four game and an evaluator that are not shown, and float
  arithmetic.
- Races on the unguarded lazy initialisation of the move table are left out:
  they are a concurrency question.
- Fixed-width integers (`uint32_t`, `uint8_t`, `int`) are not modelled. Move
  counts, indices and score differences are unbounded integers. The sizes
  involved are far below any wrap-around.
- Eigen's unchecked out-of-range writes are not modelled. In `valid_moves`
  only an empty table would write out of range. A listed move that is
  missing from a non-empty table reads index 0 through `operator[]`, so it
  marks entry 0. It also inserts the key into the map, which the model does
  not do (see `MoveIndex.LookupInRange`). `ValidMovesEnumerated` is a
  board-library assumption that every listed move is enumerated, and it
  excludes both effects. In `symmetries` every index is in range once the
  table is filled.
- BlokusDuo.BlokusDuoGS.ValidMoves: "entry i is 1 exactly when move i is
  legal" is stated only when the enumeration is distinct and the library's
  list of valid moves agrees with `is_valid_move`. Without these library
  facts, an earlier duplicate of a move stays 0.
- BlokusDuo.BlokusDuoGS.Symmetries: entry i lands at its rotated move's
  index, and the policy is a permutation, only when the moves are distinct
  and `rotate_move(·, r)` permutes them. Without that, a later write to the
  same index wins and unwritten entries are unspecified. Which orientation
  `rotate_move(·, r)` stands for is a fact of the board library, so the
  policy re-indexing is not tied to the tensor orientation of the same r.
- BlokusDuo.PolicyRoundTrip: takes as an assumption that rotation by r2
  undoes rotation by r. The board library does not say which r undoes
  which.
