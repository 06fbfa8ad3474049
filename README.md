# Swiss-system tournament: the pairing step

This project models the pairing loop of `swissPairings` in
`vagrant/tournament/tournament.py`, the part of the tournament manager that
turns the ranked standings into the matches of the next round. It does this in
Dafny and proves properties of the model.

The standings arrive as a list of `(id, name)` rows, best player first. The
loop treats that list as a queue. On each pass it reads the front row as
player 1 and the row at index `aux` (always 1) as player 2. It deletes index 1
and then index 0, and appends the 4-tuple `player1 + player2`, which is
`(id1, name1, id2, name2)`, to the result. It stops when the list is empty.
With an odd number of rows, the last pass finds one row left, and reading
`rows[1]` raises an index error.

The model has one module, `Tournament` (`Tournament.dfy`):

- `Row`, `Pairing` and `Standing` are the rows the code handles.
- `Concat` is tuple concatenation.
- `Delete` is `del rows[i]`.
- `PairUp` is a recursive reference definition of what the loop returns. It
  returns `Err(IndexOutOfRange)` where Python raises `IndexError`.
- `SwissPairings` is the loop itself. It is a method over a local, mutable
  sequence `rows` and a growing sequence `result`. It is proved equal to
  `PairUp`. The loop invariants tie `result` to the consumed prefix of the
  input and `rows` to the untouched suffix.

The lemmas state what the docstring promises, given an even number of players:

- there are n/2 pairings;
- the k-th pairing is rows 2k and 2k+1;
- every player appears in exactly one pairing;
- flattening the pairings gives back the standings, and the reverse round trip
  also holds;
- each player meets a neighbour in the standings, so the two win records are
  equal or nearly equal.

The code does no rematch avoidance and gives no bye. `aux` is the constant 1
(line 117), so pairing is purely positional, and an odd count fails only
through the out-of-range read at line 121. The model follows the code.

## Model

| member | source | states |
|---|---|---|
| Tournament.SwissPairings | vagrant/tournament/tournament.py:110-129 | The loop's result equals `PairUp(ranked)`. An empty list gives no pairings. It succeeds exactly when the number of rows is even, and then gives n/2 pairings whose flattening is the input. |
| Tournament.PairUp | vagrant/tournament/tournament.py:114-126 | The pairing succeeds exactly for an even number of rows and then gives n/2 pairings. An odd list fails with an out-of-range index. |
| Tournament.Concat | vagrant/tournament/tournament.py:126 | `player1 + player2` is a 4-tuple whose first two fields are player 1 and whose last two are player 2. |
| Tournament.ConcatOfPlayers | vagrant/tournament/tournament.py:97-102 | A pairing `(id1, name1, id2, name2)` is exactly the concatenation of its two players. |
| Tournament.Delete | vagrant/tournament/tournament.py:123-124 | `del s[i]` shortens the list by one, keeps the elements before i and shifts the later ones down by one. |
| Tournament.DeleteFrontPair | vagrant/tournament/tournament.py:122-124 | Deleting index 1 and then index 0 removes exactly the two front rows and leaves `rows[2..]` unchanged and in order. |
| Tournament.Flatten | vagrant/tournament/tournament.py:97-102 | Listing the players of the pairings gives two rows per pairing. |
| Tournament.PairUpAt | vagrant/tournament/tournament.py:119-126 | For an even-length list, the k-th pairing is row 2k followed by row 2k+1. |
| Tournament.PairUpUnique | vagrant/tournament/tournament.py:119-126 | Any list of pairings whose k-th entry is row 2k followed by row 2k+1, for every k, is exactly the list of pairings of the rows. |
| Tournament.FlattenPairUp | vagrant/tournament/tournament.py:92-93 | For an even-length list, flattening the pairings gives back the input in its original order. |
| Tournament.PairUpFlatten | vagrant/tournament/tournament.py:119-126 | Pairing the flattened rows of any list of pairings gives that list back, so the pairing is the inverse of flattening. |
| Tournament.EachRowOnce | vagrant/tournament/tournament.py:92-93 | With an even number of players with unique ids, the player in row i plays in the pairing of index i/2 and in no other. |
| Tournament.PairedWithOther | vagrant/tournament/tournament.py:119-124 | With unique ids, the two players of a pairing are different players. |
| Tournament.PairedAdjacentInStandings | vagrant/tournament/tournament.py:93-95 | For win-sorted standings whose (id, name) columns are the ranked rows, the k-th pairing is the players ranked 2k and 2k+1, and the first has at least as many wins as the second. |
| Tournament.NearlyEqualRecords | vagrant/tournament/tournament.py:93-95 | For win-sorted standings with unique ids, wherever the two players of the k-th pairing stand, the second stands immediately below the first and has no more wins, and no player has a win count strictly between theirs: the paired records are equal or nearly equal. |
| Tournament.FourPlayersExample | vagrant/tournament/tournament.py:110-129 | Players 1 to 4 in rank order give the pairings (1, A, 2, B) and (3, C, 4, D). |

## Left out

- The database fetch `select player_id, player_name from rank` (lines 106-108) is not modelled. It is replaced by the `ranked` parameter, which already holds the rows in rank order.
- The column projection at line 107, from a standing to its `(id, name)` row, has no contract of its own. `ToRow` is a plain helper, and the standings lemmas take the ranked rows with a requires that ties each one to its standing.
- The ranking view `rank` is not part of this model. `Standing` rows sorted by wins are a hypothesis of `PairedAdjacentInStandings` and `NearlyEqualRecords`, and the tie order is not modelled. This is because the view is SQL that the Python code only selects from.
- `playerStandings` (lines 61-77) and the `matches = wins + losses` column it selects are not modelled. The computation happens in the database.
- `get_cursor` and `connect` (lines 9-29) are not modelled. They are connection and transaction plumbing for an external PostgreSQL database.
- `deleteMatches`, `deletePlayers`, `countPlayers`, `registerPlayer` and `reportMatch` (lines 32-59, 79-87) are not modelled. Each is a single SQL statement with no logic on the Python side.
- In the odd case the model returns `Err(IndexOutOfRange)` and discards the partial result. Python raises `IndexError` at that point, and the exception's traceback and message are not modelled.
- Rematch avoidance, byes and named error kinds are not modelled because the code has none of them.
