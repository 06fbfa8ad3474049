/**
  The pairing step of a Swiss-system tournament.

  The ranked standings arrive as a list of (id, name) rows, best player first.
  `SwissPairings` treats that list as a queue: it takes the two front rows,
  deletes them from the list and appends their concatenation
  (id1, name1, id2, name2) to the result, until the list is empty. With an odd
  number of rows the last pass reads past the end of the list and fails.

  `PairUp` is the reference definition of what the loop computes; the lemmas
  below state what it promises: n/2 pairings for n rows, the k-th pairing made
  of rows 2k and 2k+1, every row in exactly one pairing, flattening giving the
  input back, and each player meeting a neighbour in the standings.
*/
module Tournament {

  /** One row of the ranking: a player's unique id and registered name. */
  datatype Row = Row(id: int, name: string)

  /** One match of the next round, the 4-tuple (id1, name1, id2, name2). */
  datatype Pairing = Pairing(id1: int, name1: string, id2: int, name2: string)

  /** The only way the pairing loop fails: an index past the end of the list. */
  datatype Error = IndexOutOfRange

  datatype Result<T> = Ok(value: T) | Err(error: Error)

  /** One row of the standings (id, name, wins), of which the pairing step sees only (id, name). */
  datatype Standing = Standing(id: int, name: string, wins: nat)

  // ---------------------------------------------------------------------------
  // Tuples and lists

  /** The first two fields of a pairing: the higher-ranked player. */
  function Player1(t: Pairing): (r: Row)
  {
    Row(t.id1, t.name1)
  }

  /** The last two fields of a pairing: the lower-ranked player. */
  function Player2(t: Pairing): (r: Row)
  {
    Row(t.id2, t.name2)
  }

  /** Tuple concatenation `player1 + player2`: a pair of 2-tuples makes a 4-tuple. */
  function Concat(p1: Row, p2: Row): (t: Pairing)
    ensures Player1(t) == p1 && Player2(t) == p2
  {
    Pairing(p1.id, p1.name, p2.id, p2.name)
  }

  /** Splitting a pairing into its two players and concatenating them again gives it back. */
  lemma ConcatOfPlayers(t: Pairing)
    ensures Concat(Player1(t), Player2(t)) == t
  {
  }

  /** `del s[i]`: the element at index i goes, the later ones move down by one. */
  function Delete<T>(s: seq<T>, i: nat): (r: seq<T>)
    requires i < |s|
    ensures |r| == |s| - 1
    ensures forall j :: 0 <= j < i ==> r[j] == s[j]
    ensures forall j :: i <= j < |r| ==> r[j] == s[j + 1]
  {
    s[..i] + s[i + 1..]
  }

  /**
    One pass of the loop deletes index 1 and then index 0: exactly the two
    front rows go and the rest stays, in order.
  */
  lemma DeleteFrontPair<T>(s: seq<T>)
    requires 2 <= |s|
    ensures Delete(Delete(s, 1), 0) == s[2..]
  {
  }

  /** The rows of a list of pairings, each pairing giving its two players in order. */
  function Flatten(ps: seq<Pairing>): (rows: seq<Row>)
    ensures |rows| == 2 * |ps|
  {
    if ps == [] then [] else [Player1(ps[0]), Player2(ps[0])] + Flatten(ps[1..])
  }

  // ---------------------------------------------------------------------------
  // Reference definition of the pairing loop

  /**
    What the pairing loop returns for a ranked list: the first two rows make
    the first pairing and the rest is paired the same way; a lone row left at
    the end cannot find its second player.
  */
  function PairUp(rows: seq<Row>): (r: Result<seq<Pairing>>)
    ensures r.Ok? <==> |rows| % 2 == 0
    ensures r.Ok? ==> |r.value| == |rows| / 2
    decreases |rows|
  {
    if |rows| == 0 then Ok([])
    else if |rows| == 1 then Err(IndexOutOfRange)
    else
      match PairUp(rows[2..])
      case Ok(rest) => Ok([Concat(rows[0], rows[1])] + rest)
      case Err(e) => Err(e)
  }

  /** The k-th pairing is row 2k followed by row 2k+1. */
  lemma {:induction false} PairUpAt(rows: seq<Row>, k: nat)
    requires |rows| % 2 == 0 && k < |rows| / 2
    ensures PairUp(rows).Ok?
    ensures PairUp(rows).value[k] == Concat(rows[2 * k], rows[2 * k + 1])
  {
    if k > 0 {
      PairUpAt(rows[2..], k - 1);
    }
  }

  /**
    A list of pairings whose k-th entry is row 2k followed by row 2k+1 of an
    even-length list, for every k, is the one that PairUp returns.
  */
  lemma PairUpUnique(rows: seq<Row>, ps: seq<Pairing>)
    requires |rows| == 2 * |ps|
    requires forall k :: 0 <= k < |ps| ==> ps[k] == Concat(rows[2 * k], rows[2 * k + 1])
    ensures PairUp(rows) == Ok(ps)
  {
    forall k | 0 <= k < |ps|
      ensures ps[k] == PairUp(rows).value[k]
    {
      PairUpAt(rows, k);
    }
    assert ps == PairUp(rows).value;
  }

  /** Flattening the pairings gives back the ranked list, in its original order. */
  lemma {:induction false} FlattenPairUp(rows: seq<Row>)
    requires |rows| % 2 == 0
    ensures PairUp(rows).Ok? && Flatten(PairUp(rows).value) == rows
  {
    if rows != [] {
      FlattenPairUp(rows[2..]);
      var ps := PairUp(rows).value;
      assert ps[1..] == PairUp(rows[2..]).value;
      assert rows == [rows[0], rows[1]] + rows[2..];
    }
  }

  /** Conversely, pairing the flattened rows of any list of pairings gives that list back. */
  lemma {:induction false} PairUpFlatten(ps: seq<Pairing>)
    ensures PairUp(Flatten(ps)) == Ok(ps)
  {
    if ps != [] {
      PairUpFlatten(ps[1..]);
      var f := Flatten(ps);
      assert f[2..] == Flatten(ps[1..]);
      ConcatOfPlayers(ps[0]);
      assert ps == [ps[0]] + ps[1..];
    }
  }

  /** Player ids are unique, as the database assigns them. */
  ghost predicate UniqueIds(rows: seq<Row>)
  {
    forall i, j :: 0 <= i < j < |rows| ==> rows[i].id != rows[j].id
  }

  /** Whether a row is one of the two players of a pairing. */
  predicate PlaysIn(t: Pairing, x: Row)
  {
    Player1(t) == x || Player2(t) == x
  }

  /**
    Every row of the input plays in exactly one pairing: the one of index i/2,
    and in no other.
  */
  lemma EachRowOnce(rows: seq<Row>, i: nat)
    requires |rows| % 2 == 0 && UniqueIds(rows) && i < |rows|
    ensures PairUp(rows).Ok?
    ensures forall k :: 0 <= k < |PairUp(rows).value| ==>
              (PlaysIn(PairUp(rows).value[k], rows[i]) <==> k == i / 2)
  {
    var ps := PairUp(rows).value;
    forall k | 0 <= k < |ps|
      ensures PlaysIn(ps[k], rows[i]) <==> k == i / 2
    {
      PairUpAt(rows, k);
      if Player1(ps[k]) == rows[i] {
        assert rows[2 * k].id == rows[i].id;
      } else if Player2(ps[k]) == rows[i] {
        assert rows[2 * k + 1].id == rows[i].id;
      }
    }
  }

  /** With unique ids no player is paired with themselves. */
  lemma PairedWithOther(rows: seq<Row>, k: nat)
    requires |rows| % 2 == 0 && UniqueIds(rows) && k < |rows| / 2
    ensures PairUp(rows).Ok?
    ensures Player1(PairUp(rows).value[k]).id != Player2(PairUp(rows).value[k]).id
  {
    PairUpAt(rows, k);
  }

  // ---------------------------------------------------------------------------
  // Pairing by standings

  /** The (id, name) columns of a standing, as the pairing step selects them. */
  function ToRow(s: Standing): (r: Row)
  {
    Row(s.id, s.name)
  }

  /** Standings sorted so that no player has more wins than a player ranked above. */
  ghost predicate RankedByWins(st: seq<Standing>)
  {
    forall i, j :: 0 <= i < j < |st| ==> st[i].wins >= st[j].wins
  }

  /**
    Pairing by rank follows the standings. Let `ranked` be the (id, name)
    columns of win-sorted standings. The k-th pairing of `ranked` is the
    players ranked 2k and 2k+1, and the first has at least as many wins as
    the second. The win comparison comes from the sortedness hypothesis; the
    lemma places the pairing's two players at those neighbouring ranks.
  */
  lemma {:induction false} PairedAdjacentInStandings(st: seq<Standing>, ranked: seq<Row>, k: nat)
    requires |ranked| == |st| && forall i :: 0 <= i < |st| ==> ranked[i] == ToRow(st[i])
    requires RankedByWins(st) && |st| % 2 == 0 && k < |st| / 2
    ensures PairUp(ranked).Ok?
    ensures PairUp(ranked).value[k] == Concat(ToRow(st[2 * k]), ToRow(st[2 * k + 1]))
    ensures st[2 * k].wins >= st[2 * k + 1].wins
  {
    PairUpAt(ranked, k);
  }

  /**
    Pairing by rank matches equal or nearly-equal win records. Wherever the
    two players of the k-th pairing stand in the win-sorted standings, the
    second stands immediately below the first, has no more wins, and no
    player at all has a win count strictly between theirs. Unique ids let
    the players be found in the standings from the pairing alone.
  */
  lemma {:induction false} NearlyEqualRecords(st: seq<Standing>, ranked: seq<Row>, k: nat)
    requires |ranked| == |st| && forall i :: 0 <= i < |st| ==> ranked[i] == ToRow(st[i])
    requires RankedByWins(st) && UniqueIds(ranked) && |st| % 2 == 0 && k < |st| / 2
    ensures PairUp(ranked).Ok?
    ensures forall a, b :: 0 <= a < |st| && 0 <= b < |st|
              && ToRow(st[a]) == Player1(PairUp(ranked).value[k])
              && ToRow(st[b]) == Player2(PairUp(ranked).value[k])
              ==> b == a + 1 && st[a].wins >= st[b].wins
                  && forall j :: 0 <= j < |st| ==> !(st[b].wins < st[j].wins < st[a].wins)
  {
    PairUpAt(ranked, k);
    var p := PairUp(ranked).value[k];
    forall a, b | 0 <= a < |st| && 0 <= b < |st| && ToRow(st[a]) == Player1(p) && ToRow(st[b]) == Player2(p)
      ensures b == a + 1 && st[a].wins >= st[b].wins
      ensures forall j :: 0 <= j < |st| ==> !(st[b].wins < st[j].wins < st[a].wins)
    {
      assert ranked[a].id == ranked[2 * k].id;
      assert ranked[b].id == ranked[2 * k + 1].id;
    }
  }

  /** Four players with no history: A meets B and C meets D. */
  lemma FourPlayersExample()
    ensures PairUp([Row(1, "A"), Row(2, "B"), Row(3, "C"), Row(4, "D")])
         == Ok([Pairing(1, "A", 2, "B"), Pairing(3, "C", 4, "D")])
  {
    var rows := [Row(1, "A"), Row(2, "B"), Row(3, "C"), Row(4, "D")];
    var tail := [Row(3, "C"), Row(4, "D")];
    assert rows[2..] == tail && tail[2..] == [];
    assert PairUp(tail).value == [Concat(tail[0], tail[1])] + PairUp(tail[2..]).value;
    assert PairUp(rows).value == [Concat(rows[0], rows[1])] + PairUp(tail).value;
    assert PairUp(rows).value == [Pairing(1, "A", 2, "B"), Pairing(3, "C", 4, "D")];
  }

  // ---------------------------------------------------------------------------
  // The pairing loop

  /**
    The pairing loop of swissPairings over the ranked rows. The list is
    consumed from the front, two rows per pass; the second player is read at
    index `aux`, which is always 1, so pairing is purely positional.
  */
  method SwissPairings(ranked: seq<Row>) returns (r: Result<seq<Pairing>>)
    ensures r == PairUp(ranked)
    ensures ranked == [] ==> r == Ok([])
    ensures r.Ok? <==> |ranked| % 2 == 0
    ensures r.Ok? ==> |r.value| == |ranked| / 2 && Flatten(r.value) == ranked
  {
    var rows := ranked;
    var result: seq<Pairing> := [];
    while rows != []
      invariant 2 * |result| + |rows| == |ranked|
      invariant rows == ranked[2 * |result|..]
      invariant forall k :: 0 <= k < |result| ==> result[k] == Concat(ranked[2 * k], ranked[2 * k + 1])
      decreases |rows|
    {
      var aux := 1;
      var player1 := rows[0];
      if aux >= |rows| {
        r := Err(IndexOutOfRange);
        return;
      }
      var player2 := rows[aux];
      DeleteFrontPair(rows);
      rows := Delete(rows, aux);
      rows := Delete(rows, 0);
      result := result + [Concat(player1, player2)];
    }
    PairUpUnique(ranked, result);
    FlattenPairUp(ranked);
    r := Ok(result);
  }
}
