/** The race's player registry (`RaceManager`): the list of registered players and the
    standing of one player when they are ordered by how far along the z axis they are. */
module Race {
  import opened StableSort

  /** The identity of a registered `PlayerMovement` object; the registry compares players by
      reference, so only identity matters here. */
  type PlayerId = nat

  /** The sort key of `OrderByDescending(p => p.transform.position.z)`: a stable ascending sort
      on `-z` puts larger `z` first and leaves players with equal `z` in list order. */
  function Descending(z: PlayerId -> real): (key: PlayerId -> real)
    ensures forall a, b :: z(a) > z(b) <==> key(a) < key(b)
    ensures forall a, b :: z(a) == z(b) <==> key(a) == key(b)
  {
    (p: PlayerId) => -z(p)
  }

  class RaceManager {
    /** `players`: the registered players, in the order they were registered. */
    var players: seq<PlayerId>

    /** `RegisterPlayer` never adds a player twice. */
    ghost predicate Valid()
      reads this
    {
      Distinct(players)
    }

    constructor ()
      ensures Valid() && players == []
    {
      players := [];
    }

    /** Adds `player` at the end unless it is already registered. */
    method RegisterPlayer(player: PlayerId)
      requires Valid()
      modifies this
      ensures Valid()
      ensures player in old(players) ==> players == old(players)
      ensures player !in old(players) ==> players == old(players) + [player]
    {
      if player !in players {
        players := players + [player];
      }
    }

    /** The standings when each player's current z-coordinate is `z`: largest z first, ties in
        registration order, every registered player exactly once. */
    function Standings(z: PlayerId -> real): (r: seq<PlayerId>)
      reads this
      ensures multiset(r) == multiset(players)
      ensures forall i, j :: 0 <= i < j < |r| ==> z(r[i]) >= z(r[j])
      ensures forall k :: KeyFilter(r, Descending(z), k) == KeyFilter(players, Descending(z), k)
    {
      SortBySorted(players, Descending(z));
      assert forall k :: KeyFilter(SortBy(players, Descending(z)), Descending(z), k)
                         == KeyFilter(players, Descending(z), k) by {
        forall k ensures KeyFilter(SortBy(players, Descending(z)), Descending(z), k)
                         == KeyFilter(players, Descending(z), k) {
          SortByStable(players, Descending(z), k);
        }
      }
      SortBy(players, Descending(z))
    }

    /** The 1-based place of `localPlayer` in the standings, or 0 when it is not registered.
        A registered player's place is one more than the number of registered players further
        along z plus the number of players at the same z registered before it. */
    function GetPlayerPosition(localPlayer: PlayerId, z: PlayerId -> real): (pos: int)
      reads this
      ensures localPlayer !in players ==> pos == 0
      ensures localPlayer in players ==> 1 <= pos <= |players|
      ensures localPlayer in players ==>
        pos == 1 + CountBelow(players, Descending(z), Descending(z)(localPlayer))
                 + IndexOf(KeyFilter(players, Descending(z), Descending(z)(localPlayer)), localPlayer)
    {
      var sorted := Standings(z);
      assert localPlayer in players <==> localPlayer in multiset(sorted);
      if localPlayer in players then
        assert Descending(z)(localPlayer) == -z(localPlayer);
        SortByIndexOf(players, Descending(z), localPlayer);
        IndexOf(sorted, localPlayer) + 1
      else
        IndexOf(sorted, localPlayer) + 1
    }

    /** `players.Count`, which is the number of distinct players ever registered. */
    function GetTotalPlayers(): (n: int)
      reads this
      requires Valid()
      ensures n == |Elements(players)|
    {
      DistinctCardinality(players);
      |players|
    }

    /** A player strictly further along z is strictly ahead in the standings. */
    lemma FurtherAlongIsAhead(a: PlayerId, b: PlayerId, z: PlayerId -> real)
      requires a in players && b in players && z(a) > z(b)
      ensures 0 < GetPlayerPosition(a, z) < GetPlayerPosition(b, z)
    {
      var r := SortBy(players, Descending(z));
      SortBySorted(players, Descending(z));
      assert a in multiset(r) && b in multiset(r);
      var ia, ib := IndexOf(r, a), IndexOf(r, b);
      assert GetPlayerPosition(a, z) == ia + 1 && GetPlayerPosition(b, z) == ib + 1;
      SortedKeyLess(r, Descending(z), ia, ib);
    }

    /** Players at the same z are placed in the order they registered. */
    lemma TiesKeepRegistrationOrder(a: PlayerId, b: PlayerId, z: PlayerId -> real)
      requires a in players && b in players && z(a) == z(b)
      requires IndexOf(players, a) < IndexOf(players, b)
      ensures 0 < GetPlayerPosition(a, z) < GetPlayerPosition(b, z)
    {
      assert Descending(z)(a) == -z(a) == -z(b) == Descending(z)(b);
      KeyFilterKeepsOrder(players, Descending(z), a, b);
    }

    /** A position is one more than the player's index in the stable sort by descending z. */
    lemma PositionIsIndex(x: PlayerId, z: PlayerId -> real)
      ensures GetPlayerPosition(x, z) == IndexOf(SortBy(players, Descending(z)), x) + 1
    {
    }

    /** The `i`-th player of the standings has position `i + 1`. */
    lemma PositionsFollowStandings(z: PlayerId -> real)
      requires Valid()
      ensures forall i :: 0 <= i < |players| ==> GetPlayerPosition(Standings(z)[i], z) == i + 1
    {
      var r := SortBy(players, Descending(z));
      PermutationKeepsDistinct(players, r);
      DistinctIndexOf(r);
      forall i | 0 <= i < |players| ensures GetPlayerPosition(r[i], z) == i + 1 {
        PositionIsIndex(r[i], z);
      }
    }

    /** Two registered players never share a position. */
    lemma PositionsAreDistinct(z: PlayerId -> real)
      ensures forall a, b :: a in players && b in players && GetPlayerPosition(a, z) == GetPlayerPosition(b, z) ==> a == b
    {
    }

    /** Over the registered players, positions are one-to-one and cover exactly `1..count`;
        the player at position `i + 1` is the `i`-th of the standings. */
    lemma PositionsAreOneToN(z: PlayerId -> real)
      requires Valid()
      ensures forall i :: 0 <= i < |players| ==> GetPlayerPosition(Standings(z)[i], z) == i + 1
      ensures forall a, b :: a in players && b in players && GetPlayerPosition(a, z) == GetPlayerPosition(b, z) ==> a == b
    {
      PositionsFollowStandings(z);
      PositionsAreDistinct(z);
    }
  }
}
