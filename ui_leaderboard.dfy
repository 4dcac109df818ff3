/** The leaderboard ranking of `UILeaderboard`: each player aims at the checkpoint after the
    last one it reached (clamped into the checkpoint array), players are stable-sorted by their
    distance to that target, nearest first, and each gets a `LeaderboardEntry` with a 1-based
    position. Positions and the distance measure are inputs: `distance` stands for
    `Vector3.Distance`. */
module Leaderboard {
  import opened Wrappers
  import opened UnityMath
  import opened StableSort

  /** What the ranking reads of one `PlayerMovement`: its display name, its world position, the
      index of the last checkpoint it reached (-1 before the first), its elapsed race time and
      whether this process holds its state authority. */
  datatype PlayerState = PlayerState(
    name: string,
    position: Vec3,
    currentCheckpointIndex: Int32,
    elapsedTime: real,
    hasStateAuthority: bool)

  /** `LeaderboardEntry`. */
  datatype LeaderboardEntry = LeaderboardEntry(
    name: string,
    position: int,
    distanceToFinish: real,
    time: real,
    isLocal: bool)

  /** The exceptions the ranking code can raise. */
  datatype Error = IndexOutOfRange | NullReference

  /** The course's checkpoints in order; `None` is a null `Transform` slot. */
  type Course = seq<Option<Vec3>>

  /** `Mathf.Clamp(p.CurrentCheckpointIndex + 1, 0, checkpoints.Length - 1)`. On a course with
      checkpoints it always lies inside the array: before the first checkpoint (index -1) it
      is 0, from the last checkpoint on it is the last index, in between it is the next index.
      With no checkpoints it is -1 for every index from -1 up. The 32-bit `+ 1` wraps at
      `int.MaxValue`, which the clamp then sends to 0. */
  function NextIndex(p: PlayerState, checkpoints: Course): (i: int)
    ensures |checkpoints| >= 1 ==> 0 <= i < |checkpoints|
    ensures |checkpoints| >= 1 && p.currentCheckpointIndex < INT32_MAX ==>
      i == if p.currentCheckpointIndex + 1 < 0 then 0
           else if p.currentCheckpointIndex + 1 > |checkpoints| - 1 then |checkpoints| - 1
           else p.currentCheckpointIndex + 1
    ensures |checkpoints| == 0 ==>
      i == if -1 <= p.currentCheckpointIndex < INT32_MAX then -1 else 0
    ensures p.currentCheckpointIndex == INT32_MAX ==> i == 0
  {
    Clamp(AddInt32(p.currentCheckpointIndex, 1), 0, |checkpoints| - 1)
  }

  /** Evaluating the target throws: the clamped index passes the `nextIndex <
      checkpoints.Length` test but is negative, so `checkpoints[nextIndex]` is out of range. */
  predicate IndexFaults(p: PlayerState, checkpoints: Course): (faults: bool)
    ensures faults <==> |checkpoints| == 0 && -1 <= p.currentCheckpointIndex < INT32_MAX
  {
    var i := NextIndex(p, checkpoints);
    i < |checkpoints| && i < 0
  }

  /** The point a player is measured against: the next checkpoint when that index is in range
      and its slot is not null, `finishPos` otherwise. When `IndexFaults` holds the source
      throws instead, and no result built from this value is returned. */
  function TargetPos(p: PlayerState, checkpoints: Course, finishPos: Vec3): (target: Vec3)
    ensures target == finishPos || Some(target) in checkpoints
    ensures |checkpoints| >= 1 && checkpoints[NextIndex(p, checkpoints)].Some? ==>
      target == checkpoints[NextIndex(p, checkpoints)].value
    ensures |checkpoints| == 0 ==> target == finishPos
  {
    var i := NextIndex(p, checkpoints);
    if 0 <= i < |checkpoints| && checkpoints[i].Some? then checkpoints[i].value else finishPos
  }

  /** The key selector of `OrderBy`: distance from the player to the checkpoint at its clamped
      next index when that slot is set, and to `finishPos` when the slot is null or there are no
      checkpoints. With no checkpoints the latter holds only when `IndexFaults` does not; when
      it does, the source's selector throws instead and `UpdateLeaderboard` returns `Err`. */
  function DistanceKey(checkpoints: Course, finishPos: Vec3, distance: (Vec3, Vec3) -> real): (key: PlayerState -> real)
    ensures forall p :: |checkpoints| >= 1 && checkpoints[NextIndex(p, checkpoints)].Some? ==>
      key(p) == distance(p.position, checkpoints[NextIndex(p, checkpoints)].value)
    ensures forall p :: |checkpoints| == 0 || checkpoints[NextIndex(p, checkpoints)].None? ==>
      key(p) == distance(p.position, finishPos)
  {
    var key := (p: PlayerState) => distance(p.position, TargetPos(p, checkpoints, finishPos));
    assert forall p :: key(p) == distance(p.position, TargetPos(p, checkpoints, finishPos));
    key
  }

  /** `players.OrderBy(key)`: the players, nearest to their target first, ties in input order. */
  function RankOrder(players: seq<PlayerState>, checkpoints: Course, finishPos: Vec3,
                     distance: (Vec3, Vec3) -> real): (order: seq<PlayerState>)
    ensures multiset(order) == multiset(players)
    ensures SortedBy(order, DistanceKey(checkpoints, finishPos, distance))
  {
    SortBySorted(players, DistanceKey(checkpoints, finishPos, distance));
    SortBy(players, DistanceKey(checkpoints, finishPos, distance))
  }

  /** The entry `Select((p, index) => ...)` builds for `p` at 0-based `index`. */
  function MakeEntry(p: PlayerState, index: nat, checkpoints: Course, finishPos: Vec3,
                     distance: (Vec3, Vec3) -> real): (entry: LeaderboardEntry)
    ensures entry.position == index + 1
    ensures entry.name == p.name && entry.time == p.elapsedTime && entry.isLocal == p.hasStateAuthority
    ensures entry.distanceToFinish == DistanceKey(checkpoints, finishPos, distance)(p)
  {
    LeaderboardEntry(
      p.name,
      index + 1,
      distance(p.position, TargetPos(p, checkpoints, finishPos)),
      p.elapsedTime,
      p.hasStateAuthority)
  }

  /** `UpdateLeaderboard(players, checkpoints, finishPos)` up to the text it renders: the
      ranked entries, or the exception the key selector throws. */
  function UpdateLeaderboard(players: seq<PlayerState>, checkpoints: Course, finishPos: Vec3,
                             distance: (Vec3, Vec3) -> real): (r: Result<seq<LeaderboardEntry>, Error>)
    ensures r.Err? <==> exists p :: p in players && IndexFaults(p, checkpoints)
    ensures r.Err? ==> r.error == IndexOutOfRange
    ensures r.Ok? ==> |r.value| == |players|
    ensures r.Ok? ==> forall i :: 0 <= i < |r.value| ==> r.value[i].position == i + 1
    ensures r.Ok? ==> forall i, j :: 0 <= i < j < |r.value| ==>
      r.value[i].distanceToFinish <= r.value[j].distanceToFinish
    ensures r.Ok? ==>
      var order := RankOrder(players, checkpoints, finishPos, distance);
      && |order| == |r.value|
      && forall i :: 0 <= i < |r.value| ==>
           && r.value[i].name == order[i].name
           && r.value[i].time == order[i].elapsedTime
           && r.value[i].isLocal == order[i].hasStateAuthority
           && r.value[i].distanceToFinish == distance(order[i].position, TargetPos(order[i], checkpoints, finishPos))
  {
    if exists p :: p in players && IndexFaults(p, checkpoints) then
      Err(IndexOutOfRange)
    else
      var order := RankOrder(players, checkpoints, finishPos, distance);
      Ok(seq(|order|, i requires 0 <= i < |order| => MakeEntry(order[i], i, checkpoints, finishPos, distance)))
  }

  /** The ranking is stable: for every distance, the players at that distance appear in their
      input order (with `RankOrder`'s own contract: a permutation in distance order, which by
      `StableSortIsUnique` is what any stable sort returns). */
  lemma RankOrderIsStableSort(players: seq<PlayerState>, checkpoints: Course, finishPos: Vec3,
                              distance: (Vec3, Vec3) -> real, d: real)
    ensures var key := DistanceKey(checkpoints, finishPos, distance);
      KeyFilter(RankOrder(players, checkpoints, finishPos, distance), key, d) == KeyFilter(players, key, d)
  {
    SortByStable(players, DistanceKey(checkpoints, finishPos, distance), d);
  }

  /** On a course with checkpoints, `finishPos` is used only for a player whose next
      checkpoint slot is null; any other player aims at that checkpoint. */
  lemma TargetOnCourse(p: PlayerState, checkpoints: Course, finishPos: Vec3)
    requires |checkpoints| >= 1
    ensures var i := NextIndex(p, checkpoints);
      && 0 <= i < |checkpoints|
      && (checkpoints[i].Some? ==> TargetPos(p, checkpoints, finishPos) == checkpoints[i].value)
      && (checkpoints[i].None? ==> TargetPos(p, checkpoints, finishPos) == finishPos)
  {
  }

  /** A course with at least one checkpoint never makes the ranking throw. */
  lemma UpdateLeaderboardOnCourse(players: seq<PlayerState>, checkpoints: Course, finishPos: Vec3,
                                  distance: (Vec3, Vec3) -> real)
    requires |checkpoints| >= 1
    ensures UpdateLeaderboard(players, checkpoints, finishPos, distance).Ok?
  {
    forall p | p in players ensures !IndexFaults(p, checkpoints) {
    }
  }

  /** `finishPos` as `Update` chooses it: the last checkpoint's position, or `Vector3.zero` for
      an empty array; reading `.position` of a null last slot throws. */
  function FinishPos(checkpoints: Course): (r: Result<Vec3, Error>)
    ensures |checkpoints| == 0 ==> r == Ok(Zero)
    ensures |checkpoints| > 0 ==> (r.Ok? <==> checkpoints[|checkpoints| - 1].Some?)
    ensures |checkpoints| > 0 && r.Ok? ==> checkpoints[|checkpoints| - 1] == Some(r.value)
    ensures r.Err? ==> r.error == NullReference
  {
    if |checkpoints| > 0 then
      match checkpoints[|checkpoints| - 1]
      case Some(c) => Ok(c)
      case None => Err(NullReference)
    else Ok(Zero)
  }

  /** The leaderboard refresh `Update` performs once checkpoints are known. */
  function RefreshLeaderboard(players: seq<PlayerState>, checkpoints: Course,
                              distance: (Vec3, Vec3) -> real): (r: Result<seq<LeaderboardEntry>, Error>)
    ensures r.Err? <==> FinishPos(checkpoints).Err? || exists p :: p in players && IndexFaults(p, checkpoints)
    ensures r.Err? ==> (r.error == NullReference <==> FinishPos(checkpoints).Err?)
    ensures r.Ok? ==> |r.value| == |players|
    ensures r.Ok? ==> forall i :: 0 <= i < |r.value| ==> r.value[i].position == i + 1
  {
    match FinishPos(checkpoints)
    case Err(e) => Err(e)
    case Ok(finishPos) => UpdateLeaderboard(players, checkpoints, finishPos, distance)
  }

  /** On a course with checkpoints, the refresh succeeds exactly when the last slot is set;
      then `finishPos` is the last checkpoint's position, so every player is measured against
      a checkpoint that exists: its next one, or the last one when the next slot is null. */
  lemma RefreshOnCourse(players: seq<PlayerState>, checkpoints: Course,
                        distance: (Vec3, Vec3) -> real, p: PlayerState)
    requires |checkpoints| >= 1
    ensures RefreshLeaderboard(players, checkpoints, distance).Ok?
            <==> checkpoints[|checkpoints| - 1].Some?
    ensures checkpoints[|checkpoints| - 1].Some? ==>
      FinishPos(checkpoints) == Ok(checkpoints[|checkpoints| - 1].value)
    ensures checkpoints[|checkpoints| - 1].Some? ==>
      Some(TargetPos(p, checkpoints, FinishPos(checkpoints).value)) in checkpoints
  {
  }

  /** With no checkpoints the refresh measures against `Vector3.zero` and succeeds only when
      no player faults, in particular when there are no players. */
  lemma RefreshOnEmptyCourse(players: seq<PlayerState>, distance: (Vec3, Vec3) -> real)
    ensures RefreshLeaderboard(players, [], distance) == UpdateLeaderboard(players, [], Zero, distance)
    ensures RefreshLeaderboard(players, [], distance).Ok?
            <==> forall p :: p in players ==> p.currentCheckpointIndex < -1 || p.currentCheckpointIndex == INT32_MAX
    ensures players == [] ==> RefreshLeaderboard(players, [], distance) == Ok([])
  {
  }
}
