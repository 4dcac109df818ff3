# Race standings: player registry and leaderboard ranking

A Dafny model of the standings logic of a multiplayer racing game built on Unity and Photon
Fusion. It covers two pieces:

- **The player registry** (`RaceManager`). It keeps a list of the players in the order they
  registered, and registering a player twice does nothing. It also answers two questions: how
  many players there are, and what place a given player holds. Places come from a stable sort
  by descending z-coordinate. A player that was never registered gets place 0.
- **The leaderboard ranking** (`UILeaderboard.UpdateLeaderboard`). Each player aims at the
  checkpoint after the last one they reached. That index is clamped into the checkpoint
  array, and a null slot falls back to `finishPos`. Players are stable-sorted by their
  distance to that target, nearest first. Each gets a `LeaderboardEntry` with the 1-based
  position `index + 1`, their name, their time and a local-player flag.

Files:

- `stable_sort.dfy` (module `StableSort`): the stable sort that both pieces use, as an
  insertion sort on sequences. It is proved to be sorted, to be a permutation, and to be
  stable: for every key, the elements with that key keep their input order. It is also proved
  to be the only sequence with those three properties, so it gives the same result as LINQ's
  `OrderBy` and `OrderByDescending`, whatever algorithm those use. This module also holds
  `List.IndexOf` and the rank formula for a sorted sequence.
- `race_manager.dfy` (module `Race`): the class `RaceManager`. Its field `players` is a
  `seq`, and `RegisterPlayer` is a method that modifies it. The position queries are
  functions of that field. The current z-coordinates are passed in as a function
  `z: PlayerId -> real`.
- `ui_leaderboard.dfy` (module `Leaderboard`): the ranking as pure functions. The checkpoint
  array is a `seq<Option<Vec3>>`, and `Vector3.Distance` is a function parameter.
- `unity_math.dfy` (module `UnityMath`): C#'s wrapping 32-bit `+`, `Mathf.Clamp` for ints,
  and `Vector3`.
- `wrappers.dfy` (module `Wrappers`): `Option` and `Result`.

Behaviour of the code worth knowing, which the model keeps as written:

- A player is ranked only by the straight distance to their next checkpoint (lines 69-75 of
  `UILeaderboard.cs`). Neither the checkpoint index nor the distance still to cover along the
  course takes part. So a player who has passed more checkpoints can be placed behind one who
  is nearer to an earlier checkpoint.
- With an empty checkpoint array, the code does not fall back to the finish line.
  `Mathf.Clamp(i + 1, 0, -1)` returns -1 for every index from -1 upward, short of
  `int.MaxValue`. That -1 passes the `nextIndex < checkpoints.Length` test, so line 73 reads
  `checkpoints[-1]` and throws. The model returns `Err(IndexOutOfRange)` in that case
  (`IndexFaults`, `RefreshOnEmptyCourse`).
- On line 62, when the last checkpoint slot is null, reading `.position` throws. The model
  returns `Err(NullReference)` (`FinishPos`, `RefreshOnCourse`).
- `CurrentCheckpointIndex` is declared in no file; the model assumes it is a C# `int`, since
  `int nextIndex = Mathf.Clamp(...)` on line 72 compiles only with the `int` overload of
  `Mathf.Clamp`. Its `+ 1` then wraps at `int.MaxValue`, and the clamp sends that player back
  to checkpoint 0 (`NextIndex`).

## Model

| member | source | states |
|---|---|---|
| Race.Descending | Assets/Scripts/RaceManager.cs:36 | the ascending key orders players exactly as descending z does, and ties exactly the players with equal z |
| Race.RaceManager.constructor | Assets/Scripts/RaceManager.cs:10 | the registry starts with an empty player list, which has no duplicates |
| Race.RaceManager.RegisterPlayer | Assets/Scripts/RaceManager.cs:26-32 | a player already registered leaves the list unchanged; a new player is appended at the end, so earlier entries keep their order; the list never holds a duplicate |
| Race.RaceManager.Standings | Assets/Scripts/RaceManager.cs:36 | `OrderByDescending` by z is a permutation of the registered players, non-increasing in z, and stable: each set of players with equal z keeps registration order |
| Race.RaceManager.GetPlayerPosition | Assets/Scripts/RaceManager.cs:34-38 | an unregistered player gets 0; a registered one gets a value in `1..count`, equal to 1 + the number of players further along z + the number of players at equal z registered before it |
| Race.RaceManager.GetTotalPlayers | Assets/Scripts/RaceManager.cs:40-43 | the count equals the number of distinct registered players |
| Race.RaceManager.FurtherAlongIsAhead | Assets/Scripts/RaceManager.cs:36-37 | a registered player with strictly greater z gets a strictly smaller position |
| Race.RaceManager.TiesKeepRegistrationOrder | Assets/Scripts/RaceManager.cs:36-37 | of two registered players with equal z, the one registered first gets the smaller position |
| Race.RaceManager.PositionsAreOneToN | Assets/Scripts/RaceManager.cs:36-37 | across the registered players, positions are one-to-one, and the `i`-th player of the standings has position `i + 1`, so positions cover exactly `1..count` |
| StableSort.IndexOf | Assets/Scripts/RaceManager.cs:37 | `List.IndexOf` returns -1 exactly for an absent element, and otherwise the index of its first occurrence |
| StableSort.SortBy | Assets/Scripts/UILeaderboard.cs:69-75 | the sorted sequence has the same length and the same multiset of elements as the input |
| StableSort.SortBySorted | Assets/Scripts/UILeaderboard.cs:69-75 | the sorted sequence is in non-decreasing key order |
| StableSort.SortByStable | Assets/Scripts/UILeaderboard.cs:69-75 | for every key, the elements with that key are in the same order after the sort as before it |
| StableSort.StableSortIsUnique | Assets/Scripts/UILeaderboard.cs:69-75 | any sequence in key order that keeps each key's elements in input order equals `SortBy`'s result, so any stable sort returns it |
| StableSort.SortByIndexOf | Assets/Scripts/RaceManager.cs:36-37 | an element's index in the stable sort is the number of elements with a smaller key plus the number of equal-keyed elements before it in the input |
| StableSort.DistinctCardinality | Assets/Scripts/RaceManager.cs:40-43 | a list without duplicates has as many distinct elements as entries |
| StableSort.PermutationKeepsDistinct | Assets/Scripts/RaceManager.cs:36 | reordering a duplicate-free list keeps it duplicate-free |
| UnityMath.AddInt32 | Assets/Scripts/UILeaderboard.cs:72 | `checkpointIndex + 1` is exact when it fits in 32 bits, and otherwise wraps modulo 2^32 into the `int` range |
| UnityMath.Clamp | Assets/Scripts/UILeaderboard.cs:72 | a value below `min` gives `min`; otherwise a value above `max` gives `max`; otherwise the value itself; so with `min <= max` the result lies in `[min, max]`, and with `max < min` it is `min` exactly for values below `min` |
| Leaderboard.NextIndex | Assets/Scripts/UILeaderboard.cs:72 | with at least one checkpoint the index lies in `[0, len-1]`: indexes below 0 map to 0, indexes from 0 up to `len-2` map to `index + 1`, any index at or past `len-1` maps to `len-1`; with none it is -1 for every index from -1 up; `int.MaxValue` wraps to 0 |
| Leaderboard.IndexFaults | Assets/Scripts/UILeaderboard.cs:72-73 | the target lookup throws exactly when the array is empty and the index is from -1 up (short of `int.MaxValue`) |
| Leaderboard.TargetPos | Assets/Scripts/UILeaderboard.cs:72-73 | the target is `finishPos` or the position of a checkpoint in the array; on a non-empty course with a set slot at the clamped index it is that checkpoint; with no checkpoints it is `finishPos`, which the ranking uses only when `IndexFaults` does not hold (otherwise the source throws and `UpdateLeaderboard` returns `Err`) |
| Leaderboard.TargetOnCourse | Assets/Scripts/UILeaderboard.cs:72-73 | with at least one checkpoint the clamped slot is in range, so `finishPos` is used only when that slot is null |
| Leaderboard.DistanceKey | Assets/Scripts/UILeaderboard.cs:70-75 | a player's sort key is the distance from its position to the checkpoint at its clamped next index when that slot is set, and to `finishPos` when the slot is null or there are no checkpoints; with no checkpoints this is the key only when `IndexFaults` does not hold, otherwise the selector throws and `UpdateLeaderboard` returns `Err` |
| Leaderboard.RankOrder | Assets/Scripts/UILeaderboard.cs:69-75 | the ordering is a permutation of the players, in non-decreasing distance-to-target order |
| Leaderboard.RankOrderIsStableSort | Assets/Scripts/UILeaderboard.cs:69-75 | players at equal distance keep their input order |
| Leaderboard.MakeEntry | Assets/Scripts/UILeaderboard.cs:76-88 | the entry for the player at 0-based index `i` has position `i + 1`, copies name, time and authority flag, and its distance is the same key the sort used |
| Leaderboard.UpdateLeaderboard | Assets/Scripts/UILeaderboard.cs:67-89 | fails with an index error exactly when some player's lookup faults; otherwise one entry per player, with positions `1..n` in list order and non-decreasing distances; entry `i` copies name, time and authority flag from the `i`-th ranked player, and its distance is that player's sort key |
| Leaderboard.UpdateLeaderboardOnCourse | Assets/Scripts/UILeaderboard.cs:69-75 | with at least one checkpoint the ranking never throws |
| Leaderboard.FinishPos | Assets/Scripts/UILeaderboard.cs:62 | an empty array gives `Vector3.zero`; otherwise the result is the last checkpoint's position, and it is a null-reference error exactly when that slot is null |
| Leaderboard.RefreshLeaderboard | Assets/Scripts/UILeaderboard.cs:59-63 | the refresh fails exactly when `finishPos` cannot be read or some player's lookup faults, with a null-reference error exactly in the first case; otherwise one entry per player with positions `1..n` |
| Leaderboard.RefreshOnCourse | Assets/Scripts/UILeaderboard.cs:59-63 | with checkpoints the refresh succeeds exactly when the last slot is set, and then `finishPos` is the last checkpoint, so every player is measured against an existing checkpoint |
| Leaderboard.RefreshOnEmptyCourse | Assets/Scripts/UILeaderboard.cs:59-63 | with no checkpoints `finishPos` is `Vector3.zero`, and the refresh succeeds only if every player's index is below -1 or at `int.MaxValue`; with no players it returns an empty list |

## Left out

- Vehicle physics, input and camera (`PlayerMovement.cs`, `FirstPersonCamera.cs`): float
  dynamics and engine input. They produce the positions that the model takes as inputs.
- Float arithmetic: positions and distances are exact reals. `Vector3.Distance` and the
  players' z-coordinates are inputs (`distance`, `z`), not computed.
- `FormatTime`, the km/h speed text and the text built into `LeaderboardText` and
  `PositionText`: display formatting that depends on float rounding.
- `RaceManager.Update`: it does not compile against the `LeaderboardEntry` and
  `UpdateLeaderboard` declared in `UILeaderboard.cs` (it sets a `Speed` field and calls a
  private method with another signature).
- `RaceManager.Checkpoints`, `RaceManager.GetPlayers` and the `PlayerMovement` members
  `PlayerName`, `CurrentCheckpointIndex` and `ElapsedTime`: used but not declared in any
  file. They are the inputs `checkpoints`, `players` and the `PlayerState` fields.
- The singleton `Awake`/`DontDestroyOnLoad`, the coroutine that waits for the local player,
  the scene-name check, spawning and scene loading: engine lifecycle and networking.
- Finish detection, finish positions and a final results snapshot: no file shown
  implements them. `RaceResults` is not part of this model.
- LINQ's lazy evaluation is not modelled: the model computes every key up front, and an
  exception there makes the whole call fail.
- Unity's overloaded `==` treats a destroyed object as null. The model has only the `None`
  slot.
- Null or destroyed players: `PlayerId` and `PlayerState` have no null. In the code,
  `RegisterPlayer(null)` finds no null in the list and adds it (RaceManager.cs:30); from
  then on every `GetPlayerPosition` throws when its key selector reads `p.transform`
  (line 36), while `GetTotalPlayers` counts the null. Nothing removes a player, so a
  despawned player's destroyed object stays in the list and throws the same way. A null
  entry in `GetPlayers()` makes the leaderboard key selector throw in the same manner
  (UILeaderboard.cs:72-74).
- A null `Checkpoints` array: the guard on line 59 of `UILeaderboard.cs` then skips the
  refresh, while `RefreshLeaderboard` takes a `Course`, which is never null; the model covers
  only the case where the guard lets the refresh run.
- Race.RaceManager.GetTotalPlayers: requires the class invariant `Valid()` (no duplicates).
  Every constructor and every `RegisterPlayer` call keeps that invariant.
