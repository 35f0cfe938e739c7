# Bomberman server engine in Dafny

This project models the authoritative server of a multiplayer Bomberman game.
It has two parts:

- the game engine of `server/gameLogic.js`: map generation, starting a
  game, movement with power-up pickup, bomb placement, blast propagation
  with its kill and score bookkeeping, the deadline sweep, and pause/resume;
- the lobby of `server/roomManager.js`: creating, joining, leaving and
  starting rooms, and listing them.

Layout:

- `game_types.dfy` (module `GameTypes`): the vocabulary (tiles, grid,
  players, bombs, power-ups, the per-room `GameState`) and the engine
  invariant `GameInv`.
- `game_map.dfy` (`GameMap`): `generateMap` and `isSpawnPoint`, which are
  pure functions.
- `game_rules.dfy` (`GameRules`): `initializeGame`, `handlePlayerMove`,
  `handleBombPlace` and `setPaused` as functions from the old room state to
  the new one plus the reply, with the lemmas that state what they
  guarantee.
- `blast.dfy` (`Blast`): `handleBombExplosion` and `checkBombExplosions` as
  functions. It has lemmas about the directional walk, the destroyed rocks,
  who dies, the owner's score, and the bombs the sweep removes.
- `game_engine.dfy` (`GameEngine`): the engine as it runs. The class `Room`
  holds the fields that the handlers update in place, and `Games` is the
  module-level `rooms` map. Every handler is a method proved to leave the
  room in the state that the matching function of `GameRules` or `Blast`
  computes. The kill loop and the directional `for` loop are `while` loops
  with invariants.
- `room_manager.dfy` (`RoomManager`): the lobby. Rooms are kept as a
  sequence in creation order, since a JavaScript `Map` iterates in that
  order. The class `Lobby` carries out the lobby functions in place and hands
  a started room to `GameEngine.Games`.

The clock (`Date.now()`) is a `now` parameter. Random identifiers (bomb ids,
room ids) are parameters too. The power-up drop of a destroyed rock is
decided by a `DropOracle`, a map from positions to power-up kinds.

Where the game's intended design, as stated below, and the code disagree,
the model follows the code:

- The intended design's pause example has a bomb placed at 0 and paused
  from 500 to 3500 exploding at 3500. The code re-arms it at 3500 + 1500 =
  5000 (`GameRules.PauseExample`).
- The intended design resolves a bomb with no time left immediately on
  resume. The code calls `checkBombExplosions` while `isPaused` is still
  true, so that call does nothing, and the bomb waits for the next sweep
  (`GameEngine.Room.SetPaused`).
- The intended design lists win detection. The server has none.
- The intended design lets a sweep resolve due bombs in any order. The code
  resolves them in list order.
- A player on the bomb's own tile dies only when the kill loop runs, and
  that loop runs only for an open directional cell. A bomb whose four
  neighbours all stop the blast kills nobody
  (`Blast.EnclosedBombKillsNobody`).

## Model

| member | source | states |
|---|---|---|
| GameTypes.ClearTileEffect | server/gameLogic.js:304-306 | clearing a rock keeps the grid well formed, makes that tile walkable empty ground and changes no other tile |
| GameTypes.RemoveAt | server/gameLogic.js:259 | `splice(k, 1)`: one element shorter, elements before `k` in place, elements after it shifted down by one |
| GameTypes.FirstIndex | server/gameLogic.js:248 | `findIndex`: the answer satisfies the test and no earlier element does; no answer means no element satisfies it |
| GameTypes.OwnedCountRemove | server/gameLogic.js:259-264 | removing a bomb lowers its owner's bomb count by one and leaves every other player's count unchanged |
| GameMap.SpawnZoneIsTwelveTiles | server/gameLogic.js:92-112 | `isSpawnPoint` holds exactly on the twelve corner-L tiles, listed independently |
| GameMap.GenerateMap | server/gameLogic.js:67-89 | the map is 19 x 19, each tile knows its own column and row, and a tile is walkable exactly when it is empty |
| GameMap.GeneratedKinds | server/gameLogic.js:70-83 | a starting tile is a block exactly at odd/odd coordinates, empty exactly on the corner L's, and rock everywhere else |
| GameMap.SpawnCornersWalkable | server/gameLogic.js:10-15 | every spawn point and its two in-grid neighbours are walkable at the start |
| GameRules.InitialPlayersKeys | server/gameLogic.js:40-55 | the player map has exactly the roster's ids |
| GameRules.InitialPlayersSpawn | server/gameLogic.js:40-55 | the i-th member (not overwritten by a later one with the same id) stands on spawn point i with score 0, power 1, capacity 2, no bombs out and sprite i + 1 |
| GameRules.InitialPlayersDefaults | server/gameLogic.js:40-55 | every player starts alive on a spawn point with default stats |
| GameRules.InitialStateInv | server/gameLogic.js:24-61 | a freshly started game satisfies the engine invariant |
| GameRules.MoveIgnored | server/gameLogic.js:129-139 | the reply is null exactly when the room is paused or the player is unknown, and then nothing changes |
| GameRules.MoveBlocked | server/gameLogic.js:151-156 | a step off the grid, onto an unwalkable tile or onto a bomb changes nothing and returns the player with no power-up |
| GameRules.MoveSucceeds | server/gameLogic.js:141-176 | a legal step moves only that player, by one tile; when a power-up lies there, exactly that one is removed and returned and exactly one statistic rises by one; otherwise power-ups and statistics stay |
| GameRules.MovePreservesInv | server/gameLogic.js:151-173 | moving keeps the engine invariant |
| GameRules.EnterPreservesInv | server/gameLogic.js:157-173 | putting a player on an open tile and picking up a power-up keeps the engine invariant |
| GameRules.PlaceBombRejects | server/gameLogic.js:194-209 | a placement is refused, and changes nothing, exactly when the room is paused, the player is unknown, all their bombs are out, or a bomb lies on the tile |
| GameRules.PlaceBombAppends | server/gameLogic.js:211-225 | an accepted placement appends one bomb due 2000 ms later with no captured time, and raises only the placer's `activeBombs`, by one, staying within `bombCount` |
| GameRules.PlaceBombPreservesInv | server/gameLogic.js:202-225 | placing keeps `activeBombs` equal to the bombs owned and at most `bombCount`, and keeps at most one bomb per tile |
| GameRules.PlaceBombKeepsIdsUnique | server/gameLogic.js:213 | bomb ids stay unique when the drawn id is fresh |
| GameRules.SetPausedSameState | server/gameLogic.js:417-449 | asking for the pause state the room is already in changes nothing |
| GameRules.PauseCaptures | server/gameLogic.js:417-423 | pausing records `pausedAt = now` and each bomb's `explodeAt - now`, and moves no deadline |
| GameRules.ResumeRearms | server/gameLogic.js:424-446 | resuming adds the pause length to the total and re-arms each captured bomb at `now + remainingTime`, clearing it |
| GameRules.PauseResumeShiftsDeadlines | server/gameLogic.js:417-446 | a pause followed by a resume shifts every deadline by exactly the pause length, so each bomb keeps the ticking time it had left, and changes nothing else |
| GameRules.PauseExample | server/gameLogic.js:417-446 | a bomb placed at 0 and paused from 500 to 3500 falls due at 5000 |
| GameRules.SetPausedPreservesInv | server/gameLogic.js:411-450 | pausing and resuming keep the engine invariant |
| Blast.KillPassEvolves | server/gameLogic.js:322-339 | one kill pass kills exactly the live players on the cell or on the bomb's tile, revives nobody, and pays only the owner, one point per other player killed |
| Blast.KillPassMarks | server/gameLogic.js:322-339 | after one kill pass a player is dead exactly when it was dead already or stands on the cell or on the bomb's tile, and nobody moves |
| Blast.PlayersEvolveTrans | server/gameLogic.js:322-339 | the owner's score over two kill steps counts the other players killed in either step, none of them twice |
| Blast.OpenIsMaximalRun | server/gameLogic.js:283-297 | the walk's run is the longest stretch of empty in-grid tiles within the radius; the step after it is past the radius, off the grid, or not empty |
| Blast.WalkDirCells | server/gameLogic.js:283-320 | a walk emits one cell per step of its empty run and then, only when it stops on a rock, one cell for that rock |
| Blast.WalkDirGrid | server/gameLogic.js:304-306 | a walk changes the grid only by clearing the rock it stops on |
| Blast.WalkDirDestroys | server/gameLogic.js:304-317 | a walk lists a destroyed rock, and may drop a power-up, only on the rock it stops on |
| Blast.WalkDirKills | server/gameLogic.js:322-339 | after a walk a player is dead exactly when it was dead already, stands on its empty run, or stands on the bomb's tile while that run is not empty |
| Blast.WalkDirScores | server/gameLogic.js:322-339 | a walk changes players only by deaths and the owner's score for other players killed |
| Blast.WalkDirBound | server/gameLogic.js:283 | a walk emits at most one cell per step from 1 to the radius |
| Blast.WalkDirBoard | server/gameLogic.js:283-320 | a walk turns only rock into empty ground, lists exactly the changed tiles, appends cells off blocks, and adds power-ups only on empty ground |
| Blast.SpreadBoard | server/gameLogic.js:282-342 | the four walks together change the board only as `WalkDirBoard` allows |
| Blast.SpreadPlayers | server/gameLogic.js:282-342 | the four walks together change players only by deaths and the owner's score |
| Blast.SpreadBound | server/gameLogic.js:282-342 | the four walks add at most four times the radius cells |
| Blast.ExplodeFindsBomb | server/gameLogic.js:248-252 | an explosion is answered exactly when a bomb has the id; otherwise nothing changes |
| Blast.ExplodeRemovesBomb | server/gameLogic.js:258-264 | the first bomb with the id, and no other, is removed; the owner's `activeBombs` drops by one but not below 0; nothing else of the room but board and players changes |
| Blast.ExplodeScores | server/gameLogic.js:322-339 | players keep position and stats, nobody is revived, and only the owner scores, one point per other player killed |
| Blast.ExplodeReports | server/gameLogic.js:267-279 | the report starts with the center cell and has at most 1 + 4 x radius cells, each directional cell inside the grid and off blocks (the center is the bomb's own, unchecked position), where the radius is the owner's power or 1 when the owner is gone; it carries the room's new map and power-ups |
| Blast.ExplodeChangesGround | server/gameLogic.js:304-320 | only rock turns into empty ground, `destroyedBlocks` names exactly the changed tiles, and power-ups are only added, on empty ground |
| Blast.ExplodeKeepsGround | server/gameLogic.js:304-306 | after an explosion every player and power-up still stands on empty ground |
| Blast.ExplodePreservesInv | server/gameLogic.js:240-359 | an explosion keeps the engine invariant |
| Blast.ExplodeKillsOnlyOnCells | server/gameLogic.js:322-339 | every player an explosion kills stands on one of its cells |
| Blast.SpreadKills | server/gameLogic.js:282-341 | after the four walks a player is dead exactly when it was dead already or one of the walks reaches it: it stands on that walk's empty run, or on the bomb's tile while that run is not empty; a rock cleared by one walk does not lengthen another's run |
| Blast.ExplodeKillsExactly | server/gameLogic.js:282-341 | after an explosion a player is dead exactly when it was dead already, stands on the empty run of one of the four walks over the old grid, or stands on the bomb's tile while one of those runs is not empty |
| Blast.EnclosedBombKillsNobody | server/gameLogic.js:282-341 | a bomb whose four neighbours all stop the blast kills nobody, not even on its own tile |
| Blast.NotDue | server/gameLogic.js:404 | the bombs kept are exactly the bombs not yet due |
| Blast.DueIdsExact | server/gameLogic.js:404 | an id is selected exactly when some bomb with it is due |
| Blast.ExplodeWithout | server/gameLogic.js:248-259 | with unique ids, an explosion removes exactly the bomb with that id |
| Blast.ExplodeAllRemoves | server/gameLogic.js:406-408 | with unique ids, exploding a list of ids removes exactly the bombs carrying one of them and keeps the others in order |
| Blast.DueIdsSplit | server/gameLogic.js:404 | with unique ids, removing the due ids leaves exactly the bombs not due |
| Blast.CheckExplosionsRemovesDue | server/gameLogic.js:399-409 | the sweep does nothing while paused; otherwise it explodes exactly the due bombs and keeps the others in order |
| Blast.CheckExplosionsPreservesInv | server/gameLogic.js:399-409 | the sweep keeps the engine invariant |
| GameEngine.KillLoop | server/gameLogic.js:322-340 | the `for ... in players` loop ends with exactly the players of `KillPass`, whatever order it visits them in |
| GameEngine.KillCheck | server/gameLogic.js:323-338 | the loop body marks a live player on the cell or on the bomb's tile dead and scores one for the owner when it is another player; every other entry stays as it was |
| GameEngine.Room.constructor | server/gameLogic.js:24-61 | the new room is the `initializeGame` state: generated map, roster on the spawn points, no bombs or power-ups, not paused |
| GameEngine.Room.HandlePlayerMove | server/gameLogic.js:121-176 | the room's new state and the reply are those of `Move` |
| GameEngine.Room.MoveOnto | server/gameLogic.js:157-173 | the pickup leaves the state and reply of `Enter` |
| GameEngine.Room.HandleBombPlace | server/gameLogic.js:186-233 | the room's new state and the reply are those of `PlaceBomb` |
| GameEngine.Room.WalkDirection | server/gameLogic.js:283-341 | the `for` loop of one direction leaves the board of `WalkDir` |
| GameEngine.Room.BlastStep | server/gameLogic.js:284-340 | one iteration either hands the walk on to the next step or ends it with `WalkDir`'s result |
| GameEngine.Room.SpreadAll | server/gameLogic.js:282-342 | the `directions.forEach` leaves the board of `Spread` |
| GameEngine.Room.Detonate | server/gameLogic.js:261-342 | discharging the owner, the center cell and the four walks leave the board that `Spread` computes from `Ignite`, and the report carries it |
| GameEngine.Room.HandleBombExplosion | server/gameLogic.js:240-359 | the room's new state and the report are those of `Explode` |
| GameEngine.Room.CheckBombExplosions | server/gameLogic.js:399-409 | the room's new state is that of `CheckExplosions` |
| GameEngine.Room.SetPaused | server/gameLogic.js:411-450 | the room's new state is that of `SetPaused` |
| GameEngine.Games.InitializeGame | server/gameLogic.js:24-61 | a fresh room with the initial state is stored under the room id, replacing any room there |
| GameEngine.Games.HandlePlayerMove | server/gameLogic.js:121-127 | an unknown room answers null; otherwise the room moves as `Move` says |
| GameEngine.Games.HandleBombPlace | server/gameLogic.js:186-192 | an unknown room answers null; otherwise the room changes as `PlaceBomb` says |
| GameEngine.Games.HandleBombExplosion | server/gameLogic.js:240-246 | an unknown room answers nothing; otherwise the room changes as `Explode` says |
| GameEngine.Games.CheckBombExplosions | server/gameLogic.js:399-401 | a known room changes as `CheckExplosions` says |
| GameEngine.Games.SetPaused | server/gameLogic.js:411-413 | a known room changes as `SetPaused` says |
| RoomManager.ListedIff | server/roomManager.js:65-66 | `findIndex` on a room's players finds the player exactly when the player is listed |
| RoomManager.CreateHostsRoom | server/roomManager.js:16-29 | the new room, with the host as sole player and not started, is stored under the id; rooms with other ids stay in order; the lobby invariant holds |
| RoomManager.JoinChecksInOrder | server/roomManager.js:38-57 | a join is refused, in this order, for an unknown room, a full room (4 players) and a started game, and a refusal changes nothing; otherwise exactly the new member is appended |
| RoomManager.JoinPreservesInv | server/roomManager.js:45-54 | a join never takes a room past 4 players, and the lobby invariant survives it |
| RoomManager.LeaveAbsent | server/roomManager.js:82 | a player listed in no room gets null and nothing changes |
| RoomManager.LeaveRemoves | server/roomManager.js:63-80 | from the first room listing the player, exactly their first entry is removed; the room is deleted and null returned when they were host or the room empties; else the room is returned with the others in order |
| RoomManager.LeavePreservesInv | server/roomManager.js:63-83 | leaving keeps the lobby invariant: a surviving room keeps its host and at least one player |
| RoomManager.StartChecksInOrder | server/roomManager.js:91-114 | a start is refused, in this order, for an unknown room, a caller who is not host, fewer than 2 players and a started game, and a refusal changes nothing; otherwise only `gameStarted` becomes true |
| RoomManager.StartOnlyOnce | server/roomManager.js:106-111 | after a successful start the next start of that room, by anyone, is refused |
| RoomManager.StartPreservesInv | server/roomManager.js:91-114 | starting keeps the lobby invariant |
| RoomManager.Names | server/roomManager.js:125 | the names of the players, in order |
| RoomManager.Summaries | server/roomManager.js:120-127 | one entry per room in creation order, with its id, started flag, player count and names in joining order |
| RoomManager.Lobby.constructor | server/roomManager.js:3 | the lobby starts empty and satisfies its invariant |
| RoomManager.Lobby.CreateRoom | server/roomManager.js:16-29 | the lobby becomes `Create` of the old one and keeps its invariant; the room and player returned are the new ones |
| RoomManager.Lobby.JoinRoom | server/roomManager.js:38-57 | the lobby and the reply are those of `Join`, and the invariant holds |
| RoomManager.Lobby.LeaveRoom | server/roomManager.js:63-83 | the search loop with its early returns leaves the lobby and reply of `Leave`, and the invariant holds |
| RoomManager.Lobby.StartGame | server/roomManager.js:91-114 | the lobby and reply are those of `Start`; on success the engine holds a fresh game for the room's players under the same id, and on refusal the engine is untouched |

## Left out

- Timers: the `setTimeout` calls that schedule `checkBombExplosions` after a placement or a resume are not modelled. Callers invoke the sweep with the current time.
- Clock and randomness: `Date.now()` is the `now` parameter. Bomb ids, room ids (`generateRoomId`) and the power-up drop draws (15% chance, then a uniform kind) are parameters, the last as the `DropOracle` map.
- Explosion and power-up id strings are not modelled: an explosion cell has no `id`, and a power-up has no `id`. The extra `state: 'ticking'` field of a bomb is not modelled either.
- The `x: 0, y: 0` fields that `joinRoom` adds to a member are not modelled; a member is an id and a name.
- `console` output, the `global.broadcast*` calls and the commented-out `checkCollisions` are not modelled.
- `server/app.js` (socket routing) and the client are not part of this model.
- Object aliasing: `joinRoom`, `leaveRoom` and `startGame` return the room object itself, shared with the lobby; `handlePlayerMove` returns the live `player` object, `handleBombPlace` the stored `bomb`, and `handleBombExplosion` the room's live `map` and `powerups`. The model returns a copy of each new value, so later changes to the room do not show through an earlier reply.
- Iteration order of `for ... in` over players: `GameEngine.KillLoop` is proved for any visiting order.
- A roster longer than the four spawn points makes `initializeGame` fail in the source. Rooms never exceed four players, so the model requires at most four.
- The `explosions`, `gameTimer`, `interval` and `winner` fields that `initializeGame` sets (to `[]`, `0`, `null` and `null`) are not modelled. Only the commented-out `checkCollisions` would ever touch them.
- `isDead`, which starts undefined in the source, starts as `false`.
- Blast.CheckExplosionsRemovesDue, Blast.ExplodeAllRemoves, Blast.ExplodeWithout and Blast.DueIdsSplit assume unique bomb ids. The source draws ids at random and never checks them; with a repeated id, one explosion would remove only the first bomb carrying it.
- RoomManager.CreateHostsRoom: the source does not check a drawn room id for collisions. `rooms.set` on an existing id replaces that room where it stands, and the model does the same.
- GameRules.PlaceBomb, Blast.Explode: positions are integers. The source stores a client's bomb position unchecked; a fractional or non-numeric coordinate (on which the walks index the map with a non-integer and throw a `TypeError` inside the timer, or concatenate strings and stop at once) is not modelled.
- RoomManager.Lobby.GetRooms returns `Summaries` of the lobby; its properties are stated on `RoomManager.Summaries`.
