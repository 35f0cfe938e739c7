/** The single-step rules of a room's game (server/gameLogic.js): starting a
    game, moving, placing a bomb, and pausing or resuming. Each rule is a
    function from the old state to the new state and the caller's reply; the
    Room class in module GameEngine carries them out in place. */
module GameRules {
  import opened GameTypes
  import opened GameMap

  // ---------------------------------------------------------------- start

  /** The record `initializeGame` creates for the `index`-th roster member. */
  function DefaultPlayer(m: Member, index: nat): Player
    requires index < |PLAYER_SPAWN_POINTS|
  {
    Player(m.id, m.name, PLAYER_SPAWN_POINTS[index], 0, 1, 2, 0, index + 1, false)
  }

  /** The player map after `players.forEach` over `roster`: later members
      overwrite earlier ones with the same id. */
  function InitialPlayers(roster: seq<Member>): map<PlayerId, Player>
    requires |roster| <= |PLAYER_SPAWN_POINTS|
  {
    if roster == [] then map[]
    else
      var n := |roster| - 1;
      InitialPlayers(roster[..n])[roster[n].id := DefaultPlayer(roster[n], n)]
  }

  /** Whether no member after index `i` has the id of member `i`. */
  predicate LastWithId(roster: seq<Member>, i: nat)
    requires i < |roster|
  {
    forall j | i < j < |roster| :: roster[j].id != roster[i].id
  }

  /** The player ids are exactly the roster's ids. */
  lemma {:induction false} InitialPlayersKeys(roster: seq<Member>)
    requires |roster| <= |PLAYER_SPAWN_POINTS|
    ensures InitialPlayers(roster).Keys == set i | 0 <= i < |roster| :: roster[i].id
  {
    if roster != [] {
      var n := |roster| - 1;
      var front := roster[..n];
      InitialPlayersKeys(front);
      assert forall i | 0 <= i < n :: front[i] == roster[i];
      calc {
        InitialPlayers(roster).Keys;
        InitialPlayers(front).Keys + {roster[n].id};
        (set i | 0 <= i < n :: front[i].id) + {roster[n].id};
        set i | 0 <= i < |roster| :: roster[i].id;
      }
    }
  }

  /** The i-th member, when no later member shares its id, stands on spawn
      point i with score 0, power 1, capacity 2, no bombs out and sprite i + 1. */
  lemma {:induction false} InitialPlayersSpawn(roster: seq<Member>)
    requires |roster| <= |PLAYER_SPAWN_POINTS|
    ensures forall i | 0 <= i < |roster| && LastWithId(roster, i) ::
              && roster[i].id in InitialPlayers(roster)
              && InitialPlayers(roster)[roster[i].id] == DefaultPlayer(roster[i], i)
  {
    if roster != [] {
      var n := |roster| - 1;
      var front := roster[..n];
      InitialPlayersSpawn(front);
      var m := InitialPlayers(front);
      assert InitialPlayers(roster) == m[roster[n].id := DefaultPlayer(roster[n], n)];
      forall i | 0 <= i < n && LastWithId(roster, i)
        ensures InitialPlayers(roster)[roster[i].id] == DefaultPlayer(roster[i], i)
      {
        assert front[i] == roster[i];
        assert roster[n].id != roster[i].id;
        assert LastWithId(front, i) by {
          forall j | i < j < n ensures front[j].id != front[i].id {
            assert front[j] == roster[j];
          }
        }
        assert m[roster[i].id] == DefaultPlayer(roster[i], i);
      }
    }
  }

  /** Every player starts alive on a spawn point, with no bombs out, capacity
      2, power 1 and score 0. */
  lemma {:induction false} InitialPlayersDefaults(roster: seq<Member>)
    requires |roster| <= |PLAYER_SPAWN_POINTS|
    ensures forall pid | pid in InitialPlayers(roster) ::
              var p := InitialPlayers(roster)[pid];
              p.position in PLAYER_SPAWN_POINTS && p.activeBombs == 0 && p.bombCount == 2
              && p.score == 0 && p.bombPower == 1 && !p.isDead
  {
    if roster != [] {
      InitialPlayersDefaults(roster[..|roster| - 1]);
    }
  }

  /** The room state `initializeGame` creates at time `now`. */
  function InitialState(roster: seq<Member>, now: int): GameState
    requires |roster| <= |PLAYER_SPAWN_POINTS|
  {
    GameState(GenerateMap(), InitialPlayers(roster), [], [], now, false, None, 0)
  }

  /** A freshly started game satisfies the engine invariant. */
  lemma InitialStateInv(roster: seq<Member>, now: int)
    requires |roster| <= |PLAYER_SPAWN_POINTS|
    ensures GameInv(InitialState(roster, now))
  {
    var s := InitialState(roster, now);
    InitialPlayersDefaults(roster);
    forall pid | pid in s.players ensures OnOpenTile(s.grid, s.players[pid].position) {
      var p := s.players[pid].position;
      GeneratedKinds(p);
    }
  }

  // ---------------------------------------------------------------- movement

  /** The reply to a move that reached a room and a player. */
  datatype MoveResult = MoveResult(player: Player, pickedPowerup: Option<Powerup>)

  /** The tile one step away in `direction`; an unrecognised direction names
      the current tile. */
  function Target(p: Pos, direction: string): Pos {
    if direction == "up" then Pos(p.x, p.y - 1)
    else if direction == "down" then Pos(p.x, p.y + 1)
    else if direction == "left" then Pos(p.x - 1, p.y)
    else if direction == "right" then Pos(p.x + 1, p.y)
    else p
  }

  /** Whether a player may step onto `t`: inside the grid, walkable, and free of bombs. */
  predicate CanEnter(s: GameState, t: Pos) {
    InBounds(t) && TileAt(s.grid, t).walkable && !BombAt(s.bombs, t)
  }

  function ApplyPowerup(p: Player, kind: PowerupType): Player {
    match kind
    case BombCountUp => p.(bombCount := p.bombCount + 1)
    case ExplosionRadiusUp => p.(bombPower := p.bombPower + 1)
  }

  /** `handlePlayerMove` once the room has been found. */
  function Move(s: GameState, pid: PlayerId, direction: string): (GameState, Option<MoveResult>) {
    if s.isPaused || pid !in s.players then (s, None)
    else
      var p := s.players[pid];
      var t := Target(p.position, direction);
      if !CanEnter(s, t) then (s, Some(MoveResult(p, None)))
      else Enter(s, pid, p.(position := t))
  }

  /** Player `pid`, already moved to its new tile, picks up the first
      power-up listed on that tile, if any. */
  function Enter(s: GameState, pid: PlayerId, moved: Player): (GameState, Option<MoveResult>) {
    match FirstIndex(s.powerups, PowerupOn(moved.position))
    case None =>
      (s.(players := s.players[pid := moved]), Some(MoveResult(moved, None)))
    case Some(k) =>
      var picked := ApplyPowerup(moved, s.powerups[k].kind);
      (s.(players := s.players[pid := picked], powerups := RemoveAt(s.powerups, k)),
       Some(MoveResult(picked, Some(s.powerups[k]))))
  }

  /** A paused room or an unknown player answers null and nothing changes;
      otherwise the reply carries the player. */
  lemma MoveIgnored(s: GameState, pid: PlayerId, direction: string)
    ensures Move(s, pid, direction).1.None? <==> s.isPaused || pid !in s.players
    ensures Move(s, pid, direction).1.None? ==> Move(s, pid, direction).0 == s
  {
  }

  /** A step out of the grid, onto an unwalkable tile or onto a bomb leaves
      the state as it was and picks nothing up. */
  lemma MoveBlocked(s: GameState, pid: PlayerId, direction: string)
    requires !s.isPaused && pid in s.players
    requires !CanEnter(s, Target(s.players[pid].position, direction))
    ensures Move(s, pid, direction) == (s, Some(MoveResult(s.players[pid], None)))
  {
  }

  /** A legal step moves the player one tile in the given direction (or onto
      its own tile for an unknown direction) and changes no other player.
      When a power-up lies there, exactly that power-up (the first listed on
      the tile) is removed and returned and exactly one statistic of the
      player grows by one; otherwise power-ups and statistics are unchanged.
      Nothing else of the room changes. */
  lemma MoveSucceeds(s: GameState, pid: PlayerId, direction: string)
    requires !s.isPaused && pid in s.players
    requires CanEnter(s, Target(s.players[pid].position, direction))
    ensures var (s', r) := Move(s, pid, direction);
            var p := s.players[pid];
            var t := Target(p.position, direction);
            && r.Some? && s'.players.Keys == s.players.Keys
            && r.value.player == s'.players[pid]
            && s'.players[pid].position == t
            && (forall q | q in s.players && q != pid :: s'.players[q] == s.players[q])
            && s' == s.(players := s'.players, powerups := s'.powerups)
            && (r.value.pickedPowerup.None? ==>
                  s'.powerups == s.powerups
                  && s'.players[pid] == p.(position := t)
                  && forall j | 0 <= j < |s.powerups| :: s.powerups[j].pos != t)
            && (r.value.pickedPowerup.Some? ==>
                  var u := r.value.pickedPowerup.value;
                  && u.pos == t
                  && multiset(s'.powerups) + multiset{u} == multiset(s.powerups)
                  && |s'.powerups| == |s.powerups| - 1
                  && s'.players[pid] == (if u.kind == BombCountUp
                                         then p.(position := t, bombCount := p.bombCount + 1)
                                         else p.(position := t, bombPower := p.bombPower + 1)))
  {
    var t := Target(s.players[pid].position, direction);
    assert Move(s, pid, direction) == Enter(s, pid, s.players[pid].(position := t));
    match FirstIndex(s.powerups, PowerupOn(t))
    case None =>
    case Some(k) =>
      assert s.powerups == s.powerups[..k] + [s.powerups[k]] + s.powerups[k + 1..];
  }

  /** Moving keeps the engine invariant: players only ever stand on open tiles. */
  lemma MovePreservesInv(s: GameState, pid: PlayerId, direction: string)
    requires GameInv(s)
    ensures GameInv(Move(s, pid, direction).0)
  {
    if !s.isPaused && pid in s.players && CanEnter(s, Target(s.players[pid].position, direction)) {
      var p := s.players[pid];
      EnterPreservesInv(s, pid, p.(position := Target(p.position, direction)));
    }
  }

  /** Placing a player on an open tile, with its bomb counts unchanged, keeps
      the invariant, power-up pickup included. */
  lemma EnterPreservesInv(s: GameState, pid: PlayerId, moved: Player)
    requires GameInv(s) && pid in s.players && OnOpenTile(s.grid, moved.position)
    requires moved.activeBombs == s.players[pid].activeBombs && moved.bombCount == s.players[pid].bombCount
    ensures GameInv(Enter(s, pid, moved).0)
  {
    var s' := Enter(s, pid, moved).0;
    match FirstIndex(s.powerups, PowerupOn(moved.position))
    case None =>
    case Some(k) =>
      assert forall j | 0 <= j < |s'.powerups| :: s'.powerups[j] in s.powerups;
  }

  // ---------------------------------------------------------------- bombs

  /** `handleBombPlace` once the room has been found, with the clock reading
      `now` and `id` the identifier drawn for the new bomb. */
  function PlaceBomb(s: GameState, pid: PlayerId, pos: Pos, id: BombId, now: int): (GameState, Option<Bomb>)
  {
    if s.isPaused || pid !in s.players then (s, None)
    else if s.players[pid].activeBombs >= s.players[pid].bombCount then (s, None)
    else if BombAt(s.bombs, pos) then (s, None)
    else
      var b := Bomb(id, pid, pos, now, now + BOMB_TIMER_MS, None);
      var p := s.players[pid];
      (s.(bombs := s.bombs + [b], players := s.players[pid := p.(activeBombs := p.activeBombs + 1)]), Some(b))
  }

  /** A placement is refused, and changes nothing, exactly when the room is
      paused, the player is unknown, the player's bombs are all out, or a bomb
      already lies on the tile. */
  lemma PlaceBombRejects(s: GameState, pid: PlayerId, pos: Pos, id: BombId, now: int)
    ensures var (s', r) := PlaceBomb(s, pid, pos, id, now);
            && (r.None? <==> s.isPaused || pid !in s.players
                             || s.players[pid].activeBombs >= s.players[pid].bombCount
                             || BombAt(s.bombs, pos))
            && (r.None? ==> s' == s)
  {
  }

  /** An accepted placement appends one ticking bomb due BOMB_TIMER_MS later,
      with no captured remaining time, and raises only the placer's
      `activeBombs`, by one; nothing else of the room changes. */
  lemma PlaceBombAppends(s: GameState, pid: PlayerId, pos: Pos, id: BombId, now: int)
    requires PlaceBomb(s, pid, pos, id, now).1.Some?
    ensures var (s', r) := PlaceBomb(s, pid, pos, id, now);
            && r.value == Bomb(id, pid, pos, now, now + 2000, None)
            && s'.bombs == s.bombs + [r.value]
            && s'.players.Keys == s.players.Keys
            && s'.players[pid].activeBombs == s.players[pid].activeBombs + 1 <= s'.players[pid].bombCount
            && s'.players[pid] == s.players[pid].(activeBombs := s'.players[pid].activeBombs)
            && (forall q | q in s.players && q != pid :: s'.players[q] == s.players[q])
            && s' == s.(bombs := s'.bombs, players := s'.players)
  {
  }

  /** Placing keeps the engine invariant; in particular `activeBombs` never
      exceeds `bombCount` and no tile ever holds two bombs. */
  lemma PlaceBombPreservesInv(s: GameState, pid: PlayerId, pos: Pos, id: BombId, now: int)
    requires GameInv(s)
    ensures GameInv(PlaceBomb(s, pid, pos, id, now).0)
  {
    var (s', r) := PlaceBomb(s, pid, pos, id, now);
    if r.Some? {
      forall q | q in s'.players
        ensures s'.players[q].activeBombs == OwnedCount(s'.bombs, q) <= s'.players[q].bombCount
      {
        OwnedCountAppend(s.bombs, r.value, q);
      }
      forall i, j | 0 <= i < j < |s'.bombs| ensures s'.bombs[i].pos != s'.bombs[j].pos {
        if j == |s.bombs| {
          assert s'.bombs[i] == s.bombs[i];
        }
      }
    }
  }

  /** Whether no two bombs share an identifier. */
  predicate UniqueBombIds(bombs: seq<Bomb>) {
    forall i, j | 0 <= i < j < |bombs| :: bombs[i].id != bombs[j].id
  }

  /** Identifiers stay unique when the drawn identifier is fresh; the source
      draws it at random and does not check. */
  lemma PlaceBombKeepsIdsUnique(s: GameState, pid: PlayerId, pos: Pos, id: BombId, now: int)
    requires UniqueBombIds(s.bombs)
    requires forall j | 0 <= j < |s.bombs| :: s.bombs[j].id != id
    ensures UniqueBombIds(PlaceBomb(s, pid, pos, id, now).0.bombs)
  {
  }

  // ---------------------------------------------------------------- pause

  /** Each bomb with the time left to its deadline captured. */
  function CaptureRemaining(bombs: seq<Bomb>, now: int): (r: seq<Bomb>)
  {
    seq(|bombs|, j requires 0 <= j < |bombs| => bombs[j].(remainingTime := Some(bombs[j].explodeAt - now)))
  }

  /** A bomb re-armed at `now` from its captured remaining time, if any. */
  function Rearm(b: Bomb, now: int): Bomb {
    match b.remainingTime
    case Some(rt) => b.(explodeAt := now + rt, remainingTime := None)
    case None => b
  }

  function RestoreDeadlines(bombs: seq<Bomb>, now: int): seq<Bomb>
  {
    seq(|bombs|, j requires 0 <= j < |bombs| => Rearm(bombs[j], now))
  }

  /** `pausedAt` as a number in JavaScript arithmetic, where null counts as 0. */
  function PausedAtValue(pausedAt: Option<int>): int {
    match pausedAt
    case Some(t) => t
    case None => 0
  }

  /** `setPaused` once the room has been found, with the clock reading `now`. */
  function SetPaused(s: GameState, isPaused: bool, now: int): GameState
  {
    if isPaused && !s.isPaused then
      s.(pausedAt := Some(now), bombs := CaptureRemaining(s.bombs, now), isPaused := true)
    else if !isPaused && s.isPaused then
      s.(totalPausedTime := s.totalPausedTime + (now - PausedAtValue(s.pausedAt)),
         bombs := RestoreDeadlines(s.bombs, now),
         pausedAt := None,
         isPaused := false)
    else
      s.(isPaused := isPaused)
  }

  /** Asking for the state the room is already in changes nothing. */
  lemma SetPausedSameState(s: GameState, now: int)
    ensures SetPaused(s, s.isPaused, now) == s
  {
  }

  /** Pausing records the pause time and, per bomb, the time left to its
      deadline, without moving any deadline. */
  lemma PauseCaptures(s: GameState, now: int)
    requires !s.isPaused
    ensures var s' := SetPaused(s, true, now);
            && s'.isPaused && s'.pausedAt == Some(now) && |s'.bombs| == |s.bombs|
            && (forall j | 0 <= j < |s.bombs| ::
                  s'.bombs[j] == s.bombs[j].(remainingTime := Some(s.bombs[j].explodeAt - now)))
            && s'.grid == s.grid && s'.players == s.players && s'.powerups == s.powerups
            && s'.totalPausedTime == s.totalPausedTime
  {
  }

  /** Resuming adds the pause length to the total paused time and re-arms
      every captured bomb to fire its remaining time after `now`. */
  lemma ResumeRearms(s: GameState, now: int)
    requires s.isPaused && s.pausedAt.Some?
    ensures var s' := SetPaused(s, false, now);
            && !s'.isPaused && s'.pausedAt.None? && |s'.bombs| == |s.bombs|
            && s'.totalPausedTime == s.totalPausedTime + (now - s.pausedAt.value)
            && (forall j | 0 <= j < |s.bombs| && s.bombs[j].remainingTime.Some? ::
                  s'.bombs[j] == s.bombs[j].(explodeAt := now + s.bombs[j].remainingTime.value, remainingTime := None))
            && (forall j | 0 <= j < |s.bombs| && s.bombs[j].remainingTime.None? :: s'.bombs[j] == s.bombs[j])
            && s'.grid == s.grid && s'.players == s.players && s'.powerups == s.powerups
  {
  }

  /** A pause at `t1` followed by a resume at `t2` shifts every deadline by
      exactly the pause length `t2 - t1`, so the time each bomb still has to
      tick is what it had when the pause began, and adds that length to the
      total paused time; nothing else changes. */
  lemma {:induction false} PauseResumeShiftsDeadlines(s: GameState, t1: int, t2: int)
    requires GameInv(s) && !s.isPaused
    ensures var s2 := SetPaused(SetPaused(s, true, t1), false, t2);
            && |s2.bombs| == |s.bombs|
            && (forall j | 0 <= j < |s.bombs| ::
                  s2.bombs[j] == s.bombs[j].(explodeAt := s.bombs[j].explodeAt + (t2 - t1)))
            && (forall j | 0 <= j < |s.bombs| :: s2.bombs[j].explodeAt - t2 == s.bombs[j].explodeAt - t1)
            && s2.totalPausedTime == s.totalPausedTime + (t2 - t1)
            && s2 == s.(bombs := s2.bombs, totalPausedTime := s2.totalPausedTime)
  {
    var s1 := SetPaused(s, true, t1);
    var s2 := SetPaused(s1, false, t2);
    PauseCaptures(s, t1);
    ResumeRearms(s1, t2);
    forall j | 0 <= j < |s.bombs|
      ensures s2.bombs[j] == s.bombs[j].(explodeAt := s.bombs[j].explodeAt + (t2 - t1))
    {
      assert s1.bombs[j].remainingTime == Some(s.bombs[j].explodeAt - t1);
    }
  }

  /** A bomb placed at 0 and paused from 500 to 3500 falls due at 5000:
      500 ms ticked before the pause and the remaining 1500 ms after it. */
  lemma PauseExample(s: GameState, b: Bomb)
    requires !s.isPaused && s.bombs == [b] && b.explodeAt == 0 + BOMB_TIMER_MS
    ensures SetPaused(SetPaused(s, true, 500), false, 3500).bombs[0].explodeAt == 5000
  {
  }

  /** Pausing and resuming keep the engine invariant. */
  lemma SetPausedPreservesInv(s: GameState, isPaused: bool, now: int)
    requires GameInv(s)
    ensures GameInv(SetPaused(s, isPaused, now))
  {
    var s' := SetPaused(s, isPaused, now);
    assert forall j | 0 <= j < |s'.bombs| :: s'.bombs[j].ownerId == s.bombs[j].ownerId && s'.bombs[j].pos == s.bombs[j].pos;
    assert forall q :: OwnedCount(s'.bombs, q) == OwnedCount(s.bombs, q) by {
      forall q ensures OwnedCount(s'.bombs, q) == OwnedCount(s.bombs, q) {
        OwnedCountSameOwners(s.bombs, s'.bombs, q);
      }
    }
  }

  /** The owner count depends only on the owners, position by position. */
  lemma {:induction false} OwnedCountSameOwners(a: seq<Bomb>, b: seq<Bomb>, pid: PlayerId)
    requires |a| == |b| && forall j | 0 <= j < |a| :: a[j].ownerId == b[j].ownerId
    ensures OwnedCount(a, pid) == OwnedCount(b, pid)
    decreases |a|
  {
    if a != [] {
      OwnedCountSameOwners(a[..|a| - 1], b[..|b| - 1], pid);
    }
  }
}
