/** The game engine of server/gameLogic.js as it runs: one `Room` object per
    game whose fields the handlers update in place, and the `Games` registry
    that maps room ids to rooms. Every handler is proved to leave the room in
    the state the matching rule of modules GameRules and Blast computes. */
module GameEngine {
  import opened GameTypes
  import opened GameMap
  import opened GameRules
  import opened Blast

  /** The `for (const playerId in roomState.players)` loop run for one open
      blast cell: each live player on the cell or on the bomb's own tile is
      marked dead, and the owner, when present, scores one for each such
      player other than itself. */
  method KillLoop(ps: map<PlayerId, Player>, origin: Pos, cell: Pos, ownerId: PlayerId)
    returns (r: map<PlayerId, Player>)
    ensures r == KillPass(ps, origin, cell, ownerId)
  {
    ghost var hit := HitSet(ps, origin, cell);
    r := ps;
    var todo := ps.Keys;
    ghost var done: set<PlayerId> := {};
    assert r == KilledSoFar(ps, hit, done, ownerId);
    while todo != {}
      invariant todo + done == ps.Keys && todo !! done
      invariant r == KilledSoFar(ps, hit, done, ownerId)
      decreases |todo|
    {
      var pid :| pid in todo;
      var r' := KillCheck(r, pid, origin, cell, ownerId);
      KillVisit(ps, hit, origin, cell, done, pid, ownerId, r');
      r := r';
      SplitStep(todo, done, ps.Keys, pid);
      todo := todo - {pid};
      done := done + {pid};
    }
    KilledSoFarAll(ps, origin, cell, ownerId);
  }

  /** The loop body for player `pid`: a live player on the cell or on the
      bomb's tile dies, and the owner, when present and not that player,
      scores one; no other entry changes. */
  method KillCheck(r: map<PlayerId, Player>, pid: PlayerId, origin: Pos, cell: Pos, ownerId: PlayerId)
    returns (r': map<PlayerId, Player>)
    requires pid in r
    ensures r'.Keys == r.Keys
    ensures forall q | q in r ::
              r'[q] == r[q].(isDead := r[q].isDead || (q == pid && Hit(r[pid], origin, cell)),
                             score := if q == ownerId && pid != ownerId && Hit(r[pid], origin, cell)
                                      then r[q].score + 1 else r[q].score)
  {
    r' := r;
    var player := r[pid];
    if !player.isDead {
      if player.position == cell || player.position == origin {
        if ownerId in r' && pid != ownerId {
          r' := r'[ownerId := r'[ownerId].(score := r'[ownerId].score + 1)];
        }
        r' := r'[pid := r'[pid].(isDead := true)];
      }
    }
  }

  /** Moving one element from `todo` to `done` keeps them a partition of `all`. */
  lemma SplitStep<T>(todo: set<T>, done: set<T>, all: set<T>, x: T)
    requires todo + done == all && todo !! done && x in todo
    ensures (todo - {x}) + (done + {x}) == all && (todo - {x}) !! (done + {x})
    ensures |todo - {x}| < |todo|
  {
  }

  /** The players once the kill loop has visited the players in `done`:
      those of them in `hit` are marked dead, and the owner has scored one for
      each of them other than itself. */
  ghost function KilledSoFar(ps: map<PlayerId, Player>, hit: set<PlayerId>, done: set<PlayerId>,
                             ownerId: PlayerId): map<PlayerId, Player> {
    var marked := map pid | pid in ps :: ps[pid].(isDead := ps[pid].isDead || pid in hit * done);
    if ownerId in marked then marked[ownerId := marked[ownerId].(score := ps[ownerId].score + |hit * done - {ownerId}|)]
    else marked
  }

  /** Visiting one more player, as `KillCheck` does, extends the tally by
      that player. */
  lemma KillVisit(ps: map<PlayerId, Player>, hit: set<PlayerId>, origin: Pos, cell: Pos, done: set<PlayerId>,
                  pid: PlayerId, ownerId: PlayerId, r': map<PlayerId, Player>)
    requires pid in ps && pid !in done
    requires pid in hit <==> Hit(ps[pid], origin, cell)
    requires var r := KilledSoFar(ps, hit, done, ownerId);
             && r'.Keys == r.Keys
             && forall q | q in r ::
                  r'[q] == r[q].(isDead := r[q].isDead || (q == pid && Hit(r[pid], origin, cell)),
                                 score := if q == ownerId && pid != ownerId && Hit(r[pid], origin, cell)
                                          then r[q].score + 1 else r[q].score)
    ensures r' == KilledSoFar(ps, hit, done + {pid}, ownerId)
  {
    var r := KilledSoFar(ps, hit, done, ownerId);
    var k := KilledSoFar(ps, hit, done + {pid}, ownerId);
    KillCountStep(hit, done, pid, ownerId);
    KilledSoFarAt(ps, hit, done, ownerId, pid);
    assert Hit(r[pid], origin, cell) == (pid in hit);
    forall q | q in ps ensures r'[q] == k[q] {
      KilledSoFarAt(ps, hit, done, ownerId, q);
      KilledSoFarAt(ps, hit, done + {pid}, ownerId, q);
    }
    MapExt(r', k);
  }

  /** Two maps with the same keys and the same entries are equal. */
  lemma MapExt<K, V>(a: map<K, V>, b: map<K, V>)
    requires a.Keys == b.Keys && forall q | q in a :: a[q] == b[q]
    ensures a == b
  {
  }

  /** Each player's entry in the tally. */
  lemma KilledSoFarAt(ps: map<PlayerId, Player>, hit: set<PlayerId>, done: set<PlayerId>, ownerId: PlayerId, q: PlayerId)
    requires q in ps
    ensures var r := KilledSoFar(ps, hit, done, ownerId);
            && r.Keys == ps.Keys
            && r[q] == ps[q].(isDead := ps[q].isDead || q in hit * done,
                              score := if q == ownerId then ps[q].score + |hit * done - {ownerId}| else ps[q].score)
  {
  }

  /** One more visited player adds one to the owner's tally exactly when it
      was hit and is not the owner. */
  lemma KillCountStep(hit: set<PlayerId>, done: set<PlayerId>, pid: PlayerId, ownerId: PlayerId)
    requires pid !in done
    ensures |hit * (done + {pid}) - {ownerId}|
            == |hit * done - {ownerId}| + (if pid in hit && pid != ownerId then 1 else 0)
  {
    if pid in hit && pid != ownerId {
      assert hit * (done + {pid}) - {ownerId} == (hit * done - {ownerId}) + {pid};
    } else {
      assert hit * (done + {pid}) - {ownerId} == hit * done - {ownerId};
    }
  }

  /** Once every player is visited, the tally is `KillPass`. */
  lemma KilledSoFarAll(ps: map<PlayerId, Player>, origin: Pos, cell: Pos, ownerId: PlayerId)
    ensures KilledSoFar(ps, HitSet(ps, origin, cell), ps.Keys, ownerId) == KillPass(ps, origin, cell, ownerId)
  {
    var hit := HitSet(ps, origin, cell);
    assert hit * ps.Keys == hit;
  }

  /** One game room (`roomState`): the fields the handlers update in place. */
  class Room {
    var grid: Grid
    var players: map<PlayerId, Player>
    var bombs: seq<Bomb>
    var powerups: seq<Powerup>
    var gameStartTime: int
    var isPaused: bool
    var pausedAt: Option<int>
    var totalPausedTime: int

    /** The room's fields as a value, the state the rules speak about. */
    function State(): GameState
      reads this
    {
      GameState(grid, players, bombs, powerups, gameStartTime, isPaused, pausedAt, totalPausedTime)
    }

    /** `initializeGame` at time `now`: a fresh map and, for the i-th member
        of the roster, a player on spawn point i. */
    constructor (roster: seq<Member>, now: int)
      requires |roster| <= |PLAYER_SPAWN_POINTS|
      ensures State() == InitialState(roster, now)
    {
      var ps: map<PlayerId, Player> := map[];
      for i := 0 to |roster|
        invariant ps == InitialPlayers(roster[..i])
      {
        assert roster[..i + 1][..i] == roster[..i];
        ps := ps[roster[i].id := DefaultPlayer(roster[i], i)];
      }
      assert roster[..|roster|] == roster;
      grid := GenerateMap();
      players := ps;
      bombs := [];
      powerups := [];
      gameStartTime := now;
      isPaused := false;
      pausedAt := None;
      totalPausedTime := 0;
    }

    /** `handlePlayerMove` on this room. */
    method HandlePlayerMove(pid: PlayerId, direction: string) returns (r: Option<MoveResult>)
      modifies this`players, this`powerups
      ensures (State(), r) == Move(old(State()), pid, direction)
    {
      if isPaused {
        return None;
      }
      if pid !in players {
        return None;
      }
      var player := players[pid];
      var nextX := player.position.x;
      var nextY := player.position.y;
      if direction == "up" { nextY := nextY - 1; }
      if direction == "down" { nextY := nextY + 1; }
      if direction == "left" { nextX := nextX - 1; }
      if direction == "right" { nextX := nextX + 1; }
      var next := Pos(nextX, nextY);
      assert next == Target(player.position, direction);
      if 0 <= nextX < MAP_SIZE && 0 <= nextY < MAP_SIZE && TileAt(grid, next).walkable && !BombAt(bombs, next) {
        var moved := MoveOnto(pid, player.(position := next));
        return Some(moved);
      }
      r := Some(MoveResult(player, None));
    }

    /** The accepted move of player `pid`, now standing on `moved.position`:
        the first power-up listed on that tile, if any, is taken off the
        board and applied. */
    method MoveOnto(pid: PlayerId, moved: Player) returns (r: MoveResult)
      modifies this`players, this`powerups
      ensures (State(), Some(r)) == Enter(old(State()), pid, moved)
    {
      var player := moved;
      var picked: Option<Powerup> := None;
      var found := FirstIndex(powerups, PowerupOn(moved.position));
      if found.Some? {
        var powerup := powerups[found.value];
        if powerup.kind == BombCountUp {
          player := player.(bombCount := player.bombCount + 1);
        }
        if powerup.kind == ExplosionRadiusUp {
          player := player.(bombPower := player.bombPower + 1);
        }
        assert player == ApplyPowerup(moved, powerup.kind);
        powerups := RemoveAt(powerups, found.value);
        picked := Some(powerup);
      }
      players := players[pid := player];
      r := MoveResult(player, picked);
    }

    /** `handleBombPlace` on this room, with the clock reading `now` and `id`
        the identifier drawn for the new bomb. */
    method HandleBombPlace(pid: PlayerId, pos: Pos, id: BombId, now: int) returns (r: Option<Bomb>)
      modifies this`bombs, this`players
      ensures (State(), r) == PlaceBomb(old(State()), pid, pos, id, now)
    {
      if isPaused {
        return None;
      }
      if pid !in players {
        return None;
      }
      var player := players[pid];
      if player.activeBombs >= player.bombCount {
        return None;
      }
      if BombAt(bombs, pos) {
        return None;
      }
      var bomb := Bomb(id, pid, pos, now, now + BOMB_TIMER_MS, None);
      bombs := bombs + [bomb];
      players := players[pid := player.(activeBombs := player.activeBombs + 1)];
      r := Some(bomb);
    }
  
    /** The part of the room an explosion reads and writes, with the cells
        and destroyed rocks gathered so far. */
    function Board(cells: seq<ExplosionCell>, destroyed: seq<Pos>): Blast
      reads this
    {
      Blast(grid, players, powerups, cells, destroyed)
    }

    /** The `for (let i = 1; i <= radius; i++)` walk of `bomb`'s blast in
        direction `d`, appending to `cells` and `destroyed`. */
    method WalkDirection(bomb: Bomb, d: Dir, radius: nat, drop: DropOracle,
                         cells: seq<ExplosionCell>, destroyed: seq<Pos>)
      returns (cells': seq<ExplosionCell>, destroyed': seq<Pos>)
      modifies this`grid, this`players, this`powerups
      ensures Board(cells', destroyed') == WalkDir(old(Board(cells, destroyed)), bomb, d, 1, radius, drop)
    {
      ghost var target := WalkDir(Board(cells, destroyed), bomb, d, 1, radius, drop);
      cells', destroyed' := cells, destroyed;
      var i := 1;
      while i <= radius
        invariant 1 <= i <= radius + 1
        invariant WalkDir(Board(cells', destroyed'), bomb, d, i, radius, drop) == target
      {
        var goOn;
        cells', destroyed', goOn := BlastStep(bomb, d, i, radius, drop, cells', destroyed');
        if !goOn {
          return;
        }
        i := i + 1;
      }
    }

    /** Step `i` of the walk: the bounds check, the block check, the cell,
        then either the rock (cleared, listed, maybe a power-up; the walk
        stops) or the kill loop (the walk goes on, `goOn`). */
    method BlastStep(bomb: Bomb, d: Dir, i: int, radius: nat, drop: DropOracle,
                     cells: seq<ExplosionCell>, destroyed: seq<Pos>)
      returns (cells': seq<ExplosionCell>, destroyed': seq<Pos>, goOn: bool)
      requires i <= radius
      modifies this`grid, this`players, this`powerups
      ensures goOn ==> WalkDir(old(Board(cells, destroyed)), bomb, d, i, radius, drop)
                       == WalkDir(Board(cells', destroyed'), bomb, d, i + 1, radius, drop)
      ensures !goOn ==> WalkDir(old(Board(cells, destroyed)), bomb, d, i, radius, drop) == Board(cells', destroyed')
    {
      cells', destroyed', goOn := cells, destroyed, false;
      var p := Step(bomb.pos, d, i);
      if p.x < 0 || p.x >= MAP_SIZE || p.y < 0 || p.y >= MAP_SIZE {
        return;
      }
      var tile := TileAt(grid, p);
      if tile.kind == Block {
        return;
      }
      cells' := cells' + [ExplosionCell(p, SegmentOf(d), bomb.ownerId)];
      if tile.kind == Rock {
        grid := ClearTile(grid, p);
        destroyed' := destroyed' + [p];
        if p in drop {
          powerups := powerups + [Powerup(p, drop[p])];
        }
        return;
      }
      players := KillLoop(players, bomb.pos, p, bomb.ownerId);
      goOn := true;
    }

    /** `handleBombExplosion` on this room; `drop` decides the power-up drops. */
    method HandleBombExplosion(bombId: BombId, drop: DropOracle) returns (r: Option<ExplosionReport>)
      modifies this`grid, this`players, this`bombs, this`powerups
      ensures (State(), r) == Explode(old(State()), bombId, drop)
    {
      var found := FirstIndex(bombs, IdIs(bombId));
      if found.None? {
        return None;
      }
      var k := found.value;
      var bomb := bombs[k];
      bombs := RemoveAt(bombs, k);
      var report := Detonate(bomb, drop);
      r := Some(report);
    }

    /** The explosion of `bomb` once it is off the list: the owner's count
        goes down, the center cell is emitted, and the four walks run. */
    method Detonate(bomb: Bomb, drop: DropOracle) returns (report: ExplosionReport)
      modifies this`grid, this`players, this`powerups
      ensures var b := Spread(Ignite(old(State()), bomb), bomb, Radius(old(players), bomb.ownerId), drop, 0);
              && Board(b.cells, b.destroyed) == b
              && report == ExplosionReport(b.cells, b.destroyed, b.grid, b.powerups)
    {
      var ownerPresent := bomb.ownerId in players;
      if ownerPresent && players[bomb.ownerId].activeBombs > 0 {
        players := players[bomb.ownerId := players[bomb.ownerId].(activeBombs := players[bomb.ownerId].activeBombs - 1)];
      }
      var cells := [ExplosionCell(bomb.pos, Center, bomb.ownerId)];
      var destroyed: seq<Pos> := [];
      var radius := if ownerPresent then players[bomb.ownerId].bombPower else 1;
      assert radius == Radius(old(players), bomb.ownerId);
      assert Board(cells, destroyed) == Ignite(old(State()), bomb);
      cells, destroyed := SpreadAll(bomb, radius, drop, cells, destroyed);
      report := ExplosionReport(cells, destroyed, grid, powerups);
    }

    /** The `directions.forEach` walk: the four directions in order. */
    method SpreadAll(bomb: Bomb, radius: nat, drop: DropOracle, cells: seq<ExplosionCell>, destroyed: seq<Pos>)
      returns (cells': seq<ExplosionCell>, destroyed': seq<Pos>)
      modifies this`grid, this`players, this`powerups
      ensures Board(cells', destroyed') == Spread(old(Board(cells, destroyed)), bomb, radius, drop, 0)
    {
      cells', destroyed' := cells, destroyed;
      var di := 0;
      while di < |DIRECTIONS|
        invariant 0 <= di <= |DIRECTIONS|
        invariant Spread(Board(cells', destroyed'), bomb, radius, drop, di)
                  == Spread(old(Board(cells, destroyed)), bomb, radius, drop, 0)
      {
        cells', destroyed' := WalkDirection(bomb, DIRECTIONS[di], radius, drop, cells', destroyed');
        di := di + 1;
      }
    }

    /** `checkBombExplosions` on this room at time `now`: unless paused, every
        bomb due by `now` goes off, in list order. */
    method CheckBombExplosions(now: int, drop: DropOracle)
      modifies this
      ensures State() == CheckExplosions(old(State()), now, drop)
    {
      if isPaused {
        return;
      }
      var due := DueIds(bombs, now);
      for j := 0 to |due|
        invariant ExplodeAll(State(), due[j..], drop) == ExplodeAll(old(State()), due, drop)
      {
        assert due[j..][1..] == due[j + 1..];
        var _ := HandleBombExplosion(due[j], drop);
      }
    }

    /** `setPaused` on this room at time `now`. Resuming calls the sweep for
        every bomb already due, but the room is still marked paused at that
        moment, so the sweep does nothing. */
    method SetPaused(pause: bool, now: int, drop: DropOracle)
      modifies this
      ensures State() == GameRules.SetPaused(old(State()), pause, now)
    {
      if pause && !isPaused {
        pausedAt := Some(now);
        for j := 0 to |bombs|
          invariant |bombs| == |old(bombs)|
          invariant forall m | 0 <= m < j :: bombs[m] == old(bombs)[m].(remainingTime := Some(old(bombs)[m].explodeAt - now))
          invariant forall m | j <= m < |bombs| :: bombs[m] == old(bombs)[m]
          invariant grid == old(grid) && players == old(players) && powerups == old(powerups)
          invariant isPaused == old(isPaused) && pausedAt == Some(now) && totalPausedTime == old(totalPausedTime)
          invariant gameStartTime == old(gameStartTime)
        {
          bombs := bombs[j := bombs[j].(remainingTime := Some(bombs[j].explodeAt - now))];
        }
      } else if !pause && isPaused {
        var pauseDuration := now - PausedAtValue(pausedAt);
        totalPausedTime := totalPausedTime + pauseDuration;
        for j := 0 to |bombs|
          invariant |bombs| == |old(bombs)|
          invariant forall m | 0 <= m < j :: bombs[m] == Rearm(old(bombs)[m], now)
          invariant forall m | j <= m < |bombs| :: bombs[m] == old(bombs)[m]
          invariant grid == old(grid) && players == old(players) && powerups == old(powerups)
          invariant isPaused && pausedAt == old(pausedAt) && totalPausedTime == old(totalPausedTime) + pauseDuration
          invariant gameStartTime == old(gameStartTime)
        {
          if bombs[j].remainingTime.Some? {
            var timeToExplode := bombs[j].remainingTime.value;
            bombs := bombs[j := bombs[j].(explodeAt := now + timeToExplode, remainingTime := None)];
            if timeToExplode <= 0 {
              CheckBombExplosions(now, drop);
            }
          }
        }
        pausedAt := None;
      }
      isPaused := pause;
    }
  }

  /** The engine's `rooms` registry: each exported handler looks the room up
      first and answers null (here `None`), or does nothing, when it is
      missing. */
  class Games {
    var rooms: map<string, Room>

    constructor ()
      ensures rooms == map[]
    {
      rooms := map[];
    }

    /** `initializeGame`: a fresh room for the roster, stored under `roomId`
        (replacing any room stored there). */
    method InitializeGame(roomId: string, roster: seq<Member>, now: int) returns (room: Room)
      requires |roster| <= |PLAYER_SPAWN_POINTS|
      modifies this
      ensures fresh(room) && room.State() == InitialState(roster, now)
      ensures rooms == old(rooms)[roomId := room]
    {
      room := new Room(roster, now);
      rooms := rooms[roomId := room];
    }

    method HandlePlayerMove(roomId: string, pid: PlayerId, direction: string) returns (r: Option<MoveResult>)
      modifies if roomId in rooms then {rooms[roomId]} else {}
      ensures roomId !in rooms ==> r.None?
      ensures roomId in rooms ==> (rooms[roomId].State(), r) == Move(old(rooms[roomId].State()), pid, direction)
    {
      if roomId !in rooms {
        return None;
      }
      r := rooms[roomId].HandlePlayerMove(pid, direction);
    }

    method HandleBombPlace(roomId: string, pid: PlayerId, pos: Pos, id: BombId, now: int) returns (r: Option<Bomb>)
      modifies if roomId in rooms then {rooms[roomId]} else {}
      ensures roomId !in rooms ==> r.None?
      ensures roomId in rooms ==> (rooms[roomId].State(), r) == PlaceBomb(old(rooms[roomId].State()), pid, pos, id, now)
    {
      if roomId !in rooms {
        return None;
      }
      r := rooms[roomId].HandleBombPlace(pid, pos, id, now);
    }

    method HandleBombExplosion(roomId: string, bombId: BombId, drop: DropOracle) returns (r: Option<ExplosionReport>)
      modifies if roomId in rooms then {rooms[roomId]} else {}
      ensures roomId !in rooms ==> r.None?
      ensures roomId in rooms ==> (rooms[roomId].State(), r) == Explode(old(rooms[roomId].State()), bombId, drop)
    {
      if roomId !in rooms {
        return None;
      }
      r := rooms[roomId].HandleBombExplosion(bombId, drop);
    }

    method CheckBombExplosions(roomId: string, now: int, drop: DropOracle)
      modifies if roomId in rooms then {rooms[roomId]} else {}
      ensures roomId in rooms ==> rooms[roomId].State() == CheckExplosions(old(rooms[roomId].State()), now, drop)
    {
      if roomId in rooms {
        rooms[roomId].CheckBombExplosions(now, drop);
      }
    }

    method SetPaused(roomId: string, pause: bool, now: int, drop: DropOracle)
      modifies if roomId in rooms then {rooms[roomId]} else {}
      ensures roomId in rooms ==> rooms[roomId].State() == GameRules.SetPaused(old(rooms[roomId].State()), pause, now)
    {
      if roomId in rooms {
        rooms[roomId].SetPaused(pause, now, drop);
      }
    }
  }
}
