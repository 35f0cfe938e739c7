/** Vocabulary of the authoritative game engine: grid, tiles, players, bombs,
    power-ups, and the per-room game state (server/gameLogic.js). */
module GameTypes {

  datatype Option<T> = None | Some(value: T)

  /** Side of the square grid. */
  const MAP_SIZE: int := 19
  /** Delay between placing a bomb and its deadline, in milliseconds. */
  const BOMB_TIMER_MS: int := 2000

  type PlayerId = string
  type BombId = string

  datatype Pos = Pos(x: int, y: int)

  /** The four corners, in the order players are assigned to them. */
  const PLAYER_SPAWN_POINTS: seq<Pos> :=
    [Pos(0, 0), Pos(MAP_SIZE - 1, 0), Pos(0, MAP_SIZE - 1), Pos(MAP_SIZE - 1, MAP_SIZE - 1)]

  datatype TileType = Empty | Block | Rock

  /** A grid cell; `walkable` is stored alongside `kind` as in the source. */
  datatype Tile = Tile(kind: TileType, walkable: bool, x: int, y: int)

  /** Row-major grid: `g[y][x]`. */
  type Grid = seq<seq<Tile>>

  /** A lobby member handed to the game engine when a room starts. */
  datatype Member = Member(id: PlayerId, name: string)

  /** In-game player record; `isDead` is false until a blast reaches the player. */
  datatype Player = Player(
    id: PlayerId, name: string, position: Pos,
    score: nat, bombPower: nat, bombCount: nat, activeBombs: nat,
    spriteIndex: nat, isDead: bool)

  /** A ticking bomb; `remainingTime` is captured while the room is paused. */
  datatype Bomb = Bomb(
    id: BombId, ownerId: PlayerId, pos: Pos,
    createdAt: int, explodeAt: int, remainingTime: Option<int>)

  datatype PowerupType = BombCountUp | ExplosionRadiusUp
  datatype Powerup = Powerup(pos: Pos, kind: PowerupType)

  /** The mutable part of one room's game, as a value. */
  datatype GameState = GameState(
    grid: Grid,
    players: map<PlayerId, Player>,
    bombs: seq<Bomb>,
    powerups: seq<Powerup>,
    gameStartTime: int,
    isPaused: bool,
    pausedAt: Option<int>,
    totalPausedTime: int)

  predicate InBounds(p: Pos) {
    0 <= p.x < MAP_SIZE && 0 <= p.y < MAP_SIZE
  }

  /** A MAP_SIZE x MAP_SIZE grid whose tiles know their own coordinates and
      are walkable exactly when empty. */
  predicate WellFormedGrid(g: Grid) {
    && |g| == MAP_SIZE
    && (forall y | 0 <= y < MAP_SIZE :: |g[y]| == MAP_SIZE)
    && (forall y, x | 0 <= y < MAP_SIZE && 0 <= x < MAP_SIZE ::
          g[y][x].x == x && g[y][x].y == y && (g[y][x].walkable <==> g[y][x].kind == Empty))
  }

  /** The tile at `p`; a position off the grid reads as an unwalkable block. */
  function TileAt(g: Grid, p: Pos): Tile {
    if 0 <= p.y < |g| && 0 <= p.x < |g[p.y]| then g[p.y][p.x] else Tile(Block, false, p.x, p.y)
  }

  /** The grid with the tile at `p` turned into walkable empty ground. */
  function ClearTile(g: Grid, p: Pos): Grid {
    if 0 <= p.y < |g| && 0 <= p.x < |g[p.y]|
    then g[p.y := g[p.y][p.x := g[p.y][p.x].(kind := Empty, walkable := true)]]
    else g
  }

  /** Clearing a tile keeps the grid well formed and changes that tile only. */
  lemma ClearTileEffect(g: Grid, p: Pos)
    requires WellFormedGrid(g) && InBounds(p)
    ensures WellFormedGrid(ClearTile(g, p))
    ensures TileAt(ClearTile(g, p), p).kind == Empty && TileAt(ClearTile(g, p), p).walkable
    ensures forall q | q != p :: TileAt(ClearTile(g, p), q) == TileAt(g, q)
  {
  }

  /** In bounds and empty (so walkable). */
  predicate OnOpenTile(g: Grid, p: Pos) {
    InBounds(p) && TileAt(g, p).kind == Empty
  }

  /** Sequence `s` without its element at index `k`, the effect of `splice(k, 1)`. */
  function RemoveAt<T>(s: seq<T>, k: nat): (r: seq<T>)
    requires k < |s|
    ensures |r| == |s| - 1
    ensures forall j | 0 <= j < k :: r[j] == s[j]
    ensures forall j | k <= j < |r| :: r[j] == s[j + 1]
  {
    s[..k] + s[k + 1..]
  }

  /** The first index whose element satisfies `f`, as `Array.prototype.findIndex`
      computes it (with `None` for -1). */
  function FirstIndex<T>(s: seq<T>, f: T -> bool): (r: Option<nat>)
    ensures r.Some? ==> r.value < |s| && f(s[r.value]) && forall j | 0 <= j < r.value :: !f(s[j])
    ensures r.None? ==> forall j | 0 <= j < |s| :: !f(s[j])
  {
    if s == [] then None
    else if f(s[0]) then Some(0)
    else match FirstIndex(s[1..], f)
      case None => None
      case Some(k) => Some(k + 1)
  }

  /** The test `b => b.id === id` that locates a bomb by identifier. */
  function IdIs(id: BombId): Bomb -> bool {
    (b: Bomb) => b.id == id
  }

  /** The test `p => p.x === t.x && p.y === t.y` that locates a power-up on a tile. */
  function PowerupOn(t: Pos): Powerup -> bool {
    (u: Powerup) => u.pos == t
  }

  /** Whether some bomb lies on `p` (`bombs.some(b => b.x === p.x && b.y === p.y)`). */
  predicate BombAt(bombs: seq<Bomb>, p: Pos) {
    exists j | 0 <= j < |bombs| :: bombs[j].pos == p
  }

  /** Number of bombs in `bombs` owned by `pid`. */
  function OwnedCount(bombs: seq<Bomb>, pid: PlayerId): nat {
    if bombs == [] then 0
    else OwnedCount(bombs[..|bombs| - 1], pid) + (if bombs[|bombs| - 1].ownerId == pid then 1 else 0)
  }

  lemma {:induction false} OwnedCountAppend(bombs: seq<Bomb>, b: Bomb, pid: PlayerId)
    ensures OwnedCount(bombs + [b], pid) == OwnedCount(bombs, pid) + (if b.ownerId == pid then 1 else 0)
  {
    assert (bombs + [b])[..|bombs|] == bombs;
  }

  lemma {:induction false} OwnedCountRemove(bombs: seq<Bomb>, k: nat, pid: PlayerId)
    requires k < |bombs|
    ensures OwnedCount(bombs, pid) == OwnedCount(RemoveAt(bombs, k), pid) + (if bombs[k].ownerId == pid then 1 else 0)
    decreases |bombs|
  {
    var n := |bombs| - 1;
    if k == n {
      assert RemoveAt(bombs, k) == bombs[..n];
    } else {
      var front := bombs[..n];
      OwnedCountRemove(front, k, pid);
      assert RemoveAt(bombs, k) == RemoveAt(front, k) + [bombs[n]];
      OwnedCountAppend(RemoveAt(front, k), bombs[n], pid);
    }
  }

  /** The state invariant every operation of the engine keeps:
      a well-formed grid; every player on an open tile; each player's
      `activeBombs` equal to the number of live bombs they own and at most
      their `bombCount`; every bomb owned by a known player; at most one bomb
      per tile; power-ups on open tiles; `pausedAt` set exactly while paused;
      and bomb `remainingTime` captured exactly while paused. */
  ghost predicate GameInv(s: GameState) {
    && WellFormedGrid(s.grid)
    && (forall pid | pid in s.players :: OnOpenTile(s.grid, s.players[pid].position))
    && (forall pid | pid in s.players ::
          s.players[pid].activeBombs == OwnedCount(s.bombs, pid) <= s.players[pid].bombCount)
    && (forall j | 0 <= j < |s.bombs| :: s.bombs[j].ownerId in s.players)
    && (forall i, j | 0 <= i < j < |s.bombs| :: s.bombs[i].pos != s.bombs[j].pos)
    && (forall j | 0 <= j < |s.powerups| :: OnOpenTile(s.grid, s.powerups[j].pos))
    && (s.isPaused <==> s.pausedAt.Some?)
    && (forall j | 0 <= j < |s.bombs| :: s.bombs[j].remainingTime.Some? <==> s.isPaused)
  }
}
