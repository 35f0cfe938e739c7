/** Map generation (server/gameLogic.js, generateMap and isSpawnPoint): a fixed
    rule, with no randomness, over the 19 x 19 grid. */
module GameMap {
  import opened GameTypes

  /** The L of three tiles anchored at spawn point `p`: the corner and its two
      in-grid neighbours; any other anchor has no zone. */
  predicate InCornerZone(p: Pos, x: int, y: int) {
    if p.x == 0 && p.y == 0 then
      (x == 0 && y == 0) || (x == 1 && y == 0) || (x == 0 && y == 1)
    else if p.x == MAP_SIZE - 1 && p.y == 0 then
      (x == p.x && y == p.y) || (x == p.x - 1 && y == p.y) || (x == p.x && y == p.y + 1)
    else if p.x == 0 && p.y == MAP_SIZE - 1 then
      (x == p.x && y == p.y) || (x == p.x + 1 && y == p.y) || (x == p.x && y == p.y - 1)
    else if p.x == MAP_SIZE - 1 && p.y == MAP_SIZE - 1 then
      (x == p.x && y == p.y) || (x == p.x - 1 && y == p.y) || (x == p.x && y == p.y - 1)
    else
      false
  }

  /** Whether (x, y) lies in the safety zone of some spawn point. */
  predicate IsSpawnPoint(x: int, y: int) {
    exists i | 0 <= i < |PLAYER_SPAWN_POINTS| :: InCornerZone(PLAYER_SPAWN_POINTS[i], x, y)
  }

  /** The twelve tiles of the four corner zones, listed independently of the rule above. */
  const SPAWN_ZONE: set<Pos> := {
    Pos(0, 0), Pos(1, 0), Pos(0, 1),
    Pos(18, 0), Pos(17, 0), Pos(18, 1),
    Pos(0, 18), Pos(1, 18), Pos(0, 17),
    Pos(18, 18), Pos(17, 18), Pos(18, 17)
  }

  lemma SpawnZoneIsTwelveTiles(x: int, y: int)
    ensures IsSpawnPoint(x, y) <==> Pos(x, y) in SPAWN_ZONE
  {
    if Pos(x, y) in SPAWN_ZONE {
      var i := if x <= 1 && y <= 1 then 0 else if y <= 1 then 1 else if x <= 1 then 2 else 3;
      assert InCornerZone(PLAYER_SPAWN_POINTS[i], x, y);
    }
  }

  /** The tile generated at column x, row y. */
  function GenerateTile(x: int, y: int): Tile {
    if x % 2 == 1 && y % 2 == 1 && !IsSpawnPoint(x, y) then Tile(Block, false, x, y)
    else if IsSpawnPoint(x, y) then Tile(Empty, true, x, y)
    else Tile(Rock, false, x, y)
  }

  /** The starting map: a well-formed grid whose tile at row y, column x is `GenerateTile(x, y)`. */
  function GenerateMap(): (g: Grid)
    ensures WellFormedGrid(g)
    ensures forall y, x | 0 <= y < MAP_SIZE && 0 <= x < MAP_SIZE :: g[y][x] == GenerateTile(x, y)
  {
    seq(MAP_SIZE, y => seq(MAP_SIZE, x => GenerateTile(x, y)))
  }

  /** The kinds on the starting map: pillars exactly at odd/odd coordinates
      (no spawn tile is odd/odd, so the spawn guard never fires), empty ground
      exactly on the twelve spawn-zone tiles, and rock everywhere else. */
  lemma GeneratedKinds(p: Pos)
    requires InBounds(p)
    ensures TileAt(GenerateMap(), p).kind == Block <==> p.x % 2 == 1 && p.y % 2 == 1
    ensures TileAt(GenerateMap(), p).kind == Empty <==> p in SPAWN_ZONE
    ensures TileAt(GenerateMap(), p).kind == Rock <==> !(p.x % 2 == 1 && p.y % 2 == 1) && p !in SPAWN_ZONE
  {
    SpawnZoneIsTwelveTiles(p.x, p.y);
  }

  /** Every spawn point and its two neighbours inside the grid are walkable at the start. */
  lemma SpawnCornersWalkable(i: nat)
    requires i < |PLAYER_SPAWN_POINTS|
    ensures var p := PLAYER_SPAWN_POINTS[i];
            var dx := if p.x == 0 then 1 else -1;
            var dy := if p.y == 0 then 1 else -1;
            && TileAt(GenerateMap(), p).walkable
            && TileAt(GenerateMap(), Pos(p.x + dx, p.y)).walkable
            && TileAt(GenerateMap(), Pos(p.x, p.y + dy)).walkable
  {
    var p := PLAYER_SPAWN_POINTS[i];
    var dx := if p.x == 0 then 1 else -1;
    var dy := if p.y == 0 then 1 else -1;
    SpawnZoneIsTwelveTiles(p.x, p.y);
    SpawnZoneIsTwelveTiles(p.x + dx, p.y);
    SpawnZoneIsTwelveTiles(p.x, p.y + dy);
  }
}
