/** Bomb explosions (server/gameLogic.js, handleBombExplosion) and the
    deadline sweep (checkBombExplosions), as functions over the game state;
    the Room class in module GameEngine carries them out in place. */
module Blast {
  import opened GameTypes
  import opened GameRules

  datatype Segment = Center | Horizontal | Vertical

  datatype Dir = Up | Down | Left | Right

  /** The order in which the blast walks. */
  const DIRECTIONS: seq<Dir> := [Up, Down, Left, Right]

  /** The segment kind a direction's cells are drawn with. */
  function SegmentOf(d: Dir): Segment {
    if d == Up || d == Down then Vertical else Horizontal
  }

  /** The tile `i` steps from `o` in direction `d`. */
  function Step(o: Pos, d: Dir, i: int): Pos {
    match d
    case Up => Pos(o.x, o.y - i)
    case Down => Pos(o.x, o.y + i)
    case Left => Pos(o.x - i, o.y)
    case Right => Pos(o.x + i, o.y)
  }

  datatype ExplosionCell = ExplosionCell(pos: Pos, segment: Segment, ownerId: PlayerId)

  /** What `handleBombExplosion` returns when it finds the bomb. */
  datatype ExplosionReport = ExplosionReport(
    explosions: seq<ExplosionCell>, destroyedBlocks: seq<Pos>, updatedMap: Grid, powerups: seq<Powerup>)

  /** The part of the state one explosion reads and writes, with the cells
      and destroyed rocks gathered so far. */
  datatype Blast = Blast(
    grid: Grid, players: map<PlayerId, Player>, powerups: seq<Powerup>,
    cells: seq<ExplosionCell>, destroyed: seq<Pos>)

  /** The power-up each destroyed rock drops, by position (no entry: none);
      stands for the two `Math.random()` draws (15% chance, then a uniform
      kind) made when the rock is destroyed. */
  type DropOracle = map<Pos, PowerupType>

  // ---------------------------------------------------------------- kills

  /** Whether a blast cell at `cell` from a bomb at `origin` kills `p`: the
      player is alive and stands on the cell or on the bomb's own tile. */
  predicate Hit(p: Player, origin: Pos, cell: Pos) {
    !p.isDead && (p.position == cell || p.position == origin)
  }

  function HitSet(ps: map<PlayerId, Player>, origin: Pos, cell: Pos): set<PlayerId> {
    set pid | pid in ps && Hit(ps[pid], origin, cell)
  }

  /** The players after the kill loop has run for one open blast cell: every
      hit player is marked dead, and the owner, when still in the game, scores
      one for each hit player other than itself. */
  function KillPass(ps: map<PlayerId, Player>, origin: Pos, cell: Pos, ownerId: PlayerId): map<PlayerId, Player> {
    var hit := HitSet(ps, origin, cell);
    var marked := map pid | pid in ps :: ps[pid].(isDead := ps[pid].isDead || pid in hit);
    if ownerId in marked then marked[ownerId := marked[ownerId].(score := marked[ownerId].score + |hit - {ownerId}|)]
    else marked
  }

  /** The players a step of the game killed. */
  ghost function NewlyDead(before: map<PlayerId, Player>, after: map<PlayerId, Player>): set<PlayerId> {
    set pid | pid in before && pid in after && !before[pid].isDead && after[pid].isDead
  }

  /** How the players may change during an explosion: same keys, only
      `isDead` and `score` touched, nobody revived, only the owner's score
      moves, and it moves by the number of other players killed. */
  ghost predicate PlayersEvolve(before: map<PlayerId, Player>, after: map<PlayerId, Player>, ownerId: PlayerId) {
    && after.Keys == before.Keys
    && (forall pid | pid in before ::
          after[pid] == before[pid].(isDead := after[pid].isDead, score := after[pid].score))
    && (forall pid | pid in before && before[pid].isDead :: after[pid].isDead)
    && (forall pid | pid in before && pid != ownerId :: after[pid].score == before[pid].score)
    && (ownerId in before ==>
          after[ownerId].score == before[ownerId].score + |NewlyDead(before, after) - {ownerId}|)
  }

  /** One kill pass kills exactly the hit players and pays the owner one
      point per other player killed. */
  lemma KillPassEvolves(ps: map<PlayerId, Player>, origin: Pos, cell: Pos, ownerId: PlayerId)
    ensures PlayersEvolve(ps, KillPass(ps, origin, cell, ownerId), ownerId)
    ensures NewlyDead(ps, KillPass(ps, origin, cell, ownerId)) == HitSet(ps, origin, cell)
  {
    KillPassEntries(ps, origin, cell, ownerId);
    MarkedNewlyDead(ps, KillPass(ps, origin, cell, ownerId), HitSet(ps, origin, cell));
  }

  /** Each player's entry after one kill pass. */
  lemma KillPassEntries(ps: map<PlayerId, Player>, origin: Pos, cell: Pos, ownerId: PlayerId)
    ensures var after := KillPass(ps, origin, cell, ownerId);
            var hit := HitSet(ps, origin, cell);
            && after.Keys == ps.Keys
            && forall pid | pid in ps ::
                 after[pid] == ps[pid].(isDead := ps[pid].isDead || pid in hit,
                                        score := if pid == ownerId then ps[pid].score + |hit - {ownerId}| else ps[pid].score)
  {
  }

  /** Marking the live players of `hit` dead kills exactly them. */
  lemma MarkedNewlyDead(ps: map<PlayerId, Player>, after: map<PlayerId, Player>, hit: set<PlayerId>)
    requires after.Keys == ps.Keys && hit <= ps.Keys
    requires forall pid | pid in hit :: !ps[pid].isDead
    requires forall pid | pid in ps :: after[pid].isDead == (ps[pid].isDead || pid in hit)
    ensures NewlyDead(ps, after) == hit
  {
  }

  /** One kill pass marks dead exactly the players standing on the cell or on
      the bomb's tile, and moves nobody. */
  lemma KillPassMarks(ps: map<PlayerId, Player>, origin: Pos, cell: Pos, ownerId: PlayerId)
    ensures var after := KillPass(ps, origin, cell, ownerId);
            && after.Keys == ps.Keys
            && forall pid | pid in ps ::
                 && after[pid].position == ps[pid].position
                 && (after[pid].isDead <==> ps[pid].isDead || ps[pid].position == cell || ps[pid].position == origin)
  {
  }

  lemma PlayersEvolveTrans(a: map<PlayerId, Player>, b: map<PlayerId, Player>, c: map<PlayerId, Player>, ownerId: PlayerId)
    requires PlayersEvolve(a, b, ownerId) && PlayersEvolve(b, c, ownerId)
    ensures PlayersEvolve(a, c, ownerId)
  {
    NewlyDeadSplit(a, b, c);
    forall pid | pid in a ensures c[pid] == a[pid].(isDead := c[pid].isDead, score := c[pid].score) {
      assert b[pid] == a[pid].(isDead := b[pid].isDead, score := b[pid].score);
    }
    if ownerId in a {
      var x := NewlyDead(a, b) - {ownerId};
      var y := NewlyDead(b, c) - {ownerId};
      MinusUnion(NewlyDead(a, b), NewlyDead(b, c), ownerId);
      DisjointUnionSize(x, y);
    }
  }

  lemma MinusUnion<T>(x: set<T>, y: set<T>, o: T)
    requires x !! y
    ensures (x + y) - {o} == (x - {o}) + (y - {o})
    ensures (x - {o}) !! (y - {o})
  {
  }

  /** Over two steps that revive nobody, the players killed are those killed
      by the first step and those killed by the second, never both. */
  lemma NewlyDeadSplit(a: map<PlayerId, Player>, b: map<PlayerId, Player>, c: map<PlayerId, Player>)
    requires a.Keys == b.Keys == c.Keys
    requires forall pid | pid in a && a[pid].isDead :: b[pid].isDead
    requires forall pid | pid in b && b[pid].isDead :: c[pid].isDead
    ensures NewlyDead(a, c) == NewlyDead(a, b) + NewlyDead(b, c)
    ensures NewlyDead(a, b) !! NewlyDead(b, c)
  {
  }

  lemma DisjointUnionSize<T>(x: set<T>, y: set<T>)
    requires x !! y
    ensures |x + y| == |x| + |y|
  {
    assert (x + y) - x == y;
  }

  lemma PlayersEvolveRefl(ps: map<PlayerId, Player>, ownerId: PlayerId)
    ensures PlayersEvolve(ps, ps, ownerId)
  {
    assert NewlyDead(ps, ps) == {};
  }

  // ---------------------------------------------------------------- the walk

  function Dropped(p: Pos, drop: DropOracle): seq<Powerup> {
    if p in drop then [Powerup(p, drop[p])] else []
  }

  /** Whether step `i` of the walk lies on empty ground within the radius:
      the walk emits a cell there, runs the kill loop and goes on. */
  predicate Continues(g: Grid, o: Pos, d: Dir, i: int, radius: int) {
    i <= radius && InBounds(Step(o, d, i)) && TileAt(g, Step(o, d, i)).kind == Empty
  }

  /** Whether step `i` of the walk lies on a rock within the radius: the walk
      emits a cell there, clears the rock and stops. */
  predicate HitsRock(g: Grid, o: Pos, d: Dir, i: int, radius: int) {
    i <= radius && InBounds(Step(o, d, i)) && TileAt(g, Step(o, d, i)).kind == Rock
  }

  /** The `for (let i = 1; i <= radius; i++)` walk in direction `d`, from step
      `i` on. Past the radius, off the grid or on a block it stops without a
      cell; on a rock it emits a cell, clears the rock, lists it as destroyed,
      may drop a power-up there, and stops; on empty ground it emits a cell,
      runs the kill loop and goes on. */
  function WalkDir(b: Blast, bomb: Bomb, d: Dir, i: int, radius: int, drop: DropOracle): Blast
    decreases radius - i + 1
  {
    var p := Step(bomb.pos, d, i);
    var cell := ExplosionCell(p, SegmentOf(d), bomb.ownerId);
    if Continues(b.grid, bomb.pos, d, i, radius) then
      WalkDir(b.(cells := b.cells + [cell], players := KillPass(b.players, bomb.pos, p, bomb.ownerId)),
              bomb, d, i + 1, radius, drop)
    else if HitsRock(b.grid, bomb.pos, d, i, radius) then
      b.(grid := ClearTile(b.grid, p), cells := b.cells + [cell], destroyed := b.destroyed + [p],
         powerups := b.powerups + Dropped(p, drop))
    else b
  }

  /** The number of steps from step `i` on that land on empty ground before
      the walk stops. */
  function Open(g: Grid, o: Pos, d: Dir, i: int, radius: int): nat
    decreases radius - i + 1
  {
    if Continues(g, o, d, i, radius) then 1 + Open(g, o, d, i + 1, radius) else 0
  }

  /** Whether the walk from step `i` ends on a rock. */
  predicate RockStop(g: Grid, o: Pos, d: Dir, i: int, radius: int) {
    HitsRock(g, o, d, i + Open(g, o, d, i, radius), radius)
  }

  /** `Open` is the longest run of empty in-grid tiles from step `i` that
      stays within the radius: every step of the run is empty ground, and the
      step after it is past the radius, off the grid, or not empty. */
  lemma {:induction false} OpenIsMaximalRun(g: Grid, o: Pos, d: Dir, i: int, radius: int)
    ensures var n := Open(g, o, d, i, radius);
            && (forall k | i <= k < i + n :: Continues(g, o, d, k, radius))
            && !Continues(g, o, d, i + n, radius)
    decreases radius - i + 1
  {
    if Continues(g, o, d, i, radius) {
      OpenIsMaximalRun(g, o, d, i + 1, radius);
      assert Open(g, o, d, i, radius) == 1 + Open(g, o, d, i + 1, radius);
    } else {
      assert Open(g, o, d, i, radius) == 0;
    }
  }

  /** The cells a walk's empty run is drawn with, from step `i`. */
  function RunCells(o: Pos, d: Dir, ownerId: PlayerId, i: int, n: nat): seq<ExplosionCell> {
    seq(n, j => ExplosionCell(Step(o, d, i + j), SegmentOf(d), ownerId))
  }

  /** The cell for the rock a walk ends on, if it ends on one. */
  function RockCell(g: Grid, o: Pos, d: Dir, ownerId: PlayerId, i: int, radius: int): seq<ExplosionCell> {
    if RockStop(g, o, d, i, radius)
    then [ExplosionCell(Landing(g, o, d, i, radius), SegmentOf(d), ownerId)]
    else []
  }

  /** The cells a walk adds: one for each step of its empty run, then, when
      it ends on a rock, one for that rock. */
  lemma {:induction false} WalkDirCells(b: Blast, bomb: Bomb, d: Dir, i: int, radius: int, drop: DropOracle)
    ensures WalkDir(b, bomb, d, i, radius, drop).cells
              == b.cells + RunCells(bomb.pos, d, bomb.ownerId, i, Open(b.grid, bomb.pos, d, i, radius))
                 + RockCell(b.grid, bomb.pos, d, bomb.ownerId, i, radius)
    decreases radius - i + 1
  {
    var o := bomb.pos;
    var n := Open(b.grid, o, d, i, radius);
    if Continues(b.grid, o, d, i, radius) {
      var b1 := WalkDirStep(b, bomb, d, i, radius, drop);
      OpenStep(b.grid, o, d, bomb.ownerId, i, radius);
      WalkDirCells(b1, bomb, d, i + 1, radius, drop);
      RunCellsCons(o, d, bomb.ownerId, i, n, b.cells, RockCell(b.grid, o, d, bomb.ownerId, i, radius));
    } else {
      assert RunCells(o, d, bomb.ownerId, i, 0) == [];
    }
  }

  /** One step of a walk over empty ground: the board it hands to step
      `i + 1`, which has the same grid and one more cell. */
  lemma WalkDirStep(b: Blast, bomb: Bomb, d: Dir, i: int, radius: int, drop: DropOracle) returns (b1: Blast)
    requires Continues(b.grid, bomb.pos, d, i, radius)
    ensures b1 == b.(cells := b.cells + [ExplosionCell(Step(bomb.pos, d, i), SegmentOf(d), bomb.ownerId)],
                     players := KillPass(b.players, bomb.pos, Step(bomb.pos, d, i), bomb.ownerId))
    ensures WalkDir(b, bomb, d, i, radius, drop) == WalkDir(b1, bomb, d, i + 1, radius, drop)
  {
    var p := Step(bomb.pos, d, i);
    b1 := b.(cells := b.cells + [ExplosionCell(p, SegmentOf(d), bomb.ownerId)],
             players := KillPass(b.players, bomb.pos, p, bomb.ownerId));
  }

  /** Past a step on empty ground, the run is one shorter and ends the same way. */
  lemma OpenStep(g: Grid, o: Pos, d: Dir, ownerId: PlayerId, i: int, radius: int)
    requires Continues(g, o, d, i, radius)
    ensures Open(g, o, d, i, radius) == 1 + Open(g, o, d, i + 1, radius)
    ensures RockCell(g, o, d, ownerId, i, radius) == RockCell(g, o, d, ownerId, i + 1, radius)
    ensures RockStop(g, o, d, i, radius) == RockStop(g, o, d, i + 1, radius)
    ensures Landing(g, o, d, i, radius) == Landing(g, o, d, i + 1, radius)
  {
    OpenShift(g, o, d, ownerId, i, radius, Open(g, o, d, i + 1, radius));
  }

  lemma OpenShift(g: Grid, o: Pos, d: Dir, ownerId: PlayerId, i: int, radius: int, n: nat)
    requires Open(g, o, d, i, radius) == 1 + n && Open(g, o, d, i + 1, radius) == n
    ensures RockCell(g, o, d, ownerId, i, radius) == RockCell(g, o, d, ownerId, i + 1, radius)
    ensures RockStop(g, o, d, i, radius) == RockStop(g, o, d, i + 1, radius)
    ensures Landing(g, o, d, i, radius) == Landing(g, o, d, i + 1, radius)
  {
  }

  lemma RunCellsCons(o: Pos, d: Dir, ownerId: PlayerId, i: int, n: nat, front: seq<ExplosionCell>, tail: seq<ExplosionCell>)
    requires n > 0
    ensures front + [ExplosionCell(Step(o, d, i), SegmentOf(d), ownerId)] + RunCells(o, d, ownerId, i + 1, n - 1) + tail
            == front + RunCells(o, d, ownerId, i, n) + tail
  {
    var c := ExplosionCell(Step(o, d, i), SegmentOf(d), ownerId);
    assert [c] + RunCells(o, d, ownerId, i + 1, n - 1) == RunCells(o, d, ownerId, i, n);
    assert front + [c] + RunCells(o, d, ownerId, i + 1, n - 1) == front + ([c] + RunCells(o, d, ownerId, i + 1, n - 1));
  }

  /** The tile where the walk from step `i` stops: the first step that is
      not on empty ground within the radius. */
  function Landing(g: Grid, o: Pos, d: Dir, i: int, radius: int): Pos {
    Step(o, d, i + Open(g, o, d, i, radius))
  }

  /** A walk changes the grid only when it ends on a rock, and then only by
      clearing that rock. */
  lemma {:induction false} WalkDirGrid(b: Blast, bomb: Bomb, d: Dir, i: int, radius: int, drop: DropOracle)
    ensures WalkDir(b, bomb, d, i, radius, drop).grid
              == if RockStop(b.grid, bomb.pos, d, i, radius)
                 then ClearTile(b.grid, Landing(b.grid, bomb.pos, d, i, radius)) else b.grid
    decreases radius - i + 1
  {
    if Continues(b.grid, bomb.pos, d, i, radius) {
      var b1 := WalkDirStep(b, bomb, d, i, radius, drop);
      OpenStep(b.grid, bomb.pos, d, bomb.ownerId, i, radius);
      WalkDirGrid(b1, bomb, d, i + 1, radius, drop);
    }
  }

  /** A walk lists a destroyed rock, and may drop a power-up, only on the rock
      it ends on. */
  lemma {:induction false} WalkDirDestroys(b: Blast, bomb: Bomb, d: Dir, i: int, radius: int, drop: DropOracle)
    ensures var r := WalkDir(b, bomb, d, i, radius, drop);
            var q := Landing(b.grid, bomb.pos, d, i, radius);
            && r.destroyed == b.destroyed + (if RockStop(b.grid, bomb.pos, d, i, radius) then [q] else [])
            && r.powerups == b.powerups + (if RockStop(b.grid, bomb.pos, d, i, radius) then Dropped(q, drop) else [])
    decreases radius - i + 1
  {
    if Continues(b.grid, bomb.pos, d, i, radius) {
      var b1 := WalkDirStep(b, bomb, d, i, radius, drop);
      OpenStep(b.grid, bomb.pos, d, bomb.ownerId, i, radius);
      WalkDirDestroys(b1, bomb, d, i + 1, radius, drop);
    }
  }

  /** Whether `q` is one of the `n` steps from step `i`. */
  predicate OnRun(q: Pos, o: Pos, d: Dir, i: int, n: int) {
    exists k | i <= k < i + n :: q == Step(o, d, k)
  }

  lemma OnRunCons(q: Pos, o: Pos, d: Dir, i: int, n: int)
    requires n > 0
    ensures OnRun(q, o, d, i, n) <==> q == Step(o, d, i) || OnRun(q, o, d, i + 1, n - 1)
  {
    if OnRun(q, o, d, i, n) && q != Step(o, d, i) {
      var k :| i <= k < i + n && q == Step(o, d, k);
      assert i + 1 <= k;
    }
    if OnRun(q, o, d, i + 1, n - 1) {
      var k :| i + 1 <= k < i + n && q == Step(o, d, k);
    }
  }

  /** Who a walk kills: a player is dead afterwards exactly when it was dead
      before, or it stands on a tile of the walk's empty run, or on the
      bomb's own tile while that run is not empty. A rock cell ends the walk
      before the kill loop runs for it. */
  lemma {:induction false} WalkDirKills(b: Blast, bomb: Bomb, d: Dir, i: int, radius: int, drop: DropOracle)
    ensures var r := WalkDir(b, bomb, d, i, radius, drop);
            var n := Open(b.grid, bomb.pos, d, i, radius);
            && r.players.Keys == b.players.Keys
            && (forall pid | pid in b.players ::
                  r.players[pid].isDead <==>
                    || b.players[pid].isDead
                    || (n > 0 && b.players[pid].position == bomb.pos)
                    || OnRun(b.players[pid].position, bomb.pos, d, i, n))
    decreases radius - i + 1
  {
    var o := bomb.pos;
    if Continues(b.grid, o, d, i, radius) {
      var p := Step(o, d, i);
      var b1 := WalkDirStep(b, bomb, d, i, radius, drop);
      OpenStep(b.grid, o, d, bomb.ownerId, i, radius);
      WalkDirKills(b1, bomb, d, i + 1, radius, drop);
      var n := Open(b.grid, o, d, i, radius);
      KillPassMarks(b.players, o, p, bomb.ownerId);
      forall pid | pid in b.players
        ensures OnRun(b.players[pid].position, o, d, i, n) <==> b.players[pid].position == p || OnRun(b.players[pid].position, o, d, i + 1, n - 1)
      {
        OnRunCons(b.players[pid].position, o, d, i, n);
      }
    } else {
      assert Open(b.grid, o, d, i, radius) == 0;
    }
  }

  /** A walk changes players only as an explosion may (`PlayersEvolve`). */
  lemma {:induction false} WalkDirScores(b: Blast, bomb: Bomb, d: Dir, i: int, radius: int, drop: DropOracle)
    ensures PlayersEvolve(b.players, WalkDir(b, bomb, d, i, radius, drop).players, bomb.ownerId)
    decreases radius - i + 1
  {
    if Continues(b.grid, bomb.pos, d, i, radius) {
      var p := Step(bomb.pos, d, i);
      var b1 := WalkDirStep(b, bomb, d, i, radius, drop);
      KillPassEvolves(b.players, bomb.pos, p, bomb.ownerId);
      WalkDirScores(b1, bomb, d, i + 1, radius, drop);
      PlayersEvolveTrans(b.players, b1.players, WalkDir(b1, bomb, d, i + 1, radius, drop).players, bomb.ownerId);
    } else {
      PlayersEvolveRefl(b.players, bomb.ownerId);
    }
  }

  /** A walk's length: at most one cell per step from `i` to `radius`. */
  lemma WalkDirBound(b: Blast, bomb: Bomb, d: Dir, i: int, radius: int, drop: DropOracle)
    requires i <= radius + 1
    ensures |WalkDir(b, bomb, d, i, radius, drop).cells| <= |b.cells| + radius - i + 1
  {
    WalkDirCells(b, bomb, d, i, radius, drop);
    OpenIsMaximalRun(b.grid, bomb.pos, d, i, radius);
    var n := Open(b.grid, bomb.pos, d, i, radius);
    if n > 0 {
      assert Continues(b.grid, bomb.pos, d, i + n - 1, radius);
    }
  }

  // ---------------------------------------------------------------- grid bookkeeping

  /** How the board may change during an explosion: the grid stays well
      formed; a tile changes only from rock to empty ground, and exactly the
      changed tiles are appended to the destroyed list; explosion cells,
      destroyed tiles and power-ups are only appended to; every new cell lies
      inside the grid on a tile that was not a block; every new power-up lies
      on empty ground. */
  ghost predicate BoardEvolves(b: Blast, r: Blast) {
    && WellFormedGrid(r.grid)
    && (forall q | InBounds(q) ::
          TileAt(r.grid, q) == TileAt(b.grid, q) || (TileAt(b.grid, q).kind == Rock && TileAt(r.grid, q).kind == Empty))
    && |b.destroyed| <= |r.destroyed| && r.destroyed[..|b.destroyed|] == b.destroyed
    && (forall j | |b.destroyed| <= j < |r.destroyed| :: InBounds(r.destroyed[j]))
    && (forall q | InBounds(q) :: TileAt(r.grid, q) != TileAt(b.grid, q) <==> q in r.destroyed[|b.destroyed|..])
    && |b.cells| <= |r.cells| && r.cells[..|b.cells|] == b.cells
    && (forall j | |b.cells| <= j < |r.cells| ::
          InBounds(r.cells[j].pos) && TileAt(b.grid, r.cells[j].pos).kind != Block)
    && |b.powerups| <= |r.powerups| && r.powerups[..|b.powerups|] == b.powerups
    && (forall j | |b.powerups| <= j < |r.powerups| :: OnOpenTile(r.grid, r.powerups[j].pos))
  }

  lemma BoardEvolvesTrans(a: Blast, b: Blast, c: Blast)
    requires BoardEvolves(a, b) && BoardEvolves(b, c)
    ensures BoardEvolves(a, c)
  {
    assert c.destroyed[..|a.destroyed|] == a.destroyed by {
      assert c.destroyed[..|a.destroyed|] == c.destroyed[..|b.destroyed|][..|a.destroyed|];
    }
    assert c.cells[..|a.cells|] == a.cells by {
      assert c.cells[..|a.cells|] == c.cells[..|b.cells|][..|a.cells|];
    }
    assert c.powerups[..|a.powerups|] == a.powerups by {
      assert c.powerups[..|a.powerups|] == c.powerups[..|b.powerups|][..|a.powerups|];
    }
    forall j | |a.cells| <= j < |c.cells|
      ensures InBounds(c.cells[j].pos) && TileAt(a.grid, c.cells[j].pos).kind != Block
    {
      if j < |b.cells| {
        assert c.cells[j] == b.cells[j];
      }
    }
    forall j | |a.destroyed| <= j < |c.destroyed| ensures InBounds(c.destroyed[j]) {
      if j < |b.destroyed| {
        assert c.destroyed[j] == b.destroyed[j];
      }
    }
    var ab := b.destroyed[|a.destroyed|..];
    var bc := c.destroyed[|b.destroyed|..];
    assert c.destroyed[|a.destroyed|..] == ab + bc;
    forall j | |a.powerups| <= j < |c.powerups| ensures OnOpenTile(c.grid, c.powerups[j].pos) {
      if j < |b.powerups| {
        assert c.powerups[j] == b.powerups[j];
      }
    }
  }

  lemma BoardEvolvesRefl(b: Blast)
    requires WellFormedGrid(b.grid)
    ensures BoardEvolves(b, b)
  {
  }

  /** Every cell a walk adds lies inside the grid on a tile that is not a block. */
  lemma WalkDirNewCells(b: Blast, bomb: Bomb, d: Dir, i: int, radius: int, drop: DropOracle)
    ensures var r := WalkDir(b, bomb, d, i, radius, drop);
            forall j | |b.cells| <= j < |r.cells| :: InBounds(r.cells[j].pos) && TileAt(b.grid, r.cells[j].pos).kind != Block
  {
    var r := WalkDir(b, bomb, d, i, radius, drop);
    var n := Open(b.grid, bomb.pos, d, i, radius);
    WalkDirCells(b, bomb, d, i, radius, drop);
    OpenIsMaximalRun(b.grid, bomb.pos, d, i, radius);
    var run := RunCells(bomb.pos, d, bomb.ownerId, i, n);
    forall j | |b.cells| <= j < |r.cells|
      ensures InBounds(r.cells[j].pos) && TileAt(b.grid, r.cells[j].pos).kind != Block
    {
      if j < |b.cells| + n {
        assert r.cells[j] == run[j - |b.cells|];
        assert Continues(b.grid, bomb.pos, d, i + (j - |b.cells|), radius);
      } else {
        assert r.cells[j].pos == Landing(b.grid, bomb.pos, d, i, radius);
      }
    }
  }

  /** A walk changes the board only as an explosion may. */
  lemma WalkDirBoard(b: Blast, bomb: Bomb, d: Dir, i: int, radius: int, drop: DropOracle)
    requires WellFormedGrid(b.grid)
    ensures BoardEvolves(b, WalkDir(b, bomb, d, i, radius, drop))
  {
    var r := WalkDir(b, bomb, d, i, radius, drop);
    WalkDirNewCells(b, bomb, d, i, radius, drop);
    WalkDirCells(b, bomb, d, i, radius, drop);
    WalkDirGrid(b, bomb, d, i, radius, drop);
    WalkDirDestroys(b, bomb, d, i, radius, drop);
    assert r.cells[..|b.cells|] == b.cells;
    EvolveByWalk(b, r, RockStop(b.grid, bomb.pos, d, i, radius), Landing(b.grid, bomb.pos, d, i, radius), drop);
  }

  /** A board that gained cells off blocks and, when `rock` holds, had the
      rock at `q` cleared, listed and possibly given a power-up, evolved as
      `BoardEvolves` allows. */
  lemma EvolveByWalk(b: Blast, r: Blast, rock: bool, q: Pos, drop: DropOracle)
    requires WellFormedGrid(b.grid)
    requires rock ==> InBounds(q) && TileAt(b.grid, q).kind == Rock
    requires r.grid == if rock then ClearTile(b.grid, q) else b.grid
    requires r.destroyed == b.destroyed + (if rock then [q] else [])
    requires r.powerups == b.powerups + (if rock then Dropped(q, drop) else [])
    requires |b.cells| <= |r.cells| && r.cells[..|b.cells|] == b.cells
    requires forall j | |b.cells| <= j < |r.cells| ::
               InBounds(r.cells[j].pos) && TileAt(b.grid, r.cells[j].pos).kind != Block
    ensures BoardEvolves(b, r)
  {
    if rock {
      ClearTileEffect(b.grid, q);
      assert r.destroyed[|b.destroyed|..] == [q];
    } else {
      assert r.destroyed[|b.destroyed|..] == [];
    }
  }

  // ---------------------------------------------------------------- one explosion

  /** The four walks, from direction `d` on. */
  function Spread(b: Blast, bomb: Bomb, radius: int, drop: DropOracle, d: nat): Blast
    requires d <= |DIRECTIONS|
    decreases |DIRECTIONS| - d
  {
    if d == |DIRECTIONS| then b
    else Spread(WalkDir(b, bomb, DIRECTIONS[d], 1, radius, drop), bomb, radius, drop, d + 1)
  }

  lemma {:induction false} SpreadBoard(b: Blast, bomb: Bomb, radius: int, drop: DropOracle, d: nat)
    requires d <= |DIRECTIONS| && WellFormedGrid(b.grid)
    ensures BoardEvolves(b, Spread(b, bomb, radius, drop, d))
    decreases |DIRECTIONS| - d
  {
    if d == |DIRECTIONS| {
      BoardEvolvesRefl(b);
    } else {
      var w := WalkDir(b, bomb, DIRECTIONS[d], 1, radius, drop);
      WalkDirBoard(b, bomb, DIRECTIONS[d], 1, radius, drop);
      SpreadBoard(w, bomb, radius, drop, d + 1);
      BoardEvolvesTrans(b, w, Spread(w, bomb, radius, drop, d + 1));
    }
  }

  lemma {:induction false} SpreadPlayers(b: Blast, bomb: Bomb, radius: int, drop: DropOracle, d: nat)
    requires d <= |DIRECTIONS|
    ensures PlayersEvolve(b.players, Spread(b, bomb, radius, drop, d).players, bomb.ownerId)
    decreases |DIRECTIONS| - d
  {
    if d == |DIRECTIONS| {
      PlayersEvolveRefl(b.players, bomb.ownerId);
    } else {
      var w := WalkDir(b, bomb, DIRECTIONS[d], 1, radius, drop);
      WalkDirScores(b, bomb, DIRECTIONS[d], 1, radius, drop);
      SpreadPlayers(w, bomb, radius, drop, d + 1);
      PlayersEvolveTrans(b.players, w.players, Spread(w, bomb, radius, drop, d + 1).players, bomb.ownerId);
    }
  }

  lemma {:induction false} SpreadBound(b: Blast, bomb: Bomb, radius: nat, drop: DropOracle, d: nat)
    requires d <= |DIRECTIONS|
    ensures |Spread(b, bomb, radius, drop, d).cells| <= |b.cells| + (|DIRECTIONS| - d) * radius
    decreases |DIRECTIONS| - d
  {
    if d < |DIRECTIONS| {
      var w := WalkDir(b, bomb, DIRECTIONS[d], 1, radius, drop);
      WalkDirBound(b, bomb, DIRECTIONS[d], 1, radius, drop);
      SpreadBound(w, bomb, radius, drop, d + 1);
      assert (|DIRECTIONS| - d) * radius == (|DIRECTIONS| - (d + 1)) * radius + radius;
    }
  }

  /** The owner's bomb count after its bomb goes off: one less, never below 0,
      and nothing when the owner has left the game. */
  function Discharge(ps: map<PlayerId, Player>, ownerId: PlayerId): map<PlayerId, Player> {
    if ownerId in ps && ps[ownerId].activeBombs > 0
    then ps[ownerId := ps[ownerId].(activeBombs := ps[ownerId].activeBombs - 1)]
    else ps
  }

  /** The blast radius: the owner's `bombPower`, or 1 when the owner is gone. */
  function Radius(ps: map<PlayerId, Player>, ownerId: PlayerId): nat {
    if ownerId in ps then ps[ownerId].bombPower else 1
  }

  /** The state an explosion starts from: the bomb's owner discharged and the
      center cell emitted. */
  function Ignite(s: GameState, bomb: Bomb): Blast {
    Blast(s.grid, Discharge(s.players, bomb.ownerId), s.powerups, [ExplosionCell(bomb.pos, Center, bomb.ownerId)], [])
  }

  /** `handleBombExplosion` once the room has been found; `drop` decides the
      power-up drops. */
  function Explode(s: GameState, bombId: BombId, drop: DropOracle): (GameState, Option<ExplosionReport>) {
    match FirstIndex(s.bombs, IdIs(bombId))
    case None => (s, None)
    case Some(k) =>
      var bomb := s.bombs[k];
      var b := Spread(Ignite(s, bomb), bomb, Radius(s.players, bomb.ownerId), drop, 0);
      (s.(grid := b.grid, players := b.players, bombs := RemoveAt(s.bombs, k), powerups := b.powerups),
       Some(ExplosionReport(b.cells, b.destroyed, b.grid, b.powerups)))
  }

  /** An unknown bomb identifier answers nothing and changes nothing; a known
      one is always answered. */
  lemma ExplodeFindsBomb(s: GameState, bombId: BombId, drop: DropOracle)
    ensures Explode(s, bombId, drop).1.Some? <==> exists j | 0 <= j < |s.bombs| :: s.bombs[j].id == bombId
    ensures Explode(s, bombId, drop).1.None? ==> Explode(s, bombId, drop).0 == s
  {
    if exists j | 0 <= j < |s.bombs| :: s.bombs[j].id == bombId {
      var j :| 0 <= j < |s.bombs| && s.bombs[j].id == bombId;
      assert IdIs(bombId)(s.bombs[j]);
    }
  }

  /** The first bomb with the identifier is removed and no other, and the
      owner's `activeBombs` drops by one but not below zero; nothing else of
      the room but the board and the players changes. */
  lemma ExplodeRemovesBomb(s: GameState, bombId: BombId, drop: DropOracle, k: nat)
    requires k < |s.bombs| && s.bombs[k].id == bombId
    requires forall j | 0 <= j < k :: s.bombs[j].id != bombId
    ensures var s' := Explode(s, bombId, drop).0;
            var owner := s.bombs[k].ownerId;
            && s'.bombs == RemoveAt(s.bombs, k)
            && s'.players.Keys == s.players.Keys
            && (owner in s.players ==>
                  s'.players[owner].activeBombs == (if s.players[owner].activeBombs > 0 then s.players[owner].activeBombs - 1 else 0))
            && (forall pid | pid in s.players && pid != owner :: s'.players[pid].activeBombs == s.players[pid].activeBombs)
            && s'.isPaused == s.isPaused && s'.pausedAt == s.pausedAt
            && s'.totalPausedTime == s.totalPausedTime && s'.gameStartTime == s.gameStartTime
  {
    assert FirstIndex(s.bombs, IdIs(bombId)) == Some(k);
    var bomb := s.bombs[k];
    SpreadPlayers(Ignite(s, bomb), bomb, Radius(s.players, bomb.ownerId), drop, 0);
  }

  /** Players change no further than `isDead` and `score`: nobody is revived,
      and the owner alone scores, one point per other player the explosion
      killed. */
  lemma ExplodeScores(s: GameState, bombId: BombId, drop: DropOracle, k: nat)
    requires k < |s.bombs| && s.bombs[k].id == bombId
    requires forall j | 0 <= j < k :: s.bombs[j].id != bombId
    ensures var s' := Explode(s, bombId, drop).0;
            var owner := s.bombs[k].ownerId;
            && s'.players.Keys == s.players.Keys
            && (forall pid | pid in s.players ::
                  s'.players[pid].position == s.players[pid].position
                  && s'.players[pid].bombPower == s.players[pid].bombPower
                  && s'.players[pid].bombCount == s.players[pid].bombCount)
            && (forall pid | pid in s.players && s.players[pid].isDead :: s'.players[pid].isDead)
            && (forall pid | pid in s.players && pid != owner :: s'.players[pid].score == s.players[pid].score)
            && (owner in s.players ==>
                  s'.players[owner].score == s.players[owner].score + |NewlyDead(s.players, s'.players) - {owner}|)
  {
    assert FirstIndex(s.bombs, IdIs(bombId)) == Some(k);
    var bomb := s.bombs[k];
    SpreadPlayers(Ignite(s, bomb), bomb, Radius(s.players, bomb.ownerId), drop, 0);
    DischargeThenEvolve(s.players, Explode(s, bombId, drop).0.players, bomb.ownerId);
  }

  lemma DischargeThenEvolve(ps: map<PlayerId, Player>, after: map<PlayerId, Player>, owner: PlayerId)
    requires PlayersEvolve(Discharge(ps, owner), after, owner)
    ensures && after.Keys == ps.Keys
            && (forall pid | pid in ps ::
                  after[pid].position == ps[pid].position
                  && after[pid].bombPower == ps[pid].bombPower
                  && after[pid].bombCount == ps[pid].bombCount)
            && (forall pid | pid in ps && ps[pid].isDead :: after[pid].isDead)
            && (forall pid | pid in ps && pid != owner :: after[pid].score == ps[pid].score)
            && (owner in ps ==> after[owner].score == ps[owner].score + |NewlyDead(ps, after) - {owner}|)
  {
    var dp := Discharge(ps, owner);
    assert dp.Keys == ps.Keys;
    assert forall pid | pid in ps :: dp[pid] == ps[pid].(activeBombs := dp[pid].activeBombs);
    assert NewlyDead(ps, after) == NewlyDead(dp, after);
  }

  /** The grid stays well formed and a tile changes only from rock to empty
      ground. */
  ghost predicate TilesEvolve(g: Grid, g': Grid) {
    && WellFormedGrid(g')
    && forall q | InBounds(q) ::
         TileAt(g', q) == TileAt(g, q) || (TileAt(g, q).kind == Rock && TileAt(g', q).kind == Empty)
  }

  /** `destroyed` names exactly the tiles that differ between `g` and `g'`. */
  ghost predicate ListsChanges(g: Grid, g': Grid, destroyed: seq<Pos>) {
    forall q | InBounds(q) :: TileAt(g', q) != TileAt(g, q) <==> q in destroyed
  }

  /** Earlier power-ups are kept in order; new ones lie on empty ground of `g'`. */
  ghost predicate PowerupsGrow(g': Grid, us: seq<Powerup>, us': seq<Powerup>) {
    && |us| <= |us'| && us'[..|us|] == us
    && forall j | |us| <= j < |us'| :: OnOpenTile(g', us'[j].pos)
  }

  /** The cells of a blast of `bomb`: its center cell first, then at most
      `radius` further cells per direction, each inside the grid on a tile of
      `g` that is not a block. */
  ghost predicate CellsShape(g: Grid, bomb: Bomb, radius: nat, cells: seq<ExplosionCell>) {
    && 1 <= |cells| <= 1 + 4 * radius
    && cells[0] == ExplosionCell(bomb.pos, Center, bomb.ownerId)
    && forall j | 1 <= j < |cells| :: InBounds(cells[j].pos) && TileAt(g, cells[j].pos).kind != Block
  }

  /** The report: the cells have the shape `CellsShape` describes, and the
      reported map and power-ups are the room's new ones. */
  lemma ExplodeReports(s: GameState, bombId: BombId, drop: DropOracle, k: nat)
    requires WellFormedGrid(s.grid)
    requires k < |s.bombs| && s.bombs[k].id == bombId
    requires forall j | 0 <= j < k :: s.bombs[j].id != bombId
    ensures var (s', r) := Explode(s, bombId, drop);
            && r.Some?
            && r.value.updatedMap == s'.grid && r.value.powerups == s'.powerups
            && CellsShape(s.grid, s.bombs[k], Radius(s.players, s.bombs[k].ownerId), r.value.explosions)
  {
    assert FirstIndex(s.bombs, IdIs(bombId)) == Some(k);
    SpreadReport(s, s.bombs[k], drop);
  }

  /** The ground after an explosion: only rock turns into empty ground, the
      destroyed list names exactly the tiles that changed, and power-ups are
      only added, on empty ground. */
  lemma ExplodeChangesGround(s: GameState, bombId: BombId, drop: DropOracle, k: nat)
    requires WellFormedGrid(s.grid)
    requires k < |s.bombs| && s.bombs[k].id == bombId
    requires forall j | 0 <= j < k :: s.bombs[j].id != bombId
    ensures var (s', r) := Explode(s, bombId, drop);
            && r.Some?
            && TilesEvolve(s.grid, s'.grid)
            && ListsChanges(s.grid, s'.grid, r.value.destroyedBlocks)
            && PowerupsGrow(s'.grid, s.powerups, s'.powerups)
  {
    assert FirstIndex(s.bombs, IdIs(bombId)) == Some(k);
    SpreadReport(s, s.bombs[k], drop);
  }

  /** What `ExplodeReports` and `ExplodeChangesGround` promise, for the board
      the blast of `bomb` leaves. */
  lemma SpreadReport(s: GameState, bomb: Bomb, drop: DropOracle)
    requires WellFormedGrid(s.grid)
    ensures var radius := Radius(s.players, bomb.ownerId);
            var b := Spread(Ignite(s, bomb), bomb, radius, drop, 0);
            && CellsShape(s.grid, bomb, radius, b.cells)
            && TilesEvolve(s.grid, b.grid) && ListsChanges(s.grid, b.grid, b.destroyed)
            && PowerupsGrow(b.grid, s.powerups, b.powerups)
  {
    var start := Ignite(s, bomb);
    var radius := Radius(s.players, bomb.ownerId);
    SpreadBoard(start, bomb, radius, drop, 0);
    SpreadBound(start, bomb, radius, drop, 0);
    BlastReport(s, bomb, start, Spread(start, bomb, radius, drop, 0), radius);
  }

  /** What `ExplodeReports` and `ExplodeChangesGround` promise, for any board
      that evolved from the ignited one within the length bound. */
  lemma BlastReport(s: GameState, bomb: Bomb, start: Blast, b: Blast, radius: nat)
    requires WellFormedGrid(s.grid) && start == Ignite(s, bomb)
    requires BoardEvolves(start, b) && |b.cells| <= |start.cells| + 4 * radius
    ensures CellsShape(s.grid, bomb, radius, b.cells)
    ensures TilesEvolve(s.grid, b.grid) && ListsChanges(s.grid, b.grid, b.destroyed)
    ensures PowerupsGrow(b.grid, s.powerups, b.powerups)
  {
    assert b.cells[0] == b.cells[..1][0];
    assert b.destroyed[0..] == b.destroyed;
  }

  /** An explosion keeps the engine invariant: its bomb's owner is a known
      player who has the bomb counted, so the owner's `activeBombs` drops by
      exactly one and again equals the bombs it owns; players and power-ups
      stay on empty ground because blasts only turn rock into empty ground. */
  lemma ExplodePreservesInv(s: GameState, bombId: BombId, drop: DropOracle)
    requires GameInv(s)
    ensures GameInv(Explode(s, bombId, drop).0)
  {
    match FirstIndex(s.bombs, IdIs(bombId))
    case None =>
    case Some(k) =>
      ExplodeRemovesBomb(s, bombId, drop, k);
      ExplodeScores(s, bombId, drop, k);
      ExplodeChangesGround(s, bombId, drop, k);
      InvAfterBlast(s, Explode(s, bombId, drop).0, k);
  }

  /** The invariant survives any change that removes bomb `k`, discharges its
      owner, moves no player, and only turns rock into empty ground or adds
      power-ups on empty ground. */
  lemma InvAfterBlast(s: GameState, s': GameState, k: nat)
    requires GameInv(s) && k < |s.bombs|
    requires s'.bombs == RemoveAt(s.bombs, k)
    requires TilesEvolve(s.grid, s'.grid)
    requires s'.players.Keys == s.players.Keys
    requires forall pid | pid in s.players ::
               s'.players[pid].position == s.players[pid].position && s'.players[pid].bombCount == s.players[pid].bombCount
    requires s.bombs[k].ownerId in s.players ==>
               s'.players[s.bombs[k].ownerId].activeBombs
                 == (if s.players[s.bombs[k].ownerId].activeBombs > 0 then s.players[s.bombs[k].ownerId].activeBombs - 1 else 0)
    requires forall pid | pid in s.players && pid != s.bombs[k].ownerId :: s'.players[pid].activeBombs == s.players[pid].activeBombs
    requires PowerupsGrow(s'.grid, s.powerups, s'.powerups)
    requires s'.isPaused == s.isPaused && s'.pausedAt == s.pausedAt
    ensures GameInv(s')
  {
    CountsAfterRemove(s.bombs, k, s.players, s'.players);
    GroundAfterBlast(s.grid, s'.grid, s.players, s'.players, s.powerups, s'.powerups);
    BombsAfterRemove(s.bombs, k, s.players.Keys, s.isPaused);
  }

  /** Removing a bomb keeps every remaining bomb owned by a known player, on
      a tile of its own, and with its remaining time captured exactly while
      paused. */
  lemma BombsAfterRemove(bombs: seq<Bomb>, k: nat, ids: set<PlayerId>, paused: bool)
    requires k < |bombs|
    requires forall j | 0 <= j < |bombs| :: bombs[j].ownerId in ids
    requires forall i, j | 0 <= i < j < |bombs| :: bombs[i].pos != bombs[j].pos
    requires forall j | 0 <= j < |bombs| :: bombs[j].remainingTime.Some? <==> paused
    ensures var r := RemoveAt(bombs, k);
            && (forall j | 0 <= j < |r| :: r[j].ownerId in ids)
            && (forall i, j | 0 <= i < j < |r| :: r[i].pos != r[j].pos)
            && (forall j | 0 <= j < |r| :: r[j].remainingTime.Some? <==> paused)
  {
    var r := RemoveAt(bombs, k);
    forall j | 0 <= j < |r| ensures r[j] == bombs[if j < k then j else j + 1] {
    }
    forall i, j | 0 <= i < j < |r| ensures r[i].pos != r[j].pos {
      assert r[i] == bombs[if i < k then i else i + 1];
      assert r[j] == bombs[if j < k then j else j + 1];
    }
  }

  /** Players that do not move and earlier power-ups stay on empty ground
      when tiles only turn from rock to empty ground. */
  lemma GroundAfterBlast(g: Grid, g': Grid, ps: map<PlayerId, Player>, ps': map<PlayerId, Player>,
                         us: seq<Powerup>, us': seq<Powerup>)
    requires TilesEvolve(g, g')
    requires forall pid | pid in ps :: OnOpenTile(g, ps[pid].position)
    requires ps'.Keys == ps.Keys && forall pid | pid in ps :: ps'[pid].position == ps[pid].position
    requires forall j | 0 <= j < |us| :: OnOpenTile(g, us[j].pos)
    requires PowerupsGrow(g', us, us')
    ensures forall pid | pid in ps' :: OnOpenTile(g', ps'[pid].position)
    ensures forall j | 0 <= j < |us'| :: OnOpenTile(g', us'[j].pos)
  {
    forall pid | pid in ps' ensures OnOpenTile(g', ps'[pid].position) {
      assert OnOpenTile(g, ps[pid].position);
    }
    forall j | 0 <= j < |us'| ensures OnOpenTile(g', us'[j].pos) {
      if j < |us| {
        assert us'[j] == us[j];
      }
    }
  }

  /** Removing a bomb while its owner's count drops by one (not below zero)
      keeps every player's count equal to the bombs it owns. */
  lemma CountsAfterRemove(bombs: seq<Bomb>, k: nat, before: map<PlayerId, Player>, after: map<PlayerId, Player>)
    requires k < |bombs|
    requires forall q | q in before :: before[q].activeBombs == OwnedCount(bombs, q) <= before[q].bombCount
    requires after.Keys == before.Keys
    requires bombs[k].ownerId in before ==>
               after[bombs[k].ownerId].activeBombs
                 == (if before[bombs[k].ownerId].activeBombs > 0 then before[bombs[k].ownerId].activeBombs - 1 else 0)
    requires forall q | q in before && q != bombs[k].ownerId :: after[q].activeBombs == before[q].activeBombs
    requires forall q | q in before :: after[q].bombCount == before[q].bombCount
    ensures forall q | q in after :: after[q].activeBombs == OwnedCount(RemoveAt(bombs, k), q) <= after[q].bombCount
  {
    forall q | q in after
      ensures after[q].activeBombs == OwnedCount(RemoveAt(bombs, k), q) <= after[q].bombCount
    {
      OwnedCountRemove(bombs, k, q);
    }
  }

  lemma ExplodeKeepsGround(s: GameState, bombId: BombId, drop: DropOracle, k: nat)
    requires GameInv(s)
    requires k < |s.bombs| && s.bombs[k].id == bombId
    requires forall j | 0 <= j < k :: s.bombs[j].id != bombId
    ensures var s' := Explode(s, bombId, drop).0;
            && WellFormedGrid(s'.grid)
            && (forall pid | pid in s'.players :: OnOpenTile(s'.grid, s'.players[pid].position))
            && (forall j | 0 <= j < |s'.powerups| :: OnOpenTile(s'.grid, s'.powerups[j].pos))
  {
    var s' := Explode(s, bombId, drop).0;
    ExplodeScores(s, bombId, drop, k);
    ExplodeChangesGround(s, bombId, drop, k);
    forall pid | pid in s'.players ensures OnOpenTile(s'.grid, s'.players[pid].position) {
      assert OnOpenTile(s.grid, s.players[pid].position);
    }
    forall j | 0 <= j < |s'.powerups| ensures OnOpenTile(s'.grid, s'.powerups[j].pos) {
      if j < |s.powerups| {
        assert s'.powerups[j] == s.powerups[j];
        assert OnOpenTile(s.grid, s.powerups[j].pos);
      }
    }
  }

  // ---------------------------------------------------------------- who dies

  /** Every player a step killed stands on one of the cells emitted so far. */
  ghost predicate KilledOnCells(b: Blast, r: Blast) {
    forall pid | pid in b.players && pid in r.players && !b.players[pid].isDead && r.players[pid].isDead ::
      exists j | 0 <= j < |r.cells| :: r.cells[j].pos == b.players[pid].position
  }

  /** With the bomb's own cell already emitted, a walk kills only on cells. */
  lemma WalkDirKillsOnCells(b: Blast, bomb: Bomb, d: Dir, i: int, radius: int, drop: DropOracle, center: nat)
    requires center < |b.cells| && b.cells[center].pos == bomb.pos
    ensures KilledOnCells(b, WalkDir(b, bomb, d, i, radius, drop))
  {
    var r := WalkDir(b, bomb, d, i, radius, drop);
    var n := Open(b.grid, bomb.pos, d, i, radius);
    WalkDirKills(b, bomb, d, i, radius, drop);
    WalkDirCells(b, bomb, d, i, radius, drop);
    var run := RunCells(bomb.pos, d, bomb.ownerId, i, n);
    forall pid | pid in b.players && pid in r.players && !b.players[pid].isDead && r.players[pid].isDead
      ensures exists j | 0 <= j < |r.cells| :: r.cells[j].pos == b.players[pid].position
    {
      var q := b.players[pid].position;
      if OnRun(q, bomb.pos, d, i, n) {
        var k :| i <= k < i + n && q == Step(bomb.pos, d, k);
        assert r.cells[|b.cells| + (k - i)] == run[k - i];
      } else {
        assert r.cells[center] == b.cells[center];
      }
    }
  }

  lemma {:induction false} SpreadKillsOnCells(b: Blast, bomb: Bomb, radius: int, drop: DropOracle, d: nat, center: nat)
    requires d <= |DIRECTIONS|
    requires center < |b.cells| && b.cells[center].pos == bomb.pos
    ensures KilledOnCells(b, Spread(b, bomb, radius, drop, d))
    decreases |DIRECTIONS| - d
  {
    if d < |DIRECTIONS| {
      var w := WalkDir(b, bomb, DIRECTIONS[d], 1, radius, drop);
      WalkDirKillsOnCells(b, bomb, DIRECTIONS[d], 1, radius, drop, center);
      WalkDirExtends(b, bomb, DIRECTIONS[d], 1, radius, drop);
      assert w.cells[center] == w.cells[..|b.cells|][center];
      SpreadKillsOnCells(w, bomb, radius, drop, d + 1, center);
      SpreadExtends(w, bomb, radius, drop, d + 1);
      KilledOnCellsTrans(b, w, Spread(w, bomb, radius, drop, d + 1));
    }
  }

  lemma KilledOnCellsTrans(a: Blast, b: Blast, c: Blast)
    requires KilledOnCells(a, b) && KilledOnCells(b, c)
    requires Extends(a, b) && Extends(b, c)
    ensures KilledOnCells(a, c)
  {
    forall pid | pid in a.players && pid in c.players && !a.players[pid].isDead && c.players[pid].isDead
      ensures exists j | 0 <= j < |c.cells| :: c.cells[j].pos == a.players[pid].position
    {
      if b.players[pid].isDead {
        var j :| 0 <= j < |b.cells| && b.cells[j].pos == a.players[pid].position;
        assert c.cells[j] == b.cells[j];
      } else {
        assert b.players[pid].position == a.players[pid].position;
      }
    }
  }

  /** How a board grows during an explosion, as far as who died where is
      concerned: cells are only appended, players keep their places, and
      nobody is revived. */
  ghost predicate Extends(b: Blast, r: Blast) {
    && |b.cells| <= |r.cells| && r.cells[..|b.cells|] == b.cells
    && r.players.Keys == b.players.Keys
    && forall pid | pid in b.players ::
         r.players[pid].position == b.players[pid].position && (b.players[pid].isDead ==> r.players[pid].isDead)
  }

  lemma ExtendsTrans(a: Blast, b: Blast, c: Blast)
    requires Extends(a, b) && Extends(b, c)
    ensures Extends(a, c)
  {
    assert c.cells[..|a.cells|] == c.cells[..|b.cells|][..|a.cells|];
  }

  lemma WalkDirExtends(b: Blast, bomb: Bomb, d: Dir, i: int, radius: int, drop: DropOracle)
    ensures Extends(b, WalkDir(b, bomb, d, i, radius, drop))
  {
    WalkDirCells(b, bomb, d, i, radius, drop);
    WalkDirScores(b, bomb, d, i, radius, drop);
    var r := WalkDir(b, bomb, d, i, radius, drop);
    assert r.cells[..|b.cells|] == b.cells;
  }

  /** Spreading only appends cells, moves nobody and revives nobody. */
  lemma {:induction false} SpreadExtends(b: Blast, bomb: Bomb, radius: int, drop: DropOracle, d: nat)
    requires d <= |DIRECTIONS|
    ensures Extends(b, Spread(b, bomb, radius, drop, d))
    decreases |DIRECTIONS| - d
  {
    if d < |DIRECTIONS| {
      var w := WalkDir(b, bomb, DIRECTIONS[d], 1, radius, drop);
      WalkDirExtends(b, bomb, DIRECTIONS[d], 1, radius, drop);
      SpreadExtends(w, bomb, radius, drop, d + 1);
      ExtendsTrans(b, w, Spread(w, bomb, radius, drop, d + 1));
    } else {
      assert b.cells[..|b.cells|] == b.cells;
    }
  }

  /** Every player an explosion kills stands on one of its cells (the bomb's
      own tile included). */
  lemma ExplodeKillsOnlyOnCells(s: GameState, bombId: BombId, drop: DropOracle, k: nat)
    requires k < |s.bombs| && s.bombs[k].id == bombId
    requires forall j | 0 <= j < k :: s.bombs[j].id != bombId
    ensures var (s', r) := Explode(s, bombId, drop);
            forall pid | pid in NewlyDead(s.players, s'.players) ::
              exists j | 0 <= j < |r.value.explosions| :: r.value.explosions[j].pos == s.players[pid].position
  {
    assert FirstIndex(s.bombs, IdIs(bombId)) == Some(k);
    var bomb := s.bombs[k];
    var start := Ignite(s, bomb);
    SpreadKillsOnCells(start, bomb, Radius(s.players, bomb.ownerId), drop, 0, 0);
  }

  /** Whether the walk in direction `dir` from `o` kills a player standing
      on `q`: `q` is on the walk's empty run, or it is the bomb's own tile and
      that run is not empty. */
  ghost predicate Reaches(g: Grid, o: Pos, dir: Dir, radius: int, q: Pos) {
    var n := Open(g, o, dir, 1, radius);
    (n > 0 && q == o) || OnRun(q, o, dir, 1, n)
  }

  /** Whether one of the walks from direction `d` on kills a player on `q`. */
  ghost predicate InBlast(g: Grid, o: Pos, radius: int, d: nat, q: Pos) {
    exists e | d <= e < |DIRECTIONS| :: Reaches(g, o, DIRECTIONS[e], radius, q)
  }

  lemma InBlastCons(g: Grid, o: Pos, radius: int, d: nat, q: Pos)
    requires d < |DIRECTIONS|
    ensures InBlast(g, o, radius, d, q) <==> Reaches(g, o, DIRECTIONS[d], radius, q) || InBlast(g, o, radius, d + 1, q)
  {
    if InBlast(g, o, radius, d, q) && !Reaches(g, o, DIRECTIONS[d], radius, q) {
      var e :| d <= e < |DIRECTIONS| && Reaches(g, o, DIRECTIONS[e], radius, q);
      assert d + 1 <= e;
    }
  }

  /** The four rays from a tile share no tile. */
  lemma RaysDisjoint(o: Pos, d1: Dir, d2: Dir, i: int, j: int)
    requires d1 != d2 && i >= 1 && j >= 1
    ensures Step(o, d1, i) != Step(o, d2, j)
  {
  }

  lemma ClearTileElsewhere(g: Grid, p: Pos)
    ensures forall q | q != p :: TileAt(ClearTile(g, p), q) == TileAt(g, q)
  {
  }

  /** The run of a walk depends only on the tiles of its own ray. */
  lemma {:induction false} OpenSameRay(g: Grid, g': Grid, o: Pos, dir: Dir, i: int, radius: int)
    requires i >= 1
    requires forall k | k >= 1 :: TileAt(g', Step(o, dir, k)) == TileAt(g, Step(o, dir, k))
    ensures Open(g', o, dir, i, radius) == Open(g, o, dir, i, radius)
    decreases radius - i + 1
  {
    if Continues(g, o, dir, i, radius) {
      OpenSameRay(g, g', o, dir, i + 1, radius);
    }
  }

  /** A grid changed at most at `p`, a tile of ray `d`, leaves the later
      walks' kills as they were. */
  lemma InBlastAfterClear(g: Grid, g': Grid, o: Pos, radius: int, d: nat, p: Pos, j: int, q: Pos)
    requires d < |DIRECTIONS| && j >= 1 && p == Step(o, DIRECTIONS[d], j)
    requires forall t | t != p :: TileAt(g', t) == TileAt(g, t)
    ensures InBlast(g', o, radius, d + 1, q) <==> InBlast(g, o, radius, d + 1, q)
  {
    forall e | d + 1 <= e < |DIRECTIONS|
      ensures Reaches(g', o, DIRECTIONS[e], radius, q) <==> Reaches(g, o, DIRECTIONS[e], radius, q)
    {
      forall k | k >= 1 ensures TileAt(g', Step(o, DIRECTIONS[e], k)) == TileAt(g, Step(o, DIRECTIONS[e], k)) {
        RaysDisjoint(o, DIRECTIONS[e], DIRECTIONS[d], k, j);
      }
      OpenSameRay(g, g', o, DIRECTIONS[e], 1, radius);
    }
  }

  /** Who the walks from direction `d` on kill: a player is dead afterwards
      exactly when it was dead before or one of those walks reaches it. */
  lemma {:induction false} SpreadKills(b: Blast, bomb: Bomb, radius: int, drop: DropOracle, d: nat)
    requires d <= |DIRECTIONS|
    ensures var r := Spread(b, bomb, radius, drop, d);
            && r.players.Keys == b.players.Keys
            && forall pid | pid in b.players ::
                 r.players[pid].isDead <==> b.players[pid].isDead || InBlast(b.grid, bomb.pos, radius, d, b.players[pid].position)
    decreases |DIRECTIONS| - d
  {
    if d < |DIRECTIONS| {
      var o := bomb.pos;
      var dir := DIRECTIONS[d];
      var w := WalkDir(b, bomb, dir, 1, radius, drop);
      var landing := Landing(b.grid, o, dir, 1, radius);
      WalkDirKills(b, bomb, dir, 1, radius, drop);
      WalkDirScores(b, bomb, dir, 1, radius, drop);
      WalkDirGrid(b, bomb, dir, 1, radius, drop);
      ClearTileElsewhere(b.grid, landing);
      SpreadKills(w, bomb, radius, drop, d + 1);
      KillsCombine(b.players, w.players, Spread(w, bomb, radius, drop, d + 1).players,
                   b.grid, w.grid, o, radius, d, landing, 1 + Open(b.grid, o, dir, 1, radius));
    }
  }

  /** One walk followed by the later ones, as `SpreadKills` needs it. */
  lemma KillsCombine(bp: map<PlayerId, Player>, wp: map<PlayerId, Player>, rp: map<PlayerId, Player>,
                     g: Grid, g': Grid, o: Pos, radius: int, d: nat, p: Pos, j: int)
    requires d < |DIRECTIONS| && j >= 1 && p == Step(o, DIRECTIONS[d], j)
    requires forall t | t != p :: TileAt(g', t) == TileAt(g, t)
    requires wp.Keys == bp.Keys && rp.Keys == wp.Keys
    requires forall pid | pid in bp :: wp[pid].position == bp[pid].position
    requires forall pid | pid in bp ::
               wp[pid].isDead <==> bp[pid].isDead
                                   || (Open(g, o, DIRECTIONS[d], 1, radius) > 0 && bp[pid].position == o)
                                   || OnRun(bp[pid].position, o, DIRECTIONS[d], 1, Open(g, o, DIRECTIONS[d], 1, radius))
    requires forall pid | pid in wp :: rp[pid].isDead <==> wp[pid].isDead || InBlast(g', o, radius, d + 1, wp[pid].position)
    ensures forall pid | pid in bp :: rp[pid].isDead <==> bp[pid].isDead || InBlast(g, o, radius, d, bp[pid].position)
  {
    forall pid | pid in bp
      ensures rp[pid].isDead <==> bp[pid].isDead || InBlast(g, o, radius, d, bp[pid].position)
    {
      var q := bp[pid].position;
      InBlastCons(g, o, radius, d, q);
      InBlastAfterClear(g, g', o, radius, d, p, j, q);
    }
  }

  /** Exactly who an explosion kills: a player is dead afterwards when it was
      dead before, or stands on the empty run of one of the four walks, or
      stands on the bomb's own tile while one of those runs is not empty. */
  lemma ExplodeKillsExactly(s: GameState, bombId: BombId, drop: DropOracle, k: nat)
    requires k < |s.bombs| && s.bombs[k].id == bombId
    requires forall j | 0 <= j < k :: s.bombs[j].id != bombId
    ensures var s' := Explode(s, bombId, drop).0;
            var bomb := s.bombs[k];
            && s'.players.Keys == s.players.Keys
            && forall pid | pid in s.players ::
                 s'.players[pid].isDead <==>
                   s.players[pid].isDead
                   || InBlast(s.grid, bomb.pos, Radius(s.players, bomb.ownerId), 0, s.players[pid].position)
  {
    assert FirstIndex(s.bombs, IdIs(bombId)) == Some(k);
    var bomb := s.bombs[k];
    var start := Ignite(s, bomb);
    var b := Spread(start, bomb, Radius(s.players, bomb.ownerId), drop, 0);
    SpreadKills(start, bomb, Radius(s.players, bomb.ownerId), drop, 0);
    DischargeKeepsLives(s.players, bomb.ownerId);
    assert Explode(s, bombId, drop).0.players == b.players;
  }

  /** Discharging the owner moves nobody and kills nobody. */
  lemma DischargeKeepsLives(ps: map<PlayerId, Player>, ownerId: PlayerId)
    ensures Discharge(ps, ownerId).Keys == ps.Keys
    ensures forall pid | pid in ps ::
              && Discharge(ps, ownerId)[pid].isDead == ps[pid].isDead
              && Discharge(ps, ownerId)[pid].position == ps[pid].position
  {
  }

  /** Whether every neighbour of `o` stops a blast before its kill loop runs:
      each lies outside the grid or is not empty ground. */
  predicate Enclosed(g: Grid, o: Pos) {
    forall e | 0 <= e < |DIRECTIONS| ::
      !InBounds(Step(o, DIRECTIONS[e], 1)) || TileAt(g, Step(o, DIRECTIONS[e], 1)).kind != Empty
  }

  lemma {:induction false} SpreadEnclosed(b: Blast, bomb: Bomb, radius: int, drop: DropOracle, d: nat)
    requires d <= |DIRECTIONS|
    requires forall e | d <= e < |DIRECTIONS| ::
               !InBounds(Step(bomb.pos, DIRECTIONS[e], 1)) || TileAt(b.grid, Step(bomb.pos, DIRECTIONS[e], 1)).kind != Empty
    ensures Spread(b, bomb, radius, drop, d).players == b.players
    decreases |DIRECTIONS| - d
  {
    if d < |DIRECTIONS| {
      var w := WalkDir(b, bomb, DIRECTIONS[d], 1, radius, drop);
      WalkDirGrid(b, bomb, DIRECTIONS[d], 1, radius, drop);
      assert Open(b.grid, bomb.pos, DIRECTIONS[d], 1, radius) == 0;
      forall e | d < e < |DIRECTIONS|
        ensures TileAt(w.grid, Step(bomb.pos, DIRECTIONS[e], 1)) == TileAt(b.grid, Step(bomb.pos, DIRECTIONS[e], 1))
      {
        assert Step(bomb.pos, DIRECTIONS[e], 1) != Step(bomb.pos, DIRECTIONS[d], 1);
      }
      SpreadEnclosed(w, bomb, radius, drop, d + 1);
    }
  }

  /** The kill loop runs only inside the directional walks, so a bomb whose
      four neighbours all stop the blast kills nobody, not even a player
      standing on the bomb itself, and awards no points. */
  lemma EnclosedBombKillsNobody(s: GameState, bombId: BombId, drop: DropOracle, k: nat)
    requires k < |s.bombs| && s.bombs[k].id == bombId
    requires forall j | 0 <= j < k :: s.bombs[j].id != bombId
    requires Enclosed(s.grid, s.bombs[k].pos)
    ensures Explode(s, bombId, drop).0.players == Discharge(s.players, s.bombs[k].ownerId)
  {
    assert FirstIndex(s.bombs, IdIs(bombId)) == Some(k);
    var bomb := s.bombs[k];
    SpreadEnclosed(Ignite(s, bomb), bomb, Radius(s.players, bomb.ownerId), drop, 0);
  }

  // ---------------------------------------------------------------- the sweep

  /** Identifiers of the bombs whose deadline has passed, in list order
      (the `filter` on `explodeAt <= now`). */
  function DueIds(bombs: seq<Bomb>, now: int): seq<BombId> {
    if bombs == [] then []
    else (if bombs[0].explodeAt <= now then [bombs[0].id] else []) + DueIds(bombs[1..], now)
  }

  /** The bombs whose deadline has not passed, in list order. */
  function NotDue(bombs: seq<Bomb>, now: int): (r: seq<Bomb>)
    ensures forall j | 0 <= j < |r| :: r[j] in bombs && r[j].explodeAt > now
    ensures forall j | 0 <= j < |bombs| && bombs[j].explodeAt > now :: bombs[j] in r
  {
    if bombs == [] then []
    else
      var rest := NotDue(bombs[1..], now);
      assert forall j | 1 <= j < |bombs| :: bombs[j] == bombs[1..][j - 1];
      (if bombs[0].explodeAt <= now then [] else [bombs[0]]) + rest
  }

  /** Explosions of the given identifiers, one after another. */
  function ExplodeAll(s: GameState, ids: seq<BombId>, drop: DropOracle): GameState
    decreases |ids|
  {
    if ids == [] then s else ExplodeAll(Explode(s, ids[0], drop).0, ids[1..], drop)
  }

  /** `checkBombExplosions` once the room has been found, at time `now`. */
  function CheckExplosions(s: GameState, now: int, drop: DropOracle): GameState {
    if s.isPaused then s else ExplodeAll(s, DueIds(s.bombs, now), drop)
  }

  /** The identifiers listed in `ids`. */
  function IdSet(ids: seq<BombId>): set<BombId> {
    if ids == [] then {} else {ids[0]} + IdSet(ids[1..])
  }

  /** The bombs whose identifier is not in `ids`, in list order. */
  function Without(bombs: seq<Bomb>, ids: set<BombId>): seq<Bomb> {
    if bombs == [] then []
    else (if bombs[0].id in ids then [] else [bombs[0]]) + Without(bombs[1..], ids)
  }

  lemma {:induction false} WithoutAbsent(bombs: seq<Bomb>, ids: set<BombId>)
    requires forall j | 0 <= j < |bombs| :: bombs[j].id !in ids
    ensures Without(bombs, ids) == bombs
  {
    if bombs != [] {
      WithoutAbsent(bombs[1..], ids);
    }
  }

  /** With unique identifiers, removing the bomb that carries `id` is
      filtering `id` out. */
  lemma {:induction false} RemoveAtIsWithout(bombs: seq<Bomb>, k: nat)
    requires UniqueBombIds(bombs) && k < |bombs|
    ensures RemoveAt(bombs, k) == Without(bombs, {bombs[k].id})
  {
    var id := bombs[k].id;
    var rest := bombs[1..];
    if k == 0 {
      WithoutAbsent(rest, {id});
    } else {
      assert rest[k - 1] == bombs[k];
      RemoveAtIsWithout(rest, k - 1);
      assert RemoveAt(bombs, k) == [bombs[0]] + RemoveAt(rest, k - 1);
    }
  }

  lemma {:induction false} WithoutWithout(bombs: seq<Bomb>, a: set<BombId>, b: set<BombId>)
    ensures Without(Without(bombs, a), b) == Without(bombs, a + b)
  {
    if bombs != [] {
      WithoutWithout(bombs[1..], a, b);
      var rest := Without(bombs[1..], a);
      if bombs[0].id !in a {
        var w := [bombs[0]] + rest;
        assert Without(bombs, a) == w;
        assert w[0] == bombs[0] && w[1..] == rest;
        assert Without(w, b) == (if bombs[0].id in b then [] else [bombs[0]]) + Without(rest, b);
      } else {
        assert Without(bombs, a) == rest;
      }
    }
  }

  /** Filtering keeps identifiers unique and keeps only listed bombs. */
  lemma {:induction false} WithoutUnique(bombs: seq<Bomb>, ids: set<BombId>)
    requires UniqueBombIds(bombs)
    ensures UniqueBombIds(Without(bombs, ids))
    ensures forall j | 0 <= j < |Without(bombs, ids)| :: Without(bombs, ids)[j] in bombs
  {
    if bombs != [] {
      WithoutUnique(bombs[1..], ids);
      var rest := Without(bombs[1..], ids);
      forall j | 0 <= j < |rest| ensures rest[j] in bombs && rest[j].id != bombs[0].id {
        var i :| 0 <= i < |bombs[1..]| && bombs[1..][i] == rest[j];
        assert bombs[i + 1] == rest[j];
      }
    }
  }

  /** Identifiers in `b` but in no listed bomb do not matter to `Without`. */
  lemma {:induction false} WithoutIgnores(bombs: seq<Bomb>, a: set<BombId>, b: set<BombId>)
    requires forall j | 0 <= j < |bombs| :: bombs[j].id in a <==> bombs[j].id in b
    ensures Without(bombs, a) == Without(bombs, b)
  {
    if bombs != [] {
      WithoutIgnores(bombs[1..], a, b);
    }
  }

  /** With unique identifiers, one explosion removes exactly the bomb with
      that identifier. */
  lemma ExplodeWithout(s: GameState, id: BombId, drop: DropOracle)
    requires UniqueBombIds(s.bombs)
    ensures Explode(s, id, drop).0.bombs == Without(s.bombs, {id})
  {
    match FirstIndex(s.bombs, IdIs(id))
    case None => WithoutAbsent(s.bombs, {id});
    case Some(k) => RemoveAtIsWithout(s.bombs, k);
  }

  /** With unique identifiers, exploding a list of identifiers removes exactly
      the bombs that carry one of them and leaves the others, in order. */
  lemma {:induction false} ExplodeAllRemoves(s: GameState, ids: seq<BombId>, drop: DropOracle)
    requires UniqueBombIds(s.bombs)
    ensures ExplodeAll(s, ids, drop).bombs == Without(s.bombs, IdSet(ids))
    decreases |ids|
  {
    if ids == [] {
      WithoutAbsent(s.bombs, {});
    } else {
      var s1 := Explode(s, ids[0], drop).0;
      ExplodeWithout(s, ids[0], drop);
      WithoutUnique(s.bombs, {ids[0]});
      ExplodeAllRemoves(s1, ids[1..], drop);
      WithoutWithout(s.bombs, {ids[0]}, IdSet(ids[1..]));
    }
  }

  /** `DueIds` lists an identifier exactly when some bomb carrying it is due. */
  lemma {:induction false} DueIdsExact(bombs: seq<Bomb>, now: int, x: BombId)
    ensures x in IdSet(DueIds(bombs, now)) <==>
            exists j | 0 <= j < |bombs| :: bombs[j].id == x && bombs[j].explodeAt <= now
  {
    if bombs != [] {
      var head := if bombs[0].explodeAt <= now then [bombs[0].id] else [];
      IdSetAppend(head, DueIds(bombs[1..], now));
      DueIdsExact(bombs[1..], now, x);
      if exists j | 0 <= j < |bombs| :: bombs[j].id == x && bombs[j].explodeAt <= now {
        var j :| 0 <= j < |bombs| && bombs[j].id == x && bombs[j].explodeAt <= now;
        if j > 0 {
          assert bombs[1..][j - 1] == bombs[j];
        }
      }
      if exists j | 0 <= j < |bombs[1..]| :: bombs[1..][j].id == x && bombs[1..][j].explodeAt <= now {
        var j :| 0 <= j < |bombs[1..]| && bombs[1..][j].id == x && bombs[1..][j].explodeAt <= now;
        assert bombs[j + 1] == bombs[1..][j];
      }
    }
  }

  lemma IdSetAppend(head: seq<BombId>, rest: seq<BombId>)
    requires |head| <= 1
    ensures IdSet(head + rest) == IdSet(head) + IdSet(rest)
  {
    if head != [] {
      assert (head + rest)[0] == head[0] && (head + rest)[1..] == rest;
      assert head[1..] == [];
      assert IdSet(head) == {head[0]};
      assert IdSet(head + rest) == {head[0]} + IdSet(rest);
    } else {
      assert head + rest == rest;
    }
  }

  /** With unique identifiers, filtering out the due identifiers leaves
      exactly the bombs that are not due. */
  lemma {:induction false} DueIdsSplit(bombs: seq<Bomb>, now: int)
    requires UniqueBombIds(bombs)
    ensures Without(bombs, IdSet(DueIds(bombs, now))) == NotDue(bombs, now)
  {
    if bombs != [] {
      var head := if bombs[0].explodeAt <= now then [bombs[0].id] else [];
      var restIds := IdSet(DueIds(bombs[1..], now));
      var all := IdSet(DueIds(bombs, now));
      IdSetAppend(head, DueIds(bombs[1..], now));
      assert all == IdSet(head) + restIds;
      DueIdsSplit(bombs[1..], now);
      DueIdsExact(bombs[1..], now, bombs[0].id);
      assert forall j | 0 <= j < |bombs[1..]| :: bombs[1..][j].id != bombs[0].id by {
        forall j | 0 <= j < |bombs[1..]| ensures bombs[1..][j].id != bombs[0].id {
          assert bombs[1..][j] == bombs[j + 1];
        }
      }
      forall j | 0 <= j < |bombs[1..]| ensures bombs[1..][j].id in all <==> bombs[1..][j].id in restIds {
        assert bombs[1..][j] == bombs[j + 1];
      }
      WithoutIgnores(bombs[1..], all, restIds);
    }
  }

  /** The sweep does nothing while paused; otherwise, with unique bomb
      identifiers, it explodes exactly the bombs whose deadline has passed
      and keeps the others, in order. */
  lemma CheckExplosionsRemovesDue(s: GameState, now: int, drop: DropOracle)
    requires UniqueBombIds(s.bombs)
    ensures s.isPaused ==> CheckExplosions(s, now, drop) == s
    ensures !s.isPaused ==> CheckExplosions(s, now, drop).bombs == NotDue(s.bombs, now)
  {
    if !s.isPaused {
      ExplodeAllRemoves(s, DueIds(s.bombs, now), drop);
      DueIdsSplit(s.bombs, now);
    }
  }

  lemma {:induction false} ExplodeAllPreservesInv(s: GameState, ids: seq<BombId>, drop: DropOracle)
    requires GameInv(s)
    ensures GameInv(ExplodeAll(s, ids, drop))
    decreases |ids|
  {
    if ids != [] {
      ExplodePreservesInv(s, ids[0], drop);
      ExplodeAllPreservesInv(Explode(s, ids[0], drop).0, ids[1..], drop);
    }
  }

  /** The sweep keeps the engine invariant. */
  lemma CheckExplosionsPreservesInv(s: GameState, now: int, drop: DropOracle)
    requires GameInv(s)
    ensures GameInv(CheckExplosions(s, now, drop))
  {
    if !s.isPaused {
      ExplodeAllPreservesInv(s, DueIds(s.bombs, now), drop);
    }
  }
}
