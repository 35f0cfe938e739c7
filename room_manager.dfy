/** The lobby registry of server/roomManager.js: rooms waiting for players,
    kept in the order they were created, with the checks that guard joining
    and starting, and the hand-over of a started room to the game engine. */
module RoomManager {
  import opened GameTypes
  import GameRules
  import GameEngine

  const MAX_PLAYERS: nat := 4

  /** A lobby room; `players` in joining order. */
  datatype LobbyRoom = LobbyRoom(id: string, hostId: PlayerId, players: seq<Member>, gameStarted: bool)

  datatype LobbyError = RoomNotFound | RoomFull | GameAlreadyStarted | NotHost | NotEnoughPlayers

  /** The `error` string each refusal carries. */
  function Message(e: LobbyError): string {
    match e
    case RoomNotFound => "Room not found"
    case RoomFull => "Room is full"
    case GameAlreadyStarted => "Game has already started"
    case NotHost => "Only the host can start the game"
    case NotEnoughPlayers => "Not enough players to start the game (minimum 2)"
  }

  datatype Result<T> = Ok(value: T) | Err(error: LobbyError)

  /** One entry of the room list shown in the lobby. */
  datatype RoomSummary = RoomSummary(id: string, playerCount: nat, gameStarted: bool, playerNames: seq<string>)

  function RoomIdIs(id: string): LobbyRoom -> bool {
    (r: LobbyRoom) => r.id == id
  }

  function MemberIs(pid: PlayerId): Member -> bool {
    (m: Member) => m.id == pid
  }

  /** Whether some member of `players` has id `pid`. */
  predicate Lists(players: seq<Member>, pid: PlayerId) {
    exists j | 0 <= j < |players| :: players[j].id == pid
  }

  /** Whether a room lists `pid`, as `findIndex` on its players finds it. */
  function Listing(pid: PlayerId): LobbyRoom -> bool {
    (r: LobbyRoom) => FirstIndex(r.players, MemberIs(pid)).Some?
  }

  lemma ListedIff(players: seq<Member>, pid: PlayerId)
    ensures Lists(players, pid) <==> FirstIndex(players, MemberIs(pid)).Some?
  {
    match FirstIndex(players, MemberIs(pid))
    case Some(j) =>
      assert players[j].id == pid;
    case None =>
      forall j | 0 <= j < |players| ensures players[j].id != pid {
        assert !MemberIs(pid)(players[j]);
      }
  }

  /** The state every reachable lobby is in: room ids are distinct (they are
      the keys of the `rooms` map), and every room has between one and
      MAX_PLAYERS players, one of them its host. */
  ghost predicate LobbyInv(rooms: seq<LobbyRoom>) {
    && (forall i, j | 0 <= i < j < |rooms| :: rooms[i].id != rooms[j].id)
    && (forall i | 0 <= i < |rooms| ::
          1 <= |rooms[i].players| <= MAX_PLAYERS && Lists(rooms[i].players, rooms[i].hostId))
  }

  // ---------------------------------------------------------------- create

  /** `rooms.set(room.id, room)`: a room with the same id is replaced where it
      stands; otherwise the room goes to the end. */
  function Put(rooms: seq<LobbyRoom>, room: LobbyRoom): seq<LobbyRoom> {
    match FirstIndex(rooms, RoomIdIs(room.id))
    case Some(i) => rooms[i := room]
    case None => rooms + [room]
  }

  /** `createRoom` with `roomId` the identifier drawn for the room. */
  function Create(rooms: seq<LobbyRoom>, roomId: string, hostId: PlayerId, name: string): seq<LobbyRoom> {
    Put(rooms, LobbyRoom(roomId, hostId, [Member(hostId, name)], false))
  }

  /** The new room, with the host as its only player and the game not
      started, is listed under `roomId`; rooms with other ids stay, in their
      order; nothing else is added. */
  lemma CreateHostsRoom(rooms: seq<LobbyRoom>, roomId: string, hostId: PlayerId, name: string)
    requires LobbyInv(rooms)
    ensures var rooms' := Create(rooms, roomId, hostId, name);
            && LobbyInv(rooms')
            && (exists i | 0 <= i < |rooms'| :: rooms'[i] == LobbyRoom(roomId, hostId, [Member(hostId, name)], false))
            && (forall r | r in rooms' :: r.id == roomId || r in rooms)
            && (forall i | 0 <= i < |rooms| && rooms[i].id != roomId :: i < |rooms'| && rooms'[i] == rooms[i])
  {
    var room := LobbyRoom(roomId, hostId, [Member(hostId, name)], false);
    var rooms' := Create(rooms, roomId, hostId, name);
    assert Lists(room.players, hostId) by {
      assert room.players[0].id == hostId;
    }
    match FirstIndex(rooms, RoomIdIs(roomId))
    case Some(i) =>
      assert rooms'[i] == room;
    case None =>
      assert rooms'[|rooms|] == room;
  }

  // ---------------------------------------------------------------- join

  /** `joinRoom` on the lobby. */
  function Join(rooms: seq<LobbyRoom>, roomId: string, pid: PlayerId, name: string)
    : (seq<LobbyRoom>, Result<LobbyRoom>)
  {
    match FirstIndex(rooms, RoomIdIs(roomId))
    case None => (rooms, Err(RoomNotFound))
    case Some(i) =>
      var room := rooms[i];
      if |room.players| >= MAX_PLAYERS then (rooms, Err(RoomFull))
      else if room.gameStarted then (rooms, Err(GameAlreadyStarted))
      else
        var room' := room.(players := room.players + [Member(pid, name)]);
        (rooms[i := room'], Ok(room'))
  }

  /** Joining is refused, in this order, when no room has the id, when the
      room already has MAX_PLAYERS players, and when its game has started; a
      refusal changes nothing. Otherwise exactly the new member is appended
      to that room and nothing else changes. */
  lemma JoinChecksInOrder(rooms: seq<LobbyRoom>, roomId: string, pid: PlayerId, name: string)
    ensures var (rooms', r) := Join(rooms, roomId, pid, name);
            && (r.Err? ==> rooms' == rooms)
            && (r == Err(RoomNotFound) <==> forall i | 0 <= i < |rooms| :: rooms[i].id != roomId)
            && (forall i | 0 <= i < |rooms| && rooms[i].id == roomId && (forall k | 0 <= k < i :: rooms[k].id != roomId) ::
                  && (r == Err(RoomFull) <==> |rooms[i].players| >= MAX_PLAYERS)
                  && (r == Err(GameAlreadyStarted) <==> |rooms[i].players| < MAX_PLAYERS && rooms[i].gameStarted)
                  && (r.Ok? <==> |rooms[i].players| < MAX_PLAYERS && !rooms[i].gameStarted)
                  && (r.Ok? ==> r.value == rooms[i].(players := rooms[i].players + [Member(pid, name)])
                                && rooms' == rooms[i := r.value]))
  {
    match FirstIndex(rooms, RoomIdIs(roomId))
    case None =>
    case Some(i) =>
      forall i' | 0 <= i' < |rooms| && rooms[i'].id == roomId && (forall k | 0 <= k < i' :: rooms[k].id != roomId)
        ensures i' == i
      {
        FirstIndexIsFirst(rooms, RoomIdIs(roomId), i');
      }
  }

  /** A join never takes a room past MAX_PLAYERS players, and the lobby
      invariant survives it. */
  lemma JoinPreservesInv(rooms: seq<LobbyRoom>, roomId: string, pid: PlayerId, name: string)
    requires LobbyInv(rooms)
    ensures var (rooms', r) := Join(rooms, roomId, pid, name);
            && LobbyInv(rooms')
            && (r.Ok? ==> |r.value.players| <= MAX_PLAYERS)
  {
    match FirstIndex(rooms, RoomIdIs(roomId))
    case None =>
    case Some(i) =>
      var room := rooms[i];
      var players' := room.players + [Member(pid, name)];
      var j :| 0 <= j < |room.players| && room.players[j].id == room.hostId;
      assert players'[j] == room.players[j];
  }

  // ---------------------------------------------------------------- leave

  /** `leaveRoom`: the player leaves the first room (in creation order) that
      lists them; the room goes when its host leaves or it empties. */
  function Leave(rooms: seq<LobbyRoom>, pid: PlayerId): (seq<LobbyRoom>, Option<LobbyRoom>) {
    match FirstIndex(rooms, Listing(pid))
    case None => (rooms, None)
    case Some(i) =>
      var room := rooms[i];
      var j := FirstIndex(room.players, MemberIs(pid)).value;
      var players' := RemoveAt(room.players, j);
      if room.hostId == pid || |players'| == 0 then (RemoveAt(rooms, i), None)
      else
        var room' := room.(players := players');
        (rooms[i := room'], Some(room'))
  }

  /** A player listed in no room gets null and nothing changes. */
  lemma LeaveAbsent(rooms: seq<LobbyRoom>, pid: PlayerId)
    requires forall i | 0 <= i < |rooms| :: !Lists(rooms[i].players, pid)
    ensures Leave(rooms, pid) == (rooms, None)
  {
    if FirstIndex(rooms, Listing(pid)).Some? {
      var i := FirstIndex(rooms, Listing(pid)).value;
      ListedIff(rooms[i].players, pid);
    }
  }

  /** When the `i`th room is the first listing the player and `j` is their
      first entry in it, exactly that entry is removed: when they were the
      host or the last player the room is deleted and the answer is null;
      else the room keeps the other players in order and is returned, and
      every other room is untouched. */
  lemma LeaveRemoves(rooms: seq<LobbyRoom>, pid: PlayerId, i: nat, j: nat)
    requires i < |rooms| && j < |rooms[i].players| && rooms[i].players[j].id == pid
    requires forall k | 0 <= k < i :: !Lists(rooms[k].players, pid)
    requires forall k | 0 <= k < j :: rooms[i].players[k].id != pid
    ensures var (rooms', r) := Leave(rooms, pid);
            var players' := RemoveAt(rooms[i].players, j);
            && multiset(players') + multiset{rooms[i].players[j]} == multiset(rooms[i].players)
            && (rooms[i].hostId == pid || |players'| == 0 ==> rooms' == RemoveAt(rooms, i) && r.None?)
            && (rooms[i].hostId != pid && |players'| > 0 ==>
                  r == Some(rooms[i].(players := players')) && rooms' == rooms[i := r.value])
  {
    var ps := rooms[i].players;
    assert ps == ps[..j] + [ps[j]] + ps[j + 1..];
    FirstIndexIsFirst(ps, MemberIs(pid), j);
    forall k | 0 <= k < i ensures !Listing(pid)(rooms[k]) {
      ListedIff(rooms[k].players, pid);
    }
    FirstIndexIsFirst(rooms, Listing(pid), i);
  }

  /** Leaving keeps the lobby invariant: in particular a room that outlives
      the departure still has its host and at least one player. */
  lemma LeavePreservesInv(rooms: seq<LobbyRoom>, pid: PlayerId)
    requires LobbyInv(rooms)
    ensures LobbyInv(Leave(rooms, pid).0)
  {
    match FirstIndex(rooms, Listing(pid))
    case None =>
    case Some(i) =>
      var room := rooms[i];
      var j := FirstIndex(room.players, MemberIs(pid)).value;
      var players' := RemoveAt(room.players, j);
      if room.hostId != pid && |players'| != 0 {
        var h :| 0 <= h < |room.players| && room.players[h].id == room.hostId;
        assert h != j;
        if h < j {
          assert players'[h] == room.players[h];
        } else {
          assert players'[h - 1] == room.players[h];
        }
      } else {
        var rooms' := RemoveAt(rooms, i);
        forall a, b | 0 <= a < b < |rooms'| ensures rooms'[a].id != rooms'[b].id {
          var a' := if a < i then a else a + 1;
          var b' := if b < i then b else b + 1;
          assert rooms'[a] == rooms[a'] && rooms'[b] == rooms[b'];
        }
      }
  }

  // ---------------------------------------------------------------- start

  /** `startGame` on the lobby (the hand-over to the engine is made by
      `Lobby.StartGame`). */
  function Start(rooms: seq<LobbyRoom>, roomId: string, pid: PlayerId): (seq<LobbyRoom>, Result<LobbyRoom>) {
    match FirstIndex(rooms, RoomIdIs(roomId))
    case None => (rooms, Err(RoomNotFound))
    case Some(i) =>
      var room := rooms[i];
      if room.hostId != pid then (rooms, Err(NotHost))
      else if |room.players| < 2 then (rooms, Err(NotEnoughPlayers))
      else if room.gameStarted then (rooms, Err(GameAlreadyStarted))
      else
        var room' := room.(gameStarted := true);
        (rooms[i := room'], Ok(room'))
  }

  /** Starting is refused, in this order, when no room has the id, when the
      caller is not the host, when fewer than two players are in, and when
      the game has already started; a refusal changes nothing. Otherwise only
      that room's `gameStarted` becomes true. */
  lemma StartChecksInOrder(rooms: seq<LobbyRoom>, roomId: string, pid: PlayerId)
    ensures var (rooms', r) := Start(rooms, roomId, pid);
            && (r.Err? ==> rooms' == rooms)
            && (r == Err(RoomNotFound) <==> forall i | 0 <= i < |rooms| :: rooms[i].id != roomId)
            && (forall i | 0 <= i < |rooms| && rooms[i].id == roomId && (forall k | 0 <= k < i :: rooms[k].id != roomId) ::
                  var room := rooms[i];
                  && (r == Err(NotHost) <==> room.hostId != pid)
                  && (r == Err(NotEnoughPlayers) <==> room.hostId == pid && |room.players| < 2)
                  && (r == Err(GameAlreadyStarted) <==> room.hostId == pid && |room.players| >= 2 && room.gameStarted)
                  && (r.Ok? <==> room.hostId == pid && |room.players| >= 2 && !room.gameStarted)
                  && (r.Ok? ==> r.value == room.(gameStarted := true) && rooms' == rooms[i := r.value]))
  {
    match FirstIndex(rooms, RoomIdIs(roomId))
    case None =>
    case Some(i) =>
      assert rooms[i].id == roomId;
  }

  /** A room starts at most once: after a successful start, every further
      attempt on it, by anyone, is refused. */
  lemma StartOnlyOnce(rooms: seq<LobbyRoom>, roomId: string, pid: PlayerId, other: PlayerId)
    requires Start(rooms, roomId, pid).1.Ok?
    ensures Start(Start(rooms, roomId, pid).0, roomId, other).1.Err?
  {
    var i := FirstIndex(rooms, RoomIdIs(roomId)).value;
    var rooms' := Start(rooms, roomId, pid).0;
    assert FirstIndex(rooms', RoomIdIs(roomId)) == Some(i) by {
      assert forall k | 0 <= k < |rooms'| :: rooms'[k].id == rooms[k].id;
      FirstIndexSameIds(rooms, rooms', roomId);
    }
  }

  /** The first room with an id depends only on the ids, position by position. */
  lemma {:induction false} FirstIndexSameIds(a: seq<LobbyRoom>, b: seq<LobbyRoom>, id: string)
    requires |a| == |b| && forall k | 0 <= k < |a| :: a[k].id == b[k].id
    ensures FirstIndex(a, RoomIdIs(id)) == FirstIndex(b, RoomIdIs(id))
  {
    if a != [] {
      FirstIndexSameIds(a[1..], b[1..], id);
    }
  }

  /** Starting keeps the lobby invariant. */
  lemma StartPreservesInv(rooms: seq<LobbyRoom>, roomId: string, pid: PlayerId)
    requires LobbyInv(rooms)
    ensures LobbyInv(Start(rooms, roomId, pid).0)
  {
  }

  // ---------------------------------------------------------------- list

  /** The names of `players`, in order. */
  function Names(players: seq<Member>): (names: seq<string>)
    ensures |names| == |players|
    ensures forall j | 0 <= j < |players| :: names[j] == players[j].name
  {
    if players == [] then [] else [players[0].name] + Names(players[1..])
  }

  /** `getRooms`: one entry per room, in creation order, with the number of
      players and their names in joining order. */
  function Summaries(rooms: seq<LobbyRoom>): (r: seq<RoomSummary>)
    ensures |r| == |rooms|
    ensures forall i | 0 <= i < |rooms| ::
              && r[i].id == rooms[i].id && r[i].gameStarted == rooms[i].gameStarted
              && r[i].playerCount == |rooms[i].players| == |r[i].playerNames|
              && forall j | 0 <= j < |rooms[i].players| :: r[i].playerNames[j] == rooms[i].players[j].name
  {
    if rooms == [] then []
    else
      var room := rooms[0];
      [RoomSummary(room.id, |room.players|, room.gameStarted, Names(room.players))] + Summaries(rooms[1..])
  }

  // ---------------------------------------------------------------- the lobby

  /** The module-level `rooms` map of the lobby, with the game engine it
      hands started rooms to. */
  class Lobby {
    var rooms: seq<LobbyRoom>
    const games: GameEngine.Games

    ghost predicate Valid()
      reads this
    {
      LobbyInv(rooms)
    }

    constructor (games: GameEngine.Games)
      ensures rooms == [] && this.games == games && Valid()
    {
      rooms := [];
      this.games := games;
    }

    /** `createRoom`, with `roomId` the identifier drawn for the room. */
    method CreateRoom(roomId: string, hostId: PlayerId, name: string) returns (room: LobbyRoom, player: Member)
      requires Valid()
      modifies this`rooms
      ensures Valid() && rooms == Create(old(rooms), roomId, hostId, name)
      ensures player == Member(hostId, name) && room == LobbyRoom(roomId, hostId, [player], false)
    {
      player := Member(hostId, name);
      room := LobbyRoom(roomId, hostId, [player], false);
      CreateHostsRoom(rooms, roomId, hostId, name);
      var found := FirstIndex(rooms, RoomIdIs(roomId));
      if found.Some? {
        rooms := rooms[found.value := room];
      } else {
        rooms := rooms + [room];
      }
    }

    /** `joinRoom`. */
    method JoinRoom(roomId: string, pid: PlayerId, name: string) returns (r: Result<LobbyRoom>)
      requires Valid()
      modifies this`rooms
      ensures Valid() && (rooms, r) == Join(old(rooms), roomId, pid, name)
    {
      JoinPreservesInv(rooms, roomId, pid, name);
      var found := FirstIndex(rooms, RoomIdIs(roomId));
      if found.None? {
        return Err(RoomNotFound);
      }
      var room := rooms[found.value];
      if |room.players| >= MAX_PLAYERS {
        return Err(RoomFull);
      }
      if room.gameStarted {
        return Err(GameAlreadyStarted);
      }
      room := room.(players := room.players + [Member(pid, name)]);
      rooms := rooms[found.value := room];
      r := Ok(room);
    }

    /** `leaveRoom`: the `for ... of rooms.entries()` search with its early
        returns. */
    method LeaveRoom(pid: PlayerId) returns (r: Option<LobbyRoom>)
      requires Valid()
      modifies this`rooms
      ensures Valid() && (rooms, r) == Leave(old(rooms), pid)
    {
      LeavePreservesInv(rooms, pid);
      for i := 0 to |rooms|
        invariant rooms == old(rooms)
        invariant forall k | 0 <= k < i :: !Listing(pid)(rooms[k])
      {
        var playerIndex := FirstIndex(rooms[i].players, MemberIs(pid));
        if playerIndex.Some? {
          var room := rooms[i];
          assert Listing(pid)(room);
          assert FirstIndex(rooms, Listing(pid)) == Some(i) by {
            FirstIndexIsFirst(rooms, Listing(pid), i);
          }
          var wasHost := room.hostId == pid;
          var players := RemoveAt(room.players, playerIndex.value);
          if wasHost || |players| == 0 {
            rooms := RemoveAt(rooms, i);
            return None;
          }
          room := room.(players := players);
          rooms := rooms[i := room];
          return Some(room);
        } else {
          assert !Listing(pid)(rooms[i]);
        }
      }
      assert FirstIndex(rooms, Listing(pid)).None?;
      r := None;
    }

    /** `startGame` at time `now`: on success the engine gets a fresh game for
        the room's players under the same id. */
    method StartGame(roomId: string, pid: PlayerId, now: int) returns (r: Result<LobbyRoom>)
      requires Valid()
      modifies this`rooms, games
      ensures Valid() && (rooms, r) == Start(old(rooms), roomId, pid)
      ensures r.Err? ==> games.rooms == old(games.rooms)
      ensures r.Ok? ==> && roomId in games.rooms && fresh(games.rooms[roomId])
                        && games.rooms == old(games.rooms)[roomId := games.rooms[roomId]]
                        && games.rooms[roomId].State() == GameRules.InitialState(r.value.players, now)
    {
      StartPreservesInv(rooms, roomId, pid);
      var found := FirstIndex(rooms, RoomIdIs(roomId));
      if found.None? {
        return Err(RoomNotFound);
      }
      var room := rooms[found.value];
      if room.hostId != pid {
        return Err(NotHost);
      }
      if |room.players| < 2 {
        return Err(NotEnoughPlayers);
      }
      if room.gameStarted {
        return Err(GameAlreadyStarted);
      }
      var _ := games.InitializeGame(roomId, room.players, now);
      room := room.(gameStarted := true);
      rooms := rooms[found.value := room];
      r := Ok(room);
    }

    /** `getRooms`. */
    function GetRooms(): seq<RoomSummary>
      reads this
    {
      Summaries(rooms)
    }
  }

  /** `FirstIndex` answers `i` when `i` satisfies the test and no earlier
      element does. */
  lemma FirstIndexIsFirst<T>(s: seq<T>, f: T -> bool, i: nat)
    requires i < |s| && f(s[i]) && forall k | 0 <= k < i :: !f(s[k])
    ensures FirstIndex(s, f) == Some(i)
  {
  }
}
