/** The XWIS adapter of xwis.go: rooms of the foreign XWIS lobby become
    games. The room fetch is a parameter; the `xwis` package itself is not
    part of this model, so its map types and game records are stated here
    with just the fields the adapter reads. */
module Xwis {
  import opened Common
  import opened Games
  import Registry

  /** `xwis.MapType`: the eight named types, and any other value. */
  datatype MapType =
    | MapKOTR | MapCTF | MapFlagBall | MapChat | MapArena | MapElimination | MapCoop | MapQuest
    | MapOther(raw: int)

  /** The fields of `xwis.GameInfo` the adapter reads. */
  datatype XGame = XGame(name: string, addr: string, mapName: string, mapType: MapType,
                         fragLimit: int, players: int, maxPlayers: int)

  /** An XWIS room, which may or may not host a game. */
  datatype Room = Room(game: Option<XGame>)

  /** What the room fetch returned. */
  datatype Rooms = RoomsOk(rooms: seq<Room>) | RoomsErr(err: Err)

  /** The map type a mode name stands for, if it names one. */
  function MapTypeOfMode(m: string): (t: Option<MapType>)
    ensures t.Some? ==> !t.value.MapOther?
  {
    if m == ModeKOTR then Some(MapKOTR)
    else if m == ModeCTF then Some(MapCTF)
    else if m == ModeFlagBall then Some(MapFlagBall)
    else if m == ModeChat then Some(MapChat)
    else if m == ModeArena then Some(MapArena)
    else if m == ModeElimination then Some(MapElimination)
    else if m == ModeCoop then Some(MapCoop)
    else if m == ModeQuest then Some(MapQuest)
    else None
  }

  /** `xwisGameMode`: each named map type maps to the mode of the same
      name, distinct types to distinct modes; every other value is custom. */
  function GameMode(t: MapType): (r: string)
    ensures t.MapOther? <==> r == ModeCustom
    ensures !t.MapOther? ==> KnownMode(r) && MapTypeOfMode(r) == Some(t)
  {
    match t
    case MapKOTR => ModeKOTR
    case MapCTF => ModeCTF
    case MapFlagBall => ModeFlagBall
    case MapChat => ModeChat
    case MapArena => ModeArena
    case MapElimination => ModeElimination
    case MapCoop => ModeCoop
    case MapQuest => ModeQuest
    case MapOther(_) => ModeCustom
  }

  /** `gameFromXWIS`. The quest stage is present exactly for quest games,
      which are exactly the games whose mode is quest. */
  function GameFromXwis(g: XGame): (r: Game)
    ensures r.name == g.name && r.address == g.addr && r.mapName == g.mapName
    ensures r.port == DefaultGamePort
    ensures r.mode == GameMode(g.mapType)
    ensures r.players == PlayersInfo(g.players, g.maxPlayers)
    ensures r.quest.Some? <==> g.mapType == MapQuest
    ensures r.quest.Some? ==> r.quest.value.stage == g.fragLimit
    ensures r.quest.Some? <==> r.mode == ModeQuest
    ensures r.access == "" && r.vers == "" && r.res == Resolution(false, 0, 0)
  {
    var q := if g.mapType == MapQuest then Some(QuestInfo(g.fragLimit)) else None;
    Game(g.name, g.addr, DefaultGamePort, g.mapName, GameMode(g.mapType), "", "",
         Resolution(false, 0, 0), PlayersInfo(g.players, g.maxPlayers), q)
  }

  /** A converted game carries no version, so the in-memory lobby would
      refuse to register it: XWIS games only ever reach a listing through
      the overlay's base side. */
  lemma XwisGamesNotRegistrable(g: XGame)
    ensures !Registry.ValidRecord(GameFromXwis(g))
  {
  }

  /** The rooms that host a game. */
  function CountGames(rooms: seq<Room>): (n: nat)
    ensures n <= |rooms|
  {
    if |rooms| == 0 then 0
    else (if rooms[0].game.Some? then 1 else 0) + CountGames(rooms[1..])
  }

  /** The conversion loop of `xwisLister.ListGames`: rooms with no game are
      skipped, the others converted in order, all seen at `now`. */
  function Convert(rooms: seq<Room>, now: Time): (r: seq<GameInfo>)
    ensures |r| == CountGames(rooms)
    ensures forall i :: 0 <= i < |r| ==> r[i].seenAt == now
    ensures forall i :: 0 <= i < |rooms| && rooms[i].game.Some? ==>
              GameInfo(GameFromXwis(rooms[i].game.value), now) in r
    ensures forall g :: g in r ==>
              (exists i :: 0 <= i < |rooms| && rooms[i].game.Some? &&
                 g == GameInfo(GameFromXwis(rooms[i].game.value), now))
  {
    if |rooms| == 0 then []
    else
      var rest := Convert(rooms[1..], now);
      assert forall i :: 1 <= i < |rooms| ==> rooms[i] == rooms[1..][i - 1];
      forall g | g in rest
        ensures exists i :: 1 <= i < |rooms| && rooms[i].game.Some? &&
                  g == GameInfo(GameFromXwis(rooms[i].game.value), now)
      {
        var j :| 0 <= j < |rooms[1..]| && rooms[1..][j].game.Some? &&
                 g == GameInfo(GameFromXwis(rooms[1..][j].game.value), now);
        assert rooms[j + 1] == rooms[1..][j];
      }
      match rooms[0].game
      case None => rest
      case Some(g) => [GameInfo(GameFromXwis(g), now)] + rest
  }

  /** The conversion keeps the rooms' order: converting two runs of rooms
      one after the other is converting them together. */
  lemma {:induction false} ConvertAppend(a: seq<Room>, b: seq<Room>, now: Time)
    ensures Convert(a + b, now) == Convert(a, now) + Convert(b, now)
    decreases |a|
  {
    if |a| > 0 {
      assert (a + b)[0] == a[0];
      assert (a + b)[1..] == a[1..] + b;
      ConvertAppend(a[1..], b, now);
    } else {
      assert a + b == b;
    }
  }

  /** `xwisLister.ListGames`: a failed fetch gives a nil list and its error;
      otherwise the converted games and no error. */
  function ListGames(fetched: Rooms, now: Time): (r: ListResult)
    ensures fetched.RoomsErr? ==> r.games == [] && r.err == Some(fetched.err)
    ensures fetched.RoomsOk? ==> r.err.None? && |r.games| == CountGames(fetched.rooms)
    ensures fetched.RoomsOk? ==> r.games == Convert(fetched.rooms, now)
  {
    match fetched
    case RoomsErr(e) => ListResult([], Some(e))
    case RoomsOk(rooms) => ListResult(Convert(rooms, now), None)
  }
}
