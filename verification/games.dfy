/** The game records of the lobby (game.go, and `GameInfo` of lobby.go) and
    their deep-copy contract. Records are immutable values here, so a copy
    is a value equal to the original, built field by field as `Clone` does. */
module Games {
  import opened Common

  /** `DefaultGamePort`: the UDP port of a Nox game. */
  const DefaultGamePort: int := 18590

  /** `GameMode` is a Go string type; these are its named values. */
  const ModeKOTR: string := "kotr"
  const ModeCTF: string := "ctf"
  const ModeFlagBall: string := "flagball"
  const ModeChat: string := "chat"
  const ModeArena: string := "arena"
  const ModeElimination: string := "elimination"
  const ModeQuest: string := "quest"
  const ModeCoop: string := "coop"
  const ModeCustom: string := "custom"

  /** One of the eight game modes Nox itself defines. */
  predicate KnownMode(m: string)
  {
    m in {ModeKOTR, ModeCTF, ModeFlagBall, ModeChat, ModeArena, ModeElimination, ModeQuest, ModeCoop}
  }


  datatype Resolution = Resolution(highRes: bool, width: int, height: int)

  datatype PlayersInfo = PlayersInfo(cur: int, max: int)

  datatype QuestInfo = QuestInfo(stage: int)

  /** A game as announced by its host. `mapName` is Go's `Map` field. */
  datatype Game = Game(
    name: string,
    address: string,
    port: int,
    mapName: string,
    mode: string,
    access: string,
    vers: string,
    res: Resolution,
    players: PlayersInfo,
    quest: Option<QuestInfo>)

  /** A game as returned by a lobby: the record plus the instant the lobby
      last saw it. */
  datatype GameInfo = GameInfo(game: Game, seenAt: Time)

  /** What every `Lister.ListGames` returns: a list and an error, either of
      which may be nil. */
  datatype ListResult = ListResult(games: seq<GameInfo>, err: Option<Err>)

  /** `(*Resolution).Clone`. */
  function CloneResolution(v: Option<Resolution>): (r: Option<Resolution>)
    ensures r == v
  {
    match v
    case None => None
    case Some(x) => Some(Resolution(x.highRes, x.width, x.height))
  }

  /** `(*PlayersInfo).Clone`. */
  function ClonePlayers(v: Option<PlayersInfo>): (r: Option<PlayersInfo>)
    ensures r == v
  {
    match v
    case None => None
    case Some(x) => Some(PlayersInfo(x.cur, x.max))
  }

  /** `(*QuestInfo).Clone`. */
  function CloneQuest(v: Option<QuestInfo>): (r: Option<QuestInfo>)
    ensures r == v
  {
    match v
    case None => None
    case Some(x) => Some(QuestInfo(x.stage))
  }

  /** `(*Game).Clone`: a shallow copy whose nested records are replaced by
      their own clones. */
  function CloneGame(v: Option<Game>): (r: Option<Game>)
    ensures r == v
  {
    match v
    case None => None
    case Some(g) =>
      Some(g.(players := ClonePlayers(Some(g.players)).value,
              res := CloneResolution(Some(g.res)).value,
              quest := CloneQuest(g.quest)))
  }

  /** `(*GameInfo).Clone`. */
  function CloneInfo(v: Option<GameInfo>): (r: Option<GameInfo>)
    ensures r == v
  {
    match v
    case None => None
    case Some(g) => Some(g.(game := CloneGame(Some(g.game)).value))
  }

  /** The element-wise copy every lister hands out: same length, same order,
      same field values. */
  function CloneList(xs: seq<GameInfo>): (r: seq<GameInfo>)
    ensures r == xs
  {
    seq(|xs|, i requires 0 <= i < |xs| => CloneInfo(Some(xs[i])).value)
  }
}
