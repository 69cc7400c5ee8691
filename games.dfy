/** The static game table and the guess limit. */
module Games {

  datatype Game = Game(key: string, title: string)

  /** The configured games, in display order. */
  const GAMES: seq<Game> := [
    Game("framed", "Framed"),
    Game("one-frame", "One Frame"),
    Game("title-shot", "Title Shot"),
    Game("poster", "Poster")
  ]

  const MAX_GUESSES: nat := 6
}
