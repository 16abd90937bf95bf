/** The value types declared in include/gameState.hpp: the game phase, the
    difficulty, the outcome of a reveal, a tile's game state and the
    context a game keeps beside its board. */
module GameTypes {

  /** Overall game phase. */
  datatype GameState = Playing | Won | Lost

  /** The three board sizes offered by the menu. */
  datatype Difficulty = Beginner | Intermediate | Expert

  /** What a reveal reports back to the input handler. */
  datatype RevealResult = Continue | GameOver | Win

  /** One board position. `symbol` is 'X' for a mine, ' ' for a tile without
      adjacent mines and '1'..'8' otherwise; screen geometry and the texture
      handle are presentation only and are not part of the model. */
  datatype Tile = Tile(symbol: char, revealed: bool, flagged: bool)

  /** The symbol of a mine. */
  const MINE: char := 'X'

  /** The tile every position holds after a board reset. */
  const BLANK_TILE: Tile := Tile(' ', false, false)

  /** Per-game configuration and phase. Times are seconds of the host clock. */
  datatype GameContext = GameContext(
    rows: int,
    cols: int,
    totalMines: int,
    difficulty: Difficulty,
    state: GameState,
    startTime: real,
    finalTime: real,
    gameStarted: bool)

  /** The default member initialisers of the context. */
  const DEFAULT_CONTEXT: GameContext :=
    GameContext(9, 9, 10, Beginner, Playing, 0.0, 0.0, false)
}
