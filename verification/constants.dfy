/** The game's configuration constants and shared enumerations. */
module Constants {

  const SCREEN_WIDTH := 1280
  const SCREEN_HEIGHT := 960
  /** Side of one grid cell, in pixels. */
  const GRID_SIZE := 60
  /** SCREEN_WIDTH / GRID_SIZE columns. */
  const GRID_COLS := 21
  /** SCREEN_HEIGHT / GRID_SIZE visible rows, plus one for the row being scrolled in. */
  const GRID_ROWS := 17
  /** Rows pre-generated above the screen. */
  const BUFFER_ROWS := 10
  const PLAYER_WIDTH := 50
  const PLAYER_HEIGHT := 80
  /** Pixels scrolled per tick; a float in the game whose value is the integer 3. */
  const SCROLL_SPEED := 3
  /** Pixels moved per key-held tick; a float in the game whose value is the integer 5. */
  const PLAYER_SPEED := 5
  const MAX_SCORE := 1000
  /** Row shifts after which the finish line is laid. */
  const MAX_ROWS := 200

  /** The grid dimensions are the screen's, measured in cells. */
  lemma GridFitsScreen()
    ensures GRID_COLS == SCREEN_WIDTH / GRID_SIZE
    ensures GRID_ROWS == SCREEN_HEIGHT / GRID_SIZE + 1
  {
  }

  /** What the play-field is doing, independent of which screen is shown. */
  datatype GameState = Playing | GameOver | Finished
}
