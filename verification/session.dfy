/**
 * The game session: the player, the map, which screen is shown and whether
 * the play-field is running, finished or over. `Tick` is the game's
 * per-frame update; `SetGameState`, `Restart` and `Quit` are the changes
 * the menus' buttons ask for.
 */
module Session {
  import opened Constants
  import opened Rects
  import opened Entities
  import opened Grid
  import opened Collision
  import opened Menus

  /** Where a new player stands: centred, 50 pixels above the bottom edge. */
  const START_X := SCREEN_WIDTH / 2 - PLAYER_WIDTH / 2
  const START_Y := SCREEN_HEIGHT - PLAYER_HEIGHT - 50

  /**
   * The session's state. `finalScore` and `finalDistance` are the results
   * the game-over screen shows.
   */
  datatype Game = Game(
    player: Player,
    level: GameMap,
    gameState: GameState,
    menuState: MenuState,
    running: bool,
    finalScore: int,
    finalDistance: int)

  /** The player's rectangle has the player's size and its animation counters are in range. */
  predicate PlayerFits(p: Player)
  {
    p.rect.w == PLAYER_WIDTH && p.rect.h == PLAYER_HEIGHT && AnimationValid(p)
  }

  /** The screens that report the play-field's outcome agree with it. */
  predicate Coherent(g: Game)
  {
    && (g.menuState == GamePlaying ==> g.gameState == Playing)
    && (g.menuState == MenuState.GameOver ==> g.gameState == GameState.GameOver)
    && (g.menuState == LevelComplete ==> g.gameState == Finished)
  }

  /** The session's invariant. */
  predicate SessionValid(g: Game)
  {
    PlayerFits(g.player) && Valid(g.level) && Coherent(g)
  }

  /**
   * The session once the game has started: a new player, a new map built
   * from `draws`, the main menu on screen and the play-field ready to run.
   */
  function NewGame(draws: seq<int>): (g: Game)
    requires |draws| >= DRAWS_PER_ROW * TOTAL_ROWS
    ensures SessionValid(g)
    ensures g.running && g.menuState == MainMenu && g.gameState == Playing
    ensures g.player.rect == Rect(START_X, START_Y, PLAYER_WIDTH, PLAYER_HEIGHT)
    ensures g.player.alive && g.player.score == 0
    ensures g.level.scrollOffset == 0 && g.level.scrolledRows == 0 && !g.level.finishLineGenerated
    ensures g.finalScore == 0 && g.finalDistance == 0
  {
    Game(NewPlayer(START_X, START_Y), NewGameMap(draws), Playing, MainMenu, true, 0, 0)
  }

  // ------------------------------------------------------------ the tick

  /** The play-field moves on this tick: its screen is shown and the game is still being played. */
  predicate Advances(g: Game)
  {
    (g.menuState == GamePlaying || g.menuState == LevelComplete) && g.gameState == Playing
  }

  /** What a tick that moves the play-field needs: a valid map with draws for the next update. */
  predicate TickReady(g: Game)
  {
    Advances(g) ==> Valid(g.level) && EnoughDraws(g.level) && g.player.frameCount > 0
  }

  /**
   * Game::update. The menu screens' own updates change nothing. On the
   * play-field, while the game is being played: animate the player, scroll
   * the map, check the player's rectangle against the map with a fresh
   * point count, add a positive gain to the score, finish the level when
   * that one tick's gain reaches MAX_SCORE, and end the game, killing the
   * player, when an obstacle was hit. Both outcomes record the results
   * the game-over screen shows.
   */
  function Tick(g: Game): (g': Game)
    requires TickReady(g)
    ensures !Advances(g) ==> g' == g
    ensures g'.running == g.running
    ensures g'.player.rect == g.player.rect
    ensures g'.player.score >= g.player.score
    ensures g'.player.alive ==> g.player.alive
    ensures Coherent(g) ==> Coherent(g')
  {
    if !Advances(g) then g
    else
      var p := Animate(g.player);
      var m := Update(g.level);
      var c := CheckCollision(m, p.rect, 0);
      var p1 := if c.points > 0 then AddScore(p, c.points) else p;
      var g1 := g.(player := p1, level := c.state);
      var g2 :=
        if c.points > 0 && c.points >= MAX_SCORE then
          g1.(gameState := Finished, menuState := LevelComplete, finalScore := p1.score, finalDistance := c.state.scrolledRows)
        else g1;
      if c.hit then
        var dead := Kill(g2.player);
        g2.(player := dead, gameState := GameState.GameOver, menuState := MenuState.GameOver,
            finalScore := dead.score, finalDistance := c.state.scrolledRows)
      else g2
  }

  /**
   * What one tick of play does, in terms of the scrolled map and the
   * player's rectangle: the score grows by checkCollision's gain; the level
   * is complete exactly when the player touches a finish cell, and then
   * the player lives on; the game is over exactly when the player touches
   * an obstacle and no finish cell, and then the player is dead; otherwise
   * nothing about the outcome changes. The two outcomes never come
   * together.
   */
  lemma TickMeaning(g: Game)
    requires Advances(g) && TickReady(g) && PlayerFits(g.player)
    ensures var g' := Tick(g);
      var m := Update(g.level);
      var rect := g.player.rect;
      var finish := TouchesAny(m.grid, rect, m.scrollOffset, Finish);
      var obstacle := TouchesAny(m.grid, rect, m.scrollOffset, Obstacle);
      && g'.player.score == g.player.score + (CheckCollision(m, rect, 0).points)
      && g'.level == CheckCollision(m, rect, 0).state
      && (g'.gameState == Finished <==> finish)
      && (g'.gameState == GameState.GameOver <==> obstacle && !finish)
      && (g'.gameState == Finished ==> g'.menuState == LevelComplete && g'.player.alive == g.player.alive)
      && (g'.gameState == GameState.GameOver ==> g'.menuState == MenuState.GameOver && !g'.player.alive)
      && (g'.gameState == Playing ==> g'.menuState == g.menuState && g'.player.alive == g.player.alive)
      && (g'.gameState != Playing ==> g'.finalScore == g'.player.score && g'.finalDistance == g'.level.scrolledRows)
  {
    var m := Update(g.level);
    var rect := g.player.rect;
    assert Animate(g.player).rect == rect;
    CheckCollisionMeaning(m, rect, 0);
    GainReachesMaxOnlyAtFinish(m, rect, 0);
  }

  /** A tick keeps the session's invariant: the player's size and animation, the map's shape and the screens' agreement. */
  lemma TickKeepsSessionValid(g: Game)
    requires TickReady(g) && SessionValid(g)
    ensures SessionValid(Tick(g))
  {
    if Advances(g) {
      var p := Animate(g.player);
      CheckCollisionKeepsValid(Update(g.level), p.rect, 0);
    }
  }

  /** Once the game is over or the level complete, ticks change nothing. */
  lemma TerminalStatesFrozen(g: Game)
    requires g.gameState != Playing
    ensures TickReady(g) && Tick(g) == g
  {
  }

  // ------------------------------------------------------------ menu requests

  /**
   * Game::setGameState: show screen `s`; the play screen resumes play, the
   * game-over and level-complete screens set their outcome, and the other
   * screens leave the play-field's state alone.
   */
  function SetGameState(g: Game, s: MenuState): (g': Game)
    ensures g'.menuState == s
    ensures s == GamePlaying ==> g'.gameState == Playing
    ensures s == MenuState.GameOver ==> g'.gameState == GameState.GameOver
    ensures s == LevelComplete ==> g'.gameState == Finished
    ensures s != GamePlaying && s != MenuState.GameOver && s != LevelComplete ==> g'.gameState == g.gameState
    ensures g' == g.(menuState := s, gameState := g'.gameState)
    ensures Coherent(g')
  {
    var state :=
      match s
      case GamePlaying => Playing
      case GameOver => GameState.GameOver
      case LevelComplete => Finished
      case _ => g.gameState;
    g.(menuState := s, gameState := state)
  }

  /** Only the play screen brings a finished or lost game back into play. */
  lemma OnlyPlayScreenRevives(g: Game, s: MenuState)
    requires g.gameState != Playing
    ensures SetGameState(g, s).gameState == Playing <==> s == GamePlaying
  {
  }

  /** Game::quit: stop the main loop; nothing else changes. */
  function Quit(g: Game): (g': Game)
    ensures !g'.running
    ensures g' == g.(running := false)
  {
    g.(running := false)
  }

  /**
   * Game::restart: a new player at the start position and a new map built
   * from `draws`, straight into play.
   */
  function Restart(g: Game, draws: seq<int>): (g': Game)
    requires |draws| >= DRAWS_PER_ROW * TOTAL_ROWS
    ensures SessionValid(g')
    ensures g'.gameState == Playing && g'.menuState == GamePlaying && Advances(g')
    ensures g'.player == NewGame(draws).player && g'.level == NewGame(draws).level
    ensures g'.running == g.running && g'.finalScore == g.finalScore && g'.finalDistance == g.finalDistance
  {
    g.(player := NewPlayer(START_X, START_Y), level := NewGameMap(draws), gameState := Playing, menuState := GamePlaying)
  }

  /** A restarted game is a new game on the play screen, whatever state it was in. */
  lemma RestartIsNewGame(g: Game, draws: seq<int>)
    requires |draws| >= DRAWS_PER_ROW * TOTAL_ROWS
    ensures Restart(g, draws) == SetGameState(NewGame(draws), GamePlaying).(running := g.running, finalScore := g.finalScore, finalDistance := g.finalDistance)
  {
  }

  /**
   * A button's handler reaching the game: a screen change goes through
   * Game::setGameState, Exit through Game::quit and Retry through
   * Game::restart, which builds its new map from `draws`. The options
   * screen's own intents act on that screen (Menus.PerformOnOptions) and
   * leave the game as it is.
   */
  function Perform(g: Game, i: Intent, draws: seq<int>): (g': Game)
    requires i == Retry ==> |draws| >= DRAWS_PER_ROW * TOTAL_ROWS
    ensures i.Show? ==> g'.menuState == i.screen && g'.player == g.player && g'.level == g.level && g'.running == g.running
    ensures i == Exit ==> !g'.running && g' == g.(running := false)
    ensures i == Retry ==> && g'.gameState == Playing && g'.menuState == GamePlaying
                           && g'.player == NewGame(draws).player && g'.level == NewGame(draws).level
    ensures !i.Show? && i != Exit && i != Retry ==> g' == g
    ensures g'.running ==> g.running
    ensures g'.finalScore == g.finalScore && g'.finalDistance == g.finalDistance
    ensures Coherent(g) ==> Coherent(g')
  {
    match i
    case Show(s) => SetGameState(g, s)
    case Exit => Quit(g)
    case Retry => Restart(g, draws)
    case _ => g
  }

  /** Every handler keeps the session's invariant. */
  lemma PerformKeepsSessionValid(g: Game, i: Intent, draws: seq<int>)
    requires i == Retry ==> |draws| >= DRAWS_PER_ROW * TOTAL_ROWS
    requires SessionValid(g)
    ensures SessionValid(Perform(g, i, draws))
  {
  }

  /**
   * Once the game is over or the level complete, exactly two handlers
   * bring it back into play: the play screen's (Start Game, Resume Game)
   * and Retry, which also starts a new game.
   */
  lemma PerformRevives(g: Game, i: Intent, draws: seq<int>)
    requires i == Retry ==> |draws| >= DRAWS_PER_ROW * TOTAL_ROWS
    requires g.gameState != Playing
    ensures Perform(g, i, draws).gameState == Playing <==> i == Show(GamePlaying) || i == Retry
    ensures i == Retry ==>
      Perform(g, i, draws) ==
        SetGameState(NewGame(draws), GamePlaying).(running := g.running, finalScore := g.finalScore, finalDistance := g.finalDistance)
  {
    if i.Show? {
      OnlyPlayScreenRevives(g, i.screen);
    } else if i == Retry {
      RestartIsNewGame(g, draws);
    }
  }
}
