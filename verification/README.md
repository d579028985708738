# Endless-runner core in Dafny

This project models the core of a small SDL endless-runner game. The player
steers left and right at the bottom of the screen. A grid of cells scrolls
down towards them. Rows of obstacles and coins are generated at the top as
the grid scrolls, and a single finish line appears once enough rows have
gone by. Touching an obstacle ends the game. Touching a coin collects it for
10 points. Touching the finish line completes the level. Menus with
keyboard and mouse selection sit around the play-field.

The model is functional: immutable datatypes and pure step functions.

| file | module | models |
|---|---|---|
| `wrappers.dfy` | `Wrappers` | `Option` |
| `cmath.dfy` | `CMath` | C++ truncating `/` and `%`, `std::max`/`std::min`, small modular-arithmetic lemmas |
| `constants.dfy` | `Constants` | `constants.h`: screen, grid and player sizes, speeds, `MAX_SCORE`, `MAX_ROWS`, `GameState` |
| `rects.dfy` | `Rects` | `SDL_Rect` and the overlap test the game takes from SDL |
| `entities.dfy` | `Entities` | `gameobject.cpp`: cells and the player |
| `grid.dfy` | `Grid` | `gamemap.cpp`: the map's state, row generation, row shifting, scrolling, construction |
| `collision.dfy` | `Collision` | `gamemap.cpp`: `checkCollision` |
| `menus.dfy` | `Menus` | `menu.cpp`: buttons, menu selection, the options screen |
| `session.dfy` | `Session` | `game.cpp`: the per-tick play update, `setGameState`, `quit`, `restart` |

Each step of the game is modelled in its own terms:

- **The random stream.** The random engine becomes a stream of integer draws, `rng`, owned by the map. `drawn` counts the draws taken so far.
  - A draw `d` selects the safe column `d % 21` and the roll `d % 100 + 1`, so each draw lands in its distribution's range.
  - Draws are consumed in the source's order: the safe column first, then per column an obstacle roll and, only when no obstacle is placed, a coin roll.
- **Operations that need draws.** Every operation that generates rows requires enough draws left (43 per row).
- **Offsets.** The scroll offset is an integer number of pixels. `SCROLL_SPEED` (3) and `GRID_SIZE` (60) are whole numbers, so the source's float arithmetic is exact here.
- **Menu buttons.** A button's click handler becomes an `Intent` value that says what the handler asks for.
- **Overlap.** `SDL_HasIntersection` is assumed to behave as `Rects.Intersects` states: empty rectangles meet nothing, and otherwise the half-open extents must overlap on both axes.

## Model

| member | source | states |
|---|---|---|
| `Constants.GridFitsScreen` | constants.h:9-11 | The grid is as wide as the screen in whole cells, and one row taller than the screen. |
| `Rects.Intersects` | gamemap.cpp:211-212 | The assumed `SDL_HasIntersection`: two non-empty rectangles meet when their half-open extents overlap on both axes. |
| `Rects.IntersectsIffSharedPixel` | gamemap.cpp:211-212 | Two rectangles overlap exactly when some pixel lies in both. |
| `Entities.NewCell` | gameobject.cpp:25-41 | A new cell has the given kind and rectangle, is active and uncollected. Its texture id is "obstacle", "coin" or "finish" by kind, and empty exactly for an EMPTY cell. |
| `Entities.TextureIdentifiesKind` | gameobject.cpp:28-41 | Two new cells with the same texture id have the same kind. |
| `Entities.Collect` | gameobject.cpp:97-99 | Collecting sets `collected`. Kind, rectangle, active flag and texture are unchanged. |
| `Entities.CollectIdempotent` | gameobject.cpp:97-99 | Collecting twice is the same as collecting once. |
| `Entities.NewPlayer` | gameobject.cpp:111-120 | A new player has the player's size and is active and alive. Score, frame and frame counter are 0. It has 3 frames and animation speed 20. |
| `Entities.Animate` | gameobject.cpp:122-131 | The counter goes up by one, or wraps to 0 once it passes `animationSpeed`. The frame changes only on a wrap. The counters stay in range. Nothing else about the player changes. |
| `Entities.AnimationClosedForm` | gameobject.cpp:122-131 | After n ticks, the player's counter is (counter + n) mod 21 and the frame has advanced once per 21 ticks, mod 3. |
| `Entities.MoveLeft` | gameobject.cpp:154-157 | x drops by the player speed but never below 0. Only x changes. |
| `Entities.MoveRight` | gameobject.cpp:159-162 | x rises by the player speed but never past `SCREEN_WIDTH - w`. Only x changes. |
| `Entities.Steer` | gameobject.cpp:154-162 | A run of held left and right keys moves the player sideways only. Width, height, row and every other field are kept. |
| `Entities.SteerStaysOnScreen` | gameobject.cpp:154-162 | A player that starts fully on screen stays on screen for any sequence of left and right moves. |
| `Entities.AddScore` | gameobject.cpp:169-171 | The score changes by exactly the points given, so it never falls for non-negative points. Nothing else changes. |
| `Entities.Kill` | gameobject.cpp:177-179 | The player is dead afterwards, and nothing else about them changes. |
| `Grid.DimensionsAgree` | gamemap.cpp:5 | The map has `GRID_ROWS + BUFFER_ROWS` rows. One row needs at most one draw for the safe column plus two per column. |
| `Grid.SafeColumnDraw` | gamemap.cpp:147 | Every draw selects a column of the grid. |
| `Grid.PercentDraw` | gamemap.cpp:143-144 | Every draw selects a roll in 1..100. |
| `Grid.NoRollBeatsRaisedThreshold` | gamemap.cpp:156-163 | At difficulty 1 or below, no roll places an obstacle over an obstacle in the row below. |
| `Grid.ObstacleThreshold` | gamemap.cpp:156-160 | At the initial difficulty the threshold is 92, or 102 over an obstacle in the row below. At or below that difficulty, the raised threshold is above every roll. |
| `Grid.ColumnKind` | gamemap.cpp:149-170 | The safe column stays empty and takes no draw. Another column holds an obstacle exactly when its first roll beats the threshold. It holds a coin exactly when that roll does not and its second roll exceeds 85. A coin-or-empty column takes two draws and an obstacle column one. It is never a finish cell. |
| `Grid.RowKinds` | gamemap.cpp:149-170 | One kind per column, never FINISH. The safe column is empty, every obstacle was placed under a threshold below 100, and at most two draws are taken per column. |
| `Grid.ObstacleMask` | gamemap.cpp:133-140 | Marks exactly the columns of a row that hold an obstacle. |
| `Grid.BelowMask` | gamemap.cpp:133-140 | For every row but the bottom one, marks exactly the columns where the row below holds an obstacle. |
| `Grid.FinishDue` | gamemap.cpp:116 | The finish line is due exactly when none has been laid, more than MAX_ROWS rows have scrolled, and the row being generated is the top one. |
| `Grid.FinishRow` | gamemap.cpp:118-129 | A full row of FINISH cells, each placed at its column and row. |
| `Grid.PlaceCells` | gamemap.cpp:172-181 | A cell of the chosen kind is made at every non-empty column, at that column's place. Empty columns keep what was there. |
| `Grid.PlacedRowIsOrdinary` | gamemap.cpp:146-181 | Filling an empty row with non-finish kinds and an empty safe column yields a row of obstacles and coins with a free column. |
| `Grid.PlacedNoStacking` | gamemap.cpp:156-164 | At difficulty 1 or below, a filled row has no obstacle directly over an obstacle in the row below. |
| `Grid.OrdinaryFill` | gamemap.cpp:132-182 | Ordinary generation of one row keeps the row's width and takes at least one and at most 43 draws. |
| `Grid.OrdinaryFillIsOrdinary` | gamemap.cpp:146-182 | An ordinary generated row has a free column and only obstacles and coins. |
| `Grid.OrdinaryFillNoStacking` | gamemap.cpp:133-169 | At difficulty 1 or below, no obstacle of the generated row sits over one in the row below. |
| `Grid.GenerateRow` | gamemap.cpp:113-183 | Only the target row changes. Afterwards the finish flag is set exactly when it was already set or a finish line is due: flag clear, more than `MAX_ROWS` rows scrolled, and row 0. At most 43 draws are used. |
| `Grid.GenerateRowFinish` | gamemap.cpp:116-130 | When a finish line is due, the row becomes a finish line and no draw is used. |
| `Grid.GenerateRowOrdinary` | gamemap.cpp:132-182 | When no finish line is due, an empty row becomes an ordinary row. |
| `Grid.GenerateRowNoStacking` | gamemap.cpp:133-169 | When no finish line is due and difficulty is at most 1, the new row puts no obstacle over an obstacle in the row below. |
| `Grid.EmptyRow` | gamemap.cpp:103-106 | A row of `GRID_COLS` empty slots. |
| `Grid.ShiftedGrid` | gamemap.cpp:98-107 | The bottom row is dropped, every other row moves down one, and the new top row is empty. |
| `Grid.ShiftedTopRow` | gamemap.cpp:98-111 | After a shift, the top row is a finish line exactly when one is due, and is an ordinary row otherwise. |
| `Grid.ShiftedTopNoStacking` | gamemap.cpp:98-111 | At difficulty 1 or below, the new top row has no obstacle over an obstacle of the row it pushed down. |
| `Grid.MoveRowsDown` | gamemap.cpp:99-107 | The bottom row is dropped and an empty row is put on top. The grid keeps its shape, and nothing but the grid changes. |
| `Grid.ShiftRowsDown` | gamemap.cpp:98-111 | Keeps the map's invariant. Old row i becomes row i+1, and the top row is a finish line exactly when one is due. Offset, scrolled-row count and difficulty are unchanged, and at most 43 draws are used. |
| `Grid.GenerateFrom` | gamemap.cpp:24-27 | Generating rows from i to the bottom keeps the grid's shape, offset, count and difficulty, within the draw budget. |
| `Grid.GenerateFromKeepsAbove` | gamemap.cpp:24-27 | Generating rows from i to the bottom leaves the rows above i untouched. |
| `Grid.GenerateFromRows` | gamemap.cpp:24-27 | While no finish line can be due, rows from i down that were empty all come out ordinary. |
| `Grid.GenerateFromKeepsFlag` | gamemap.cpp:24-27 | While no finish line can be due, generating rows leaves the finish flag as it was. |
| `Grid.NewGameMap` | gamemap.cpp:4-28 | A new map satisfies the invariant: 27 rows of 21 slots, offset 0, 0 rows scrolled, finish flag clear, difficulty 1, every row ordinary. |
| `Grid.ShiftTimes` | gamemap.cpp:41-44 | k shifts keep the invariant, add k to the scrolled-row count, and move every surviving row down by k. The finish flag is never cleared. |
| `Grid.Update` | gamemap.cpp:30-50 | Keeps the invariant. The offset becomes (offset + 3) mod 60, and the scrolled-row count grows by the whole cells passed. Rows move down by that many. Without a whole cell passed, grid and draws are unchanged. Difficulty stays, and the finish flag is never cleared. |
| `Grid.Run` | gamemap.cpp:30-50 | Any number of updates keeps the map's invariant. |
| `Grid.RunClosedForm` | gamemap.cpp:32-44 | After k updates, the offset is (offset + 3k) mod 60 and the count has grown by (offset + 3k) div 60, so it never decreases. |
| `Grid.OneCellOfUpdatesShiftsOnce` | gamemap.cpp:32-44 | From offset 0, 20 updates make exactly one shift and end at offset 0. |
| `Collision.Slot` | gamemap.cpp:201 | The slot the scan reads at a position, or no cell outside the grid. |
| `Collision.Live` | gamemap.cpp:201-202 | The scan looks only at a present cell that is active and not yet collected. |
| `Collision.CellRect` | gamemap.cpp:204-209 | A cell's screen rectangle is non-empty, at its column and at its row moved down by the offset. |
| `Collision.ScanWindow` | gamemap.cpp:191-194 | The visited rows and columns are clipped into the grid. |
| `Collision.RowSpan` | gamemap.cpp:200 | The inner loop visits columns c to endCol of one row, left to right, one position per column, none when c is past endCol. |
| `Collision.Span` | gamemap.cpp:199-200 | The nested loops from row r down visit exactly the positions with row in r..endRow and column in startCol..endCol, in strictly row-major order. |
| `Collision.WindowCells` | gamemap.cpp:191-200 | The positions visited, row by row over the clipped window: exactly the window's positions, in strictly row-major order. |
| `Collision.SpanLength` | gamemap.cpp:199-200 | The nested loops from a row down to the last row visit the number of rows times the row width, or none when the start is past the last row. |
| `Collision.PlayerWindowSize` | gamemap.cpp:191-194 | For a player-sized rectangle, the scan visits at most 6 cells. |
| `Collision.WindowCellsInGridAndDistinct` | gamemap.cpp:191-200 | Every visited position is in the grid, and the visit order is strictly row-major, so no cell is visited twice. |
| `Collision.WindowCovers` | gamemap.cpp:191-212 | Every grid cell whose rectangle overlaps the player is visited. |
| `Collision.CollectAt` | gamemap.cpp:218 | Only the given slot changes, and it becomes the collected cell. |
| `Collision.OnlyCollectsTouches` | gamemap.cpp:201-218 | Collecting coins creates no new touch, and leaves obstacle and finish touches as they were. |
| `Collision.ScanFrom` | gamemap.cpp:196-229 | The scan loop never loses points. It keeps the grid's shape and changes slots only by collecting coins. |
| `Collision.FirstFinish` | gamemap.cpp:220-222 | The first visited position where a finish cell is touched, or the end when there is none. |
| `Collision.ScanHitMeaning` | gamemap.cpp:199-229 | The loop reports a collision exactly when no finish cell is touched and some obstacle is touched. |
| `Collision.ScanPointsMeaning` | gamemap.cpp:199-229 | The loop adds 10 per coin touched before the first touched finish cell, plus 1000 if there is one. |
| `Collision.ScanCollectsCoins` | gamemap.cpp:217-219 | After the loop, no coin before the stop is left for the player to touch. |
| `Collision.CheckCollision` | gamemap.cpp:185-230 | Only the grid changes, only by coins being collected, and the points never fall. |
| `Collision.CheckCollisionMeaning` | gamemap.cpp:185-230 | Reports a collision exactly when the player touches an obstacle and no finish cell anywhere. Points grow by 1000 if a finish cell is touched, plus 10 per coin touched before it. Without a finish cell, every touched coin ends up collected. |
| `Collision.CheckCollisionTwice` | gamemap.cpp:201-222 | A second check with the same rectangle reports the same result and changes nothing. It scores only the finish bonus, so each coin counts once. |
| `Collision.GainReachesMaxOnlyAtFinish` | gamemap.cpp:217-222 | For a player-sized rectangle, one check gains `MAX_SCORE` or more exactly when a finish cell is touched. The gain stays below `MAX_SCORE + 60`. |
| `Collision.OnlyCollectsKeepsRows` | gamemap.cpp:218 | Collecting coins keeps every row's finish and ordinary status. |
| `Collision.CheckCollisionKeepsValid` | gamemap.cpp:185-230 | checkCollision keeps the map's invariant. |
| `Menus.NewButton` | menu.cpp:7-16 | A new button has the given rectangle, text and action, and is not selected. |
| `Menus.Inside` | menu.cpp:72-73 | The hit test: the pointer is inside when it lies between both edges of each axis, the edges included. |
| `Menus.InsideIsClosed` | menu.cpp:72-73 | The hit test includes both edges. It is the half-open area grown by one pixel each way, so it takes in the far corner the rectangle does not cover. |
| `Menus.HandleButtonEvent` | menu.cpp:70-95 | Mouse motion selects the button exactly when the pointer is inside, and is consumed then. A press is consumed and fires the action exactly when it is a left click inside. Other events do nothing. Nothing but `selected` changes. |
| `Menus.NewMenu` | menu.cpp:120-124 | A new menu has its title, no buttons, and index 0. |
| `Menus.AddButton` | menu.cpp:225-232 | Appends the button and keeps the earlier ones. The new one is selected exactly when it is the first. |
| `Menus.AddButtonKeepsSelection` | menu.cpp:225-232 | Adding a button to an empty menu, or to one where exactly the button at the index is highlighted, keeps exactly that button highlighted. |
| `Menus.MoveSelection` | menu.cpp:234-254 | The old button is deselected and the new one selected. Other buttons, and everything but highlight flags, are unchanged. |
| `Menus.NavigateUp` | menu.cpp:234-243 | The index moves up one, wrapping from 0 to the last, and the highlight follows it. |
| `Menus.NavigateDown` | menu.cpp:245-254 | The index moves down one, wrapping from the last to 0, and the highlight follows it. |
| `Menus.NavigateIsModular` | menu.cpp:239-250 | Up is (i + n - 1) mod n and down is (i + 1) mod n. |
| `Menus.NavigateInverse` | menu.cpp:234-254 | Up then down, or down then up, restores the index. With a consistent highlight, it restores the whole menu. |
| `Menus.NavigateDownTimesClosedForm` | menu.cpp:245-254 | k presses of down land on (i + k) mod n. |
| `Menus.SelectCurrentWith` | menu.cpp:256-263 | Anything fired is the action of the button at the index, and only when the index is in range. |
| `Menus.SelectCurrentAsWritten` | menu.cpp:256-263 | As written, selectCurrent never fires a handler, whatever value the unset mouse-button field holds, unless that value is the left button's. |
| `Menus.SelectCurrent` | menu.cpp:256-263 | The corrected selectCurrent fires the current button's action exactly when the index is in range and the button is at least 1x1. |
| `Menus.SelectCurrentIgnoresKeyboard` | menu.cpp:256-263 | On the options screen, a left click where selectCurrent probes toggles music. selectCurrent as written does not, for any value of the unset field other than the left button's. The corrected version does. |
| `Menus.OptionsWithLabel` | menu.cpp:462-521 | The options screen starts with music and sound on and difficulty 1. It has four buttons stacked 80 pixels apart, with their labels and actions, and the first is selected. |
| `Menus.DifficultyName` | menu.cpp:561-566 | 1 is Easy, 2 Normal and 3 Hard. A label is empty exactly when the difficulty is outside 1..3. |
| `Menus.DifficultyNameIdentifies` | menu.cpp:585-590 | The three names are different, so a difficulty label names exactly one difficulty. |
| `Menus.NewOptionsAsWritten` | menu.cpp:462-521 | As written, the difficulty button's first label disagrees with the difficulty in force. |
| `Menus.NewOptions` | menu.cpp:462-521 | The corrected options screen's labels agree with its settings. |
| `Menus.Remake` | menu.cpp:530-538 | A button is recreated in place: the same rectangle, with the new label, action and highlight. The other buttons, the title and the index are kept. |
| `Menus.ToggleMusic` | menu.cpp:523-539 | Music flips, and button 0 is remade selected, with the new label and the same action. Nothing else changes. |
| `Menus.ToggleSound` | menu.cpp:541-556 | Sound flips, and button 1 is remade unselected, with the new label. Nothing else changes. |
| `Menus.TogglesAreInvolutions` | menu.cpp:523-556 | Toggling twice restores the setting, and a third toggle equals the first. |
| `Menus.ToggleSoundClearsHighlight` | menu.cpp:541-556 | Toggling sound from its own button leaves no button highlighted, though the index stays on it. |
| `Menus.IncreaseDifficulty` | menu.cpp:558-580 | Difficulty cycles 1, 2, 3, 1 and lands in 1..3. The difficulty button is relabelled and still raises. Nothing else changes. |
| `Menus.DecreaseDifficulty` | menu.cpp:582-604 | Difficulty cycles 3, 2, 1, 3 and lands in 1..3. The difficulty button is relabelled and now lowers. Nothing else changes. |
| `Menus.DifficultyCycle` | menu.cpp:558-604 | Raising and lowering undo each other, three raises return to the start, and labels keep agreeing. |
| `Menus.PerformOnOptions` | menu.cpp:481-507 | The music, sound and difficulty buttons flip their setting or cycle the difficulty, and leave the other settings alone. Labels that agreed keep agreeing. Intents for the game leave the screen unchanged. |
| `Session.NewGame` | game.cpp:67-73 | The started session is valid. It shows the main menu while playing, with a live player at the start position, a fresh map, and zeroed results. |
| `Session.Tick` | game.cpp:153-197 | Off the play screens, or once the game is over or finished, nothing changes. The score never falls, and a dead player never revives. The screens keep agreeing with the outcome. |
| `Session.TickMeaning` | game.cpp:170-193 | For a player of the player's size, one play tick adds checkCollision's gain to the score. The level finishes exactly when a finish cell is touched, and the player lives. The game ends exactly when an obstacle and no finish cell is touched, and the player dies. The results are recorded. |
| `Session.TickKeepsSessionValid` | game.cpp:170-193 | A tick keeps the player's size and animation, the map's invariant and the screens' agreement. |
| `Session.TerminalStatesFrozen` | game.cpp:170-172 | After game over or level complete, ticks change nothing. |
| `Session.SetGameState` | game.cpp:338-358 | The play screen means playing, the game-over screen means game over, and the level-complete screen means finished. Every other screen leaves the play state alone, and nothing else changes. |
| `Session.OnlyPlayScreenRevives` | game.cpp:338-358 | From game over or finished, only the play screen brings the game back into play. |
| `Session.Quit` | game.cpp:360-362 | Clears `running` and nothing else. |
| `Session.Restart` | game.cpp:364-370 | A valid session in play, on the play screen, with a new game's player and map. `running` and the results are kept. |
| `Session.RestartIsNewGame` | game.cpp:364-370 | A restart is a new game switched to the play screen, whatever state came before. |
| `Session.Perform` | menu.cpp:289-402 | A screen button switches to its screen, keeping the player, map and loop. Exit stops the loop and changes nothing else. Retry starts a new player and map in play. The options screen's intents leave the game alone. No handler restarts a stopped loop or touches the results, and each keeps the screens in agreement with the play state. |
| `Session.PerformKeepsSessionValid` | game.cpp:338-370 | Every button handler keeps the session's invariant. |
| `Session.PerformRevives` | menu.cpp:388-402 | After game over or level complete, only the play-screen button and Retry bring the game back into play. Retry gives a new game on the play screen. |

## Left out

- Rendering of every kind is left out: `render` functions, textures, fonts, button colours, and the cell and player sprite frames. It is SDL drawing with no state the core reads.
- Event plumbing is left out: `Game::handleEvents`, `Game::run` and frame pacing, `init`, `clean`, `main`. So is `Menu::handleEvent` (menu.cpp:193-226): its key dispatch, and its mouse loop that offers the event to each button in turn and sets `selectedIndex` to the first that consumes it. The single-button handler `Menus.HandleButtonEvent` is modelled. These are I/O. The movement they trigger is modelled by `Entities.MoveLeft`, `Entities.MoveRight` and `Entities.Steer`.
- The initialisation of the main, pause, game-over and about menus is left out. It is button layout only. Only the options screen's is modelled.
- `GameOverMenu::setResults` is folded into `Session.Tick` as the `finalScore` and `finalDistance` fields.
- The `std::mt19937` engine and its distributions are replaced by the draw stream. Probabilities are not modelled.
- `Grid.Update`: requires that the stream still holds 43 draws for each row the update will generate. The source's engine never runs out.
- `Grid.NewGameMap` and `Session.Restart`: require 43 × 27 draws for the same reason.
- `Session.Tick`: requires a valid map with enough draws when the play-field advances, as `Grid.Update` does.
- The cell kind EMPTY is never stored in the grid, so its branch in the scan does nothing.
- `Rects.Intersects` is the stated behaviour of `SDL_HasIntersection`. It is an assumption about the library, not a proof.
- Float offsets: `scrollOffset` and the speeds are integers. The source's floats hold exact small integers here.
- `fmod` on the offset is `%`. The offset is never negative.
- The commented-out difficulty increase in `GameMap::update` is not modelled. Difficulty stays at its initial value 1.
- `Grid.GenerateRowNoStacking`: is proved only for difficulty at most 1. At higher difficulty the raised threshold could be beaten, but the source never raises the difficulty.
- Player texture ids and `setTextureID` are left out. They are presentation only.
- `Cell::update` does nothing and is not modelled.
- `getType`, `isCollected`, `isActive` and `getScrolledRows` are field reads of the datatypes.
- The options screen's music and sound flags change no audio. The source itself leaves that to be done.

## Findings

| source | as written | input that shows it | evidently intended | confidence | as-written member | corrected member |
|---|---|---|---|---|---|---|
| menu.cpp:256-263 | `selectCurrent` passes `handleEvent` a mouse-button event built from its type alone. Its button field is never set to `SDL_BUTTON_LEFT`: it is indeterminate, and 0 in practice. The handler runs only for `SDL_BUTTON_LEFT`, so selecting with the keyboard cannot be relied on to run a button's handler. | The options screen with "Music: ON" selected: `selectCurrent` toggles nothing. | Activate the selected button, as a left click on it does. | not executed | `Menus.SelectCurrentAsWritten` | `Menus.SelectCurrent` |
| menu.cpp:462-504 | The options screen starts with difficulty 1, which the screen itself names "Easy". Its difficulty button is first labelled "Difficulty: Normal". | A new options screen: the difficulty is 1, but the label reads "Normal". | The first label names the difficulty in force. | not executed | `Menus.NewOptionsAsWritten` | `Menus.NewOptions` |
