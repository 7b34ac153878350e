# Forest Snake: game-state model

This project models the game logic of the single-file pygame snake game `snake-game/snake.py` and proves properties about it. The game has three parts:

- **Snake**: an ordered list of grid cells with the head first, a unit direction vector and a target `length`.
- **Food**: one cell. `respawn` moves it off the snake. It tries up to 100 random cells and then falls back to a column-major scan of the 20×20 grid.
- **Game**: owns the snake, the food, the score, the phase (`menu`, `playing`, `game_over`) and the main-loop flag. It reacts to direction keys and button clicks, and on each frame of play it moves the snake, lets it eat, and ends the game on a collision.

Layout:

- `grid.dfy` (module `Grid`): cells, grid constants, direction vectors, column-major order.
- `snake.dfy` (module `SnakeEntity`): class `Snake`, whose methods update `positions`, `direction` and `length` in place, and `Moved`, the function that specifies one step.
- `food.dfy` (module `FoodEntity`): class `Food`, whose `Respawn` keeps the source's retry loop and nested scan. It is specified by `Respawned`, which is built from `FirstFreeDraw` (the random attempts) and `ScanFrom` (the fallback scan).
- `game.dfy` (module `GameController`): `Steer` (the direction-key guard) and class `Game`, with `KeyDown`, `Click`, `Quit` and `Tick`.

Randomness is an input. Each respawn receives `draws`: the 100 on-grid cells that `random_position` would have produced. The random attempts use them in order.

`Game.Valid` carries an invariant that the source does not state. While the game is playing, the food is not on the snake unless the snake covers the whole grid. Every operation keeps it, and `TickKeepsFoodClear` is the proof for the tick.

Three behaviours of `snake.py` are worth stating plainly:

- The fallback scan in `respawn` is column-major: `x` is the outer loop and `y` the inner one (`snake.py:99-103`). `RespawnScansColumnMajor` states this order.
- On a full grid, `respawn` falls out of both loops and leaves the food where it was (`snake.py:99-103`). `RespawnAvoidsSnake` states this.
- A snake that eats does not get longer on that tick, because the tick calls `move` before `grow` (`snake.py:267-272`). The extra cell appears on the next move. From the start, with the first food three cells to the right, the body after the third tick is `[(13,10)]` with length 2. After the fourth tick it is `[(14,10),(13,10)]`. `EatOnThirdTick` states this.

## Model

| member | source | states |
|---|---|---|
| SnakeEntity.Moved | snake-game/snake.py:63-69 | The new head is the old head plus the direction. The rest of the body is a prefix of the old body. The body gains a cell while it is shorter than `length` and otherwise keeps its size (it loses exactly its tail). So `len <= length` is preserved, and a body at full length stays at full length. |
| SnakeEntity.Snake.constructor | snake-game/snake.py:55-61 | A new snake is in its reset state: body `[(10,10)]`, direction `(1,0)`, length 1. |
| SnakeEntity.Snake.Reset | snake-game/snake.py:58-61 | Body `[(GRID_WIDTH//2, GRID_HEIGHT//2)]` = `[(10,10)]`, direction `(1,0)`, length 1, and the snake invariant holds. |
| SnakeEntity.Snake.Move | snake-game/snake.py:63-69 | The body becomes `Moved(old body, direction, length)`. Direction and length are untouched, and `1 <= len(positions) <= length` is kept. |
| SnakeEntity.Snake.Grow | snake-game/snake.py:71-72 | `length` goes up by exactly 1. Nothing else changes, so the body is unchanged. |
| SnakeEntity.Snake.CollidesWithSelf | snake-game/snake.py:74-75 | True exactly when the head equals some body cell at index 1 or later. |
| SnakeEntity.Snake.CollidesWithWall | snake-game/snake.py:77-80 | True exactly when the head is outside `[0,20) × [0,20)`. |
| SnakeEntity.GrowthShowsOnNextMove | snake-game/snake.py:63-72 | After `grow` raises the target length by one, the next move adds exactly one cell to any body no longer than the old length, whatever the direction. |
| FoodEntity.FirstFreeDraw | snake-game/snake.py:91-98 | The attempt loop finds nothing exactly when every remaining draw is occupied. Otherwise it returns an unoccupied draw, and every draw before it is occupied. |
| FoodEntity.ScanFrom | snake-game/snake.py:99-103 | The nested scan returns an on-grid, unoccupied cell at or after its start in column-major order, and every on-grid cell between the start and that cell is occupied. When it finds nothing, every on-grid cell from the start onwards is occupied. |
| FoodEntity.RespawnAvoidsSnake | snake-game/snake.py:90-103 | If some grid cell is free, the respawned food is on the grid and not on the snake. If the grid is full, the food stays where it was. |
| FoodEntity.RespawnTakesFirstFreeDraw | snake-game/snake.py:93-97 | If some random draw is free, the food goes to a draw that is free and every draw before it is occupied: the first free draw. |
| FoodEntity.RespawnScansColumnMajor | snake-game/snake.py:99-103 | When all 100 draws are occupied and the grid is not full, the food goes to the first free cell in x-then-y order. |
| FoodEntity.Food.constructor | snake-game/snake.py:83-88 | The first food is at the on-grid cell that `random_position` supplied. |
| FoodEntity.Food.Respawn | snake-game/snake.py:90-103 | The retry loop, then the nested scan, then the fall-through leave `position == Respawned(old position, snake body, draws)`. |
| GameController.Steer | snake-game/snake.py:233-240 | A direction key sets its vector unless that vector is the exact opposite of the stored direction, in which case it is ignored. Other keys change nothing. From a unit direction the result is a unit direction that is never the reverse. |
| GameController.TwoKeysCanReverse | snake-game/snake.py:228-240 | Keys are checked one event at a time against the stored direction. So from every direction some pair of keys pressed within one frame ends on the opposite direction. |
| GameController.TickKeepsFoodClear | snake-game/snake.py:267-274 | A playing tick that does not end the game leaves the food off the new body, unless that body covers the grid. This holds whether the head missed the food or ate it and the food was respawned. |
| GameController.Game.constructor | snake-game/snake.py:107-115 | The game starts in the menu with score 0, the main loop running, a reset snake and the food at the supplied cell. |
| GameController.Game.KeyDown | snake-game/snake.py:231-240 | While playing, the snake's direction becomes `Steer(old direction, key)`. In other phases nothing changes. |
| GameController.Game.Click | snake-game/snake.py:246-265 | Start in the menu and Retry in game-over both reset the snake, respawn the food against `[(10,10)]`, set score 0 and enter playing. Main Menu in game-over enters the menu and changes nothing else. Exit in the menu stops the loop. Every other click, including any click while playing, changes nothing. |
| GameController.Game.Quit | snake-game/snake.py:229-230 | Closing the window stops the main loop. |
| GameController.Game.Tick | snake-game/snake.py:267-274 | Outside playing, nothing changes. While playing, the body becomes `Moved(old body, …)`. If the new head is on the food, `length` goes up by 1, the food is respawned against the new body and the score goes up by exactly 10; otherwise length, food and score are unchanged. The phase becomes game-over exactly when a collision predicate holds afterwards. The score stays a non-negative multiple of 10, and while playing the food stays off the snake unless the snake covers the whole grid. |
| GameController.EatOnThirdTick | snake-game/snake.py:267-272 | From the start, with the first food at (13,10), three ticks leave body `[(13,10)]`, length 2 and score 10. A fourth tick leaves body `[(14,10),(13,10)]`. |

## Left out

- Rendering is not modelled: all `draw_*` methods, colours, gradients, `pygame.display` and surfaces (`snake.py:131-222`, `276-283`).
- Font loading and the font-file existence check are not modelled (`snake.py:36-51`). They are I/O.
- Event polling, mouse-hover tracking and rectangle hit-testing are not modelled (`snake.py:228`, `241-249`). A click is an abstract `Button`. The start/retry rectangles coincide, and so do the exit/main-menu rectangles. The click loop at `snake.py:248-265` re-reads the phase for each button. For the start/retry pair the order does not matter: whichever of the two acts leads to playing, where no button does anything. For the exit/main-menu pair it does matter. The button dictionary at `snake.py:123-128` lists `exit` before `main_menu`, so a game-over click on the lower rectangle only returns to the menu. With `main_menu` first, that click would return to the menu and then also act as Exit. `Click` models the dictionary's actual order, where every click acts as exactly one button.
- The main loop itself is not a method. Its local flag `running` (`snake.py:225`) is modelled as the field `Game.running`, which the constructor sets. `Game.run` handles each pending event (`KeyDown`, `Click`, `Quit`) in order and then runs `Tick`; the model offers these operations one by one. `run` resetting the phase to `menu` on entry is covered by the constructor.
- Frame timing (`clock.tick`, FPS) and the asyncio/Emscripten entry point are not modelled (`snake.py:284-295`). They are scheduling, not logic.
- The uniform distribution of `random.randint` is not modelled. The draws are arbitrary on-grid cells supplied by the caller, and the model states no probability.
- The arrow keys and their WASD twins are merged: each `Key` constructor stands for both keys of its pair.
