# Taxi and delivery driving game: a Dafny model of the game rules

The game is a single C++ file, `game.cpp`. The player drives a taxi or a
delivery car on a 17 x 17 city grid for three minutes:

- passengers (or boxes) stand next to the roads; pressing Enter beside one
  picks it up, and pressing Enter at the destination building delivers it;
- pressing Space beside a fuel station buys fuel;
- four computer-driven cars roam the roads, and touching one costs points.

The game ends when time runs out, the tank is empty, the score is negative
or the score reaches 100. A finished game may enter a ten-entry high-score
table.

This project models the rules of the game, leaving out drawing and sound:

- `Grid`: which cells are roads; the car-overlap test; what the two random
  position samplers accept.
- `Registry`: the slot registry that holds the pick-up items and fuel
  stations (`GameState`).
- `Player`: the player car's fuel, money and score, and the
  pick-up / drop-off state machine shared by the Taxi and the DeliveryCar.
- `Npc`: the computer-driven cars (`OtherCar::move`, `resetPosition`).
- `Leaderboard`: the high-score table (`sortHighScores`, and the
  insert-or-replace step of `Timer`).
- `Session`: the three input callbacks that change the game
  (`NonPrintableKeys`, `PrintableKeys`, `Timer`), as methods of a `Game`
  object that holds the globals.

Modelling conventions:

- **Fuel and money are counted in quarters.** In the source they are
  floats, but every change to them is a multiple of 0.25. So 4 stands for
  1.0, a key press costs 1 and a trip costs 4.
- **Random draws and the clock are parameters.** Each `rand() % 17` /
  `rand() % 4` value and each `glutGet(GLUT_ELAPSED_TIME)` reading is
  passed in.
- **A rejection loop is represented by the draw it accepts.** The method's
  `requires` states the loop's exact acceptance test. One round of
  `getRandomAdjacentBuildingPosition` is modelled in full by
  `Grid.TryBuildingDraw`.
- **Slots replace pointers.** The owning pointers of `GameState` become
  `Option` values in fixed-length arrays. `Passenger` and `Box` become one
  `PickupItem` datatype with a kind tag.
- **Taxi and DeliveryCar are one class.** Both become `PlayerCar` with a
  `role`, because their code differs only in messages and in the name of
  the flag, which is modelled as `carrying`.

## Model

| member | source | states |
|---|---|---|
| Grid.IsRoadCell | game.cpp:46-49 | inside the grid, a cell is road exactly when its row or column index is a multiple of 4 |
| Grid.Collides | game.cpp:40-43 | two cars overlap exactly when their corners are less than 20 apart in x and less than 40 apart in y |
| Grid.CollidesSymmetric | game.cpp:40-43 | the overlap test does not depend on argument order |
| Grid.IsAdjacentBuildingCell | game.cpp:65-69 | a cell passes the sampler's cell test exactly when it is a building cell that is not a block centre (both indices 2 mod 4) |
| Grid.TryBuildingDraw | game.cpp:61-83 | one round of the sampler returns a position exactly when the drawn cell passes the cell test and its corner is not occupied; the position is that corner |
| Grid.AcceptedBuildingPosition | game.cpp:61-83 | every accepted position is the corner of an in-grid building cell, has an in-grid road neighbour, and differs from every occupied position |
| Grid.BlockCentresHaveNoRoadNeighbour | game.cpp:65-70 | a block centre has no road among its four neighbours, so the sampler never returns one |
| Registry.FirstIndex | game.cpp:246-248 | the slot scan finds the lowest slot that meets the test, and finds none exactly when no slot does |
| Registry.FirstIndexIs | game.cpp:246-256 | a meeting slot with no earlier meeting slot is the one the scan finds (the early `break`) |
| Registry.ActiveItemsUpdate | game.cpp:108-117 | replacing one slot changes the number of active items by the active-flag difference of the old and new slot |
| Registry.GameState.constructor | game.cpp:180-183 | all four item slots and three station slots start empty, with no items in play |
| Registry.GameState.SetPickupItem | game.cpp:188 | an index in 0..3 replaces exactly that slot; any other index changes nothing |
| Registry.GameState.GetPickupItem | game.cpp:189 | an index in 0..3 yields that slot; any other index yields nothing |
| Registry.GameState.SetActivePickupItems | game.cpp:190 | a count in 0..4 is stored; any other count leaves the old count (no clamping) |
| Registry.GameState.GetActivePickupItems | game.cpp:191 | the count in play is always between 0 and 4 |
| Registry.GameState.SetFuelStation | game.cpp:192 | an index in 0..2 replaces exactly that station slot; any other index changes nothing |
| Registry.GameState.GetFuelStation | game.cpp:193 | an index in 0..2 yields that station slot; any other index yields nothing |
| Player.ClampAtZero | game.cpp:227-230 | the stored value is never negative, keeps a non-negative input, and turns a negative input into 0 |
| Player.RespawnTouchesLowestInactive | game.cpp:269-277 | a delivery changes at most one slot, namely the lowest picked-up slot in play, which becomes active at the new position; if such a slot exists, one more item is active |
| Player.PickUpThenDeliverKeepsPool | game.cpp:244-281 | picking up from an in-play slot and then delivering leaves the number of active items as it was |
| Player.PlayerCar.constructor | game.cpp:241-242 | the car (through the PlayerCar base constructor) starts with the given position, fuel and money, score 0, nothing aboard and an inactive destination |
| Player.PlayerCar.SetFuel | game.cpp:227 | the fuel becomes the new value clamped at zero |
| Player.PlayerCar.SetMoney | game.cpp:229 | the money becomes the new value clamped at zero |
| Player.PlayerCar.AddMoney | game.cpp:230 | the money becomes old money plus the amount, clamped at zero |
| Player.PlayerCar.AddScore | game.cpp:232 | the score grows by exactly the given points, which may be negative |
| Player.PlayerCar.Refuel | game.cpp:207-217 | succeeds exactly when money is at least 1.0; success adds 2.0 fuel (clamped) and subtracts 1.0 money; failure changes nothing; money stays non-negative and fuel stays above -1.0 |
| Player.PlayerCar.PickUp | game.cpp:244-259 | (DeliveryCar's copy is game.cpp lines 299-314) with fuel left and nothing aboard, the lowest active in-reach slot in play is deactivated, and the car loads, heads for the drawn building and burns 1.0 fuel without a clamp; otherwise nothing changes |
| Player.PlayerCar.DropOff | game.cpp:260-281 | (DeliveryCar's copy is game.cpp lines 315-336) delivers exactly when fuel is left, cargo is aboard and the active destination is in reach; then +20 score, +20 money, -1.0 fuel, the destination switches off and the lowest picked-up slot in play respawns at the drawn building; otherwise nothing changes |
| Npc.ReverseIsBackwards | game.cpp:356-361 | the reverse heading is the one heading whose 2 px displacement undoes the current one, and reversing twice is the identity |
| Npc.AsWrittenJunctionAllowsUTurn | game.cpp:369-375 | the heading the junction loop rejects, `(direction + 2) % 4`, is always perpendicular, so the U-turn passes; e.g. a car driving +y into cell (0, 4) with draw 1 turns back |
| Npc.StepIsOneStride | game.cpp:352-384 | one move either leaves the car in place or moves it exactly 2 px along one axis |
| Npc.StepLandsOnRoad | game.cpp:362-367 | a move that changes the position lands inside the field on an in-grid road cell |
| Npc.StepKeepsOnRoad | game.cpp:352-384 | a car on the road is still on the road after a move |
| Npc.StepKeepsHeading | game.cpp:356-383 | with draws in 0..3 the heading stays in 0..3, and every heading actually moves the car |
| Npc.StepAvoidsOppositeAtJunction | game.cpp:368-376 | as written: on entering a new intersection cell the car takes the junction draw, which is never `(direction + 2) % 4` |
| Npc.StepNeverReversesAtJunction | game.cpp:368-376 | on entering a new intersection cell, the car takes the junction draw, and with the corrected rejection test that draw is never a U-turn |
| Npc.ResetMayStillOverlap | game.cpp:385-406 | resetPosition compares corners only, so a reset car may still overlap the player: a player at (10, 640) accepts road cell (0, 16) |
| Npc.OtherCar.constructor | game.cpp:350-351 | the car starts at the given corner with the drawn heading in 0..3 |
| Npc.OtherCar.Move | game.cpp:352-384 | the new state is one step of the reference stepping function, whose properties are the Step lemmas; the junction draw is any heading but `(direction + 2) % 4`, as the loop accepts |
| Npc.OtherCar.ResetPosition | game.cpp:385-406 | the car moves to the accepted road cell, which is not the player's corner, and takes the drawn heading |
| Leaderboard.StoredName | game.cpp:669-670 | the stored name is the first min(19, length) characters of the player's name |
| Leaderboard.PlayerName | game.cpp:781-782 | the name is never empty and has at most 19 characters: an empty answer becomes "Anonymous", otherwise the answer is cut to 19 |
| Leaderboard.FirstMinIndex | game.cpp:675-680 | the index holds the lowest score, and no earlier record holds a score that low |
| Leaderboard.FirstMinUnique | game.cpp:675-680 | the first lowest record is unique, so the scan's result is determined |
| Leaderboard.InsertOrReplaceSpec | game.cpp:668-687 | a table with room grows by exactly the new record; a full table keeps ten records and either stays the same (new score not higher than every kept one) or swaps its first lowest record for the new one |
| Leaderboard.InsertOrReplaceRaisesFloor | game.cpp:674-687 | in a full table, no score falls below the old lowest score after an insertion |
| Leaderboard.Swap | game.cpp:484-486 | the two neighbouring records exchange places and nothing else changes |
| Leaderboard.BubblePass | game.cpp:482-488 | after one inner pass, the lowest record of the range is last, records past the range are untouched, and the range keeps its records as a multiset |
| Leaderboard.SortHighScores | game.cpp:480-490 | the first n records end up in non-increasing score order, as a permutation of the original ones, and later records are untouched |
| Leaderboard.FindMinIndex | game.cpp:675-680 | the scan returns the first index holding the lowest score |
| Leaderboard.Board.constructor | game.cpp:418-419 | the table starts empty with room for ten records |
| Leaderboard.Board.Record | game.cpp:668-688 | the table afterwards holds exactly the records of the insert-or-replace step (as a multiset) and is sorted by score |
| Session.Collisions | game.cpp:568-587 | the number of overlapping cars is at most the number of cars, and is zero exactly when no car overlaps the player |
| Session.CollisionsStep | game.cpp:568-587 | checking one more car adds one to the collision count exactly when that car overlaps the player |
| Session.CollisionsCountsOverlappingCars | game.cpp:568-587 | the collision count equals the number of distinct cars that overlap the player, so each overlapping car is charged exactly once |
| Session.ResolvedCarsStandApart | game.cpp:637-656 | each relocated car stands on a road cell with a valid heading, away from the player's corner and from every other car's corner |
| Session.Game.constructor | game.cpp:417-426 | the game starts neither over nor won, with the player, the four distinct cars, the table and the start time given |
| Session.Game.ResolveCollisions | game.cpp:635-659 | each overlapping car is relocated in order and costs 5 points, so the score falls by between 0 and 20; the sound plays exactly when some car overlapped |
| Session.Game.ResolveOne | game.cpp:568-572 | car k is relocated to its accepted draw and costs 5 points exactly when it overlaps the player; no other car moves |
| Session.Game.DriveTo | game.cpp:559-598 | a drivable target moves the car there and resolves collisions there; a building inside the field costs 4 points without moving; a target outside the field changes nothing |
| Session.Game.PressSpecialKey | game.cpp:552-601 | over: nothing happens. An arrow burns 0.25 fuel (clamped) and then the car drives as DriveTo states; any other key burns nothing |
| Session.Game.PressSpace | game.cpp:607-617 | refuels exactly when some station is in reach and money is at least 1.0; then +2.0 fuel and -1.0 money, otherwise nothing changes |
| Session.Game.PressEnter | game.cpp:618-628 | with nothing aboard, the whole effect of a pick-up and no delivery; with cargo aboard, the whole effect of a drop-off, delivered exactly when a drop-off is possible |
| Session.Game.PressPrintableKey | game.cpp:603-630 | exit status 0 once the game is over, 1 on Escape, otherwise none; Space refuels as PressSpace, Enter picks up or drops off as PressEnter, any other key changes nothing |
| Session.Game.MoveCars | game.cpp:508-513 | each of the four cars takes exactly one step |
| Session.Game.MoveAndCollide | game.cpp:634-659 | the cars take one step each, then every car that overlaps the player is relocated and costs 5 points |
| Session.Game.CheckEnd | game.cpp:660-690 | the game is over exactly when time is up, the tank is empty, the score is negative or it is at least 100; a win needs 100; an eligible finished score enters the sorted table, otherwise the table is unchanged |
| Session.Game.Tick | game.cpp:632-695 | over: nothing happens. Otherwise the cars drive, collisions are resolved with their penalties, and the end test and the high-score update apply to the resulting score |

## Findings

| source | as written | input that shows it | evidently intended | confidence | as-written member | corrected member |
|---|---|---|---|---|---|---|
| game.cpp:370-374 | the junction loop rejects heading `(direction + 2) % 4`, which with headings 0:+y, 1:-y, 2:-x, 3:+x is always a perpendicular heading | a car at (0, 158) heading 0 (+y) enters intersection cell (0, 4); draw 1 (-y) is accepted and the car turns straight back | reject the reverse heading (0 and 1 swap, 2 and 3 swap), so a car never U-turns at an intersection | high (not executed) | Npc.AsWrittenJunctionAllowsUTurn | Npc.StepNeverReversesAtJunction |

`Npc.OtherCar.Move` and the callers that drive the cars accept exactly the
junction draws the loop as written accepts, U-turns included;
`Npc.StepNeverReversesAtJunction` states what the corrected test would guarantee.

## Left out

- Drawing (`draw` methods, `Roads`, `GameDisplay`, the timer and score text), sound (SDL_mixer) and the mouse callbacks are not modelled: they change no game state.
- Console output (`cout` messages, the 'b' key message, `displayLeaderboard`) is not modelled.
- `loadHighScores` and `saveHighScores` are not modelled: they are file I/O. `Leaderboard.Board.constructor` is the table with no file present.
- The menu, the role choice and the name prompt of `main` read from standard input and are not modelled; only the name rule after the prompt is modelled, as `Leaderboard.PlayerName`.
- The initial placement in `main` (the four cars, three stations and two to four items via the samplers) is not modelled as a sequence. Its building of a valid `Session.Game` is left to the caller of `Session.Game.constructor`, which requires the resulting state.
- `exit(0)` and `exit(1)` in `PrintableKeys` become the returned exit status of `Session.Game.PressPrintableKey`.
- Re-arming the timer with `glutTimerFunc` is not modelled; each `Session.Game.Tick` is one timer call.
- The unbounded rejection loops (`getRandomRoadPosition`, `getRandomAdjacentBuildingPosition`, `resetPosition`, the junction do-while in `move`) are represented by the draw they accept. Their termination is not modelled.
- Fuel and money are exact quarters, not `float`. Rounding does not arise because every change to them is a multiple of 0.25.
- Pointer identity, `delete` and the possibility of aliasing between slots are not modelled; slots hold values.
- `dynamic_cast` dispatch in `PrintableKeys` is replaced by the single `carrying` flag of `Player.PlayerCar`.
- In three places the code does something one might not expect, and the model follows the code:
  - an arrow press that would leave the field costs fuel but no points;
  - `setActivePickupItems` ignores, rather than clamps, a count outside 0..4;
  - `resetPosition` only rejects an exactly equal corner, not an overlap.
- Leaderboard.PlayerName and Leaderboard.StoredName cut names at 19 characters; `std::string::substr` and `strncpy` cut at 19 bytes, so a name with multi-byte UTF-8 characters is cut differently (and possibly mid-character) in the source. Strings are modelled as character sequences without an encoding.
