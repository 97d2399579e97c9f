# PaintBall game engine in Dafny

A model of the engine of a turn-based paintball game played on a grid.
Teams of coloured players (red, green, blue) fight over bunkers. A team's
turn is one of three commands: recruit a player in one of its bunkers,
move one of its players, or attack with all of them. Bunkers earn one
coin per turn. A bunker changes hands when an enemy player enters or
attacks its cell. A fight between two players is settled by their colours
alone: red beats blue, blue beats green, green beats red, and in a mirror
match the attacker wins.

The repository holds two generations of the engine that do not compile
together. They are modelled as separate modules and share only generic
list lemmas.

- `Scans` (`scans.dfy`): the attack patterns of the newer generation, as
  pure functions of the attacker's position and the field size. Red sweeps
  the rectangle down and to the right of it. Blue sweeps its row,
  alternating left and right. Green sweeps both diagonals, taking the four
  rays in turn.
- `Paintball` (`paintball.dfy`): the newer generation on object references.
  It has a grid of cells (`Field`), teams with ordered rosters of players
  and buildings (`Team`), and players (`Player`) that move one cell at a
  time and engage cells. Each colour's `attack` loop is proved to engage
  exactly the cells its scan in `Scans` lists, in that order, to leave
  no enemy on them, save the one the player lost on, and to move no
  building and no player on any other cell but its own.
  `Field.Consistent()` states that cells, players, buildings and teams
  point at each other correctly. Every player operation keeps it.
- `Legacy` and `LegacyGame` (`legacy.dfy`, `legacy_game.dfy`): the older
  generation, which addresses players and bunkers by coordinates and team
  names. It holds the whole turn engine (`PaintballGame`): recruiting,
  moving, the team attack, removing the teams left with nothing, turn
  rotation with per-turn income, and game over. `PaintballGame.Valid()`
  ties the field, the team rosters and the players' own coordinates and
  team names together. Recruiting, the team attack, the sweep and the turn
  rotation preserve it, and in return never dereference null and never
  remove a roster entry that is absent. A move preserves it too, except
  after a fight lost on a later step of a multi-step move: the source then
  clears the mover's first cell instead of its own (PaintballGame.java:286),
  and the move's contract says "consistent, or haunted by the mover".
- `Rosters` (`rosters.dfy`): removing the first occurrence from a roster,
  filtering a list, and the facts about both that the two generations use.

## Model

| member | source | states |
|---|---|---|
| Scans.RedScan | src/game/players/RedPlayer.java:18-19 | a red attacker at (x, y) attacks (W-x+1)(H-y+1)-1 cells |
| Scans.RedScanInRectangle | src/game/players/RedPlayer.java:19-20 | every attacked cell has column in [x, W] and row in [y, H], and it is never the attacker's own cell |
| Scans.RedScanRowMajor | src/game/players/RedPlayer.java:19-20 | the cells come in strict row-major order: by row, then by column within a row |
| Scans.RedScanDistinct | src/game/players/RedPlayer.java:19-20 | no cell is attacked twice |
| Scans.RedScanCovers | src/game/players/RedPlayer.java:18-20 | every cell of the rectangle except the attacker's own is attacked |
| Scans.BlueScan | src/game/players/BluePlayer.java:18-28 | a blue attacker attacks W-1 cells, all in its own row |
| Scans.BlueAlternates | src/game/players/BluePlayer.java:19-27 | while both sides of the row still have cells, the columns are x-1, x+1, x-2, x+2, ... (left first) |
| Scans.BlueRightExhausted | src/game/players/BluePlayer.java:21-22 | once the right side is used up, attack i hits column W-i, one further left each time |
| Scans.BlueLeftExhausted | src/game/players/BluePlayer.java:23-24 | once the left side is used up, attack i hits column i+1, one further right each time |
| Scans.BlueColumnInverse | src/game/players/BluePlayer.java:19-28 | every attack hits a column of the row in 1..W other than x, and BlueIndex gives back its attack number |
| Scans.BlueIndexInverse | src/game/players/BluePlayer.java:19-28 | every column other than x is hit by the attack whose number BlueIndex gives |
| Scans.BlueScanPermutation | src/game/players/BluePlayer.java:18-28 | the attacked columns are a permutation of 1..W without x: in bounds, never the attacker's cell, none twice, all present |
| Scans.RayCellOnField | src/game/players/GreenPlayer.java:18-34 | a cell no further out on a diagonal ray than that ray's length (the min of the distances to the two borders) lies on the field |
| Scans.RayCellInjective | src/game/players/GreenPlayer.java:31-33 | two different (ray, distance) visits reach different cells, and none of them is the attacker's own cell |
| Scans.ReachedStep | src/game/players/GreenPlayer.java:28-30 | try j of round i takes ray (i+j) mod 4; the ray's counter then stands at min(length, i) and goes up by one exactly when the ray is longer than i; no other counter changes |
| Scans.RoundPartFacts | src/game/players/GreenPlayer.java:27-30 | round r holds exactly the visits at distance r+1 on the rays longer than r, in cyclic order from ray r mod 4 |
| Scans.RoundsFacts | src/game/players/GreenPlayer.java:26-37 | rounds 0..n-1 hold exactly the visits (d, k) with 1 <= k <= min(n, length of ray d), ordered by distance, then by place in the round |
| Scans.RoundsSize | src/game/players/GreenPlayer.java:24-30 | rounds 0..n-1 make as many visits as the sum over the rays of min(length, n) |
| Scans.GreenScanFacts | src/game/players/GreenPlayer.java:16-39 | a green attacker makes as many attacks as its four ray lengths add up to; each is on the field and never its own cell; no cell is attacked twice; no ray is followed beyond its length |
| Scans.GreenScanCovers | src/game/players/GreenPlayer.java:16-39 | every field cell on either diagonal through the attacker, other than its own, is attacked |
| Paintball.ColorFromName | src/game/players/Player.java:196-203 | a colour is returned only for that colour's own lower-case name |
| Paintball.ColorNameRoundTrip | src/game/players/Player.java:196-203 | parsing a colour's name gives the colour back, and no other word gives that colour |
| Paintball.DirectionFromName | src/game/players/Player.java:218-226 | a direction other than INVALID is returned only for that direction's own lower-case name |
| Paintball.DirectionNameRoundTrip | src/game/players/Player.java:218-226 | parsing a direction's name gives the direction back, and no other word gives that direction |
| Paintball.Cost | src/game/players/RedPlayer.java:46-49 | every colour costs a positive number of coins, and 4 exactly for red (blue and green cost 2, BluePlayer.java:58-60 and GreenPlayer.java:57-59) |
| Paintball.Fight | src/game/players/BluePlayer.java:45-50 | the attacker wins exactly when the defender has its own colour or the one it beats (blue beats green; red beats blue and green beats red as in PaintballGame.java:363-366) |
| Paintball.FightIsATriangle | src/game/PaintballGame.java:359-369 | a mirror match goes to the attacker, and of two different colours exactly one beats the other, whoever attacks |
| Paintball.Offset | src/game/players/Player.java:69-76 | each of the four directions moves by one along exactly one axis; INVALID does not move |
| Paintball.Team.constructor | src/game/PaintballTeam.java:27-29 | a new team has the given name and empty rosters |
| Paintball.Team.IsEmpty | src/game/PaintballTeam.java:32-34 | a team is empty exactly when both rosters are empty |
| Paintball.Team.AddPlayer | src/game/PaintballTeam.java:42-45 | the player is appended to the roster and points back at the team |
| Paintball.Team.RemovePlayer | src/game/PaintballTeam.java:47-50 | the player's first occurrence leaves the roster, the others keep their order, and the player has no team |
| Paintball.Team.AddBuilding | src/game/PaintballTeam.java:52-55 | the building is appended to the roster and points back at the team |
| Paintball.Team.RemoveBuilding | src/game/PaintballTeam.java:57-60 | the building's first occurrence leaves the roster, the others keep their order, and the building has no team |
| Paintball.Field.constructor | src/game/PaintballField.java:27-34 | the grid has the given size; every cell is new and empty and knows its own 1-based coordinates |
| Paintball.Field.CellAt | src/game/PaintballField.java:76-78 | within 1..W by 1..H, the cell returned has the requested coordinates and is the grid's own cell there |
| Paintball.Field.SetPlayerAt | src/game/PaintballField.java:48-52 | the cell at (x, y) holds the player (or nobody, for null) and is returned; only that cell's player slot changes |
| Paintball.Field.RemovePlayerAt | src/game/PaintballField.java:55-59 | the result tells whether a player was there, and the slot is empty afterwards |
| Paintball.Field.SetBuildingAt | src/game/PaintballField.java:62-66 | the cell at (x, y) holds the building and is returned; only that cell's building slot changes |
| Paintball.Field.RemoveBuildingAt | src/game/PaintballField.java:69-73 | the result tells whether a building was there, and the slot is empty afterwards |
| Paintball.Field.Relocate | src/game/players/Player.java:112-113 | the mover leaves its cell for the empty target cell; no other cell's player changes and the field stays consistent |
| Paintball.Field.Eliminate | src/game/players/Player.java:157-162 | the loser of a fight leaves its cell and its team's roster, nothing else changes, and the field stays consistent |
| Paintball.Field.TransferBuilding | src/game/players/Player.java:167-169 | the building leaves its old owner's roster, if it has one, and is appended to the new team's roster; the field stays consistent |
| Paintball.Player.SetFieldLocation | src/game/players/Player.java:133-136 | the player stands on the cell at (x, y) of the field; placing a rostered player on an empty cell keeps a consistent field consistent |
| Paintball.Player.NextCellInDirection | src/game/players/Player.java:68-81 | the result is null exactly when the neighbouring position lies outside 1..W by 1..H; otherwise it is the cell at that position |
| Paintball.Player.AttackCell | src/game/players/Player.java:150-174 | Engaged: a teammate gives NOTHING and changes nothing at all; against an enemy the status is PLAYER_ELIMINATED exactly when the attacker loses, and WON_FIGHT or WON_AND_SEIZED exactly when it wins; BUNKER_SEIZED or WON_AND_SEIZED exactly when the attacker survives and the cell has a building its team does not own. The loser leaves its cell and is cut from its roster (first occurrence), a seized building leaves its old owner's roster for the end of the attacker's; every other cell, roster and object is unchanged, status by status |
| Paintball.Player.SeizeBuilding | src/game/players/Player.java:166-172 | a building on the cell owned by another team or by none passes to the end of the player's team's roster and leaves its old owner's; the status turns NOTHING into BUNKER_SEIZED and WON_FIGHT into WON_AND_SEIZED exactly then, and otherwise nothing changes |
| Paintball.Player.Engage | src/game/players/RedPlayer.java:20-21 | one engagement of an attack: the player is eliminated and off its cell, or keeps its cell and team; if no enemy of the player's team stood on the cells engaged so far, none does afterwards, the cell just engaged included unless the player lost there; only that cell and the player's own may change player, and no cell changes building |
| Paintball.Player.MoveDefault | src/game/players/Player.java:97-115 | DefaultMove: INVALID_DIRECTION exactly for the invalid direction, OFF_THE_MAP exactly when the neighbour is off the grid, POSITION_OCCUPIED for a teammate there, each with the old cell and nothing changed; otherwise the next cell is engaged with every effect AttackCell states (Engaged), and the player either is eliminated (the action carries the old cell) or leaves its cell for the next one; nothing outside the two cells, the two players, the building and their teams changes. Stepped keeps only the part a later step needs: the two refusals that depend on the direction and the grid, and where the player ends |
| Paintball.Player.RedAttack | src/game/players/RedPlayer.java:16-24 | the cells engaged are a prefix of the red scan: all of it and SURVIVED with the player in place, or up to the engagement the player lost and PLAYER_ELIMINATED with the player off its cell and team; afterwards no cell engaged holds an enemy of the player's team, save the one it lost on; every cell keeps its building, and every cell neither engaged nor the player's own keeps its player (KeptOutside) |
| Paintball.Player.BlueAttack | src/game/players/BluePlayer.java:16-32 | the cells engaged are a prefix of the blue scan: all of it and SURVIVED with the player in place, or up to the engagement the player lost and PLAYER_ELIMINATED with the player off its cell and team; afterwards no cell engaged holds an enemy of the player's team, save the one it lost on; every cell keeps its building, and every cell neither engaged nor the player's own keeps its player (KeptOutside) |
| Paintball.Player.NextBlueColumn | src/game/players/BluePlayer.java:19-28 | the column the loop computes for attack i is the blue scan's |
| Paintball.Player.GreenAttack | src/game/players/GreenPlayer.java:16-39 | the cells engaged are a prefix of the green scan: all of it and SURVIVED with the player in place, or up to the engagement the player lost and PLAYER_ELIMINATED with the player off its cell and team; afterwards no cell engaged holds an enemy of the player's team, save the one it lost on; every cell keeps its building, and every cell neither engaged nor the player's own keeps its player (KeptOutside) |
| Paintball.Player.GreenRounds | src/game/players/GreenPlayer.java:26-37 | the outer loop, from round 0 with every ray counter at 0, engages a prefix of the green scan (all of it when the player survives) and leaves no enemy on the cells engaged, save the one the player lost on; against the grid as it was before the attack, every cell keeps its building and every cell neither engaged nor the player's own keeps its player (KeptSince) |
| Paintball.Player.DiagonalLengths | src/game/players/GreenPlayer.java:18-24 | the array holds the four ray lengths and the count is their sum |
| Paintball.Player.GreenRound | src/game/players/GreenPlayer.java:27-37 | one pass of the outer loop follows round i of the scan, or a prefix of it up to the player's elimination, leaves the counters where round i+1 starts, and keeps the cells engaged free of enemies; the grid changes only on the cells engaged and the player's own, and no building moves (KeptSince) |
| Paintball.Player.GreenStep | src/game/players/GreenPlayer.java:28-35 | one pass of the inner loop extends the round by exactly the visit the scan defines for try j, and keeps the cells engaged free of enemies; the grid changes only on the cells engaged and the player's own, and no building moves (KeptSince) |
| Paintball.Player.GreenTry | src/game/players/GreenPlayer.java:30-35 | the ray's counter goes one further, the cell engaged is the one at that distance on the ray, and the cells engaged so far stay free of enemies; the grid changes only on the cells engaged and the player's own, and no building moves (KeptSince) |
| Paintball.Player.NextOnRay | src/game/players/GreenPlayer.java:30-33 | the ray's counter goes one further and the cell returned is the grid's cell at that distance on the ray |
| Paintball.Player.Attack | src/game/players/Player.java:38 | whatever the colour, the cells engaged are a prefix of that colour's scan (AttackScan: red, blue or green): all of it and SURVIVED with the player in place, or PLAYER_ELIMINATED with the player off its cell and team; no cell engaged holds an enemy afterwards, save the one the player lost on; every cell keeps its building, and every cell neither engaged nor the player's own keeps its player (KeptOutside) |
| Paintball.Player.RedMove | src/game/players/RedPlayer.java:27-39 | fewer than 1 or more than 3 directions give one INVALID_MOVE and change nothing; otherwise Walked: one action per direction, in order, stopping right after the first PLAYER_ELIMINATED, each one Stepped from where the previous one ended (INVALID_DIRECTION exactly for an invalid direction, OFF_THE_MAP exactly off the grid, refused and lost steps stay put, the others stand on the neighbouring cell), and a surviving player stands where the last action says |
| Paintball.Player.RedStep | src/game/players/RedPlayer.java:34-36 | one pass of the red move's loop appends exactly one action, a default step Stepped from where the previous action ended |
| Paintball.Player.SingleMove | src/game/players/BluePlayer.java:35-42 | a number of directions other than one gives one INVALID_MOVE and changes nothing; exactly one gives MoveDefault's action and effect for that direction (DefaultMove), and the player stands where the action says unless eliminated (GreenPlayer.java:42-49 is the same) |
| Paintball.Player.Move | src/game/players/Player.java:48 | a number of directions outside 1..MaxSteps (3 for red, 1 for blue and green) gives one INVALID_MOVE and changes nothing; otherwise the actions are Walked along the directions, a blue or green step has MoveDefault's effect (DefaultMove), and a surviving player stands where the last action says |
| Paintball.WalkedReach | src/game/players/RedPlayer.java:33-37 | action k of a move stands at most k+1 cells (rows plus columns) from where the move started: each default step goes at most one cell |
| Rosters.RemoveFirstFacts | src/game/Team.java:94-97 | removing by searchIndexOf and removeAt cuts the roster around the first occurrence: one element fewer, one copy of it fewer |
| Rosters.RemoveFirstKeeps | src/game/Team.java:76-79 | removing one roster entry keeps every other one |
| Rosters.RemoveFirstDistinct | src/game/Team.java:94-97 | in a roster without repeats, removal takes out the element and nothing else and keeps the roster free of repeats |
| Rosters.AddThenRemove | src/game/Team.java:85-97 | adding an absent player and then removing it gives back the roster |
| Rosters.KeptMembers | src/game/PaintballGame.java:202-210 | the filter keeps an element exactly when it is not dropped |
| Rosters.KeptSize | src/game/PaintballGame.java:202-210 | filtering n elements leaves n minus the dropped ones |
| Legacy.Cost | src/game/PaintballGame.java:176 | every real colour costs a positive number of coins, 4 exactly for red (RedPlayer.java:48, BluePlayer.java:59, GreenPlayer.java:58) |
| Legacy.MaxMoves | src/game/PaintballGame.java:252 | every real colour may take 1 to 3 directions per move, more than one only red (RedPlayer.java:29, BluePlayer.java:37, GreenPlayer.java:44) |
| Legacy.Fight | src/game/PaintballGame.java:359-369 | a mirror match, and the colourless attacker of the default branch, win |
| Legacy.FightIsATriangle | src/game/PaintballGame.java:359-369 | red beats blue, blue beats green, green beats red; of two different colours exactly one beats the other |
| Legacy.StepFrom | src/game/PaintballGame.java:261-263 | a step in a real direction moves by one along exactly one axis; INVALID does not move |
| Legacy.Entity.constructor | src/game/Entity.java:21-24 | the entity is at (x, y) and names no team |
| Legacy.Entity.Owned | src/game/Entity.java:31-34 | the entity is at (x, y) and names the given team |
| Legacy.Entity.SetTeamName | src/game/Entity.java:48-50 | only the team name changes, to the value given |
| Legacy.Entity.SetX | src/game/Entity.java:64-66 | only x changes, to the value given |
| Legacy.Entity.SetY | src/game/Entity.java:80-82 | only y changes, to the value given |
| Legacy.Bunker.constructor | src/game/Bunker.java:23-27 | treasury, position and name are stored and no team owns the bunker |
| Legacy.Bunker.SetName | src/game/Bunker.java:33-35 | only the name changes, to the value given |
| Legacy.Bunker.SetTreasury | src/game/Bunker.java:53-55 | only the treasury changes, to the value given |
| Legacy.Bunker.EndTurn | src/game/Bunker.java:45-47 | the treasury grows by exactly one coin and nothing else changes |
| Legacy.Team.constructor | src/game/Team.java:27-29 | a new team has the given name and empty rosters |
| Legacy.Team.IsEmpty | src/game/Team.java:35-37 | a team is empty exactly when it holds no bunker and no player |
| Legacy.Team.AddBunker | src/game/Team.java:67-70 | the bunker is appended and takes the team's name; the team is no longer empty |
| Legacy.Team.RemoveBunker | src/game/Team.java:76-79 | the bunker's first occurrence leaves the roster, which shrinks by one, and the bunker names no team |
| Legacy.Team.AddPlayer | src/game/Team.java:85-88 | the player is appended and takes the team's name; the team is no longer empty |
| Legacy.Team.RemovePlayer | src/game/Team.java:94-97 | the player's first occurrence leaves the roster, which shrinks by one, and the player names no team |
| Legacy.Player.constructor | src/game/PaintballGame.java:189-191 | a new player has the colour, the position and the team name it is given |
| Legacy.Player.Step | src/game/PaintballGame.java:261-263 | the player's position becomes the one StepFrom gives for the direction |
| Legacy.FindTeam | src/game/PaintballGame.java:70-76 | a team found is one of the game's teams and has the name asked for |
| Legacy.FindTeamOwn | src/game/PaintballGame.java:70-76 | with distinct names, every team is found by its own name |
| Legacy.FindBunker | src/game/PaintballGame.java:166-174 | a bunker is found exactly when one has the name; it is one of the bunkers and has that name |
| Legacy.BuiltFacts | src/game/PaintballGame.java:55-62 | building bunkers in order puts a bunker exactly at the positions of those built, and at each position the last one built there |
| Legacy.BuiltCovers | src/game/PaintballGame.java:55-62 | after the bunkers are built, the position of every one of them holds a bunker |
| Legacy.RecruitVerdict | src/game/PaintballGame.java:164-197 | each refusal (colour, bunker name, owner, occupied, coins) holds exactly when the earlier checks pass and its own fails, and a player is created exactly when all pass |
| Legacy.NonEmptyMembers | src/game/PaintballGame.java:202-210 | after the sweep, the teams left are exactly those that hold a bunker or a player |
| Legacy.NonEmptyKeeps | src/game/PaintballGame.java:202-210 | the teams left keep distinct names, and a team that holds something is still found by its name |
| Legacy.TurnIndexStep | src/game/PaintballGame.java:204-207 | removing team k lowers the turn index exactly when k is at or before the current team |
| Legacy.TurnIndexAfterSweep | src/game/PaintballGame.java:202-210 | a turn index in range ends between -1 and the number of teams left |
| Legacy.MoveVerdict | src/game/PaintballGame.java:245-252 | each refusal (position, no player, other team, number of directions) holds exactly when the earlier checks pass and its own fails; the move goes ahead exactly when all pass |
| Legacy.StepKindOf | src/game/PaintballGame.java:257-289 | a step is refused for an invalid direction, a target off the map or a teammate there; it is lost to an enemy the mover does not beat; it enters the cell otherwise, after a won fight when the cell was occupied |
| Legacy.ArrivalResponse | src/game/PaintballGame.java:272-298 | the event says whether a fight was won and whether a bunker was seized, and MOVE_SUCCESS means neither |
| Legacy.StepLog | src/game/PaintballGame.java:300-301 | the log of a step ends with the position reached and the mover's colour, preceded by its event unless that is MOVE_SUCCESS |
| Legacy.KeptOffStep | src/game/PaintballGame.java:256-301 | one more step of a walk changes the field only on the cells the walk, with that step, has visited |
| Legacy.StepEntries | src/game/PaintballGame.java:256-301 | a step adds at least one log entry; it reports PLAYER_ELIMINATED exactly for a lost fight, GAME_OVER only as a refusal, and an entered cell last, with the mover's colour |
| Legacy.MoveExtends | src/game/PaintballGame.java:255-302 | one more step extends the walk by that step (refused steps stay put) and the log by that step's entries alone |
| Legacy.MoveLogNoGameOver | src/game/PaintballGame.java:255-302 | the log of a move never reports GAME_OVER unless a refusal names it |
| Legacy.MoveLogLength | src/game/PaintballGame.java:255-302 | every step adds at least one entry to the log of a move |
| Legacy.MoveLogEliminated | src/game/PaintballGame.java:284-288 | the log of a move reports PLAYER_ELIMINATED exactly when one of its steps was a lost fight |
| Legacy.EncounterOf | src/game/PaintballGame.java:330-342 | an attacked cell holds nobody, a teammate, an enemy the attacker beats, or one that beats the attacker, and exactly one of these |
| Legacy.AttackStatus | src/game/PaintballGame.java:311-315 | the answer tells whether the attacking team was emptied and whether the game is over, and ATTACK_SUCCESS means neither |
| LegacyGame.PaintballGame.constructor | src/game/PaintballGame.java:49-63 | one empty team per name, in order; every bunker is kept, and an unowned one is listed as abandoned; the bunkers are built on the field, the last one at a position standing there (bunkerAt == Built(bunkers, n)); the game is consistent and the first team has the turn |
| LegacyGame.PaintballGame.NewTeams | src/game/PaintballGame.java:53-54 | one fresh team with empty rosters per name, in the names' order, so the team names are distinct |
| LegacyGame.PaintballGame.StartValid | src/game/PaintballGame.java:49-54 | a game whose teams are empty and whose field is empty is consistent |
| LegacyGame.PaintballGame.BuildBunkers | src/game/PaintballGame.java:55-62 | the constructor's loop lists every bunker in order, builds each at its position (bunkerAt == Built(bunkers, n), the last one built at a position standing there), keeps each bunker's owner, lists as abandoned only unowned bunkers, and keeps the game consistent |
| LegacyGame.PaintballGame.BuildBunker | src/game/PaintballGame.java:56-61 | a bunker joins its team's roster or the abandoned bunkers, the list of all bunkers and the field; the game stays consistent |
| LegacyGame.PaintballGame.GetTeam | src/game/PaintballGame.java:70-76 | the first team with the name, or null for no name or an unknown one |
| LegacyGame.PaintballGame.IsGameOver | src/game/PaintballGame.java:212 | the game is over exactly when the list of teams is a single team |
| LegacyGame.PaintballGame.Winner | src/game/PaintballGame.java:212-218 | there is a winner exactly when the game is over, and it is then the only team left |
| LegacyGame.PaintballGame.NextTurn | src/game/PaintballGame.java:220-227 | the turn passes to the next team, wrapping to 0, and every bunker, owned or not, gains one coin per time it is listed |
| LegacyGame.PaintballGame.PayIncome | src/game/PaintballGame.java:224-226 | every bunker of the game gains one coin per time it is listed |
| LegacyGame.PaintballGame.RemoveEmptyTeams | src/game/PaintballGame.java:202-210 | the teams left are the ones that hold something, in their order; the turn index drops by one per team removed at or before it, so it may reach -1; consistency is kept |
| LegacyGame.PaintballGame.SweepEmptyTeams | src/game/PaintballGame.java:202-210 | the loop leaves exactly the teams that hold something, in order, and lowers the turn index by the number of empty teams at or before it |
| LegacyGame.PaintballGame.SweepOne | src/game/PaintballGame.java:203-208 | one pass of the sweep loop moves its invariant one team further: the teams before k+1 that hold something are kept in order, the rest are untouched, and the turn index is lowered by the empty teams at or before it |
| LegacyGame.PaintballGame.FilterKeepsValid | src/game/PaintballGame.java:202-210 | removing the empty teams keeps the game consistent |
| LegacyGame.PaintballGame.LookUpBunker | src/game/PaintballGame.java:166-174 | the loop finds the first bunker with the name, or null exactly when there is none |
| LegacyGame.PaintballGame.CreatePlayer | src/game/PaintballGame.java:152-156 | the answer is the recruitment verdict, the game stays consistent, and the turn passes |
| LegacyGame.PaintballGame.CreatePlayerNoNextTurn | src/game/PaintballGame.java:164-197 | the answer is the recruitment verdict; a refusal changes nothing; on success the named bunker paid exactly its cost, no other treasury moved, and a new player of the colour on the bunker's cell is appended to the current team only |
| LegacyGame.PaintballGame.RecruitAt | src/game/PaintballGame.java:175-196 | the same, once the bunker is found |
| LegacyGame.PaintballGame.Enlist | src/game/PaintballGame.java:186-195 | the bunker pays exactly the colour's cost and no other treasury moves; a fresh player of the colour, on the bunker's cell and naming the current team, is appended to that team's roster only and placed on the field; consistency is kept |
| LegacyGame.PaintballGame.ValidNotHaunted | src/game/PaintballGame.java:284-289 | in a consistent game no player stands on the field without a team |
| LegacyGame.PaintballGame.PlacedAt | src/game/PaintballGame.java:248-249 | in a consistent game the player found at a position has that position as its own coordinates |
| LegacyGame.PaintballGame.HeldAt | src/game/PaintballGame.java:343-347 | in a consistent game a player on the field is on a team's roster exactly when it names that team, and a bunker naming a team is on its roster |
| LegacyGame.PaintballGame.Eliminate | src/game/PaintballGame.java:284-286 | the player is cut from its team's roster (first occurrence) and names no team, and the field entry given is cleared; the game stays consistent when that entry is the player's own, and is haunted by the player otherwise |
| LegacyGame.PaintballGame.Enter | src/game/PaintballGame.java:279-283 | a beaten enemy on the target names no team any more and leaves the field, and the mover, keeping its team, stands on the target; consistency is kept |
| LegacyGame.PaintballGame.Advance | src/game/PaintballGame.java:291 | the mover leaves its position for the empty target, and the game stays consistent |
| LegacyGame.PaintballGame.GuardAdmitsEdge | src/game/PaintballGame.java:245 | the bounds guard of a move lets position (0, 0) through although it is not on the map |
| LegacyGame.PaintballGame.WalkFitsAt | src/game/PaintballGame.java:257-277 | each step of a recorded walk fits the position it started from: INVALID_DIRECTION exactly for an invalid direction, OFF_THE_MAP exactly for a target off the map, and every step that is not refused lands on the map |
| LegacyGame.PaintballGame.WalkRefusals | src/game/PaintballGame.java:257-259 | in a recorded walk, step j is refused as INVALID_DIRECTION exactly when direction j is invalid, and no step is refused with PLAYER_ELIMINATED or GAME_OVER |
| LegacyGame.PaintballGame.TraceExtends | src/game/PaintballGame.java:255-302 | a step that fits where the walk stands extends the walk's record, its log by exactly that step's entries, and its position |
| LegacyGame.PaintballGame.TraceEnds | src/game/PaintballGame.java:255-302 | the log of a recorded walk reports PLAYER_ELIMINATED exactly when a fight was lost, as its last entry when the last step lost it, never GAME_OVER, and has an entry per step at least |
| LegacyGame.PaintballGame.Claim | src/game/PaintballGame.java:293-299 | a bunker on the cell that the team does not own passes to it, and the result tells whether it did; consistency is kept |
| LegacyGame.PaintballGame.Seize | src/game/PaintballGame.java:294-297 | the bunker leaves the roster of its owner, or the abandoned bunkers when it has none, and is appended to the new team's roster |
| LegacyGame.PaintballGame.Release | src/game/PaintballGame.java:294-296 | the bunker leaves its owner's roster, or the abandoned list when it has none, names no team, and the owner found is returned; no other roster changes |
| LegacyGame.PaintballGame.Arrive | src/game/PaintballGame.java:279-299 | a beaten enemy on the target leaves its team and the field, the mover stands on the target, and the event reports the won fight and the seized bunker |
| LegacyGame.PaintballGame.Fall | src/game/PaintballGame.java:284-288 | a mover that lost a fight leaves its team, the field entry at the initial position is cleared, and its coordinates still advance; consistent only if it had not left its first cell |
| LegacyGame.PaintballGame.TakeStep | src/game/PaintballGame.java:256-301 | one step: the move stops exactly on a lost fight; a refusal leaves the field as it was; an entering step moves the mover to the target; the log entries are the step's own, and the step fits the map |
| LegacyGame.PaintballGame.MoveStep | src/game/PaintballGame.java:256-301 | the step's kind and seizure are NextStep and Seizes of the state before it; a refused direction logs its event and changes nothing at all; a lost fight logs PLAYER_ELIMINATED, takes the mover off its team and clears the move's first cell, and ends the move; otherwise the mover enters the target, the player beaten there has no team, the bunker there is owned by the mover's team, and the log holds the event and the position; the field changes only on the cells the walk visited (KeptOff) |
| LegacyGame.PaintballGame.MoveAlong | src/game/PaintballGame.java:255-302 | the first step's kind and seizure are NextStep and Seizes of the state before the move, and a one-step move leaves the state SteppedFrom says (the field after that step, the beaten player with no team, the bunker entered owned by the mover's team); the move ends early exactly when the log holds PLAYER_ELIMINATED, as its last entry, and the mover then has no team; the field changes only on the cells the walk visited (KeptOff) |
| LegacyGame.PaintballGame.MovePlayerNoNextTurn | src/game/PaintballGame.java:244-304 | a failed check logs its refusal alone and changes nothing; otherwise the player at (x, y) moves: its first step is NextStep and Seizes of the state before, a one-step move leaves the state SteppedFrom says, PLAYER_ELIMINATED is logged exactly when it lost its team, and the field changes only on the cells the walk visited |
| LegacyGame.PaintballGame.MovePlayerAt | src/game/PaintballGame.java:229-235 | the log ends with GAME_OVER exactly when one team is left; the empty teams are gone; the move itself is as MovePlayerNoNextTurn states: first step from the state before, a one-step move as SteppedFrom says, the field kept off the cells the walk visited |
| LegacyGame.PaintballGame.EndMove | src/game/PaintballGame.java:231-233 | GAME_OVER is appended to the log exactly when one team is left after the sweep; the empty teams are gone, the turn passes and every bunker is paid; the field and rosters are as the move left them |
| LegacyGame.PaintballGame.AttackCell | src/game/PaintballGame.java:330-348 | a teammate's cell is skipped, bunker included; a lost fight removes the attacker from the field and its roster; a won fight removes the defender, whose team name is cleared; a bunker the team does not own is seized unless the attacker lost; the field changes only on the attacked cell and the attacker's own, and every other bunker keeps its owner |
| LegacyGame.PaintballGame.Beat | src/game/PaintballGame.java:333-348 | the enemy on the cell, if any, leaves its team and the field, and the bunker there passes to the current team if it did not own it; no other position of the field changes, and every other bunker keeps its owner |
| LegacyGame.PaintballGame.Defeat | src/game/PaintballGame.java:334-336 | the enemy on the cell, if any, is cut from its team's roster and leaves the field; no other player, roster or bunker changes |
| LegacyGame.PaintballGame.AttackWith | src/game/PaintballGame.java:327-349 | a player attacks its cells until it loses; it has then left its team's roster and the field, and otherwise it is still in both and its team holds every cell it attacked (HeldBy); the field changes only on the cells attacked and the attacker's own (KeptOff), and a bunker not on those cells keeps its owner |
| LegacyGame.PaintballGame.AttackNoNextTurn | src/game/PaintballGame.java:323-351 | the first n players of the current team's roster attack, in roster order; either all of them attack and the roster is unchanged, or the n-th is the fallen player, who names no team and is the only one cut from the roster (RemoveFirst); the field changes only on the cells those n players attack by their pattern or stand on (KeptOff over Targets and Spots), and a bunker keeps its owner unless it stands on a cell they attacked |
| LegacyGame.PaintballGame.Attack | src/game/PaintballGame.java:310-318 | the answer tells whether the attacking team was removed and whether one team is left; the empty teams are gone, the turn passes and every bunker is paid; the fallen player, the number of attackers and the field and bunker-owner frames are those of AttackNoNextTurn |
| LegacyGame.PaintballGame.EndAttack | src/game/PaintballGame.java:312-317 | the answer tells whether the attacking team was removed by the sweep and whether one team is left; the turn closes (TurnClosed), and the field and bunker owners are as the attack left them |
| LegacyGame.PaintballGame.CloseTurn | src/game/PaintballGame.java:231-233 | the empty teams are gone, the game-over flag is read after that, the turn index is back in range and every bunker is paid |

## Left out

- Input and output: the two command interpreters (`Main`), their text formats and their field size check are not part of this model, nor the `Game` interface and the newer generation's game, which the repository does not contain.
- The visibility snapshot of the field (`Map`/`MapCell`), the iterators over rosters and cells, and the plain getters (`getName`, `getTreasury`, `width()`, `height()`, `getBunkers`, `getPlayers`, `players()`, `buildings()`): the model reads the fields directly, and rosters are `seq` values in insertion order.
- The older generation's `Player` class, its field class (`getCell`, `movePlayerFromTo`, `addEntity`, `removePlayer`) and its colour enum with cost and move limit are not in the repository. The player is a class with coordinates, team name and colour, moved by `Legacy.StepFrom`. The field is two maps from positions to the player and to the bunker there. Cost 4/2/2 and move limit 3/1/1 are those of the newer generation's colours.
- LegacyGame.PaintballGame.AttackNoNextTurn: the cells a player attacks (the old `attack(field)`) are a function of its colour and position passed in, so no attack pattern is fixed for this generation. The contract bounds where the field and the bunker owners change, but does not state the outcome on each cell (who was beaten, which bunker was seized); those are stated per cell by AttackCell and per player by AttackWith. Nor does it frame the team names of players, which only beaten players lose.
- LegacyGame.PaintballGame.Attack: the same as AttackNoNextTurn; it states the fallen player, the number of attackers, the frames and the final answer, not the outcome on each cell.
- A game left haunted by a move (see MovePlayerAt below) is the end of the model: every command requires a consistent game (CreatePlayer, MovePlayerAt and Attack all require `Valid()`), and ValidNotHaunted shows the haunted state is not consistent. The source goes on from that state: a recruit elsewhere succeeds, while a command that meets the haunted player dereferences its null team name (PaintballGame.java:251, 274 and 332).
- Classes do not inherit in Dafny: `Bunker` and the older `Player` repeat the coordinates and team name of `Entity`, and the newer `Player` is one class with a colour field instead of three subclasses.
- `RedPlayer` and `GreenPlayer` never implement the abstract `fight`. Their rule is taken from the older game's `fight` (PaintballGame.java:359-369), which agrees with `BluePlayer.fight`.
- LegacyGame.PaintballGame.constructor: requires distinct team names, and that every owned bunker names one of the teams. The source throws on a bunker of an unknown team (`getTeam(...)` is null at line 59). With repeated names it would look teams up by their first occurrence only.
- LegacyGame.PaintballGame.CreatePlayer: requires that a bunker found under the name, with a real colour, names a team. The source throws on an unowned bunker at line 177.
- LegacyGame.PaintballGame.CreatePlayerNoNextTurn: the same requirement as CreatePlayer.
- LegacyGame.PaintballGame.MovePlayerNoNextTurn: requires that a position the bounds guard admits lies on the map. The guard at line 245 admits column 0 and row 0, where the field has no cell (GuardAdmitsEdge shows the gap).
- LegacyGame.PaintballGame.MovePlayerAt: the same requirement as MovePlayerNoNextTurn. It states consistency only as "consistent, or the mover is haunting the field". After a lost fight on a later step of a multi-step move, line 286 clears the initial position instead of the player's own, so the player stays on the field without a team. `Haunted` describes that state, and ValidNotHaunted shows it is not consistent. Its contract also states the closed turn (TurnClosed): the surviving teams in order, the next turn index and the income.
- The order of the field and roster updates within one engagement differs from the source: the bunker is claimed before the defeated player is removed. The two touch disjoint state, so the final state is the same.
- Removing an entry that is absent from a roster (`removeAt(searchIndexOf(...))` with index -1) is excluded by a `requires` on every remove operation. The consistency invariants show that the game never does it.
- Integer overflow: coins, coordinates and indices are unbounded integers, so the 32-bit wrap-around of the source's `int` is not modelled.
- Paintball.Player.NextBlueColumn, Paintball.Player.BlueNext, Paintball.Player.GreenRounds, Paintball.Player.GreenNext, Paintball.Player.GreenStep, Paintball.Player.GreenTry, Paintball.Player.NextOnRay, Paintball.Player.Engage, Paintball.Player.SeizeBuilding, Paintball.Player.RedStep, Paintball.Field.Relocate, Paintball.Field.Eliminate, Paintball.Field.TransferBuilding, LegacyGame.PaintballGame.BuildNext, LegacyGame.PaintballGame.MoveNext, LegacyGame.PaintballGame.AttackNext, LegacyGame.PaintballGame.AttackRoster, LegacyGame.PaintballGame.AttackBy, LegacyGame.PaintballGame.AttackFrom and LegacyGame.PaintballGame.CloseTurnAfter are parts of the loops and methods they are cited under, split off to keep each proof small.
- Paintball.Player.Attack: states which cells were engaged and that none of them holds an enemy afterwards, save the one the player lost on. The players eliminated and the buildings seized along the way are stated engagement by engagement (AttackCell, Engaged), not summed over the whole attack.
- Paintball.Player.RedMove: ties each step to MoveDefault only through Stepped: whether the direction is invalid, whether the target is off the grid, and where the step ends. Whether a step was refused for a teammate, found nothing, won a fight or seized a building, and what it did to rosters and buildings, is stated by DefaultMove for a single step and not carried through the red move's loop.
- Paintball.Player.Move: the same as RedMove for a red player; for blue and green, whose move is one step, it states DefaultMove in full.
- LegacyGame.PaintballGame.MoveStep: states the team names and owners the step changes (the mover's after a lost fight, the beaten player's and the entered bunker's), but not that every other player and bunker keeps its team name.
- LegacyGame.PaintballGame.MoveAlong: ties a step after the first to the cells' contents only through the walk's geometry (WalkFits: the invalid direction, off the map, where the step ends). The effect on rosters and bunker owners is stated step by step in MoveStep, and for a one-step move by SteppedFrom, but not summed over a longer walk. Its frame is the field off the visited cells, not the team names of players and bunkers away from the path.
- LegacyGame.PaintballGame.MovePlayerNoNextTurn: the same as MoveAlong for the move it makes.
- LegacyGame.PaintballGame.MovePlayerAt: the same as MoveAlong for the move it makes.
