# twplus core model

A Dafny model of three parts of the twplus game server (a Teeworlds mod):
the tile-grid collision engine, the game controller's rule decisions, and
the mute table with its chat spam filter. There is one module per source
file.

- `Collision` (`collision.dfy`). The class `CollisionMap` holds the tile
  buffer of the game layer and the four-slot teleporter registry. Cell
  lookup and tile classification are functions. `Init`, `IntersectLine`
  and `MoveBox` are methods with loops, and `MovePoint` is a method that
  returns the moved point, velocity and bounce count; the movers are proved against pure response
  functions (`Bounce`, `BoxResponse`, `BoxStep`). Collision flags
  are sets of `ColFlag`, so a bitmask test `f & COLFLAG_SOLID` is
  membership. Points and velocities are `real` vectors. The point test
  `CheckPoint` is `IsTileSolid` at the point rounded half away from zero.
- `GameController` (`gamecontroller.dfy`). Team clamping and team names.
  The map rotation: the reference functions `NextStart`/`NextMapName` and
  the methods `FindNextStart`/`CutOutName` that walk the list one character
  at a time as the server does. Players are a class whose score and
  respawn tick the death rules change; a roster is a sequence of possibly
  absent players. The class `Controller` holds the round state (warmup,
  game-over tick, sudden death, round count, team scores, map wish,
  current map, unbalanced tick, force-balance flag) and its methods.
- `Mute` (`mute.dfy`). The class `MuteTable` holds the list of
  (address, expiry tick) entries and the tick of the last purge. A mute
  handle is an `Option<nat>` index into that list. The value functions
  `Live`, `MutedIndex`, `Upsert` and `Expire` specify its methods. The
  spam filter is a pure function of the message: case-insensitive
  substring search, the 130 decorative glyphs and the six phrases.

The server tick and tick speed are parameters wherever the source reads
them from the server.

## Model

| member | source | states |
|---|---|---|
| Collision.CollisionMap.constructor | src/game/collision.cpp:15-27 | no grid yet; all four teleporter slots are (0, 0) and not recorded |
| Collision.CollisionMap.Init | src/game/collision.cpp:29-108 | the tile buffer is stored unchanged and each slot becomes its Registered value for the scanned buffer |
| Collision.RegistryAfterLoad | src/game/collision.cpp:36-107 | after construction and Init, slot k is recorded iff the buffer has a tile of kind k+1, at (i % W, i / W) of the first such index i, inside the grid |
| Collision.RegisteredSnoc | src/game/collision.cpp:56-90 | scanning one more tile keeps a recorded slot (first write wins) and records the tile's position in an empty slot of its kind |
| Collision.CollisionMap.TeleAfterLoad | src/game/collision.cpp:301-308 | after a load into fresh slots, getTeleX/getTeleY of slot k give the column and row of the first tile of its kind, inside the grid, and (0, 0) when there is none |
| Collision.TeleSlot | src/game/collision.cpp:55-90 | the four teleporter kinds map to slots 0..3 of their own kind; every other index to no slot |
| Collision.ClassifyTileFlags | src/game/collision.cpp:117-145 | GetTile's table: solid iff SOLID or NOHOOK, NOHOOK implies solid, death and slow-death exact, each teleporter kind its own flag, NOFLAG/HEALTHZONE/ARMORZONE and indices above 128 no flags |
| Collision.CollisionMap.CellClamp | src/game/collision.cpp:112-113 | truncating division by 32, clamped per axis: negative to 0, beyond the grid to the last cell |
| Collision.CollisionMap.CellIndex | src/game/collision.cpp:115 | the row-major index Ny*W+Nx is inside the buffer for every coordinate |
| Collision.CollisionMap.CellLookup | src/game/collision.cpp:148-154 | the index decodes back to (CellX, CellY), so GetTileNew reads the clamped cell; negative coordinates resolve to cell 0 |
| Collision.CollisionMap.TileSolidity | src/game/collision.cpp:110-159 | GetTile classifies the raw tile GetTileNew reads; IsTileSolid holds iff that tile is SOLID or NOHOOK |
| Collision.CollisionMap.CheckPointTile | src/game/collision.cpp:156-159 | the point test at a world point holds iff the clamped cell under the rounded point holds a SOLID or NOHOOK tile |
| Collision.CollisionMap.FirstSolidSample | src/game/collision.cpp:167-182 | the first solid sample index in a range, all earlier samples clear |
| Collision.CollisionMap.IntersectLine | src/game/collision.cpp:162-187 | on the first solid of int(d+1) samples: that sample, the previous one (or Pos0) and its flags; otherwise Pos1 twice and no flags; the point before a later hit is clear |
| Collision.CollisionMap.MovePoint | src/game/collision.cpp:190-226 | clear destination: move by vel, velocity kept, no bounce; blocked: position kept and velocity and bounces as Bounce gives for the two single-axis tests; a clear start stays clear |
| Collision.BounceVelocity | src/game/collision.cpp:197-220 | the velocity and bounce updates of a blocked point move equal Bounce |
| Collision.BounceResponse | src/game/collision.cpp:197-220 | at most two bounces, none exactly in the corner case which reverses both axes; a clear axis keeps its velocity when the other hits |
| Collision.BounceDamps | src/game/collision.cpp:197-220 | with elasticity in [0, 1] no velocity component grows; with elasticity 1 magnitudes are kept |
| Collision.CollisionMap.TestBoxCorners | src/game/collision.cpp:228-240 | TestBox holds iff one of the four corners pos +- size/2 is solid, that is iff the clamped grid cell under one of the rounded corners holds a SOLID or NOHOOK tile |
| Collision.CollisionMap.MoveBox | src/game/collision.cpp:242-298 | below 0.00001 nothing changes; otherwise exactly int(d)+1 sub-steps of BoxStep with fraction 1/(int(d)+1); a box that starts clear ends clear |
| Collision.CollisionMap.BoxSubStep | src/game/collision.cpp:257-293 | one loop pass equals BoxStep: a clear candidate is adopted, otherwise SnapBack |
| Collision.SnapBack | src/game/collision.cpp:262-290 | the snap-back updates of a blocked sub-step equal BoxResponse |
| Collision.BoxResponseMeaning | src/game/collision.cpp:262-290 | a blocked axis snaps back and reflects, an unblocked axis advances with its velocity when the other is blocked, the corner case snaps back to pos and reverses the velocity; damping as for points |
| Collision.CollisionMap.BoxStepKeepsClear | src/game/collision.cpp:257-293 | a sub-step only moves to positions whose box test was clear, and each axis advances by its delta or stays |
| Collision.CollisionMap.BoxStepsKeepClear | src/game/collision.cpp:254-296 | any number of sub-steps keeps a clear box clear |
| GameController.ClampTeam | src/game/server/gamecontroller.cpp:978-985 | the result is spectators, red or blue; spectators exactly for a negative team; without teamplay every other team becomes team 0; with teamplay a non-negative team keeps its parity (Team&1), so 2 becomes red and 3 blue |
| GameController.ClampTeamStable | src/game/server/gamecontroller.cpp:978-985 | clamping is idempotent and keeps every team that is already valid for the game type |
| GameController.TeamNames | src/game/server/gamecontroller.cpp:354-370 | after clamping, a team is named "spectators" exactly when it was negative; red and blue get distinct names |
| GameController.MapNameCharsAreNotSeparators | src/game/server/gamecontroller.cpp:372 | letters, digits, "_", "-" and "." are never separators, so a map file name in the list is one word |
| GameController.WordEnd | src/game/server/gamecontroller.cpp:436-438 | the word at p runs over non-separators only and stops at a separator or the end of the list |
| GameController.SkipSeparators | src/game/server/gamecontroller.cpp:444-445 | the skip passes separators only and stops at a non-separator or the end |
| GameController.FindMatch | src/game/server/gamecontroller.cpp:434-451 | the first position whose word has exactly the current map's length and spells it; no earlier position does; the end of the list if none does |
| GameController.NextStartFollowsSeparator | src/game/server/gamecontroller.cpp:440-455 | the next map starts the list or follows a separator |
| GameController.CutNameShape | src/game/server/gamecontroller.cpp:458-467 | the cut-out name is a piece of the list at its start, at most 511 characters, holds no separator, runs to a separator or the end unless capped, and is non-empty when it starts on a non-separator |
| GameController.NextMapNameShape | src/game/server/gamecontroller.cpp:432-479 | the next map name is a separator-free piece of the list that starts it or follows a separator, runs to a separator or the end unless capped, and has at most 511 characters |
| GameController.RotationAdvances | src/game/server/gamecontroller.cpp:432-479 | list "a b c" with current map "a" switches to "b" |
| GameController.RotationWraps | src/game/server/gamecontroller.cpp:453-455 | list "a b c" with current map "c" wraps to "a" |
| GameController.RotationRestartsOnUnknownMap | src/game/server/gamecontroller.cpp:453-455 | list "a;b" with a current map that is not listed restarts at "a" |
| GameController.LeadingSeparatorGivesEmptyName | src/game/server/gamecontroller.cpp:453-479 | as written, list " a b" with current map "b" switches to the empty map name |
| GameController.MatchInsideLongerWord | src/game/server/gamecontroller.cpp:434-447 | as written, list "xa y a z" with current map "a" matches inside "xa" and switches to "y" |
| GameController.FindWordMatch | src/game/server/gamecontroller.cpp:434-451 | corrected scan: the first word start that spells the current map as a whole word, or the end |
| GameController.NextMapNameFixedIsWord | src/game/server/gamecontroller.cpp:453-479 | corrected rotation: whenever the list names a map, the next map is a non-empty whole word of it, at most 511 characters |
| GameController.FixedRotationAdvances | src/game/server/gamecontroller.cpp:432-479 | corrected rotation: list "a b c" with current map "a" still switches to "b" |
| GameController.FixedRotationWraps | src/game/server/gamecontroller.cpp:453-455 | corrected rotation: list "a b c" with current map "c" still wraps to "a" |
| GameController.FixedSkipsLeadingSeparator | src/game/server/gamecontroller.cpp:453-479 | corrected rotation: list " a b" with current map "b" wraps to "a" |
| GameController.FixedMatchesWholeWords | src/game/server/gamecontroller.cpp:434-447 | corrected rotation: list "xa y a z" with current map "a" switches to "z" |
| GameController.WordLength | src/game/server/gamecontroller.cpp:436-438 | the character-by-character count ends exactly at WordEnd |
| GameController.SkipSeparatorsFrom | src/game/server/gamecontroller.cpp:443-445 | the character-by-character skip ends exactly at SkipSeparators |
| GameController.FindNextStart | src/game/server/gamecontroller.cpp:432-455 | the scan loop ends at NextStart: past the separators after the first match, or at 0 when that reaches the end or nothing matched |
| GameController.CutOutName | src/game/server/gamecontroller.cpp:458-467 | the copy loop yields CutName: the characters up to a separator, the end or the 511-character cap |
| GameController.Controller.CycleMap | src/game/server/gamecontroller.cpp:406-480 | a map wish becomes the map and is cleared with the round count; an empty list or too few rounds change nothing and ask for a team swap exactly when swapping is on; otherwise the map becomes NextMapName of the current map and the round count 0 |
| GameController.TeamCountsBounded | src/game/server/gamecontroller.cpp:872-878 | red and blue together never count more players than the roster holds |
| GameController.CountTeams | src/game/server/gamecontroller.cpp:872-878 | the counting loop yields the number of connected players on red and on blue |
| GameController.Controller.CheckTeamBalance | src/game/server/gamecontroller.cpp:867-896 | balanced iff not teamplay, balancing off, or the team sizes differ by less than two; the first unbalanced tick is recorded once and cleared on balance |
| GameController.Controller.CanChangeTeam | src/game/server/gamecontroller.cpp:898-928 | always allowed without teamplay, for spectators or with balancing off; otherwise allowed iff after the move the joined team is at most one ahead of the team left |
| GameController.TopScoreIsMaximum | src/game/server/gamecontroller.cpp:949-963 | the running maximum is at least -9999 and every connected score, and is -9999 or some player's score |
| GameController.TopCountCounts | src/game/server/gamecontroller.cpp:949-963 | the running count equals the number of connected players holding the top score |
| GameController.UniqueTopScore | src/game/server/gamecontroller.cpp:949-973 | exactly one player holds the top score iff some connected player at or above -9999 is strictly ahead of all others |
| GameController.Controller.DoWincheck | src/game/server/gamecontroller.cpp:930-976 | nothing happens over, in warmup or on a reset request; on a score or time limit the round ends if the team scores differ (teamplay) or one player holds the top score, else sudden death |
| GameController.Controller.EndRound | src/game/server/gamecontroller.cpp:231-238 | during warmup nothing changes; otherwise the game-over tick becomes the tick and sudden death ends |
| GameController.ClassifyDeath | src/game/server/gamecontroller.cpp:519-540 | each kind as an if-and-only-if: unscored without a killer or for a game kill; otherwise a suicide exactly when the killer is the victim, a team kill exactly when not a suicide and both are on one team in a team game, and a kill in every other case |
| GameController.Controller.OnCharacterDeath | src/game/server/gamecontroller.cpp:517-546 | returns 0; unscored deaths change nothing; suicide costs the victim a point, a team kill the killer a point, a kill earns the killer one; a self-inflicted death delays the victim's respawn by three seconds; the killer's respawn tick and both teams are untouched |
| GameController.WarmupTicks | src/game/server/gamecontroller.cpp:565-571 | the warmup is never negative and is 0 exactly for a non-positive number of seconds or tick speed 0 |
| GameController.Controller.DoWarmup | src/game/server/gamecontroller.cpp:565-571 | the warmup becomes WarmupTicks of the seconds |
| GameController.Controller.IsForceBalanced | src/game/server/gamecontroller.cpp:590-599 | returns the flag and leaves it cleared |
| GameController.Controller.constructor | src/game/server/gamecontroller.cpp:18-43 | warmup from the configured seconds, no game over, no sudden death, round start now, no rounds, zero team scores, no map wish, no unbalanced tick, no forced balance |
| Mute.MuteTable.constructor | src/game/server/mute.cpp:12-16 | the table starts empty with no purge recorded (last purge tick 0) |
| Mute.Live | src/game/server/mute.cpp:43-54 | a purge keeps no more entries than there were, and none of them has expired |
| Mute.LiveKeepsExactlyUnexpired | src/game/server/mute.cpp:43-54 | a purge keeps every unexpired entry as often as it occurs and drops every expired one |
| Mute.LiveIdempotent | src/game/server/mute.cpp:33-54 | purging again at the same tick changes nothing |
| Mute.PurgeStep | src/game/server/mute.cpp:46-53 | one step of the purge loop, dropping an expired entry or passing a live one, keeps the kept prefix plus the purge of the rest unchanged |
| Mute.MuteTable.PurgeMutes | src/game/server/mute.cpp:43-54 | the table afterwards holds exactly the unexpired entries (as a multiset) and the tick is recorded as purged |
| Mute.PurgedTableIsLive | src/game/server/mute.cpp:43-54 | no entry of a purged table has expired at the purge tick |
| Mute.MuteTable.NumMutes | src/game/server/mute.cpp:33-41 | purges only when the tick differs from the last purge, records the tick, and returns the size of the refreshed table |
| Mute.FindFrom | src/game/server/mute.cpp:96-99 | the first entry for the address from position i on, or none when no entry there matches |
| Mute.MutedIndex | src/game/server/mute.cpp:91-100 | none for the empty address; else the first entry for the address, or none when no entry matches |
| Mute.MuteTable.Muted | src/game/server/mute.cpp:91-100 | the empty address is refused without a refresh; otherwise the table is refreshed and the first entry for the address returned |
| Mute.MuteTable.GetMute | src/game/server/mute.cpp:109-115 | none for a negative position or one past the refreshed table; else that position |
| Mute.MuteTable.Unmute | src/game/server/mute.cpp:117-121 | no mute, no change; otherwise that entry's expiry becomes 0 |
| Mute.ExpireThenPurge | src/game/server/mute.cpp:117-121 | a lifted mute is gone after the next purge at any tick from 0 on |
| Mute.MuteTable.AddMute | src/game/server/mute.cpp:56-76 | a negative duration lifts the address's mute and returns false; otherwise the first entry for the address gets expiry TickSpeed*secs+Tick, or a new entry is appended, and it returns true |
| Mute.UpsertThenLookup | src/game/server/mute.cpp:56-76 | after a mute, looking the address up finds an entry with the new expiry; the table grows by one exactly for a new address; every other address is found where it was |
| Mute.FindUnaffected | src/game/server/mute.cpp:65-73 | changing expiries of one address's entries or appending one leaves the first match of every other address unchanged |
| Mute.FindNoCaseIgnoresCase | src/game/server/mute.cpp:214 | the case-insensitive search finds a needle in a message exactly when it finds it in the message with its ASCII capitals lowered |
| Mute.FancyCount | src/game/server/mute.cpp:205-216 | at most one count per listed glyph |
| Mute.NeedleCount | src/game/server/mute.cpp:221-225 | at most one count per listed phrase |
| Mute.SpamVerdict | src/game/server/mute.cpp:200-235 | spam iff more than three glyphs occur, the whisper advertisement occurs, or two phrases occur |
| Mute.SpamInContext | src/game/server/mute.cpp:200-235 | text added around a spam message keeps it spam |
| Mute.SpamIgnoresCase | src/game/server/mute.cpp:200-235 | the verdict does not change when ASCII capitals are lowered |
| Mute.FancyCountAppend | src/game/server/mute.cpp:206-216 | the count over a concatenated glyph list is the sum of the counts |
| Mute.FancyCountAtLeast | src/game/server/mute.cpp:213-216 | the count is at least the number of distinct listed glyphs that occur |
| Mute.TabCountsAsFancy | src/game/server/mute.cpp:207 | as written, a message holding only a tab counts one fancy glyph |
| Mute.TabMakesSpam | src/game/server/mute.cpp:207-218 | as written, three double-struck letters and a tab make a message spam |
| Mute.FixedGlyphsIgnoreAscii | src/game/server/mute.cpp:206-212 | with the double-struck c in place of the tab, plain ASCII text counts no fancy glyph |
| Mute.FixedSpamOfAscii | src/game/server/mute.cpp:217-234 | with the corrected glyph list, plain ASCII text is spam iff the phrase count plus 2 for the whisper advertisement reaches 2 |

## Left out

- Map loading: Init takes width, height and the game-layer tile indices as inputs.
- The flag entity header (src/game/server/entities/flag.h) only declares fields and is not part of this model.
- Floating point: vectors are exact reals and IEEE rounding is not modelled.
- CheckPoint and GetCollisionAt: collision.h is not part of this model. The point test is assumed to round each coordinate half away from zero (RoundToInt) before the tile lookup; the mover and ray lemmas do not depend on that choice.
- Tile indices: mapitems.h is not part of this model. TILE_SOLID, TILE_DEATH and TILE_NOHOOK have their stock values; TILE_TELEONE..TILE_TELEFOUR, TILE_SLOWDEATH, TILE_NOFLAG, TILE_HEALTHZONE and TILE_ARMORZONE are placeholders (6 to 13) that are only distinct and at most 128, and the proofs do not depend on their values.
- Collision.CollisionMap.GetTeleX: requires a slot index 0..3 (likewise GetTeleY); the source indexes its four-slot array unchecked, and an index outside it is undefined behaviour that is not modelled.
- Vector length: Dafny reals have no square root, so IntersectLine and MoveBox take the length as a parameter whose square is the squared length.
- IntersectLine requires a positive distance: a zero distance divides 0 by 0 in floats, which has no real counterpart.
- Spawn evaluation (EvaluateSpawnPos, EvaluateSpawnType, CanSpawn), because it is float scoring over live world entities.
- The team balancing in Tick, the inactivity kick, Snap, SaveStats, StartRound, PostReset and OnEntity, because they are network, file and entity-world work.
- Controller.EndRound: the world pause, the spectator-mute reset, the statistics file and the chat summary are not modelled; only the game-over tick and sudden death are.
- Controller.CycleMap: the swap of the teams is returned as a flag rather than performed, and the debug output is not modelled.
- Controller.CycleMap: the "skip spaces" loop at gamecontroller.cpp:469-472 never moves, because the name cut out before it cannot start with a separator (its first separator is replaced by the terminator), so it is not modelled.
- Controller.CycleMap: the server setting's buffer size is not modelled. A map wish or a cut-out name is stored in full, and a current map longer than the setting's buffer is not truncated.
- Controller.OnCharacterDeath: the "+1"/"-1" text effects are not modelled. The respawn delay is computed in integers where the source multiplies by the float 3.0.
- Integer overflow: scores, ticks and tick products are unbounded integers; 32-bit wrap-around is not modelled.
- The game type is the constant teamplay field of the controller; the other game flags are not modelled.
- IsFriendlyFire, GetAutoTeam and CanJoinTeam are not part of this model.
- The player array is a sequence of possibly absent players. Its fixed size MAX_CLIENTS and the client ids are not modelled.
- Mute.MuteTable.PurgeMutes: the contract states the purged table as a multiset and not the order of the remaining entries, because the container behind the table is not part of this model. The body removes in place and keeps the order.
- Mute.MuteTable.AddMute: looked is a ghost out-parameter naming the table as the lookup left it. The address stored in an entry is not truncated to the entry's buffer, and the table's capacity MAX_MUTES is not modelled.
- Mute.MuteTable.Unmute: the chat and console messages are not modelled; only the expiry is.
- Console commands (ConMute, ConMutes, ConUnmuteID, ConUnmuteIP), the client-id overloads of AddMute and Muted, and the address lookup by client id are not modelled. The address and the tick are parameters.
- The address comparison str_comp_num is modelled as equality of the full address strings.
- CheckSpam: the client id parameter is unused by the source and is left out. Messages are sequences of code points, whereas the source searches UTF-8 bytes. A glyph is found when its code point occurs, which agrees with a byte search on valid UTF-8.

## Findings

| source | as written | input that shows it | evidently intended | confidence | as-written member | corrected member |
|---|---|---|---|---|---|---|
| src/game/server/gamecontroller.cpp:453-472 | on a wrap the name is cut out at the very start of the list, so a list that starts with a separator yields an empty map name (the "skip spaces" loop runs on the already cut name and never moves) | list " a b", current map "b" | skip the leading separators before cutting the name, giving "a" | high, not executed | GameController.LeadingSeparatorGivesEmptyName | GameController.NextMapNameFixedIsWord, GameController.FixedSkipsLeadingSeparator |
| src/game/server/gamecontroller.cpp:434-450 | the scan tries every character position, so the current map also matches at the tail of a longer word | list "xa y a z", current map "a" gives "y" | match only at the start of a word, giving "z" | high, not executed | GameController.MatchInsideLongerWord | GameController.FixedMatchesWholeWords, GameController.NextMapNameFixedIsWord |
| src/game/server/mute.cpp:207 | the double-struck alphabet has a tab where the double-struck c (U+1D554) belongs, so a tab in plain text counts as a fancy glyph | message of three double-struck letters and a tab is spam | only decorative glyphs count; plain ASCII text counts none | high, not executed | Mute.TabCountsAsFancy, Mute.TabMakesSpam | Mute.FixedGlyphsIgnoreAscii |
