# dota-clicker combat core in Dafny

A model of the frame-driven combat simulation of the dota-clicker game. Each
click makes a hero swing at a stream of respawning creeps while the background
scrolls. The core exists twice, and both versions are modelled:

- **The legacy canvas game (JavaScript).** It has these parts:
  - the pausable step timer `waitForTimeout`;
  - the scroll-speed coordinator `Background`;
  - the `Creep` and `Hero` classes, with their frame clocks, regen, attack and hit resolution;
  - the creep registry and its two on-hit modifiers;
  - the creep and hero factories and the hero registry;
  - the `initializeCanvas` session: spawning, the click handler, the animation frame, and the pause and resume buttons.
- **The TypeScript client.** It has these parts:
  - the clip state machine `AnimatedSprite`;
  - the health model `GameEntity`;
  - the server-payload mappers `mapHeroData`, `mapItemsData` and `getItemImagePath`;
  - the hero store's `setStats` / `updateStat` transitions.

Every object is an immutable datatype and every method a pure function. JavaScript numbers are `real`. A thrown error is a `Failure` result. Host timeouts, animation frames, clicks and button presses are explicit events. `Math.random()` is a parameter `roll` in [0, 1). Modules:

| module | file | models |
|---|---|---|
| `Wrappers` | wrappers.dfy | `Option` / `Result` |
| `Frames` | frames.dfy | the shape of a sprite-sheet clip |
| `StepTimer` | timer.dfy | `waitForTimeout` and its shared pause flag |
| `Scroll` | scroll.dfy | `Background` |
| `Heroes` | heroes.dfy | `Hero` construction, regen and frame clock |
| `CreepTemplates` | templates.dfy | `creepsConfig`, satyr mana burn, voul poison |
| `Creeps` | creeps.dfy | `Creep` |
| `CreepFactory` | creep_factory.dfy | `CreepFactory.createCreep` |
| `HeroConfig` | hero_config.dfy | `initializeCharacteristics`, `HeroFactory.createHero` |
| `HeroCombat` | hero_combat.dfy | `Hero.attack` and the mana cooldown |
| `Game` | game.dfy | creep choice, spawning, the session, one `gameLoop` frame |
| `GameControls` | game_controls.dfy | click, timer callbacks, buttons, any interleaving of events |
| `Sprite` | sprite.dfy | `AnimatedSprite` |
| `Entity` | entity.dfy | `GameEntity` |
| `JsValues` | js_values.dfy | untyped payload values, truthiness, `??`, `for...in` |
| `HeroStore` | hero_store.dfy | the hero store |
| `ItemPath` | item_path.dfy | `getItemImagePath` |
| `Mappers` | mappers.dfy | `mapHeroData`, `mapItemsData`, `priceFormula` |

The main results:

- **Session invariant.** `GameControls.StatsStayBounded` holds for any interleaving of frames, clicks, timer steps, poison restores, button presses and calls of `endGame`: the hero's health stays in [0, maxHealth] and its energy in [0, maxEnergy].
- **Timer.** It fires after 99 host timeouts. A pause and resume keep its progress. A pause and resume after completion run the callback a second time.
- **Scroll offset.** It stays in (-fixedWidth, 0] under any run of commands.
- **Kill counter.** It cycles through 1..100 and the rank grows once per hundred kills.
- **Clip state machines.** The hero's attack clip takes 30 frame advances. A one-shot `AnimatedSprite` clip completes exactly once.
- **Entity health.** A `GameEntity`'s health stays clamped, and a dead entity stays dead.
- **Item paths.** Normalisation always yields a normal name and is idempotent.
- **Shop items.** Each category's items are a sorted permutation of its valid raw items, and a category is kept exactly when it holds a valid item.

## Where the code and its description differ

The model follows the code in every case below.

- **Timer firing.** `waitForTimeout` takes its first step synchronously. Its callback therefore runs after 99 step intervals, not after the full timeout (`StepTimer.CallbackAfter99Intervals`).
- **Pausing.** Pausing is not idempotent: `onPause` runs on every call.
- **Re-running callback.** Pausing and resuming a timer whose callback has already run runs the callback again. The step counter is not guarded (`StepTimer.ResumeAfterCompletionRerunsCallback`).
- **Order within a frame.** The creep's draw, with its damage trigger, runs before the hero's draw, with its regen. Damage is applied before regen, not after.
- **Energy at exactly 1.** The guard `1 >= energy > 0` holds for every energy up to 1. An attack at exactly 1 energy therefore starts the cooldown and does not swing (`HeroCombat.NoSwingAtOneEnergy`).
- **Impact trigger.** It fires whether or not the creep still collides (`Creeps.ImpactIgnoresCollision`).
- **Collision ends.** When contact stops, only the creep's flag clears. Neither the scroll nor the hero's clip is touched.
- **Regen suppression.** Energy regen is suppressed by the hero's own collision flag. Health regen is suppressed by the creep's flag.
- **Factory arguments.** `createCreep` hands its rank and number parameters to the constructor swapped. The game's call site swaps them back (`CreepFactory.CallSiteSwapCancels`).
- **Missing hero record.** `initializeCharacteristics` reads fields of a missing record before testing it. A missing record is therefore an error, not the warning branch.

## Model

| member | source | states |
|---|---|---|
| StepTimer.StepInterval | old_project_game/front1/game/game.js:208 | the step spacing is the least whole number of ms with 100 steps covering the timeout |
| StepTimer.Create | old_project_game/front1/game/game.js:207-238 | a new timer has taken its first step at once (step 1, a step scheduled), unless created while the shared flag is set |
| StepTimer.Step | old_project_game/front1/game/game.js:211-220 | under the shared flag nothing happens; otherwise one step is counted, the callback runs exactly when the count reaches 100, and below 100 a step stays scheduled |
| StepTimer.Fire | old_project_game/front1/game/game.js:211-220 | a host timeout counts one step; the callback runs exactly when the count reaches 100 and nothing is rescheduled after that; while paused nothing is counted |
| StepTimer.Pause | old_project_game/front1/game/game.js:223-227 | pause sets the shared flag, cancels the scheduled step and runs onPause on every call |
| StepTimer.Resume | old_project_game/front1/game/game.js:230-235 | resume acts only while the flag is set: it clears it and steps on from the preserved count |
| StepTimer.RunsToCompletion | old_project_game/front1/game/game.js:211-220 | n timeouts from step c reach step c + n, firing exactly when that is 100 |
| StepTimer.CallbackAfter99Intervals | old_project_game/front1/game/game.js:211-237 | a fresh timer fires at its 99th timeout and not at its 98th |
| StepTimer.IdleTimerIsInert | old_project_game/front1/game/game.js:211-220 | a timer with no scheduled step is unchanged by any number of timeouts |
| StepTimer.CallbackRunsOnceWithoutPause | old_project_game/front1/game/game.js:211-237 | driven only by its own timeouts, the callback runs at most once, exactly from the 99th timeout on |
| StepTimer.PauseResumeKeepsProgress | old_project_game/front1/game/game.js:223-235 | pause then resume continues from the preserved step: the remaining timeouts to the callback are 100 minus that step |
| StepTimer.SharedFlagStrandsSecondTimer | old_project_game/front1/game/game.js:212-235 | after one timer's resume clears the shared flag, resume on a second paused timer does nothing and that timer never fires |
| StepTimer.ResumeAfterCompletionRerunsCallback | old_project_game/front1/game/game.js:214-235 | pausing and resuming a completed timer runs the callback a second time |
| StepTimer.CompletionDelay | old_project_game/front1/game/game.js:208-218 | the nominal delay of 99 intervals is under timeout + 99 ms, and is timeout - timeout/100 for multiples of 100 |
| Scroll.New | old_project_game/front1/game/background.js:2-8 | construction gives offset 0, speed 0, remembered speed 0, not stopped |
| Scroll.StopSpeed | old_project_game/front1/game/background.js:9-14 | the first stop remembers the speed and halts; a stop while stopped changes nothing |
| Scroll.SetSpeed | old_project_game/front1/game/background.js:15-19 | both speeds take the new value at once, even while stopped; the stopped flag is kept |
| Scroll.ReturnSpeed | old_project_game/front1/game/background.js:20-24 | return clears the stopped flag and restores the remembered speed |
| Scroll.ScrollStep | old_project_game/front1/game/background.js:41-45 | the offset moves left by the speed and wraps to 0 on reaching one image width |
| Scroll.StopSpeedIdempotent | old_project_game/front1/game/background.js:9-14 | stop twice is stop once |
| Scroll.StopStopReturnRestores | old_project_game/front1/game/background.js:9-24 | stop; stop; return restores the speed in force before the first stop |
| Scroll.SetWhileStoppedThenReturn | old_project_game/front1/game/background.js:15-24 | a speed set while stopped is the one a later return restores |
| Scroll.ScrollKeepsOffsetInRange | old_project_game/front1/game/background.js:41-45 | with non-negative speed a scroll step keeps the offset in (-fixedWidth, 0] |
| Scroll.RunKeepsOffsetInRange | old_project_game/front1/game/background.js:9-45 | any run of stops, returns, non-negative sets and scrolls keeps the offset in (-fixedWidth, 0] |
| Scroll.FreshRunKeepsOffsetInRange | old_project_game/front1/game/background.js:2-45 | the same from a freshly constructed coordinator |
| Heroes.New | old_project_game/front1/game/heroes/hero.js:4-56 | a new hero has full health and energy, regen rates at their bases, the run clip, not attacking, no timers |
| Heroes.EnergyRegenActive | old_project_game/front1/game/heroes/hero.js:88 | energy never regenerates at or above its maximum; when the hero is not swinging, or is in its own contact, it regenerates exactly below the maximum |
| Heroes.HealthRegenActive | old_project_game/front1/game/heroes/hero.js:92 | a dead hero or one at full health never regenerates; when not swinging, or when the creep is in contact, health regenerates exactly strictly between 0 and the maximum |
| Heroes.Regen | old_project_game/front1/game/heroes/hero.js:88-94 | energy regenerates below max unless swinging without its own contact; health regenerates for 0 < health < max unless swinging while the creep is out of contact; both capped at their maxima |
| Heroes.RegenKeepsBounds | old_project_game/front1/game/heroes/hero.js:88-94 | regen keeps health and energy within [0, max] |
| Heroes.AdvanceFrame | old_project_game/front1/game/heroes/hero.js:96-137 | the attack clip climbs to totalFrames - 5, then stops attacking at frame 0 and goes idle against a colliding living creep, otherwise runs and resumes the scroll; other clips loop |
| Heroes.UpdateTimers | old_project_game/front1/game/heroes/hero.js:84-137 | time accumulates, regen applies, and at most one frame advances, only when the accumulator strictly exceeds the clip interval; stats other than health and energy are untouched |
| Heroes.LoopingClipKeepsFrameInRange | old_project_game/front1/game/heroes/hero.js:133-136 | a looping clip's frame stays below its frame count |
| Heroes.AttackClipLength | old_project_game/front1/game/heroes/hero.js:99-132 | from frame 0 the attack clip lasts totalFrames - 4 advances, after which the hero no longer attacks |
| CreepTemplates.Templates | old_project_game/front1/game/creepData/creepsConfig.js:1-409 | six templates, defaultCreep first at unlock level 0, distinct types, both attack triggers reachable, every reward 1, positive damage and health |
| CreepTemplates.FirstOfType | old_project_game/front1/game/creepData/creepFactory.js:11 | find returns the first index with the type, or none when no template has it |
| CreepTemplates.FindTemplate | old_project_game/front1/game/creepData/creepFactory.js:11 | lookup by type fails exactly for unregistered types and otherwise gives the only template of that type |
| CreepTemplates.SatyrBurnIsSatyrDamage | old_project_game/front1/game/creepData/creepsConfig.js:352-355 | the burn amount is the satyr template's unscaled damage, 2 |
| CreepTemplates.BurnMana | old_project_game/front1/game/creepData/creepsConfig.js:352-355 | with at least 2 energy the hero loses 2, otherwise nothing changes |
| CreepTemplates.Poisoned | old_project_game/front1/game/creepData/creepsConfig.js:274-283 | poison zeroes the health regen and leaves exactly one restore pending, replacing any earlier one |
| CreepTemplates.ApplyOnHit | old_project_game/front1/game/creepData/creep.js:140-141 | a creep without a modifier leaves the hero unchanged |
| CreepTemplates.PoisonExpires | old_project_game/front1/game/creepData/creepsConfig.js:279-281 | the restore brings back the base regen; without a pending restore nothing happens |
| CreepTemplates.RepeatedPoisonRestoresOnce | old_project_game/front1/game/creepData/creepsConfig.js:274-283 | two poisonings leave one restore: the first expiry restores the base regen and a second changes nothing |
| CreepTemplates.ManaBurnKeepsEnergyNonNegative | old_project_game/front1/game/creepData/creepsConfig.js:352-355 | the burn never drives energy negative or raises it |
| Creeps.New | old_project_game/front1/game/creepData/creep.js:6-56 | a new creep carries its parameters, full health, the idle clip at frame 0, alive, not dying or colliding |
| Creeps.Initialize | old_project_game/front1/game/creepData/creep.js:61-66 | only the width and the position change: the width is the idle frame width times the image scale, non-negative for a non-negative scale, and the creep lies left of the right edge |
| Creeps.Spawn | old_project_game/front1/game/creepData/creep.js:68-84 | health and damage are scaled by the rank curve, health is full, the creep is alive, not dying or colliding, idle at frame 0, at the right edge |
| Creeps.SpawnReplacesPlacement | old_project_game/front1/game/game.js:62-63 | initialising and then spawning, as the game does, always moves the creep to the right edge: the initial placement never survives, the width does |
| Creeps.SpawnAtRankZeroKeepsBase | old_project_game/front1/game/creepData/creep.js:70-72 | at rank 0 spawning keeps the template's health and damage |
| Creeps.DealDamage | old_project_game/front1/game/creepData/creep.js:136-147 | a living hero loses the creep's damage floored at 0, then the modifier (if any) always applies |
| Creeps.DealDamageKeepsBounds | old_project_game/front1/game/creepData/creep.js:136-141 | an impact keeps the hero's stats clamped and never raises its health |
| Creeps.DyingStep | old_project_game/front1/game/creepData/creep.js:110-115 | a dying creep climbs to its last frame and holds it; no trigger fires |
| Creeps.LivingStep | old_project_game/front1/game/creepData/creep.js:117-125 | the frame wraps; in the attack clip with the game active, the swing fires exactly at swingFrame and the impact, with its damage, exactly at attackFrame |
| Creeps.UpdateAnimation | old_project_game/front1/game/creepData/creep.js:102-127 | at most one frame per call, only when the accumulator strictly exceeds the interval, which it then resets |
| Creeps.Ticks | old_project_game/front1/game/creepData/creep.js:102-127 | a run of updates changes only the creep's frame and its clock; without an impact the hero is untouched; a frame inside the clip stays inside |
| Creeps.ImpactIgnoresCollision | old_project_game/front1/game/creepData/creep.js:123-125 | the impact and its effect on the hero do not depend on the collision flag |
| Creeps.DeathHoldsLastFrame | old_project_game/front1/game/creepData/creep.js:109-115 | once on its last death frame, no run of updates moves the frame, fires a trigger or touches the hero |
| Creeps.CheckCollision | old_project_game/front1/game/creepData/creep.js:215-237 | a dying creep changes nothing; the rising edge sets the flag, stops the scroll and selects the attack clip; the falling edge only clears the flag; afterwards the flag equals the overlap |
| Creeps.Overlaps | old_project_game/front1/game/creepData/creep.js:214-217 | contact holds exactly when the hero's x lies within the creep's drawn width before it and 40% of the hero's width after it |
| Creeps.NextNumber | old_project_game/front1/game/creepData/creep.js:284 | the kill counter moves on by one and wraps from 100 to 1 |
| Creeps.HandleAttack | old_project_game/front1/game/creepData/creep.js:256-307 | only a colliding living creep struck by an attacking hero is hit; health drops by exactly the damage, unclamped; at 0 or below it dies on frame 0 of the death clip, ranks up at kill 100, the counter moves on, and the hero gets the reward at the new rank |
| Creeps.KillRewardIsOne | old_project_game/front1/game/creepData/creep.js:278-288 | with a reward of 1, a kill credits exactly one coin at any rank |
| Creeps.KillCounterCycles | old_project_game/front1/game/creepData/creep.js:280-284 | after k kills from number n the counter reads (n - 1 + k) mod 100 + 1 and the rank has grown by (n - 1 + k) div 100 |
| CreepFactory.CreateCreep | old_project_game/front1/game/creepData/creepFactory.js:10-29 | unknown types fail with a named error; otherwise the template's stats and clips pass through, with the second argument as rank and the third as number |
| CreepFactory.RegisteredTypesBuild | old_project_game/front1/game/creepData/creepFactory.js:10-29 | every registered type builds, with playable clips |
| CreepFactory.CallSiteSwapCancels | old_project_game/front1/game/game.js:59-61 | called as the game calls it, the factory gives the creep the intended rank and number |
| CreepFactory.DefaultsLandSwapped | old_project_game/front1/game/creepData/creepFactory.js:10 | with its defaults the factory yields rank 1 and number 0 |
| CreepFactory.UnknownTypeRefused | old_project_game/front1/game/creepData/creepFactory.js:11-14 | the unresolved "random" placeholder is refused |
| HeroConfig.Or | old_project_game/front1/game/heroes/heroConfig.js:11-19 | `value \|\| fallback`: absent or 0 gives the fallback |
| HeroConfig.JuggernautAnims | old_project_game/front1/game/heroes/heroConfig.js:29-64 | run 21 frames, attack 34, idle 35, all playable |
| HeroConfig.InitializeCharacteristics | old_project_game/front1/game/heroes/heroConfig.js:2-82 | a missing record fails; otherwise one juggernaut template with id 1 whose stats come from the record or the fallbacks |
| HeroConfig.FromRecord | old_project_game/front1/game/heroes/heroConfig.js:11-77 | a template from a record never keeps a 0 damage, max health, health regen, max energy or energy regen, its hyphenated movement speed is never 0, and both max-health keys agree |
| HeroConfig.EmptyRecordGivesFallbacks | old_project_game/front1/game/heroes/heroConfig.js:11-77 | an empty record gives the fallbacks, and the two movement-speed keys disagree (0 and 2) |
| HeroConfig.StoredZeroIsReplaced | old_project_game/front1/game/heroes/heroConfig.js:12 | a stored 0 max health is replaced by 30, as a missing one is |
| HeroConfig.FindHero | old_project_game/front1/game/heroes/heroFactory.js:11 | lookup returns the first template of the type, or none when there is none |
| HeroConfig.CreateHero | old_project_game/front1/game/heroes/heroFactory.js:10-31 | a missing record or unknown type fails; otherwise a fresh hero gets the template's stats in the constructor's parameter order |
| HeroConfig.HeroFromRecord | old_project_game/front1/game/heroes/heroFactory.js:16-30 | a hero from a record never has 0 damage, max health or max energy, and with positive maxima it starts within its stat bounds |
| HeroConfig.CreatedHeroBounded | old_project_game/front1/game/heroes/heroFactory.js:16-30 | a created hero starts within its stat bounds |
| HeroConfig.JuggernautAttackLasts30Advances | old_project_game/front1/game/heroes/heroConfig.js:43 | the juggernaut's attack clip still plays after 29 advances and has ended after 30 |
| HeroCombat.ChainedGuard | old_project_game/front1/game/heroes/hero.js:263 | `1 >= energy > 0` holds exactly when energy is at most 1 |
| HeroCombat.StartCooldown | old_project_game/front1/game/heroes/hero.js:263-277 | energy and its regen drop to 0 and a 2000 ms countdown is added after the existing ones |
| HeroCombat.Swing | old_project_game/front1/game/heroes/hero.js:278-283 | attack clip from frame 0, attacking, one energy spent, vampirism healing capped at max |
| HeroCombat.Attack | old_project_game/front1/game/heroes/hero.js:261-307 | at energy up to 1 only the cooldown starts; above 1 the hero swings: a whiff stops the scroll, a hit on a colliding living creep marks the hero colliding and lands the blow |
| HeroCombat.NoSwingAtOneEnergy | old_project_game/front1/game/heroes/hero.js:263-283 | at exactly 1 energy the cooldown takes the last point and no swing happens |
| HeroCombat.AttackKeepsBounds | old_project_game/front1/game/heroes/hero.js:261-307 | a click keeps health and energy within their bounds |
| HeroCombat.SwingBudget | old_project_game/front1/game/heroes/hero.js:263-283 | with n whole energy points and no regen, n - 1 clicks swing and the next starts the cooldown |
| HeroCombat.CooldownFires | old_project_game/front1/game/heroes/hero.js:266-270 | a timeout of any cooldown steps that timer alone, and its completion restores the base energy regen |
| HeroCombat.CooldownRun | old_project_game/front1/game/heroes/hero.js:266-270 | n timeouts of one cooldown keep the number of cooldowns |
| HeroCombat.CooldownRunTracksTimer | old_project_game/front1/game/heroes/hero.js:266-274 | the regen is back at its base exactly once the cooldown's callback has run |
| HeroCombat.CooldownRestoresRegenAt99 | old_project_game/front1/game/heroes/hero.js:263-274 | after the cooldown click the regen stays 0 for 98 timeouts and is back at the 99th |
| Game.Unlocked | old_project_game/front1/game/game.js:45-51 | exactly the registry indices whose unlock level the hero's level reaches, in order |
| Game.PickUnlocked | old_project_game/front1/game/game.js:45-53 | the pick is an unlocked index; one exists exactly for a non-negative level |
| Game.Position | old_project_game/front1/game/game.js:52 | floor(roll * n) is a valid position for roll in [0, 1) |
| Game.RollFor | old_project_game/front1/game/game.js:52 | the roll k / n lies in [0, 1) and lands on position k of n |
| Game.EveryUnlockedIndexCanBePicked | old_project_game/front1/game/game.js:45-53 | every unlocked index is picked by some roll |
| Game.GenerateUnlockedCreep | old_project_game/front1/game/game.js:45-54 | returns the type of some template unlocked at the level; fails only for a negative level |
| Game.EveryUnlockedTypeCanSpawn | old_project_game/front1/game/game.js:45-54 | every unlocked type is the outcome of some roll |
| Game.SpawnNewCreep | old_project_game/front1/game/game.js:55-64 | "random" is resolved among unlocked types; the new creep keeps the current rank and number, is alive at full health at the right edge, with a template's clips and rank-scaled stats |
| Game.FirstCreep | old_project_game/front1/game/game.js:38-42 | the first creep is the default type at rank 0 and number 1 |
| Game.Start | old_project_game/front1/game/game.js:11-42 | the scroll runs at a 200th of the canvas width, the hero comes from the record, the first creep is spawned, no respawn is scheduled; the loop and pause flags are the ones the page already holds, so a later session can start stopped or paused |
| Game.DrawMove | old_project_game/front1/game/creepData/creep.js:182-190 | the creep moves with the background unless it holds a collision; a dying creep always moves |
| Game.EndGame | old_project_game/front1/game/game.js:138-155 | the loop stops and the background speed is set to 0 |
| Game.CreepDraw | old_project_game/front1/game/creepData/creep.js:182-192 | the creep moves, then its clip advances; the hero's timers and clips are untouched |
| Game.HeroDraw | old_project_game/front1/game/heroes/hero.js:218-219 | the hero's draw is its timer update; the creep is untouched |
| Game.HitTest | old_project_game/front1/game/game.js:104-110 | a dying creep is skipped; a hit idles a hero that is not attacking |
| Game.Frame | old_project_game/front1/game/game.js:90-113 | a stopped loop does nothing; at 0 health the game ends; otherwise scroll, creep, hero and hit test run in that order and nothing else changes |
| GameControls.Click | old_project_game/front1/game/game.js:69-87 | the hero attacks; a creep left dying schedules one 3000 ms respawn and blocks further ones; after the game has ended nothing changes |
| GameControls.BlockedClicksKeepRespawn | old_project_game/front1/game/game.js:67-86 | while blocked, no number of clicks schedules or replaces a respawn |
| GameControls.Respawn | old_project_game/front1/game/game.js:78-81 | the respawn spawns a random unlocked creep with the same rank and number and lifts the block; a failing draw, or a hero cleared by the game's end, changes nothing |
| GameControls.SpawnTimeout | old_project_game/front1/game/game.js:76-85 | a respawn timeout steps the countdown and runs the respawn when that completes it |
| GameControls.CooldownTimeout | old_project_game/front1/game/heroes/hero.js:266-274 | a timeout of any existing mana cooldown, old ones included, steps that timer alone; the energy regen returns to its base exactly when the step runs the callback; nothing else in the session changes |
| GameControls.PoisonTimeout | old_project_game/front1/game/creepData/creepsConfig.js:279-281 | afterwards no restore is pending; a pending one has brought back the base health regen; nothing else changes |
| GameControls.PauseButton | old_project_game/front1/game/game.js:156-166 | pauses the respawn countdown and the latest mana cooldown (older ones keep running), sets the flag if either exists, and stops the loop; after the game has ended only the respawn countdown is paused |
| GameControls.ResumeSpawn | old_project_game/front1/game/game.js:169 | resuming the respawn countdown clears the flag and steps it on, which may complete it; it throws exactly when that completion's draw fails or the hero has been cleared by the game's end |
| GameControls.ResumeCooldown | old_project_game/front1/game/game.js:170 | resuming the latest cooldown acts only if the flag is still set, and may restore the regen |
| GameControls.ResumeButton | old_project_game/front1/game/game.js:167-188 | both resume buttons: the respawn countdown steps on, or without one the latest mana cooldown does; a stopped loop restarts and runs a frame at once, which scrolls the background or, at 0 health, ends the game; a running loop gets no extra frame; after the game has ended only the countdown moves |
| GameControls.DealDamageKeepsHeroSane | old_project_game/front1/game/creepData/creep.js:136-141 | an impact keeps the hero sane (clamped stats, non-negative rates) |
| GameControls.CreepDrawKeepsHeroSane | old_project_game/front1/game/creepData/creep.js:182-192 | the creep's draw keeps the hero sane |
| GameControls.HeroDrawKeepsHeroSane | old_project_game/front1/game/heroes/hero.js:84-137 | the hero's draw keeps the hero sane |
| GameControls.FrameKeepsSane | old_project_game/front1/game/game.js:90-113 | a frame keeps the session invariant |
| GameControls.ClickKeepsSane | old_project_game/front1/game/game.js:69-87 | a click keeps the session invariant |
| GameControls.SpawnTimeoutKeepsSane | old_project_game/front1/game/game.js:76-85 | a respawn timeout keeps the session invariant |
| GameControls.CooldownTimeoutKeepsSane | old_project_game/front1/game/heroes/hero.js:266-274 | a cooldown timeout keeps the session invariant |
| GameControls.PoisonTimeoutKeepsSane | old_project_game/front1/game/creepData/creepsConfig.js:279-281 | the poison restore keeps the session invariant |
| GameControls.ButtonsKeepSane | old_project_game/front1/game/game.js:156-188 | pause and resume keep the session invariant |
| GameControls.Step | old_project_game/front1/game/game.js:69-188 | every event applied to a sane session leaves it sane, a call of `endGame` included |
| GameControls.Run | old_project_game/front1/game/game.js:69-188 | every run of events keeps the session sane |
| GameControls.StatsStayBounded | old_project_game/front1/game/game.js:69-188 | under any interleaving of events the hero's health and energy stay within their bounds |
| GameControls.StartIsSane | old_project_game/front1/game/game.js:11-42 | a session started from a record with non-negative stats is sane, whatever loop and pause flags it inherits |
| Sprite.New | src/game/core/AnimatedSprite.ts:96-109 | no clips, nothing playing |
| Sprite.Valid | src/game/core/AnimatedSprite.ts:116-127 | the sprite invariant: no clip is registered under the empty name, and the current frame lies inside the current clip |
| Sprite.AddAnimation | src/game/core/AnimatedSprite.ts:116-127 | a config with an empty name or no textures is refused; otherwise it is stored under its name; validity is kept |
| Sprite.StopAnimation | src/game/core/AnimatedSprite.ts:177-183 | the current clip, if any, stops playing |
| Sprite.PlayAnimation | src/game/core/AnimatedSprite.ts:135-172 | an unknown name or the current clip without forcing changes nothing; otherwise the clip starts from frame 0, playing, not complete, and onStart runs |
| Sprite.NextFrame | src/game/core/AnimatedSprite.ts:212-238 | one frame on; past the end a looping clip wraps to 0, another holds its last frame, stops, completes and runs onComplete |
| Sprite.FrameDue | src/game/core/AnimatedSprite.ts:197-201 | at a positive rate a frame is due exactly when timer times rate reaches 1000; at rate 0 never; at a negative rate always |
| Sprite.UpdateAnimation | src/game/core/AnimatedSprite.ts:190-207 | nothing unless playing; time accumulates and at one frame time the clip moves one frame and the timer restarts |
| Sprite.IsAnimationPlaying | src/game/core/AnimatedSprite.ts:261-263 | true exactly when the named clip is current and playing |
| Sprite.GetCurrentAnimationName | src/game/core/AnimatedSprite.ts:268-270 | the current clip's name, none without one or with an empty name |
| Sprite.GetAnimationProgress | src/game/core/AnimatedSprite.ts:275-279 | frame over frame count, in [0, 1), 0 without a clip |
| Sprite.Destroy | src/game/core/AnimatedSprite.ts:284-295 | stops the clip and forgets every registered clip |
| Sprite.OneShotClipCompletesAtLastFrame | src/game/core/AnimatedSprite.ts:190-238 | a one-shot clip of n frames shows frame k after k updates and completes once, at update n, holding its last frame |
| Sprite.CompletedClipStaysPut | src/game/core/AnimatedSprite.ts:190-194 | a stopped or completed clip is unchanged by further updates, which report no completion |
| Sprite.LoopingClipNeverCompletes | src/game/core/AnimatedSprite.ts:219-222 | a looping clip never completes and keeps playing |
| Sprite.CompletedClipNeedsForce | src/game/core/AnimatedSprite.ts:145-161 | replaying a completed clip without forcing leaves it complete; forcing restarts it |
| Entity.New | src/game/core/GameEntity.ts:113-136 | the stats are copied with current health set to the maximum; idle and alive |
| Entity.ClipName | src/game/core/GameEntity.ts:234-250 | each state but Dead has a clip |
| Entity.ChangeState | src/game/core/GameEntity.ts:216-229 | changing to the current state does nothing; otherwise the state's clip plays |
| Entity.Die | src/game/core/GameEntity.ts:255-269 | the first call makes the entity dying and not alive, in the dying state; later calls do nothing |
| Entity.TakeDamage | src/game/core/GameEntity.ts:148-169 | ignored when dead or dying; health drops by the amount, floored at 0, and the entity dies exactly when none is left |
| Entity.Heal | src/game/core/GameEntity.ts:176-186 | ignored when not alive; health rises by the amount, capped at the maximum |
| Entity.DealDamageTo | src/game/core/GameEntity.ts:193-205 | nothing if either side is dead; otherwise the target takes exactly the attacker's damage |
| Entity.UpdateHealthRegen | src/game/core/GameEntity.ts:349-363 | only when alive, regenerating and below max: the timer accumulates and at 1000 ms heals one regen and restarts |
| Entity.Update | src/game/core/GameEntity.ts:333-342 | the sprite's clock, then regen; health stays bounded |
| Entity.Apply | src/game/core/GameEntity.ts:148-363 | every outside event keeps the sprite invariant |
| Entity.Run | src/game/core/GameEntity.ts:148-363 | every run of events keeps the sprite invariant |
| Entity.DieIdempotent | src/game/core/GameEntity.ts:255-256 | die twice is die once |
| Entity.RunKeepsHealthBounded | src/game/core/GameEntity.ts:148-363 | any run of non-negative damage and heals, frames, kills and state changes keeps health in [0, max] |
| Entity.DeadStaysDead | src/game/core/GameEntity.ts:148-363 | a dead entity stays dead and its stats never change again |
| Entity.LethalDamageKills | src/game/core/GameEntity.ts:155-165 | damage of at least the current health leaves exactly 0 health and a dying entity |
| JsValues.Truthy | src/shared/api/mappers.ts:187 | undefined and null are falsy, a string exactly when non-empty, a number exactly when non-zero, objects and arrays always truthy |
| JsValues.IsObject | src/shared/api/mappers.ts:187 | an object value is truthy, and null is not an object |
| JsValues.Coalesce | src/shared/api/mappers.ts:91-98 | `??` replaces only null and undefined |
| JsValues.Lookup | src/shared/api/mappers.ts:84 | a missing property reads as undefined; the first matching property gives its value |
| JsValues.Get | src/shared/api/mappers.ts:84 | a named property of anything but an object is undefined |
| JsValues.Members | src/shared/api/mappers.ts:171-184 | for...in visits an object's properties in order and an array's elements under their decimal indices, and nothing for a primitive |
| HeroStore.Init | src/contexts/heroStore.ts:58 | the store starts without a record |
| HeroStore.SetStats | src/contexts/heroStore.ts:61 | the whole record is replaced |
| HeroStore.UpdateStat | src/contexts/heroStore.ts:64-69 | without a record nothing changes; otherwise exactly the given key takes the value and every other key keeps its value |
| HeroStore.LastUpdateWins | src/contexts/heroStore.ts:64-69 | a second update of the same key overrides the first |
| HeroStore.UpdatesCommute | src/contexts/heroStore.ts:64-69 | updates of different keys commute |
| HeroStore.UpdateKeepsKeys | src/contexts/heroStore.ts:67 | updating an existing key keeps the key set |
| ItemPath.LowerChar | src/shared/api/mappers.ts:249 | lower-cases an ASCII capital and keeps any other character |
| ItemPath.Content | src/shared/api/mappers.ts:248-254 | the characters the normalisation keeps, in order: every character except underscores, dashes, white space and the removed punctuation; never longer than the name |
| ItemPath.ContentAppend | src/shared/api/mappers.ts:248-254 | the kept characters of two joined names are those of the first, then those of the second |
| ItemPath.ContentDropLast | src/shared/api/mappers.ts:254 | dropping a trailing separator keeps the kept characters |
| ItemPath.Lower | src/shared/api/mappers.ts:249 | each character is lower-cased in place, so the length is kept and no capital remains; a name without capitals is kept |
| ItemPath.LowerCharSeparator | src/shared/api/mappers.ts:249-252 | lower-casing neither makes nor unmakes a separator |
| ItemPath.LowerAppend | src/shared/api/mappers.ts:249 | lower-casing two joined names lower-cases each part |
| ItemPath.LowerKeepsContent | src/shared/api/mappers.ts:249 | the kept characters of the lower-cased name are the lower-cased kept characters |
| ItemPath.TrimStart | src/shared/api/mappers.ts:250 | leading white space is removed, nothing longer results, and only characters of the name remain |
| ItemPath.TrimEnd | src/shared/api/mappers.ts:250 | trailing white space is removed, nothing longer results, and only characters of the name remain |
| ItemPath.TrimStartIsSuffix | src/shared/api/mappers.ts:250 | the left-trimmed name is a suffix, and everything cut off is white space |
| ItemPath.TrimEndIsPrefix | src/shared/api/mappers.ts:250 | the right-trimmed name is a prefix, and everything cut off is white space |
| ItemPath.TrimStartKeepsContent | src/shared/api/mappers.ts:250 | left trimming keeps every kept character |
| ItemPath.TrimEndKeepsContent | src/shared/api/mappers.ts:250 | right trimming keeps every kept character |
| ItemPath.Trim | src/shared/api/mappers.ts:250 | no white space at either end; a name without white space is kept |
| ItemPath.TrimIsSlice | src/shared/api/mappers.ts:250 | the trimmed name is one contiguous slice of the name, with only white space before and after it |
| ItemPath.TrimKeepsContent | src/shared/api/mappers.ts:250 | trimming keeps every kept character |
| ItemPath.RemoveSpecial | src/shared/api/mappers.ts:251 | none of the quotes, comma, full stop, colon and brackets remain, every other character keeps its count, and the kept characters are unchanged |
| ItemPath.DropDashRun | src/shared/api/mappers.ts:252 | a leading run of dashes and white space is dropped as one suffix of the name, keeping the kept characters |
| ItemPath.Dashes | src/shared/api/mappers.ts:252 | dashes and white space turn into underscores and no other character appears; the kept characters are unchanged, in order |
| ItemPath.DropUnderscores | src/shared/api/mappers.ts:253 | a leading run of underscores is dropped as one suffix of the name, keeping the kept characters |
| ItemPath.Collapse | src/shared/api/mappers.ts:253 | no two underscores in a row remain, the kept characters are unchanged, and emptiness and a leading underscore are kept; a name without such runs is kept |
| ItemPath.StripEdges | src/shared/api/mappers.ts:254 | after collapsing, no underscore remains at either end |
| ItemPath.StripEdgesShape | src/shared/api/mappers.ts:254 | at most one underscore is removed at each end and nothing else changes |
| ItemPath.StripEdgesKeepsContent | src/shared/api/mappers.ts:254 | stripping the edges keeps the kept characters |
| ItemPath.Cleaned | src/shared/api/mappers.ts:249-251 | no capitals and no punctuation remain, and the kept characters are those of the name, lower-cased |
| ItemPath.DashesClean | src/shared/api/mappers.ts:252 | turning dashes into underscores keeps a name free of capitals and punctuation |
| ItemPath.Underscored | src/shared/api/mappers.ts:252-254 | a clean name becomes normal, the kept characters are unchanged, and a normal name is kept |
| ItemPath.Normalize | src/shared/api/mappers.ts:248-254 | the normalised name is always normal, and its kept characters are exactly those of the name, lower-cased and in order |
| ItemPath.NormalIsFixed | src/shared/api/mappers.ts:248-254 | normalisation keeps a normal name |
| ItemPath.NormalizeIdempotent | src/shared/api/mappers.ts:248-254 | normalising twice is normalising once |
| ItemPath.GetItemImagePath | src/shared/api/mappers.ts:235-266 | the default path for a missing, empty or non-string name, or one that normalises to nothing; otherwise the items directory path of the normalised name |
| ItemPath.PathNameIsStable | src/shared/api/mappers.ts:248-262 | the name in a non-default path is non-empty, normal, and kept by normalisation |
| Mappers.ToStore | src/shared/api/mappers.ts:89-99 | the client record has exactly the nine kebab-case keys |
| Mappers.MapHeroData | src/shared/api/mappers.ts:77-100 | a non-object fails, and so does a falsy heroId; otherwise fields are renamed, and only missing or null values take the defaults 100, 1, 50, 0.5, 10, 0, 5, 5 |
| Mappers.ZeroIsKept | src/shared/api/mappers.ts:95 | a stored 0 damage is kept |
| Mappers.OnlyIdGetsDefaults | src/shared/api/mappers.ts:89-99 | a payload with only an id gets every default |
| Mappers.StoredRecordKeepsKeys | src/shared/api/mappers.ts:89-99 | a mapped record loaded into the store keeps its nine keys through an update |
| Mappers.Ceil | src/shared/api/mappers.ts:193 | the least integer at or above its argument |
| Mappers.PriceFormula | src/shared/api/mappers.ts:193 | the price times 1.15, rounded up |
| Mappers.PriceGrows | src/shared/api/mappers.ts:193 | a positive whole price grows by at least one |
| Mappers.MakeItem | src/shared/api/mappers.ts:196-209 | id from itemId or the key, title the name, image from the name, value, base value, level and prices with their defaults |
| Mappers.ValidRawItem | src/shared/api/mappers.ts:187 | a valid entry is an object, never an array, with a truthy name |
| Mappers.ValidIndices | src/shared/api/mappers.ts:183-190 | the positions of the valid entries lie inside the category |
| Mappers.ValidIndicesSound | src/shared/api/mappers.ts:187-190 | every listed position holds a valid entry |
| Mappers.ValidIndicesIncrease | src/shared/api/mappers.ts:183 | the positions strictly increase, in enumeration order |
| Mappers.ValidIndicesComplete | src/shared/api/mappers.ts:187-190 | every valid entry is listed |
| Mappers.Items | src/shared/api/mappers.ts:183-210 | one item per valid entry, in the entries' order: the k-th item is built from the k-th valid entry; none exactly when no entry is valid |
| Mappers.ItemsHaveNames | src/shared/api/mappers.ts:187-201 | every item's title is a truthy name |
| Mappers.Insert | src/shared/api/mappers.ts:215 | inserting into a sorted list keeps it sorted and adds exactly the new item |
| Mappers.DigitsValueCons | src/shared/api/mappers.ts:215 | a run of digits is its first digit scaled by the remaining length plus the rest |
| Mappers.FracValue | src/shared/api/mappers.ts:215 | the digits after a decimal point give a value in [0, 1), and no digits give 0 |
| Mappers.FracValueScaled | src/shared/api/mappers.ts:215 | the fraction times ten to its number of digits is those digits read as a whole number, so "50" after the point is 50/100 |
| Mappers.PointAt | src/shared/api/mappers.ts:215 | the first decimal point, with no point before it, or the length when there is none |
| Mappers.Unsigned | src/shared/api/mappers.ts:215 | an unsigned decimal is non-negative; a run of digits converts exactly when non-empty, to its integer value |
| Mappers.UnsignedDecimal | src/shared/api/mappers.ts:215 | digits, a point and digits convert to the whole part plus the fraction |
| Mappers.UnsignedChars | src/shared/api/mappers.ts:215 | only a non-empty string of digits and points converts |
| Mappers.StringToNumber | src/shared/api/mappers.ts:215 | the subtraction's string conversion: a blank string is 0, a leading minus negates the unsigned decimal after it, a leading plus reads it, otherwise the unsigned decimal is read |
| Mappers.PlainNumber | src/shared/api/mappers.ts:215 | an unsigned decimal with no white space or sign converts to its value |
| Mappers.UnsignedParts | src/shared/api/mappers.ts:215 | such a string converts as an unsigned decimal to the whole part plus the fraction |
| Mappers.PartsTrimmed | src/shared/api/mappers.ts:215 | such a string has nothing to trim and no sign |
| Mappers.DecimalParts | src/shared/api/mappers.ts:215 | such a string converts to the whole part plus the fraction |
| Mappers.DecimalReads | src/shared/api/mappers.ts:215 | digits, a point and digits convert to the whole part plus the fraction |
| Mappers.DecimalRoundTrip | src/shared/api/mappers.ts:215 | a whole number written in decimal, a point and digits convert back to the number plus the fraction |
| Mappers.TenAndAHalf | src/shared/api/mappers.ts:215 | "10.50" converts to 10.5 |
| Mappers.Key | src/shared/api/mappers.ts:215 | a number sorts by its value, true as 1, a numeric string by its number, a non-numeric string as 0 |
| Mappers.DigitsOfNat | src/shared/api/mappers.ts:215 | reading back the decimal digits of a whole number gives the number |
| Mappers.NumeralRoundTrip | src/shared/api/mappers.ts:215 | a whole number written in decimal converts back to itself |
| Mappers.NegativeNumeralRoundTrip | src/shared/api/mappers.ts:215 | so does a negative whole number |
| Mappers.NumeralKey | src/shared/api/mappers.ts:215 | a base value that is a decimal numeral sorts by its number |
| Mappers.NumeralsSortByValue | src/shared/api/mappers.ts:215 | base values "5" and "3" sort as 3 before 5 |
| Mappers.SortPair | src/shared/api/mappers.ts:215 | two items out of order by key are swapped |
| Mappers.SortByKey | src/shared/api/mappers.ts:215 | sorted by base value and a permutation of its input |
| Mappers.SortedIsFixed | src/shared/api/mappers.ts:215 | sorting a sorted list changes nothing |
| Mappers.SortIdempotent | src/shared/api/mappers.ts:215 | sorting twice is sorting once |
| Mappers.Grouped | src/shared/api/mappers.ts:171-220 | only categories with at least one item are kept |
| Mappers.Categories | src/shared/api/mappers.ts:171-220 | the kept categories in order, each a sorted permutation of its valid items |
| Mappers.MapItemsData | src/shared/api/mappers.ts:157-223 | a non-object payload fails, and so does one without an items object; otherwise each kept category's items are sorted by base value and are a permutation of its valid raw items |
| Mappers.GroupedNames | src/shared/api/mappers.ts:171-220 | a category appears exactly when it is an object holding at least one valid item |

## Left out

- Drawing, sound, DOM and console output are not modelled. This covers the canvas drawing, health and energy bars, sprite-sheet frame positions, the coin animation, the creep-info and coin displays, every `Audio` call, the hero's `isPlaying` field and `stopSound`/`resumeSound`. None of them feeds back into the game state.
- The hero's display interpolation of energy and health is not modelled. It only affects drawing.
- The server sync calls (`updateGold`, `changeGold`) are not modelled. They are fire-and-forget side effects.
- The mute button is not modelled. It only touches sounds.
- The window resize handler is not modelled. The canvas size and the background's scaled image width are fixed parameters of a session, and `Background.resize` is left out with it.
- The creep's vertical position and `showCreep` flag are not modelled. The position only affects drawing, and `spawn` always sets the flag.
- The growth curves `base ** 1.15 ** rank` and `coins ** 1.07 ** rank` are function parameters, because their floating-point powers cannot be stated exactly. All that is assumed is that rank 0 returns the base, that the result of a non-negative base is non-negative, and that base 1 gives 1.
- Creeps.Spawn: the scaled health and damage are stated through the `grow` curve parameter, not through the floating-point power of the source; Creeps.HandleAttack states the reward through the `reward` parameter in the same way.
- Game.Frame: the frame uses the draw calls' default steps (16.66 ms for the creep, 16.6 ms for the hero). The loop never passes a measured delta.
- The creep's scale is 0 before the first draw, where the code has `undefined`. The loop always draws before it tests collisions, so the difference cannot be observed.
- StepTimer.Resume: it requires that no step is scheduled while the shared flag is set. A resume on a timer with a live step chain would start a second chain, which a single `pending` flag cannot represent. Every state the game reaches meets this requirement (`GameControls.Sane`).
- GameControls.ResumeButton: it carries the same requirement as `StepTimer.Resume`, through the session invariant.
- Game.Start: the session is the one the image loader's callback sets up. A click before the images have loaded throws on the missing creep, and that window is not modelled.
- The voul poison's 1000 ms `setTimeout` is a pending flag cleared by an explicit restore event.
- `Math.random` is a roll in [0, 1). Random sound choice is dropped with the sounds.
- JsValues.Truthy: `NaN` is not representable, because numbers are reals. A `NaN` field would be falsy in JavaScript.
- JsValues.Members: object properties are enumerated in the order the value lists them. JavaScript enumerates integer-like keys first, and the model takes the order as given.
- JsValues.Get: a named property of an array or primitive reads as undefined. The properties the mappers read are never defined there.
- ItemPath.LowerChar: only ASCII capitals are lower-cased. `toLowerCase` also maps non-ASCII letters.
- ItemPath.Normalize: its own contract fixes which characters survive, in order, and that the result is normal. Where the underscores fall between the kept characters is stated only step by step, by the contracts of `RemoveSpecial`, `Dashes`, `Collapse` and `StripEdges`.
- Mappers.MakeItem: the item id is the value `String()` is applied to. String conversion of numbers is not modelled.
- Mappers.Key: only plainly written decimal strings, with an optional sign and point, are converted. Exponent, hexadecimal, binary and octal strings, `Infinity`, and arrays of at most one element have definite numbers in JavaScript ("1e3" is 1000, `[]` is 0). The model gives them key 0, so items that carry them are ordered differently. Non-numeric strings, objects and arrays of two or more elements give the comparator `NaN`; the model also keys them as 0, while JavaScript's order is then implementation-defined.
- Mappers.SortByKey: the result is some sorted permutation. That `Array.prototype.sort` is stable, keeping items with equal keys in their order, is not stated.
- Mappers.PriceFormula: the product with 1.15 is exact. A double product that lands just above an integer would round one higher in JavaScript.
- The `ShopItem.priceFormula` closure is not stored in the item. It is the same function, `Mappers.PriceFormula`, for every item.
- The `onStart` and `onComplete` callbacks of `AnimatedSprite` are reported as flags in the results. The displayed texture (`updateFrame`) and the PixiJS container are not modelled. Textures are represented by their count.
- The overridable hooks of `GameEntity` are the base class's empty ones. This covers `onTakeDamage`, `onDealDamage`, `onDeath`, `onStateChange` and `onUpdate`.
- `GameEntity`'s health-bar graphics and its `destroy` are not modelled. `destroy` only frees graphics before the sprite's own `destroy` (`Sprite.Destroy`).
- The getters of `GameEntity` are field reads of the model's record.
- The hero store's `set` mechanics (the zustand library) are not modelled. A store state is a value and each transition a function.
