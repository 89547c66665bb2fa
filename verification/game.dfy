/** The legacy game loop (`initializeCanvas` in game.js): the choice of the
    next creep, spawning with the kill counter carried over, the session
    state and one animation frame of `gameLoop`. The click, timer and pause
    handlers are in module GameControls. The canvas, drawing, sounds and the
    resize handler are not modelled; the canvas size and the background
    image's scaled width are fixed session parameters. */
module Game {
  import opened Wrappers
  import opened CreepTemplates
  import opened Frames
  import Creeps
  import CreepFactory
  import HeroConfig
  import Heroes
  import Scroll
  import StepTimer

  /** The draw calls' default time steps in milliseconds: the loop never
      passes a measured delta. */
  const CreepDt: real := 16.66
  const HeroDt: real := 16.6

  /** The hero is drawn at a fixed horizontal position. */
  const HeroX: real := -60.0

  datatype GameError =
    | HeroSetup(heroError: HeroConfig.ConfigError)
    | NoUnlockedCreep      // indexing the empty list yields `undefined.type`
    | CreepSetup(creepError: CreepFactory.FactoryError)

  /** Registry indices whose unlock level the hero's level reaches, in
      registry order. */
  function Unlocked(ts: seq<CreepTemplate>, level: real): (ix: seq<nat>)
    ensures forall k :: 0 <= k < |ix| ==> ix[k] < |ts| && ts[ix[k]].unlockedLevel as real <= level
    ensures forall i :: 0 <= i < |ts| && ts[i].unlockedLevel as real <= level ==> i in ix
    ensures forall a, b :: 0 <= a < b < |ix| ==> ix[a] < ix[b]
    decreases |ts|
  {
    if |ts| == 0 then []
    else
      var p := Unlocked(ts[..|ts| - 1], level);
      if ts[|ts| - 1].unlockedLevel as real <= level then p + [|ts| - 1] else p
  }

  /** An unlock level no lower than 0, and a registry that starts with a
      creep available from the start. */
  predicate UnlockLevelsFromZero(ts: seq<CreepTemplate>) {
    |ts| > 0 && ts[0].unlockedLevel == 0 && forall i :: 0 <= i < |ts| ==> ts[i].unlockedLevel >= 0
  }

  /** The registry index `generateUnlockedCreep` picks: the unlocked index at
      position `floor(roll * count)`. */
  function PickUnlocked(ts: seq<CreepTemplate>, level: real, roll: real): (r: Option<nat>)
    requires 0.0 <= roll < 1.0 && UnlockLevelsFromZero(ts)
    ensures r.Some? <==> level >= 0.0
    ensures r.Some? ==> r.value < |ts| && ts[r.value].unlockedLevel as real <= level
  {
    var ix := Unlocked(ts, level);
    assert level >= 0.0 ==> 0 in ix;
    if |ix| == 0 then None
    else
      assert level >= 0.0 by { assert ts[ix[0]].unlockedLevel >= 0; }
      Some(ix[Position(roll, |ix|)])
  }

  /** `Math.floor(roll * n)`: a position in a list of length `n`. */
  function Position(roll: real, n: nat): (k: nat)
    requires 0.0 <= roll < 1.0 && n > 0
    ensures k < n
    ensures k as real <= roll * n as real < k as real + 1.0
  {
    var x := roll * n as real;
    assert n as real - x == (1.0 - roll) * n as real;
    assert (1.0 - roll) * n as real > 0.0;
    x.Floor
  }

  /** The roll `k / n` lands on position `k` of `n`. */
  function RollFor(k: nat, n: nat): (roll: real)
    requires k < n
    ensures 0.0 <= roll < 1.0 && Position(roll, n) == k
  {
    var roll := k as real / n as real;
    assert roll * n as real == k as real;
    roll
  }

  /** Every unlocked index is picked by some roll. */
  lemma EveryUnlockedIndexCanBePicked(ts: seq<CreepTemplate>, level: real, i: nat) returns (roll: real)
    requires UnlockLevelsFromZero(ts) && i < |ts| && ts[i].unlockedLevel as real <= level
    ensures 0.0 <= roll < 1.0 && PickUnlocked(ts, level, roll) == Some(i)
  {
    var ix := Unlocked(ts, level);
    assert i in ix;
    var k :| 0 <= k < |ix| && ix[k] == i;
    roll := RollFor(k, |ix|);
  }

  /** `generateUnlockedCreep(level)`, `roll` standing for `Math.random()`.
      It fails only for a negative level, below every unlock level. */
  function GenerateUnlockedCreep(level: real, roll: real): (r: Result<string, GameError>)
    requires 0.0 <= roll < 1.0
    ensures r.Success? <==> level >= 0.0
    ensures r.Failure? ==> r.error == NoUnlockedCreep
    ensures r.Success? ==> exists i :: 0 <= i < |Templates()| && Templates()[i].typeName == r.value
                                       && Templates()[i].unlockedLevel as real <= level
  {
    var ts := Templates();
    match PickUnlocked(ts, level, roll)
    case None => Failure(NoUnlockedCreep)
    case Some(i) => Success(ts[i].typeName)
  }

  /** Every unlocked type is the outcome of some roll. */
  lemma EveryUnlockedTypeCanSpawn(level: real, i: nat)
    requires i < |Templates()| && Templates()[i].unlockedLevel as real <= level
    ensures exists roll: real :: 0.0 <= roll < 1.0 && GenerateUnlockedCreep(level, roll) == Success(Templates()[i].typeName)
  {
    var roll := EveryUnlockedIndexCanBePicked(Templates(), level, i);
    assert GenerateUnlockedCreep(level, roll) == Success(Templates()[i].typeName);
  }

  /** The session: the objects `initializeCanvas` keeps in its closure and
      the module flags. `spawnTimer` is `spawnProcess`; `paused` is the timers'
      shared `isPaused`; `running` is `isGameRunning`; `ended` says `endGame`
      has cleared the hero and the creep. */
  datatype Session = Session(
    hero: Heroes.Hero, creep: Creeps.Creep, bg: Scroll.Background,
    spawnTimer: Option<StepTimer.Timer>, spamBlock: bool,
    paused: bool, running: bool, ended: bool,
    canvasWidth: real, canvasHeight: real, fixedWidth: real)

  /** `spawnNewCreep(type)`: a `"random"` type is drawn from the unlocked
      ones; the new creep inherits the current one's rank and kill number,
      is placed and spawned (scaled by that rank). */
  function SpawnNewCreep(s: Session, typeName: string, roll: real, cv: Creeps.Curves): (r: Result<Creeps.Creep, GameError>)
    requires 0.0 <= roll < 1.0
    ensures typeName == "random" && s.hero.level < 0.0 ==> r == Failure(NoUnlockedCreep)
    ensures typeName == "random" && s.hero.level >= 0.0 ==> r.Success?
    ensures r.Success? ==> r.value.rank == s.creep.rank && r.value.number == s.creep.number
    ensures r.Success? ==> r.value.isAlive && !r.value.isDying && !r.value.isColliding
    ensures r.Success? ==> r.value.healthLeft == r.value.healthTotal as real && r.value.x == s.canvasWidth
    ensures r.Success? ==> exists i :: 0 <= i < |Templates()| && PlayableAnims(Templates()[i].animations)
                                       && r.value.animations == Templates()[i].animations
                                       && r.value.healthTotal == cv.grow(Templates()[i].creepHealthTotal, s.creep.rank)
                                       && r.value.creepDamage == cv.grow(Templates()[i].creepDamage, s.creep.rank)
  {
    var chosen := if typeName == "random" then GenerateUnlockedCreep(s.hero.level, roll) else Success(typeName);
    if chosen.Failure? then Failure(chosen.error)
    else
      var made := CreepFactory.CreateCreep(chosen.value, s.creep.rank, s.creep.number);
      if made.Failure? then Failure(CreepSetup(made.error))
      else
        assert typeName == "random" ==> chosen.value != "random";
        SpawnKeepsTemplate(made.value, s.canvasWidth, cv);
        Success(Creeps.Spawn(Creeps.Initialize(made.value, s.canvasWidth), cv, s.canvasWidth))
  }

  /** A creep built from a registered template keeps the template's clips
      and scales its health and damage by its rank when spawned. */
  lemma SpawnKeepsTemplate(c: Creeps.Creep, canvasWidth: real, cv: Creeps.Curves)
    requires exists i :: 0 <= i < |Templates()| && CreepFactory.FromTemplate(c, Templates()[i])
    ensures var r := Creeps.Spawn(Creeps.Initialize(c, canvasWidth), cv, canvasWidth);
            exists i :: 0 <= i < |Templates()| && PlayableAnims(Templates()[i].animations)
                        && r.animations == Templates()[i].animations
                        && r.healthTotal == cv.grow(Templates()[i].creepHealthTotal, c.rank)
                        && r.creepDamage == cv.grow(Templates()[i].creepDamage, c.rank)
  {
    var i :| 0 <= i < |Templates()| && CreepFactory.FromTemplate(c, Templates()[i]);
    var r := Creeps.Spawn(Creeps.Initialize(c, canvasWidth), cv, canvasWidth);
    assert PlayableAnims(Templates()[i].animations);
    assert r.animations == Templates()[i].animations;
  }

  /** The first creep: the default type, kill number 1, rank 0. */
  function FirstCreep(canvasWidth: real, cv: Creeps.Curves): (c: Creeps.Creep)
    requires Creeps.ValidCurves(cv)
    ensures c.rank == 0 && c.number == 1 && c.isAlive && !c.isDying && !c.isColliding
    ensures c.animations == Templates()[0].animations && c.functions == NoModifier
    ensures c.healthTotal == Templates()[0].creepHealthTotal && c.creepDamage == Templates()[0].creepDamage
    ensures c.healthLeft == c.healthTotal as real && c.x == canvasWidth
  {
    var made := CreepFactory.CreateCreep("defaultCreep", 0, 1);
    assert Templates()[0].typeName == "defaultCreep";
    var c := made.value;
    assert c.functions == Templates()[0].functions && c.animations == Templates()[0].animations by {
      var j :| 0 <= j < |Templates()| && Templates()[j].typeName == "defaultCreep" && CreepFactory.FromTemplate(c, Templates()[j]);
      assert j == 0;
    }
    Creeps.Spawn(Creeps.Initialize(c, canvasWidth), cv, canvasWidth)
  }

  /** Set-up, as it stands once the images have loaded: the background
      scrolls at a 200th of the canvas width, the juggernaut is built from
      the cached record and the first creep is spawned. The loop and pause
      flags live at module level, so a set-up in the same page as an earlier
      session inherits them: `isGameRunning` is true only on the first
      set-up or after a resume, and `isPaused` keeps whatever the last
      countdown left. */
  function Start(data: Option<HeroConfig.RawHero>, isGameRunning: bool, isPaused: bool,
                 canvasWidth: real, canvasHeight: real, fixedWidth: real,
                 cv: Creeps.Curves): (r: Result<Session, GameError>)
    requires Creeps.ValidCurves(cv)
    ensures r.Failure? <==> data.None?
    ensures r.Success? ==> HeroConfig.HeroFromRecord(r.value.hero, data.value)
    ensures r.Success? ==> r.value.creep == FirstCreep(canvasWidth, cv)
    ensures r.Success? ==> r.value.bg.speed == r.value.bg.defaultSpeed == canvasWidth / 200.0
    ensures r.Success? ==> r.value.running == isGameRunning && r.value.paused == isPaused && !r.value.ended
    ensures r.Success? ==> r.value.spawnTimer.None? && r.value.spamBlock
  {
    var made := HeroConfig.CreateHero(data, "juggernaut");
    if made.Failure? then Failure(HeroSetup(made.error))
    else
      Success(Session(made.value, FirstCreep(canvasWidth, cv), Scroll.SetSpeed(Scroll.New(), canvasWidth / 200.0),
                      None, true, isPaused, isGameRunning, false, canvasWidth, canvasHeight, fixedWidth))
  }

  /** The hero's drawn width: its clip's frame width at the scale that makes
      a frame half the canvas high. */
  function HeroWidth(h: Heroes.Hero, canvasHeight: real): real
    requires Heroes.PlayableAnims(h.anims)
  {
    var clip := Heroes.ClipOf(h);
    clip.frameWidth as real * (canvasHeight / 2.0 / clip.frameHeight as real)
  }

  /** The first part of the creep's `draw`: set the scale from the canvas
      height, and move with the background unless holding a collision (a
      dying creep always moves). */
  function DrawMove(c: Creeps.Creep, bg: Scroll.Background, canvasHeight: real): (r: Creeps.Creep)
    requires Playable(c.animations.idle)
    ensures r.x == (if c.isDying || !c.isColliding then c.x - bg.speed else c.x)
    ensures r == c.(scale := r.scale, x := r.x)
  {
    var scaled := c.(scale := canvasHeight / c.animations.idle.frameHeight as real / 2.0);
    if c.isDying || !c.isColliding then scaled.(x := c.x - bg.speed) else scaled
  }

  /** `endGame`: the loop stops and the background's speed is set to 0. */
  function EndGame(s: Session): (r: Session)
    ensures r.ended && !r.running && r.bg.speed == 0.0 && r.bg.defaultSpeed == 0.0
    ensures r == s.(ended := true, running := false, bg := r.bg)
  {
    s.(ended := true, running := false, bg := Scroll.SetSpeed(s.bg, 0.0))
  }

  /** Hero, creep and scroll coordinator within a frame. */
  datatype Scene = Scene(hero: Heroes.Hero, creep: Creeps.Creep, bg: Scroll.Background)

  /** The creep's `draw`: move, then advance the clip by the fixed step,
      possibly striking the hero. */
  function CreepDraw(sc: Scene, canvasHeight: real): (r: Scene)
    requires PlayableAnims(sc.creep.animations)
    ensures r.bg == sc.bg
    ensures r.creep.x == (if sc.creep.isDying || !sc.creep.isColliding then sc.creep.x - sc.bg.speed else sc.creep.x)
    ensures r.creep == sc.creep.(scale := r.creep.scale, x := r.creep.x, frame := r.creep.frame, frameTimer := r.creep.frameTimer)
    ensures r.hero.cooldowns == sc.hero.cooldowns && r.hero.anims == sc.hero.anims
  {
    var t := Creeps.UpdateAnimation(DrawMove(sc.creep, sc.bg, canvasHeight), CreepDt, sc.hero);
    Scene(t.hero, t.creep, sc.bg)
  }

  /** The hero's `draw`: regen and clip advance by the fixed step. */
  function HeroDraw(sc: Scene): (r: Scene)
    requires Heroes.PlayableAnims(sc.hero.anims)
    ensures r.creep == sc.creep
    ensures r.hero == Heroes.UpdateTimers(sc.hero, HeroDt, sc.creep.isColliding, sc.creep.isAlive, sc.bg).hero
    ensures r.bg == Heroes.UpdateTimers(sc.hero, HeroDt, sc.creep.isColliding, sc.creep.isAlive, sc.bg).bg
    ensures r.hero.cooldowns == sc.hero.cooldowns && r.hero.anims == sc.hero.anims && r.bg.x == sc.bg.x
  {
    var hf := Heroes.UpdateTimers(sc.hero, HeroDt, sc.creep.isColliding, sc.creep.isAlive, sc.bg);
    Scene(hf.hero, sc.creep, hf.bg)
  }

  /** The loop's hit test, skipped for a dying creep: a hit idles a hero
      that is not attacking (its frame index is kept). */
  function HitTest(sc: Scene, canvasHeight: real): (r: Scene)
    requires Heroes.PlayableAnims(sc.hero.anims)
    ensures sc.creep.isDying ==> r == sc
    ensures !sc.creep.isDying ==>
              var hit := Creeps.Overlaps(sc.creep, HeroX, HeroWidth(sc.hero, canvasHeight));
              && r.creep.isColliding == hit
              && r.hero == (if hit && sc.hero.clip != Heroes.Attack then sc.hero.(clip := Heroes.Idle) else sc.hero)
    ensures r.creep == sc.creep.(isColliding := r.creep.isColliding, clip := r.creep.clip)
    ensures r.bg.x == sc.bg.x
  {
    if sc.creep.isDying then sc
    else
      var ct := Creeps.CheckCollision(sc.creep, HeroX, HeroWidth(sc.hero, canvasHeight), sc.bg);
      var h := if ct.overlap == Some(true) && sc.hero.clip != Heroes.Attack then sc.hero.(clip := Heroes.Idle) else sc.hero;
      Scene(h, ct.creep, ct.bg)
  }

  /** One `gameLoop` frame. Stopped, nothing happens; with the hero at 0
      health the game ends. Otherwise, in this order: the background scrolls;
      the creep moves and advances its clip, dealing its blow if due; the
      hero regenerates and advances its clip; a creep that is not dying is
      checked for a hit. Only the hero, the creep and the scroll change. */
  function Frame(s: Session): (r: Session)
    requires Heroes.PlayableAnims(s.hero.anims) && PlayableAnims(s.creep.animations)
    ensures !s.running ==> r == s
    ensures s.running && s.hero.health <= 0.0 ==> r == EndGame(s)
    ensures s.running && s.hero.health > 0.0 ==>
              && r == s.(hero := r.hero, creep := r.creep, bg := r.bg)
              && r.hero.cooldowns == s.hero.cooldowns && r.hero.anims == s.hero.anims
              && r.creep == s.creep.(scale := r.creep.scale, x := r.creep.x, frame := r.creep.frame,
                                     frameTimer := r.creep.frameTimer, isColliding := r.creep.isColliding,
                                     clip := r.creep.clip)
              && r.bg.x == Scroll.ScrollStep(s.bg, s.fixedWidth).x
              && r.creep.x == (if s.creep.isDying || !s.creep.isColliding
                               then s.creep.x - Scroll.ScrollStep(s.bg, s.fixedWidth).speed else s.creep.x)
    ensures s.running && s.hero.health > 0.0 && s.creep.isDying ==>
              r.creep.isColliding == s.creep.isColliding && r.creep.clip == s.creep.clip
  {
    if !s.running then s
    else if s.hero.health <= 0.0 then EndGame(s)
    else
      var sc := HitTest(HeroDraw(CreepDraw(Scene(s.hero, s.creep, Scroll.ScrollStep(s.bg, s.fixedWidth)), s.canvasHeight)), s.canvasHeight);
      s.(hero := sc.hero, creep := sc.creep, bg := sc.bg)
  }
}
