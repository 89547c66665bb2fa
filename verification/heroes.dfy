/** The hero of the legacy game (class `Hero`): its resource economy and its
    frame clock. The attack command, which reaches into the creep, is in
    module HeroCombat. Drawing, sound and the display interpolation of the
    bars are not modelled. */
module Heroes {
  import opened Frames
  import StepTimer
  import Scroll

  datatype HeroClip = Run | Attack | Idle

  /** The three clips of the hero's configuration. */
  datatype HeroAnims = HeroAnims(run: Clip, attack: Clip, idle: Clip)

  /** `cooldowns` holds every mana-cooldown timer the hero has created, oldest
      first: a new one does not cancel the old ones, whose steps keep running.
      The last one is the one the pause controls reach (`hero.manaCooldown`).
      `poisonPending` says a poison restore of the health regen is scheduled. */
  datatype Hero = Hero(
    damage: real, maxHealth: real, health: real,
    baseHealthRegen: real, healthRegen: real,
    maxEnergy: real, energy: real,
    baseEnergyRegen: real, energyRegen: real,
    vampirism: real, coins: real, level: real,
    anims: HeroAnims,
    clip: HeroClip, frame: nat, frameTimer: real,
    isAttacking: bool, isColliding: bool,
    cooldowns: seq<StepTimer.Timer>,
    poisonPending: bool)

  function Min(a: real, b: real): real { if a <= b then a else b }

  function Max(a: real, b: real): real { if a >= b then a else b }

  function ClipOf(h: Hero): Clip {
    match h.clip
    case Run => h.anims.run
    case Attack => h.anims.attack
    case Idle => h.anims.idle
  }

  predicate PlayableAnims(a: HeroAnims) {
    Playable(a.run) && Playable(a.attack) && Playable(a.idle)
  }

  /** The stats clamp: health in [0, maxHealth], energy in [0, maxEnergy]. */
  ghost predicate Bounded(h: Hero) {
    0.0 <= h.health <= h.maxHealth && 0.0 <= h.energy <= h.maxEnergy
  }

  /** The constructor, with the parameters in the order the source declares
      them: full health and energy, regen rates at their bases, running, not
      attacking, no timers. */
  function New(damage: real, maxHealth: real, healthRegen: real, coins: real, level: real,
               maxEnergy: real, energyRegen: real, vampirism: real, anims: HeroAnims): (h: Hero)
    ensures h.health == h.maxHealth == maxHealth && h.energy == h.maxEnergy == maxEnergy
    ensures h.healthRegen == h.baseHealthRegen == healthRegen
    ensures h.energyRegen == h.baseEnergyRegen == energyRegen
    ensures h.damage == damage && h.coins == coins && h.level == level && h.vampirism == vampirism
    ensures h.anims == anims && h.clip == Run && h.frame == 0 && h.frameTimer == 0.0
    ensures !h.isAttacking && !h.isColliding && h.cooldowns == [] && !h.poisonPending
  {
    Hero(damage, maxHealth, maxHealth, healthRegen, healthRegen, maxEnergy, maxEnergy,
         energyRegen, energyRegen, vampirism, coins, level, anims, Run, 0, 0.0,
         false, false, [], false)
  }

  /** Energy regenerates below its maximum unless the hero is swinging
      without having engaged (its own collision flag). */
  predicate EnergyRegenActive(h: Hero)
    ensures h.energy >= h.maxEnergy ==> !EnergyRegenActive(h)
    ensures h.clip != Attack || h.isColliding ==> (EnergyRegenActive(h) <==> h.energy < h.maxEnergy)
  {
    h.energy < h.maxEnergy && !(h.clip == Attack && !h.isColliding)
  }

  /** Health regenerates for a living hero below its maximum unless the hero
      is swinging while the creep is not in contact. */
  predicate HealthRegenActive(h: Hero, creepColliding: bool)
    ensures h.health <= 0.0 || h.health >= h.maxHealth ==> !HealthRegenActive(h, creepColliding)
    ensures h.clip != Attack || creepColliding ==> (HealthRegenActive(h, creepColliding) <==> 0.0 < h.health < h.maxHealth)
  {
    0.0 < h.health < h.maxHealth && !(h.clip == Attack && !creepColliding)
  }

  /** The two regen blocks of `updateTimers`, energy first. */
  function Regen(h: Hero, dt: real, creepColliding: bool): (r: Hero)
    ensures r == h.(energy := r.energy, health := r.health)
    ensures EnergyRegenActive(h) ==> r.energy == Min(h.maxEnergy, h.energy + h.energyRegen * dt / 1000.0)
    ensures !EnergyRegenActive(h) ==> r.energy == h.energy
    ensures HealthRegenActive(h, creepColliding) ==> r.health == Min(h.maxHealth, h.health + h.healthRegen * dt / 1000.0)
    ensures !HealthRegenActive(h, creepColliding) ==> r.health == h.health
    ensures h.energyRegen >= 0.0 && dt >= 0.0 ==> r.energy >= h.energy
    ensures h.healthRegen >= 0.0 && dt >= 0.0 ==> r.health >= h.health
  {
    var e := if EnergyRegenActive(h) then Min(h.maxEnergy, h.energy + h.energyRegen * dt / 1000.0) else h.energy;
    var hp := if HealthRegenActive(h, creepColliding) then Min(h.maxHealth, h.health + h.healthRegen * dt / 1000.0) else h.health;
    h.(energy := e, health := hp)
  }

  /** Regen never leaves the clamp. */
  lemma RegenKeepsBounds(h: Hero, dt: real, creepColliding: bool)
    requires Bounded(h) && h.energyRegen >= 0.0 && h.healthRegen >= 0.0 && dt >= 0.0
    ensures Bounded(Regen(h, dt, creepColliding))
  {
  }

  /** Hero and scroll coordinator after a frame update. */
  datatype HeroFrame = HeroFrame(hero: Hero, bg: Scroll.Background)

  /** One frame advance (the timer has just exceeded the clip's interval).
      The attack clip climbs to `totalFrames - 5` and then ends: back to the
      run clip (resuming the scroll) when the creep is out of contact or
      dead, otherwise to idle. Other clips loop. */
  function AdvanceFrame(h: Hero, creepColliding: bool, creepAlive: bool, bg: Scroll.Background): (r: HeroFrame)
    requires PlayableAnims(h.anims)
    ensures h.clip != Attack ==> r == HeroFrame(h.(frame := (h.frame + 1) % ClipOf(h).totalFrames), bg)
    ensures h.clip == Attack && h.frame + 5 < ClipOf(h).totalFrames ==> r == HeroFrame(h.(frame := h.frame + 1), bg)
    ensures h.clip == Attack && h.frame + 5 >= ClipOf(h).totalFrames ==>
              && r.hero == h.(clip := r.hero.clip, isAttacking := false, frame := 0)
              && (creepColliding && creepAlive ==> r.hero.clip == Idle && r.bg == bg)
              && (!(creepColliding && creepAlive) ==> r.hero.clip == Run && r.bg == Scroll.ReturnSpeed(bg))
  {
    var clip := ClipOf(h);
    if h.clip == Attack then
      if (h.frame as int) < (clip.totalFrames as int) - 5 then HeroFrame(h.(frame := h.frame + 1), bg)
      else if !creepColliding || !creepAlive then
        HeroFrame(h.(clip := Run, isAttacking := false, frame := 0), Scroll.ReturnSpeed(bg))
      else HeroFrame(h.(clip := Idle, isAttacking := false, frame := 0), bg)
    else HeroFrame(h.(frame := (h.frame + 1) % clip.totalFrames), bg)
  }

  /** `updateTimers(deltaTime, creep, background)` without the display
      interpolation: accumulate time, regenerate, then advance at most one
      frame when the accumulator strictly exceeds the clip's interval. */
  function UpdateTimers(h: Hero, dt: real, creepColliding: bool, creepAlive: bool, bg: Scroll.Background): (r: HeroFrame)
    requires PlayableAnims(h.anims)
    ensures var g := Regen(h, dt, creepColliding);
            && r.hero.energy == g.energy && r.hero.health == g.health
            && (h.frameTimer + dt <= ClipOf(h).frameInterval as real ==>
                  r == HeroFrame(g.(frameTimer := h.frameTimer + dt), bg))
            && (h.frameTimer + dt > ClipOf(h).frameInterval as real ==>
                  r == AdvanceFrame(g.(frameTimer := 0.0), creepColliding, creepAlive, bg))
    ensures r.hero == h.(energy := r.hero.energy, health := r.hero.health, clip := r.hero.clip, frame := r.hero.frame,
                         frameTimer := r.hero.frameTimer, isAttacking := r.hero.isAttacking)
    ensures r.bg.x == bg.x && (r.bg.speed == bg.speed || r.bg.speed == bg.defaultSpeed)
  {
    // The accumulator is bumped first in the source; regen does not read it.
    var t := h.frameTimer + dt;
    var g := Regen(h, dt, creepColliding);
    if t > ClipOf(h).frameInterval as real then AdvanceFrame(g.(frameTimer := 0.0), creepColliding, creepAlive, bg)
    else HeroFrame(g.(frameTimer := t), bg)
  }

  /** A looping clip keeps the frame index inside the clip. */
  lemma LoopingClipKeepsFrameInRange(h: Hero, creepColliding: bool, creepAlive: bool, bg: Scroll.Background)
    requires PlayableAnims(h.anims) && h.clip != Attack
    ensures AdvanceFrame(h, creepColliding, creepAlive, bg).hero.frame < ClipOf(h).totalFrames
  {
  }

  /** `n` frame advances with the creep's flags held fixed. */
  function Advances(f: HeroFrame, n: nat, creepColliding: bool, creepAlive: bool): HeroFrame
    requires PlayableAnims(f.hero.anims)
    ensures Advances(f, n, creepColliding, creepAlive).hero.anims == f.hero.anims
  {
    if n == 0 then f
    else
      var g := Advances(f, n - 1, creepColliding, creepAlive);
      AdvanceFrame(g.hero, creepColliding, creepAlive, g.bg)
  }

  /** Started at frame 0, the attack clip shows frames 0 .. totalFrames - 5
      and ends on the advance after that: `totalFrames - 4` advances in all
      (30 for the 34-frame clip), after which the hero no longer attacks. */
  lemma {:induction false} AttackClipLength(h: Hero, bg: Scroll.Background, k: nat, creepColliding: bool, creepAlive: bool)
    requires PlayableAnims(h.anims) && h.anims.attack.totalFrames >= 5
    requires h.clip == Attack && h.frame == 0
    requires k <= h.anims.attack.totalFrames - 4
    ensures var r := Advances(HeroFrame(h, bg), k, creepColliding, creepAlive).hero;
            if k < h.anims.attack.totalFrames - 4
            then r.clip == Attack && r.frame == k && r.isAttacking == h.isAttacking
            else r.clip != Attack && r.frame == 0 && !r.isAttacking
  {
    if k > 0 {
      AttackClipLength(h, bg, k - 1, creepColliding, creepAlive);
    }
  }
}
