/** The creep of the legacy game (class `Creep`): spawn-time scaling, the
    frame clock with its swing and impact triggers, the hold on the last
    death frame, the horizontal collision edges, and hero-hit resolution
    with death, the kill counter and rank-up. Sounds, drawing, the coin
    animation and the gold sync are not modelled. */
module Creeps {
  import opened Frames
  import opened CreepTemplates
  import Heroes
  import Scroll

  /** The growth curves `floor(base ** 1.15 ** rank)` (health and damage) and
      `floor(coins ** 1.07 ** rank)` (gold reward). Their floating-point powers
      are not modelled: they are parameters, of which `ValidCurves` is all
      that is known. */
  datatype Curves = Curves(grow: (int, nat) -> int, reward: (int, nat) -> int)

  /** A power with exponent `x ** 0 = 1` returns its base, `1 ** x = 1`, and
      the floor of a power of a non-negative base is non-negative. */
  ghost predicate ValidCurves(cv: Curves) {
    && (forall b :: cv.grow(b, 0) == b)
    && (forall b, k :: b >= 0 ==> cv.grow(b, k) >= 0)
    && (forall b :: cv.reward(b, 0) == b)
    && (forall k :: cv.reward(1, k) == 1)
  }

  datatype CreepClip = IdleClip | AttackClip | DeathClip

  /** `scale` is set by each draw (half the canvas height over the idle frame
      height); `width` by `initialize`. */
  datatype Creep = Creep(
    unlockedLevel: int, creepDamage: int, healthTotal: int, healthLeft: real, coinsEarned: int,
    animations: CreepAnims, imgConfigs: ImgConfigs, functions: OnHit,
    rank: nat, number: nat,
    clip: CreepClip, frame: nat, frameTimer: real,
    x: real, width: real, scale: real,
    isColliding: bool, isDying: bool, isAlive: bool, isGameActive: bool)

  /** Kills per rank. */
  const CreepsToLvlup: nat := 100

  function ClipOf(c: Creep): Clip {
    match c.clip
    case IdleClip => c.animations.idle
    case AttackClip => c.animations.attack
    case DeathClip => c.animations.death
  }

  /** The constructor, parameters in the source's order. */
  function New(unlockedLevel: int, creepDamage: int, creepHealthTotal: int, coinsEarned: int,
               animations: CreepAnims, imgConfigs: ImgConfigs, functions: OnHit,
               creepRank: nat, creepNumber: nat): (c: Creep)
    ensures c.unlockedLevel == unlockedLevel && c.creepDamage == creepDamage && c.coinsEarned == coinsEarned
    ensures c.healthTotal == creepHealthTotal && c.healthLeft == creepHealthTotal as real
    ensures c.animations == animations && c.imgConfigs == imgConfigs && c.functions == functions
    ensures c.rank == creepRank && c.number == creepNumber
    ensures c.clip == IdleClip && c.frame == 0 && c.frameTimer == 0.0
    ensures c.isAlive && !c.isDying && !c.isColliding && c.isGameActive
  {
    Creep(unlockedLevel, creepDamage, creepHealthTotal, creepHealthTotal as real, coinsEarned,
          animations, imgConfigs, functions, creepRank, creepNumber,
          IdleClip, 0, 0.0, 0.0, 0.0, 0.0, false, false, true, true)
  }

  /** `initialize(canvas)`: width from the idle frame and the image scale,
      placed 20 pixels left of the right edge. Only the geometry changes. */
  function Initialize(c: Creep, canvasWidth: real): (r: Creep)
    ensures r == c.(width := r.width, x := r.x)
    ensures r.x < canvasWidth
    ensures c.imgConfigs.imgScale >= 0.0 ==> r.width >= 0.0
    ensures r.width == c.animations.idle.frameWidth as real * c.imgConfigs.imgScale
  {
    c.(width := c.animations.idle.frameWidth as real * c.imgConfigs.imgScale, x := canvasWidth - 20.0)
  }

  /** `spawn(canvas)`: health and damage scaled by the rank, full health,
      alive, not dying or colliding, idle clip at frame 0, at the right edge. */
  function Spawn(c: Creep, cv: Curves, canvasWidth: real): (r: Creep)
    ensures r.healthTotal == cv.grow(c.healthTotal, c.rank) && r.creepDamage == cv.grow(c.creepDamage, c.rank)
    ensures r.healthLeft == r.healthTotal as real
    ensures r.isAlive && !r.isDying && !r.isColliding && r.clip == IdleClip && r.frame == 0 && r.x == canvasWidth
    ensures r.rank == c.rank && r.number == c.number && r.coinsEarned == c.coinsEarned
    ensures r.animations == c.animations && r.imgConfigs == c.imgConfigs && r.functions == c.functions
  {
    var total := cv.grow(c.healthTotal, c.rank);
    c.(healthTotal := total, healthLeft := total as real, creepDamage := cv.grow(c.creepDamage, c.rank),
       isAlive := true, isDying := false, isColliding := false, clip := IdleClip, x := canvasWidth, frame := 0)
  }

  /** The game always spawns right after initializing: the spawn's
      placement at the right edge replaces the initial one, while the width
      computed by `initialize` is kept. */
  lemma SpawnReplacesPlacement(c: Creep, cv: Curves, canvasWidth: real)
    ensures Spawn(Initialize(c, canvasWidth), cv, canvasWidth).x == canvasWidth
    ensures Spawn(Initialize(c, canvasWidth), cv, canvasWidth).width == Initialize(c, canvasWidth).width
    ensures Spawn(Initialize(c, canvasWidth), cv, canvasWidth).x != Initialize(c, canvasWidth).x
  {
  }

  /** At rank 0 the curve is the identity, so spawning keeps the template's
      health and damage. */
  lemma SpawnAtRankZeroKeepsBase(c: Creep, cv: Curves, canvasWidth: real)
    requires ValidCurves(cv) && c.rank == 0
    ensures Spawn(c, cv, canvasWidth).healthTotal == c.healthTotal
    ensures Spawn(c, cv, canvasWidth).creepDamage == c.creepDamage
    ensures Spawn(c, cv, canvasWidth).healthLeft == c.healthTotal as real
  {
  }

  /** `dealDamage(hero)`: a living hero loses the creep's damage, floored at
      0; then the creep's on-hit modifier, if any, always applies. */
  function DealDamage(c: Creep, h: Heroes.Hero): (r: Heroes.Hero)
    ensures h.health > 0.0 ==> r.health == Heroes.Max(0.0, h.health - c.creepDamage as real)
    ensures h.health <= 0.0 ==> r.health == h.health
    ensures r.maxHealth == h.maxHealth && r.maxEnergy == h.maxEnergy && r.clip == h.clip
    ensures r.anims == h.anims && r.cooldowns == h.cooldowns && r.frame == h.frame
    ensures c.functions.NoModifier? ==> r == h.(health := r.health)
    ensures c.functions.ManaBurn? ==> r == BurnMana(h.(health := r.health))
    ensures c.functions.Poison? ==> r == Poisoned(h.(health := r.health))
  {
    var h1 := if h.health > 0.0 then h.(health := Heroes.Max(0.0, h.health - c.creepDamage as real)) else h;
    ApplyOnHit(c.functions, h1)
  }

  /** An impact keeps the hero's stats clamped. */
  lemma DealDamageKeepsBounds(c: Creep, h: Heroes.Hero)
    requires Heroes.Bounded(h) && c.creepDamage >= 0
    ensures Heroes.Bounded(DealDamage(c, h))
    ensures DealDamage(c, h).health <= h.health
  {
  }

  /** A frame update: the creep, the hero (changed by an impact), and whether
      the swing and impact triggers fired. */
  datatype Tick = Tick(creep: Creep, hero: Heroes.Hero, swing: bool, impact: bool)

  /** A frame advance of a dying creep: climb to the last frame, then hold;
      no trigger fires. */
  function DyingStep(c: Creep, h: Heroes.Hero): (r: Tick)
    ensures r.creep == c.(frameTimer := 0.0, frame := r.creep.frame)
    ensures r.creep.frame == (if c.frame + 1 < ClipOf(c).totalFrames then c.frame + 1 else c.frame)
    ensures r.hero == h && !r.swing && !r.impact
  {
    var n := ClipOf(c).totalFrames;
    Tick(c.(frameTimer := 0.0, frame := if c.frame < n - 1 then c.frame + 1 else c.frame), h, false, false)
  }

  /** A frame advance of a living creep: the frame wraps; in the attack clip
      (game active) reaching `swingFrame` swings and reaching `attackFrame`
      deals damage, whether or not the creep still collides. */
  function LivingStep(c: Creep, h: Heroes.Hero): (r: Tick)
    requires ClipOf(c).totalFrames > 0
    ensures r.creep == c.(frameTimer := 0.0, frame := r.creep.frame)
    ensures r.creep.frame == (c.frame + 1) % ClipOf(c).totalFrames && r.creep.frame < ClipOf(c).totalFrames
    ensures r.swing <==> c.clip == AttackClip && c.isGameActive && r.creep.frame == c.imgConfigs.swingFrame
    ensures r.impact <==> c.clip == AttackClip && c.isGameActive && r.creep.frame == c.imgConfigs.attackFrame
    ensures r.hero == (if r.impact then DealDamage(r.creep, h) else h)
  {
    var f := (c.frame + 1) % ClipOf(c).totalFrames;
    var c1 := c.(frameTimer := 0.0, frame := f);
    var swing := c.clip == AttackClip && f == c.imgConfigs.swingFrame && c.isGameActive;
    var impact := c.clip == AttackClip && f == c.imgConfigs.attackFrame && c.isGameActive;
    Tick(c1, if impact then DealDamage(c1, h) else h, swing, impact)
  }

  /** `updateAnimation(deltaTime, hero)`: accumulate time; only when it
      strictly exceeds the clip's interval is it reset and the frame
      advanced, by `DyingStep` or `LivingStep`. */
  function UpdateAnimation(c: Creep, dt: real, h: Heroes.Hero): (r: Tick)
    requires PlayableAnims(c.animations)
    ensures c.frameTimer + dt <= ClipOf(c).frameInterval as real ==>
              r == Tick(c.(frameTimer := c.frameTimer + dt), h, false, false)
    ensures c.frameTimer + dt > ClipOf(c).frameInterval as real ==>
              r == if c.isDying then DyingStep(c, h) else LivingStep(c, h)
  {
    var t := c.frameTimer + dt;
    if t <= ClipOf(c).frameInterval as real then Tick(c.(frameTimer := t), h, false, false)
    else if c.isDying then DyingStep(c, h)
    else LivingStep(c, h)
  }

  /** The impact reads only the creep's damage and modifier. */
  lemma DealDamageReadsDamageAndModifier(c: Creep, c': Creep, h: Heroes.Hero)
    requires c.creepDamage == c'.creepDamage && c.functions == c'.functions
    ensures DealDamage(c, h) == DealDamage(c', h)
  {
    var h1 := if h.health > 0.0 then h.(health := Heroes.Max(0.0, h.health - c.creepDamage as real)) else h;
    assert DealDamage(c, h) == ApplyOnHit(c.functions, h1);
    assert DealDamage(c', h) == ApplyOnHit(c.functions, h1);
  }

  lemma LivingStepIgnoresCollision(c: Creep, h: Heroes.Hero, b: bool)
    requires ClipOf(c).totalFrames > 0
    ensures LivingStep(c.(isColliding := b), h).impact == LivingStep(c, h).impact
    ensures LivingStep(c.(isColliding := b), h).hero == LivingStep(c, h).hero
  {
    var r := LivingStep(c, h);
    var r' := LivingStep(c.(isColliding := b), h);
    assert r'.creep == r.creep.(isColliding := b);
    DealDamageReadsDamageAndModifier(r.creep, r'.creep, h);
  }

  /** The impact trigger does not consult the collision flag. */
  lemma ImpactIgnoresCollision(c: Creep, dt: real, h: Heroes.Hero, b: bool)
    requires PlayableAnims(c.animations)
    ensures UpdateAnimation(c.(isColliding := b), dt, h).impact == UpdateAnimation(c, dt, h).impact
    ensures UpdateAnimation(c.(isColliding := b), dt, h).hero == UpdateAnimation(c, dt, h).hero
  {
    var c' := c.(isColliding := b);
    assert ClipOf(c') == ClipOf(c);
    if c.frameTimer + dt > ClipOf(c).frameInterval as real && !c.isDying {
      LivingStepIgnoresCollision(c, h, b);
    }
  }

  /** A run of frame updates with the given time deltas. Only the frame
      and its timer move; the hero is touched only if an impact fired, and
      the frame stays inside the clip once it is. */
  function Ticks(c: Creep, dts: seq<real>, h: Heroes.Hero): (r: Tick)
    requires PlayableAnims(c.animations)
    ensures r.creep == c.(frame := r.creep.frame, frameTimer := r.creep.frameTimer)
    ensures !r.impact ==> r.hero == h
    ensures c.frame < ClipOf(c).totalFrames ==> r.creep.frame < ClipOf(c).totalFrames
    decreases |dts|
  {
    if |dts| == 0 then Tick(c, h, false, false)
    else
      var t := Ticks(c, dts[..|dts| - 1], h);
      var u := UpdateAnimation(t.creep, dts[|dts| - 1], t.hero);
      UpdateKeepsShape(t.creep, dts[|dts| - 1], t.hero);
      Tick(u.creep, u.hero, t.swing || u.swing, t.impact || u.impact)
  }

  /** One update moves only the frame and its timer, touches the hero only
      on an impact, and keeps a frame inside its clip. */
  lemma UpdateKeepsShape(c: Creep, dt: real, h: Heroes.Hero)
    requires PlayableAnims(c.animations)
    ensures var u := UpdateAnimation(c, dt, h);
            && u.creep == c.(frame := u.creep.frame, frameTimer := u.creep.frameTimer)
            && (!u.impact ==> u.hero == h)
            && (c.frame < ClipOf(c).totalFrames ==> u.creep.frame < ClipOf(c).totalFrames)
  {
  }

  /** Once a dying creep shows the last frame of its clip, no run of updates
      moves the frame, fires a trigger or touches the hero. */
  lemma {:induction false} DeathHoldsLastFrame(c: Creep, dts: seq<real>, h: Heroes.Hero)
    requires PlayableAnims(c.animations) && c.isDying && c.frame == ClipOf(c).totalFrames - 1
    ensures var r := Ticks(c, dts, h);
            r.creep.frame == c.frame && r.creep.isDying && r.creep.clip == c.clip
            && r.hero == h && !r.swing && !r.impact
    decreases |dts|
  {
    if |dts| > 0 {
      DeathHoldsLastFrame(c, dts[..|dts| - 1], h);
    }
  }

  /** The horizontal overlap test: the hero's reduced right edge (40% of its
      width) reaches the creep's left edge and the hero's left edge does not
      pass the creep's scaled right edge. */
  predicate Overlaps(c: Creep, heroX: real, heroWidth: real)
    ensures Overlaps(c, heroX, heroWidth) <==> heroX - c.width * c.scale <= c.x <= heroX + 0.4 * heroWidth
  {
    0.4 * heroWidth + heroX >= c.x && heroX <= c.x + c.width * c.scale
  }

  /** A collision check: the creep, the coordinator, and the value returned
      (`None` for the early `return;` of a dying creep). */
  datatype Contact = Contact(creep: Creep, bg: Scroll.Background, overlap: Wrappers.Option<bool>)

  /** `checkCollision(hero)`. A dying creep changes nothing. On the rising
      edge the creep starts colliding, stops the scroll and switches to its
      attack clip (the frame index is kept); on the falling edge only the
      flag clears. Afterwards the flag equals the overlap. */
  function CheckCollision(c: Creep, heroX: real, heroWidth: real, bg: Scroll.Background): (r: Contact)
    ensures c.isDying ==> r == Contact(c, bg, Wrappers.None)
    ensures !c.isDying ==> r.overlap == Wrappers.Some(Overlaps(c, heroX, heroWidth))
    ensures !c.isDying ==> r.creep.isColliding == Overlaps(c, heroX, heroWidth)
    ensures !c.isDying && Overlaps(c, heroX, heroWidth) && !c.isColliding ==>
              r.creep == c.(isColliding := true, clip := AttackClip) && r.bg == Scroll.StopSpeed(bg)
    ensures !c.isDying && !(Overlaps(c, heroX, heroWidth) && !c.isColliding) ==>
              r.creep == c.(isColliding := r.creep.isColliding) && r.bg == bg
  {
    var hit := Overlaps(c, heroX, heroWidth);
    if c.isDying then Contact(c, bg, Wrappers.None)
    else if hit && !c.isColliding then
      Contact(c.(isColliding := true, clip := AttackClip), Scroll.StopSpeed(bg), Wrappers.Some(hit))
    else if !hit && c.isColliding then Contact(c.(isColliding := false), bg, Wrappers.Some(hit))
    else Contact(c, bg, Wrappers.Some(hit))
  }

  /** The kill counter after a kill: cycles through 1 .. 100. */
  function NextNumber(n: nat): (m: nat)
    ensures 1 <= m <= CreepsToLvlup
    ensures n < CreepsToLvlup ==> m == n + 1
    ensures n == CreepsToLvlup ==> m == 1
  {
    n % CreepsToLvlup + 1
  }

  /** Creep and hero after the hero's blow. */
  datatype Exchange = Exchange(creep: Creep, hero: Heroes.Hero)

  /** `handleAttack(hero)`: only a colliding, living creep struck by an
      attacking hero is affected. Its health drops by exactly the hero's
      damage, unclamped. At 0 or below it dies: death clip from frame 0, the
      rank goes up exactly when this was kill number 100, the counter moves on,
      and the hero is credited the reward at the new rank. */
  function HandleAttack(c: Creep, h: Heroes.Hero, cv: Curves): (r: Exchange)
    ensures !(c.isColliding && c.isAlive && h.isAttacking) ==> r == Exchange(c, h)
    ensures r.hero == h.(coins := r.hero.coins)
    ensures r.creep.animations == c.animations && r.creep.creepDamage == c.creepDamage
    ensures c.isColliding && c.isAlive && h.isAttacking ==>
              r.creep.healthLeft == c.healthLeft - h.damage
    ensures c.isColliding && c.isAlive && h.isAttacking && c.healthLeft - h.damage > 0.0 ==>
              r == Exchange(c.(healthLeft := c.healthLeft - h.damage), h)
    ensures c.isColliding && c.isAlive && h.isAttacking && c.healthLeft - h.damage <= 0.0 ==>
              && !r.creep.isAlive && r.creep.isDying && r.creep.clip == DeathClip && r.creep.frame == 0
              && r.creep.number == NextNumber(c.number)
              && r.creep.rank == (if c.number == CreepsToLvlup then c.rank + 1 else c.rank)
              && r.hero == h.(coins := h.coins + cv.reward(c.coinsEarned, r.creep.rank) as real)
              && r.creep == c.(healthLeft := r.creep.healthLeft, isAlive := false, isDying := true,
                               clip := DeathClip, frame := 0, rank := r.creep.rank, number := r.creep.number)
  {
    if !(c.isColliding && c.isAlive && h.isAttacking) then Exchange(c, h)
    else
      var left := c.healthLeft - h.damage;
      if left > 0.0 then Exchange(c.(healthLeft := left), h)
      else
        var rank := if c.number == CreepsToLvlup then c.rank + 1 else c.rank;
        var dead := c.(healthLeft := left, isAlive := false, isDying := true, clip := DeathClip, frame := 0,
                       rank := rank, number := c.number % CreepsToLvlup + 1);
        Exchange(dead, h.(coins := h.coins + cv.reward(c.coinsEarned, rank) as real))
  }

  /** Every template pays 1 coin, and `1 ** x = 1`, so a kill credits exactly
      one coin at every rank. */
  lemma KillRewardIsOne(c: Creep, h: Heroes.Hero, cv: Curves)
    requires ValidCurves(cv) && c.coinsEarned == 1
    requires c.isColliding && c.isAlive && h.isAttacking && c.healthLeft - h.damage <= 0.0
    ensures HandleAttack(c, h, cv).hero.coins == h.coins + 1.0
  {
  }

  /** `k` consecutive kills of the counter `n` at rank `rank`. */
  datatype Progress = Progress(rank: nat, number: nat)

  function AfterKills(p: Progress, k: nat): Progress
  {
    if k == 0 then p
    else
      var q := AfterKills(p, k - 1);
      Progress(if q.number == CreepsToLvlup then q.rank + 1 else q.rank, NextNumber(q.number))
  }

  /** Starting from kill number `n` in 1 .. 100, after `k` kills the counter
      reads `(n - 1 + k) mod 100 + 1` and the rank has grown by
      `(n - 1 + k) div 100`: one rank per hundred kills. */
  lemma {:induction false} KillCounterCycles(p: Progress, k: nat)
    requires 1 <= p.number <= CreepsToLvlup
    ensures AfterKills(p, k).number == (p.number - 1 + k) % CreepsToLvlup + 1
    ensures AfterKills(p, k).rank == p.rank + (p.number - 1 + k) / CreepsToLvlup
  {
    if k > 0 {
      KillCounterCycles(p, k - 1);
      var m := p.number - 1 + k - 1;
      assert (m % 100 + 1) % 100 == (m + 1) % 100;
      assert m % 100 == 99 ==> (m + 1) / 100 == m / 100 + 1;
      assert m % 100 != 99 ==> (m + 1) / 100 == m / 100;
    }
  }
}
