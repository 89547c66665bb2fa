/** `Hero.attack(background, creep)`, the click handler's action, and the
    mana-cooldown callback it schedules. Sounds are not modelled. */
module HeroCombat {
  import opened Heroes
  import Creeps
  import Scroll
  import StepTimer

  /** The cooldown's timeout in milliseconds. */
  const CooldownMs: nat := 2000

  /** The chained comparison `1 >= energy > 0` as JavaScript evaluates it:
      `(1 >= energy) > 0`, the boolean taken as 0 or 1. It holds for every
      energy up to 1, including 0 and negative values, and only for those. */
  predicate ChainedGuard(energy: real)
    ensures ChainedGuard(energy) <==> energy <= 1.0
  {
    (if 1.0 >= energy then 1 else 0) > 0
  }

  /** Hero, creep and scroll coordinator after a click. */
  datatype Strike = Strike(hero: Hero, creep: Creeps.Creep, bg: Scroll.Background)

  /** The cooldown branch: energy and its regen drop to 0 and a fresh
      2000 ms countdown is added; earlier ones keep running. */
  function StartCooldown(h: Hero, paused: bool): (r: Hero)
    ensures r.energy == 0.0 && r.energyRegen == 0.0
    ensures |r.cooldowns| == |h.cooldowns| + 1 && r.cooldowns[..|h.cooldowns|] == h.cooldowns
    ensures r.cooldowns[|h.cooldowns|] == StepTimer.Create(CooldownMs, paused)
    ensures r == h.(energy := 0.0, energyRegen := 0.0, cooldowns := r.cooldowns)
  {
    h.(energy := 0.0, energyRegen := 0.0, cooldowns := h.cooldowns + [StepTimer.Create(CooldownMs, paused)])
  }

  /** The swing: attacking from frame 0 of the attack clip, one energy spent,
      vampirism healing up to the maximum. */
  function Swing(h: Hero): (r: Hero)
    ensures r.isAttacking && r.clip == Heroes.Attack && r.frame == 0
    ensures r.energy == h.energy - 1.0
    ensures r.health == Min(h.health + h.vampirism, h.maxHealth)
    ensures r == h.(isAttacking := true, clip := Heroes.Attack, frame := 0, energy := r.energy, health := r.health)
  {
    h.(isAttacking := true, clip := Heroes.Attack, frame := 0, energy := h.energy - 1.0,
       health := Min(h.health + h.vampirism, h.maxHealth))
  }

  /** `attack(background, creep)`. At energy 1 or less the cooldown starts,
      which leaves no energy to swing. With more than 1 the hero swings:
      against a creep out of contact or dead the scroll stops; against a
      colliding living creep the hero marks itself colliding and the blow
      lands (`handleAttack`). */
  function Attack(h: Hero, c: Creeps.Creep, bg: Scroll.Background, cv: Creeps.Curves, paused: bool): (r: Strike)
    ensures r.hero == h.(energy := r.hero.energy, health := r.hero.health, energyRegen := r.hero.energyRegen,
                         cooldowns := r.hero.cooldowns, isAttacking := r.hero.isAttacking, clip := r.hero.clip,
                         frame := r.hero.frame, isColliding := r.hero.isColliding, coins := r.hero.coins)
    ensures r.hero.energyRegen == h.energyRegen || r.hero.energyRegen == 0.0
    ensures r.creep.animations == c.animations && r.creep.creepDamage == c.creepDamage
    ensures h.energy <= 1.0 ==> r == Strike(StartCooldown(h, paused), c, bg)
    ensures h.energy > 1.0 ==> r.hero.cooldowns == h.cooldowns && r.hero.energy == h.energy - 1.0
    ensures h.energy > 1.0 ==> r.hero.isAttacking && r.hero.clip == Heroes.Attack && r.hero.frame == 0
    ensures h.energy > 1.0 ==> r.hero.health == Min(h.health + h.vampirism, h.maxHealth)
    ensures h.energy > 1.0 && !(c.isColliding && c.isAlive) ==>
              r == Strike(Swing(h), c, Scroll.StopSpeed(bg))
    ensures h.energy > 1.0 && c.isColliding && c.isAlive ==>
              && r.bg == bg && r.hero.isColliding
              && r.creep.healthLeft == c.healthLeft - h.damage
              && var e := Creeps.HandleAttack(c, Swing(h).(isColliding := true), cv);
                 r.creep == e.creep && r.hero == e.hero
  {
    var h1 := if ChainedGuard(h.energy) then StartCooldown(h, paused) else h;
    if h1.energy >= 1.0 then
      var h2 := Swing(h1);
      if c.isColliding && c.isAlive then
        var e := Creeps.HandleAttack(c, h2.(isColliding := true), cv);
        Strike(e.hero, e.creep, bg)
      else Strike(h2, c, Scroll.StopSpeed(bg))
    else Strike(h1, c, bg)
  }

  /** At exactly 1 energy the hero does not swing: the cooldown takes the
      last point first. */
  lemma NoSwingAtOneEnergy(h: Hero, c: Creeps.Creep, bg: Scroll.Background, cv: Creeps.Curves, paused: bool)
    requires h.energy == 1.0
    ensures Attack(h, c, bg, cv, paused).hero.energy == 0.0
    ensures Attack(h, c, bg, cv, paused).hero.isAttacking == h.isAttacking
    ensures Attack(h, c, bg, cv, paused).creep == c
  {
  }

  /** A click keeps the stats clamp when vampirism is non-negative. */
  lemma AttackKeepsBounds(h: Hero, c: Creeps.Creep, bg: Scroll.Background, cv: Creeps.Curves, paused: bool)
    requires Bounded(h) && h.vampirism >= 0.0
    ensures Bounded(Attack(h, c, bg, cv, paused).hero)
  {
  }

  /** `k` clicks at a creep out of contact. */
  function Clicks(h: Hero, c: Creeps.Creep, bg: Scroll.Background, cv: Creeps.Curves, paused: bool, k: nat): Strike
    decreases k
  {
    if k == 0 then Strike(h, c, bg)
    else
      var s := Clicks(h, c, bg, cv, paused, k - 1);
      Attack(s.hero, s.creep, s.bg, cv, paused)
  }

  /** Without regen in between, a hero holding `n` whole energy points
      swings `n - 1` times and the next click starts the cooldown: one point
      is always lost to it. */
  lemma {:induction false} SwingBudget(h: Hero, c: Creeps.Creep, bg: Scroll.Background, cv: Creeps.Curves, paused: bool, n: nat, k: nat)
    requires !c.isColliding && n >= 1 && h.energy == n as real && k <= n
    ensures k < n ==> Clicks(h, c, bg, cv, paused, k).hero.energy == (n - k) as real
    ensures k < n ==> Clicks(h, c, bg, cv, paused, k).hero.cooldowns == h.cooldowns
    ensures k == n ==> Clicks(h, c, bg, cv, paused, k).hero.energy == 0.0
    ensures k == n ==> |Clicks(h, c, bg, cv, paused, k).hero.cooldowns| == |h.cooldowns| + 1
    ensures Clicks(h, c, bg, cv, paused, k).creep == c
  {
    if k > 0 {
      SwingBudget(h, c, bg, cv, paused, n, k - 1);
    }
  }

  /** A host timeout of the cooldown at index `i` (any of them, old ones
      included): when it completes the countdown the callback restores the
      energy regen to its base. */
  function CooldownFires(h: Hero, i: nat, paused: bool): (r: Hero)
    requires i < |h.cooldowns|
    ensures |r.cooldowns| == |h.cooldowns| && r.cooldowns[i] == StepTimer.Fire(h.cooldowns[i], paused)
    ensures forall j :: 0 <= j < |h.cooldowns| && j != i ==> r.cooldowns[j] == h.cooldowns[j]
    ensures r.cooldowns[i].fired > h.cooldowns[i].fired ==> r.energyRegen == h.baseEnergyRegen
    ensures r.cooldowns[i].fired <= h.cooldowns[i].fired ==> r.energyRegen == h.energyRegen
    ensures r == h.(cooldowns := r.cooldowns, energyRegen := r.energyRegen)
  {
    var t := StepTimer.Fire(h.cooldowns[i], paused);
    var h1 := h.(cooldowns := h.cooldowns[i := t]);
    if t.fired > h.cooldowns[i].fired then h1.(energyRegen := h1.baseEnergyRegen) else h1
  }

  /** `n` consecutive timeouts of cooldown `i`. */
  function CooldownRun(h: Hero, i: nat, n: nat, paused: bool): (r: Hero)
    requires i < |h.cooldowns|
    ensures |r.cooldowns| == |h.cooldowns|
    decreases n
  {
    if n == 0 then h else CooldownFires(CooldownRun(h, i, n - 1, paused), i, paused)
  }

  /** A cooldown's timeouts act on that timer alone, and the regen is back
      at its base exactly once the timer has run its callback. */
  lemma {:induction false} CooldownRunTracksTimer(h: Hero, i: nat, n: nat, paused: bool)
    requires i < |h.cooldowns|
    ensures CooldownRun(h, i, n, paused).cooldowns[i] == StepTimer.Fires(h.cooldowns[i], n, paused)
    ensures CooldownRun(h, i, n, paused).baseEnergyRegen == h.baseEnergyRegen
    ensures CooldownRun(h, i, n, paused).energyRegen ==
              if StepTimer.Fires(h.cooldowns[i], n, paused).fired > h.cooldowns[i].fired
              then h.baseEnergyRegen else h.energyRegen
  {
    if n > 0 {
      CooldownRunTracksTimer(h, i, n - 1, paused);
      FiredNeverDecreases(h.cooldowns[i], n - 1, paused);
    }
  }

  lemma {:induction false} FiredNeverDecreases(t: StepTimer.Timer, n: nat, paused: bool)
    ensures StepTimer.Fires(t, n, paused).fired >= t.fired
  {
    if n > 0 {
      FiredNeverDecreases(t, n - 1, paused);
    }
  }

  /** After the cooldown click, the energy regen stays 0 for 98 timeouts of
      the new countdown and is back at its base at the 99th. */
  lemma CooldownRestoresRegenAt99(h: Hero, c: Creeps.Creep, bg: Scroll.Background, cv: Creeps.Curves)
    requires h.energy <= 1.0
    ensures var s := Attack(h, c, bg, cv, false).hero;
            var i := |h.cooldowns|;
            && CooldownRun(s, i, 98, false).energyRegen == 0.0
            && CooldownRun(s, i, 99, false).energyRegen == h.baseEnergyRegen
  {
    var s := Attack(h, c, bg, cv, false).hero;
    var i := |h.cooldowns|;
    CooldownRunTracksTimer(s, i, 98, false);
    CooldownRunTracksTimer(s, i, 99, false);
    StepTimer.CallbackAfter99Intervals(CooldownMs);
  }
}
