/** The event handlers of the legacy game loop: the canvas click, the two
    step-timer callbacks (respawn and mana cooldown), the poison restore, the
    pause and resume buttons, and any interleaving of these with animation
    frames. The mute button only touches sounds and is not modelled. */
module GameControls {
  import opened Wrappers
  import opened Game
  import CreepTemplates
  import Creeps
  import Heroes
  import HeroCombat
  import Scroll
  import StepTimer
  import HeroConfig

  /** The respawn delay in milliseconds. */
  const RespawnMs: nat := 3000

  /** The canvas click: the hero attacks; if that leaves the creep dying and
      no respawn is scheduled, one is scheduled and further ones are blocked
      until it runs. The handler runs even while the loop is stopped; after
      the game has ended it throws at once and changes nothing. */
  function Click(s: Session, cv: Creeps.Curves): (r: Session)
    ensures s.ended ==> r == s
    ensures !s.ended ==>
              var st := HeroCombat.Attack(s.hero, s.creep, s.bg, cv, s.paused);
              r.hero == st.hero && r.creep == st.creep && r.bg == st.bg
    ensures !s.ended && s.spamBlock && !r.creep.isAlive && r.creep.isDying ==>
              !r.spamBlock && r.spawnTimer == Some(StepTimer.Create(RespawnMs, s.paused))
    ensures !(!s.ended && s.spamBlock && !r.creep.isAlive && r.creep.isDying) ==>
              r.spawnTimer == s.spawnTimer && r.spamBlock == s.spamBlock
    ensures r.paused == s.paused && r.running == s.running && r.ended == s.ended
  {
    if s.ended then s
    else
      var st := HeroCombat.Attack(s.hero, s.creep, s.bg, cv, s.paused);
      var s1 := s.(hero := st.hero, creep := st.creep, bg := st.bg);
      if !s1.creep.isAlive && s1.creep.isDying && s1.spamBlock then
        s1.(spamBlock := false, spawnTimer := Some(StepTimer.Create(RespawnMs, s.paused)))
      else s1
  }

  /** `k` clicks in a row. */
  function Clicks(s: Session, cv: Creeps.Curves, k: nat): Session
    decreases k
  {
    if k == 0 then s else Click(Clicks(s, cv, k - 1), cv)
  }

  /** While a respawn is scheduled, no number of clicks schedules another
      or replaces the scheduled one. */
  lemma {:induction false} BlockedClicksKeepRespawn(s: Session, cv: Creeps.Curves, k: nat)
    requires !s.spamBlock
    ensures Clicks(s, cv, k).spawnTimer == s.spawnTimer && !Clicks(s, cv, k).spamBlock
  {
    if k > 0 {
      BlockedClicksKeepRespawn(s, cv, k - 1);
    }
  }

  /** The respawn callback: `spawnNewCreep("random")`, then the block
      lifts. If the draw throws (a negative hero level, or the hero cleared
      by `endGame`), nothing changes. */
  function Respawn(s: Session, roll: real, cv: Creeps.Curves): (r: Session)
    requires 0.0 <= roll < 1.0
    ensures s.ended || s.hero.level < 0.0 ==> r == s
    ensures !s.ended && s.hero.level >= 0.0 ==>
              && r == s.(creep := r.creep, spamBlock := true)
              && r.creep.isAlive && !r.creep.isDying && r.creep.healthLeft == r.creep.healthTotal as real
              && r.creep.rank == s.creep.rank && r.creep.number == s.creep.number
    ensures CreepTemplates.PlayableAnims(s.creep.animations) ==> CreepTemplates.PlayableAnims(r.creep.animations)
    ensures Creeps.ValidCurves(cv) && s.creep.creepDamage >= 0 ==> r.creep.creepDamage >= 0
  {
    if s.ended then s
    else
      match SpawnNewCreep(s, "random", roll, cv)
      case Failure(_) => s
      case Success(c) => s.(creep := c, spamBlock := true)
  }

  /** A host timeout of the respawn countdown; the step that completes it
      runs the callback. */
  function SpawnTimeout(s: Session, roll: real, cv: Creeps.Curves): (r: Session)
    requires 0.0 <= roll < 1.0
    ensures s.spawnTimer.None? ==> r == s
    ensures s.spawnTimer.Some? ==>
              var t := StepTimer.Fire(s.spawnTimer.value, s.paused);
              && r.spawnTimer == Some(t)
              && (t.fired == s.spawnTimer.value.fired ==> r == s.(spawnTimer := Some(t)))
              && (t.fired > s.spawnTimer.value.fired ==> r == Respawn(s.(spawnTimer := Some(t)), roll, cv))
  {
    match s.spawnTimer
    case None => s
    case Some(t0) =>
      var t := StepTimer.Fire(t0, s.paused);
      var s1 := s.(spawnTimer := Some(t));
      if t.fired > t0.fired then Respawn(s1, roll, cv) else s1
  }

  /** A host timeout of mana cooldown `i`, old ones included. Only that
      timer steps, and the energy regen returns to its base exactly when
      this step runs the timer's callback; nothing else changes. */
  function CooldownTimeout(s: Session, i: nat): (r: Session)
    ensures i >= |s.hero.cooldowns| ==> r == s
    ensures r == s.(hero := r.hero)
    ensures r.hero == s.hero.(cooldowns := r.hero.cooldowns, energyRegen := r.hero.energyRegen)
    ensures |r.hero.cooldowns| == |s.hero.cooldowns|
    ensures forall j :: 0 <= j < |s.hero.cooldowns| && j != i ==> r.hero.cooldowns[j] == s.hero.cooldowns[j]
    ensures i < |s.hero.cooldowns| ==>
              var t := s.hero.cooldowns[i];
              && r.hero.cooldowns[i] == StepTimer.Fire(t, s.paused)
              && (StepTimer.Fire(t, s.paused).fired > t.fired ==> r.hero.energyRegen == s.hero.baseEnergyRegen)
              && (StepTimer.Fire(t, s.paused).fired == t.fired ==> r.hero.energyRegen == s.hero.energyRegen)
  {
    if i < |s.hero.cooldowns| then s.(hero := HeroCombat.CooldownFires(s.hero, i, s.paused)) else s
  }

  /** The poison's one-second restore elapses: afterwards no restore is
      pending, a pending one has brought back the base health regen, and
      nothing else changes. */
  function PoisonTimeout(s: Session): (r: Session)
    ensures !r.hero.poisonPending
    ensures s.hero.poisonPending ==> r.hero.healthRegen == r.hero.baseHealthRegen
    ensures !s.hero.poisonPending ==> r == s
    ensures r == s.(hero := s.hero.(healthRegen := r.hero.healthRegen, poisonPending := false))
  {
    s.(hero := CreepTemplates.PoisonExpires(s.hero))
  }

  /** No step of the respawn countdown is scheduled. */
  predicate SpawnQuiet(s: Session) {
    s.spawnTimer.Some? ==> !s.spawnTimer.value.pending
  }

  /** No step of the current mana cooldown is scheduled. */
  predicate CooldownQuiet(s: Session) {
    |s.hero.cooldowns| > 0 ==> !s.hero.cooldowns[|s.hero.cooldowns| - 1].pending
  }

  /** What the resume button needs while the flag is set: a quiet respawn
      countdown, and, until the game has ended (after which the handler
      never reaches the cooldown), a quiet current mana cooldown. */
  predicate Quiet(s: Session) {
    SpawnQuiet(s) && (!s.ended ==> CooldownQuiet(s))
  }

  /** The pause button: pause the respawn countdown, then the current mana
      cooldown (each sets the shared flag), then stop the loop. After the
      game has ended the respawn countdown is still paused, and then the
      handler throws on the cleared hero. */
  function PauseButton(s: Session): (r: Session)
    ensures s.ended ==> r == s.(spawnTimer := r.spawnTimer, paused := r.paused)
    ensures s.ended ==> Quiet(r) && (r.paused <==> s.paused || s.spawnTimer.Some?)
    ensures !s.ended ==>
              && !r.running && Quiet(r)
              && (r.paused <==> s.paused || s.spawnTimer.Some? || |s.hero.cooldowns| > 0)
              && r.creep == s.creep && r.bg == s.bg && r.spamBlock == s.spamBlock
              && r.hero == s.hero.(cooldowns := r.hero.cooldowns)
              && |r.hero.cooldowns| == |s.hero.cooldowns|
              && (forall j :: 0 <= j < |s.hero.cooldowns| - 1 ==> r.hero.cooldowns[j] == s.hero.cooldowns[j])
    ensures s.spawnTimer.Some? ==> r.spawnTimer == Some(StepTimer.Pause(s.spawnTimer.value).timer)
    ensures !s.ended && |s.hero.cooldowns| > 0 ==>
              var n := |s.hero.cooldowns|;
              r.hero.cooldowns[n - 1] == StepTimer.Pause(s.hero.cooldowns[n - 1]).timer
  {
    var s1 := match s.spawnTimer
      case None => s
      case Some(t) => var p := StepTimer.Pause(t); s.(spawnTimer := Some(p.timer), paused := p.paused);
    if s.ended then s1
    else
      var n := |s1.hero.cooldowns|;
      var s2 := if n == 0 then s1
        else
          var p := StepTimer.Pause(s1.hero.cooldowns[n - 1]);
          s1.(hero := s1.hero.(cooldowns := s1.hero.cooldowns[n - 1 := p.timer]), paused := p.paused);
      s2.(running := false)
  }

  /** The result of the resume handler's first step, and whether the
      respawn callback it ran threw (which skips the rest of the handler). */
  datatype Resumed = Resumed(s: Session, thrown: bool)

  /** `spawnProcess.resume()`: steps the countdown if the flag is set, which
      runs the respawn callback if that step completes it. */
  function ResumeSpawn(s: Session, roll: real, cv: Creeps.Curves): (r: Resumed)
    requires 0.0 <= roll < 1.0 && (s.paused ==> SpawnQuiet(s))
    ensures s.spawnTimer.None? ==> r == Resumed(s, false)
    ensures s.spawnTimer.Some? ==> !r.s.paused && r.s.hero == s.hero
    ensures !s.paused ==> r == Resumed(s, false)
    ensures s.paused && s.spawnTimer.Some? ==>
              r.s.spawnTimer.Some? && r.s.spawnTimer.value.currentStep == s.spawnTimer.value.currentStep + 1
    ensures r.thrown <==> s.spawnTimer.Some? && s.paused && (s.ended || s.hero.level < 0.0)
                          && s.spawnTimer.value.currentStep + 1 >= StepTimer.StepCount
    ensures r.thrown ==> r.s.creep == s.creep && r.s.spamBlock == s.spamBlock
    ensures CreepTemplates.PlayableAnims(s.creep.animations) ==> CreepTemplates.PlayableAnims(r.s.creep.animations)
    ensures Creeps.ValidCurves(cv) && s.creep.creepDamage >= 0 ==> r.s.creep.creepDamage >= 0
    ensures r.s.hero == s.hero && r.s.bg == s.bg && r.s.running == s.running && r.s.ended == s.ended
    ensures s.paused && s.spawnTimer.Some? ==> !r.s.paused
  {
    match s.spawnTimer
    case None => Resumed(s, false)
    case Some(t0) =>
      var p := StepTimer.Resume(t0, s.paused);
      var s1 := s.(spawnTimer := Some(p.timer), paused := p.paused);
      if p.timer.fired > t0.fired then
        var s2 := Respawn(s1, roll, cv);
        Resumed(s2, s1.ended || s1.hero.level < 0.0)
      else Resumed(s1, false)
  }

  /** `hero.manaCooldown.resume()`: acts only if the flag is still set; the
      step that completes the countdown restores the energy regen. */
  function ResumeCooldown(s: Session): (r: Session)
    requires s.paused ==> CooldownQuiet(s)
    ensures |s.hero.cooldowns| == 0 || !s.paused ==> r == s
    ensures r == s.(hero := r.hero, paused := r.paused)
    ensures |s.hero.cooldowns| > 0 && s.paused ==>
              && !r.paused && r.creep == s.creep && r.spawnTimer == s.spawnTimer
              && |r.hero.cooldowns| == |s.hero.cooldowns|
              && r.hero.cooldowns[|s.hero.cooldowns| - 1].currentStep == s.hero.cooldowns[|s.hero.cooldowns| - 1].currentStep + 1
              && r.hero == s.hero.(cooldowns := r.hero.cooldowns, energyRegen := r.hero.energyRegen)
              && (r.hero.energyRegen == s.hero.energyRegen || r.hero.energyRegen == s.hero.baseEnergyRegen)
  {
    var n := |s.hero.cooldowns|;
    if n == 0 then s
    else
      var t0 := s.hero.cooldowns[n - 1];
      var p := StepTimer.Resume(t0, s.paused);
      var h := s.hero.(cooldowns := s.hero.cooldowns[n - 1 := p.timer]);
      var h1 := if p.timer.fired > t0.fired then h.(energyRegen := h.baseEnergyRegen) else h;
      s.(hero := h1, paused := p.paused)
  }

  /** The resume button: resume the respawn countdown, then the current
      mana cooldown (a no-op if the first resume already cleared the shared
      flag), then restart a stopped loop, which clears the flag and runs a
      frame at once. A throwing respawn callback skips all but the first
      step. After the game has ended only the first step runs: the handler
      then throws on the cleared hero. */
  function ResumeButton(s: Session, roll: real, cv: Creeps.Curves): (r: Session)
    requires 0.0 <= roll < 1.0 && (s.paused ==> Quiet(s))
    requires Heroes.PlayableAnims(s.hero.anims) && CreepTemplates.PlayableAnims(s.creep.animations)
    // The respawn countdown steps on from where the pause left it.
    ensures s.paused && s.spawnTimer.Some? ==>
              r.spawnTimer.Some? && r.spawnTimer.value.currentStep == s.spawnTimer.value.currentStep + 1
    // Without a respawn countdown, the current mana cooldown steps on.
    ensures !s.ended && s.paused && s.spawnTimer.None? && |s.hero.cooldowns| > 0 ==>
              var n := |s.hero.cooldowns|;
              |r.hero.cooldowns| == n && r.hero.cooldowns[n - 1].currentStep == s.hero.cooldowns[n - 1].currentStep + 1
    // With one, the first resume has cleared the flag and the cooldown stays put.
    ensures s.paused && s.spawnTimer.Some? ==> r.hero.cooldowns == s.hero.cooldowns
    // After the end, only the countdown moves.
    ensures s.ended ==> r.hero == s.hero && r.bg == s.bg && r.running == s.running && r.ended
    ensures s.ended && s.spawnTimer.Some? ==> r.creep == s.creep && r.spamBlock == s.spamBlock
    ensures s.ended && s.spawnTimer.None? ==> r == s
    // A stopped loop restarts and runs one frame at once.
    ensures !s.ended && !ResumeSpawn(s, roll, cv).thrown && !s.running ==> !r.paused && (r.running || r.ended)
    ensures !s.ended && !ResumeSpawn(s, roll, cv).thrown && !s.running && s.hero.health > 0.0 ==>
              r.running && r.bg.x == Scroll.ScrollStep(s.bg, s.fixedWidth).x
    ensures !s.ended && !ResumeSpawn(s, roll, cv).thrown && !s.running && s.hero.health <= 0.0 ==>
              r.ended && !r.running
    // A running loop is left alone: no extra frame.
    ensures !s.ended && s.running ==> r.bg == s.bg && r.running
  {
    var a := ResumeSpawn(s, roll, cv);
    if s.ended || a.thrown then a.s
    else
      var s2 := ResumeCooldown(a.s);
      if s2.running then s2 else Frame(s2.(running := true, paused := false))
  }

  /** The hero's stats stay clamped, its regen rates and vampirism are never
      negative, and its clips can be played. */
  ghost predicate HeroSane(h: Heroes.Hero) {
    && Heroes.PlayableAnims(h.anims) && Heroes.Bounded(h)
    && h.healthRegen >= 0.0 && h.baseHealthRegen >= 0.0
    && h.energyRegen >= 0.0 && h.baseEnergyRegen >= 0.0 && h.vampirism >= 0.0
  }

  /** The session invariant: a sane hero, a creep with playable clips and a
      non-negative damage, and while the shared flag is set, neither the
      respawn countdown nor the current mana cooldown has a step scheduled. */
  ghost predicate Sane(s: Session) {
    && HeroSane(s.hero)
    && CreepTemplates.PlayableAnims(s.creep.animations) && s.creep.creepDamage >= 0
    && (s.paused ==> Quiet(s))
  }

  lemma DealDamageKeepsHeroSane(c: Creeps.Creep, h: Heroes.Hero)
    requires HeroSane(h) && c.creepDamage >= 0
    ensures HeroSane(Creeps.DealDamage(c, h))
  {
    Creeps.DealDamageKeepsBounds(c, h);
  }

  lemma CreepDrawKeepsHeroSane(sc: Scene, canvasHeight: real)
    requires HeroSane(sc.hero) && CreepTemplates.PlayableAnims(sc.creep.animations) && sc.creep.creepDamage >= 0
    ensures HeroSane(CreepDraw(sc, canvasHeight).hero)
  {
    var c0 := DrawMove(sc.creep, sc.bg, canvasHeight);
    var t := Creeps.UpdateAnimation(c0, CreepDt, sc.hero);
    if t.impact {
      DealDamageKeepsHeroSane(t.creep, sc.hero);
    }
  }

  lemma HeroDrawKeepsHeroSane(sc: Scene)
    requires HeroSane(sc.hero)
    ensures HeroSane(HeroDraw(sc).hero)
  {
    Heroes.RegenKeepsBounds(sc.hero, HeroDt, sc.creep.isColliding);
    var g := Heroes.Regen(sc.hero, HeroDt, sc.creep.isColliding);
    var r := HeroDraw(sc).hero;
    assert r.energy == g.energy && r.health == g.health;
  }

  /** A frame keeps the session invariant. */
  lemma FrameKeepsSane(s: Session)
    requires Sane(s)
    ensures Sane(Frame(s))
  {
    if s.running && s.hero.health > 0.0 {
      var sc0 := Scene(s.hero, s.creep, Scroll.ScrollStep(s.bg, s.fixedWidth));
      CreepDrawKeepsHeroSane(sc0, s.canvasHeight);
      var sc1 := CreepDraw(sc0, s.canvasHeight);
      HeroDrawKeepsHeroSane(sc1);
    }
  }

  /** A click keeps the session invariant. */
  lemma ClickKeepsSane(s: Session, cv: Creeps.Curves)
    requires Sane(s)
    ensures Sane(Click(s, cv))
  {
    if !s.ended {
      var st := HeroCombat.Attack(s.hero, s.creep, s.bg, cv, s.paused);
      HeroCombat.AttackKeepsBounds(s.hero, s.creep, s.bg, cv, s.paused);
      assert HeroSane(st.hero);
    }
  }

  /** Host timeouts and the poison restore keep the session invariant. */
  lemma SpawnTimeoutKeepsSane(s: Session, roll: real, cv: Creeps.Curves)
    requires Sane(s) && 0.0 <= roll < 1.0 && Creeps.ValidCurves(cv)
    ensures Sane(SpawnTimeout(s, roll, cv))
  {
    if s.spawnTimer.Some? {
      var t := StepTimer.Fire(s.spawnTimer.value, s.paused);
      var s1 := s.(spawnTimer := Some(t));
      assert Sane(s1);
    }
  }

  lemma CooldownTimeoutKeepsSane(s: Session, i: nat)
    requires Sane(s)
    ensures Sane(CooldownTimeout(s, i))
  {
  }

  lemma PoisonTimeoutKeepsSane(s: Session)
    requires Sane(s)
    ensures Sane(PoisonTimeout(s))
  {
  }

  lemma ButtonsKeepSane(s: Session, roll: real, cv: Creeps.Curves)
    requires Sane(s) && 0.0 <= roll < 1.0 && Creeps.ValidCurves(cv)
    ensures Sane(PauseButton(s))
    ensures Sane(ResumeButton(s, roll, cv))
  {
    if !s.ended {
      var a := ResumeSpawn(s, roll, cv);
      if !a.thrown {
        var s2 := ResumeCooldown(a.s);
        assert Sane(s2);
        if !s2.running {
          FrameKeepsSane(s2.(running := true, paused := false));
        }
      }
    }
  }

  /** Everything that can happen to a session: its own handlers, and the
      exported `endGame`, which the page may call at any moment. */
  datatype Event =
    | AnimationFrame
    | CanvasClick
    | SpawnStep(roll: real)
    | CooldownStep(i: nat)
    | PoisonRestore
    | PausePressed
    | ResumePressed(roll: real)
    | EndCalled

  /** A random draw lies in [0, 1). */
  predicate ValidEvent(e: Event) {
    match e
    case SpawnStep(roll) => 0.0 <= roll < 1.0
    case ResumePressed(roll) => 0.0 <= roll < 1.0
    case _ => true
  }

  /** One event, applied to a sane session, leaves it sane. */
  function Step(s: Session, e: Event, cv: Creeps.Curves): (r: Session)
    requires Sane(s) && ValidEvent(e) && Creeps.ValidCurves(cv)
    ensures Sane(r)
  {
    match e
    case AnimationFrame => FrameKeepsSane(s); Frame(s)
    case CanvasClick => ClickKeepsSane(s, cv); Click(s, cv)
    case SpawnStep(roll) => SpawnTimeoutKeepsSane(s, roll, cv); SpawnTimeout(s, roll, cv)
    case CooldownStep(i) => CooldownTimeoutKeepsSane(s, i); CooldownTimeout(s, i)
    case PoisonRestore => PoisonTimeoutKeepsSane(s); PoisonTimeout(s)
    case PausePressed => ButtonsKeepSane(s, 0.0, cv); PauseButton(s)
    case ResumePressed(roll) => ButtonsKeepSane(s, roll, cv); ResumeButton(s, roll, cv)
    case EndCalled => EndGame(s)
  }

  /** A run of events, oldest first. Every intermediate session is sane, so
      each event's handler may be applied. */
  function Run(s: Session, es: seq<Event>, cv: Creeps.Curves): (r: Session)
    requires Sane(s) && Creeps.ValidCurves(cv)
    requires forall k :: 0 <= k < |es| ==> ValidEvent(es[k])
    ensures Sane(r)
    decreases |es|
  {
    if |es| == 0 then s
    else Step(Run(s, es[..|es| - 1], cv), es[|es| - 1], cv)
  }

  /** Whatever the interleaving of frames, clicks, timeouts and buttons, the
      hero's health and energy stay within their bounds. */
  lemma StatsStayBounded(s: Session, es: seq<Event>, cv: Creeps.Curves)
    requires Sane(s) && Creeps.ValidCurves(cv)
    requires forall k :: 0 <= k < |es| ==> ValidEvent(es[k])
    ensures var r := Run(s, es, cv);
            && 0.0 <= r.hero.health <= r.hero.maxHealth
            && 0.0 <= r.hero.energy <= r.hero.maxEnergy
  {
  }

  /** A session that starts from a record with non-negative stats is sane. */
  lemma StartIsSane(d: HeroConfig.RawHero, isGameRunning: bool, isPaused: bool,
                    canvasWidth: real, canvasHeight: real, fixedWidth: real, cv: Creeps.Curves)
    requires Creeps.ValidCurves(cv)
    requires HeroConfig.Or(d.maxHealth, 30.0) >= 0.0 && HeroConfig.Or(d.maxEnergy, 10.0) >= 0.0
    requires HeroConfig.Or(d.healthRegen, 1.0) >= 0.0 && HeroConfig.Or(d.energyRegen, 1.0) >= 0.0
    requires HeroConfig.Or(d.vampirism, 0.0) >= 0.0
    ensures Start(Some(d), isGameRunning, isPaused, canvasWidth, canvasHeight, fixedWidth, cv).Success?
    ensures Sane(Start(Some(d), isGameRunning, isPaused, canvasWidth, canvasHeight, fixedWidth, cv).value)
  {
    assert CreepTemplates.PlayableAnims(CreepTemplates.Templates()[0].animations);
  }
}
