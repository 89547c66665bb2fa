/** `GameEntity` of the PixiJS client: the health model shared by heroes
    and enemies, on top of an animated sprite. The hooks a subclass may
    override (`onTakeDamage`, `onDeath`, ...) are the base class's empty
    ones; the health bar graphics and logging are not modelled. */
module Entity {
  import Sprite

  /** `EntityStats`. */
  datatype Stats = Stats(maxHealth: real, currentHealth: real, healthRegen: real, damage: real, level: real)

  /** `EntityState`. */
  datatype State = Idle | Moving | Attacking | Dying | Dead

  datatype GameEntity = GameEntity(
    stats: Stats, state: State,
    isAlive: bool, isColliding: bool, isDying: bool,
    healthRegenTimer: real,
    sprite: Sprite.AnimatedSprite)

  /** Health within [0, maxHealth]. */
  ghost predicate HealthBounded(e: GameEntity) {
    0.0 <= e.stats.currentHealth <= e.stats.maxHealth
  }

  /** The constructor: the stats are copied with the current health set to
      the maximum; idle, alive, not dying, no clip yet. */
  function New(initial: Stats): (e: GameEntity)
    ensures e.stats == initial.(currentHealth := initial.maxHealth)
    ensures e.state == Idle && e.isAlive && !e.isDying && !e.isColliding && e.healthRegenTimer == 0.0
    ensures e.sprite == Sprite.New()
    ensures initial.maxHealth >= 0.0 ==> HealthBounded(e)
  {
    GameEntity(initial.(currentHealth := initial.maxHealth), Idle, true, false, false, 0.0, Sprite.New())
  }

  /** The clip `playStateAnimation` starts for a state; `Dead` has none. */
  function ClipName(s: State): (name: string)
    ensures s == Dead <==> name == ""
  {
    match s
    case Idle => "idle"
    case Moving => "run"
    case Attacking => "attack"
    case Dying => "death"
    case Dead => ""
  }

  /** `changeState(newState)`: nothing when already in that state; otherwise
      the state changes and the state's clip is played (an unregistered clip
      leaves the sprite alone). */
  function ChangeState(e: GameEntity, newState: State): (r: GameEntity)
    ensures e.state == newState ==> r == e
    ensures e.state != newState && newState == Dead ==> r == e.(state := Dead)
    ensures e.state != newState && newState != Dead ==>
              r == e.(state := newState, sprite := Sprite.PlayAnimation(e.sprite, ClipName(newState)).sprite)
    ensures r.stats == e.stats && r.isAlive == e.isAlive && r.isDying == e.isDying
    ensures Sprite.Valid(e.sprite) ==> Sprite.Valid(r.sprite)
  {
    if e.state == newState then e
    else
      var moved := e.(state := newState);
      if newState == Dead then moved
      else moved.(sprite := Sprite.PlayAnimation(e.sprite, ClipName(newState)).sprite)
  }

  /** `die()`: the first call marks the entity dying and no longer alive and
      enters the dying state; on an entity already dying or dead it does
      nothing. */
  function Die(e: GameEntity): (r: GameEntity)
    ensures e.isDying || !e.isAlive ==> r == e
    ensures !(e.isDying || !e.isAlive) ==> r.isDying && !r.isAlive && r.state == Dying
    ensures r.stats == e.stats && r.healthRegenTimer == e.healthRegenTimer
  {
    if e.isDying || !e.isAlive then e
    else ChangeState(e.(isDying := true, isAlive := false), Dying)
  }

  /** `takeDamage(amount)`: ignored by an entity that is dead or dying;
      otherwise health drops by the amount, not below 0, and the entity
      dies once no health is left. */
  function TakeDamage(e: GameEntity, amount: real): (r: GameEntity)
    ensures !e.isAlive || e.isDying ==> r == e
    ensures e.isAlive && !e.isDying ==>
              && r.stats == e.stats.(currentHealth := if e.stats.currentHealth - amount >= 0.0 then e.stats.currentHealth - amount else 0.0)
              && (r.stats.currentHealth <= 0.0 <==> !r.isAlive)
              && (r.stats.currentHealth <= 0.0 ==> r.isDying && r.state == Dying)
              && (r.stats.currentHealth > 0.0 ==> r == e.(stats := r.stats))
    ensures HealthBounded(e) && amount >= 0.0 ==> HealthBounded(r)
  {
    if !e.isAlive || e.isDying then e
    else
      var hp := if e.stats.currentHealth - amount >= 0.0 then e.stats.currentHealth - amount else 0.0;
      var hit := e.(stats := e.stats.(currentHealth := hp));
      if hp <= 0.0 then Die(hit) else hit
  }

  /** `heal(amount)`: ignored by a dead entity; otherwise health rises by
      the amount, not above the maximum. A dying entity is not alive, so it
      is not healed either. */
  function Heal(e: GameEntity, amount: real): (r: GameEntity)
    ensures !e.isAlive ==> r == e
    ensures e.isAlive ==>
              r == e.(stats := e.stats.(currentHealth :=
                         if e.stats.maxHealth <= e.stats.currentHealth + amount then e.stats.maxHealth
                         else e.stats.currentHealth + amount))
    ensures HealthBounded(e) && amount >= 0.0 ==> HealthBounded(r)
    ensures e.isAlive && amount >= 0.0 && e.stats.currentHealth <= e.stats.maxHealth ==> r.stats.currentHealth >= e.stats.currentHealth
  {
    if !e.isAlive then e
    else
      var hp := if e.stats.maxHealth <= e.stats.currentHealth + amount then e.stats.maxHealth else e.stats.currentHealth + amount;
      e.(stats := e.stats.(currentHealth := hp))
  }

  /** `attacker.dealDamageTo(target)`, returning the target: nothing when
      either side is dead, otherwise the target takes exactly the attacker's
      damage. Only the target is returned; when an entity strikes itself,
      that result is the struck entity. */
  function DealDamageTo(attacker: GameEntity, target: GameEntity): (r: GameEntity)
    ensures !attacker.isAlive || !target.isAlive ==> r == target
    ensures attacker.isAlive && target.isAlive ==> r == TakeDamage(target, attacker.stats.damage)
  {
    if !attacker.isAlive || !target.isAlive then target
    else TakeDamage(target, attacker.stats.damage)
  }

  /** Whether `updateHealthRegen` does anything: alive, a positive regen
      and below the maximum. */
  predicate Regenerates(e: GameEntity) {
    e.isAlive && e.stats.healthRegen > 0.0 && e.stats.currentHealth < e.stats.maxHealth
  }

  /** `updateHealthRegen(dt)`: when regenerating, the timer accumulates and
      each time it reaches 1000 ms one `healthRegen` is healed and the
      timer restarts from 0. */
  function UpdateHealthRegen(e: GameEntity, dt: real): (r: GameEntity)
    ensures !Regenerates(e) ==> r == e
    ensures Regenerates(e) && e.healthRegenTimer + dt < 1000.0 ==> r == e.(healthRegenTimer := e.healthRegenTimer + dt)
    ensures Regenerates(e) && e.healthRegenTimer + dt >= 1000.0 ==>
              r == Heal(e, e.stats.healthRegen).(healthRegenTimer := 0.0)
    ensures HealthBounded(e) ==> HealthBounded(r)
    ensures r.isAlive == e.isAlive && r.state == e.state && r.sprite == e.sprite
  {
    if !Regenerates(e) then e
    else
      var t := e.healthRegenTimer + dt;
      if t >= 1000.0 then Heal(e.(healthRegenTimer := t), e.stats.healthRegen).(healthRegenTimer := 0.0)
      else e.(healthRegenTimer := t)
  }

  /** `update(dt)`: the sprite's clip clock, then health regeneration. */
  function Update(e: GameEntity, dt: real): (r: GameEntity)
    requires Sprite.Valid(e.sprite)
    ensures r.sprite == Sprite.UpdateAnimation(e.sprite, dt).sprite
    ensures r == UpdateHealthRegen(e.(sprite := r.sprite), dt)
    ensures Sprite.Valid(r.sprite)
    ensures HealthBounded(e) ==> HealthBounded(r)
  {
    UpdateHealthRegen(e.(sprite := Sprite.UpdateAnimation(e.sprite, dt).sprite), dt)
  }

  /** `die` twice is `die` once. */
  lemma DieIdempotent(e: GameEntity)
    ensures Die(Die(e)) == Die(e)
  {
  }

  /** What can happen to an entity from outside. */
  datatype Event = Damaged(amount: real) | Healed(amount: real) | Frame(dt: real) | Killed | StateChanged(s: State)

  function Apply(e: GameEntity, ev: Event): (r: GameEntity)
    requires Sprite.Valid(e.sprite)
    ensures Sprite.Valid(r.sprite)
  {
    match ev
    case Damaged(a) => TakeDamage(e, a)
    case Healed(a) => Heal(e, a)
    case Frame(dt) => Update(e, dt)
    case Killed => Die(e)
    case StateChanged(s) => ChangeState(e, s)
  }

  function Run(e: GameEntity, evs: seq<Event>): (r: GameEntity)
    requires Sprite.Valid(e.sprite)
    ensures Sprite.Valid(r.sprite)
    decreases |evs|
  {
    if |evs| == 0 then e else Run(Apply(e, evs[0]), evs[1..])
  }

  /** Damage and heal amounts are non-negative. */
  predicate NonNegativeAmounts(evs: seq<Event>) {
    forall i :: 0 <= i < |evs| ==> (evs[i].Damaged? ==> evs[i].amount >= 0.0) && (evs[i].Healed? ==> evs[i].amount >= 0.0)
  }

  /** Health stays within [0, maxHealth] under any run of non-negative damage
      and heals, frames and state changes. */
  lemma {:induction false} RunKeepsHealthBounded(e: GameEntity, evs: seq<Event>)
    requires Sprite.Valid(e.sprite) && HealthBounded(e) && NonNegativeAmounts(evs)
    ensures HealthBounded(Run(e, evs))
    decreases |evs|
  {
    if |evs| > 0 {
      var e' := Apply(e, evs[0]);
      assert HealthBounded(e');
      assert NonNegativeAmounts(evs[1..]) by {
        forall i | 0 <= i < |evs[1..]| ensures evs[1..][i] == evs[i + 1] { }
      }
      RunKeepsHealthBounded(e', evs[1..]);
    }
  }

  /** A dead entity stays dead and its health never changes again: no
      damage, heal or regeneration reaches it. */
  lemma {:induction false} DeadStaysDead(e: GameEntity, evs: seq<Event>)
    requires Sprite.Valid(e.sprite) && !e.isAlive
    ensures !Run(e, evs).isAlive
    ensures Run(e, evs).stats == e.stats
    decreases |evs|
  {
    if |evs| > 0 {
      DeadStaysDead(Apply(e, evs[0]), evs[1..]);
    }
  }

  /** Damage of at least the current health kills: the entity is no longer
      alive, is dying, and has exactly 0 health. */
  lemma LethalDamageKills(e: GameEntity, amount: real)
    requires e.isAlive && !e.isDying && amount >= e.stats.currentHealth
    ensures var r := TakeDamage(e, amount);
            !r.isAlive && r.isDying && r.state == Dying && r.stats.currentHealth == 0.0
  {
  }
}
