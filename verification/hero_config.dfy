/** The hero registry `heroData` (built once by `initializeCharacteristics`
    from the cached server record) and `HeroFactory.createHero`. Sounds,
    sprite-sheet names and the empty `imgConfigs`/`functions` entries are
    not modelled. */
module HeroConfig {
  import opened Wrappers
  import opened Frames
  import Heroes
  import Scroll

  /** The cached server record: each numeric field may be absent. */
  datatype RawHero = RawHero(
    damage: Option<real>, maxHealth: Option<real>, healthRegen: Option<real>, coins: Option<real>,
    maxEnergy: Option<real>, energyRegen: Option<real>, vampirism: Option<real>,
    movementSpeed: Option<real>, level: Option<real>, currentIncome: Option<real>)

  /** `value || fallback` on a number that may be absent: absent and 0 are
      falsy and give the fallback. */
  function Or(v: Option<real>, fallback: real): (r: real)
    ensures (v.Some? && v.value != 0.0) ==> r == v.value
    ensures (v.None? || v.value == 0.0) ==> r == fallback
  {
    if v.Some? && v.value != 0.0 then v.value else fallback
  }

  /** The hyphenated keys the loader adds beside the camel-case ones
      (`damage`, `vampirism` and `level` are rewritten with the values they
      already hold). */
  datatype Hyphenated = Hyphenated(maxHealth: real, healthRegen: real, maxMana: real, manaRegen: real,
                                   movementSpeed: real, income: real)

  datatype HeroTemplate = HeroTemplate(
    id: nat, typeName: string,
    damage: real, maxHealth: real, healthRegen: real, coins: real, maxEnergy: real,
    energyRegen: real, vampirism: real, movementSpeed: real, level: real,
    anims: Heroes.HeroAnims, hyphenated: Hyphenated)

  datatype ConfigError =
    | MissingHeroData       // `data.damage` on a null record throws before the check
    | UnknownHeroType(typeName: string)

  /** The juggernaut's clips: run 21 frames, attack 34, idle 35. */
  function JuggernautAnims(): (a: Heroes.HeroAnims)
    ensures Heroes.PlayableAnims(a)
    ensures a.run.totalFrames == 21 && a.attack.totalFrames == 34 && a.idle.totalFrames == 35
  {
    Heroes.HeroAnims(SheetClip(21, 40, 512), SheetClip(34, 30, 512), SheetClip(35, 40, 512))
  }

  /** `initializeCharacteristics()`: one template, the juggernaut, each stat
      from the record or its fallback (damage 1, max health 30, health regen 1,
      coins 0, max energy 10, energy regen 1, vampirism 0, movement speed 0,
      level 0). The hyphenated copies use the same fallbacks except the
      movement speed, which falls back to 2, and the income, read from
      `currentIncome`. A missing record fails: its fields are read before the
      `if (data)` test. */
  function InitializeCharacteristics(data: Option<RawHero>): (r: Result<seq<HeroTemplate>, ConfigError>)
    ensures r.Failure? <==> data.None?
    ensures r.Failure? ==> r.error == MissingHeroData
    ensures r.Success? ==> |r.value| == 1 && r.value[0].id == 1 && r.value[0].typeName == "juggernaut"
    ensures r.Success? ==> FromRecord(r.value[0], data.value)
  {
    match data
    case None => Failure(MissingHeroData)
    case Some(d) =>
      Success([HeroTemplate(1, "juggernaut",
        Or(d.damage, 1.0), Or(d.maxHealth, 30.0), Or(d.healthRegen, 1.0), Or(d.coins, 0.0),
        Or(d.maxEnergy, 10.0), Or(d.energyRegen, 1.0), Or(d.vampirism, 0.0),
        Or(d.movementSpeed, 0.0), Or(d.level, 0.0),
        JuggernautAnims(),
        Hyphenated(Or(d.maxHealth, 30.0), Or(d.healthRegen, 1.0), Or(d.maxEnergy, 10.0),
                   Or(d.energyRegen, 1.0), Or(d.movementSpeed, 2.0), Or(d.currentIncome, 0.0)))])
  }

  /** The stats a template built from record `d` carries. */
  ghost predicate FromRecord(t: HeroTemplate, d: RawHero)
    // A stored 0 never survives where the fallback is not 0.
    ensures FromRecord(t, d) ==>
              t.damage != 0.0 && t.maxHealth != 0.0 && t.healthRegen != 0.0 && t.maxEnergy != 0.0 && t.energyRegen != 0.0
    ensures FromRecord(t, d) ==> t.hyphenated.movementSpeed != 0.0 && t.hyphenated.maxHealth == t.maxHealth
  {
    && t.damage == Or(d.damage, 1.0) && t.maxHealth == Or(d.maxHealth, 30.0)
    && t.healthRegen == Or(d.healthRegen, 1.0) && t.coins == Or(d.coins, 0.0)
    && t.maxEnergy == Or(d.maxEnergy, 10.0) && t.energyRegen == Or(d.energyRegen, 1.0)
    && t.vampirism == Or(d.vampirism, 0.0) && t.movementSpeed == Or(d.movementSpeed, 0.0)
    && t.level == Or(d.level, 0.0) && t.anims == JuggernautAnims()
    && t.hyphenated == Hyphenated(t.maxHealth, t.healthRegen, t.maxEnergy, t.energyRegen,
                                  Or(d.movementSpeed, 2.0), Or(d.currentIncome, 0.0))
  }

  /** An empty record yields exactly the fallbacks, and the two movement-speed
      keys then disagree (0 against 2). */
  lemma EmptyRecordGivesFallbacks()
    ensures var r := InitializeCharacteristics(Some(RawHero(None, None, None, None, None, None, None, None, None, None)));
            && r.Success?
            && var t := r.value[0];
            && t.damage == 1.0 && t.maxHealth == 30.0 && t.healthRegen == 1.0 && t.coins == 0.0
            && t.maxEnergy == 10.0 && t.energyRegen == 1.0 && t.vampirism == 0.0 && t.level == 0.0
            && t.movementSpeed == 0.0 && t.hyphenated.movementSpeed == 2.0 && t.hyphenated.income == 0.0
  {
  }

  /** A stored 0 is falsy: a record with 0 max health builds a 30-health hero
      template, just as a missing field does. */
  lemma StoredZeroIsReplaced(d: RawHero)
    requires d.maxHealth == Some(0.0)
    ensures InitializeCharacteristics(Some(d)).value[0].maxHealth
            == InitializeCharacteristics(Some(d.(maxHealth := None))).value[0].maxHealth == 30.0
  {
  }

  /** `heroData.find(c => c.type === type)`. */
  function FindHero(ts: seq<HeroTemplate>, typeName: string): (r: Option<HeroTemplate>)
    ensures r.None? <==> forall i :: 0 <= i < |ts| ==> ts[i].typeName != typeName
    ensures r.Some? ==> r.value.typeName == typeName && r.value in ts
    ensures r.Some? ==> exists i :: 0 <= i < |ts| && ts[i] == r.value && forall j :: 0 <= j < i ==> ts[j].typeName != typeName
  {
    if |ts| == 0 then None
    else if ts[0].typeName == typeName then Some(ts[0])
    else
      var r := FindHero(ts[1..], typeName);
      if r.Some? then
        assert forall i :: 0 <= i < |ts[1..]| ==> ts[1..][i] == ts[i + 1];
        var i :| 0 <= i < |ts[1..]| && ts[1..][i] == r.value && forall j :: 0 <= j < i ==> ts[1..][j].typeName != typeName;
        assert ts[i + 1] == r.value;
        r
      else r
  }

  /** `createHero(type)` over the registry built from `data`: the template's
      stats go to the constructor in its parameter order (damage, max health,
      health regen, coins, level, max energy, energy regen, vampirism). */
  function CreateHero(data: Option<RawHero>, typeName: string): (r: Result<Heroes.Hero, ConfigError>)
    ensures data.None? ==> r == Failure(MissingHeroData)
    ensures data.Some? && typeName != "juggernaut" ==> r == Failure(UnknownHeroType(typeName))
    ensures data.Some? && typeName == "juggernaut" ==> r.Success? && HeroFromRecord(r.value, data.value)
  {
    var ts :- InitializeCharacteristics(data);
    match FindHero(ts, typeName)
    case None => Failure(UnknownHeroType(typeName))
    case Some(t) =>
      Success(Heroes.New(t.damage, t.maxHealth, t.healthRegen, t.coins, t.level,
                         t.maxEnergy, t.energyRegen, t.vampirism, t.anims))
  }

  /** A fresh hero whose stats come from record `d` through the fallbacks. */
  ghost predicate HeroFromRecord(h: Heroes.Hero, d: RawHero)
    ensures HeroFromRecord(h, d) ==> h.damage != 0.0 && h.maxHealth != 0.0 && h.maxEnergy != 0.0
    ensures HeroFromRecord(h, d) && h.maxHealth > 0.0 && h.maxEnergy > 0.0 ==> Heroes.Bounded(h)
  {
    && h.damage == Or(d.damage, 1.0) && h.maxHealth == h.health == Or(d.maxHealth, 30.0)
    && h.baseHealthRegen == h.healthRegen == Or(d.healthRegen, 1.0) && h.coins == Or(d.coins, 0.0)
    && h.maxEnergy == h.energy == Or(d.maxEnergy, 10.0)
    && h.baseEnergyRegen == h.energyRegen == Or(d.energyRegen, 1.0)
    && h.vampirism == Or(d.vampirism, 0.0) && h.level == Or(d.level, 0.0)
    && h.anims == JuggernautAnims() && h.clip == Heroes.Run && h.frame == 0
    && !h.isAttacking && !h.isColliding && h.cooldowns == [] && !h.poisonPending
  }

  /** A hero built from any record starts inside the stats clamp whenever its
      maxima are non-negative. */
  lemma CreatedHeroBounded(d: RawHero)
    requires Or(d.maxHealth, 30.0) >= 0.0 && Or(d.maxEnergy, 10.0) >= 0.0
    ensures Heroes.Bounded(CreateHero(Some(d), "juggernaut").value)
  {
  }

  /** The juggernaut's attack clip ends after 30 frame advances. */
  lemma JuggernautAttackLasts30Advances(h: Heroes.Hero, bg: Scroll.Background, cc: bool, ca: bool)
    requires h.anims == JuggernautAnims() && h.clip == Heroes.Attack && h.frame == 0
    ensures Heroes.Advances(Heroes.HeroFrame(h, bg), 29, cc, ca).hero.clip == Heroes.Attack
    ensures !Heroes.Advances(Heroes.HeroFrame(h, bg), 30, cc, ca).hero.isAttacking
  {
    Heroes.AttackClipLength(h, bg, 29, cc, ca);
    Heroes.AttackClipLength(h, bg, 30, cc, ca);
  }
}
