/** The creep registry `creepsConfig` of the legacy game and its two on-hit
    modifiers. Sounds, sprite-sheet names and health-bar placement are left
    out; each modifier closure becomes a tag interpreted by `ApplyOnHit`. */
module CreepTemplates {
  import opened Wrappers
  import opened Frames
  import Heroes

  /** The gameplay part of `imgConfigs`: the sprite scale and the two trigger
      frames of the attack clip. */
  datatype ImgConfigs = ImgConfigs(imgScale: real, swingFrame: nat, attackFrame: nat)

  datatype CreepAnims = CreepAnims(idle: Clip, attack: Clip, death: Clip)

  /** The `functions` entry: no `attack_modifier`, the voul's poison or the
      satyr's mana burn. */
  datatype OnHit = NoModifier | Poison | ManaBurn

  datatype CreepTemplate = CreepTemplate(
    typeName: string, unlockedLevel: int, creepDamage: int, creepHealthTotal: int, coinsEarned: int,
    imgConfigs: ImgConfigs, functions: OnHit, animations: CreepAnims)

  predicate PlayableAnims(a: CreepAnims) {
    Playable(a.idle) && Playable(a.attack) && Playable(a.death)
  }

  /** Both attack triggers are frames the attack clip reaches, swing first. */
  predicate TriggersReachable(t: CreepTemplate) {
    t.imgConfigs.swingFrame < t.imgConfigs.attackFrame < t.animations.attack.totalFrames
  }

  /** The six templates, in registry order. */
  function Templates(): (ts: seq<CreepTemplate>)
    ensures |ts| == 6
    ensures ts[0].typeName == "defaultCreep" && ts[0].unlockedLevel == 0
    ensures forall i :: 0 <= i < |ts| ==> TriggersReachable(ts[i]) && PlayableAnims(ts[i].animations)
    ensures forall i :: 0 <= i < |ts| ==> ts[i].coinsEarned == 1 && ts[i].unlockedLevel >= 0
    ensures forall i :: 0 <= i < |ts| ==> ts[i].creepDamage > 0 && ts[i].creepHealthTotal > 0
    ensures forall i, j :: 0 <= i < j < |ts| ==> ts[i].typeName != ts[j].typeName
  {
    [ CreepTemplate("defaultCreep", 0, 3, 10, 1, ImgConfigs(1.0, 4, 13), NoModifier,
                    CreepAnims(SheetClip(52, 20, 1024), SheetClip(29, 30, 1024), SheetClip(29, 40, 1024))),
      CreepTemplate("shiska", 1, 2, 15, 1, ImgConfigs(1.5, 5, 11), NoModifier,
                    CreepAnims(SheetClip(24, 40, 1024), SheetClip(27, 30, 1024), SheetClip(28, 30, 1024))),
      CreepTemplate("medved", 2, 1, 10, 1, ImgConfigs(1.0, 10, 11), NoModifier,
                    CreepAnims(SheetClip(27, 40, 1024), SheetClip(21, 20, 1024), SheetClip(24, 30, 1024))),
      CreepTemplate("wolf", 3, 5, 5, 1, ImgConfigs(1.0, 6, 8), NoModifier,
                    CreepAnims(SheetClip(23, 40, 1024), SheetClip(21, 40, 1024), SheetClip(18, 40, 1024))),
      CreepTemplate("voul", 5, 2, 10, 1, ImgConfigs(1.0, 5, 11), Poison,
                    CreepAnims(SheetClip(34, 40, 1024), SheetClip(25, 30, 1024), SheetClip(31, 30, 1024))),
      CreepTemplate("satyr", 4, 2, 7, 1, ImgConfigs(1.0, 5, 11), ManaBurn,
                    CreepAnims(SheetClip(34, 40, 1024), SheetClip(25, 30, 1024), SheetClip(31, 30, 1024))) ]
  }

  /** Index of the first template of the given type, as `find` scans. */
  function FirstOfType(ts: seq<CreepTemplate>, typeName: string): (r: Option<nat>)
    ensures r.None? <==> forall i :: 0 <= i < |ts| ==> ts[i].typeName != typeName
    ensures r.Some? ==> r.value < |ts| && ts[r.value].typeName == typeName
    ensures r.Some? ==> forall i :: 0 <= i < r.value ==> ts[i].typeName != typeName
  {
    if |ts| == 0 then None
    else if ts[0].typeName == typeName then Some(0)
    else match FirstOfType(ts[1..], typeName)
      case None => None
      case Some(i) => Some(i + 1)
  }

  /** `creepsConfig.find(c => c.type === type)`. Types are distinct, so the
      template found is the only one of that type. */
  function FindTemplate(typeName: string): (r: Option<CreepTemplate>)
    ensures r.None? <==> forall i :: 0 <= i < |Templates()| ==> Templates()[i].typeName != typeName
    ensures r.Some? ==> r.value.typeName == typeName
    ensures r.Some? ==> forall i :: 0 <= i < |Templates()| && Templates()[i].typeName == typeName ==> Templates()[i] == r.value
  {
    match FirstOfType(Templates(), typeName)
    case None => None
    case Some(i) => Some(Templates()[i])
  }

  /** The amount the satyr's burn takes: the `creepDamage` of the satyr
      template, which the modifier looks up in the registry at each hit. */
  const SatyrBurn: int := 2

  /** The registry lookup the burn performs finds the satyr template, whose
      damage is `SatyrBurn`. */
  lemma SatyrBurnIsSatyrDamage()
    ensures FindTemplate("satyr").Some? && FindTemplate("satyr").value.creepDamage == SatyrBurn
  {
    assert Templates()[5].typeName == "satyr";
  }

  /** The satyr's `attack_modifier`: with at least 2 energy, lose the satyr's
      config damage, floored at 0; otherwise nothing. */
  function BurnMana(h: Heroes.Hero): (r: Heroes.Hero)
    ensures h.energy >= 2.0 ==> r == h.(energy := h.energy - 2.0)
    ensures h.energy < 2.0 ==> r == h
  {
    if h.energy >= 2.0 then h.(energy := Heroes.Max(h.energy - SatyrBurn as real, 0.0)) else h
  }

  /** The voul's `attack_modifier`: health regen drops to 0 and exactly one
      restore is pending, replacing any earlier one. */
  function Poisoned(h: Heroes.Hero): (r: Heroes.Hero)
    ensures r.healthRegen == 0.0 && r.poisonPending
    ensures r.(healthRegen := h.healthRegen, poisonPending := h.poisonPending) == h
  {
    h.(healthRegen := 0.0, poisonPending := true)
  }

  /** The `attack_modifier` a creep applies to the hero on impact, if any. */
  function ApplyOnHit(m: OnHit, h: Heroes.Hero): (r: Heroes.Hero)
    ensures m.NoModifier? ==> r == h
  {
    match m
    case NoModifier => h
    case ManaBurn => BurnMana(h)
    case Poison => Poisoned(h)
  }

  /** The poison's 1000 ms restore elapses: the base regen comes back and
      nothing stays pending. Without a pending restore nothing happens. */
  function PoisonExpires(h: Heroes.Hero): (r: Heroes.Hero)
    ensures h.poisonPending ==> r == h.(healthRegen := h.baseHealthRegen, poisonPending := false)
    ensures !h.poisonPending ==> r == h
  {
    if h.poisonPending then h.(healthRegen := h.baseHealthRegen, poisonPending := false) else h
  }

  /** Poisoning twice leaves one restore: the first expiry restores the base
      regen and a second expiry changes nothing. */
  lemma RepeatedPoisonRestoresOnce(h: Heroes.Hero)
    ensures var p := ApplyOnHit(Poison, ApplyOnHit(Poison, h));
            var once := PoisonExpires(p);
            && p.healthRegen == 0.0
            && once.healthRegen == h.baseHealthRegen && !once.poisonPending
            && PoisonExpires(once) == once
  {
  }

  /** Mana burn never drives energy negative from a non-negative start. */
  lemma ManaBurnKeepsEnergyNonNegative(h: Heroes.Hero)
    requires h.energy >= 0.0
    ensures BurnMana(h).energy >= 0.0
    ensures BurnMana(h).energy <= h.energy
  {
  }
}
