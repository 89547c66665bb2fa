/** `CreepFactory.createCreep`: looks a template up by type and builds a
    creep from it. The factory's second and third parameters are handed to
    the constructor in the opposite order from the constructor's own, so the
    value passed as `creepNumber` lands in the creep's rank and `creepRank` in
    its number. */
module CreepFactory {
  import opened Wrappers
  import opened CreepTemplates
  import Creeps

  /** The error thrown for a type with no template. */
  datatype FactoryError = UnknownCreepType(typeName: string)

  /** `createCreep(type, creepNumber = 1, creepRank = 0)`. */
  function CreateCreep(typeName: string, creepNumber: nat := 1, creepRank: nat := 0): (r: Result<Creeps.Creep, FactoryError>)
    ensures r.Failure? <==> forall i :: 0 <= i < |Templates()| ==> Templates()[i].typeName != typeName
    ensures r.Failure? ==> r.error == UnknownCreepType(typeName)
    ensures r.Success? ==>
              exists i :: 0 <= i < |Templates()| && Templates()[i].typeName == typeName && FromTemplate(r.value, Templates()[i])
    ensures r.Success? ==> r.value.rank == creepNumber && r.value.number == creepRank
    ensures r.Success? ==> r.value.isAlive && !r.value.isDying && r.value.clip == Creeps.IdleClip
  {
    match FindTemplate(typeName)
    case None => Failure(UnknownCreepType(typeName))
    case Some(t) =>
      assert exists i :: 0 <= i < |Templates()| && Templates()[i] == t;
      Success(Creeps.New(t.unlockedLevel, t.creepDamage, t.creepHealthTotal, t.coinsEarned,
                         t.animations, t.imgConfigs, t.functions, creepNumber, creepRank))
  }

  /** The creep carries the template's stats and clips, at full health. */
  predicate FromTemplate(c: Creeps.Creep, t: CreepTemplate) {
    && c.unlockedLevel == t.unlockedLevel && c.creepDamage == t.creepDamage
    && c.healthTotal == t.creepHealthTotal && c.healthLeft == t.creepHealthTotal as real
    && c.coinsEarned == t.coinsEarned && c.animations == t.animations
    && c.imgConfigs == t.imgConfigs && c.functions == t.functions
  }

  /** Every registered type builds, with clips the frame clock can run. */
  lemma RegisteredTypesBuild(i: nat)
    requires i < |Templates()|
    ensures CreateCreep(Templates()[i].typeName).Success?
    ensures PlayableAnims(CreateCreep(Templates()[i].typeName).value.animations)
  {
    var r := CreateCreep(Templates()[i].typeName);
    var j :| 0 <= j < |Templates()| && Templates()[j].typeName == Templates()[i].typeName && FromTemplate(r.value, Templates()[j]);
  }

  /** The game calls `createCreep(type, creepRank, creepNumber)`; the swap in
      the factory undoes the swap at the call site, so the creep gets the rank
      and number the game meant. */
  lemma CallSiteSwapCancels(typeName: string, rank: nat, number: nat)
    requires CreateCreep(typeName).Success?
    ensures CreateCreep(typeName, rank, number).Success?
    ensures CreateCreep(typeName, rank, number).value.rank == rank
    ensures CreateCreep(typeName, rank, number).value.number == number
  {
  }

  /** Called with its defaults, the factory yields rank 1 and kill number 0:
      the defaults are swapped as well. */
  lemma DefaultsLandSwapped(typeName: string)
    requires CreateCreep(typeName).Success?
    ensures CreateCreep(typeName).value.rank == 1 && CreateCreep(typeName).value.number == 0
  {
  }

  /** An unregistered type is refused: the `"random"` placeholder of the
      game must be resolved before the factory is called. */
  lemma UnknownTypeRefused()
    ensures CreateCreep("random") == Failure(UnknownCreepType("random"))
  {
    assert forall i :: 0 <= i < |Templates()| ==> Templates()[i].typeName != "random" by {
      forall i | 0 <= i < |Templates()| ensures Templates()[i].typeName != "random" {
        assert Templates()[i].typeName[0] != 'r';
      }
    }
  }
}
