/** Per-registration membership statistics (`RegistrationGroupStats`,
    csv-load/script.js:10-59): the mutable object the loader fills in, and
    the value it holds at any moment. */
module Groups {

  datatype Gender = Gender(male: int, female: int)
  datatype Generation = Generation(elementary: int, middle: int)

  /** The value of a `RegistrationGroupStats` object. */
  datatype GroupStats = GroupStats(
    registrationName: string,
    dantaiList: seq<string>,
    boysElementary: int,
    girlsElementary: int,
    boysMiddle: int,
    girlsMiddle: int,
    total: int)
  {
    /** The running total is the sum of the four counters. */
    predicate Balanced() {
      total == boysElementary + girlsElementary + boysMiddle + girlsMiddle
    }

    /** The counters after `addMembers(be, ge, bm, gm)`. */
    function AddMembers(be: int, ge: int, bm: int, gm: int): (g: GroupStats)
      ensures g.registrationName == registrationName && g.dantaiList == dantaiList
      ensures g.total - total == be + ge + bm + gm
      ensures Balanced() ==> g.Balanced()
    {
      GroupStats(registrationName, dantaiList,
        boysElementary + be, girlsElementary + ge, boysMiddle + bm, girlsMiddle + gm,
        total + be + ge + bm + gm)
    }

    /** `getGenderBreakdown`: boys and girls of both school levels. */
    function GenderBreakdown(): (b: Gender)
      ensures Balanced() ==> b.male + b.female == total
    {
      Gender(boysElementary + boysMiddle, girlsElementary + girlsMiddle)
    }

    /** `getGenerationBreakdown`: elementary and middle school, both genders. */
    function GenerationBreakdown(): (b: Generation)
      ensures Balanced() ==> b.elementary + b.middle == total
    {
      Generation(boysElementary + girlsElementary, boysMiddle + girlsMiddle)
    }
  }

  /** A fresh group: no members and no clubs. */
  function NewGroup(registrationName: string): (g: GroupStats)
    ensures g.Balanced() && g.total == 0 && g.dantaiList == []
  {
    GroupStats(registrationName, [], 0, 0, 0, 0, 0)
  }

  /** `getDistributionData`: the counters together with both breakdowns. */
  datatype Distribution = Distribution(
    registrationName: string,
    boysElementary: int,
    girlsElementary: int,
    boysMiddle: int,
    girlsMiddle: int,
    total: int,
    genderBreakdown: Gender,
    generationBreakdown: Generation)

  class RegistrationGroupStats {
    var registrationName: string
    var dantaiList: seq<string>
    var boysElementary: int
    var girlsElementary: int
    var boysMiddle: int
    var girlsMiddle: int
    var total: int

    /** The object's current value. */
    function Value(): GroupStats
      reads this
    {
      GroupStats(registrationName, dantaiList, boysElementary, girlsElementary,
        boysMiddle, girlsMiddle, total)
    }

    ghost predicate Valid()
      reads this
    {
      Value().Balanced()
    }

    constructor (registrationName: string)
      ensures Valid()
      ensures Value() == NewGroup(registrationName)
    {
      this.registrationName := registrationName;
      dantaiList := [];
      boysElementary, girlsElementary, boysMiddle, girlsMiddle := 0, 0, 0, 0;
      total := 0;
    }

    method AddMembers(be: int, ge: int, bm: int, gm: int)
      requires Valid()
      modifies this
      ensures Valid()
      ensures Value() == old(Value()).AddMembers(be, ge, bm, gm)
    {
      boysElementary := boysElementary + be;
      girlsElementary := girlsElementary + ge;
      boysMiddle := boysMiddle + bm;
      girlsMiddle := girlsMiddle + gm;
      total := total + be + ge + bm + gm;
    }

    function GenderBreakdown(): (b: Gender)
      reads this
      ensures Valid() ==> b.male + b.female == total
    {
      Value().GenderBreakdown()
    }

    function GenerationBreakdown(): (b: Generation)
      reads this
      ensures Valid() ==> b.elementary + b.middle == total
    {
      Value().GenerationBreakdown()
    }

    function DistributionData(): (d: Distribution)
      reads this
      ensures Valid() ==> d.genderBreakdown.male + d.genderBreakdown.female == d.total
      ensures Valid() ==> d.generationBreakdown.elementary + d.generationBreakdown.middle == d.total
    {
      Distribution(registrationName, boysElementary, girlsElementary, boysMiddle,
        girlsMiddle, total, GenderBreakdown(), GenerationBreakdown())
    }
  }
}
