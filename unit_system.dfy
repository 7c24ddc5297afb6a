// unitSystem.hpp: the unit labels of a run and the gas constant R in the
// energy unit chosen. The double constants are taken as exact reals.
module UnitSystems {

  import opened Wrappers

  /** R in kJ/(mol K). */
  const RKiloJoule: real := 0.00831446261815324
  /** R in kcal/(mol K). */
  const RKiloCalorie: real := 0.00198720425864083

  datatype UnitSystem = UnitSystem(length: string, time: string, energy: string, temperature: string, r: real)

  predicate KiloJoule(e: string) { e == "kJ/mol" || e == "kJ" }

  predicate KiloCalorie(e: string) { e == "kCal/mol" || e == "kCal" }

  /**
   * The constructor: the labels are kept as given and the energy label
   * selects R; an energy unit it does not know throws.
   */
  function NewUnitSystem(l: string, t: string, e: string, temp: string): (r: Result<UnitSystem>)
    ensures r.Ok? <==> KiloJoule(e) || KiloCalorie(e)
    ensures r.Ok? ==> r.value.length == l && r.value.time == t && r.value.energy == e && r.value.temperature == temp
    ensures r.Ok? ==> r.value.r > 0.0
    ensures r.Ok? && KiloJoule(e) ==> r.value.r == RKiloJoule
    ensures r.Ok? && KiloCalorie(e) ==> r.value.r == RKiloCalorie
  {
    if KiloJoule(e) then Ok(UnitSystem(l, t, e, temp, RKiloJoule))
    else if KiloCalorie(e) then Ok(UnitSystem(l, t, e, temp, RKiloCalorie))
    else Err("could not understand given energy unit: " + e)
  }

  /** getR: for a unit system the constructor built, the gas constant in its energy unit. */
  function GetR(u: UnitSystem): (r: real)
    ensures NewUnitSystem(u.length, u.time, u.energy, u.temperature) == Ok(u) ==>
              r > 0.0 && r == if KiloJoule(u.energy) then RKiloJoule else RKiloCalorie
  {
    u.r
  }

  /** The two constants are one gas constant: a kilocalorie is 4.184 kJ, up to the last digit of the doubles. */
  lemma SameGasConstant()
    ensures 4.18399999 * RKiloCalorie < RKiloJoule < 4.18400001 * RKiloCalorie
  {
  }

  /** The simulator and the universe build their unit system from nm, ps, kJ/mol and K. */
  lemma DefaultUnits()
    ensures NewUnitSystem("nm", "ps", "kJ/mol", "K").Ok?
    ensures GetR(NewUnitSystem("nm", "ps", "kJ/mol", "K").value) == RKiloJoule
  {
  }
}
