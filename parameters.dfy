// parameters.cpp, Parameters::check: the consistency rules over the program
// options, and the engine, simulation mode and algorithm they select. Reading
// the options (Boost program_options) is not modelled: an option map is given
// as the set of options present and the values check consults.
module Parameters {

  import opened Utility

  /**
   * The options as check sees them. present holds the names of the options
   * given a value (parameterMap.count); the switches and gromacs.mdp.energy
   * always have a value, false and "" by default.
   */
  datatype Options = Options(
    present: set<string>, engine: string,
    restart: bool, mc: bool, rate: bool,
    computeLocal: bool, computeSolvation: bool, mdpEnergy: string)

  datatype Engine = Gromacs
  datatype SimMode = New | Restart
  datatype SimAlgorithm = RateAlgorithm | MonteCarlo

  datatype Settings = Settings(engine: Engine, mode: SimMode, algorithm: SimAlgorithm)

  /** The reasons check exits with failure, in the order it tests them. */
  datatype OptionError =
    | EngineMissing
    | EngineUnknown
    | RestartCyclesMissing
    | RestartCycleWithoutRestart
    | RestartCycleFilesWithoutRestart
    | ReactionFileMissing
    | RateAndMcNotExclusive
    | FrequencyMissing
    | TemperatureMissing
    | SolvationWithoutLocal
    | TopologyMissing
    | CoordinatesMissing
    | MdpMissing
    | MdpRelaxationMissing
    | MdpEnergyMissing

  datatype Checked = Settled(settings: Settings) | Refused(error: OptionError)

  function Rank(e: OptionError): nat
  {
    match e
    case EngineMissing => 0
    case EngineUnknown => 1
    case RestartCyclesMissing => 2
    case RestartCycleWithoutRestart => 3
    case RestartCycleFilesWithoutRestart => 4
    case ReactionFileMissing => 5
    case RateAndMcNotExclusive => 6
    case FrequencyMissing => 7
    case TemperatureMissing => 8
    case SolvationWithoutLocal => 9
    case TopologyMissing => 10
    case CoordinatesMissing => 11
    case MdpMissing => 12
    case MdpRelaxationMissing => 13
    case MdpEnergyMissing => 14
  }

  /** The rule behind each error, stated on its own. */
  predicate Violates(o: Options, e: OptionError)
  {
    match e
    case EngineMissing => "simulation.engine" !in o.present
    case EngineUnknown => "simulation.engine" in o.present && !HasSubstring(o.engine, "gmx")
    case RestartCyclesMissing =>
      o.restart && ("simulation.restartCycle" !in o.present || "simulation.restartCycleFiles" !in o.present)
    case RestartCycleWithoutRestart => !o.restart && "simulation.restartCycle" in o.present
    case RestartCycleFilesWithoutRestart => !o.restart && "simulation.restartCycleFiles" in o.present
    case ReactionFileMissing => "reaction.file" !in o.present
    case RateAndMcNotExclusive => o.rate == o.mc
    case FrequencyMissing => o.rate && "reaction.frequency" !in o.present
    case TemperatureMissing => o.mc && "reaction.temperature" !in o.present
    case SolvationWithoutLocal => o.computeSolvation && !o.computeLocal
    case TopologyMissing => "gromacs.topology" !in o.present
    case CoordinatesMissing => "gromacs.coordinates" !in o.present
    case MdpMissing => "gromacs.mdp" !in o.present
    case MdpRelaxationMissing => "gromacs.mdp.relaxation" !in o.present
    case MdpEnergyMissing => o.computeSolvation && o.mdpEnergy == ""
  }

  /**
   * check: the first rule broken, in the source's order, is the error; with
   * none broken the engine is GROMACS, the mode is a restart iff
   * simulation.restart is set, and the algorithm is Metropolis iff
   * reaction.mc is set.
   */
  function Check(o: Options): (r: Checked)
    ensures r.Settled? ==> r.settings.engine == Gromacs
                           && (r.settings.mode == Restart <==> o.restart)
                           && (r.settings.algorithm == MonteCarlo <==> o.mc)
  {
    if "simulation.engine" !in o.present then Refused(EngineMissing)
    else if !HasSubstring(o.engine, "gmx") then Refused(EngineUnknown)
    else if o.restart && ("simulation.restartCycle" !in o.present || "simulation.restartCycleFiles" !in o.present) then
      Refused(RestartCyclesMissing)
    else if !o.restart && "simulation.restartCycle" in o.present then Refused(RestartCycleWithoutRestart)
    else if !o.restart && "simulation.restartCycleFiles" in o.present then Refused(RestartCycleFilesWithoutRestart)
    else if "reaction.file" !in o.present then Refused(ReactionFileMissing)
    else if o.rate == o.mc then Refused(RateAndMcNotExclusive)
    else if o.rate && "reaction.frequency" !in o.present then Refused(FrequencyMissing)
    else if o.mc && "reaction.temperature" !in o.present then Refused(TemperatureMissing)
    else if o.computeSolvation && !o.computeLocal then Refused(SolvationWithoutLocal)
    else if "gromacs.topology" !in o.present then Refused(TopologyMissing)
    else if "gromacs.coordinates" !in o.present then Refused(CoordinatesMissing)
    else if "gromacs.mdp" !in o.present then Refused(MdpMissing)
    else if "gromacs.mdp.relaxation" !in o.present then Refused(MdpRelaxationMissing)
    else if o.computeSolvation && o.mdpEnergy == "" then Refused(MdpEnergyMissing)
    else Settled(Settings(Gromacs, if o.restart then Restart else New, if o.mc then MonteCarlo else RateAlgorithm))
  }

  /** check settles the options iff they break no rule, and otherwise reports the first rule broken. */
  lemma CheckFirstViolation(o: Options)
    ensures Check(o).Settled? <==> forall e :: !Violates(o, e)
    ensures Check(o).Refused? ==> Violates(o, Check(o).error)
    ensures Check(o).Refused? ==> forall e :: Violates(o, e) ==> Rank(Check(o).error) <= Rank(e)
  {
    if Check(o).Refused? {
      CheckReportsBroken(o);
    }
    forall e | Violates(o, e)
      ensures Check(o).Refused? && Rank(Check(o).error) <= Rank(e)
    {
      CheckRefusesAtOrBefore(o, e);
    }
  }

  /** A refusal names a rule the options break. */
  lemma CheckReportsBroken(o: Options)
    requires Check(o).Refused?
    ensures Violates(o, Check(o).error)
  {
  }

  /** A broken rule refuses the options, with that rule or an earlier one. */
  lemma CheckRefusesAtOrBefore(o: Options, e: OptionError)
    requires Violates(o, e)
    ensures Check(o).Refused? && Rank(Check(o).error) <= Rank(e)
  {
    match e
    case EngineMissing =>
    case EngineUnknown =>
    case RestartCyclesMissing =>
    case RestartCycleWithoutRestart =>
    case RestartCycleFilesWithoutRestart =>
    case ReactionFileMissing =>
    case RateAndMcNotExclusive =>
    case FrequencyMissing =>
    case TemperatureMissing =>
    case SolvationWithoutLocal =>
    case TopologyMissing =>
    case CoordinatesMissing =>
    case MdpMissing =>
    case MdpRelaxationMissing =>
    case MdpEnergyMissing =>
  }

  /** A restart is settled only with both restart cycles given, and they are refused without one. */
  lemma RestartCyclesTogether(o: Options)
    requires Check(o).Settled?
    ensures o.restart <==> "simulation.restartCycle" in o.present
    ensures o.restart <==> "simulation.restartCycleFiles" in o.present
  {
    CheckFirstViolation(o);
    assert !Violates(o, RestartCyclesMissing);
    assert !Violates(o, RestartCycleWithoutRestart);
    assert !Violates(o, RestartCycleFilesWithoutRestart);
  }

  /** Settled options select exactly one algorithm, with its parameter given. */
  lemma AlgorithmParameterGiven(o: Options)
    requires Check(o).Settled?
    ensures Check(o).settings.algorithm == MonteCarlo ==> !o.rate && "reaction.temperature" in o.present
    ensures Check(o).settings.algorithm == RateAlgorithm ==> o.rate && "reaction.frequency" in o.present
  {
    CheckFirstViolation(o);
    assert !Violates(o, RateAndMcNotExclusive);
    assert !Violates(o, FrequencyMissing);
    assert !Violates(o, TemperatureMissing);
  }
}
