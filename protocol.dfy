/**
 * The rules as the engine sees them.  Python dispatches on the rule class;
 * here a transfer rule names which `apply` it runs, and carries its
 * `apply_to` condition and the amount it moves.  The amount stands for the
 * rule's float arithmetic (`int(current * rate)` and the like): an
 * integer-valued function of the cohort's current population and tags.
 */
module Protocol {
  import opened Maybe
  import opened Cohort
  import opened Rules
  import opened NycRules

  /** The transfer rule classes of rule.py and nyc_simulation.py. */
  datatype TransferKind =
    | Mortality
    | Birth
    | BirthWithRace
    | NycFertility
    | NycMortality
    | NycNetMigration

  /** A `TransferRule` subclass: its `apply`, its `apply_to` condition and its amount. */
  datatype TransferRule = TransferRule(kind: TransferKind, applyTo: Tags, amount: (int, Tags) -> int)

  /** A `GenerativeRule` subclass; `NetMigrationRule` is the only one. */
  datatype GenerativeRule = NetMigration(amount: (string, string) -> int)

  /** The destination logic of the rule class `kind`. */
  function TargetOf(kind: TransferKind, tags: Tags): Target {
    match kind
    case Mortality => MortalityTarget(tags)
    case Birth => BirthTarget(tags)
    case BirthWithRace => BirthWithRaceTarget(tags)
    case NycFertility => NycFertilityTarget(tags)
    case NycMortality => NycMortalityTarget(tags)
    case NycNetMigration => NycNetMigrationTarget(tags)
  }

  /** What `rule.apply(block)` returns, or that it raised. */
  datatype Effect = NoOp | Contribute(to: Tags, amount: int) | Fail

  /**
   * `rule.apply(block)` for a cohort with tags `tags` and current population
   * `current`.  It reads nothing else and changes nothing.
   */
  function ApplyTransfer(r: TransferRule, tags: Tags, current: int): Effect {
    match TargetOf(r.kind, tags)
    case Skip => NoOp
    case Raises => Fail
    case To(dest) => Contribute(dest, r.amount(current, tags))
  }

  /** `rule.apply(TAGS)` of a generative rule: its contributions, or `None` when it raises. */
  function ApplyGenerative(g: GenerativeRule, domain: Domain): Option<seq<(Tags, int)>> {
    NetMigrationContributions(domain, g.amount)
  }
}
