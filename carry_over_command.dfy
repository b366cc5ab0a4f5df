/** The decisions of the `process_year_end_carry_over` management command
    (leaves/management/commands/process_year_end_carry_over.py): how the cap option is read, when
    the command refuses to run again, and which closing message it prints. The batch itself
    belongs to a report service that is not part of this model; its result enters as a count. */
module CarryOverCommand {
  import opened Results
  import opened LeaveModels

  /** The `--max-carry-over` option as the command reads it: a value of 0 (falsy) is no cap at
      all, like a missing one. */
  function CapOption(maxCarryOver: Option<Tenths>): (cap: Option<Tenths>)
    ensures cap.None? <==> maxCarryOver.None? || maxCarryOver.value == 0
    ensures cap.Some? ==> cap == maxCarryOver
  {
    if maxCarryOver.None? || maxCarryOver.value == 0 then None else maxCarryOver
  }

  /** Asking for a cap of 0 carries over everything unused instead of nothing. */
  lemma ZeroCapIsNoCap(unused: Tenths)
    requires unused > 0
    ensures CarryOverWithCap(unused, CapOption(Some(0))) == unused
    ensures CarryOverWithCap(unused, Some(0)) == 0
  {
  }

  /** The number of entitlements of `year` that already carry days over. */
  function CarriedOverCount(es: seq<Entitlement>, year: int): (n: nat)
    ensures n <= |es|
    ensures n == 0 <==> forall i :: 0 <= i < |es| ==> !(es[i].year == year && es[i].carriedOver > 0)
  {
    if es == [] then 0
    else CarriedOverCount(es[..|es| - 1], year) + (if es[|es| - 1].year == year && es[|es| - 1].carriedOver > 0 then 1 else 0)
  }

  datatype Closing = Succeeded(employees: nat) | DryRunComplete(employees: nat) | NothingToCarry

  datatype CommandOutcome = AlreadyProcessed(existing: nat) | Finished(closing: Closing)

  /** The closing message: success when changes were saved for someone, the dry-run summary on
      a dry run, and otherwise "no employees had unused days". */
  function ClosingMessage(dryRun: bool, withCarryOver: nat): (c: Closing)
    ensures c.Succeeded? <==> !dryRun && withCarryOver > 0
    ensures c.DryRunComplete? <==> dryRun
    ensures c.Succeeded? ==> c.employees == withCarryOver
    ensures c.DryRunComplete? ==> c.employees == withCarryOver
  {
    if !dryRun && withCarryOver > 0 then Succeeded(withCarryOver)
    else if dryRun then DryRunComplete(withCarryOver)
    else NothingToCarry
  }

  /** `Command.handle`: without `--force` or `--dry-run` it stops before processing when any
      entitlement of the target year already carries days over; otherwise it processes and
      reports on the `withCarryOver` employees the batch carried days over for. */
  function Handle(es: seq<Entitlement>, year: int, dryRun: bool, force: bool, withCarryOver: nat): (r: CommandOutcome)
    ensures r.AlreadyProcessed? <==> !force && !dryRun && CarriedOverCount(es, year) > 0
    ensures r.AlreadyProcessed? ==> r.existing == CarriedOverCount(es, year)
    ensures r.Finished? ==> r.closing == ClosingMessage(dryRun, withCarryOver)
  {
    if !force && !dryRun && CarriedOverCount(es, year) > 0 then AlreadyProcessed(CarriedOverCount(es, year))
    else Finished(ClosingMessage(dryRun, withCarryOver))
  }

  /** Either flag skips the guard, and without them a year none of whose rows carries days
      over is processed. */
  lemma GuardSkipped(es: seq<Entitlement>, year: int, dryRun: bool, force: bool, withCarryOver: nat)
    requires force || dryRun || forall i :: 0 <= i < |es| ==> es[i].year != year || es[i].carriedOver <= 0
    ensures Handle(es, year, dryRun, force, withCarryOver).Finished?
  {
  }

  /** Once a run has carried days over into some row of the year, running again without flags
      stops at the guard. */
  lemma SecondRunStops(es: seq<Entitlement>, year: int, k: nat, withCarryOver: nat)
    requires k < |es| && es[k].year == year && es[k].carriedOver > 0
    ensures Handle(es, year, false, false, withCarryOver).AlreadyProcessed?
  {
  }
}
