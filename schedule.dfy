/**
 * The single-run entry point: which ETL jobs one invocation runs, chosen by
 * a command-line argument or by the wall-clock time, and how a failing job
 * ends the run.
 */
module Schedule {
  import opened Strings

  datatype Job = CurrentTrains | TrainMovements | Stations {
    /** The name the job is logged under. */
    function Name(): string {
      match this
      case CurrentTrains => "Current Trains"
      case TrainMovements => "Train Movements"
      case Stations => "Stations"
    }
  }

  /**
   * `run_etl_based_on_schedule`: stations at 02:00, otherwise train
   * movements on the quarter hours, otherwise current trains every five
   * minutes, otherwise nothing. The clock is a parameter.
   */
  function ScheduledJobs(hour: nat, minute: nat): (r: seq<Job>)
    ensures |r| <= 1
    ensures Stations in r <==> hour == 2 && minute == 0
    ensures TrainMovements in r <==> minute % 15 == 0 && !(hour == 2 && minute == 0)
    ensures CurrentTrains in r <==> minute % 5 == 0 && minute % 15 != 0
    ensures r == [] <==> minute % 5 != 0
  {
    if hour == 2 && minute == 0 then [Stations]
    else if minute % 15 == 0 then [TrainMovements]
    else if minute % 5 == 0 then [CurrentTrains]
    else []
  }

  /** What one invocation decides to do. */
  datatype Plan = RunJobs(jobs: seq<Job>) | UnknownType(argument: string)

  /**
   * `run_specific_etl`: `args` is `sys.argv[1:]`. The first argument,
   * lower-cased, names one job or "all"; anything else is an error; with no
   * argument the time decides.
   */
  function Dispatch(args: seq<string>, hour: nat, minute: nat): (r: Plan)
    ensures args == [] ==> r == RunJobs(ScheduledJobs(hour, minute))
    ensures args != [] && Lower(args[0]) == "trains" ==> r == RunJobs([CurrentTrains])
    ensures args != [] && Lower(args[0]) == "movements" ==> r == RunJobs([TrainMovements])
    ensures args != [] && Lower(args[0]) == "stations" ==> r == RunJobs([Stations])
    ensures args != [] && Lower(args[0]) == "all" ==> r == RunJobs([CurrentTrains, TrainMovements, Stations])
    ensures args != [] && Lower(args[0]) !in {"trains", "movements", "stations", "all"} ==> r == UnknownType(Lower(args[0]))
  {
    if args == [] then RunJobs(ScheduledJobs(hour, minute))
    else
      var kind := Lower(args[0]);
      if kind == "trains" then RunJobs([CurrentTrains])
      else if kind == "movements" then RunJobs([TrainMovements])
      else if kind == "stations" then RunJobs([Stations])
      else if kind == "all" then RunJobs([CurrentTrains, TrainMovements, Stations])
      else UnknownType(kind)
  }

  /** The end of an invocation: the jobs started, in order, and the exit status. */
  datatype Run = Run(started: seq<Job>, exitCode: int)

  /**
   * `run_etl_with_logging` applied to each job in turn: a job that raises
   * logs the error and calls `sys.exit(1)`, so no later job starts. Whether
   * a job succeeds is a parameter.
   */
  function RunAll(jobs: seq<Job>, succeeds: Job -> bool): (r: Run)
    ensures r.exitCode == 0 || r.exitCode == 1
    decreases |jobs|
  {
    if jobs == [] then Run([], 0)
    else if !succeeds(jobs[0]) then Run([jobs[0]], 1)
    else
      var rest := RunAll(jobs[1..], succeeds);
      Run([jobs[0]] + rest.started, rest.exitCode)
  }

  /** The whole invocation: an unknown argument starts nothing and exits with 1. */
  function Invoke(args: seq<string>, hour: nat, minute: nat, succeeds: Job -> bool): (r: Run)
    ensures Dispatch(args, hour, minute).UnknownType? ==> r == Run([], 1)
    ensures Dispatch(args, hour, minute).RunJobs? ==> r == RunAll(Dispatch(args, hour, minute).jobs, succeeds)
  {
    match Dispatch(args, hour, minute)
    case UnknownType(_) => Run([], 1)
    case RunJobs(jobs) => RunAll(jobs, succeeds)
  }

  /**
   * Stop on the first failure: the jobs started are a prefix of the plan;
   * the run exits 0 exactly when every planned job succeeds; otherwise the
   * last job started is the first failing one and every earlier one
   * succeeded.
   */
  lemma {:induction false} RunAllStopsAtFirstFailure(jobs: seq<Job>, succeeds: Job -> bool)
    ensures var r := RunAll(jobs, succeeds);
      && |r.started| <= |jobs| && r.started == jobs[..|r.started|]
      && (r.exitCode == 0 <==> forall i :: 0 <= i < |jobs| ==> succeeds(jobs[i]))
      && (r.exitCode == 0 ==> r.started == jobs)
      && (r.exitCode == 1 ==> (|r.started| > 0 && !succeeds(r.started[|r.started| - 1]) &&
            forall i :: 0 <= i < |r.started| - 1 ==> succeeds(r.started[i])))
    decreases |jobs|
  {
    if jobs != [] && succeeds(jobs[0]) {
      RunAllStopsAtFirstFailure(jobs[1..], succeeds);
      var rest := RunAll(jobs[1..], succeeds);
      var r := RunAll(jobs, succeeds);
      assert r.started == [jobs[0]] + rest.started;
      assert jobs[..|r.started|] == [jobs[0]] + jobs[1..][..|rest.started|];
      assert forall i :: 1 <= i < |jobs| ==> jobs[i] == jobs[1..][i - 1];
      forall i | 0 <= i < |r.started| - 1 ensures succeeds(r.started[i]) {
        if i > 0 {
          assert r.started[i] == rest.started[i - 1];
        }
      }
      if rest.exitCode == 1 {
        assert r.started[|r.started| - 1] == rest.started[|rest.started| - 1];
      }
    }
  }

  /** A scheduled invocation starts at most one job. */
  lemma ScheduledRunStartsAtMostOne(hour: nat, minute: nat, succeeds: Job -> bool)
    ensures |Invoke([], hour, minute, succeeds).started| <= 1
  {
    RunAllStopsAtFirstFailure(ScheduledJobs(hour, minute), succeeds);
  }

  /** At 02:00 only the stations job runs, although 0 is a multiple of 15. */
  lemma StationsWinAtTwo()
    ensures ScheduledJobs(2, 0) == [Stations]
    ensures ScheduledJobs(3, 0) == [TrainMovements]
  {
  }

  /** "all" runs the three jobs in order, and when the first fails nothing else starts. */
  lemma AllStopsAfterFailure(arg: string, succeeds: Job -> bool)
    requires arg == "ALL"
    requires !succeeds(CurrentTrains)
    ensures Dispatch([arg], 0, 0) == RunJobs([CurrentTrains, TrainMovements, Stations])
    ensures Invoke([arg], 0, 0, succeeds) == Run([CurrentTrains], 1)
  {
    assert Lower(arg) == "all";
  }

  /** The argument is read case-insensitively: only its lower-cased form matters. */
  lemma DispatchIgnoresCase(a: string, b: string, hour: nat, minute: nat)
    requires Lower(a) == Lower(b)
    ensures Dispatch([a], hour, minute) == Dispatch([b], hour, minute)
  {
  }

  /** An unknown job name starts nothing and fails the invocation. */
  lemma UnknownArgumentFails(arg: string, succeeds: Job -> bool)
    requires arg == "weekly"
    ensures Invoke([arg], 0, 0, succeeds) == Run([], 1)
  {
    assert Lower(arg) == "weekly";
  }
}
