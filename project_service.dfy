/**
 * `ProjectService`: the current project (environment variable over the
 * configured default), `switch_project`, the guards of the operations that
 * need a repository, the start of the six-month activity window and the merge
 * of the three monthly growth counts.
 *
 * The configuration (projects and default) and the clock are parameters; the
 * process environment is an object whose variables `switch_project` writes.
 */
module ProjectService {
  import opened Wrappers

  const ProjectEnv := "BASIC_MEMORY_PROJECT"

  /** The process environment (`os.environ`). */
  class Environment {
    var vars: map<string, string>

    constructor (vars0: map<string, string>)
      ensures vars == vars0
    {
      vars := vars0;
    }
  }

  /** `current_project`: the environment variable when it is set, else the configured default. */
  function CurrentProject(environ: map<string, string>, defaultProject: string): (current: string)
    ensures ProjectEnv in environ ==> current == environ[ProjectEnv]
    ensures ProjectEnv !in environ ==> current == defaultProject
  {
    if ProjectEnv in environ then environ[ProjectEnv] else defaultProject
  }

  /**
   * `switch_project`: an unknown name raises ValueError and the environment is
   * left as it was; a configured name is written to the environment variable.
   * The reloaded configuration it returns is not modelled.
   */
  method SwitchProject(env: Environment, projects: map<string, string>, name: string) returns (r: Result<(), string>)
    modifies env
    ensures name !in projects ==> r == Err("Project '" + name + "' not found") && env.vars == old(env.vars)
    ensures name in projects ==> r == Ok(()) && env.vars == old(env.vars)[ProjectEnv := name]
    ensures r.Ok? ==> forall d :: CurrentProject(env.vars, d) == name
    ensures r.Ok? ==> env.vars.Keys == old(env.vars).Keys + {ProjectEnv}
    ensures forall v :: v in old(env.vars) && v != ProjectEnv ==> env.vars[v] == old(env.vars)[v]
  {
    if name !in projects {
      return Err("Project '" + name + "' not found");
    }
    env.vars := env.vars[ProjectEnv := name];
    return Ok(());
  }

  /**
   * The environment variable overrides the configured default exactly when it
   * is set: then two different defaults give the same current project, and
   * otherwise they give different ones.
   */
  lemma EnvironmentOverridesDefault(environ: map<string, string>, default1: string, default2: string)
    requires default1 != default2
    ensures CurrentProject(environ, default1) == CurrentProject(environ, default2) <==> ProjectEnv in environ
  {
  }

  /** After a switch the current project is the new one, whatever the default. */
  lemma CurrentAfterSwitch(environ: map<string, string>, name: string, defaultProject: string)
    ensures CurrentProject(environ[ProjectEnv := name], defaultProject) == name
    ensures forall v :: v in environ[ProjectEnv := name].Keys - {ProjectEnv} ==> environ[ProjectEnv := name][v] == environ[v]
  {
  }

  /** The operations that need a repository. */
  datatype Operation = GetProjectInfo | GetStatistics | GetActivityMetrics

  function OperationName(op: Operation): string {
    match op
    case GetProjectInfo => "get_project_info"
    case GetStatistics => "get_statistics"
    case GetActivityMetrics => "get_activity_metrics"
  }

  /** The guard at the head of each of those operations: ValueError when the service has no repository. */
  function RequireRepository(hasRepository: bool, op: Operation): (r: Result<(), string>)
    ensures r.Ok? <==> hasRepository
    ensures r.Err? ==> r.error == "Repository is required for " + OperationName(op)
  {
    if !hasRepository then Err("Repository is required for " + OperationName(op)) else Ok(())
  }

  // ---- The six-month window ----

  datatype Date = Date(year: int, month: int, day: int)

  /** The months since year 0 of a year and month. */
  function MonthIndex(year: int, month: int): int {
    year * 12 + month
  }

  const MinYear := 1
  const MaxYear := 9999

  /**
   * `datetime(now.year - (1 if now.month <= 6 else 0), ((now.month - 6) % 12) or 12, 1)`.
   * Python's `%` with the positive divisor 12 is Dafny's; `or 12` turns a 0 into 12.
   * `datetime` rejects a year below 1, so January to June of year 1 raise ValueError.
   */
  function SixMonthsAgo(now: Date): (r: Result<Date, string>)
    requires 1 <= now.month <= 12 && MinYear <= now.year <= MaxYear
    ensures r.Err? <==> now.year == MinYear && now.month <= 6
    ensures r.Ok? ==> r.value.day == 1 && 1 <= r.value.month <= 12 && MinYear <= r.value.year <= MaxYear
    ensures r.Ok? ==> MonthIndex(now.year, now.month) - MonthIndex(r.value.year, r.value.month) == 6
  {
    var year := now.year - (if now.month <= 6 then 1 else 0);
    var m := (now.month - 6) % 12;
    var month := if m == 0 then 12 else m;
    if year < MinYear then Err("year 0 is out of range")
    else Ok(Date(year, month, 1))
  }

  /** The window starts on the first of the month six months back: the month is determined by the month index alone. */
  lemma SixMonthsAgoUnique(now: Date, d: Date)
    requires 1 <= now.month <= 12 && MinYear <= now.year <= MaxYear
    requires SixMonthsAgo(now).Ok?
    requires 1 <= d.month <= 12 && d.day == 1 && MonthIndex(now.year, now.month) - MonthIndex(d.year, d.month) == 6
    ensures SixMonthsAgo(now) == Ok(d)
  {
  }

  // ---- Monthly growth ----

  /** The counts of one month. */
  datatype Growth = Growth(entities: nat, observations: nat, relations: nat, total: nat)

  /** `counts.get(month, 0)`. */
  function Count(counts: map<string, nat>, month: string): nat {
    if month in counts then counts[month] else 0
  }

  /**
   * The merge loop of `get_activity_metrics`: one entry for every month of any
   * of the three maps, in the iteration order of the set of months.
   */
  method MergeMonthlyGrowth(entityGrowth: map<string, nat>, observationGrowth: map<string, nat>, relationGrowth: map<string, nat>)
    returns (monthlyGrowth: map<string, Growth>)
    ensures monthlyGrowth.Keys == entityGrowth.Keys + observationGrowth.Keys + relationGrowth.Keys
    ensures forall month :: month in monthlyGrowth ==>
              && monthlyGrowth[month].entities == Count(entityGrowth, month)
              && monthlyGrowth[month].observations == Count(observationGrowth, month)
              && monthlyGrowth[month].relations == Count(relationGrowth, month)
    ensures forall month :: month in monthlyGrowth ==>
              monthlyGrowth[month].total
              == monthlyGrowth[month].entities + monthlyGrowth[month].observations + monthlyGrowth[month].relations
  {
    monthlyGrowth := map[];
    var months := entityGrowth.Keys + observationGrowth.Keys + relationGrowth.Keys;
    var remaining := months;
    while remaining != {}
      invariant remaining <= months
      invariant monthlyGrowth.Keys == months - remaining
      invariant forall month :: month in monthlyGrowth ==>
                  monthlyGrowth[month] == Growth(Count(entityGrowth, month), Count(observationGrowth, month),
                                                 Count(relationGrowth, month),
                                                 Count(entityGrowth, month) + Count(observationGrowth, month)
                                                 + Count(relationGrowth, month))
      decreases remaining
    {
      var month :| month in remaining;
      monthlyGrowth := monthlyGrowth[month := Growth(
        Count(entityGrowth, month), Count(observationGrowth, month), Count(relationGrowth, month),
        Count(entityGrowth, month) + Count(observationGrowth, month) + Count(relationGrowth, month))];
      remaining := remaining - {month};
    }
  }
}
