/**
 * The project registry (class Project, xpoint.rb:40-63): projects are rows
 * appended to the `projects` table, found by id, and each has an expected
 * number of hours per work day derived from its weekly target.
 */
module Projects {
  import opened Wrappers
  import opened Text

  /** A row of the `projects` table; `workDays` is the comma-joined text that is stored. */
  datatype Project = Project(id: int, name: string, weeklyHours: int, workDays: string, tags: Option<string>)

  /** Ruby raises FloatDomainError when the day count is zero (`.ceil` of an infinite or NaN quotient). */
  datatype ProjectError = NoWorkDays

  /** `q` is the ceiling of `a / n`. */
  ghost predicate IsCeiling(q: int, a: int, n: int)
  {
    n > 0 && q * n >= a && (q - 1) * n < a
  }

  /** `(a.to_f / n).ceil` for a positive day count `n`, in exact integer arithmetic. */
  function CeilDiv(a: int, n: int): (q: int)
    requires n > 0
    ensures IsCeiling(q, a, n)
  {
    var q := (a + n - 1) / n;
    assert q * n <= a + n - 1 < q * n + n;
    q
  }

  /** There is only one ceiling. */
  lemma CeilingUnique(q: int, q': int, a: int, n: int)
    requires IsCeiling(q, a, n) && IsCeiling(q', a, n)
    ensures q == q'
  {
  }

  /**
   * The number of work days of a project: the fields of its work-day text,
   * duplicates counted. It is zero exactly when the text is made of commas
   * only (the empty text included).
   */
  function DayCount(p: Project): (n: nat)
    ensures n == 0 <==> forall i :: 0 <= i < |p.workDays| ==> p.workDays[i] == ','
  {
    |Split(p.workDays, ',')|
  }

  /**
   * Expected hours per work day of a found project: the weekly hours divided
   * by the day count, rounded up; undefined (Ruby raises) when there are no
   * days.
   */
  function ExpectedHours(p: Project): (r: Result<int, ProjectError>)
    ensures DayCount(p) == 0 <==> r == Failure(NoWorkDays)
    ensures r.Success? ==> IsCeiling(r.value, p.weeklyHours, DayCount(p))
  {
    var n := DayCount(p);
    if n == 0 then Failure(NoWorkDays) else Success(CeilDiv(p.weeklyHours, n))
  }

  /**
   * A project stored from a list of non-empty, comma-free day names expects
   * the weekly hours divided by the LENGTH of that list, rounded up: repeated
   * names are counted each time.
   */
  lemma ExpectedHoursOfDayList(p: Project, days: seq<string>)
    requires p.workDays == Join(days, ',')
    requires forall d :: d in days ==> d != [] && ',' !in d
    ensures days == [] ==> ExpectedHours(p) == Failure(NoWorkDays)
    ensures days != [] ==> ExpectedHours(p).Success? && IsCeiling(ExpectedHours(p).value, p.weeklyHours, |days|)
  {
    if days != [] {
      assert days[|days| - 1] in days;
    }
    SplitJoin(days, ',');
  }

  /** The first project with the given id, as `DB.execute(...).first` returns it. */
  function FindById(ps: seq<Project>, id: int): (r: Option<Project>)
    ensures r.None? <==> forall p :: p in ps ==> p.id != id
    ensures r.Some? ==> exists k :: 0 <= k < |ps| && ps[k] == r.value && r.value.id == id
                                    && forall j :: 0 <= j < k ==> ps[j].id != id
  {
    if ps == [] then None
    else if ps[0].id == id then Some(ps[0])
    else
      var r := FindById(ps[1..], id);
      if r.Some? then
        var k :| 0 <= k < |ps[1..]| && ps[1..][k] == r.value && r.value.id == id
                 && forall j :: 0 <= j < k ==> ps[1..][j].id != id;
        assert ps[k + 1] == r.value;
        r
      else r
  }

  /** The in-memory `projects` table; the row appended n-th gets id n, as SQLite assigns row ids. */
  class Registry {
    var projects: seq<Project>

    ghost predicate Valid()
      reads this
    {
      forall k :: 0 <= k < |projects| ==> projects[k].id == k + 1
    }

    constructor ()
      ensures Valid() && projects == []
    {
      projects := [];
    }

    /**
     * `Project.create`: appends a row whose work days are the comma-joined
     * list. Nothing is validated, as in the Ruby code.
     */
    method Create(name: string, weeklyHours: int, workDays: seq<string>, tags: Option<string>)
      requires Valid()
      modifies this
      ensures Valid()
      ensures projects == old(projects) + [Project(|old(projects)| + 1, name, weeklyHours, Join(workDays, ','), tags)]
    {
      projects := projects + [Project(|projects| + 1, name, weeklyHours, Join(workDays, ','), tags)];
    }

    /** `Project.find`: the project with that id, or None. */
    function Find(id: int): (r: Option<Project>)
      reads this
      ensures r.None? <==> forall p :: p in projects ==> p.id != id
      ensures r.Some? ==> r.value in projects && r.value.id == id
    {
      FindById(projects, id)
    }

    /** In a valid registry the project with id k + 1 is the k-th one appended. */
    lemma FindRegistered(k: int)
      requires Valid() && 0 <= k < |projects|
      ensures Find(k + 1) == Some(projects[k])
    {
    }

    /**
     * `Project.daily_hours`: 0 for an unknown id; otherwise the ceiling of
     * weekly hours over the day count, which fails when there are no days.
     */
    function DailyHours(id: int): (r: Result<int, ProjectError>)
      reads this
      ensures (forall p :: p in projects ==> p.id != id) ==> r == Success(0)
      ensures Find(id).Some? ==>
                var p := Find(id).value;
                (r.Failure? <==> DayCount(p) == 0) &&
                (r.Success? ==> IsCeiling(r.value, p.weeklyHours, DayCount(p)))
    {
      match Find(id)
      case None => Success(0)
      case Some(p) => ExpectedHours(p)
    }
  }

  /** The two examples of daily hours: 40 h over five days is 8, 21 h is 5; a repeated day counts twice. */
  lemma DailyHoursExamples()
    ensures CeilDiv(40, 5) == 8 && CeilDiv(21, 5) == 5
    ensures ExpectedHours(Project(1, "A", 40, "Monday,Monday", None)) == Success(20)
  {
    var p := Project(1, "A", 40, "Monday,Monday", None);
    assert "Monday,Monday" == Join(["Monday", "Monday"], ',');
    ExpectedHoursOfDayList(p, ["Monday", "Monday"]);
    CeilingUnique(ExpectedHours(p).value, 20, 40, 2);
  }

  /** The project of the usage example, 40 hours over Monday to Friday, expects 8 hours a day. */
  lemma UsageExampleHours(p: Project)
    requires p.weeklyHours == 40
    requires p.workDays == Join(["Monday", "Tuesday", "Wednesday", "Thursday", "Friday"], ',')
    ensures ExpectedHours(p) == Success(8)
  {
    var days := ["Monday", "Tuesday", "Wednesday", "Thursday", "Friday"];
    assert forall d :: d in days ==> d != [] && ',' !in d;
    ExpectedHoursOfDayList(p, days);
    CeilingUnique(ExpectedHours(p).value, 8, 40, 5);
  }

  /** A registry holding just the usage example's project gives it 8 daily hours. */
  lemma UsageExampleRegistered(registry: Registry)
    requires |registry.projects| == 1 && registry.projects[0].id == 1
    requires registry.projects[0].weeklyHours == 40
    requires registry.projects[0].workDays == Join(["Monday", "Tuesday", "Wednesday", "Thursday", "Friday"], ',')
    ensures registry.DailyHours(1) == Success(8)
  {
    assert registry.projects[0] in registry.projects;
    UsageExampleHours(registry.projects[0]);
  }
}
