/**
 One install cycle and what it tells the core (deploy.go): jobs claimed, destinations forced, the
 state report, and exactly one result for each job.
 */
module Deploy {
  import opened Prelude
  import opened Text
  import opened InstallSpec
  import opened Apply
  import ApplyGuarantees

  /** What reading the spec file gives. */
  datatype SpecFile = Unreadable | Missing | Found(destinations: seq<Destination>)

  /** A job the core hands out: the destinations it knows for it, and the certificate's name. */
  datatype Assignment = Assignment(jobId: string, destinations: seq<string>, commonName: string)

  /** What is posted to the core. A state report carries each installation with the job it was done
      for, if any. */
  datatype Post =
    | Claim
    | ErrorReport
    | EmptyReport
    | StateReport(installations: seq<(Installation, Option<string>)>)
    | Result(jobId: string, success: bool)

  // ---------- Which destinations a job covers ----------

  predicate Declared(spec: seq<Destination>, name: string) {
    exists i :: 0 <= i < |spec| && spec[i].name == name
  }

  /** The named destinations this host declares, in the job's order. */
  function NamedOnes(spec: seq<Destination>, names: seq<string>): seq<string> {
    if names == [] then []
    else
      var before, n := NamedOnes(spec, names[..|names| - 1]), names[|names| - 1];
      if Declared(spec, n) then before + [n] else before
  }

  /** The destinations declared for a certificate. */
  function ForCertificate(spec: seq<Destination>, certificate: string): seq<string> {
    if spec == [] then []
    else
      var before, d := ForCertificate(spec[..|spec| - 1], certificate), spec[|spec| - 1];
      if d.certificate == certificate then before + [d.name] else before
  }

  /** The destinations a job covers: the ones it names or, if this host declares none of those, the
      ones for its certificate. */
  function Covered(spec: seq<Destination>, a: Assignment): seq<string> {
    var named := NamedOnes(spec, a.destinations);
    if named != [] then named else ForCertificate(spec, CleanName(a.commonName))
  }

  lemma {:induction false} NamedOnesDeclared(spec: seq<Destination>, names: seq<string>)
    ensures forall n | n in NamedOnes(spec, names) :: n in names && Declared(spec, n)
    ensures forall n | n in names && Declared(spec, n) :: n in NamedOnes(spec, names)
  {
    if names != [] {
      NamedOnesDeclared(spec, names[..|names| - 1]);
      assert names == names[..|names| - 1] + [names[|names| - 1]];
    }
  }

  lemma {:induction false} ForCertificateDeclared(spec: seq<Destination>, certificate: string)
    ensures forall n | n in ForCertificate(spec, certificate) ::
              exists i :: 0 <= i < |spec| && spec[i].name == n && spec[i].certificate == certificate
  {
    if spec != [] {
      var most := spec[..|spec| - 1];
      ForCertificateDeclared(most, certificate);
      forall n | n in ForCertificate(spec, certificate)
        ensures exists i :: 0 <= i < |spec| && spec[i].name == n && spec[i].certificate == certificate
      {
        if n in ForCertificate(most, certificate) {
          var i :| 0 <= i < |most| && most[i].name == n && most[i].certificate == certificate;
          assert spec[i] == most[i];
        }
      }
    }
  }

  /** Only declared destinations are covered. */
  lemma CoveredIsDeclared(spec: seq<Destination>, a: Assignment)
    ensures forall n | n in Covered(spec, a) :: Declared(spec, n)
  {
    NamedOnesDeclared(spec, a.destinations);
    ForCertificateDeclared(spec, CleanName(a.commonName));
  }

  // ---------- The cycle ----------

  function AsSet(names: seq<string>): set<string> { set n | n in names }

  /** Every destination some job covers. */
  function Forced(spec: seq<Destination>, jobs: seq<Assignment>): set<string> {
    if jobs == [] then {}
    else Forced(spec, jobs[..|jobs| - 1]) + AsSet(Covered(spec, jobs[|jobs| - 1]))
  }

  /** The reports by name, a later one hiding an earlier one. */
  function ByName(report: seq<Installation>): map<string, Report> {
    if report == [] then map[]
    else ByName(report[..|report| - 1])[report[|report| - 1].name := report[|report| - 1].report]
  }

  /** A job succeeds when it covers something and nothing it covers is reported as not installed. */
  predicate Succeeds(names: seq<string>, byName: map<string, Report>) {
    names != [] && forall i | 0 <= i < |names| :: names[i] in byName ==> byName[names[i]].status == Installed
  }

  /** The job each installation is credited to: the last one that covers it. */
  function JobFor(spec: seq<Destination>, jobs: seq<Assignment>, name: string): Option<string> {
    if jobs == [] then None
    else if name in Covered(spec, jobs[|jobs| - 1]) then Some(jobs[|jobs| - 1].jobId)
    else JobFor(spec, jobs[..|jobs| - 1], name)
  }

  function Credited(spec: seq<Destination>, jobs: seq<Assignment>, report: seq<Installation>): (r: seq<(Installation, Option<string>)>)
    ensures |r| == |report| && forall i | 0 <= i < |report| :: r[i] == (report[i], JobFor(spec, jobs, report[i].name))
  {
    seq(|report|, i requires 0 <= i < |report| => (report[i], JobFor(spec, jobs, report[i].name)))
  }

  function Results(spec: seq<Destination>, jobs: seq<Assignment>, byName: map<string, Report>): (posts: seq<Post>)
    ensures |posts| == |jobs|
    ensures forall i | 0 <= i < |jobs| :: posts[i] == Result(jobs[i].jobId, Succeeds(Covered(spec, jobs[i]), byName))
  {
    seq(|jobs|, i requires 0 <= i < |jobs| => Result(jobs[i].jobId, Succeeds(Covered(spec, jobs[i]), byName)))
  }

  /** The jobs a cycle gets: those the core hands out when it is asked and answers. */
  function Claimed(spec: seq<Destination>, reachable: bool, handed: Option<seq<Assignment>>): seq<Assignment> {
    if reachable && spec != [] then handed.GetOr([]) else []
  }

  /** What a cycle over a declared spec posts. */
  function CyclePosts(spec: seq<Destination>, reachable: bool, jobs: seq<Assignment>, report: seq<Installation>): seq<Post> {
    if !reachable then []
    else (if spec != [] then [Claim] else []) + [StateReport(Credited(spec, jobs, report))]
         + Results(spec, jobs, ByName(report))
  }

  /** One cycle: what reading the spec gives, whether the core is reached, and, for a spec that is
      found, the jobs it claims and the report it makes. */
  datatype Cycle = Cycle(read: SpecFile, reachable: bool, jobs: seq<Assignment>, report: seq<Installation>)
  {
    /** The spec is found missing and the core can be told. */
    predicate Clears() { read.Missing? && reachable }
  }

  /** Whether a spec is remembered after a cycle. */
  function Remembers(had: bool, c: Cycle): bool {
    match c.read
    case Unreadable => had
    case Missing => had && !c.reachable
    case Found(_) => true
  }

  function PostsOf(had: bool, c: Cycle): seq<Post> {
    match c.read
    case Unreadable => if c.reachable then [ErrorReport] else []
    case Missing => if had && c.reachable then [EmptyReport] else []
    case Found(spec) => CyclePosts(spec, c.reachable, c.jobs, c.report)
  }

  /** The cycle that comes of what the world answers, and the world after it. */
  function CycleOf(w: World, read: SpecFile, reachable: bool, handed: Option<seq<Assignment>>, env: Env,
                   answers: string -> Answers): (Cycle, World) {
    match read
    case Found(spec) =>
      var jobs := Claimed(spec, reachable, handed);
      var s := DoAll(w, JobsOf(spec, Forced(spec, jobs), env, answers));
      (Cycle(read, reachable, jobs, SortByName(s.installations)), s.world)
    case _ => (Cycle(read, reachable, [], []), w)
  }

  class Runner {
    var hadSpec: bool
    /** Everything posted to the core, in order. */
    ghost var posts: seq<Post>

    constructor ()
      ensures !hadSpec && posts == []
    {
      hadSpec, posts := false, [];
    }

    method DestinationsFor(spec: seq<Destination>, a: Assignment) returns (names: seq<string>)
      ensures names == Covered(spec, a)
    {
      var declared: set<string> := {};
      var i := 0;
      while i < |spec|
        invariant 0 <= i <= |spec|
        invariant forall n :: n in declared <==> exists k :: 0 <= k < i && spec[k].name == n
      {
        declared := declared + {spec[i].name};
        i := i + 1;
      }
      names := [];
      i := 0;
      while i < |a.destinations|
        invariant 0 <= i <= |a.destinations| && names == NamedOnes(spec, a.destinations[..i])
      {
        assert a.destinations[..i + 1][..i] == a.destinations[..i];
        if a.destinations[i] in declared {
          names := names + [a.destinations[i]];
        }
        i := i + 1;
      }
      assert a.destinations[..i] == a.destinations;
      if |names| > 0 {
        return;
      }
      var want := CleanName(a.commonName);
      i := 0;
      while i < |spec|
        invariant 0 <= i <= |spec| && names == ForCertificate(spec[..i], want)
      {
        assert spec[..i + 1][..i] == spec[..i];
        if spec[i].certificate == want {
          names := names + [spec[i].name];
        }
        i := i + 1;
      }
      assert spec[..i] == spec;
    }

    /** Collect every covered destination, to be reinstalled whether or not it matches. */
    method ForcedBy(spec: seq<Destination>, jobs: seq<Assignment>) returns (force: set<string>)
      ensures force == Forced(spec, jobs)
    {
      force := {};
      var k := 0;
      while k < |jobs|
        invariant 0 <= k <= |jobs| && force == Forced(spec, jobs[..k])
      {
        assert jobs[..k + 1][..k] == jobs[..k];
        var names := DestinationsFor(spec, jobs[k]);
        force := force + AsSet(names);
        k := k + 1;
      }
      assert jobs[..k] == jobs;
    }

    method IndexByName(report: seq<Installation>) returns (byName: map<string, Report>)
      ensures byName == ByName(report)
    {
      byName := map[];
      var k := 0;
      while k < |report|
        invariant 0 <= k <= |report| && byName == ByName(report[..k])
      {
        assert report[..k + 1][..k] == report[..k];
        byName := byName[report[k].name := report[k].report];
        k := k + 1;
      }
      assert report[..k] == report;
    }

    /** Credit each installation to the last job that covers it. */
    method CreditJobs(spec: seq<Destination>, jobs: seq<Assignment>, report: seq<Installation>)
      returns (credited: seq<(Installation, Option<string>)>)
      ensures credited == Credited(spec, jobs, report)
    {
      credited := seq(|report|, i requires 0 <= i < |report| => (report[i], None));
      var k := 0;
      while k < |jobs|
        invariant 0 <= k <= |jobs| && credited == Credited(spec, jobs[..k], report)
      {
        assert jobs[..k + 1][..k] == jobs[..k];
        var names := DestinationsFor(spec, jobs[k]);
        credited := seq(|report|, i requires 0 <= i < |report| =>
                      if report[i].name in names then (report[i], Some(jobs[k].jobId)) else credited[i]);
        k := k + 1;
      }
      assert jobs[..k] == jobs;
    }

    /** Tell the core how one job went. */
    method ReportResult(a: Assignment, names: seq<string>, byName: map<string, Report>)
      modifies this`posts
      ensures posts == old(posts) + [Result(a.jobId, Succeeds(names, byName))]
    {
      var failed := false;
      var k := 0;
      while k < |names|
        invariant 0 <= k <= |names|
        invariant failed <==> exists i :: 0 <= i < k && names[i] in byName && byName[names[i]].status != Installed
      {
        if names[k] in byName && byName[names[k]].status != Installed {
          failed := true;
        }
        k := k + 1;
      }
      posts := posts + [Result(a.jobId, |names| > 0 && !failed)];
    }

    /** Apply what is declared, forcing what the core asked for, and report. */
    method InstallCycle(reachable: bool, read: SpecFile, handed: Option<seq<Assignment>>,
                        installer: Installer, env: Env, answers: string -> Answers)
      modifies this, installer
      ensures var (c, w) := CycleOf(old(installer.Now()), read, reachable, handed, env, answers);
              && hadSpec == Remembers(old(hadSpec), c) && installer.Now() == w
              && posts == old(posts) + PostsOf(old(hadSpec), c)
    {
      hide DoAll, JobsOf, CyclePosts, SortByName, Claimed, Forced;
      match read
      case Unreadable =>
        if reachable { posts := posts + [ErrorReport]; }
      case Missing =>
        if hadSpec && reachable {
          posts := posts + [EmptyReport];
          hadSpec := false;
        }
      case Found(spec) =>
        hadSpec := true;
        InstallDeclared(spec, reachable, handed, installer, env, answers);
    }

    /** Tell the core how each job went, one after another. */
    method ReportResults(spec: seq<Destination>, jobs: seq<Assignment>, byName: map<string, Report>)
      modifies this`posts
      ensures posts == old(posts) + Results(spec, jobs, byName)
    {
      hide Covered;
      var k := 0;
      while k < |jobs|
        invariant 0 <= k <= |jobs| && posts == old(posts) + Results(spec, jobs, byName)[..k]
      {
        var names := DestinationsFor(spec, jobs[k]);
        ReportResult(jobs[k], names, byName);
        k := k + 1;
      }
      assert Results(spec, jobs, byName)[..k] == Results(spec, jobs, byName);
    }

    /** Report the state, then each job. */
    method ReportCycle(reachable: bool, spec: seq<Destination>, jobs: seq<Assignment>,
                       credited: seq<(Installation, Option<string>)>, byName: map<string, Report>)
      modifies this`posts
      ensures posts == old(posts) + (if reachable then [StateReport(credited)] + Results(spec, jobs, byName) else [])
    {
      if reachable {
        posts := posts + [StateReport(credited)];
        ReportResults(spec, jobs, byName);
      }
    }

    /** A cycle over a declared spec. */
    method InstallDeclared(spec: seq<Destination>, reachable: bool, handed: Option<seq<Assignment>>,
                           installer: Installer, env: Env, answers: string -> Answers)
      modifies this`posts, installer
      ensures var jobs := Claimed(spec, reachable, handed);
              var s := DoAll(old(installer.Now()), JobsOf(spec, Forced(spec, jobs), env, answers));
              && installer.Now() == s.world
              && posts == old(posts) + CyclePosts(spec, reachable, jobs, SortByName(s.installations))
    {
      hide DoAll, JobsOf, JobOf, Forced, ByName, Credited, Results, SortByName, TaskOf, DoTask, DoJob, Covered, JobFor, Succeeds;
      var jobs: seq<Assignment> := [];
      if reachable && |spec| > 0 {
        posts := posts + [Claim];
        jobs := handed.GetOr([]);
      }
      var force := ForcedBy(spec, jobs);
      var report := installer.ApplyAll(spec, force, env, answers);
      var byName := IndexByName(report);
      var credited := CreditJobs(spec, jobs, report);
      ReportCycle(reachable, spec, jobs, credited, byName);
    }
  }

  // ---------- Guarantees ----------

  /** The forced destinations are exactly those some job covers, and all of them are declared. */
  lemma {:induction false} ForcedIsTheUnion(spec: seq<Destination>, jobs: seq<Assignment>)
    ensures forall n :: n in Forced(spec, jobs) <==> exists k :: 0 <= k < |jobs| && n in Covered(spec, jobs[k])
    ensures forall n | n in Forced(spec, jobs) :: Declared(spec, n)
  {
    if jobs != [] {
      var most, last := jobs[..|jobs| - 1], |jobs| - 1;
      ForcedIsTheUnion(spec, most);
      CoveredIsDeclared(spec, jobs[last]);
      forall n ensures n in Forced(spec, jobs) <==> exists k :: 0 <= k < |jobs| && n in Covered(spec, jobs[k]) {
        if n in Forced(spec, most) {
          var k :| 0 <= k < |most| && n in Covered(spec, most[k]);
          assert jobs[k] == most[k];
        }
        if k :| 0 <= k < last && n in Covered(spec, jobs[k]) {
          assert most[k] == jobs[k];
        }
      }
    }
  }

  /** With one entry for each name, looking a name up finds its entry. */
  lemma {:induction false} LooksUp(report: seq<Installation>, i: nat)
    requires i < |report| && forall j | i < j < |report| :: report[j].name != report[i].name
    ensures report[i].name in ByName(report) && ByName(report)[report[i].name] == report[i].report
  {
    if i < |report| - 1 {
      LooksUp(report[..|report| - 1], i);
    }
  }

  predicate HasName(report: seq<Installation>, n: string) {
    exists i :: 0 <= i < |report| && report[i].name == n
  }

  /** The report has exactly one entry for each declared destination. */
  ghost predicate Complete(spec: seq<Destination>, report: seq<Installation>) {
    && (forall i, j | 0 <= i < j < |report| :: report[i].name != report[j].name)
    && (forall n | Declared(spec, n) :: HasName(report, n))
  }

  /** The report has an entry of this name that says installed. */
  predicate ReportedInstalled(report: seq<Installation>, n: string) {
    exists i :: 0 <= i < |report| && report[i].name == n && report[i].report.status == Installed
  }

  lemma EntryDecides(spec: seq<Destination>, report: seq<Installation>, n: string)
    requires Complete(spec, report) && Declared(spec, n)
    ensures n in ByName(report) && (ByName(report)[n].status == Installed <==> ReportedInstalled(report, n))
  {
    var i :| 0 <= i < |report| && report[i].name == n;
    LooksUp(report, i);
  }

  lemma SucceedsExactly(spec: seq<Destination>, a: Assignment, report: seq<Installation>)
    requires Complete(spec, report)
    ensures Succeeds(Covered(spec, a), ByName(report)) <==>
              Covered(spec, a) != [] && forall n | n in Covered(spec, a) :: ReportedInstalled(report, n)
  {
    hide Covered, Complete, ByName, Declared, ReportedInstalled;
    var names := Covered(spec, a);
    CoveredIsDeclared(spec, a);
    forall n | n in names
      ensures n in ByName(report) && (ByName(report)[n].status == Installed <==> ReportedInstalled(report, n))
    {
      EntryDecides(spec, report, n);
    }
    var byName := ByName(report);
    if Succeeds(names, byName) {
      forall n | n in names ensures ReportedInstalled(report, n) {
        var i :| 0 <= i < |names| && names[i] == n;
        assert names[i] in byName;
      }
    } else if names != [] {
      var i :| 0 <= i < |names| && names[i] in byName && byName[names[i]].status != Installed;
      assert names[i] in names;
    }
  }

  /**
   Every claimed job is settled. In a reachable cycle the posts are a claim, if anything is
   declared, one state report, and then one result for each job in turn; and a job is reported as
   a success if and only if it covers at least one destination and every destination it covers is
   reported as installed.
   */
  lemma EveryJobIsSettled(spec: seq<Destination>, jobs: seq<Assignment>, report: seq<Installation>, k: nat)
    requires Complete(spec, report) && k < |jobs|
    ensures var posts := CyclePosts(spec, true, jobs, report);
            var first := if spec != [] then 1 else 0;
            && |posts| == first + 1 + |jobs|
            && posts[first].StateReport?
            && (forall i | first < i < |posts| :: posts[i].Result?)
            && posts[first + 1 + k].jobId == jobs[k].jobId
            && (posts[first + 1 + k].success <==>
                  Covered(spec, jobs[k]) != [] && forall n | n in Covered(spec, jobs[k]) :: ReportedInstalled(report, n))
  {
    hide Covered, Complete, ByName, Succeeds, ReportedInstalled;
    SucceedsExactly(spec, jobs[k], report);
  }

  lemma SortedHas(xs: seq<Installation>, i: nat)
    requires i < |xs|
    ensures HasName(SortByName(xs), xs[i].name)
  {
    hide SortByName;
    var ys := SortByName(xs);
    assert xs[i] in multiset(ys);
    assert xs[i] in ys;
  }

  lemma SortedHasEvery(spec: seq<Destination>, xs: seq<Installation>)
    requires |xs| == |spec| && forall i | 0 <= i < |spec| :: xs[i].name == spec[i].name
    ensures forall n | Declared(spec, n) :: HasName(SortByName(xs), n)
  {
    hide SortByName, HasName;
    forall i | 0 <= i < |xs| ensures HasName(SortByName(xs), spec[i].name) {
      SortedHas(xs, i);
    }
  }

  lemma SortedIsDistinct(xs: seq<Installation>)
    requires DistinctNames(xs)
    ensures DistinctNames(SortByName(xs))
  {
    var ys := SortByName(xs);
    ApplyGuarantees.ReportIsSorted(xs);
    forall i, j | 0 <= i < j < |ys| ensures ys[i].name != ys[j].name {
      ApplyGuarantees.NameOrder(ys[i].name, ys[j].name, "");
    }
  }

  /** A sorted report over a spec without repeated names is complete. */
  lemma SortedReportIsComplete(spec: seq<Destination>, xs: seq<Installation>)
    requires |xs| == |spec| && forall i | 0 <= i < |spec| :: xs[i].name == spec[i].name
    requires forall i, j | 0 <= i < j < |spec| :: spec[i].name != spec[j].name
    ensures Complete(spec, SortByName(xs))
  {
    hide SortByName;
    SortedIsDistinct(xs);
    SortedHasEvery(spec, xs);
  }

  /** The report of a cycle over a spec without repeated names is complete. */
  lemma CycleReportIsComplete(w: World, spec: seq<Destination>, force: set<string>, env: Env, answers: string -> Answers)
    requires forall i, j | 0 <= i < j < |spec| :: spec[i].name != spec[j].name
    ensures Complete(spec, SortByName(DoAll(w, JobsOf(spec, force, env, answers)).installations))
  {
    var jobs := JobsOf(spec, force, env, answers);
    EntriesAreNamed(w, jobs);
    SortedReportIsComplete(spec, DoAll(w, jobs).installations);
  }

  lemma {:induction false} EntriesAreNamed(w: World, jobs: seq<Job>)
    ensures var xs := DoAll(w, jobs).installations;
            |xs| == |jobs| && forall i | 0 <= i < |jobs| :: xs[i].name == jobs[i].name
  {
    if jobs != [] {
      EntriesAreNamed(w, jobs[..|jobs| - 1]);
    }
  }

  // ---------- A spec that goes away ----------

  /** Whether a spec is remembered after a run of cycles. */
  function HadAfter(had: bool, cycles: seq<Cycle>): bool {
    if cycles == [] then had else Remembers(HadAfter(had, cycles[..|cycles| - 1]), cycles[|cycles| - 1])
  }

  /** Before cycle k, a spec has been declared, and no cycle since could tell the core it was gone. */
  predicate Owed(had: bool, cycles: seq<Cycle>, k: nat)
    requires k <= |cycles|
  {
    || (had && forall i | 0 <= i < k :: !cycles[i].Clears())
    || DeclaredBefore(cycles, k)
  }

  predicate DeclaredBefore(cycles: seq<Cycle>, k: nat)
    requires k <= |cycles|
  {
    exists j :: 0 <= j < k && cycles[j].read.Found? && forall i | j < i < k :: !cycles[i].Clears()
  }

  lemma OwedStep(had: bool, cycles: seq<Cycle>, k: nat)
    requires k < |cycles|
    ensures Owed(had, cycles, k + 1) <==> cycles[k].read.Found? || (Owed(had, cycles, k) && !cycles[k].Clears())
  {
    if cycles[k].read.Found? {
      assert DeclaredBefore(cycles, k + 1);
    }
    if DeclaredBefore(cycles, k) && !cycles[k].Clears() {
      var j :| 0 <= j < k && cycles[j].read.Found? && forall i | j < i < k :: !cycles[i].Clears();
      assert DeclaredBefore(cycles, k + 1);
    }
    if DeclaredBefore(cycles, k + 1) && !cycles[k].read.Found? {
      var j :| 0 <= j < k + 1 && cycles[j].read.Found? && forall i | j < i < k + 1 :: !cycles[i].Clears();
      assert j < k;
    }
  }

  /** The one remembered bit is exactly whether the core is owed word that the spec has gone. */
  lemma {:induction false} RememberedExactly(had: bool, cycles: seq<Cycle>, k: nat)
    requires k <= |cycles|
    ensures HadAfter(had, cycles[..k]) <==> Owed(had, cycles, k)
  {
    if k > 0 {
      RememberedExactly(had, cycles, k - 1);
      OwedStep(had, cycles, k - 1);
      assert cycles[..k][..k - 1] == cycles[..k - 1] && cycles[..k][k - 1] == cycles[k - 1];
    } else {
      assert cycles[..0] == [];
    }
  }

  /** What the k-th cycle of a run posts. */
  function PostsAt(had: bool, cycles: seq<Cycle>, k: nat): seq<Post>
    requires k < |cycles|
  {
    PostsOf(HadAfter(had, cycles[..k]), cycles[k])
  }

  /**
   Exactly which cycles report that the spec has gone, over any run, with specs found in between or
   not: those that find it missing and reach the core while the core is owed that word. Such a cycle
   posts nothing else.
   */
  lemma VanishedSpecIsReportedExactly(had: bool, cycles: seq<Cycle>, k: nat)
    requires k < |cycles|
    ensures EmptyReport in PostsAt(had, cycles, k) <==> cycles[k].Clears() && Owed(had, cycles, k)
    ensures EmptyReport in PostsAt(had, cycles, k) ==> PostsAt(had, cycles, k) == [EmptyReport]
  {
    hide Owed, HadAfter, Credited, ByName;
    RememberedExactly(had, cycles, k);
  }

  /** It is reported once: between two cycles that report it there is one that found a spec. */
  lemma VanishedSpecIsReportedOnce(had: bool, cycles: seq<Cycle>, j: nat, k: nat)
    requires j < k < |cycles| && EmptyReport in PostsAt(had, cycles, j) && EmptyReport in PostsAt(had, cycles, k)
    ensures exists m :: j < m < k && cycles[m].read.Found?
  {
    hide PostsAt;
    VanishedSpecIsReportedExactly(had, cycles, j);
    VanishedSpecIsReportedExactly(had, cycles, k);
    var m :| 0 <= m < k && cycles[m].read.Found? && forall i | m < i < k :: !cycles[i].Clears();
    assert m != j;
  }

  /** And by the first cycle that can: the first after a found spec that finds it missing and reaches
      the core. */
  lemma VanishedSpecIsReportedFirst(had: bool, cycles: seq<Cycle>, j: nat, k: nat)
    requires j < k < |cycles| && cycles[j].read.Found? && cycles[k].Clears()
    requires forall i | j < i < k :: !cycles[i].Clears()
    ensures EmptyReport in PostsAt(had, cycles, k)
  {
    hide PostsAt;
    VanishedSpecIsReportedExactly(had, cycles, k);
  }
}
