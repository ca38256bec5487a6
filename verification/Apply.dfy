/**
 Bringing every declared destination into line (install.go): which certificate each one takes, how
 the two kinds of destination part, and the report sorted by name.
 */
module Apply {
  import opened Prelude
  import opened Text
  import opened InstallSpec
  import F = FileInstall
  import S = StoreInstall

  /** A certificate this host holds; its material is None when it cannot be read. */
  datatype HeldCert = HeldCert(names: seq<string>, material: Option<Material>)

  /** What is held, and how the host reads thumbprints, store names and bind commands. */
  datatype Env = Env(
    held: seq<HeldCert>, thumb: Bytes -> Option<string>, storeOf: string -> Option<string>,
    endpoint: seq<string> -> string)

  /** How the world answers one destination. */
  datatype Answers = Answers(keystore: Option<Bytes>, owned: bool, file: F.Answers, store: S.Answers)

  datatype World = World(files: F.Files, host: S.Host)

  /** What one destination comes to: the world after it, the report, the commands it ran with what
      they saw, and the store calls it made. */
  datatype Done = Done(world: World, report: Report, seen: seq<F.Seen>, calls: seq<S.Call>)

  const FAILED := Report(InstallFailed, false, false, false)
  const UNFULFILLED := Report(Unfulfilled, false, false, false)

  /** The first held certificate with this name among its names. */
  function FindHeld(held: seq<HeldCert>, name: string): Option<HeldCert> {
    if held == [] then None
    else if exists i :: 0 <= i < |held[0].names| && Lower(TrimSuffix(held[0].names[i], ".")) == CleanName(name)
    then Some(held[0])
    else FindHeld(held[1..], name)
  }

  /** The two kinds of work a destination can come to, or the report it ends with before any. */
  datatype Task =
    | Stop(report: Report)
    | Files(targets: seq<F.Target>, commands: F.Destination)
    | InStore(d: S.Destination, c: S.CertId)

  function TaskOf(d: Destination, env: Env, a: Answers): Task {
    match FindHeld(env.held, d.certificate)
    case None => Stop(UNFULFILLED)
    case Some(h) =>
      match h.material
      case None => Stop(FAILED)
      case Some(m) =>
        if d.ToStore() then
          match (env.storeOf(d.store), env.thumb(m.cert))
          case (Some(store), Some(t)) =>
            var bind := ListOf(d.bind);
            InStore(S.Destination(d.name, store, if bind == [] then None else Some(env.endpoint(bind)),
                                  ListOf(d.reload) != [], !Blank(d.verify)),
                    S.CertId(store, t))
          case _ => Stop(FAILED)
        else
          match Render(d, m, a.keystore)
          case None => Stop(FAILED)
          case Some(files) =>
            if !a.owned then Stop(FAILED)
            else Files(Targets(files, m, a.keystore.GetOr([])), F.Destination(ListOf(d.check) != [], ListOf(d.reload) != []))
  }

  function DoTask(w: World, t: Task, force: bool, a: Answers): Done {
    match t
    case Stop(report) => Done(w, report, [], [])
    case Files(ts, commands) =>
      var o := F.Install(w.files, ts, commands, force, a.file);
      Done(w.(files := o.disk), o.report, o.seen, [])
    case InStore(d, c) =>
      var plan := S.InstallPlan(w.host, d, c, force, a.store);
      Done(w.(host := S.Replay(w.host, plan.calls)), plan.report, [], plan.calls)
  }

  // ---------- All destinations ----------

  /** A destination's entry in the report. */
  datatype Installation = Installation(name: string, report: Report)

  function CodesOf(s: string): (codes: seq<int>)
    ensures |codes| == |s| && forall i | 0 <= i < |s| :: codes[i] == s[i] as int
  {
    seq(|s|, i requires 0 <= i < |s| => s[i] as int)
  }

  predicate NameBefore(a: string, b: string) { Before(CodesOf(a), CodesOf(b)) }

  function InsertByName(x: Installation, xs: seq<Installation>): (ys: seq<Installation>)
    ensures multiset(ys) == multiset{x} + multiset(xs)
  {
    if xs == [] then [x]
    else if NameBefore(xs[0].name, x.name) then
      assert xs == [xs[0]] + xs[1..];
      [xs[0]] + InsertByName(x, xs[1..])
    else [x] + xs
  }

  function SortByName(xs: seq<Installation>): (ys: seq<Installation>)
    ensures multiset(ys) == multiset(xs)
  {
    if xs == [] then []
    else
      assert xs == [xs[0]] + xs[1..];
      InsertByName(xs[0], SortByName(xs[1..]))
  }

  /** A destination to apply: its name, its task, whether it is forced, and its answers. */
  datatype Job = Job(name: string, task: Task, force: bool, answers: Answers)

  function JobOf(d: Destination, force: set<string>, env: Env, answers: string -> Answers): Job {
    Job(d.name, TaskOf(d, env, answers(d.name)), d.name in force, answers(d.name))
  }

  function DoJob(w: World, j: Job): Done { DoTask(w, j.task, j.force, j.answers) }

  datatype Summary = Summary(world: World, installations: seq<Installation>, seen: seq<F.Seen>, calls: seq<S.Call>)

  /** The jobs one after another, in the order they are declared. */
  function DoAll(w: World, jobs: seq<Job>): Summary {
    if jobs == [] then Summary(w, [], [], [])
    else
      var s := DoAll(w, jobs[..|jobs| - 1]);
      var j := jobs[|jobs| - 1];
      var done := DoJob(s.world, j);
      Summary(done.world, s.installations + [Installation(j.name, done.report)], s.seen + done.seen, s.calls + done.calls)
  }

  function JobsOf(spec: seq<Destination>, force: set<string>, env: Env, answers: string -> Answers): (jobs: seq<Job>)
    ensures |jobs| == |spec| && forall i | 0 <= i < |spec| :: jobs[i] == JobOf(spec[i], force, env, answers)
  {
    seq(|spec|, i requires 0 <= i < |spec| => JobOf(spec[i], force, env, answers))
  }

  lemma DoNone(w: World, jobs: seq<Job>)
    ensures DoAll(w, jobs[..0]) == Summary(w, [], [], [])
  {
  }

  /** One job more. */
  lemma DoNext(w: World, jobs: seq<Job>, k: nat)
    requires k < |jobs|
    ensures var s, s' := DoAll(w, jobs[..k]), DoAll(w, jobs[..k + 1]);
            var done := DoJob(s.world, jobs[k]);
            && s'.world == done.world && s'.installations == s.installations + [Installation(jobs[k].name, done.report)]
            && s'.seen == s.seen + done.seen && s'.calls == s.calls + done.calls
  {
    assert jobs[..k + 1][..k] == jobs[..k] && jobs[..k + 1][k] == jobs[k];
  }

  class Installer {
    var files: F.Files
    var host: S.Host
    ghost var seen: seq<F.Seen>
    ghost var calls: seq<S.Call>

    ghost function Now(): World reads this { World(files, host) }

    constructor (w: World)
      ensures Now() == w && seen == [] && calls == []
    {
      files, host, seen, calls := w.files, w.host, [], [];
    }

    method FindHeldFor(held: seq<HeldCert>, name: string) returns (found: Option<HeldCert>)
      ensures found == FindHeld(held, name)
    {
      var k := 0;
      while k < |held|
        invariant 0 <= k <= |held| && FindHeld(held, name) == FindHeld(held[k..], name)
      {
        var i := 0;
        while i < |held[k].names|
          invariant 0 <= i <= |held[k].names|
          invariant forall n | 0 <= n < i :: Lower(TrimSuffix(held[k].names[n], ".")) != CleanName(name)
        {
          if Lower(TrimSuffix(held[k].names[i], ".")) == CleanName(name) {
            return Some(held[k]);
          }
          i := i + 1;
        }
        k := k + 1;
      }
      found := None;
    }

    /** Do one destination's work with the installer of its kind. */
    method ApplyTask(t: Task, force: bool, a: Answers) returns (out: Report)
      modifies this
      ensures var done := DoTask(old(Now()), t, force, a);
              && Now() == done.world && out == done.report
              && seen == old(seen) + done.seen && calls == old(calls) + done.calls
    {
      hide F.Install, S.InstallPlan, S.Replay;
      match t
      case Stop(report) =>
        out := report;
      case Files(ts, commands) =>
        var installer := new F.Installer(files, ts);
        out := installer.InstallFiles(ts, commands, force, a.file);
        files := installer.disk;
        seen := seen + installer.seen;
      case InStore(d, c) =>
        var installer := new S.Installer(host);
        out := installer.ApplyStore(d, c, force, a.store);
        host := S.Host(installer.certs, installer.bindings);
        calls := calls + installer.calls;
    }

    /** Apply every destination in turn and sort what they report. */
    method ApplyAll(spec: seq<Destination>, force: set<string>, env: Env, answers: string -> Answers)
      returns (report: seq<Installation>)
      modifies this
      ensures var s := DoAll(old(Now()), JobsOf(spec, force, env, answers));
              && Now() == s.world && report == SortByName(s.installations)
              && seen == old(seen) + s.seen && calls == old(calls) + s.calls
    {
      hide DoTask, TaskOf, DoAll, SortByName;
      ghost var jobs := JobsOf(spec, force, env, answers);
      report := [];
      var k := 0;
      DoNone(Now(), jobs);
      while k < |spec|
        invariant 0 <= k <= |spec|
        invariant var s := DoAll(old(Now()), jobs[..k]);
                  && Now() == s.world && report == s.installations
                  && seen == old(seen) + s.seen && calls == old(calls) + s.calls
      {
        DoNext(old(Now()), jobs, k);
        var d := spec[k];
        var out := ApplyTask(TaskOf(d, env, answers(d.name)), d.name in force, answers(d.name));
        report := report + [Installation(d.name, out)];
        k := k + 1;
      }
      assert jobs[..k] == jobs;
      report := SortByName(report);
    }
  }

  // ---------- The report ----------

  predicate SortedByName(xs: seq<Installation>) {
    forall i, j | 0 <= i < j < |xs| :: NameBefore(xs[i].name, xs[j].name)
  }

  predicate DistinctNames(xs: seq<Installation>) {
    forall i, j | 0 <= i < j < |xs| :: xs[i].name != xs[j].name
  }
}
