/**
 Once every destination is installed, applying again does nothing (install.go, store.go); and the
 two ways in which a host never gets there.
 */
module Quiescence {
  import opened Prelude
  import opened Apply
  import opened ApplyGuarantees
  import opened Interference
  import F = FileInstall
  import S = StoreInstall
  import FileGuarantees
  import StoreSafety
  import StoreReports

  /** The destination is as it should be: every file holds its content, or the certificate carries the
      destination's name and no other of the destination's store does. */
  ghost predicate Settled(w: World, t: Task) {
    match t
    case Stop(_) => true
    case Files(ts, _) => F.Matches(w.files, ts, {})
    case InStore(d, c) =>
      c in w.host.certs && w.host.certs[c] == d.FriendlyName() && forall x | d.Marks(w.host, x) :: x == c
  }

  /** Files can be read and their modes set; the store can be read, and reading lists the certificate. */
  predicate Comparable(t: Task, a: Answers) {
    match t
    case Stop(_) => true
    case Files(_, _) => a.file.unmatched == {} && a.file.unset == {} && a.file.unowned == {}
    case InStore(d, c) => a.store.readable && c.store == d.store && c.thumb in a.store.scan
  }

  /** The same files with the same contents; permissions may differ. */
  ghost predicate SameContents(x: F.Files, y: F.Files) {
    x.Keys == y.Keys && forall p | p in x :: x[p].content == y[p].content
  }

  predicate OnlyReads(calls: seq<S.Call>) {
    forall i | 0 <= i < |calls| :: calls[i].Read?
  }

  lemma ReadsChangeNothing(h: S.Host, name: string)
    ensures S.Replay(h, [S.Read(name)]) == h
  {
    StoreSafety.ReplayAfter(h, S.Read(name), []);
    assert [S.Read(name)] + [] == [S.Read(name)];
  }

  /** A settled destination that is not forced is left alone, and says it is installed. */
  lemma SettledDoesNothing(w: World, j: Job)
    requires Settled(w, j.task) && !j.force && Comparable(j.task, j.answers) && !j.task.Stop?
    ensures var done := DoJob(w, j);
            && done.report.status == Installed && done.seen == [] && OnlyReads(done.calls)
            && done.world.host == w.host && SameContents(done.world.files, w.files)
  {
    match j.task
    case Files(ts, d) =>
      F.EnforcedKeeps(w.files, ts);
    case InStore(d, c) =>
      var a := j.answers.store;
      StoreSafety.FirstNamedFinds(w.host, d.store, d.FriendlyName(), a.scan);
      var previous := S.FirstNamed(w.host, d.store, d.FriendlyName(), a.scan);
      assert S.CertId(d.store, c.thumb) == c;
      assert previous.Some? ==> d.Marks(w.host, previous.value);
      assert previous == Some(c);
      ReadsChangeNothing(w.host, d.FriendlyName());
      assert S.InstallPlan(w.host, d, c, j.force, a).calls == [S.Read(d.FriendlyName())];
  }

  /** Before an install: a file destination gives no path two contents; a store destination has marked at
      most one certificate of its store, which reading lists. */
  ghost predicate Unambiguous(w: World, t: Task, a: Answers) {
    match t
    case Stop(_) => true
    case Files(ts, _) => FileGuarantees.Consistent(ts)
    case InStore(d, c) =>
      forall x | d.Marks(w.host, x) :: x.thumb in a.store.scan && forall y | d.Marks(w.host, y) :: y == x
  }

  /** Every naming and every removal that is made takes effect, whatever it answers. */
  predicate TidyCalls(calls: seq<S.Call>) {
    forall call | call in calls && (call.SetName? || call.Remove?) :: call.effect.Happened()
  }

  /** An install that says it is installed leaves its destination settled. */
  lemma InstalledSettles(w: World, j: Job)
    requires DoJob(w, j).report.status == Installed
    requires Unambiguous(w, j.task, j.answers) && TidyCalls(DoJob(w, j).calls)
    ensures Settled(DoJob(w, j).world, j.task)
  {
    match j.task
    case Stop(_) =>
    case Files(ts, d) => InstalledFilesMatchExactly(w.files, ts, d, j.force, j.answers.file);
    case InStore(d, c) => InstalledIsMarked(w.host, d, c, j.force, j.answers.store);
  }

  /** A file destination that says it is installed has every content in place if and only if it
      gives no path two contents. */
  lemma InstalledFilesMatchExactly(entry: F.Files, ts: seq<F.Target>, d: F.Destination, force: bool, a: F.Answers)
    requires F.Install(entry, ts, d, force, a).report.status == Installed
    ensures F.Matches(F.Install(entry, ts, d, force, a).disk, ts, {}) <==> FileGuarantees.Consistent(ts)
  {
    hide F.Restored, F.After;
    FileGuarantees.WrittenMatchesExactly(entry, ts);
    F.EnforcedKeeps(entry, ts);
  }

  lemma InstalledIsMarked(h: S.Host, d: S.Destination, c: S.CertId, force: bool, a: S.Answers)
    requires S.InstallPlan(h, d, c, force, a).report.status == Installed
    requires TidyCalls(S.InstallPlan(h, d, c, force, a).calls)
    requires forall x | d.Marks(h, x) :: x.thumb in a.scan && forall y | d.Marks(h, y) :: y == x
    ensures var h' := S.Replay(h, S.InstallPlan(h, d, c, force, a).calls);
            c in h'.certs && h'.certs[c] == d.FriendlyName() && forall x | d.Marks(h', x) :: x == c
  {
    hide S.InstallPlan, S.Replay, S.FirstNamed, StoreReports.Ending, StoreReports.Bound, StoreReports.SettledHost;
    var previous := S.FirstNamed(h, d.store, d.FriendlyName(), a.scan);
    StoreReports.InstalledIsSettledOrQuiet(h, d, c, force, a);
    OnlyMarkIsPrevious(h, d, a);
    if S.Quiet(c, previous, force) {
      StoreReports.QuietChangesNothing(h, d, c, force, a);
    } else {
      StoreReports.PastBindEnds(h, d, c, force, a);
      StoreReports.PastBindCalls(h, d, c, force, a);
      var start, ending := StoreReports.Bound(h, d, c, a), S.SettlePlan(d, c, previous, d.reload, a).calls;
      StoreReports.SettleEnds(start, d, c, previous, a);
      assert forall call | call in ending :: call in S.InstallPlan(h, d, c, force, a).calls;
      SettledCallsTidy(d, c, previous, a);
      SettlingMarks(h, d, c, previous, a);
    }
  }

  lemma OnlyMarkIsPrevious(h: S.Host, d: S.Destination, a: S.Answers)
    requires forall x | d.Marks(h, x) :: x.thumb in a.scan && forall y | d.Marks(h, y) :: y == x
    ensures forall x :: d.Marks(h, x) <==> S.FirstNamed(h, d.store, d.FriendlyName(), a.scan) == Some(x)
  {
    hide S.FirstNamed;
    StoreSafety.FirstNamedFinds(h, d.store, d.FriendlyName(), a.scan);
    var previous := S.FirstNamed(h, d.store, d.FriendlyName(), a.scan);
    assert previous.Some? ==> d.Marks(h, previous.value);
    assert forall x | d.Marks(h, x) :: S.CertId(d.store, x.thumb) == x;
  }

  lemma SettledCallsTidy(d: S.Destination, c: S.CertId, previous: Option<S.CertId>, a: S.Answers)
    requires TidyCalls(S.SettlePlan(d, c, previous, d.reload, a).calls)
    ensures a.named.Happened() && (previous.Some? && previous.value != c ==> a.retired.Happened())
  {
    var calls := S.SettlePlan(d, c, previous, d.reload, a).calls;
    assert calls[0] in calls && (|calls| > 1 ==> calls[1] in calls);
  }

  /** Settling leaves the certificate named and the one it replaces removed. */
  lemma SettlingMarks(h: S.Host, d: S.Destination, c: S.CertId, previous: Option<S.CertId>, a: S.Answers)
    requires a.imported.Listed? && a.named.Happened() && (previous.Some? && previous.value != c ==> a.retired.Happened())
    requires forall x :: d.Marks(h, x) <==> previous == Some(x)
    ensures var h' := StoreReports.SettledHost(StoreReports.Bound(h, d, c, a), d, c, previous, a.named, a.retired);
            c in h'.certs && h'.certs[c] == d.FriendlyName() && forall x | d.Marks(h', x) :: x == c
  {
    var h' := StoreReports.SettledHost(StoreReports.Bound(h, d, c, a), d, c, previous, a.named, a.retired);
    assert forall x | x != c && d.Marks(h', x) :: d.Marks(h, x);
  }

  // ---------- Several destinations ----------

  /** Two destinations share no path, no certificate, and no name in the store. */
  predicate Separate(t: Task, u: Task) {
    match (t, u)
    case (Files(ts, _), Files(us, _)) =>
      forall i, k | 0 <= i < |ts| && 0 <= k < |us| :: ts[i].path != us[k].path
    case (InStore(d, c), InStore(e, x)) => c != x && d.FriendlyName() != e.FriendlyName()
    case _ => true
  }

  ghost predicate AllSeparate(jobs: seq<Job>) {
    forall i, k | 0 <= i < |jobs| && 0 <= k < |jobs| && i != k :: Separate(jobs[i].task, jobs[k].task)
  }

  /** Whatever happens at one destination, another stays settled. */
  lemma SettledStays(w: World, j: Job, t: Task)
    requires Settled(w, t) && Separate(j.task, t)
    ensures Settled(DoJob(w, j).world, t)
  {
    hide F.Install, S.InstallPlan, S.Replay;
    if j.task.Files? && t.Files? {
      var o := F.Install(w.files, j.task.targets, j.task.commands, j.force, j.answers.file);
      forall i | 0 <= i < |t.targets| ensures F.Agree(o.disk, w.files, t.targets[i].path) {
        FileGuarantees.OtherPathsKept(w.files, j.task.targets, j.task.commands, j.force, j.answers.file, t.targets[i].path);
      }
    } else if j.task.InStore? && t.InStore? {
      InstallKeeps(w.host, j.task.d, j.task.c, j.force, j.answers.store);
      PreviousIsMarked(w.host, j.task.d, j.answers.store);
      var previous := S.FirstNamed(w.host, j.task.d.store, j.task.d.FriendlyName(), j.answers.store.scan);
      assert previous != Some(t.c) && t.c != j.task.c;
      assert SameCert(w.host, DoJob(w, j).world.host, t.c);
      forall x | t.d.Marks(DoJob(w, j).world.host, x) ensures x == t.c {
        JobMarks(w, j, t.d, x);
      }
    }
  }

  /** Whatever happens at one destination, another's marks stay unambiguous. */
  lemma UnambiguousStays(w: World, j: Job, t: Task, a: Answers)
    requires Unambiguous(w, t, a) && Separate(j.task, t)
    ensures Unambiguous(DoJob(w, j).world, t, a)
  {
    hide F.Install, S.InstallPlan, S.Replay;
    if t.InStore? {
      forall x | t.d.Marks(DoJob(w, j).world.host, x) ensures t.d.Marks(w.host, x) {
        JobMarks(w, j, t.d, x);
      }
    }
  }

  ghost predicate AllUnambiguous(w: World, jobs: seq<Job>) {
    forall i | 0 <= i < |jobs| :: Unambiguous(w, jobs[i].task, jobs[i].answers)
  }

  lemma {:induction false} OthersUnambiguous(w: World, done: seq<Job>, t: Task, a: Answers)
    requires Unambiguous(w, t, a) && forall i | 0 <= i < |done| :: Separate(done[i].task, t)
    ensures Unambiguous(DoAll(w, done).world, t, a)
  {
    if done != [] {
      var most := done[..|done| - 1];
      assert forall i | 0 <= i < |most| :: most[i] == done[i];
      OthersUnambiguous(w, most, t, a);
      UnambiguousStays(DoAll(w, most).world, done[|done| - 1], t, a);
    }
  }

  /** A run in which everything reports installed leaves everything settled. */
  lemma {:induction false} AllInstalledAllSettled(w: World, jobs: seq<Job>)
    requires AllSeparate(jobs) && AllUnambiguous(w, jobs) && TidyCalls(DoAll(w, jobs).calls)
    requires |DoAll(w, jobs).installations| == |jobs|
             ==> forall i | 0 <= i < |jobs| :: DoAll(w, jobs).installations[i].report.status == Installed
    ensures |DoAll(w, jobs).installations| == |jobs|
    ensures forall i | 0 <= i < |jobs| :: Settled(DoAll(w, jobs).world, jobs[i].task)
  {
    OneEach(w, jobs);
    if jobs != [] {
      var n := |jobs| - 1;
      var most, j := jobs[..n], jobs[n];
      var s := DoAll(w, most);
      OneEach(w, most);
      assert forall i | 0 <= i < n :: most[i] == jobs[i] && DoAll(w, jobs).installations[i] == s.installations[i];
      AllInstalledAllSettled(w, most);
      OthersUnambiguous(w, most, j.task, j.answers);
      assert DoAll(w, jobs).installations[n] == Installation(j.name, DoJob(s.world, j).report);
      InstalledSettles(s.world, j);
      forall i | 0 <= i < n ensures Settled(DoJob(s.world, j).world, jobs[i].task) {
        assert Settled(s.world, most[i].task);
        SettledStays(s.world, j, jobs[i].task);
      }
    }
  }

  lemma {:induction false} OneEach(w: World, jobs: seq<Job>)
    ensures |DoAll(w, jobs).installations| == |jobs|
  {
    if jobs != [] {
      OneEach(w, jobs[..|jobs| - 1]);
    }
  }

  /** Over a settled world every job does nothing and reports installed. */
  lemma {:induction false} AllSettledAllQuiet(w: World, jobs: seq<Job>, tasks: seq<Task>)
    requires forall i | 0 <= i < |tasks| :: Settled(w, tasks[i])
    requires forall i | 0 <= i < |jobs| :: jobs[i].task in tasks && !jobs[i].force
                                           && !jobs[i].task.Stop? && Comparable(jobs[i].task, jobs[i].answers)
    ensures var s := DoAll(w, jobs);
            && s.seen == [] && OnlyReads(s.calls) && s.world.host == w.host && SameContents(s.world.files, w.files)
            && |s.installations| == |jobs|
            && (forall i | 0 <= i < |jobs| :: s.installations[i].report.status == Installed)
            && (forall i | 0 <= i < |tasks| :: Settled(s.world, tasks[i]))
  {
    if jobs != [] {
      var most, j := jobs[..|jobs| - 1], jobs[|jobs| - 1];
      assert forall i | 0 <= i < |most| :: most[i] == jobs[i];
      AllSettledAllQuiet(w, most, tasks);
      var x := DoAll(w, most).world;
      var k :| 0 <= k < |tasks| && tasks[k] == j.task;
      assert Settled(x, tasks[k]);
      SettledDoesNothing(x, j);
      var y := DoJob(x, j).world;
      forall i | 0 <= i < |tasks| ensures Settled(y, tasks[i]) {
        SameContentsSettled(x, y, tasks[i]);
      }
    }
  }

  lemma SameContentsSettled(x: World, y: World, t: Task)
    requires Settled(x, t) && y.host == x.host && SameContents(y.files, x.files)
    ensures Settled(y, t)
  {
  }

  function TasksOf(jobs: seq<Job>): (tasks: seq<Task>)
    ensures |tasks| == |jobs| && forall i | 0 <= i < |jobs| :: tasks[i] == jobs[i].task
  {
    seq(|jobs|, i requires 0 <= i < |jobs| => jobs[i].task)
  }

  /**
   Quiescence. After a run in which every destination reports installed, over destinations that
   share nothing, applying the same tasks again without force runs no command, makes no store call
   but reads, changes no binding, no certificate and no content, and reports installed throughout.
   */
  lemma ApplyingAgainDoesNothing(w: World, jobs: seq<Job>, again: seq<Job>)
    requires AllSeparate(jobs) && AllUnambiguous(w, jobs) && TidyCalls(DoAll(w, jobs).calls)
    requires |DoAll(w, jobs).installations| == |jobs|
             ==> forall i | 0 <= i < |jobs| :: DoAll(w, jobs).installations[i].report.status == Installed
    requires forall i | 0 <= i < |again| ::
               && again[i].task in TasksOf(jobs) && !again[i].force
               && !again[i].task.Stop? && Comparable(again[i].task, again[i].answers)
    ensures var s, t := DoAll(w, jobs), DoAll(DoAll(w, jobs).world, again);
            && t.seen == [] && OnlyReads(t.calls)
            && t.world.host == s.world.host && SameContents(t.world.files, s.world.files)
            && |t.installations| == |again|
            && forall i | 0 <= i < |again| :: t.installations[i].report.status == Installed
  {
    AllInstalledAllSettled(w, jobs);
    AllSettledAllQuiet(DoAll(w, jobs).world, again, TasksOf(jobs));
  }

  // ---------- Hosts that never settle ----------

  predicate Imports(calls: seq<S.Call>, c: S.CertId) {
    exists i :: 0 <= i < |calls| && calls[i].Import? && calls[i].c == c
  }

  ghost predicate MarksNothing(h: S.Host, d: S.Destination) {
    forall x :: !d.Marks(h, x)
  }

  /** A smooth install for a destination that marks nothing imports the certificate, and leaves it and
      no other marked. */
  lemma SmoothInstallMarks(h: S.Host, d: S.Destination, c: S.CertId, a: S.Answers)
    requires MarksNothing(h, d) && a == StoreSafety.Smooth(a.scan)
    ensures var plan := S.InstallPlan(h, d, c, false, a);
            var h' := S.Replay(h, plan.calls);
            && plan.report.status == Installed && Imports(plan.calls, c)
            && c in h'.certs && h'.certs[c] == d.FriendlyName() && (forall x | d.Marks(h', x) :: x == c)
            && forall e: S.Destination, x | e.FriendlyName() != d.FriendlyName() && e.Marks(h', x) :: e.Marks(h, x) && x != c
  {
    PreviousIsMarked(h, d, a);
    assert S.FirstNamed(h, d.store, d.FriendlyName(), a.scan) == None;
    var calls := S.InstallPlan(h, d, c, false, a).calls;
    assert calls[1] == S.Import(c, a.imported);
    assert a.Served();
    StoreReports.InstalledMeans(h, d, c, false, a);
    var h' := S.Replay(h, calls);
    assert forall x, e: S.Destination | x != c && e.Marks(h', x) :: e.Marks(h, x);
  }

  /**
   Two destinations that share a certificate and a store never settle. Each application finds the
   certificate marked by the other, imports it again and marks it, however often they are applied
   and however smoothly it goes.
   */
  lemma SharedCertificateNeverSettles(w: World, d: S.Destination, e: S.Destination, c: S.CertId, a: Answers)
    requires d.FriendlyName() != e.FriendlyName() && a.store == StoreSafety.Smooth(a.store.scan)
    requires MarksNothing(w.host, d) && forall x | e.Marks(w.host, x) :: x == c
    ensures var first := DoJob(w, Job(d.name, InStore(d, c), false, a));
            var second := DoJob(first.world, Job(e.name, InStore(e, c), false, a));
            && first.report.status == Installed && Imports(first.calls, c)
            && second.report.status == Installed && Imports(second.calls, c)
            && MarksNothing(second.world.host, d) && forall x | e.Marks(second.world.host, x) :: x == c
  {
    hide S.InstallPlan, S.Replay;
    var first := DoJob(w, Job(d.name, InStore(d, c), false, a));
    SmoothInstallMarks(w.host, d, c, a.store);
    assert MarksNothing(first.world.host, e);
    SmoothInstallMarks(first.world.host, e, c, a.store);
    var second := DoJob(first.world, Job(e.name, InStore(e, c), false, a));
    assert forall x | d.Marks(second.world.host, x) :: d.Marks(first.world.host, x) && x != c;
  }

  /** The two destinations applied in turn, n times over. */
  function Rounds(w: World, d: S.Destination, e: S.Destination, c: S.CertId, a: Answers, n: nat): World {
    if n == 0 then w
    else
      var before := Rounds(w, d, e, c, a, n - 1);
      DoJob(DoJob(before, Job(d.name, InStore(d, c), false, a)).world, Job(e.name, InStore(e, c), false, a)).world
  }

  lemma {:induction false} EveryRoundImportsAgain(w: World, d: S.Destination, e: S.Destination, c: S.CertId, a: Answers, n: nat)
    requires d.FriendlyName() != e.FriendlyName() && a.store == StoreSafety.Smooth(a.store.scan)
    requires MarksNothing(w.host, d) && forall x | e.Marks(w.host, x) :: x == c
    ensures var before := Rounds(w, d, e, c, a, n);
            && MarksNothing(before.host, d) && (forall x | e.Marks(before.host, x) :: x == c)
            && Imports(DoJob(before, Job(d.name, InStore(d, c), false, a)).calls, c)
  {
    hide S.InstallPlan, S.Replay;
    if n > 0 {
      EveryRoundImportsAgain(w, d, e, c, a, n - 1);
      SharedCertificateNeverSettles(Rounds(w, d, e, c, a, n - 1), d, e, c, a);
    }
    SharedCertificateNeverSettles(Rounds(w, d, e, c, a, n), d, e, c, a);
  }

  /** A destination that gives one path two contents never settles either: it rewrites its files and
      reloads at every application. */
  lemma RepeatedPathNeverSettles(files: F.Files, ts: seq<F.Target>, d: F.Destination, a: F.Answers)
    requires !FileGuarantees.Consistent(ts)
    requires d.reload && a.checked && a.reloaded
    requires forall n | 0 <= n < |ts| :: n !in a.unreadable && n !in a.unwritable
    ensures var o := F.Install(files, ts, d, false, a);
            o.report == Report(Installed, false, true, true)
            && exists n :: 0 <= n < |o.seen| && o.seen[n].command == F.Reload
  {
    hide F.After, F.Restored;
    assert !F.Matches(files, ts, a.unmatched);
    var o := F.Install(files, ts, d, false, a);
    assert o.seen[|o.seen| - 1].command == F.Reload;
  }
}
