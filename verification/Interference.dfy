/**
 Destinations with nothing in common do not interfere: the world they leave and what each of them
 reports are the same in any order (install.go).
 */
module Interference {
  import opened Prelude
  import opened Apply
  import opened ApplyGuarantees
  import F = FileInstall
  import S = StoreInstall
  import FileGuarantees
  import StoreSafety
  import StoreRuns

  // ---------- Footprints ----------

  /** One thing a host holds: a file, a certificate in a store, or an endpoint's binding. */
  datatype Key = PathKey(path: string) | CertKey(c: S.CertId) | EndpointKey(endpoint: string)

  ghost predicate SameAt(x: World, y: World, key: Key) {
    match key
    case PathKey(p) => F.Agree(x.files, y.files, p)
    case CertKey(c) => SameCert(x.host, y.host, c)
    case EndpointKey(e) => S.SameEndpoint(x.host, y.host, e)
  }

  lemma SameEverywhere(x: World, y: World)
    requires forall key :: SameAt(x, y, key)
    ensures x == y
  {
    forall p: string ensures (p in x.files <==> p in y.files) && (p in x.files ==> x.files[p] == y.files[p]) {
      assert SameAt(x, y, PathKey(p));
    }
    var (h, g) := (x.host, y.host);
    forall c: S.CertId ensures (c in h.certs <==> c in g.certs) && (c in h.certs ==> h.certs[c] == g.certs[c]) {
      assert SameAt(x, y, CertKey(c));
    }
    forall e: string ensures (e in h.bindings <==> e in g.bindings) && (e in h.bindings ==> h.bindings[e] == g.bindings[e]) {
      assert SameAt(x, y, EndpointKey(e));
    }
    assert h.certs == g.certs && h.bindings == g.bindings;
    assert x.files == y.files && x.host.certs == y.host.certs && x.host.bindings == y.host.bindings;
  }

  /** What a job may change: its paths; or its certificate, every certificate of its store that carries
      its name, and its endpoint. */
  ghost predicate Owns(w: World, t: Task, key: Key) {
    match t
    case Stop(_) => false
    case Files(ts, _) => key.PathKey? && F.Writes(ts, key.path)
    case InStore(d, c) =>
      match key
      case PathKey(_) => false
      case CertKey(x) => x == c || d.Marks(w.host, x)
      case EndpointKey(e) => d.bind == Some(e)
  }

  /** No two of the jobs own one thing, and no two store jobs mark certificates with one name. */
  ghost predicate Apart(w: World, jobs: seq<Job>) {
    && (forall i, j, key | 0 <= i < j < |jobs| :: !(Owns(w, jobs[i].task, key) && Owns(w, jobs[j].task, key)))
    && (forall i, j | 0 <= i < j < |jobs| :: SeparateMarks(jobs[i].task, jobs[j].task))
  }

  predicate SeparateMarks(t: Task, u: Task) {
    t.InStore? && u.InStore? ==> t.d.FriendlyName() != u.d.FriendlyName()
  }

  // ---------- One job ----------

  /** Two worlds look the same to a task. */
  ghost predicate LooksSame(w: World, x: World, t: Task) {
    && (forall key | Owns(w, t, key) :: SameAt(x, w, key))
    && (t.InStore? ==> forall c :: t.d.Marks(x.host, c) <==> t.d.Marks(w.host, c))
  }

  /** A job does the same in two worlds that look the same to it, and leaves the rest alone. */
  lemma JobLocal(w: World, x: World, j: Job)
    requires LooksSame(w, x, j.task)
    ensures DoJob(x, j).report == DoJob(w, j).report
    ensures forall key ::
              if Owns(w, j.task, key) then SameAt(DoJob(x, j).world, DoJob(w, j).world, key)
              else SameAt(DoJob(x, j).world, x, key)
  {
    hide F.Install, S.InstallPlan, S.Replay;
    match j.task
    case Stop(_) =>
    case Files(ts, d) =>
      forall i | 0 <= i < |ts| ensures F.Agree(x.files, w.files, ts[i].path) {
        assert Owns(w, j.task, PathKey(ts[i].path));
        assert SameAt(x, w, PathKey(ts[i].path));
      }
      FilesReportLocal(x.files, w.files, ts, d, j.force, j.answers.file);
      forall key
        ensures if Owns(w, j.task, key) then SameAt(DoJob(x, j).world, DoJob(w, j).world, key)
                else SameAt(DoJob(x, j).world, x, key)
      {
        if Owns(w, j.task, key) {
          assert SameAt(x, w, key);
          FilesLocal(x.files, w.files, ts, d, j.force, j.answers.file, key.path);
        } else if key.PathKey? {
          FileGuarantees.OtherPathsKept(x.files, ts, d, j.force, j.answers.file, key.path);
        }
      }
    case InStore(d, c) =>
      StoreJobLocal(w, x, j, d, c);
  }

  lemma FilesReportLocal(x: F.Files, y: F.Files, ts: seq<F.Target>, d: F.Destination, force: bool, a: F.Answers)
    requires forall i | 0 <= i < |ts| :: F.Agree(x, y, ts[i].path)
    ensures F.Install(x, ts, d, force, a).report == F.Install(y, ts, d, force, a).report
  {
    if ts != [] {
      FilesLocal(x, y, ts, d, force, a, ts[0].path);
    } else {
      NoFiles(x, d, force, a);
      NoFiles(y, d, force, a);
    }
  }

  /** Without files the report does not depend on the disk. */
  lemma NoFiles(x: F.Files, d: F.Destination, force: bool, a: F.Answers)
    ensures F.Install(x, [], d, force, a).report == F.Install(map[], [], d, force, a).report
  {
  }

  lemma StoreJobLocal(w: World, x: World, j: Job, d: S.Destination, c: S.CertId)
    requires j.task == InStore(d, c) && LooksSame(w, x, j.task)
    ensures DoJob(x, j).report == DoJob(w, j).report
    ensures forall key ::
              if Owns(w, j.task, key) then SameAt(DoJob(x, j).world, DoJob(w, j).world, key)
              else SameAt(DoJob(x, j).world, x, key)
  {
    hide S.InstallPlan, S.Replay;
    var a := j.answers.store;
    PlanLocal(x.host, w.host, d, c, j.force, a);
    var calls := S.InstallPlan(w.host, d, c, j.force, a).calls;
    ReplayLocal(x.host, w.host, calls);
    InstallKeeps(x.host, d, c, j.force, a);
    var previous := S.FirstNamed(x.host, d.store, d.FriendlyName(), a.scan);
    PreviousIsMarked(x.host, d, a);
    forall key
      ensures if Owns(w, j.task, key) then SameAt(DoJob(x, j).world, DoJob(w, j).world, key)
              else SameAt(DoJob(x, j).world, x, key)
    {
      if Owns(w, j.task, key) {
        assert SameAt(x, w, key);
      } else if key.CertKey? {
        assert d.Marks(x.host, key.c) <==> d.Marks(w.host, key.c);
        assert key.c != c && previous != Some(key.c);
      }
    }
  }

  lemma PreviousIsMarked(h: S.Host, d: S.Destination, a: S.Answers)
    ensures var previous := S.FirstNamed(h, d.store, d.FriendlyName(), a.scan);
            previous.Some? ==> d.Marks(h, previous.value)
  {
    StoreSafety.FirstNamedFinds(h, d.store, d.FriendlyName(), a.scan);
  }

  /** After an install every certificate carries the name it had, no name, or the installer's own. */
  lemma {:induction false} NamesAfter(h: S.Host, calls: seq<S.Call>, d: S.Destination, c: S.CertId, previous: Option<S.CertId>, x: S.CertId)
    requires Within(calls, d, c, previous)
    ensures var h' := S.Replay(h, calls);
            x in h'.certs ==>
              h'.certs[x] == "" || h'.certs[x] == d.FriendlyName() || (x in h.certs && h'.certs[x] == h.certs[x])
    decreases |calls|
  {
    if calls != [] {
      var g := S.Step(h, calls[0]);
      assert Within(calls[1..], d, c, previous) by {
        assert forall i | 0 <= i < |calls| - 1 :: calls[1..][i] == calls[i + 1];
      }
      NamesAfter(g, calls[1..], d, c, previous, x);
    }
  }

  /** A job marks no certificate for a destination of another name. */
  lemma JobMarks(w: World, j: Job, e: S.Destination, x: S.CertId)
    requires j.task.InStore? ==> j.task.d.FriendlyName() != e.FriendlyName()
    ensures e.Marks(DoJob(w, j).world.host, x) ==> e.Marks(w.host, x)
  {
    if j.task.InStore? {
      StoreRuns.FriendlyNameNotEmpty(e);
      var d, c, a := j.task.d, j.task.c, j.answers.store;
      PlanWithin(w.host, d, c, j.force, a);
      NamesAfter(w.host, S.InstallPlan(w.host, d, c, j.force, a).calls, d, c,
                 S.FirstNamed(w.host, d.store, d.FriendlyName(), a.scan), x);
    }
  }

  // ---------- All jobs ----------

  /** Where the jobs lead, thing by thing: what a job owns is as that job alone leaves it, and what
      none owns is as it was. */
  ghost predicate AsAlone(w: World, jobs: seq<Job>, x: World, key: Key) {
    && (forall i | 0 <= i < |jobs| && Owns(w, jobs[i].task, key) :: SameAt(x, DoJob(w, jobs[i]).world, key))
    && ((forall i | 0 <= i < |jobs| :: !Owns(w, jobs[i].task, key)) ==> SameAt(x, w, key))
  }

  /** A job not among those done still sees the world it started from. */
  lemma StillLooksSame(w: World, jobs: seq<Job>, x: World, j: Job)
    requires forall i, key | 0 <= i < |jobs| :: !(Owns(w, jobs[i].task, key) && Owns(w, j.task, key))
    requires forall i | 0 <= i < |jobs| :: SeparateMarks(jobs[i].task, j.task)
    requires forall key :: AsAlone(w, jobs, x, key)
    ensures LooksSame(w, x, j.task)
  {
    forall key | Owns(w, j.task, key) ensures SameAt(x, w, key) {
      assert AsAlone(w, jobs, x, key);
    }
    if j.task.InStore? {
      var d := j.task.d;
      forall c ensures d.Marks(x.host, c) <==> d.Marks(w.host, c) {
        assert AsAlone(w, jobs, x, CertKey(c));
        if d.Marks(w.host, c) {
          assert Owns(w, j.task, CertKey(c));
        } else if i :| 0 <= i < |jobs| && Owns(w, jobs[i].task, CertKey(c)) {
          assert SameAt(x, DoJob(w, jobs[i]).world, CertKey(c));
          JobMarks(w, jobs[i], d, c);
        } else {
          assert SameAt(x, w, CertKey(c));
        }
      }
    }
  }

  /** Each job of a run does what it would have done alone. */
  lemma {:induction false} EachAsAlone(w: World, jobs: seq<Job>)
    requires Apart(w, jobs)
    ensures var s := DoAll(w, jobs);
            && (forall key :: AsAlone(w, jobs, s.world, key))
            && |s.installations| == |jobs|
            && (forall i | 0 <= i < |jobs| :: s.installations[i] == Entry(w, jobs[i]))
  {
    if jobs == [] {
      forall key ensures AsAlone(w, jobs, w, key) { SameAsItself(w, key); }
    } else {
      var most, j := jobs[..|jobs| - 1], jobs[|jobs| - 1];
      ApartPrefix(w, jobs);
      EachAsAlone(w, most);
      var x := DoAll(w, most).world;
      StillLooksSame(w, most, x, j);
      JobLocal(w, x, j);
      forall key ensures AsAlone(w, jobs, DoJob(x, j).world, key) {
        AddJob(w, jobs, x, DoJob(x, j).world, key);
      }
    }
  }

  lemma SameAsItself(w: World, key: Key)
    ensures SameAt(w, w, key)
  {
  }

  lemma ApartPrefix(w: World, jobs: seq<Job>)
    requires Apart(w, jobs) && jobs != []
    ensures Apart(w, jobs[..|jobs| - 1])
  {
    var most := jobs[..|jobs| - 1];
    forall i, j, key | 0 <= i < j < |most| ensures !(Owns(w, most[i].task, key) && Owns(w, most[j].task, key)) {
      assert most[i] == jobs[i] && most[j] == jobs[j];
    }
  }

  lemma AddJob(w: World, jobs: seq<Job>, x: World, y: World, key: Key)
    requires jobs != [] && Apart(w, jobs)
    requires AsAlone(w, jobs[..|jobs| - 1], x, key)
    requires var j := jobs[|jobs| - 1];
             if Owns(w, j.task, key) then SameAt(y, DoJob(w, j).world, key) else SameAt(y, x, key)
    ensures AsAlone(w, jobs, y, key)
  {
    var n := |jobs| - 1;
    var most, j := jobs[..n], jobs[n];
    assert forall i | 0 <= i < n :: most[i] == jobs[i];
    forall i | 0 <= i < |jobs| && Owns(w, jobs[i].task, key) ensures SameAt(y, DoJob(w, jobs[i]).world, key) {
      if i < n {
        assert SameAt(x, DoJob(w, most[i]).world, key);
      }
    }
  }

  function Entry(w: World, j: Job): Installation { Installation(j.name, DoJob(w, j).report) }

  function Entries(w: World, jobs: seq<Job>): (xs: seq<Installation>)
    ensures |xs| == |jobs| && forall i | 0 <= i < |jobs| :: xs[i] == Entry(w, jobs[i])
  {
    seq(|jobs|, i requires 0 <= i < |jobs| => Entry(w, jobs[i]))
  }

  lemma ImageConcat<T, U>(f: T -> U, a: seq<T>, b: seq<T>)
    ensures Image(f, a + b) == Image(f, a) + Image(f, b)
  {
  }

  /** Taking the image of each element keeps a rearrangement a rearrangement. */
  lemma {:induction false} SameImages<T, U>(f: T -> U, xs: seq<T>, ys: seq<T>)
    requires multiset(xs) == multiset(ys)
    ensures multiset(Image(f, xs)) == multiset(Image(f, ys))
  {
    hide Image;
    if xs == [] {
      assert |multiset(ys)| == |ys|;
    } else {
      assert xs[0] in multiset(ys);
      var p :| 0 <= p < |ys| && ys[p] == xs[0];
      var before, one, after := ys[..p], [ys[p]], ys[p + 1..];
      assert xs == one + xs[1..] && ys == before + (one + after);
      RemovedOne(xs[1..], before, one, after);
      SameImages(f, xs[1..], before + after);
      ImageConcat(f, one, xs[1..]);
      ImageConcat(f, before, one + after);
      ImageConcat(f, one, after);
      ImageConcat(f, before, after);
    }
  }

  lemma RemovedOne<T>(rest: seq<T>, before: seq<T>, one: seq<T>, after: seq<T>)
    requires multiset(one + rest) == multiset(before + (one + after))
    ensures multiset(rest) == multiset(before + after)
  {
    assert multiset(rest) == multiset(one + rest) - multiset(one);
    assert multiset(before + after) == multiset(before + (one + after)) - multiset(one);
  }

  /** What the jobs leave at one thing does not depend on their order. */
  lemma SameThing(w: World, jobs: seq<Job>, others: seq<Job>, x: World, y: World, key: Key)
    requires multiset(jobs) == multiset(others)
    requires AsAlone(w, jobs, x, key) && AsAlone(w, others, y, key)
    ensures SameAt(x, y, key)
  {
    if i :| 0 <= i < |jobs| && Owns(w, jobs[i].task, key) {
      assert jobs[i] in multiset(others);
      var k :| 0 <= k < |others| && others[k] == jobs[i];
      assert SameAt(x, DoJob(w, jobs[i]).world, key) && SameAt(y, DoJob(w, others[k]).world, key);
    } else {
      forall k | 0 <= k < |others| ensures !Owns(w, others[k].task, key) {
        assert others[k] in multiset(jobs);
      }
    }
  }

  predicate DistinctJobs(jobs: seq<Job>) {
    forall i, j | 0 <= i < j < |jobs| :: jobs[i].name != jobs[j].name
  }

  lemma {:induction false} DistinctIsOnce(jobs: seq<Job>, x: Job)
    requires DistinctJobs(jobs)
    ensures multiset(jobs)[x] <= 1
  {
    if jobs != [] {
      var most, last := jobs[..|jobs| - 1], jobs[|jobs| - 1];
      assert jobs == most + [last];
      DistinctIsOnce(most, x);
      assert forall i | 0 <= i < |most| :: most[i] == jobs[i] && most[i] != last;
    }
  }

  /** Two places of a rearrangement are two places of the original. */
  lemma TwoPlaces(jobs: seq<Job>, others: seq<Job>, i: nat, j: nat) returns (p: nat, q: nat)
    requires multiset(jobs) == multiset(others) && DistinctJobs(jobs) && i < j < |others|
    ensures p < |jobs| && q < |jobs| && p != q && jobs[p] == others[i] && jobs[q] == others[j]
  {
    assert others[i] in multiset(jobs) && others[j] in multiset(jobs);
    p :| 0 <= p < |jobs| && jobs[p] == others[i];
    q :| 0 <= q < |jobs| && jobs[q] == others[j];
    if others[i] == others[j] {
      DistinctIsOnce(jobs, others[j]);
      TwiceIn(others, i, j);
    }
  }

  lemma TwiceIn<T>(xs: seq<T>, i: nat, j: nat)
    requires i < j < |xs| && xs[i] == xs[j]
    ensures multiset(xs)[xs[j]] >= 2
  {
    assert xs == xs[..j] + [xs[j]] + xs[j + 1..];
    assert xs[..j][i] == xs[i];
    assert xs[j] in multiset(xs[..j]);
  }

  /** Having nothing in common does not depend on the order. */
  lemma ApartPermutes(w: World, jobs: seq<Job>, others: seq<Job>)
    requires multiset(jobs) == multiset(others) && Apart(w, jobs) && DistinctJobs(jobs)
    ensures Apart(w, others) && DistinctJobs(others)
  {
    hide Owns, SeparateMarks;
    forall i, j | 0 <= i < j < |others|
      ensures others[i].name != others[j].name && SeparateMarks(others[i].task, others[j].task)
      ensures forall key :: !(Owns(w, others[i].task, key) && Owns(w, others[j].task, key))
    {
      var p, q := TwoPlaces(jobs, others, i, j);
      MarksEitherWay(jobs[p].task, jobs[q].task);
      assert p < q || q < p;
    }
  }

  lemma MarksEitherWay(t: Task, u: Task)
    ensures SeparateMarks(t, u) <==> SeparateMarks(u, t)
  {
  }

  /**
   Order does not matter. If no two destinations have anything in common, applying them in any
   order leaves the same world, and the sorted report is the same: one entry for each destination,
   each as if that destination had been the only one.
   */
  lemma OrderDoesNotMatter(w: World, jobs: seq<Job>, others: seq<Job>)
    requires multiset(jobs) == multiset(others)
    requires Apart(w, jobs) && DistinctJobs(jobs)
    ensures DoAll(w, jobs).world == DoAll(w, others).world
    ensures SortByName(DoAll(w, jobs).installations) == SortByName(DoAll(w, others).installations)
    ensures var report := SortByName(DoAll(w, jobs).installations);
            SortedByName(report) && multiset(report) == multiset(Entries(w, jobs))
  {
    hide DoAll, AsAlone, Apart, SortByName, Entry, DistinctJobs;
    ApartPermutes(w, jobs, others);
    EachAsAlone(w, jobs);
    EachAsAlone(w, others);
    var s, t := DoAll(w, jobs), DoAll(w, others);
    forall key ensures SameAt(s.world, t.world, key) {
      assert AsAlone(w, jobs, s.world, key) && AsAlone(w, others, t.world, key);
      SameThing(w, jobs, others, s.world, t.world, key);
    }
    SameEverywhere(s.world, t.world);
    SameReport(w, jobs, others, s.installations, t.installations);
  }

  lemma SameReport(w: World, jobs: seq<Job>, others: seq<Job>, xs: seq<Installation>, ys: seq<Installation>)
    requires multiset(jobs) == multiset(others) && DistinctJobs(jobs) && DistinctJobs(others)
    requires |xs| == |jobs| && forall i | 0 <= i < |jobs| :: xs[i] == Entry(w, jobs[i])
    requires |ys| == |others| && forall i | 0 <= i < |others| :: ys[i] == Entry(w, others[i])
    ensures SortByName(xs) == SortByName(ys) && SortedByName(SortByName(xs))
    ensures multiset(SortByName(xs)) == multiset(Entries(w, jobs))
  {
    hide DoJob;
    assert xs == Entries(w, jobs) && ys == Entries(w, others);
    var entry := j => Entry(w, j);
    SameImages(entry, jobs, others);
    assert Image(entry, jobs) == Entries(w, jobs) && Image(entry, others) == Entries(w, others);
    ReportIsSorted(xs);
    ReportIsSorted(ys);
    SortedIsUnique(SortByName(xs), SortByName(ys));
  }
}
