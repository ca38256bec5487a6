/**
 What becomes of the jobs a core hands out, from end to end (deploy.go): which destinations each one
 covers, that exactly those are reinstalled, and what is reported of each.
 */
module Settlement {
  import opened Prelude
  import opened Text
  import opened InstallSpec
  import opened Apply
  import opened Deploy
  import ApplyGuarantees

  // ---------- Which destinations a job covers ----------

  function DeclaredIn(spec: seq<Destination>): string -> bool { n => Declared(spec, n) }

  function IssuedTo(certificate: string): Destination -> bool { (d: Destination) => d.certificate == certificate }

  function Itself(): string -> string { n => n }

  function NameOf(): Destination -> string { (d: Destination) => d.name }

  lemma {:induction false} NamedOnesPicked(spec: seq<Destination>, names: seq<string>)
    ensures Picked(names, DeclaredIn(spec), Itself(), NamedOnes(spec, names))
  {
    hide Declared, Picked;
    if names == [] {
      PickNone(DeclaredIn(spec), Itself());
    } else {
      var most, n := names[..|names| - 1], names[|names| - 1];
      NamedOnesPicked(spec, most);
      PickNext(most, n, DeclaredIn(spec), Itself(), NamedOnes(spec, most));
      assert names == most + [n];
    }
  }

  lemma {:induction false} ForCertificatePicked(spec: seq<Destination>, certificate: string)
    ensures Picked(spec, IssuedTo(certificate), NameOf(), ForCertificate(spec, certificate))
  {
    hide Picked;
    if spec == [] {
      PickNone(IssuedTo(certificate), NameOf());
    } else {
      var most, d := spec[..|spec| - 1], spec[|spec| - 1];
      ForCertificatePicked(most, certificate);
      PickNext(most, d, IssuedTo(certificate), NameOf(), ForCertificate(most, certificate));
      assert spec == most + [d];
    }
  }

  /**
   Which destinations a job covers. If one of the destinations it names is declared here, exactly the
   named ones that are, in the order named, and none on account of its certificate. Otherwise exactly
   those declared for the certificate's cleaned name, in the order declared.
   */
  lemma CoveredExactly(spec: seq<Destination>, a: Assignment)
    ensures forall n :: Declared(spec, n) <==> exists i :: 0 <= i < |spec| && spec[i].name == n
    ensures if exists n :: n in a.destinations && Declared(spec, n)
            then Picked(a.destinations, DeclaredIn(spec), Itself(), Covered(spec, a))
            else Picked(spec, IssuedTo(CleanName(a.commonName)), NameOf(), Covered(spec, a))
  {
    hide Picked, CleanName;
    NamedOnesPicked(spec, a.destinations);
    ForCertificatePicked(spec, CleanName(a.commonName));
    NamedOnesDeclared(spec, a.destinations);
    var named := NamedOnes(spec, a.destinations);
    if named != [] { assert named[0] in named; }
  }

  // ---------- Who is credited ----------

  /** An installation is credited to the last job that covers it, and to none if none does. */
  lemma {:induction false} LastJobIsCredited(spec: seq<Destination>, jobs: seq<Assignment>, name: string)
    ensures match JobFor(spec, jobs, name)
            case None => forall k | 0 <= k < |jobs| :: name !in Covered(spec, jobs[k])
            case Some(id) =>
              exists k :: && 0 <= k < |jobs| && jobs[k].jobId == id && name in Covered(spec, jobs[k])
                          && forall i | k < i < |jobs| :: name !in Covered(spec, jobs[i])
  {
    hide Covered;
    if jobs != [] {
      var most, last := jobs[..|jobs| - 1], |jobs| - 1;
      if name !in Covered(spec, jobs[last]) {
        LastJobIsCredited(spec, most, name);
        assert forall i | 0 <= i < last :: most[i] == jobs[i];
        if JobFor(spec, most, name).Some? {
          var k :| 0 <= k < last && most[k].jobId == JobFor(spec, most, name).value && name in Covered(spec, most[k])
                   && forall i | k < i < last :: name !in Covered(spec, most[i]);
          assert jobs[k] == most[k];
        }
      }
    }
  }

  // ---------- From the jobs handed out to what is posted ----------

  predicate DistinctlyNamed(spec: seq<Destination>) {
    forall i, j | 0 <= i < j < |spec| :: spec[i].name != spec[j].name
  }

  /** The task of every declared destination in turn, forced exactly where one of the jobs covers it. */
  ghost predicate Prepared(js: seq<Job>, spec: seq<Destination>, claimed: seq<Assignment>, env: Env, answers: string -> Answers) {
    && |js| == |spec|
    && forall i | 0 <= i < |spec| ::
         && js[i].name == spec[i].name && js[i].answers == answers(spec[i].name)
         && js[i].task == TaskOf(spec[i], env, answers(spec[i].name))
         && (js[i].force <==> exists k :: 0 <= k < |claimed| && spec[i].name in Covered(spec, claimed[k]))
  }

  /** Some state report entry says that this destination is installed. */
  predicate SaidInstalled(entries: seq<(Installation, Option<string>)>, n: string) {
    exists i :: 0 <= i < |entries| && entries[i].0.name == n && entries[i].0.report.status == Installed
  }

  lemma ForcedArePrepared(spec: seq<Destination>, claimed: seq<Assignment>, env: Env, answers: string -> Answers)
    ensures Prepared(JobsOf(spec, Forced(spec, claimed), env, answers), spec, claimed, env, answers)
  {
    hide Covered, TaskOf;
    ForcedIsTheUnion(spec, claimed);
  }

  lemma SaidIsReported(spec: seq<Destination>, jobs: seq<Assignment>, report: seq<Installation>, n: string)
    ensures SaidInstalled(Credited(spec, jobs, report), n) <==> ReportedInstalled(report, n)
  {
    hide JobFor;
    var entries := Credited(spec, jobs, report);
    if i :| 0 <= i < |report| && report[i].name == n && report[i].report.status == Installed {
      assert entries[i].0 == report[i];
    }
  }

  /**
   Settlement, from end to end. In a cycle that reaches the core over a declared spec, the core is asked
   once; every destination is brought into line, reinstalled exactly where a job handed out covers it;
   the state is reported, with one entry for each destination, credited to the last job that covers it;
   and then every job handed out gets one result, in turn, which says success if and only if it covers
   at least one destination and the state report says that each it covers is installed.
   */
  lemma CycleSettlesEveryJob(w: World, had: bool, spec: seq<Destination>, handed: Option<seq<Assignment>>, env: Env,
                             answers: string -> Answers)
    requires spec != [] && DistinctlyNamed(spec)
    ensures var (c, after) := CycleOf(w, Found(spec), true, handed, env, answers);
            var claimed := if handed.Some? then handed.value else [];
            exists js, entries ::
              && Prepared(js, spec, claimed, env, answers) && after == DoAll(w, js).world
              && CycleEntries(entries, DoAll(w, js).installations, spec, claimed)
              && SettledPosts(PostsOf(had, c), entries, spec, claimed)
  {
    hide DoAll, JobsOf, SortByName, Covered, ByName, Succeeds, TaskOf, Prepared, Credited, Results, Forced;
    var (c, after) := CycleOf(w, Found(spec), true, handed, env, answers);
    var claimed := if handed.Some? then handed.value else [];
    var js := JobsOf(spec, Forced(spec, claimed), env, answers);
    var report := SortByName(DoAll(w, js).installations);
    var entries := Credited(spec, claimed, report);
    ForcedArePrepared(spec, claimed, env, answers);
    CycleReportIsComplete(w, spec, Forced(spec, claimed), env, answers);
    EntriesAre(w, spec, claimed, js);
    PostsAreSettled(spec, claimed, report);
  }

  /** The entries of the state report: what each destination reported, in the order of their names, each
      with the last job that covers it. */
  ghost predicate CycleEntries(entries: seq<(Installation, Option<string>)>, made: seq<Installation>,
                               spec: seq<Destination>, claimed: seq<Assignment>) {
    && |entries| == |made| == |spec|
    && multiset(Image((e: (Installation, Option<string>)) => e.0, entries)) == multiset(made)
    && (forall i, j | 0 <= i < j < |entries| :: NameBefore(entries[i].0.name, entries[j].0.name))
    && (forall i | 0 <= i < |entries| :: entries[i].1 == JobFor(spec, claimed, entries[i].0.name))
  }

  /** A claim, the state report, and one result for each job. */
  ghost predicate SettledPosts(posts: seq<Post>, entries: seq<(Installation, Option<string>)>, spec: seq<Destination>, claimed: seq<Assignment>) {
    && |posts| == 2 + |claimed| && posts[0] == Claim && posts[1] == StateReport(entries)
    && forall k | 0 <= k < |claimed| ::
         var names := Covered(spec, claimed[k]);
         posts[2 + k] == Result(claimed[k].jobId, names != [] && forall n | n in names :: SaidInstalled(entries, n))
  }

  lemma EntriesAre(w: World, spec: seq<Destination>, claimed: seq<Assignment>, js: seq<Job>)
    requires DistinctlyNamed(spec) && |js| == |spec| && forall i | 0 <= i < |spec| :: js[i].name == spec[i].name
    ensures var made := DoAll(w, js).installations;
            CycleEntries(Credited(spec, claimed, SortByName(made)), made, spec, claimed)
  {
    hide DoAll, SortByName, JobFor, NameBefore;
    var made := DoAll(w, js).installations;
    EntriesAreNamed(w, js);
    ApplyGuarantees.ReportIsSorted(made);
    var report := SortByName(made);
    var entries := Credited(spec, claimed, report);
    assert |report| == |made| by { assert |multiset(report)| == |multiset(made)|; }
    assert Image((e: (Installation, Option<string>)) => e.0, entries) == report;
  }

  lemma PostsAreSettled(spec: seq<Destination>, claimed: seq<Assignment>, report: seq<Installation>)
    requires spec != [] && Complete(spec, report)
    ensures SettledPosts(CyclePosts(spec, true, claimed, report), Credited(spec, claimed, report), spec, claimed)
  {
    hide Complete, ByName, Covered, Succeeds, Credited, ReportedInstalled, SaidInstalled;
    var entries := Credited(spec, claimed, report);
    forall k | 0 <= k < |claimed|
      ensures Succeeds(Covered(spec, claimed[k]), ByName(report)) <==>
                Covered(spec, claimed[k]) != [] && forall n | n in Covered(spec, claimed[k]) :: SaidInstalled(entries, n)
    {
      SucceedsExactly(spec, claimed[k], report);
      forall n ensures SaidInstalled(entries, n) <==> ReportedInstalled(report, n) {
        SaidIsReported(spec, claimed, report, n);
      }
    }
  }

  /** A cycle that does not reach the core, or over a spec without destinations, claims and forces
      nothing; and one that does not reach it posts nothing, whatever it finds. */
  lemma UnclaimedCycle(w: World, had: bool, read: SpecFile, reachable: bool, handed: Option<seq<Assignment>>, env: Env,
                       answers: string -> Answers)
    ensures var (c, after) := CycleOf(w, read, reachable, handed, env, answers);
            && (!reachable ==> PostsOf(had, c) == [])
            && (read.Unreadable? && reachable ==> PostsOf(had, c) == [ErrorReport])
            && (!read.Found? ==> after == w)
            && (read.Found? && (!reachable || read.destinations == []) ==>
                  exists js :: Prepared(js, read.destinations, [], env, answers) && after == DoAll(w, js).world)
  {
    hide DoAll, SortByName, Covered, TaskOf, Prepared, Forced;
    if read.Found? {
      ForcedArePrepared(read.destinations, [], env, answers);
    }
  }
}
