/**
 The results about prepared jobs, for a spec as it is declared: the order of its destinations does not
 matter, and applying it again does nothing.
 */
module WholeSpec {
  import opened Prelude
  import opened InstallSpec
  import opened Apply
  import opened Interference
  import opened Quiescence

  predicate DistinctDestinations(spec: seq<Destination>) {
    forall i, j | 0 <= i < j < |spec| :: spec[i].name != spec[j].name
  }

  // ---------- Order ----------

  /**
   Declaring the same destinations in another order changes nothing: if no two of them have anything
   in common, the world they leave and the sorted report are the same.
   */
  lemma SpecOrderDoesNotMatter(w: World, spec: seq<Destination>, other: seq<Destination>, force: set<string>,
                               env: Env, answers: string -> Answers)
    requires multiset(spec) == multiset(other) && DistinctDestinations(spec)
    requires Apart(w, JobsOf(spec, force, env, answers))
    ensures var s, t := DoAll(w, JobsOf(spec, force, env, answers)), DoAll(w, JobsOf(other, force, env, answers));
            && s.world == t.world && SortByName(s.installations) == SortByName(t.installations)
            && SortedByName(SortByName(s.installations))
  {
    hide DoAll, Apart, SortByName, SortedByName, TaskOf;
    var jobs, others := JobsOf(spec, force, env, answers), JobsOf(other, force, env, answers);
    var job := d => JobOf(d, force, env, answers);
    SameImages(job, spec, other);
    assert Image(job, spec) == jobs && Image(job, other) == others;
    OrderDoesNotMatter(w, jobs, others);
  }

  // ---------- What a destination comes to ----------

  lemma PlainContents(files: seq<Rendered>, m: Material, k: Bytes, k': Bytes)
    requires forall i | 0 <= i < |files| :: !files[i].content.Encoded?
    ensures Targets(files, m, k) == Targets(files, m, k')
  {
  }

  lemma PemIsPlain(d: Destination, m: Material, k: Option<Bytes>, k': Option<Bytes>)
    requires !d.Keystore()
    ensures Render(d, m, k) == Render(d, m, k')
    ensures Render(d, m, k).Some? ==> forall i | 0 <= i < |Render(d, m, k).value| :: !Render(d, m, k).value[i].content.Encoded?
  {
  }

  /**
   What a destination comes to depends on the world's answers only where it must: for a store not at
   all, for PEM files on whether their owner is known, and for a keystore also on its encoding.
   */
  lemma TaskIsDetermined(d: Destination, env: Env, a: Answers, b: Answers)
    requires d.ToStore() || (a.owned == b.owned && (d.Keystore() ==> a.keystore == b.keystore))
    ensures TaskOf(d, env, a) == TaskOf(d, env, b)
  {
    hide Render, FindHeld, Targets;
    match FindHeld(env.held, d.certificate)
    case None =>
    case Some(h) =>
      if !d.ToStore() && !d.Keystore() && h.material.Some? {
        var m := h.material.value;
        PemIsPlain(d, m, a.keystore, b.keystore);
        if Render(d, m, a.keystore).Some? {
          PlainContents(Render(d, m, a.keystore).value, m, a.keystore.GetOr([]), b.keystore.GetOr([]));
        }
      }
  }

  lemma StopsAreNotInstalled(d: Destination, env: Env, a: Answers)
    ensures TaskOf(d, env, a).Stop? ==> TaskOf(d, env, a).report.status != Installed
    ensures TaskOf(d, env, a).Files? ==> a.owned && !d.ToStore()
    ensures TaskOf(d, env, a).InStore? ==> d.ToStore()
  {
    hide Render, FindHeld;
  }

  lemma {:induction false} StopReports(w: World, jobs: seq<Job>, i: nat)
    requires i < |jobs|
    ensures |DoAll(w, jobs).installations| == |jobs|
    ensures jobs[i].task.Stop? ==> DoAll(w, jobs).installations[i].report == jobs[i].task.report
  {
    var most := jobs[..|jobs| - 1];
    OneEach(w, jobs);
    OneEach(w, most);
    if i < |most| {
      StopReports(w, most, i);
    }
  }

  // ---------- Coming to rest ----------

  /** In the second application a destination meets what it met in the first, as far as that decides
      what it comes to; and files can be read and set, and stores read. */
  predicate SteadyAnswers(d: Destination, env: Env, a: Answers, b: Answers) {
    && (!d.ToStore() ==> b.owned) && (d.Keystore() ==> b.keystore == a.keystore)
    && Comparable(TaskOf(d, env, b), b)
  }

  /**
   Quiescence of a spec. After an application, forced or not, in which every declared destination
   reports installed, applying the same spec to the same held material without force runs no command,
   makes no store call but reads, changes no binding, no certificate and no content, and reports
   every destination installed.
   */
  lemma SpecComesToRest(w: World, spec: seq<Destination>, force: set<string>, env: Env,
                        answers: string -> Answers, again: string -> Answers)
    requires var jobs := JobsOf(spec, force, env, answers);
             && AllSeparate(jobs) && AllUnambiguous(w, jobs) && TidyCalls(DoAll(w, jobs).calls)
             && (|DoAll(w, jobs).installations| == |jobs|
                 ==> forall i | 0 <= i < |jobs| :: DoAll(w, jobs).installations[i].report.status == Installed)
    requires forall i | 0 <= i < |spec| :: SteadyAnswers(spec[i], env, answers(spec[i].name), again(spec[i].name))
    ensures var s := DoAll(w, JobsOf(spec, force, env, answers));
            var t := DoAll(s.world, JobsOf(spec, {}, env, again));
            && t.seen == [] && OnlyReads(t.calls)
            && t.world.host == s.world.host && SameContents(t.world.files, s.world.files)
            && |t.installations| == |spec|
            && forall i | 0 <= i < |spec| :: t.installations[i].report.status == Installed
  {
    hide DoAll, AllSeparate, AllUnambiguous, TidyCalls, TaskOf, Comparable, OnlyReads, SameContents;
    var jobs, later := JobsOf(spec, force, env, answers), JobsOf(spec, {}, env, again);
    forall i | 0 <= i < |spec|
      ensures later[i].task == jobs[i].task && !later[i].task.Stop? && Comparable(later[i].task, later[i].answers)
    {
      var d := spec[i];
      StopReports(w, jobs, i);
      StopsAreNotInstalled(d, env, answers(d.name));
      TaskIsDetermined(d, env, answers(d.name), again(d.name));
    }
    assert forall i | 0 <= i < |spec| :: later[i].task == TasksOf(jobs)[i];
    ApplyingAgainDoesNothing(w, jobs, later);
  }
}
