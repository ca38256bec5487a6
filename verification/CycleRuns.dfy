/**
 From single store installs to whole cycles: over any sequence of cycles, in which file and store
 destinations are applied one after another, and between which others may re-point endpoints, no state
 of the host has a dangling binding.
 */
module CycleRuns {
  import opened Apply
  import S = StoreInstall
  import R = StoreRuns
  import opened StoreSafety

  // ---------- Runs of installs ----------

  lemma {:induction false} RunAppend(h: S.Host, run: seq<R.Event>, last: R.Event)
    ensures R.AfterRun(h, run + [last]) == last.After(R.AfterRun(h, run))
    decreases |run|
  {
    hide R.Event.After;
    var all := run + [last];
    if run == [] {
      assert all == [last] && all[1..] == [];
      assert R.AfterRun(h, [last]) == R.AfterRun(last.After(h), []);
    } else {
      assert all[0] == run[0] && all[1..] == run[1..] + [last];
      RunAppend(run[0].After(h), run[1..], last);
    }
  }

  /** Two runs in a row meet the hypotheses exactly when each does where it starts. */
  lemma {:induction false} MeetsSplit(estate: R.Estate, h: S.Host, a: seq<R.Event>, b: seq<R.Event>, except: set<R.Hypothesis>)
    ensures R.RunMeets(estate, h, a + b, except) <==>
              R.RunMeets(estate, h, a, except) && R.RunMeets(estate, R.AfterRun(h, a), b, except)
    decreases |a|
  {
    hide R.Event.After, R.Holds, R.Estate.Knows;
    if a == [] {
      assert a + b == b;
    } else {
      assert (a + b)[0] == a[0] && (a + b)[1..] == a[1..] + b;
      MeetsSplit(estate, a[0].After(h), a[1..], b, except);
    }
  }

  /** Two call sequences in a row are safe exactly when each is where it starts. */
  lemma {:induction false} SafeConcat(h: S.Host, a: seq<S.Call>, b: seq<S.Call>)
    ensures AlwaysSafe(h, a + b) <==> AlwaysSafe(h, a) && AlwaysSafe(S.Replay(h, a), b)
    decreases |a|
  {
    hide AlwaysSafe, NoDangling, S.Step;
    if a == [] {
      assert a + b == b;
      SafeUnfold(h, a);
      SafeUnfold(h, b);
    } else {
      var next := S.Step(h, a[0]);
      assert a + b == [a[0]] + (a[1..] + b) && a == [a[0]] + a[1..];
      SafeAfter(h, a[0], a[1..] + b);
      SafeAfter(h, a[0], a[1..]);
      SafeConcat(next, a[1..], b);
    }
  }

  lemma {:induction false} SafeAppend(h: S.Host, run: seq<R.Event>, last: R.Event)
    requires R.RunSafe(h, run + [last])
    ensures R.RunSafe(h, run) && last.Safe(R.AfterRun(h, run))
    decreases |run|
  {
    hide R.Event.After, R.Event.Safe;
    var all := run + [last];
    if run == [] {
      assert all[0] == last;
    } else {
      assert all[0] == run[0] && all[1..] == run[1..] + [last];
      SafeAppend(run[0].After(h), run[1..], last);
    }
  }

  // ---------- Cycles ----------

  function InstallOf(j: Job): seq<R.Event> {
    match j.task
    case InStore(d, c) => [R.Do(R.Install(d, c, j.force, j.answers.store))]
    case _ => []
  }

  /** The store installs of a cycle, in order. */
  function Installs(jobs: seq<Job>): seq<R.Event> {
    if jobs == [] then [] else Installs(jobs[..|jobs| - 1]) + InstallOf(jobs[|jobs| - 1])
  }

  /** What happens to a host: a cycle of the agent, or something else in between. */
  datatype Turn = Cycle(jobs: seq<Job>) | Outside(event: R.Event)
  {
    function After(w: World): World {
      match this
      case Cycle(jobs) => DoAll(w, jobs).world
      case Outside(event) => w.(host := event.After(w.host))
    }

    /** Every state the stores and bindings pass through has no dangling binding. */
    ghost predicate Safe(w: World) {
      match this
      case Cycle(jobs) => AlwaysSafe(w.host, DoAll(w, jobs).calls)
      case Outside(event) => event.Safe(w.host)
    }

    function Events(): seq<R.Event> {
      match this
      case Cycle(jobs) => Installs(jobs)
      case Outside(event) => [event]
    }
  }

  function AllEvents(turns: seq<Turn>): seq<R.Event> {
    if turns == [] then [] else turns[0].Events() + AllEvents(turns[1..])
  }

  function AfterTurns(w: World, turns: seq<Turn>): World
    decreases |turns|
  {
    if turns == [] then w else AfterTurns(turns[0].After(w), turns[1..])
  }

  ghost predicate TurnsSafe(w: World, turns: seq<Turn>)
    decreases |turns|
  {
    NoDangling(w.host) && (turns != [] ==> turns[0].Safe(w) && TurnsSafe(turns[0].After(w), turns[1..]))
  }

  /** What a cycle does to stores and bindings is what its calls do, and that is the run of its
      store installs. */
  lemma {:induction false} CycleIsItsInstalls(w: World, jobs: seq<Job>)
    ensures DoAll(w, jobs).world.host == R.AfterRun(w.host, Installs(jobs))
    ensures S.Replay(w.host, DoAll(w, jobs).calls) == DoAll(w, jobs).world.host
  {
    hide S.InstallPlan, R.AfterRun;
    if jobs == [] {
      NothingRun(w.host);
    } else {
      var most, j := jobs[..|jobs| - 1], jobs[|jobs| - 1];
      var s := DoAll(w, most);
      CycleIsItsInstalls(w, most);
      S.ReplayConcat(w.host, s.calls, DoJob(s.world, j).calls);
      if j.task.InStore? {
        RunAppend(w.host, Installs(most), InstallOf(j)[0]);
      } else {
        assert Installs(most) + [] == Installs(most);
      }
    }
  }

  lemma NothingRun(h: S.Host)
    ensures R.AfterRun(h, []) == h
  {
  }

  lemma {:induction false} CycleIsSafe(w: World, jobs: seq<Job>)
    requires R.RunSafe(w.host, Installs(jobs))
    ensures AlwaysSafe(w.host, DoAll(w, jobs).calls)
  {
    hide S.InstallPlan, R.AfterRun, R.RunSafe, AlwaysSafe, S.Replay;
    if jobs == [] {
      NothingIsSafe(w.host);
    } else {
      var most, j := jobs[..|jobs| - 1], jobs[|jobs| - 1];
      var s := DoAll(w, most);
      CycleIsItsInstalls(w, most);
      if j.task.InStore? {
        SafeAppend(w.host, Installs(most), InstallOf(j)[0]);
        CycleIsSafe(w, most);
        SafeConcat(w.host, s.calls, DoJob(s.world, j).calls);
      } else {
        assert Installs(most) + [] == Installs(most);
        CycleIsSafe(w, most);
        assert s.calls + [] == s.calls;
      }
    }
  }

  lemma NothingIsSafe(h: S.Host)
    requires R.RunSafe(h, [])
    ensures AlwaysSafe(h, [])
  {
    SafeUnfold(h, []);
  }

  lemma TurnIsItsEvents(w: World, turn: Turn)
    ensures turn.After(w).host == R.AfterRun(w.host, turn.Events())
    ensures R.RunSafe(w.host, turn.Events()) ==> turn.Safe(w)
  {
    hide R.RunSafe, R.AfterRun, AlwaysSafe, DoAll, R.Event.Safe, R.Event.After, Installs;
    match turn
    case Cycle(jobs) =>
      CycleIsItsInstalls(w, jobs);
      if R.RunSafe(w.host, Installs(jobs)) { CycleIsSafe(w, jobs); }
    case Outside(event) =>
      assert [] + [event] == [event];
      NothingRun(w.host);
      RunAppend(w.host, [], event);
      if R.RunSafe(w.host, [event]) { SafeAppend(w.host, [], event); }
  }

  /**
   The goal of the rollback's order, over the life of a host. From a kept host, if every store install
   of every cycle, forced or not, and everybody else meets the hypotheses, then whatever else fails, and
   whatever file destinations do in between, no state of any cycle has a binding that names an absent
   certificate.
   */
  lemma {:induction false} CyclesNeverDangle(estate: R.Estate, w: World, turns: seq<Turn>)
    requires estate.Valid() && estate.Kept(w.host) && R.RunMeets(estate, w.host, AllEvents(turns), {})
    ensures TurnsSafe(w, turns) && estate.Kept(AfterTurns(w, turns).host)
    decreases |turns|
  {
    hide R.RunMeets, R.RunSafe, R.AfterRun, Turn.Safe, Turn.After, Turn.Events;
    assert NoDangling(w.host);
    if turns != [] {
      var now, later := turns[0].Events(), AllEvents(turns[1..]);
      MeetsSplit(estate, w.host, now, later, {});
      R.RunsNeverDangle(estate, w.host, now);
      TurnIsItsEvents(w, turns[0]);
      CyclesNeverDangle(estate, turns[0].After(w), turns[1..]);
    }
  }
}
